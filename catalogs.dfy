/**
 * The rule catalog as the controller builds it: an ordered PHP array whose keys
 * are rule class names and whose values are display names. This module gives
 * the array's lookup and assignment, the order `asort` sorts by, and the sort.
 */
module Catalogs {
  import opened Wrappers

  /** One key/value pair of the array: `$rules[$className] = $name`. */
  datatype Entry = Entry(className: string, name: string)

  /** A PHP array never holds the same key twice. */
  predicate DistinctKeys(s: seq<Entry>) {
    forall i, j :: 0 <= i < j < |s| ==> s[i].className != s[j].className
  }

  /** An ordered array from class name to display name. */
  type Catalog = s: seq<Entry> | DistinctKeys(s) witness []

  function Keys(s: seq<Entry>): set<string> {
    set e | e in s :: e.className
  }

  /** `$c[$k]` when `isset($c[$k])`, None otherwise. */
  function Lookup(c: seq<Entry>, k: string): (r: Option<string>)
    ensures r.Some? <==> k in Keys(c)
    ensures r.Some? ==> Entry(k, r.value) in c
  {
    if c == [] then None
    else if c[0].className == k then Some(c[0].name)
    else
      assert Keys(c) == {c[0].className} + Keys(c[1..]) by {
        assert c == [c[0]] + c[1..];
      }
      Lookup(c[1..], k)
  }

  /** In an array a key has one value, so every pair with that key carries it. */
  lemma {:induction false} LookupUnique(c: Catalog, k: string, v: string)
    requires Entry(k, v) in c
    ensures Lookup(c, k) == Some(v)
  {
    if c[0] != Entry(k, v) {
      assert c[0].className != k by {
        var i :| 0 <= i < |c| && c[i] == Entry(k, v);
        assert i != 0;
      }
      LookupUnique(c[1..], k, v);
    }
  }

  /**
   * `$c[$k] = $v`: when `$k` is already a key its value is replaced where it
   * stands; otherwise the pair is appended at the end.
   */
  function Put(c: Catalog, k: string, v: string): (r: Catalog)
    ensures Keys(r) == Keys(c) + {k}
    ensures k !in Keys(c) ==> r == c + [Entry(k, v)]
    ensures k in Keys(c) ==> |r| == |c|
    ensures k in Keys(c) ==> forall i :: 0 <= i < |c| ==>
                               r[i] == (if c[i].className == k then Entry(k, v) else c[i])
  {
    if c == [] then [Entry(k, v)]
    else
      HeadNotInTail(c);
      if c[0].className == k then
        ConsDistinct(Entry(k, v), c[1..]);
        var r := [Entry(k, v)] + c[1..];
        assert r[0] == Entry(k, v) && r[1..] == c[1..];
        r
      else
        var rest := Put(c[1..], k, v);
        ConsDistinct(c[0], rest);
        var r := [c[0]] + rest;
        assert r[0] == c[0] && r[1..] == rest;
        assert k !in Keys(c) ==> r == c + [Entry(k, v)];
        r
  }

  /** After `$c[$k] = $v`, `$c[$k]` is `$v` and every other key reads as before. */
  lemma {:induction false} PutLookup(c: Catalog, k: string, v: string, k': string)
    ensures Lookup(Put(c, k, v), k') == if k' == k then Some(v) else Lookup(c, k')
  {
    if c != [] {
      HeadNotInTail(c);
      var r := Put(c, k, v);
      if c[0].className == k {
        assert r == [Entry(k, v)] + c[1..];
        assert r[0] == Entry(k, v) && r[1..] == c[1..];
      } else {
        var rest := Put(c[1..], k, v);
        assert r == [c[0]] + rest;
        assert r[0] == c[0] && r[1..] == rest;
        PutLookup(c[1..], k, v, k');
      }
    }
  }

  lemma HeadNotInTail(c: Catalog)
    requires c != []
    ensures c == [c[0]] + c[1..]
    ensures Keys(c) == {c[0].className} + Keys(c[1..])
    ensures c[0].className !in Keys(c[1..])
  {
    assert c == [c[0]] + c[1..];
    forall e | e in c[1..] ensures e.className != c[0].className {
      var i :| 0 <= i < |c[1..]| && c[1..][i] == e;
      assert c[i + 1] == e;
    }
  }

  lemma ConsDistinct(e: Entry, s: Catalog)
    requires e.className !in Keys(s)
    ensures DistinctKeys([e] + s)
    ensures Keys([e] + s) == {e.className} + Keys(s)
  {
    var r := [e] + s;
    forall i, j | 0 <= i < j < |r| ensures r[i].className != r[j].className {
      if i == 0 {
        assert r[j] in s;
      } else {
        assert r[i] == s[i - 1] && r[j] == s[j - 1];
      }
    }
  }

  /**
   * `$b` keeps the elements of `$a` that it keeps, in the order `$a` has them:
   * `a` is a subsequence of `b`.
   */
  ghost predicate Subseq(a: seq<Entry>, b: seq<Entry>)
    decreases |b|
  {
    || a == []
    || (&& b != []
        && (|| (a[|a| - 1] == b[|b| - 1] && Subseq(a[..|a| - 1], b[..|b| - 1]))
            || Subseq(a, b[..|b| - 1])))
  }

  /**
   * `strcmp(a, b) <= 0`: the lexicographic order on character codes that
   * `asort` compares display names by.
   */
  predicate NameLe(a: string, b: string) {
    || a == []
    || (&& b != []
        && (a[0] < b[0] || (a[0] == b[0] && NameLe(a[1..], b[1..]))))
  }

  lemma {:induction false} NameLeTotal(a: string, b: string)
    ensures NameLe(a, b) || NameLe(b, a)
  {
    if a != [] && b != [] && a[0] == b[0] {
      NameLeTotal(a[1..], b[1..]);
    }
  }

  lemma {:induction false} NameLeTransitive(a: string, b: string, c: string)
    requires NameLe(a, b) && NameLe(b, c)
    ensures NameLe(a, c)
  {
    if a != [] && a[0] == b[0] && b[0] == c[0] {
      NameLeTransitive(a[1..], b[1..], c[1..]);
    }
  }

  lemma {:induction false} NameLeAntisymmetric(a: string, b: string)
    requires NameLe(a, b) && NameLe(b, a)
    ensures a == b
  {
    if a != [] {
      NameLeAntisymmetric(a[1..], b[1..]);
      assert a == [a[0]] + a[1..] && b == [b[0]] + b[1..];
    }
  }

  /** Ascending by display name, as `asort` leaves the array. */
  predicate SortedByName(s: seq<Entry>) {
    forall i, j :: 0 <= i < j < |s| ==> NameLe(s[i].name, s[j].name)
  }

  /** Where `e` goes in `s`: in front of the first entry whose name is not below its own. */
  function InsertPos(e: Entry, s: seq<Entry>): (p: nat)
    ensures p <= |s|
    ensures forall i :: 0 <= i < p ==> !NameLe(e.name, s[i].name)
    ensures p < |s| ==> NameLe(e.name, s[p].name)
  {
    if s == [] || NameLe(e.name, s[0].name) then 0 else 1 + InsertPos(e, s[1..])
  }

  lemma InsertKeepsSorted(e: Entry, s: seq<Entry>, p: nat)
    requires SortedByName(s)
    requires p == InsertPos(e, s)
    ensures SortedByName(s[..p] + [e] + s[p..])
  {
    var r := s[..p] + [e] + s[p..];
    forall i | 0 <= i < p ensures NameLe(s[i].name, e.name) {
      NameLeTotal(e.name, s[i].name);
    }
    forall i | p <= i < |s| ensures NameLe(e.name, s[i].name) {
      if i > p {
        NameLeTransitive(e.name, s[p].name, s[i].name);
      }
    }
    forall i, j | 0 <= i < j < |r| ensures NameLe(r[i].name, r[j].name) {
      if i < p && j == p {
      } else if i < p && j > p {
        assert r[j] == s[j - 1];
        NameLeTransitive(s[i].name, e.name, s[j - 1].name);
      } else if i == p {
        assert r[j] == s[j - 1];
      } else if i > p {
        assert r[i] == s[i - 1] && r[j] == s[j - 1];
      }
    }
  }

  lemma InsertKeepsDistinct(e: Entry, s: Catalog, p: nat)
    requires p <= |s|
    requires e.className !in Keys(s)
    ensures DistinctKeys(s[..p] + [e] + s[p..])
  {
    var r := s[..p] + [e] + s[p..];
    forall i, j | 0 <= i < j < |r| ensures r[i].className != r[j].className {
      if i == p {
        assert r[j] == s[j - 1];
      } else if j == p {
        assert r[i] == s[i];
      } else {
        var i' := if i < p then i else i - 1;
        var j' := if j < p then j else j - 1;
        assert r[i] == s[i'] && r[j] == s[j'];
      }
    }
  }

  lemma InsertAddsOne(e: Entry, s: seq<Entry>, p: nat)
    requires p <= |s|
    ensures multiset(s[..p] + [e] + s[p..]) == multiset(s) + multiset{e}
  {
    assert s == s[..p] + s[p..];
  }

  /** One step of the insertion sort: place `e` into the sorted array `s`. */
  function Insert(e: Entry, s: Catalog): (r: Catalog)
    requires SortedByName(s)
    requires e.className !in Keys(s)
    ensures SortedByName(r)
    ensures multiset(r) == multiset(s) + multiset{e}
  {
    var p := InsertPos(e, s);
    InsertKeepsSorted(e, s, p);
    InsertKeepsDistinct(e, s, p);
    InsertAddsOne(e, s, p);
    s[..p] + [e] + s[p..]
  }

  /**
   * `asort($tempRules)`: the same key/value pairs, ascending by display name.
   */
  function SortByName(c: Catalog): (r: Catalog)
    ensures SortedByName(r)
    ensures multiset(r) == multiset(c)
  {
    if c == [] then []
    else
      assert c == [c[0]] + c[1..];
      var rest := SortByName(c[1..]);
      forall e | e in rest ensures e.className != c[0].className {
        assert e in multiset(c[1..]);
        var i :| 0 <= i < |c[1..]| && c[1..][i] == e;
        assert c[i + 1] == e;
      }
      Insert(c[0], rest)
  }

  /** Sorting keeps every key and the value it maps to. */
  lemma SortKeepsPairs(c: Catalog)
    ensures Keys(SortByName(c)) == Keys(c)
    ensures forall k :: Lookup(SortByName(c), k) == Lookup(c, k)
  {
    var r := SortByName(c);
    assert forall e :: e in r <==> e in c by {
      forall e ensures e in r <==> e in c {
        assert e in r <==> e in multiset(r);
        assert e in c <==> e in multiset(c);
      }
    }
    forall k ensures Lookup(r, k) == Lookup(c, k) {
      if Lookup(c, k).Some? {
        LookupUnique(r, k, Lookup(c, k).value);
      }
      if Lookup(r, k).Some? {
        LookupUnique(c, k, Lookup(r, k).value);
      }
    }
  }
}
