/**
 * What the controller stores in the cache and reads back: `dbencode(false)` for
 * an empty result and `dbencode($array)` otherwise, and what `dbdecode` returns.
 * The serialised text itself is not modelled; only the two shapes are.
 */
module Encoding {
  import opened Catalogs

  /** A cache value written by the controller. */
  datatype Encoded = EncFalse | EncMap(entries: Catalog)

  /** A decoded cache value: PHP `false` or an array. */
  datatype Decoded = DFalse | DArray(entries: Catalog)

  /** An empty catalog is stored as the encoding of `false`, any other as the encoded array. */
  function Encode(c: Catalog): (e: Encoded)
    ensures e.EncFalse? <==> c == []
  {
    if c == [] then EncFalse else EncMap(c)
  }

  /**
   * `dbdecode`: the stored `false` sentinel decodes to `false`; a stored
   * non-empty array decodes to an array that encodes back to the stored value.
   */
  function Decode(e: Encoded): (d: Decoded)
    ensures d.DFalse? <==> e.EncFalse?
    ensures e.EncMap? && e.entries != [] ==> Encode(d.entries) == e
  {
    match e
    case EncFalse => DFalse
    case EncMap(entries) => DArray(entries)
  }

  /** What `foreach` visits in a decoded value: nothing when it is `false`. */
  function Entries(d: Decoded): (r: Catalog)
    ensures d.DFalse? ==> r == []
    ensures r != [] ==> Decode(Encode(r)) == d
  {
    match d
    case DFalse => []
    case DArray(entries) => entries
  }

  /**
   * Storing a catalog and decoding it again gives back the same pairs, and
   * gives `false` exactly when the catalog was empty.
   */
  function Reloaded(c: Catalog): (d: Decoded)
    ensures Entries(d) == c
    ensures d.DFalse? <==> c == []
  {
    Decode(Encode(c))
  }
}
