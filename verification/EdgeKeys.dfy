/** Undirected edges packed into 64 bits: the smaller point id above the larger one. */
module EdgeKeys {
  const ID_LIMIT := 0x1_0000_0000

  function Lower(a: nat, b: nat): (r: nat) { if a < b then a else b }
  function Upper(a: nat, b: nat): (r: nat) { if a < b then b else a }

  function EdgeKey(a: nat, b: nat): (r: nat) {
    Lower(a, b) * ID_LIMIT + Upper(a, b)
  }

  function LowHalf(key: nat): (r: nat) { key / ID_LIMIT }
  function HighHalf(key: nat): (r: nat) { key % ID_LIMIT }

  predicate SameEdge(a: nat, b: nat, c: nat, d: nat) {
    (a == c && b == d) || (a == d && b == c)
  }

  /** Unpacking gives the two ids back. */
  lemma Unpacked(a: nat, b: nat)
    requires a < ID_LIMIT && b < ID_LIMIT
    ensures LowHalf(EdgeKey(a, b)) == Lower(a, b) && HighHalf(EdgeKey(a, b)) == Upper(a, b)
  {
  }

  /** Packing loses nothing: equal keys mean the same undirected edge. */
  lemma EdgeKeyInjective(a: nat, b: nat, c: nat, d: nat)
    requires a < ID_LIMIT && b < ID_LIMIT && c < ID_LIMIT && d < ID_LIMIT
    ensures EdgeKey(a, b) == EdgeKey(c, d) <==> SameEdge(a, b, c, d)
  {
    Unpacked(a, b);
    Unpacked(c, d);
  }
}
