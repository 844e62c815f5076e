/** Sequence lookups with Python's list.index / str.index behaviour. */
module Seqs {
  import opened Results

  /** i is the earliest position of x in s. */
  predicate FirstMatch<T(==)>(s: seq<T>, x: T, i: int) {
    0 <= i < |s| && s[i] == x && forall j :: 0 <= j < i ==> s[j] != x
  }

  /** The first position holding x, or None where Python's index raises ValueError. */
  function IndexOf<T(==)>(s: seq<T>, x: T): (r: Option<nat>)
    ensures r.None? <==> x !in s
    ensures r.Some? ==> FirstMatch(s, x, r.value)
  {
    if |s| == 0 then None
    else if s[0] == x then Some(0)
    else match IndexOf(s[1..], x)
      case None => None
      case Some(i) => Some(i + 1)
  }

  /** At most one position is the first match. */
  lemma FirstMatchUnique<T>(s: seq<T>, x: T, i: int, j: int)
    requires FirstMatch(s, x, i) && FirstMatch(s, x, j)
    ensures i == j
  {
  }
}
