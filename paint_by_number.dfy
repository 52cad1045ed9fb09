/** The colour space 1..range (src/gtf/math/types/PaintByNumber.java). */
module PaintByNumber {
  import opened Wrappers
  import opened JavaPlatform

  datatype PaintByNumber = PaintByNumber(range: Int32, values: seq<int>)
  {
    /** What the constructor establishes: the values are 1, 2, ..., range. */
    ghost predicate Valid()
    {
      range >= 1 && |values| == range && forall i :: 0 <= i < |values| ==> values[i] == i + 1
    }

    /** getColours: the values in ascending order. */
    function Colours(): seq<int> { values }

    /** getNumberOfColours. */
    function NumberOfColours(): int { range }
  }

  /**
   * The constructor: a range below 1 throws IllegalArgumentException;
   * otherwise the loop appends 1..range to the value list.
   */
  method New(range: Int32) returns (r: Result<PaintByNumber, JavaException>)
    ensures r.Err? <==> range < 1
    ensures r.Err? ==> r.error == IllegalArgumentException("bad range " + IntToString(range))
    ensures r.Ok? ==> r.value.range == range && |r.value.values| == range
    ensures r.Ok? ==> forall i :: 0 <= i < range ==> r.value.values[i] == i + 1
  {
    if range < 1 {
      return Err(IllegalArgumentException("bad range " + IntToString(range)));
    }
    var values: seq<int> := [];
    var i := 1;
    while i <= range
      invariant 1 <= i <= range + 1
      invariant |values| == i - 1
      invariant forall k :: 0 <= k < |values| ==> values[k] == k + 1
    {
      values := values + [i];
      i := i + 1;
    }
    return Ok(PaintByNumber(range, values));
  }

  /** The colours are exactly range distinct values, all within [1, range]. */
  lemma ColoursDistinctInRange(p: PaintByNumber)
    requires p.Valid()
    ensures p.NumberOfColours() == |p.Colours()|
    ensures forall i, j :: 0 <= i < j < |p.Colours()| ==> p.Colours()[i] < p.Colours()[j]
    ensures forall c :: c in p.Colours() <==> 1 <= c <= p.range
  {
    forall c | 1 <= c <= p.range ensures c in p.Colours() {
      assert p.Colours()[c - 1] == c;
    }
  }
}
