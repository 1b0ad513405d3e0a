/**
  `round(value, 6)`: rounding to six decimal places, ties to even, on exact
  reals.
 */
module Rounding {
  import opened Values

  const Scale: real := 1000000.0

  /** The integer nearest to `y`; a tie goes to the even neighbour. */
  function NearestInt(y: real): (n: int)
    ensures -0.5 <= y - n as real <= 0.5
    ensures (y - n as real == 0.5 || y - n as real == -0.5) ==> n % 2 == 0
  {
    var f := y.Floor;
    var d := y - f as real;
    if d < 0.5 then f
    else if d > 0.5 then f + 1
    else if f % 2 == 0 then f
    else f + 1
  }

  /** `round(x, 6)`: a whole number of millionths, at most half a millionth from `x`. */
  function Round6(x: real): (r: real)
    ensures r * Scale == (r * Scale).Floor as real
    ensures -0.0000005 <= r - x <= 0.0000005
  {
    NearestInt(x * Scale) as real / Scale
  }

  lemma NearestOfInt(n: int)
    ensures NearestInt(n as real) == n
  {
    assert (n as real).Floor == n;
  }

  /** Rounding twice is rounding once. */
  lemma Round6Idempotent(x: real)
    ensures Round6(Round6(x)) == Round6(x)
  {
    var n := NearestInt(x * Scale);
    assert Round6(x) * Scale == n as real;
    NearestOfInt(n);
  }

  /** What the final loop of `propagate` stores for one node. */
  function RoundValue(v: Value): (w: Value)
    ensures v.Num? <==> w.Num?
    ensures v.Num? ==> w.r == Round6(v.r)
    ensures !v.Num? ==> w == v
  {
    if v.Num? then Num(Round6(v.r)) else v
  }

  lemma RoundValueIdempotent(v: Value)
    ensures RoundValue(RoundValue(v)) == RoundValue(v)
  {
    if v.Num? {
      Round6Idempotent(v.r);
    }
  }

  /** Every numeric node holds a rounded value. */
  ghost predicate AllRounded(nodes: Nodes)
  {
    forall k :: k in nodes ==> RoundValue(nodes[k]) == nodes[k]
  }

  /** The rounding loop: every numeric node, anywhere in the map, is rounded in place. */
  method RoundAll(nodes: Nodes) returns (r: Nodes)
    ensures r.Keys == nodes.Keys
    ensures forall k :: k in nodes ==> r[k] == RoundValue(nodes[k])
    ensures AllRounded(r)
  {
    r := nodes;
    var todo := nodes.Keys;
    while todo != {}
      invariant todo <= nodes.Keys && r.Keys == nodes.Keys
      invariant forall k :: k in nodes && k !in todo ==> r[k] == RoundValue(nodes[k])
      invariant forall k :: k in todo ==> r[k] == nodes[k]
      decreases todo
    {
      var k :| k in todo;
      if r[k].Num? {
        r := r[k := Num(Round6(r[k].r))];
      }
      todo := todo - {k};
    }
    forall k | k in r ensures RoundValue(r[k]) == r[k] {
      RoundValueIdempotent(nodes[k]);
    }
  }
}
