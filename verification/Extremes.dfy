/** The greater and the lesser of integers, two at a time or over a nonempty sequence. */
module Extremes {

  function Max(a: int, b: int): int { if a < b then b else a }

  function Min(a: int, b: int): int { if b < a then b else a }

  function Least(values: seq<int>): (r: int)
    requires values != []
    ensures r in values && forall v | v in values :: r <= v
  {
    if |values| == 1 then values[0] else
      assert forall v :: v in values <==> v == values[0] || v in values[1..];
      Min(values[0], Least(values[1..]))
  }

  function Greatest(values: seq<int>): (r: int)
    requires values != []
    ensures r in values && forall v | v in values :: v <= r
  {
    if |values| == 1 then values[0] else
      assert forall v :: v in values <==> v == values[0] || v in values[1..];
      Max(values[0], Greatest(values[1..]))
  }
}
