/** The template helper `iterate`, which the calendar templates use to count
    through the days of a month. */
module Render {

  /** `Iterate`: the numbers 1, 2, ..., count (empty when count <= 0). */
  method Iterate(count: int) returns (items: seq<int>)
    ensures count <= 0 ==> items == []
    ensures count >= 0 ==> |items| == count
    ensures forall k :: 0 <= k < |items| ==> items[k] == k + 1
    ensures forall j, k :: 0 <= j < k < |items| ==> items[j] < items[k]
    ensures count >= 1 ==> items[0] == 1 && items[|items| - 1] == count
  {
    items := [];
    var i := 1;
    while i < count + 1
      invariant 1 <= i
      invariant count >= 0 ==> i <= count + 1
      invariant count < 0 ==> i == 1
      invariant |items| == i - 1
      invariant forall k :: 0 <= k < |items| ==> items[k] == k + 1
    {
      items := items + [i];
      i := i + 1;
    }
  }
}
