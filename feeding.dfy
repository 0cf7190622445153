/** Which food items a head on a given cell leaves uneaten. */
module Feeding {
  import opened Grid

  /** The food items not on `at`, in their original order. */
  function Uneaten(food: seq<Position>, at: Position): (r: seq<Position>)
    ensures |r| <= |food|
    decreases |food|
  {
    if food == [] then []
    else
      var r := Uneaten(food[..|food| - 1], at);
      var f := food[|food| - 1];
      if f == at then r else r + [f]
  }

  /**
   * Eating removes exactly the items on the head's cell: none is left
   * there, and every other cell keeps as many items as it had.
   */
  lemma {:induction false} UneatenExactly(food: seq<Position>, at: Position)
    ensures multiset(Uneaten(food, at)) == multiset(food)[at := 0]
  {
    if food != [] {
      var init := food[..|food| - 1];
      assert food == init + [food[|food| - 1]];
      UneatenExactly(init, at);
    }
  }

  /** As many items are eaten as lay on the head's cell. */
  lemma {:induction false} UneatenCount(food: seq<Position>, at: Position)
    ensures |Uneaten(food, at)| + multiset(food)[at] == |food|
  {
    if food != [] {
      var init := food[..|food| - 1];
      assert food == init + [food[|food| - 1]];
      UneatenCount(init, at);
    }
  }
}
