/**
 * The body shift of a movement tick. The segments are visited in query
 * order while a carried cell, initially the head's old cell, is swapped
 * into each one; a segment already on the head's new cell raises a
 * game-over signal and is skipped, keeping its cell and the carried one.
 */
module Body {
  import opened Grid

  /** The shifted body, the cell still carried at the end, and the collisions seen. */
  datatype ShiftResult = ShiftResult(body: seq<Position>, carried: Position, hits: nat)

  /**
   * The shift of `segs` behind a head now on `head`, carrying `carry` in;
   * defined on the prefix visited so far, the way the loop proceeds.
   */
  function Shift(segs: seq<Position>, head: Position, carry: Position): (r: ShiftResult)
    ensures |r.body| == |segs|
    decreases |segs|
  {
    if segs == [] then ShiftResult([], carry, 0)
    else
      var r := Shift(segs[..|segs| - 1], head, carry);
      var s := segs[|segs| - 1];
      if s == head then ShiftResult(r.body + [s], r.carried, r.hits + 1)
      else ShiftResult(r.body + [r.carried], s, r.hits)
  }

  /**
   * With no segment on the head's new cell, the body follows the head:
   * segment 0 takes the carried cell, segment i the old cell of segment
   * i - 1, the old last segment's cell comes out as the carried one (the
   * carried cell itself when there are no segments), and nothing collides.
   */
  lemma {:induction false} ShiftFollows(segs: seq<Position>, head: Position, carry: Position)
    requires head !in segs
    ensures Shift(segs, head, carry).hits == 0
    ensures forall i :: 0 <= i < |segs| ==>
      Shift(segs, head, carry).body[i] == if i == 0 then carry else segs[i - 1]
    ensures Shift(segs, head, carry).carried == if segs == [] then carry else segs[|segs| - 1]
  {
    if segs != [] {
      var init := segs[..|segs| - 1];
      assert forall i :: 0 <= i < |init| ==> init[i] == segs[i];
      ShiftFollows(init, head, carry);
    }
  }

  /**
   * Every segment on the head's new cell is counted once as a collision,
   * and stays where it is.
   */
  lemma {:induction false} ShiftCollides(segs: seq<Position>, head: Position, carry: Position)
    ensures Shift(segs, head, carry).hits == multiset(segs)[head]
    ensures forall i :: 0 <= i < |segs| && segs[i] == head ==> Shift(segs, head, carry).body[i] == head
  {
    if segs != [] {
      var init := segs[..|segs| - 1];
      assert segs == init + [segs[|segs| - 1]];
      assert forall i :: 0 <= i < |init| ==> init[i] == segs[i];
      ShiftCollides(init, head, carry);
    }
  }

  /** The shift only moves cells around: every cell it yields was a segment's or the carried one. */
  lemma {:induction false} ShiftWithin(segs: seq<Position>, head: Position, carry: Position)
    ensures forall p :: p in Shift(segs, head, carry).body ==> p in segs || p == carry
    ensures Shift(segs, head, carry).carried in segs || Shift(segs, head, carry).carried == carry
  {
    if segs != [] {
      var init := segs[..|segs| - 1];
      assert segs == init + [segs[|segs| - 1]];
      ShiftWithin(init, head, carry);
    }
  }

  /**
   * The loop of the movement step: each segment in turn either collides
   * with the head's new cell, or swaps its cell with the carried one.
   */
  method ShiftSegments(segs: seq<Position>, head: Position, carry: Position)
    returns (body: seq<Position>, carried: Position, hits: nat)
    ensures ShiftResult(body, carried, hits) == Shift(segs, head, carry)
  {
    body, carried, hits := segs, carry, 0;
    var i := 0;
    while i < |body|
      invariant 0 <= i <= |body| == |segs|
      invariant forall k :: i <= k < |body| ==> body[k] == segs[k]
      invariant Shift(segs[..i], head, carry) == ShiftResult(body[..i], carried, hits)
    {
      assert segs[..i + 1][..i] == segs[..i];
      if body[i] == head {
        hits := hits + 1;
      } else {
        var tmp := body[i];
        body := body[i := carried];
        carried := tmp;
      }
      assert body[..i + 1] == body[..i] + [body[i]];
      i := i + 1;
    }
    assert segs[..i] == segs;
    assert body[..i] == body;
  }
}
