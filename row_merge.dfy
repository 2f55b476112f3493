/** Merging the boxes that start on the same row (one work block split by the grid's
    vertical lines) into one box per row. */
module RowMerge {
  import opened Imaging

  function Min(a: int, b: int): int { if a <= b then a else b }
  function Max(a: int, b: int): int { if a >= b then a else b }

  /** Some box of `s` starts on row `t`. */
  ghost predicate HasTop(s: seq<Box>, t: int)
  {
    exists k :: 0 <= k < |s| && s[k].y0 == t
  }

  /** The distinct top rows of `s`, each listed at the place where it is first seen. */
  ghost function Tops(s: seq<Box>): (r: seq<int>)
    ensures forall t :: t in r <==> HasTop(s, t)
    ensures forall i, j :: 0 <= i < j < |r| ==> r[i] != r[j]
    decreases |s|
  {
    if s == [] then []
    else
      var init, last := s[..|s| - 1], s[|s| - 1];
      var p := Tops(init);
      assert forall t :: HasTop(s, t) <==> HasTop(init, t) || last.y0 == t by {
        forall t ensures HasTop(s, t) <==> HasTop(init, t) || last.y0 == t {
          if HasTop(s, t) && last.y0 != t {
            var k :| 0 <= k < |s| && s[k].y0 == t;
            assert init[k] == s[k];
          }
          if HasTop(init, t) {
            var k :| 0 <= k < |init| && init[k].y0 == t;
            assert s[k] == init[k];
          }
        }
      }
      if last.y0 in p then p else p + [last.y0]
  }

  /** The merged box of group `t`: top row `t`, the smallest left edge, the largest right
      edge and the largest bottom edge among the boxes of `s` that start on row `t`. */
  ghost function GroupBox(s: seq<Box>, t: int): (b: Box)
    requires HasTop(s, t)
    ensures b.y0 == t
    ensures forall k :: 0 <= k < |s| && s[k].y0 == t ==> b.x0 <= s[k].x0 && s[k].x1 <= b.x1 && s[k].y1 <= b.y1
    ensures exists k :: 0 <= k < |s| && s[k].y0 == t && s[k].x0 == b.x0
    ensures exists k :: 0 <= k < |s| && s[k].y0 == t && s[k].x1 == b.x1
    ensures exists k :: 0 <= k < |s| && s[k].y0 == t && s[k].y1 == b.y1
    decreases |s|
  {
    var init, last := s[..|s| - 1], s[|s| - 1];
    assert forall k :: 0 <= k < |init| ==> init[k] == s[k];
    if last.y0 != t then
      assert HasTop(init, t) by {
        var k :| 0 <= k < |s| && s[k].y0 == t;
        assert k < |init|;
      }
      GroupBox(init, t)
    else if !HasTop(init, t) then
      last
    else
      var g := GroupBox(init, t);
      Box(Min(g.x0, last.x0), Max(g.x1, last.x1), t, Max(g.y1, last.y1))
  }

  /** Top rows are listed in first-seen order: row `Tops(s)[i]` occurs in `s` before the
      first occurrence of any later-listed row. */
  lemma {:induction false} TopsInFirstSeenOrder(s: seq<Box>, i: int, j: int)
    requires 0 <= i < j < |Tops(s)|
    ensures exists k ::
      0 <= k < |s| && s[k].y0 == Tops(s)[i] && forall m :: 0 <= m <= k ==> s[m].y0 != Tops(s)[j]
    decreases |s|
  {
    var init, last := s[..|s| - 1], s[|s| - 1];
    var p := Tops(init);
    assert forall m :: 0 <= m < |init| ==> init[m] == s[m];
    if j < |p| {
      TopsInFirstSeenOrder(init, i, j);
      var k :| 0 <= k < |init| && init[k].y0 == p[i] && forall m :: 0 <= m <= k ==> init[m].y0 != p[j];
      assert s[k].y0 == Tops(s)[i];
    } else {
      assert Tops(s)[j] == last.y0 && last.y0 !in p;
      assert p[i] in p;
      var k :| 0 <= k < |init| && init[k].y0 == p[i];
      assert s[k].y0 == Tops(s)[i];
    }
  }

  /** The first index of `acc` whose box starts on row `t` (the array's `find`). */
  function FindIndexByTop(acc: seq<Box>, t: int): (r: Option<nat>)
    ensures r.None? ==> forall i :: 0 <= i < |acc| ==> acc[i].y0 != t
    ensures r.Some? ==>
      r.value < |acc| && acc[r.value].y0 == t && forall i :: 0 <= i < r.value ==> acc[i].y0 != t
    decreases |acc|
  {
    if acc == [] then None
    else if acc[0].y0 == t then Some(0)
    else match FindIndexByTop(acc[1..], t)
      case None => None
      case Some(i) => Some(i + 1)
  }

  /** The merge fold is correct so far: one box per distinct top row of `seen`, in
      first-seen order, each the group box of its row. */
  ghost predicate MergedFrom(merged: seq<Box>, seen: seq<Box>)
  {
    && |merged| == |Tops(seen)|
    && forall k :: 0 <= k < |merged| ==> merged[k] == GroupBox(seen, Tops(seen)[k])
  }

  /** Adding a box leaves the groups of the other rows unchanged. */
  lemma GroupBoxOtherRow(seen: seq<Box>, value: Box, t: int)
    requires HasTop(seen, t) && t != value.y0
    ensures HasTop(seen + [value], t) && GroupBox(seen + [value], t) == GroupBox(seen, t)
  {
    var s := seen + [value];
    assert s[..|s| - 1] == seen;
    var k :| 0 <= k < |seen| && seen[k].y0 == t;
    assert s[k] == seen[k];
  }

  /** Adding a box to an existing row widens that row's group box by it. */
  lemma GroupBoxSameRow(seen: seq<Box>, value: Box)
    requires HasTop(seen, value.y0)
    ensures HasTop(seen + [value], value.y0)
    ensures var g := GroupBox(seen, value.y0);
      GroupBox(seen + [value], value.y0)
        == g.(x0 := Min(g.x0, value.x0), x1 := Max(g.x1, value.x1), y1 := Max(g.y1, value.y1))
  {
    var s := seen + [value];
    assert s[..|s| - 1] == seen;
    assert s[|s| - 1] == value;
  }

  /** A box on a new row is a group of its own. */
  lemma GroupBoxNewRow(seen: seq<Box>, value: Box)
    requires !HasTop(seen, value.y0)
    ensures HasTop(seen + [value], value.y0) && GroupBox(seen + [value], value.y0) == value
  {
    var s := seen + [value];
    assert s[..|s| - 1] == seen;
    assert s[|s| - 1] == value;
  }

  /** Adding a box appends its top row to the rows seen, unless that row is already there. */
  lemma TopsAppend(seen: seq<Box>, value: Box)
    ensures Tops(seen + [value]) == if value.y0 in Tops(seen) then Tops(seen) else Tops(seen) + [value.y0]
  {
    var s := seen + [value];
    assert s[..|s| - 1] == seen;
  }

  /** A box on a row the accumulator lacks is appended as its own group. */
  lemma MergeStepNewRow(merged: seq<Box>, seen: seq<Box>, value: Box)
    requires MergedFrom(merged, seen) && FindIndexByTop(merged, value.y0).None?
    ensures MergedFrom(merged + [value], seen + [value])
  {
    var s, tops := seen + [value], Tops(seen);
    assert forall k :: 0 <= k < |tops| ==> tops[k] == merged[k].y0 != value.y0;
    assert value.y0 !in tops;
    TopsAppend(seen, value);
    assert HasTop(s, value.y0) && GroupBox(s, value.y0) == value by {
      GroupBoxNewRow(seen, value);
    }
    forall k | 0 <= k < |merged| + 1
      ensures (merged + [value])[k] == GroupBox(s, Tops(s)[k])
    {
      if k < |merged| {
        assert merged[k].y0 == tops[k] && tops[k] in tops;
        GroupBoxOtherRow(seen, value, tops[k]);
      }
    }
  }

  /** A box on a row the accumulator has widens that row's box. */
  lemma MergeStepSameRow(merged: seq<Box>, seen: seq<Box>, value: Box, j: nat)
    requires MergedFrom(merged, seen) && FindIndexByTop(merged, value.y0) == Some(j)
    ensures MergedFrom(merged[j := merged[j].(x0 := Min(merged[j].x0, value.x0),
                                             x1 := Max(merged[j].x1, value.x1),
                                             y1 := Max(merged[j].y1, value.y1))],
                       seen + [value])
  {
    var s, tops := seen + [value], Tops(seen);
    var merged' := merged[j := merged[j].(x0 := Min(merged[j].x0, value.x0),
                                          x1 := Max(merged[j].x1, value.x1),
                                          y1 := Max(merged[j].y1, value.y1))];
    assert tops[j] == value.y0 && value.y0 in tops;
    TopsAppend(seen, value);
    assert Tops(s) == tops;
    forall k | 0 <= k < |merged'|
      ensures merged'[k] == GroupBox(s, tops[k])
    {
      assert merged[k].y0 == tops[k] && tops[k] in tops;
      if k == j {
        GroupBoxSameRow(seen, value);
      } else {
        assert tops[k] != value.y0;
        GroupBoxOtherRow(seen, value, tops[k]);
      }
    }
  }

  /** Groups the boxes by top row, widening the first box seen for each row. */
  method MergeRows(boxes: seq<Box>) returns (merged: seq<Box>)
    ensures MergedFrom(merged, boxes)
  {
    merged := [];
    for i := 0 to |boxes|
      invariant MergedFrom(merged, boxes[..i])
    {
      var value := boxes[i];
      var existing := FindIndexByTop(merged, value.y0);
      ghost var before := merged;
      match existing {
        case Some(j) =>
          merged := merged[j := merged[j].(x0 := Min(merged[j].x0, value.x0),
                                           x1 := Max(merged[j].x1, value.x1),
                                           y1 := Max(merged[j].y1, value.y1))];
        case None =>
          merged := merged + [value];
      }
      match existing {
        case Some(j) => MergeStepSameRow(before, boxes[..i], value, j);
        case None => MergeStepNewRow(before, boxes[..i], value);
      }
      assert boxes[..i + 1] == boxes[..i] + [value];
    }
    assert boxes[..|boxes|] == boxes;
  }

  /** The accumulator that is correct for `seen` is unique. */
  lemma MergedFromUnique(merged: seq<Box>, merged': seq<Box>, seen: seq<Box>)
    requires MergedFrom(merged, seen) && MergedFrom(merged', seen)
    ensures merged == merged'
  {
    assert forall k :: 0 <= k < |merged| ==> merged[k] == merged'[k];
  }

  /** The merged boxes have pairwise distinct top rows, and a row has a merged box exactly
      when some input box starts on it. */
  lemma MergedTopsDistinct(merged: seq<Box>, boxes: seq<Box>)
    requires MergedFrom(merged, boxes)
    ensures forall i, j :: 0 <= i < j < |merged| ==> merged[i].y0 != merged[j].y0
    ensures forall t :: (exists k :: 0 <= k < |merged| && merged[k].y0 == t) <==> HasTop(boxes, t)
    ensures |merged| == 0 <==> |boxes| == 0
  {
    var tops := Tops(boxes);
    assert forall k :: 0 <= k < |merged| ==> merged[k].y0 == tops[k];
    if |boxes| > 0 {
      assert HasTop(boxes, boxes[0].y0);
      assert boxes[0].y0 in tops;
    }
    forall t | HasTop(boxes, t)
      ensures exists k :: 0 <= k < |merged| && merged[k].y0 == t
    {
      assert t in tops;
      var k :| 0 <= k < |tops| && tops[k] == t;
      assert merged[k].y0 == t;
    }
  }

  /** The example of two boxes on row 10 that merge into one. */
  lemma MergeExample()
    ensures var s := [Box(5, 20, 10, 15), Box(18, 30, 10, 12)];
      Tops(s) == [10] && GroupBox(s, 10) == Box(5, 30, 10, 15)
  {
    var s := [Box(5, 20, 10, 15), Box(18, 30, 10, 12)];
    assert s[..1] == [Box(5, 20, 10, 15)];
    assert [Box(5, 20, 10, 15)][..0] == [];
    assert s[..1][0].y0 == 10;
    assert HasTop(s[..1], 10);
  }
}
