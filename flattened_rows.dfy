/** The shape of the rows a pre-order flattening of the employee forest produces, and
    what the projection does on such rows. While a child row is dragged over itself with
    no offset, the literal projection shows it at the top level; the projection with the
    intended upper bound shows it where it is and always honours its depth range. */
module FlattenedRows {
  import opened Types
  import opened Sequences
  import opened DragProjection

  /** A row at a positive depth is the child of the nearest earlier row one level up. */
  predicate HasParentRow(s: seq<Row>, i: int)
    requires 0 <= i < |s|
  {
    match LastWithDepth(s, i, s[i].depth - 1)
    case Some(j) => s[i].parentId == Some(s[j].id)
    case None => false
  }

  /** Pre-order rows: the first row is a root, depths rise by at most one from a row to
      the next, depth 0 exactly for rows without a parent, and every other row's parent is
      the nearest earlier row one level up. */
  predicate TreeRows(s: seq<Row>)
  {
    (|s| > 0 ==> s[0].depth == 0)
    && (forall i :: 0 <= i < |s| ==> s[i].depth >= 0 && (s[i].depth == 0 <==> s[i].parentId.None?))
    && (forall i :: 0 < i < |s| ==> s[i].depth <= s[i - 1].depth + 1)
    && (forall i :: 0 <= i < |s| && s[i].depth > 0 ==> HasParentRow(s, i))
  }

  /** The dragged row shows no children (drag start collapses it): the next row is not
      deeper than it. */
  predicate ShowsNoChildren(items: seq<Row>, activeId: string)
    requires activeId in RowIds(items)
  {
    var a := ActiveIndex(items, activeId);
    a + 1 < |items| ==> items[a + 1].depth <= items[a].depth
  }

  /** The scan finds `k` when `k` is the last index before `i` with depth `d`. */
  lemma {:induction false} LastWithDepthIs(s: seq<Row>, i: int, d: int, k: int)
    requires 0 <= k < i <= |s| && s[k].depth == d
    requires forall j :: k < j < i ==> s[j].depth != d
    ensures LastWithDepth(s, i, d) == Some(k)
    decreases i
  {
    if k < i - 1 {
      LastWithDepthIs(s, i - 1, d, k);
    }
  }

  /** Walking back from a row deeper than `d` over rows of other depths than `d`, depths
      stay above `d`, because they fall by at most one per row going forwards. */
  lemma {:induction false} DeeperRun(s: seq<Row>, k: int, a: int, d: int, j: int)
    requires TreeRows(s) && 0 <= k < j < a <= |s|
    requires s[a - 1].depth > d
    requires forall m :: k < m < a ==> s[m].depth != d
    ensures s[j].depth > d
    decreases a - j
  {
    if j < a - 1 {
      DeeperRun(s, k, a, d, j + 1);
      assert s[j + 1].depth <= s[j].depth + 1;
    }
  }

  /** The backward scan for a row's own depth, started below a deeper row, finds its
      previous sibling, which has the same parent. */
  lemma {:induction false} ScanFindsSibling(s: seq<Row>, a: int)
    requires TreeRows(s) && 0 < a < |s| && s[a].depth > 0 && s[a - 1].depth > s[a].depth
    ensures LastWithDepth(s, a, s[a].depth).Some?
    ensures s[LastWithDepth(s, a, s[a].depth).value].parentId == s[a].parentId
  {
    var d := s[a].depth;
    assert HasParentRow(s, a);
    var p := LastWithDepth(s, a, d - 1).value;
    match LastWithDepth(s, a, d)
    case None =>
      if p + 1 < a {
        DeeperRun(s, p, a, d, p + 1);
      }
      assert false;
    case Some(k) =>
      if k < p {
        DeeperRun(s, k, a, d, p);
      }
      assert p < k;
      assert HasParentRow(s, k);
      LastWithDepthIs(s, k, d - 1, p);
  }

  lemma DragDepthZero(indentationWidth: int)
    requires indentationWidth > 0
    ensures DragDepth(0, indentationWidth) == 0
  {
  }

  /** A row at its predecessor's depth shares its predecessor's parent. */
  lemma {:induction false} SameDepthParent(s: seq<Row>, a: int)
    requires 0 < a < |s| && s[a].depth > 0 && s[a].depth == s[a - 1].depth
    requires HasParentRow(s, a) && HasParentRow(s, a - 1)
    ensures ParentId(s, a, s[a].depth) == s[a].parentId
  {
    assert LastWithDepth(s, a, s[a].depth - 1) == LastWithDepth(s, a - 1, s[a].depth - 1);
  }

  /** A row one level below its predecessor is its predecessor's child. */
  lemma {:induction false} DeeperParent(s: seq<Row>, a: int)
    requires 0 < a < |s| && s[a].depth > 0 && s[a].depth == s[a - 1].depth + 1
    requires HasParentRow(s, a)
    ensures ParentId(s, a, s[a].depth) == s[a].parentId
  {
    assert LastWithDepth(s, a, s[a].depth - 1) == Some(a - 1);
  }

  /** On pre-order rows, the parent rule run at a row's own position and depth gives
      back that row's parent. */
  lemma {:induction false} ParentIdInPlace(s: seq<Row>, a: int)
    requires TreeRows(s) && 0 <= a < |s|
    ensures ParentId(s, a, s[a].depth) == s[a].parentId
  {
    var d := s[a].depth;
    if a == 0 {
      assert d == 0 && s[a].parentId.None?;
    } else if d == 0 {
      assert s[a].parentId.None?;
    } else {
      assert HasParentRow(s, a);
      var prev := s[a - 1];
      assert d <= prev.depth + 1;
      if d == prev.depth {
        assert HasParentRow(s, a - 1);
        SameDepthParent(s, a);
      } else if d > prev.depth {
        DeeperParent(s, a);
      } else {
        ScanFindsSibling(s, a);
      }
    }
  }

  /** With the intended bound, the projection of a childless row dragged over itself with
      no offset keeps the row's depth and parent. */
  lemma {:induction false} IntendedOverItselfKeepsRow(items: seq<Row>, id: string, indentationWidth: int)
    requires ProjectionArgs(items, id, id, indentationWidth) && TreeRows(items) && ShowsNoChildren(items, id)
    ensures var a := ActiveIndex(items, id);
      var p := GetProjectionIntended(items, id, id, 0, indentationWidth);
      p.depth == items[a].depth && p.parentId == items[a].parentId
  {
    var a := ActiveIndex(items, id);
    ArrayMoveInPlace(items, a);
    DragDepthZero(indentationWidth);
    ProjectionSteps(items, id, id, 0, indentationWidth);
    assert Scratch(items, id, id) == items;
    var d := items[a].depth;
    assert ProjectedDepth(items, id, 0, indentationWidth) == d;
    assert a > 0 ==> d <= items[a - 1].depth + 1;
    ParentIdInPlace(items, a);
  }

  /** The intended range at any drop position of rows whose depths rise by at most one
      per row, when the dragged row is not followed by a deeper one. */
  lemma {:induction false} IntendedRangeNotCrossed(items: seq<Row>, a: int, o: int)
    requires 0 <= a < |items| && 0 <= o < |items| && items[0].depth == 0
    requires forall i :: 0 <= i < |items| ==> items[i].depth >= 0
    requires forall i :: 0 < i < |items| ==> items[i].depth <= items[i - 1].depth + 1
    requires a + 1 < |items| ==> items[a + 1].depth <= items[a].depth
    ensures (if o < a then items[o].depth else if o + 1 < |items| then items[o + 1].depth else 0)
      <= (if a < o then items[o].depth + 1 else if 0 < o then items[o - 1].depth + 1 else 0)
  {
    if a < o && o + 1 < |items| {
      assert items[o + 1].depth <= items[o].depth + 1;
    } else if o < a && o > 0 {
      assert items[o].depth <= items[o - 1].depth + 1;
    } else if o == a && 0 < a {
      assert items[a].depth <= items[a - 1].depth + 1;
    }
  }

  /** With the intended bound the depth range never crosses on pre-order rows whose
      dragged row shows no children, so every projected depth lies inside it. */
  lemma {:induction false} IntendedDepthWithinRange(items: seq<Row>, activeId: string, overId: string, dragOffset: int, indentationWidth: int)
    requires ProjectionArgs(items, activeId, overId, indentationWidth) && TreeRows(items)
    requires ShowsNoChildren(items, activeId)
    ensures var p := GetProjectionIntended(items, activeId, overId, dragOffset, indentationWidth);
      p.minDepth <= p.depth <= p.maxDepth
  {
    var a, o := ActiveIndex(items, activeId), OverIndex(items, overId);
    assert 0 <= a < |items| && 0 <= o < |items|;
    assert a + 1 < |items| ==> items[a + 1].depth <= items[a].depth;
    IntendedRangeNotCrossed(items, a, o);
    IntendedProjectionBounds(items, activeId, overId, dragOffset, indentationWidth);
  }

  /** The two-row forest used below: 1 at the top level and 2 under it. */
  function TwoRows(): seq<Row>
  {
    [Row("1", 0, None), Row("2", 1, Some("1"))]
  }

  lemma {:induction false} TwoRowsTree(rows: seq<Row>)
    requires rows == TwoRows()
    ensures TreeRows(rows)
  {
    assert LastWithDepth(rows, 1, 0) == Some(0);
    assert HasParentRow(rows, 1);
  }

  lemma {:induction false} TwoRowsDrag(rows: seq<Row>)
    requires rows == TwoRows()
    ensures ProjectionArgs(rows, "2", "2", 50) && ActiveIndex(rows, "2") == 1
    ensures ShowsNoChildren(rows, "2") && Scratch(rows, "2", "2") == rows
  {
    assert RowIds(rows) == ["1", "2"];
    assert ActiveIndex(rows, "2") == 1;
    ArrayMoveInPlace(rows, 1);
  }

  /** As written, the projection of a child row dragged over itself points at the top
      level: with rows 1 (depth 0) and 2 (depth 1, under 1), the projection while 2 is over
      itself with no offset is depth 0 with no parent. A drop there commits nothing, since
      the drop handler skips a drop on the dragged row itself. */
  lemma {:induction false} MaxDepthAsWrittenLiftsRowOverItself(rows: seq<Row>)
    requires rows == TwoRows()
    ensures TreeRows(rows) && ProjectionArgs(rows, "2", "2", 50) && ShowsNoChildren(rows, "2")
    ensures GetProjection(rows, "2", "2", 0, 50) == Projection(0, 0, 0, None)
    ensures GetProjectionIntended(rows, "2", "2", 0, 50) == Projection(1, 1, 0, Some("1"))
  {
    TwoRowsTree(rows);
    TwoRowsDrag(rows);
    ProjectionSteps(rows, "2", "2", 0, 50);
    DragDepthZero(50);
  }
}
