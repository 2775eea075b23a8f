/** `getDragDepth` and `getProjection` (src/components/Tree/utilities.ts:28-79): the
    candidate depth, depth range and parent of the dragged row, computed from the
    flattened rows, the row under the pointer and the horizontal drag offset. */
module DragProjection {
  import opened Types
  import opened Sequences

  /** What `getProjection` returns. */
  datatype Projection = Projection(depth: int, maxDepth: int, minDepth: int, parentId: Option<string>)

  /** Rows as the table produces them: unique ids and non-negative depths. */
  predicate ValidRows(items: seq<Row>)
  {
    Distinct(RowIds(items)) && forall i :: 0 <= i < |items| ==> items[i].depth >= 0
  }

  /** What the callers guarantee: valid rows holding both ids, and a positive indent. */
  predicate ProjectionArgs(items: seq<Row>, activeId: string, overId: string, indentationWidth: int)
  {
    ValidRows(items) && activeId in RowIds(items) && overId in RowIds(items) && indentationWidth > 0
  }

  /** `Math.round(offset / indentationWidth)` on integers: the nearest whole number of
      indents, halves rounded up (towards positive infinity, as `Math.round` does). */
  function DragDepth(offset: int, indentationWidth: int): (r: int)
    requires indentationWidth > 0
    ensures 2 * indentationWidth * r - indentationWidth <= 2 * offset
    ensures 2 * offset < 2 * indentationWidth * r + indentationWidth
  {
    var q := (2 * offset + indentationWidth) / (2 * indentationWidth);
    assert (2 * indentationWidth) * q <= 2 * offset + indentationWidth < (2 * indentationWidth) * q + 2 * indentationWidth;
    q
  }

  /** `arrayMove` of @dnd-kit/sortable on in-range indices: take the element at `from`
      out and insert it at `to`. */
  function ArrayMove<T>(s: seq<T>, from: int, to: int): (r: seq<T>)
    requires 0 <= from < |s| && 0 <= to < |s|
    ensures |r| == |s|
    ensures r[to] == s[from]
    ensures RemoveAt(r, to) == RemoveAt(s, from)
    ensures multiset(r) == multiset(s)
  {
    var rest := RemoveAt(s, from);
    var r := rest[..to] + [s[from]] + rest[to..];
    assert r[..to] + r[to + 1..] == rest by {
      assert r[..to] == rest[..to] && r[to + 1..] == rest[to..];
      assert rest == rest[..to] + rest[to..];
    }
    assert multiset(r) == multiset(rest[..to]) + multiset{s[from]} + multiset(rest[to..]);
    assert multiset(rest) == multiset(rest[..to]) + multiset(rest[to..]) by {
      assert rest == rest[..to] + rest[to..];
    }
    r
  }

  /** The bounds of `DragDepth` pin it down: it is the only whole number of indents within
      half an indent of the offset (halves going up). */
  lemma {:induction false} DragDepthUnique(offset: int, indentationWidth: int, k: int)
    requires indentationWidth > 0
    requires 2 * indentationWidth * k - indentationWidth <= 2 * offset < 2 * indentationWidth * k + indentationWidth
    ensures k == DragDepth(offset, indentationWidth)
  {
    var r, w2 := DragDepth(offset, indentationWidth), 2 * indentationWidth;
    assert w2 * k - indentationWidth <= 2 * offset < w2 * r + indentationWidth;
    assert w2 * r - indentationWidth <= 2 * offset < w2 * k + indentationWidth;
    if k < r {
      assert w2 * r == w2 * k + w2 * (r - k);
      ScaledGap(w2, r - k);
    } else if k > r {
      assert w2 * k == w2 * r + w2 * (k - r);
      ScaledGap(w2, k - r);
    }
  }

  lemma {:induction false} ScaledGap(w: int, d: int)
    requires w > 0 && d >= 1
    ensures w * d >= w
    decreases d
  {
    if d > 1 {
      ScaledGap(w, d - 1);
      assert w * d == w * (d - 1) + w;
    }
  }

  /** Two sequences of one length agree when they agree at `i` and once `i` is taken out. */
  lemma {:induction false} SameAroundIndex<T>(a: seq<T>, b: seq<T>, i: int)
    requires 0 <= i < |a| == |b| && a[i] == b[i] && RemoveAt(a, i) == RemoveAt(b, i)
    ensures a == b
  {
    forall j | 0 <= j < |a| ensures a[j] == b[j] {
      if j < i {
        assert a[j] == RemoveAt(a, i)[j];
        assert b[j] == RemoveAt(b, i)[j];
      } else if j > i {
        assert a[j] == RemoveAt(a, i)[j - 1];
        assert b[j] == RemoveAt(b, i)[j - 1];
      }
    }
  }

  /** Moving the element back undoes a move. */
  lemma {:induction false} ArrayMoveUndo<T>(s: seq<T>, from: int, to: int)
    requires 0 <= from < |s| && 0 <= to < |s|
    ensures ArrayMove(ArrayMove(s, from, to), to, from) == s
  {
    var r := ArrayMove(s, from, to);
    SameAroundIndex(ArrayMove(r, to, from), s, from);
  }

  /** Moving an element onto its own index changes nothing. */
  lemma {:induction false} ArrayMoveInPlace<T>(s: seq<T>, i: int)
    requires 0 <= i < |s|
    ensures ArrayMove(s, i, i) == s
  {
    SameAroundIndex(ArrayMove(s, i, i), s, i);
  }

  /** `newItems[overItemIndex - 1]`, absent before the first row. */
  function Previous(newItems: seq<Row>, overIndex: int): (r: Option<Row>)
    requires 0 <= overIndex < |newItems|
    ensures r.Some? <==> 0 < overIndex
    ensures r.Some? ==> r.value == newItems[overIndex - 1]
  {
    if overIndex > 0 then Some(newItems[overIndex - 1]) else None
  }

  /** `newItems[overItemIndex + 1]`, absent after the last row. */
  function Next(newItems: seq<Row>, overIndex: int): (r: Option<Row>)
    requires 0 <= overIndex < |newItems|
    ensures r.Some? <==> overIndex + 1 < |newItems|
    ensures r.Some? ==> r.value == newItems[overIndex + 1]
  {
    if overIndex + 1 < |newItems| then Some(newItems[overIndex + 1]) else None
  }

  /** Line 47 as written: `previousItem?.depth ?? -1 + 1` parses as
      `previousItem?.depth ?? 0`, so the bound is the previous row's own depth. */
  function MaxDepthAsWritten(previous: Option<Row>): (r: int)
    ensures previous.Some? ==> r == previous.value.depth
    ensures previous.None? ==> r == 0
  {
    match previous
    case Some(p) => p.depth
    case None => 0
  }

  /** The evidently intended bound: one level deeper than the previous row, that is one
      more than the bound as written whenever there is a previous row. */
  function MaxDepthIntended(previous: Option<Row>): (r: int)
    ensures previous.Some? ==> r == MaxDepthAsWritten(previous) + 1
    ensures previous.None? ==> r == MaxDepthAsWritten(previous) == 0
  {
    match previous
    case Some(p) => p.depth + 1
    case None => 0
  }

  /** Line 48: `nextItem?.depth ?? 0`. */
  function MinDepth(next: Option<Row>): (r: int)
    ensures next.Some? ==> r == next.value.depth
    ensures next.None? ==> r == 0
  {
    match next
    case Some(n) => n.depth
    case None => 0
  }

  /** Lines 49-55: the upper bound is tested first, then the lower one. While
      `minDepth <= maxDepth` the depth lies in that range. Once the bounds cross, a
      candidate at or above `maxDepth` gives `maxDepth` and any other candidate, being
      below both bounds, gives `minDepth`, which lies above `maxDepth`. */
  function Clamp(projectedDepth: int, maxDepth: int, minDepth: int): (depth: int)
    ensures depth == projectedDepth || depth == maxDepth || depth == minDepth
    ensures minDepth <= maxDepth ==> minDepth <= depth <= maxDepth
    ensures depth >= 0 <== maxDepth >= 0 && minDepth >= 0
    ensures projectedDepth >= maxDepth ==> depth == maxDepth
    ensures projectedDepth < maxDepth && projectedDepth < minDepth ==> depth == minDepth
    ensures maxDepth < minDepth ==> depth == maxDepth || depth == minDepth
    ensures minDepth <= projectedDepth < maxDepth ==> depth == projectedDepth
  {
    if projectedDepth >= maxDepth then maxDepth
    else if projectedDepth < minDepth then minDepth
    else projectedDepth
  }

  /** The backward scan of lines 72-75, `slice(0, i).reverse().find(depth === d)`: the
      last index before `i` whose row has depth `d`. */
  function LastWithDepth(s: seq<Row>, i: int, d: int): (r: Option<nat>)
    requires 0 <= i <= |s|
    ensures r.Some? ==> r.value < i && s[r.value].depth == d
    ensures r.Some? ==> forall j :: r.value < j < i ==> s[j].depth != d
    ensures r.None? ==> forall j :: 0 <= j < i ==> s[j].depth != d
  {
    if i == 0 then None
    else if s[i - 1].depth == d then Some(i - 1)
    else LastWithDepth(s, i - 1, d)
  }

  /** `getParentId` (lines 59-78), on the scratch sequence at the drop position. There is
      no parent at the top level or at the first position; otherwise the parent is drawn
      from a row before the drop position: that row's own id when the depth goes deeper
      than the previous row, else the parent of the previous row or of the last earlier
      row at that depth. */
  function ParentId(newItems: seq<Row>, overIndex: int, depth: int): (r: Option<string>)
    requires 0 <= overIndex < |newItems|
    ensures overIndex == 0 || depth == 0 ==> r.None?
    ensures 0 < overIndex && depth != 0 && depth > newItems[overIndex - 1].depth ==> r == Some(newItems[overIndex - 1].id)
    ensures r.Some? ==> exists k :: 0 <= k < overIndex && (r == Some(newItems[k].id) || r == newItems[k].parentId)
  {
    match Previous(newItems, overIndex)
    case None => None
    case Some(previous) =>
      if depth == 0 then None
      else if depth == previous.depth then previous.parentId
      else if depth > previous.depth then Some(previous.id)
      else
        match LastWithDepth(newItems, overIndex, depth)
        case Some(k) => newItems[k].parentId
        case None => None
  }

  /** Lines 39-46, shared by both bounds: the active and over indices, the scratch
      sequence and the unclamped depth. */
  function ActiveIndex(items: seq<Row>, activeId: string): int
  {
    FindIndex(RowIds(items), activeId)
  }

  function OverIndex(items: seq<Row>, overId: string): int
  {
    FindIndex(RowIds(items), overId)
  }

  /** The scratch sequence: the active row moved to the over position, nothing lost. */
  function Scratch(items: seq<Row>, activeId: string, overId: string): (r: seq<Row>)
    requires activeId in RowIds(items) && overId in RowIds(items)
    ensures |r| == |items|
    ensures r[OverIndex(items, overId)] == items[ActiveIndex(items, activeId)]
    ensures multiset(r) == multiset(items)
  {
    ArrayMove(items, ActiveIndex(items, activeId), OverIndex(items, overId))
  }

  /** The candidate depth: the active row's depth shifted by the offset rounded to
      whole indents, so within half an indent of the offset (halves going up). */
  function ProjectedDepth(items: seq<Row>, activeId: string, dragOffset: int, indentationWidth: int): (r: int)
    requires activeId in RowIds(items) && indentationWidth > 0
    ensures var shift := r - items[ActiveIndex(items, activeId)].depth;
      2 * indentationWidth * shift - indentationWidth <= 2 * dragOffset < 2 * indentationWidth * shift + indentationWidth
  {
    items[ActiveIndex(items, activeId)].depth + DragDepth(dragOffset, indentationWidth)
  }

  /** Clamp into the given upper bound and the next row's depth, then pick the parent. */
  function ProjectWith(newItems: seq<Row>, overIndex: int, projectedDepth: int, maxDepth: int): (p: Projection)
    requires 0 <= overIndex < |newItems|
    ensures p.maxDepth == maxDepth && p.minDepth == MinDepth(Next(newItems, overIndex))
    ensures p.depth == Clamp(projectedDepth, maxDepth, p.minDepth)
    ensures p.depth == 0 ==> p.parentId.None?
  {
    var minDepth := MinDepth(Next(newItems, overIndex));
    var depth := Clamp(projectedDepth, maxDepth, minDepth);
    Projection(depth, maxDepth, minDepth, ParentId(newItems, overIndex, depth))
  }

  /** `getProjection` as written: a depth of 0 or more, and no parent at depth 0. */
  function GetProjection(items: seq<Row>, activeId: string, overId: string, dragOffset: int, indentationWidth: int): (p: Projection)
    requires ProjectionArgs(items, activeId, overId, indentationWidth)
    ensures p.depth >= 0
    ensures p.depth == 0 ==> p.parentId.None?
  {
    var o := OverIndex(items, overId);
    var newItems := Scratch(items, activeId, overId);
    NeighbourDepths(items, activeId, overId);
    ProjectWith(newItems, o, ProjectedDepth(items, activeId, dragOffset, indentationWidth),
                MaxDepthAsWritten(Previous(newItems, o)))
  }

  /** The same projection with the intended upper bound `previous.depth + 1`. */
  function GetProjectionIntended(items: seq<Row>, activeId: string, overId: string, dragOffset: int, indentationWidth: int): (p: Projection)
    requires ProjectionArgs(items, activeId, overId, indentationWidth)
    ensures p.depth >= 0
    ensures p.depth == 0 ==> p.parentId.None?
  {
    var o := OverIndex(items, overId);
    var newItems := Scratch(items, activeId, overId);
    NeighbourDepths(items, activeId, overId);
    ProjectWith(newItems, o, ProjectedDepth(items, activeId, dragOffset, indentationWidth),
                MaxDepthIntended(Previous(newItems, o)))
  }

  /** Both projections are the clamp-and-parent step on the scratch sequence. */
  lemma ProjectionSteps(items: seq<Row>, activeId: string, overId: string, dragOffset: int, indentationWidth: int)
    requires ProjectionArgs(items, activeId, overId, indentationWidth)
    ensures var o, s := OverIndex(items, overId), Scratch(items, activeId, overId);
      var projectedDepth := ProjectedDepth(items, activeId, dragOffset, indentationWidth);
      0 <= o < |s|
      && GetProjection(items, activeId, overId, dragOffset, indentationWidth)
         == ProjectWith(s, o, projectedDepth, MaxDepthAsWritten(Previous(s, o)))
      && GetProjectionIntended(items, activeId, overId, dragOffset, indentationWidth)
         == ProjectWith(s, o, projectedDepth, MaxDepthIntended(Previous(s, o)))
  {
  }

  /** The depth range of `getProjection` as written, in original-row coordinates:
      dragging down, the row before the drop position is the over row itself; dragging
      up, the row after it is. The depth is the candidate or one of the bounds, and lies
      in the range whenever the range has not crossed. */
  lemma {:induction false} ProjectionBounds(items: seq<Row>, activeId: string, overId: string, dragOffset: int, indentationWidth: int)
    requires ProjectionArgs(items, activeId, overId, indentationWidth)
    ensures var a, o := ActiveIndex(items, activeId), OverIndex(items, overId);
      var p := GetProjection(items, activeId, overId, dragOffset, indentationWidth);
      p.maxDepth == (if a < o then items[o].depth else if 0 < o then items[o - 1].depth else 0)
      && p.minDepth == (if o < a then items[o].depth else if o + 1 < |items| then items[o + 1].depth else 0)
      && (p.depth == ProjectedDepth(items, activeId, dragOffset, indentationWidth)
          || p.depth == p.maxDepth || p.depth == p.minDepth)
      && (p.minDepth <= p.maxDepth ==> p.minDepth <= p.depth <= p.maxDepth)
  {
    ProjectionSteps(items, activeId, overId, dragOffset, indentationWidth);
    ScratchNeighbours(items, activeId, overId);
  }

  /** The same range with the intended upper bound, one level below the previous row. */
  lemma {:induction false} IntendedProjectionBounds(items: seq<Row>, activeId: string, overId: string, dragOffset: int, indentationWidth: int)
    requires ProjectionArgs(items, activeId, overId, indentationWidth)
    ensures var a, o := ActiveIndex(items, activeId), OverIndex(items, overId);
      var p := GetProjectionIntended(items, activeId, overId, dragOffset, indentationWidth);
      p.maxDepth == (if a < o then items[o].depth + 1 else if 0 < o then items[o - 1].depth + 1 else 0)
      && p.minDepth == (if o < a then items[o].depth else if o + 1 < |items| then items[o + 1].depth else 0)
      && (p.depth == ProjectedDepth(items, activeId, dragOffset, indentationWidth)
          || p.depth == p.maxDepth || p.depth == p.minDepth)
      && (p.minDepth <= p.maxDepth ==> p.minDepth <= p.depth <= p.maxDepth)
  {
    ProjectionSteps(items, activeId, overId, dragOffset, indentationWidth);
    ScratchNeighbours(items, activeId, overId);
  }

  /** The neighbours of the drop position in the scratch sequence, in terms of the
      original rows. */
  lemma {:induction false} ScratchNeighbours(items: seq<Row>, activeId: string, overId: string)
    requires activeId in RowIds(items) && overId in RowIds(items)
    ensures var a, o, s := ActiveIndex(items, activeId), OverIndex(items, overId), Scratch(items, activeId, overId);
      |s| == |items| && 0 <= a < |items| && 0 <= o < |items| && s[o] == items[a]
      && (0 < o ==> s[o - 1] == if a < o then items[o] else items[o - 1])
      && (o + 1 < |s| ==> s[o + 1] == if o < a then items[o] else items[o + 1])
  {
    var a, o, s := ActiveIndex(items, activeId), OverIndex(items, overId), Scratch(items, activeId, overId);
    var rest := RemoveAt(items, a);
    assert RemoveAt(s, o) == rest;
    if 0 < o {
      assert s[o - 1] == RemoveAt(s, o)[o - 1];
    }
    if o + 1 < |s| {
      assert s[o + 1] == RemoveAt(s, o)[o];
    }
  }

  /** Both bounds are taken from rows of the table, so neither is negative. */
  lemma {:induction false} NeighbourDepths(items: seq<Row>, activeId: string, overId: string)
    requires ValidRows(items) && activeId in RowIds(items) && overId in RowIds(items)
    ensures var o, s := OverIndex(items, overId), Scratch(items, activeId, overId);
      0 <= o < |s| && MaxDepthAsWritten(Previous(s, o)) >= 0 && MaxDepthIntended(Previous(s, o)) >= 0
      && MinDepth(Next(s, o)) >= 0
  {
    ScratchNeighbours(items, activeId, overId);
  }

  /** The parent rule of lines 60-77, case by case, at a drop position `o` of a row
      sequence `s`; the last case is the nearest earlier row of the same depth, described
      without the scan. */
  lemma {:induction false} ParentIdRule(s: seq<Row>, o: int, depth: int)
    requires 0 <= o < |s|
    ensures var parentId := ParentId(s, o, depth);
      (depth == 0 || o == 0 ==> parentId == None)
      && (depth != 0 && o > 0 && depth == s[o - 1].depth ==> parentId == s[o - 1].parentId)
      && (depth != 0 && o > 0 && depth > s[o - 1].depth ==> parentId == Some(s[o - 1].id))
      && (depth != 0 && o > 0 && depth < s[o - 1].depth ==>
            (exists k :: 0 <= k < o && s[k].depth == depth && (forall j :: k < j < o ==> s[j].depth != depth)
                         && parentId == s[k].parentId)
            || ((forall k :: 0 <= k < o ==> s[k].depth != depth) && parentId == None))
  {
    if depth != 0 && o > 0 && depth < s[o - 1].depth {
      match LastWithDepth(s, o, depth)
      case Some(k) =>
        assert s[k].depth == depth && (forall j :: k < j < o ==> s[j].depth != depth);
      case None =>
    }
  }

  /** `getProjection`'s parent is that rule applied to its scratch sequence, at the over
      index, with the clamped depth. */
  lemma {:induction false} ProjectionParentRule(items: seq<Row>, activeId: string, overId: string, dragOffset: int, indentationWidth: int)
    requires ProjectionArgs(items, activeId, overId, indentationWidth)
    ensures var o, s := OverIndex(items, overId), Scratch(items, activeId, overId);
      var p := GetProjection(items, activeId, overId, dragOffset, indentationWidth);
      0 <= o < |s| && p.parentId == ParentId(s, o, p.depth)
  {
  }

  /** The scratch sequence holds the same rows, so a parent no row names stays unnamed. */
  lemma {:induction false} ScratchKeepsParents(items: seq<Row>, activeId: string, overId: string, x: string)
    requires activeId in RowIds(items) && overId in RowIds(items)
    requires forall i :: 0 <= i < |items| ==> items[i].parentId != Some(x)
    ensures var s := Scratch(items, activeId, overId);
      forall k :: 0 <= k < |s| ==> s[k].parentId != Some(x)
  {
    var s := Scratch(items, activeId, overId);
    forall k | 0 <= k < |s| ensures s[k].parentId != Some(x) {
      assert multiset(s) == multiset(items);
      assert s[k] in multiset(items);
    }
  }

  /** While the active row's own subtree is hidden (drag start collapses it), no row names
      it as parent, and then the projected parent is never the active row itself: a drop
      cannot make a row its own manager. */
  lemma {:induction false} ProjectionNeverSelfParent(items: seq<Row>, activeId: string, overId: string, dragOffset: int, indentationWidth: int)
    requires ProjectionArgs(items, activeId, overId, indentationWidth)
    requires forall i :: 0 <= i < |items| ==> items[i].parentId != Some(activeId)
    ensures GetProjection(items, activeId, overId, dragOffset, indentationWidth).parentId != Some(activeId)
  {
    var a, o, s := ActiveIndex(items, activeId), OverIndex(items, overId), Scratch(items, activeId, overId);
    var p := GetProjection(items, activeId, overId, dragOffset, indentationWidth);
    ScratchNeighbours(items, activeId, overId);
    ProjectionParentRule(items, activeId, overId, dragOffset, indentationWidth);
    ParentIdRule(s, o, p.depth);
    ScratchKeepsParents(items, activeId, overId, activeId);
    if o > 0 && p.depth != 0 && p.depth > s[o - 1].depth {
      var j := if a < o then o else o - 1;
      assert s[o - 1] == items[j] && j != a;
      assert RowIds(items)[j] != RowIds(items)[a];
    }
  }
}
