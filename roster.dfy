/** The sample roster of src/App.tsx and the drags it is used to illustrate. */
module Roster {
  import opened Types
  import opened Sequences
  import opened DragProjection
  import opened FlattenedRows
  import EmployeeTree
  import SortableTree

  function Employees(): seq<Employee>
  {
    [ Employee("1", "Alice Johnson", "CEO", "Executive", None),
      Employee("2", "Bob Smith", "CTO", "Technology", Some("1")),
      Employee("3", "Sophie Taylor", "CFO", "Finance", Some("1")),
      Employee("4", "Michael Davis", "COO", "Operations", Some("1")),
      Employee("5", "Carol White", "Lead Developer", "Technology", Some("2")),
      Employee("6", "George Miller", "Accountant", "Finance", Some("3")),
      Employee("7", "Rachel Green", "Operations Manager", "Operations", Some("4")),
      Employee("8", "David Brown", "Frontend Developer", "Technology", Some("5")),
      Employee("9", "Emma Wilson", "Backend Developer", "Technology", Some("5")) ]
  }

  /** The rows of the fully expanded tree, in pre-order. */
  function Rows(): seq<Row>
  {
    [ Row("1", 0, None), Row("2", 1, Some("1")), Row("5", 2, Some("2")),
      Row("8", 3, Some("5")), Row("9", 3, Some("5")), Row("3", 1, Some("1")),
      Row("6", 2, Some("3")), Row("4", 1, Some("1")), Row("7", 2, Some("4")) ]
  }

  lemma RosterRowIds()
    ensures RowIds(Rows()) == ["1", "2", "5", "8", "9", "3", "6", "4", "7"]
    ensures ValidRows(Rows())
  {
  }

  lemma RosterEmployeeIds()
    ensures EmployeeIds(Employees()) == ["1", "2", "3", "4", "5", "6", "7", "8", "9"]
  {
  }

  lemma RosterEmployeeIdsDistinct()
    ensures Distinct(EmployeeIds(Employees()))
  {
    RosterEmployeeIds();
  }

  lemma {:induction false} RosterRowDepths(rows: seq<Row>)
    requires rows == Rows()
    ensures |rows| > 0 && rows[0].depth == 0
    ensures forall i :: 0 <= i < |rows| ==> rows[i].depth >= 0 && (rows[i].depth == 0 <==> rows[i].parentId.None?)
    ensures forall i :: 0 < i < |rows| ==> rows[i].depth <= rows[i - 1].depth + 1
  {
  }

  lemma {:induction false} RosterRowParents(rows: seq<Row>)
    requires rows == Rows()
    ensures forall i :: 0 <= i < |rows| && rows[i].depth > 0 ==> HasParentRow(rows, i)
  {
    LastWithDepthIs(rows, 1, 0, 0);
    LastWithDepthIs(rows, 2, 1, 1);
    LastWithDepthIs(rows, 3, 2, 2);
    LastWithDepthIs(rows, 4, 2, 2);
    LastWithDepthIs(rows, 5, 0, 0);
    LastWithDepthIs(rows, 6, 1, 5);
    LastWithDepthIs(rows, 7, 0, 0);
    LastWithDepthIs(rows, 8, 1, 7);
  }

  /** The rows above are a pre-order flattening: each row hangs under the nearest
      earlier row one level up. */
  lemma {:induction false} RosterRowsAreTreeRows(rows: seq<Row>)
    requires rows == Rows()
    ensures TreeRows(rows)
  {
    RosterRowDepths(rows);
    RosterRowParents(rows);
  }

  /** The CEO is the only top-level employee of the roster. */
  lemma {:induction false} RosterTopLevel(es: seq<Employee>, ids: seq<string>)
    requires es == Employees() && ids == EmployeeIds(es)
    ensures EmployeeTree.RootIds(es, ids) == ["1"]
  {
    RosterEmployeeIds();
    assert forall i :: 0 < i < |es| ==> es[i].managerId.Some? && es[i].managerId.value in ids;
    EmployeeTree.SingleRoot(es, ids);
  }

  /** What the drag of 8 over 9 depends on in the roster rows. */
  lemma {:induction false} SiblingDragFacts(rows: seq<Row>)
    requires rows == Rows()
    ensures ProjectionArgs(rows, "8", "9", 50)
    ensures ActiveIndex(rows, "8") == 3 && OverIndex(rows, "9") == 4 && rows[3].depth == 3
    ensures var s := Scratch(rows, "8", "9"); |s| == 9 && s[3] == Row("9", 3, Some("5")) && s[5] == Row("3", 1, Some("1"))
  {
    RosterRowIds();
    FindIndexUnique(RowIds(rows), "8", 3);
    FindIndexUnique(RowIds(rows), "9", 4);
    ScratchNeighbours(rows, "8", "9");
  }

  /** What the drag of 8 over 2 depends on in the roster rows. */
  lemma {:induction false} OutdentDragFacts(rows: seq<Row>)
    requires rows == Rows()
    ensures ProjectionArgs(rows, "8", "2", 50)
    ensures ActiveIndex(rows, "8") == 3 && OverIndex(rows, "2") == 1 && rows[3].depth == 3
    ensures var s := Scratch(rows, "8", "2"); |s| == 9 && s[0] == Row("1", 0, None) && s[2] == Row("2", 1, Some("1"))
  {
    RosterRowIds();
    FindIndexUnique(RowIds(rows), "8", 3);
    FindIndexUnique(RowIds(rows), "2", 1);
    ScratchNeighbours(rows, "8", "2");
  }

  lemma {:induction false} SiblingDropStep(s: seq<Row>)
    requires |s| == 9 && s[3] == Row("9", 3, Some("5")) && s[5] == Row("3", 1, Some("1"))
    ensures ProjectWith(s, 4, 3, 3) == Projection(3, 3, 1, Some("5"))
  {
  }

  lemma {:induction false} OutdentDropSteps(s: seq<Row>)
    requires |s| == 9 && s[0] == Row("1", 0, None) && s[2] == Row("2", 1, Some("1"))
    ensures ProjectWith(s, 1, 2, 0) == Projection(0, 0, 1, None)
    ensures ProjectWith(s, 1, 2, 1) == Projection(1, 1, 1, Some("1"))
  {
  }

  lemma {:induction false} FarOutdentDropSteps(s: seq<Row>)
    requires |s| == 9 && s[0] == Row("1", 0, None) && s[2] == Row("2", 1, Some("1"))
    ensures ProjectWith(s, 1, -1, 0) == Projection(1, 0, 1, Some("1"))
    ensures ProjectWith(s, 1, -1, 1) == Projection(1, 1, 1, Some("1"))
  {
  }

  /** The sibling drag on any rows with the same shape around the drop position. */
  lemma {:induction false} SiblingProjection(items: seq<Row>)
    requires ProjectionArgs(items, "8", "9", 50)
    requires ActiveIndex(items, "8") == 3 && OverIndex(items, "9") == 4 && items[3].depth == 3
    requires var s := Scratch(items, "8", "9"); |s| == 9 && s[3] == Row("9", 3, Some("5")) && s[5] == Row("3", 1, Some("1"))
    ensures GetProjection(items, "8", "9", 0, 50) == Projection(3, 3, 1, Some("5"))
  {
    ProjectionSteps(items, "8", "9", 0, 50);
    assert DragDepth(0, 50) == 0;
    SiblingDropStep(Scratch(items, "8", "9"));
  }

  /** The outdenting drag on any rows with the same shape around the drop position. */
  lemma {:induction false} OutdentProjection(items: seq<Row>)
    requires ProjectionArgs(items, "8", "2", 50)
    requires ActiveIndex(items, "8") == 3 && OverIndex(items, "2") == 1 && items[3].depth == 3
    requires var s := Scratch(items, "8", "2"); |s| == 9 && s[0] == Row("1", 0, None) && s[2] == Row("2", 1, Some("1"))
    ensures GetProjection(items, "8", "2", -50, 50) == Projection(0, 0, 1, None)
    ensures GetProjectionIntended(items, "8", "2", -50, 50) == Projection(1, 1, 1, Some("1"))
  {
    ProjectionSteps(items, "8", "2", -50, 50);
    assert DragDepth(-50, 50) == -1;
    OutdentDropSteps(Scratch(items, "8", "2"));
  }

  /** The same drag four indents to the left, on rows of the same shape. */
  lemma {:induction false} FarOutdentProjection(items: seq<Row>)
    requires ProjectionArgs(items, "8", "2", 50)
    requires ActiveIndex(items, "8") == 3 && OverIndex(items, "2") == 1 && items[3].depth == 3
    requires var s := Scratch(items, "8", "2"); |s| == 9 && s[0] == Row("1", 0, None) && s[2] == Row("2", 1, Some("1"))
    ensures GetProjection(items, "8", "2", -200, 50) == Projection(1, 0, 1, Some("1"))
    ensures GetProjectionIntended(items, "8", "2", -200, 50) == Projection(1, 1, 1, Some("1"))
  {
    ProjectionSteps(items, "8", "2", -200, 50);
    assert DragDepth(-200, 50) == -4;
    FarOutdentDropSteps(Scratch(items, "8", "2"));
  }

  /** Dragging 8 over its sibling 9 with no offset keeps it a child of 5 at depth 3. */
  lemma {:induction false} DragFrontendOverBackend(rows: seq<Row>)
    requires rows == Rows()
    ensures ProjectionArgs(rows, "8", "9", SortableTree.DefaultIndentationWidth)
    ensures GetProjection(rows, "8", "9", 0, SortableTree.DefaultIndentationWidth) == Projection(3, 3, 1, Some("5"))
  {
    SiblingDragFacts(rows);
    SiblingProjection(rows);
  }

  /** Dragging 8 up over 2 one indent to the left: the bounds cross (`minDepth` 1 above
      `maxDepth` 0) and the candidate depth 2 is at or above `maxDepth`, so the upper bound
      wins and the row lands at the top level; with the intended bound it becomes a child
      of 1. */
  lemma {:induction false} DragFrontendOverCto(rows: seq<Row>)
    requires rows == Rows()
    ensures ProjectionArgs(rows, "8", "2", SortableTree.DefaultIndentationWidth)
    ensures GetProjection(rows, "8", "2", -50, SortableTree.DefaultIndentationWidth) == Projection(0, 0, 1, None)
    ensures GetProjectionIntended(rows, "8", "2", -50, SortableTree.DefaultIndentationWidth) == Projection(1, 1, 1, Some("1"))
  {
    OutdentDragFacts(rows);
    OutdentProjection(rows);
  }

  /** The same drag four indents to the left: the candidate depth -1 lies below both
      crossed bounds, so the lower bound wins and the row becomes a child of 1 at depth 1,
      deeper than the drag one indent to the left lands. With the intended bound both
      drags give depth 1 under 1. */
  lemma {:induction false} DragFrontendFarLeftOverCto(rows: seq<Row>)
    requires rows == Rows()
    ensures ProjectionArgs(rows, "8", "2", SortableTree.DefaultIndentationWidth)
    ensures GetProjection(rows, "8", "2", -200, SortableTree.DefaultIndentationWidth) == Projection(1, 0, 1, Some("1"))
    ensures GetProjection(rows, "8", "2", -200, SortableTree.DefaultIndentationWidth).depth
      > GetProjection(rows, "8", "2", -50, SortableTree.DefaultIndentationWidth).depth
    ensures GetProjectionIntended(rows, "8", "2", -200, SortableTree.DefaultIndentationWidth) == Projection(1, 1, 1, Some("1"))
  {
    OutdentDragFacts(rows);
    FarOutdentProjection(rows);
    OutdentProjection(rows);
  }

  /** Half an indent rounds up; exactly one indent to the left is one level up. */
  lemma RosterDragDepths()
    ensures DragDepth(25, 50) == 1 && DragDepth(-50, 50) == -1 && DragDepth(-25, 50) == 0
  {
  }

  /** Committing the first drag rewrites 8's manager with the value it already has, so
      the roster is unchanged; committing the outdenting drag changes 8's manager and
      nothing else. */
  lemma {:induction false} RosterCommits(es: seq<Employee>)
    requires es == Employees()
    ensures SortableTree.Commit(es, "8", Some("5")) == es
    ensures SortableTree.Commit(es, "8", None) == es[7 := es[7].(managerId := None)]
    ensures SortableTree.Commit(es, "8", Some("1")) == es[7 := es[7].(managerId := Some("1"))]
  {
    RosterEmployeeIdsDistinct();
    FindIndexUnique(EmployeeIds(es), "8", 7);
    SortableTree.CommitCurrentManager(es, "8");
  }

  /** Dropping 8 on 2 one indent to the left commits the projection: as written 8 loses
      its manager and moves to the top level; with the intended bound it goes under 1. */
  lemma {:induction false} RosterDropOverCto(es: seq<Employee>, rows: seq<Row>)
    requires es == Employees() && rows == Rows() && ProjectionArgs(rows, "8", "2", 50)
    ensures SortableTree.DropResult(es, Some(GetProjection(rows, "8", "2", -50, 50)), "8", Some("2"))
      == es[7 := es[7].(managerId := None)]
    ensures SortableTree.DropResult(es, Some(GetProjectionIntended(rows, "8", "2", -50, 50)), "8", Some("2"))
      == es[7 := es[7].(managerId := Some("1"))]
  {
    DragFrontendOverCto(rows);
    RosterCommits(es);
    DropOnOtherRow(es, GetProjection(rows, "8", "2", -50, 50), None);
    DropOnOtherRow(es, GetProjectionIntended(rows, "8", "2", -50, 50), Some("1"));
  }

  lemma {:induction false} DropOnOtherRow(es: seq<Employee>, p: Projection, parentId: Option<string>)
    requires p.parentId == parentId
    ensures SortableTree.DropResult(es, Some(p), "8", Some("2")) == SortableTree.Commit(es, "8", parentId)
  {
  }
}
