/** The drag session and the edit handlers of `SortableEmployeeTree`
    (src/components/Tree/SortableEmployeeTree.tsx): the component state, the `projected`
    gate, the drag handlers and `handleRemove`. The flattened rows come from the table
    library and are passed in wherever the source reads them. */
module SortableTree {
  import opened Types
  import opened Sequences
  import opened DragProjection
  import EmployeeTree

  /** The component's default `indentationWidth` (line 71). */
  const DefaultIndentationWidth := 50

  /** Whether two entries agree on every field but `managerId`. */
  predicate SameButManager(x: Employee, y: Employee)
  {
    x.id == y.id && x.name == y.name && x.position == y.position && x.department == y.department
  }

  /** The drop write of lines 207-218 on a copy: the first entry whose id is `activeId`
      gets `managerId := parentId`; when there is none, `findIndex` gives -1 and the write
      lands on a non-index property, so no element changes. */
  function Commit(employees: seq<Employee>, activeId: string, parentId: Option<string>): (r: seq<Employee>)
    ensures |r| == |employees|
    ensures forall i :: 0 <= i < |r| ==> SameButManager(r[i], employees[i])
    ensures forall i :: 0 <= i < |r| ==>
      r[i].managerId == if i == FindIndex(EmployeeIds(employees), activeId) then parentId else employees[i].managerId
    ensures activeId !in EmployeeIds(employees) ==> r == employees
  {
    var activeIndex := FindIndex(EmployeeIds(employees), activeId);
    if activeIndex == -1 then employees
    else employees[activeIndex := employees[activeIndex].(managerId := parentId)]
  }

  /** `handleRemove`'s update (lines 237-249): the first entry with the id is spliced out;
      a missing id leaves the list as it was. */
  function RemoveFirst(employees: seq<Employee>, employeeId: string): (r: seq<Employee>)
    ensures employeeId !in EmployeeIds(employees) ==> r == employees
    ensures employeeId in EmployeeIds(employees) ==>
      var i := FindIndex(EmployeeIds(employees), employeeId);
      |r| == |employees| - 1
      && (forall j :: 0 <= j < i ==> r[j] == employees[j])
      && (forall j :: i <= j < |r| ==> r[j] == employees[j + 1])
      && multiset(r) + multiset{employees[i]} == multiset(employees)
  {
    var indexOfEmployee := FindIndex(EmployeeIds(employees), employeeId);
    if indexOfEmployee == -1 then employees
    else RemoveAt(employees, indexOfEmployee)
  }

  /** What a drop does to the list (line 205): it commits only with a projection, a
      non-null `over` and an `over` other than the dragged row. */
  function DropResult(employees: seq<Employee>, projected: Option<Projection>, activeEventId: string, overEventId: Option<string>): (r: seq<Employee>)
    ensures |r| == |employees|
    ensures forall i :: 0 <= i < |r| ==> SameButManager(r[i], employees[i])
    ensures projected.None? || overEventId.None? || overEventId == Some(activeEventId) ==> r == employees
    ensures projected.Some? && overEventId.Some? && activeEventId != overEventId.value ==>
      forall i :: 0 <= i < |r| ==>
        r[i].managerId == if i == FindIndex(EmployeeIds(employees), activeEventId) then projected.value.parentId else employees[i].managerId
  {
    if projected.Some? && overEventId.Some? && activeEventId != overEventId.value
    then Commit(employees, activeEventId, projected.value.parentId)
    else employees
  }

  /** The body of `handleDragEnd` after the reset (lines 205-221), on the list that the
      handler's render holds. */
  method Drop(employees: seq<Employee>, projected: Option<Projection>, activeEventId: string, overEventId: Option<string>)
    returns (nextEmployees: seq<Employee>)
    ensures nextEmployees == DropResult(employees, projected, activeEventId, overEventId)
  {
    nextEmployees := employees;
    if projected.Some? && overEventId.Some? && activeEventId != overEventId.value {
      var parentId := projected.value.parentId;
      var activeIndex := FindIndex(EmployeeIds(nextEmployees), activeEventId);
      if activeIndex != -1 {
        var activeEmployee := nextEmployees[activeIndex];
        nextEmployees := nextEmployees[activeIndex := activeEmployee.(managerId := parentId)];
      }
    }
  }

  /** With unique ids, a commit rewrites the manager of exactly the entry with the active
      id, and of no other entry. */
  lemma {:induction false} CommitChangesOnlyActive(employees: seq<Employee>, activeId: string, parentId: Option<string>)
    requires Distinct(EmployeeIds(employees))
    ensures var r := Commit(employees, activeId, parentId);
      forall i :: 0 <= i < |r| ==>
        r[i].managerId == if employees[i].id == activeId then parentId else employees[i].managerId
  {
    var r := Commit(employees, activeId, parentId);
    forall i | 0 <= i < |r| && employees[i].id == activeId
      ensures i == FindIndex(EmployeeIds(employees), activeId)
    {
      FindIndexUnique(EmployeeIds(employees), activeId, i);
    }
  }

  /** Committing an entry's current manager gives back the same list. */
  lemma {:induction false} CommitCurrentManager(employees: seq<Employee>, activeId: string)
    requires activeId in EmployeeIds(employees)
    ensures var i := FindIndex(EmployeeIds(employees), activeId);
      Commit(employees, activeId, employees[i].managerId) == employees
  {
    var i := FindIndex(EmployeeIds(employees), activeId);
    var r := Commit(employees, activeId, employees[i].managerId);
    forall j | 0 <= j < |r| ensures r[j] == employees[j] {
      assert SameButManager(r[j], employees[j]);
    }
  }

  /** After a removal, the removed employee's direct subordinates have a dangling
      `managerId`, so rebuilding the tree puts them at the top level. */
  lemma {:induction false} RemovalOrphansBecomeRoots(employees: seq<Employee>, employeeId: string)
    requires Distinct(EmployeeIds(employees)) && employeeId in EmployeeIds(employees)
    ensures var r := RemoveFirst(employees, employeeId);
      forall f :: f in r && f.managerId == Some(employeeId) ==>
        f.id in EmployeeTree.RootIds(r, EmployeeIds(r))
  {
    var r := RemoveFirst(employees, employeeId);
    var i := FindIndex(EmployeeIds(employees), employeeId);
    assert employeeId !in EmployeeIds(r) by {
      forall j | 0 <= j < |r| ensures r[j].id != employeeId {
        var k := if j < i then j else j + 1;
        assert r[j] == employees[k] && k != i;
        assert EmployeeIds(employees)[k] != EmployeeIds(employees)[i];
      }
    }
    forall f | f in r && f.managerId == Some(employeeId)
      ensures f.id in EmployeeTree.RootIds(r, EmployeeIds(r))
    {
      var j :| 0 <= j < |r| && r[j] == f;
      assert EmployeeTree.IsRoot(r[j], EmployeeIds(r));
      EmployeeTree.RootIdsMembers(r, EmployeeIds(r), f.id);
    }
  }

  /** The component: the employee list and the drag state of lines 73-76. */
  class SortableEmployeeTree {
    var employees: seq<Employee>
    var activeId: Option<string>
    var overId: Option<string>
    var offsetLeft: int
    const indentationWidth: int

    ghost predicate Valid()
      reads this
    {
      indentationWidth > 0
    }

    /** Lines 100-101: a projection is computed only while both ids are set. */
    predicate Dragging()
      reads this
      ensures Dragging() ==> activeId.Some? && activeId.value != "" && overId.Some? && overId.value != ""
    {
      Truthy(activeId) && Truthy(overId)
    }

    /** The rows can serve the projection: while dragging, both ids are among them. */
    predicate RowsFit(rows: seq<Row>)
      reads this
    {
      Dragging() ==> ProjectionArgs(rows, activeId.value, overId.value, indentationWidth)
    }

    /** `projected` (lines 100-109) for the rows of the current render. */
    function Projected(rows: seq<Row>): (r: Option<Projection>)
      reads this
      requires RowsFit(rows)
      ensures r.Some? <==> Dragging()
    {
      if Dragging()
      then Some(GetProjection(rows, activeId.value, overId.value, offsetLeft, indentationWidth))
      else None
    }

    constructor (initialEmployees: seq<Employee>, indentationWidth: int)
      requires indentationWidth > 0
      ensures Valid() && this.indentationWidth == indentationWidth
      ensures employees == initialEmployees
      ensures activeId == None && overId == None && offsetLeft == 0
    {
      employees := initialEmployees;
      activeId := None;
      overId := None;
      offsetLeft := 0;
      this.indentationWidth := indentationWidth;
    }

    /** `handleDragStart` (lines 186-192): the dragged row is also the row under the
      pointer, so a projection exists at once (for a non-empty id). */
    method Start(id: string)
      requires Valid()
      modifies this
      ensures Valid() && activeId == Some(id) && overId == Some(id)
      ensures offsetLeft == old(offsetLeft) && employees == old(employees)
      ensures id != "" ==> Dragging()
    {
      activeId := Some(id);
      overId := Some(id);
    }

    /** `handleDragMove` (lines 194-196). */
    method Move(deltaX: int)
      requires Valid()
      modifies this
      ensures Valid() && offsetLeft == deltaX
      ensures activeId == old(activeId) && overId == old(overId) && employees == old(employees)
    {
      offsetLeft := deltaX;
    }

    /** `handleDragOver` (lines 198-200): `over` may be null. */
    method Over(over: Option<string>)
      requires Valid()
      modifies this
      ensures Valid() && overId == over
      ensures activeId == old(activeId) && offsetLeft == old(offsetLeft) && employees == old(employees)
    {
      overId := over;
    }

    /** `resetState` (lines 228-234). */
    method Reset()
      requires Valid()
      modifies this
      ensures Valid() && activeId == None && overId == None && offsetLeft == 0
      ensures employees == old(employees)
    {
      overId := None;
      activeId := None;
      offsetLeft := 0;
    }

    /** `handleDragEnd` (lines 202-222). The projection is the one of the render that
      handles the event, so it is taken from the state before the reset. */
    method End(rows: seq<Row>, activeEventId: string, overEventId: Option<string>)
      requires Valid() && RowsFit(rows)
      modifies this
      ensures Valid() && activeId == None && overId == None && offsetLeft == 0
      ensures employees == DropResult(old(employees), old(Projected(rows)), activeEventId, overEventId)
    {
      var projected := Projected(rows);
      var current := employees;
      Reset();
      employees := Drop(current, projected, activeEventId, overEventId);
    }

    /** `handleDragCancel` (lines 224-226): the list is untouched. */
    method Cancel()
      requires Valid()
      modifies this
      ensures Valid() && activeId == None && overId == None && offsetLeft == 0
      ensures employees == old(employees)
    {
      Reset();
    }

    /** `handleRemove` (lines 236-250). */
    method Remove(employeeId: string)
      requires Valid()
      modifies this
      ensures Valid() && employees == RemoveFirst(old(employees), employeeId)
      ensures activeId == old(activeId) && overId == old(overId) && offsetLeft == old(offsetLeft)
    {
      var indexOfEmployee := FindIndex(EmployeeIds(employees), employeeId);
      if indexOfEmployee == -1 {
        return;
      }
      var nextEmployees := employees;
      nextEmployees := nextEmployees[..indexOfEmployee] + nextEmployees[indexOfEmployee + 1..];
      employees := nextEmployees;
    }
  }

  /** A whole gesture dropped on its own start row never changes the list, whatever the
      pointer did in between. */
  method DropOnStartRow(tree: SortableEmployeeTree, rows: seq<Row>, id: string, deltaX: int)
    requires tree.Valid() && id in RowIds(rows) && ValidRows(rows)
    modifies tree
    ensures tree.employees == old(tree.employees)
    ensures tree.activeId == None && tree.overId == None && tree.offsetLeft == 0
  {
    tree.Start(id);
    tree.Move(deltaX);
    tree.End(rows, id, Some(id));
  }
}
