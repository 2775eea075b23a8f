/** `buildEmployeeTree` (src/components/Tree/utilities.ts:6-26): from a flat list with
    `managerId` parent pointers to a forest. The reference definitions below are filters
    over the input list; the method, which mirrors the two passes of the source, is
    proved against them. */
module EmployeeTree {
  import opened Types
  import opened Sequences

  /** The `reduce` of lines 7-13: later entries overwrite earlier ones with the same id. */
  function Reduced(es: seq<Employee>): (m: map<string, Employee>)
    ensures forall k :: k in m <==> k in EmployeeIds(es)
    ensures forall k :: k in m ==> m[k].id == k
  {
    if es == [] then map[]
    else
      var init := es[..|es| - 1];
      assert EmployeeIds(es) == EmployeeIds(init) + [es[|es| - 1].id];
      Reduced(init)[es[|es| - 1].id := es[|es| - 1]]
  }

  /** Line 18: placed at the top level when `managerId` is falsy (`null` or `""`) or names
      no known id. */
  predicate IsRoot(e: Employee, ids: seq<string>)
    ensures e.managerId.None? || e.managerId == Some("") ==> IsRoot(e, ids)
    ensures !IsRoot(e, ids) <==> Truthy(e.managerId) && e.managerId.value in ids
  {
    !Truthy(e.managerId) || e.managerId.value !in ids
  }

  /** The ids of the top-level employees, in input order. */
  function RootIds(es: seq<Employee>, ids: seq<string>): seq<string>
  {
    if es == [] then []
    else
      var e := es[|es| - 1];
      RootIds(es[..|es| - 1], ids) + (if IsRoot(e, ids) then [e.id] else [])
  }

  /** The ids of the employees placed under manager `m`, in input order. */
  function SubordinateIds(es: seq<Employee>, m: string, ids: seq<string>): seq<string>
  {
    if es == [] then []
    else
      var e := es[|es| - 1];
      SubordinateIds(es[..|es| - 1], m, ids)
        + (if !IsRoot(e, ids) && e.managerId.value == m then [e.id] else [])
  }

  /** The number of entries in all the subordinate lists of the managers `ks`. */
  function TotalSubordinates(es: seq<Employee>, ks: seq<string>, ids: seq<string>): nat
  {
    if ks == [] then 0
    else |SubordinateIds(es, ks[0], ids)| + TotalSubordinates(es, ks[1..], ids)
  }

  /** The `reduce` of lines 7-13: one fresh node with no subordinates per known id. */
  method IndexEmployees(employees: seq<Employee>) returns (employeeMap: map<string, EmployeeNode>)
    ensures forall k :: k in employeeMap <==> k in EmployeeIds(employees)
    ensures forall k :: k in employeeMap ==> employeeMap[k] == EmployeeNode(Reduced(employees)[k], [])
  {
    employeeMap := map[];
    for i := 0 to |employees|
      invariant forall k :: k in employeeMap <==> k in Reduced(employees[..i])
      invariant forall k :: k in employeeMap ==>
        employeeMap[k] == EmployeeNode(Reduced(employees[..i])[k], [])
    {
      var e := employees[i];
      ReducedSnoc(employees, i);
      employeeMap := employeeMap[e.id := EmployeeNode(e, [])];
    }
    assert employees[..|employees|] == employees;
  }

  /** Lines 6-26: index the employees, then push every employee either onto the
      top-level list or onto its manager's `subordinates`. The result is the map and the
      top-level list, as node ids. */
  method BuildEmployeeTree(employees: seq<Employee>)
    returns (employeeMap: map<string, EmployeeNode>, employeeTree: seq<string>)
    ensures forall k :: k in employeeMap <==> k in EmployeeIds(employees)
    ensures forall k :: k in employeeMap ==>
      employeeMap[k].employee == Reduced(employees)[k]
      && employeeMap[k].subordinates == SubordinateIds(employees, k, EmployeeIds(employees))
    ensures employeeTree == RootIds(employees, EmployeeIds(employees))
  {
    employeeMap := IndexEmployees(employees);
    ghost var ids := EmployeeIds(employees);
    ghost var reduced := Reduced(employees);

    employeeTree := [];
    for i := 0 to |employees|
      invariant forall k :: k in employeeMap <==> k in ids
      invariant forall k :: k in employeeMap ==>
        employeeMap[k].employee == reduced[k]
        && employeeMap[k].subordinates == SubordinateIds(employees[..i], k, ids)
      invariant employeeTree == RootIds(employees[..i], ids)
    {
      var e := employees[i];
      RootIdsSnoc(employees, i, ids);
      forall k ensures SubordinateIds(employees[..i + 1], k, ids) ==
        SubordinateIds(employees[..i], k, ids) + (if !IsRoot(e, ids) && e.managerId.value == k then [e.id] else [])
      {
        SubordinateIdsSnoc(employees, i, k, ids);
      }
      if !Truthy(e.managerId) || e.managerId.value !in employeeMap {
        employeeTree := employeeTree + [e.id];
      } else {
        var m := e.managerId.value;
        employeeMap := employeeMap[m := employeeMap[m].(subordinates := employeeMap[m].subordinates + [e.id])];
      }
    }
    assert employees[..|employees|] == employees;
  }

  lemma {:induction false} ReducedSnoc(es: seq<Employee>, i: int)
    requires 0 <= i < |es|
    ensures Reduced(es[..i + 1]) == Reduced(es[..i])[es[i].id := es[i]]
  {
    assert es[..i + 1][..i] == es[..i];
  }

  lemma {:induction false} RootIdsSnoc(es: seq<Employee>, i: int, ids: seq<string>)
    requires 0 <= i < |es|
    ensures RootIds(es[..i + 1], ids) == RootIds(es[..i], ids) + (if IsRoot(es[i], ids) then [es[i].id] else [])
  {
    assert es[..i + 1][..i] == es[..i];
  }

  lemma {:induction false} SubordinateIdsSnoc(es: seq<Employee>, i: int, m: string, ids: seq<string>)
    requires 0 <= i < |es|
    ensures SubordinateIds(es[..i + 1], m, ids) ==
      SubordinateIds(es[..i], m, ids) + (if !IsRoot(es[i], ids) && es[i].managerId.value == m then [es[i].id] else [])
  {
    assert es[..i + 1][..i] == es[..i];
  }

  /** Membership in the top-level list, both directions: exactly the employees that
      `IsRoot` selects. */
  lemma {:induction false} RootIdsMembers(es: seq<Employee>, ids: seq<string>, x: string)
    ensures x in RootIds(es, ids) <==> exists i :: 0 <= i < |es| && es[i].id == x && IsRoot(es[i], ids)
  {
    if es != [] {
      var init := es[..|es| - 1];
      RootIdsMembers(init, ids, x);
      assert forall i :: 0 <= i < |init| ==> init[i] == es[i];
      if x in RootIds(init, ids) {
        var i :| 0 <= i < |init| && init[i].id == x && IsRoot(init[i], ids);
        assert es[i].id == x && IsRoot(es[i], ids);
      }
    }
  }

  /** Membership in a subordinate list, both directions: exactly the non-root employees
      whose `managerId` is `m`. */
  lemma {:induction false} SubordinateIdsMembers(es: seq<Employee>, m: string, ids: seq<string>, x: string)
    ensures x in SubordinateIds(es, m, ids) <==>
      exists i :: 0 <= i < |es| && es[i].id == x && !IsRoot(es[i], ids) && es[i].managerId.value == m
  {
    if es != [] {
      var init := es[..|es| - 1];
      SubordinateIdsMembers(init, m, ids, x);
      assert forall i :: 0 <= i < |init| ==> init[i] == es[i];
      if x in SubordinateIds(init, m, ids) {
        var i :| 0 <= i < |init| && init[i].id == x && !IsRoot(init[i], ids) && init[i].managerId.value == m;
        assert es[i].id == x;
      }
    }
  }

  /** When only the first entry is top-level, the top-level list is that entry alone. */
  lemma {:induction false} SingleRoot(es: seq<Employee>, ids: seq<string>)
    requires |es| > 0 && IsRoot(es[0], ids)
    requires forall i :: 0 < i < |es| ==> !IsRoot(es[i], ids)
    ensures RootIds(es, ids) == [es[0].id]
  {
    if |es| > 1 {
      var init := es[..|es| - 1];
      assert forall i :: 0 <= i < |init| ==> init[i] == es[i];
      SingleRoot(init, ids);
    }
  }

  /** With unique ids, each node carries its own employee unchanged. */
  lemma {:induction false} ReducedUnique(es: seq<Employee>, i: int)
    requires Distinct(EmployeeIds(es)) && 0 <= i < |es|
    ensures Reduced(es)[es[i].id] == es[i]
  {
    var n := |es| - 1;
    var init := es[..n];
    if i < n {
      assert EmployeeIds(init) == EmployeeIds(es)[..n];
      ReducedUnique(init, i);
      assert init[i] == es[i];
      assert es[n].id != es[i].id by { assert EmployeeIds(es)[i] != EmployeeIds(es)[n]; }
    }
  }

  /** Appending one employee adds one entry to the subordinate count exactly when it is
      placed under one of the distinct managers `ks`. */
  lemma {:induction false} TotalSubordinatesSnoc(es: seq<Employee>, e: Employee, ks: seq<string>, ids: seq<string>)
    requires Distinct(ks)
    ensures TotalSubordinates(es + [e], ks, ids) ==
      TotalSubordinates(es, ks, ids) + (if !IsRoot(e, ids) && e.managerId.value in ks then 1 else 0)
  {
    if ks != [] {
      assert (es + [e])[..|es + [e]| - 1] == es;
      assert Distinct(ks[1..]) by {
        forall i, j | 0 <= i < j < |ks[1..]| ensures ks[1..][i] != ks[1..][j] {
          assert ks[i + 1] != ks[j + 1];
        }
      }
      TotalSubordinatesSnoc(es, e, ks[1..], ids);
      if !IsRoot(e, ids) && e.managerId.value == ks[0] {
        assert ks[0] !in ks[1..] by {
          forall j | 0 <= j < |ks[1..]| ensures ks[1..][j] != ks[0] { assert ks[0] != ks[j + 1]; }
        }
      }
      assert e.managerId.Some? && e.managerId.value in ks ==>
        e.managerId.value == ks[0] || e.managerId.value in ks[1..];
    }
  }

  /** Every entry of the input is placed exactly once: the top-level list and all the
      subordinate lists together have as many entries as the input, whenever `ks` lists
      each known id once. */
  lemma {:induction false} EveryEmployeePlacedOnce(es: seq<Employee>, ks: seq<string>, ids: seq<string>)
    requires Distinct(ks) && forall k :: k in ids <==> k in ks
    ensures |RootIds(es, ids)| + TotalSubordinates(es, ks, ids) == |es|
  {
    if es == [] {
      TotalSubordinatesEmpty(ks, ids);
    } else {
      var init, e := es[..|es| - 1], es[|es| - 1];
      assert es == init + [e];
      EveryEmployeePlacedOnce(init, ks, ids);
      TotalSubordinatesSnoc(init, e, ks, ids);
    }
  }

  lemma {:induction false} TotalSubordinatesEmpty(ks: seq<string>, ids: seq<string>)
    ensures TotalSubordinates([], ks, ids) == 0
  {
    if ks != [] { TotalSubordinatesEmpty(ks[1..], ids); }
  }

  /** The same count for the built tree of a list with unique ids, over the list's own ids. */
  lemma {:induction false} BuiltTreePlacesEveryEmployeeOnce(es: seq<Employee>)
    requires Distinct(EmployeeIds(es))
    ensures |RootIds(es, EmployeeIds(es))| + TotalSubordinates(es, EmployeeIds(es), EmployeeIds(es)) == |es|
  {
    EveryEmployeePlacedOnce(es, EmployeeIds(es), EmployeeIds(es));
  }

  /** An employee that manages itself is never top-level and appears only in its own
      subordinate list, so it cannot be reached from the forest. */
  lemma {:induction false} SelfManagedIsUnreachable(es: seq<Employee>, i: int)
    requires Distinct(EmployeeIds(es)) && 0 <= i < |es|
    requires es[i].managerId == Some(es[i].id) && es[i].id != ""
    ensures es[i].id !in RootIds(es, EmployeeIds(es))
    ensures forall k :: k in EmployeeIds(es) ==> (es[i].id in SubordinateIds(es, k, EmployeeIds(es)) <==> k == es[i].id)
  {
    var ids := EmployeeIds(es);
    var x := es[i].id;
    assert !IsRoot(es[i], ids);
    OnlyIndexWithId(es, i);
    RootIdsMembers(es, ids, x);
    forall k | k in ids ensures x in SubordinateIds(es, k, ids) <==> k == x {
      SubordinateIdsMembers(es, k, ids, x);
    }
  }

  /** A set of ids closed under `managerId` (every entry with an id in `c` names a known
      manager whose id is in `c`, as on a cycle of any length) is cut off from the forest:
      none of its members is top-level, and each is placed only under a member of `c`. */
  lemma {:induction false} ManagerCycleIsUnreachable(es: seq<Employee>, c: set<string>)
    requires forall i :: 0 <= i < |es| && es[i].id in c ==>
      Truthy(es[i].managerId) && es[i].managerId.value in EmployeeIds(es) && es[i].managerId.value in c
    ensures forall x :: x in c ==> x !in RootIds(es, EmployeeIds(es))
    ensures forall x, k :: x in c && x in SubordinateIds(es, k, EmployeeIds(es)) ==> k in c
  {
    var ids := EmployeeIds(es);
    forall x | x in c ensures x !in RootIds(es, ids) {
      RootIdsMembers(es, ids, x);
    }
    forall x, k | x in c && x in SubordinateIds(es, k, ids) ensures k in c {
      SubordinateIdsMembers(es, k, ids, x);
    }
  }

  /** With unique ids, `i` is the only index holding `es[i].id`. */
  lemma {:induction false} OnlyIndexWithId(es: seq<Employee>, i: int)
    requires Distinct(EmployeeIds(es)) && 0 <= i < |es|
    ensures forall j :: 0 <= j < |es| && es[j].id == es[i].id ==> j == i
  {
    forall j | 0 <= j < |es| && es[j].id == es[i].id ensures j == i {
      assert EmployeeIds(es)[j] == EmployeeIds(es)[i];
    }
  }
}
