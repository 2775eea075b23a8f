/** The record types of the org chart (src/components/Tree/types.ts) and of the rows
    the table library hands to the drag handlers. */
module Types {

  /** `T | null` (and tanstack's `T | undefined`) */
  datatype Option<+T> = None | Some(value: T)

  /** An employee; `managerId` is the parent pointer, `null` for a top-level employee. */
  datatype Employee = Employee(
    id: string,
    name: string,
    position: string,
    department: string,
    managerId: Option<string>)

  /** A node of the built tree. The source's nodes hold their subordinates by reference;
      here a node holds the ids of its subordinates, which are looked up in the same
      id-to-node map that the source shares its node objects through. */
  datatype EmployeeNode = EmployeeNode(employee: Employee, subordinates: seq<string>)

  /** A flattened table row as the projection reads it: the row id (the employee id),
      its depth in the flattened tree and the id of its parent row (absent for roots). */
  datatype Row = Row(id: string, depth: int, parentId: Option<string>)

  /** JavaScript truthiness of a `string | null`: `null` and `""` are falsy. */
  predicate Truthy(s: Option<string>)
  {
    s.Some? && s.value != ""
  }
}
