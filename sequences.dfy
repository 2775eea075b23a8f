/** The JavaScript array primitives the core relies on, on Dafny sequences. */
module Sequences {
  import opened Types

  /** `ids.findIndex(x => x === id)`: the first index holding `id`, or -1. */
  function FindIndex(ids: seq<string>, id: string): (r: int)
    ensures -1 <= r < |ids|
    ensures r == -1 <==> id !in ids
    ensures 0 <= r ==> ids[r] == id && forall j :: 0 <= j < r ==> ids[j] != id
  {
    if |ids| == 0 then -1
    else if ids[0] == id then 0
    else
      var k := FindIndex(ids[1..], id);
      if k == -1 then -1 else k + 1
  }

  /** `splice(i, 1)` on a copy: the sequence with the element at `i` taken out. */
  function RemoveAt<T>(s: seq<T>, i: int): (r: seq<T>)
    requires 0 <= i < |s|
    ensures |r| == |s| - 1
    ensures forall j :: 0 <= j < i ==> r[j] == s[j]
    ensures forall j :: i <= j < |r| ==> r[j] == s[j + 1]
    ensures multiset(r) + multiset{s[i]} == multiset(s)
  {
    assert s == s[..i] + [s[i]] + s[i + 1..];
    s[..i] + s[i + 1..]
  }

  /** No identifier occurs twice. */
  predicate Distinct(ids: seq<string>)
  {
    forall i, j :: 0 <= i < j < |ids| ==> ids[i] != ids[j]
  }

  function EmployeeIds(es: seq<Employee>): (ids: seq<string>)
    ensures |ids| == |es| && forall i :: 0 <= i < |es| ==> ids[i] == es[i].id
  {
    seq(|es|, i requires 0 <= i < |es| => es[i].id)
  }

  function RowIds(rows: seq<Row>): (ids: seq<string>)
    ensures |ids| == |rows| && forall i :: 0 <= i < |rows| ==> ids[i] == rows[i].id
  {
    seq(|rows|, i requires 0 <= i < |rows| => rows[i].id)
  }

  /** With distinct ids, the index `FindIndex` returns is the only one holding the id. */
  lemma FindIndexUnique(ids: seq<string>, id: string, i: int)
    requires Distinct(ids) && 0 <= i < |ids| && ids[i] == id
    ensures FindIndex(ids, id) == i
  {
  }
}
