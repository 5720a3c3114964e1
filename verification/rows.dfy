/**
 * Set-at-a-time semantics of SQL statements over the rows of one table,
 * kept in storage order. `hit` is the statement's WHERE predicate: an
 * UPDATE rewrites every row it holds for, a DELETE removes every such row,
 * and a SELECT ... fetchone returns the first.
 */
module Rows {
  import opened Wrappers

  /** How many rows satisfy the WHERE predicate. */
  function Count<R>(rows: seq<R>, hit: R -> bool): (n: nat)
    ensures n <= |rows|
    ensures n == 0 <==> forall i :: 0 <= i < |rows| ==> !hit(rows[i])
  {
    if rows == [] then 0
    else (if hit(rows[0]) then 1 else 0) + Count(rows[1..], hit)
  }

  /** `UPDATE ... SET ... WHERE hit`: every matching row is rewritten by
      `assign`, every other row is kept, and the order is unchanged. */
  function UpdateWhere<R>(rows: seq<R>, hit: R -> bool, assign: R -> R): (r: seq<R>)
    ensures |r| == |rows|
    ensures forall i :: 0 <= i < |rows| ==> r[i] == if hit(rows[i]) then assign(rows[i]) else rows[i]
  {
    if rows == [] then []
    else [if hit(rows[0]) then assign(rows[0]) else rows[0]] + UpdateWhere(rows[1..], hit, assign)
  }

  /** `DELETE ... WHERE hit`: exactly the non-matching rows remain, in order. */
  function DeleteWhere<R(==)>(rows: seq<R>, hit: R -> bool): (r: seq<R>)
    ensures |r| == |rows| - Count(rows, hit)
    ensures forall i :: 0 <= i < |r| ==> r[i] in rows && !hit(r[i])
    ensures forall i :: 0 <= i < |rows| && !hit(rows[i]) ==> rows[i] in r
  {
    if rows == [] then []
    else if hit(rows[0]) then DeleteWhere(rows[1..], hit)
    else [rows[0]] + DeleteWhere(rows[1..], hit)
  }

  /** `SELECT ... WHERE hit` followed by `fetchone()`: the first matching row in
      storage order, or `None`. */
  function FirstWhere<R(==)>(rows: seq<R>, hit: R -> bool): (r: Option<R>)
    ensures r.None? <==> Count(rows, hit) == 0
    ensures r.Some? ==> exists i :: 0 <= i < |rows| && rows[i] == r.value && hit(rows[i])
                                     && forall j :: 0 <= j < i ==> !hit(rows[j])
  {
    if rows == [] then None
    else if hit(rows[0]) then Some(rows[0])
    else
      var r := FirstWhere(rows[1..], hit);
      if r.Some? then
        var i :| 0 <= i < |rows[1..]| && rows[1..][i] == r.value && hit(rows[1..][i])
                 && forall j :: 0 <= j < i ==> !hit(rows[1..][j]);
        assert rows[i + 1] == r.value && forall j :: 0 <= j < i + 1 ==> !hit(rows[j]);
        r
      else r
  }

  /** Surrogate keys strictly increase along storage order (so they are distinct). */
  ghost predicate Ascending<R>(rows: seq<R>, id: R -> int) {
    forall i, j :: 0 <= i < j < |rows| ==> id(rows[i]) < id(rows[j])
  }

  /** Every surrogate key lies in 1..last, the range AUTOINCREMENT has handed out. */
  ghost predicate IdsUpTo<R>(rows: seq<R>, id: R -> int, last: int) {
    forall i :: 0 <= i < |rows| ==> 0 < id(rows[i]) <= last
  }

  /** A DELETE keeps the surrogate keys ascending. */
  lemma {:induction false} DeleteKeepsAscending<R>(rows: seq<R>, hit: R -> bool, id: R -> int)
    requires Ascending(rows, id)
    ensures Ascending(DeleteWhere(rows, hit), id)
  {
    if rows != [] {
      var rest := rows[1..];
      assert Ascending(rest, id) by {
        forall i, j | 0 <= i < j < |rest| ensures id(rest[i]) < id(rest[j]) {
          assert rest[i] == rows[i + 1] && rest[j] == rows[j + 1];
        }
      }
      DeleteKeepsAscending(rest, hit, id);
      if !hit(rows[0]) {
        var tail := DeleteWhere(rest, hit);
        forall j | 0 <= j < |tail| ensures id(rows[0]) < id(tail[j]) {
          var k :| 0 <= k < |rest| && rest[k] == tail[j];
          assert rows[k + 1] == tail[j];
        }
        PrependKeepsAscending(rows[0], tail, id);
      }
    }
  }

  /** Helper: a row whose key is below every key of an ascending table may go first. */
  lemma PrependKeepsAscending<R>(x: R, rows: seq<R>, id: R -> int)
    requires Ascending(rows, id)
    requires forall j :: 0 <= j < |rows| ==> id(x) < id(rows[j])
    ensures Ascending([x] + rows, id)
  {
    var r := [x] + rows;
    forall i, j | 0 <= i < j < |r| ensures id(r[i]) < id(r[j]) {
      assert r[j] == rows[j - 1];
      if i > 0 { assert r[i] == rows[i - 1]; }
    }
  }

  /** An UPDATE that leaves the surrogate key alone keeps the keys ascending. */
  lemma UpdateKeepsAscending<R>(rows: seq<R>, hit: R -> bool, assign: R -> R, id: R -> int)
    requires Ascending(rows, id)
    requires forall x :: id(assign(x)) == id(x)
    ensures Ascending(UpdateWhere(rows, hit, assign), id)
  {
    var r := UpdateWhere(rows, hit, assign);
    forall i | 0 <= i < |rows| ensures id(r[i]) == id(rows[i]) {
      assert r[i] == if hit(rows[i]) then assign(rows[i]) else rows[i];
    }
  }

  /** An UPDATE or DELETE whose WHERE predicate matches nothing is a no-op. */
  lemma NoMatchIsNoOp<R>(rows: seq<R>, hit: R -> bool, assign: R -> R)
    requires Count(rows, hit) == 0
    ensures UpdateWhere(rows, hit, assign) == rows
    ensures DeleteWhere(rows, hit) == rows
  {
    assert |DeleteWhere(rows, hit)| == |rows|;
    DeleteKeepsOrder(rows, hit);
  }

  /** Helper: when nothing is removed, DELETE returns the rows unchanged. */
  lemma {:induction false} DeleteKeepsOrder<R>(rows: seq<R>, hit: R -> bool)
    requires Count(rows, hit) == 0
    ensures DeleteWhere(rows, hit) == rows
  {
    if rows != [] {
      assert !hit(rows[0]);
      DeleteKeepsOrder(rows[1..], hit);
      assert rows == [rows[0]] + rows[1..];
    }
  }

  /** Count over an appended row. */
  lemma {:induction false} CountAppend<R>(rows: seq<R>, x: R, hit: R -> bool)
    ensures Count(rows + [x], hit) == Count(rows, hit) + (if hit(x) then 1 else 0)
  {
    if rows == [] {
      assert [x][1..] == [];
    } else {
      assert (rows + [x])[1..] == rows[1..] + [x];
      CountAppend(rows[1..], x, hit);
    }
  }
}
