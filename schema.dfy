/** The relational schema the portal runs on (login_no, login_rec,
    evaluator_role, department, zdgz, role_dept_permission,
    role_zdgz_permission, zdgz_score, myd_score), one datatype per row kind,
    and the row-level operations of the statements database.py issues. */
module Schema {
  import opened Wrappers

  /** evaluator_role: `zdgzWeight` multiplies the role's indicator scores. */
  datatype Role = Role(id: int, name: string, zdgzWeight: real)

  /** department: only enabled departments are offered for satisfaction scoring. */
  datatype Department = Department(id: int, name: string, deptType: Option<string>, workDesc: Option<string>, enabled: bool)

  /** zdgz: a key work indicator; `department` is a name, not a key. */
  datatype Indicator = Indicator(
    id: int,
    department: Option<string>,
    name: Option<string>,
    description: string,
    workDesc: string,
    evidencePath: Option<string>)

  /** login_no: a single-use credential pair owned by one role. */
  datatype LoginCode = LoginCode(account: string, password: string, roleId: int, used: bool)

  /** login_rec: one successful login. */
  datatype LoginRecord = LoginRecord(ip: string, account: string)

  /** role_dept_permission: the role may score the department, with this weight. */
  datatype DeptPermission = DeptPermission(roleId: int, deptId: int, weight: real)

  /** role_zdgz_permission: the role may score the indicators of this department. */
  datatype ZdgzPermission = ZdgzPermission(roleId: int, department: string)

  /** The unique key of zdgz_score (item = indicator id) and of myd_score
      (item = department id). */
  datatype ScoreKey = ScoreKey(loginCode: string, roleId: int, itemId: int)

  datatype Score = Score(key: ScoreKey, score: real)

  // ---------------------------------------------------------------------------
  // Score tables: upsert on the unique key (database.py:580-620)

  ghost predicate KeysUnique(rows: seq<Score>)
  {
    forall i, j :: 0 <= i < j < |rows| ==> rows[i].key != rows[j].key
  }

  /** The score stored under `k`, if any. */
  function Lookup(rows: seq<Score>, k: ScoreKey): Option<real>
  {
    if rows == [] then None
    else if rows[0].key == k then Some(rows[0].score)
    else Lookup(rows[1..], k)
  }

  /** The rows stored under any other key. */
  function Without(rows: seq<Score>, k: ScoreKey): seq<Score>
  {
    if rows == [] then []
    else (if rows[0].key == k then [] else [rows[0]]) + Without(rows[1..], k)
  }

  /** Sets the score of every row keyed `k`. */
  function SetScore(rows: seq<Score>, k: ScoreKey, score: real): (r: seq<Score>)
    ensures |r| == |rows|
    ensures forall i :: 0 <= i < |r| ==> r[i].key == rows[i].key
    ensures forall i :: 0 <= i < |r| ==> r[i].score == if rows[i].key == k then score else rows[i].score
  {
    if rows == [] then []
    else [if rows[0].key == k then Score(k, score) else rows[0]] + SetScore(rows[1..], k, score)
  }

  /** `INSERT ... ON DUPLICATE KEY UPDATE score = VALUES(score)`: afterwards the
      key holds the new score in exactly one row and every other row is as it was. */
  function Upsert(rows: seq<Score>, k: ScoreKey, score: real): (r: seq<Score>)
    requires KeysUnique(rows)
    ensures KeysUnique(r)
    ensures Lookup(r, k) == Some(score)
    ensures exists i :: 0 <= i < |r| && r[i].key == k
    ensures Without(r, k) == Without(rows, k)
  {
    if Lookup(rows, k).Some? then
      LookupFound(rows, k);
      SetScoreWithout(rows, k, score);
      SetScoreLookup(rows, k, score);
      SetScore(rows, k, score)
    else
      LookupNone(rows, k);
      WithoutAppend(rows, Score(k, score), k);
      LookupAppend(rows, Score(k, score), k);
      assert (rows + [Score(k, score)])[|rows|].key == k;
      rows + [Score(k, score)]
  }

  lemma {:induction false} LookupFound(rows: seq<Score>, k: ScoreKey)
    ensures Lookup(rows, k).Some? <==> exists i :: 0 <= i < |rows| && rows[i].key == k
  {
    if rows != [] {
      LookupFound(rows[1..], k);
      if rows[0].key != k {
        assert forall i :: 1 <= i < |rows| ==> rows[i] == rows[1..][i - 1];
      }
    }
  }

  lemma LookupNone(rows: seq<Score>, k: ScoreKey)
    requires Lookup(rows, k).None?
    ensures forall i :: 0 <= i < |rows| ==> rows[i].key != k
  {
    LookupFound(rows, k);
  }

  lemma {:induction false} SetScoreWithout(rows: seq<Score>, k: ScoreKey, score: real)
    ensures Without(SetScore(rows, k, score), k) == Without(rows, k)
  {
    if rows != [] {
      SetScoreWithout(rows[1..], k, score);
      var r := SetScore(rows, k, score);
      assert r[1..] == SetScore(rows[1..], k, score);
    }
  }

  lemma {:induction false} SetScoreLookup(rows: seq<Score>, k: ScoreKey, score: real)
    requires Lookup(rows, k).Some?
    ensures Lookup(SetScore(rows, k, score), k) == Some(score)
  {
    var r := SetScore(rows, k, score);
    if rows[0].key != k {
      SetScoreLookup(rows[1..], k, score);
      assert r[1..] == SetScore(rows[1..], k, score);
    }
  }

  lemma {:induction false} WithoutAppend(rows: seq<Score>, x: Score, k: ScoreKey)
    requires x.key == k
    ensures Without(rows + [x], k) == Without(rows, k)
  {
    if rows == [] {
      assert [x][1..] == [];
    } else {
      assert (rows + [x])[1..] == rows[1..] + [x];
      WithoutAppend(rows[1..], x, k);
    }
  }

  lemma {:induction false} LookupAppend(rows: seq<Score>, x: Score, k: ScoreKey)
    requires x.key == k && Lookup(rows, k).None?
    ensures Lookup(rows + [x], k) == Some(x.score)
  {
    if rows != [] {
      assert (rows + [x])[1..] == rows[1..] + [x];
      LookupAppend(rows[1..], x, k);
    }
  }

  /** Dropping the rows of one key leaves the lookup of every other key alone. */
  lemma {:induction false} LookupWithout(rows: seq<Score>, k: ScoreKey, other: ScoreKey)
    requires other != k
    ensures Lookup(Without(rows, k), other) == Lookup(rows, other)
  {
    if rows != [] {
      LookupWithout(rows[1..], k, other);
      var w := Without(rows[1..], k);
      if rows[0].key != k {
        assert Without(rows, k) == [rows[0]] + w;
        assert ([rows[0]] + w)[1..] == w;
      } else {
        assert Without(rows, k) == [] + w == w;
      }
    }
  }

  /** An upsert changes the score of its own key only. */
  lemma UpsertOther(rows: seq<Score>, k: ScoreKey, score: real, other: ScoreKey)
    requires KeysUnique(rows) && other != k
    ensures Lookup(Upsert(rows, k, score), other) == Lookup(rows, other)
  {
    LookupWithout(rows, k, other);
    LookupWithout(Upsert(rows, k, score), k, other);
  }

  // ---------------------------------------------------------------------------
  // login_no

  /** `UPDATE login_no SET used=1 WHERE account=%s`. */
  function MarkUsed(codes: seq<LoginCode>, account: string): (r: seq<LoginCode>)
    ensures |r| == |codes|
    ensures forall i :: 0 <= i < |r| ==>
      r[i] == if codes[i].account == account then codes[i].(used := true) else codes[i]
  {
    if codes == [] then []
    else [if codes[0].account == account then codes[0].(used := true) else codes[0]] + MarkUsed(codes[1..], account)
  }

  /** `SELECT * FROM login_no WHERE account=%s` and `fetchone()`: a matching row. */
  function FindLogin(codes: seq<LoginCode>, account: string): (r: Option<LoginCode>)
    ensures r.Some? ==> r.value in codes && r.value.account == account
    ensures r.None? ==> forall i :: 0 <= i < |codes| ==> codes[i].account != account
  {
    if codes == [] then None
    else if codes[0].account == account then Some(codes[0])
    else FindLogin(codes[1..], account)
  }

  // ---------------------------------------------------------------------------
  // role_dept_permission

  /** At most one weight per (role, department) pair. */
  ghost predicate DeptPermsUnique(rows: seq<DeptPermission>)
  {
    forall i, j :: 0 <= i < j < |rows| ==>
      rows[i].roleId != rows[j].roleId || rows[i].deptId != rows[j].deptId
  }

  /** The rows of the roles outside `roles` (what survives
      `DELETE FROM role_dept_permission WHERE role_id=%s` for each of them). */
  function KeepOtherRoles(rows: seq<DeptPermission>, roles: set<int>): (r: seq<DeptPermission>)
    ensures forall x :: x in r <==> x in rows && x.roleId !in roles
    ensures |r| <= |rows|
  {
    if rows == [] then []
    else (if rows[0].roleId in roles then [] else [rows[0]]) + KeepOtherRoles(rows[1..], roles)
  }

  /** The rows of one role, in table order. */
  function DeptPermsOf(rows: seq<DeptPermission>, role: int): (r: seq<DeptPermission>)
    ensures forall x :: x in r <==> x in rows && x.roleId == role
  {
    if rows == [] then []
    else (if rows[0].roleId == role then [rows[0]] else []) + DeptPermsOf(rows[1..], role)
  }

  /** The weight the last row for (role, dept) carries, if there is one. */
  function LastDeptWeight(rows: seq<DeptPermission>, role: int, dept: int): (r: Option<real>)
    ensures r.Some? ==> DeptPermission(role, dept, r.value) in rows
    ensures r.None? ==> forall x :: x in rows ==> x.roleId != role || x.deptId != dept
  {
    if rows == [] then None
    else
      var last := rows[|rows| - 1];
      assert rows == rows[..|rows| - 1] + [last];
      if last.roleId == role && last.deptId == dept then Some(last.weight)
      else LastDeptWeight(rows[..|rows| - 1], role, dept)
  }

  /** With one row per pair, the last row for a pair carries its only weight. */
  lemma LastDeptWeightUnique(rows: seq<DeptPermission>, r: int, d: int, w: real)
    requires DeptPermsUnique(rows)
    ensures LastDeptWeight(rows, r, d) == Some(w) <==> DeptPermission(r, d, w) in rows
  {
    if DeptPermission(r, d, w) in rows {
      var lw := LastDeptWeight(rows, r, d);
      assert lw.Some?;
      var i :| 0 <= i < |rows| && rows[i] == DeptPermission(r, d, w);
      var j :| 0 <= j < |rows| && rows[j] == DeptPermission(r, d, lw.value);
      assert !(i < j) && !(j < i);
    }
  }

  // ---------------------------------------------------------------------------
  // role_zdgz_permission

  /** The department names of one role, in table order. */
  function DepartmentsOf(rows: seq<ZdgzPermission>, role: int): (r: seq<string>)
    ensures forall d :: d in r <==> ZdgzPermission(role, d) in rows
    ensures |r| <= |rows|
  {
    if rows == [] then []
    else
      assert rows == [rows[0]] + rows[1..];
      (if rows[0].roleId == role then [rows[0].department] else []) + DepartmentsOf(rows[1..], role)
  }

  /** The rows that survive `DELETE FROM role_zdgz_permission WHERE role_id = %s`. */
  function KeepOtherZdgzRole(rows: seq<ZdgzPermission>, role: int): (r: seq<ZdgzPermission>)
    ensures forall x :: x in r <==> x in rows && x.roleId != role
  {
    if rows == [] then []
    else (if rows[0].roleId == role then [] else [rows[0]]) + KeepOtherZdgzRole(rows[1..], role)
  }

  /** The rows inserted for one role's department list. */
  function ZdgzRows(role: int, departments: seq<string>): (r: seq<ZdgzPermission>)
    ensures |r| == |departments|
    ensures forall i :: 0 <= i < |r| ==> r[i] == ZdgzPermission(role, departments[i])
  {
    if departments == [] then []
    else [ZdgzPermission(role, departments[0])] + ZdgzRows(role, departments[1..])
  }
}
