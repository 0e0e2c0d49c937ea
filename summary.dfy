/** The two score summaries of database.py (`get_zdgz_score_summary`,
    `get_myd_score_summary`, database.py:734-800) as group-by functions of the
    tables, and the pivot both Excel exports build from them
    (`export_zdgz_score_excel`, `export_myd_score_excel`, database.py:804-876). */
module Summary {
  import opened Wrappers
  import opened Ordering
  import opened Schema

  // ---------------------------------------------------------------------------
  // Grouping scores

  /** Some score row belongs to the group (item, role). */
  ghost predicate HasScore(scores: seq<Score>, item: int, role: int)
  {
    exists s :: s in scores && s.key.itemId == item && s.key.roleId == role
  }

  /** The scores of the group (item, role), whichever evaluator gave them. */
  function ScoresOf(scores: seq<Score>, item: int, role: int): (r: seq<real>)
    ensures |r| <= |scores|
    ensures |r| > 0 <==> HasScore(scores, item, role)
  {
    if scores == [] then []
    else
      var last := scores[|scores| - 1];
      var init := scores[..|scores| - 1];
      assert scores == init + [last];
      assert forall s :: s in scores <==> s in init || s == last;
      ScoresOf(init, item, role) + (if last.key.itemId == item && last.key.roleId == role then [last.score] else [])
  }

  function Sum(xs: seq<real>): real
  {
    if xs == [] then 0.0 else Sum(xs[..|xs| - 1]) + xs[|xs| - 1]
  }

  /** `AVG(s.score)` of a group (0 for an empty one, which no summary row has). */
  function Average(xs: seq<real>): real
  {
    if xs == [] then 0.0 else Sum(xs) / (|xs| as real)
  }

  // ---------------------------------------------------------------------------
  // Indicator summary: zdgz_score JOIN zdgz JOIN evaluator_role

  datatype ZdgzSummaryRow = ZdgzSummaryRow(
    deptName: Option<string>,
    zdgzId: int,
    indicatorName: Option<string>,
    description: string,
    roleId: int,
    roleName: string,
    zdgzWeight: real,
    scoreCount: nat,
    avgScore: real,
    weightedScore: real)

  /** The summary row of indicator `z` and role `r`: the average of their
      scores, and that average times the role's indicator weight. */
  function ZdgzRowFor(scores: seq<Score>, z: Indicator, r: Role): ZdgzSummaryRow
  {
    var xs := ScoresOf(scores, z.id, r.id);
    ZdgzSummaryRow(z.department, z.id, z.name, z.description, r.id, r.name, r.zdgzWeight,
      |xs|, Average(xs), Average(xs) * r.zdgzWeight)
  }

  /** The groups of one indicator, role by role. */
  function ZdgzRoleRows(scores: seq<Score>, z: Indicator, roles: seq<Role>): seq<ZdgzSummaryRow>
  {
    if roles == [] then []
    else
      var r := roles[|roles| - 1];
      ZdgzRoleRows(scores, z, roles[..|roles| - 1])
        + (if |ScoresOf(scores, z.id, r.id)| > 0 then [ZdgzRowFor(scores, z, r)] else [])
  }

  /** Every non-empty group, indicator by indicator. */
  function ZdgzGroups(scores: seq<Score>, zs: seq<Indicator>, roles: seq<Role>): seq<ZdgzSummaryRow>
  {
    if zs == [] then []
    else ZdgzGroups(scores, zs[..|zs| - 1], roles) + ZdgzRoleRows(scores, zs[|zs| - 1], roles)
  }

  /** `ORDER BY z.department, z.id, r.id`. */
  predicate ZdgzRowLe(a: ZdgzSummaryRow, b: ZdgzSummaryRow)
  {
    if a.deptName != b.deptName then OptStrLe(a.deptName, b.deptName)
    else a.zdgzId < b.zdgzId || (a.zdgzId == b.zdgzId && a.roleId <= b.roleId)
  }

  lemma ZdgzRowLeTotalPreorder()
    ensures TotalPreorder(ZdgzRowLe)
  {
    forall a, b ensures ZdgzRowLe(a, b) || ZdgzRowLe(b, a) {
      OptStrLeTotal(a.deptName, b.deptName);
    }
    forall a, b, c | ZdgzRowLe(a, b) && ZdgzRowLe(b, c) ensures ZdgzRowLe(a, c) {
      if a.deptName != b.deptName && b.deptName != c.deptName {
        OptStrLeTrans(a.deptName, b.deptName, c.deptName);
        if a.deptName == c.deptName {
          OptStrLeAntisym(a.deptName, b.deptName);
        }
      }
    }
  }

  /** `get_zdgz_score_summary`: the groups in the query's order. */
  function ZdgzSummary(scores: seq<Score>, indicators: seq<Indicator>, roles: seq<Role>): (r: seq<ZdgzSummaryRow>)
    ensures SortedBy(r, ZdgzRowLe)
    ensures multiset(r) == multiset(ZdgzGroups(scores, indicators, roles))
  {
    ZdgzRowLeTotalPreorder();
    SortBySorted(ZdgzGroups(scores, indicators, roles), ZdgzRowLe);
    SortBy(ZdgzGroups(scores, indicators, roles), ZdgzRowLe)
  }

  lemma {:induction false} ZdgzRoleRowsMembers(scores: seq<Score>, z: Indicator, roles: seq<Role>)
    ensures forall row :: row in ZdgzRoleRows(scores, z, roles) <==>
      exists r :: r in roles && HasScore(scores, z.id, r.id) && row == ZdgzRowFor(scores, z, r)
  {
    if roles != [] {
      var init, last := roles[..|roles| - 1], roles[|roles| - 1];
      ZdgzRoleRowsMembers(scores, z, init);
      assert roles == init + [last];
      assert forall r :: r in roles <==> r in init || r == last;
    }
  }

  lemma {:induction false} ZdgzGroupsMembers(scores: seq<Score>, zs: seq<Indicator>, roles: seq<Role>)
    ensures forall row :: row in ZdgzGroups(scores, zs, roles) <==>
      exists z, r :: z in zs && r in roles && HasScore(scores, z.id, r.id) && row == ZdgzRowFor(scores, z, r)
  {
    if zs != [] {
      var init, last := zs[..|zs| - 1], zs[|zs| - 1];
      ZdgzGroupsMembers(scores, init, roles);
      ZdgzRoleRowsMembers(scores, last, roles);
      assert zs == init + [last];
      assert forall z :: z in zs <==> z in init || z == last;
    }
  }

  /** A summary row exists for indicator `z` and role `r` exactly when some
      score was given to `z` by an evaluator of `r`; every summary row is such
      a group, and the rows come in department, indicator, role order. */
  lemma ZdgzSummaryRowIff(scores: seq<Score>, indicators: seq<Indicator>, roles: seq<Role>)
    ensures forall z, r :: z in indicators && r in roles ==>
      (ZdgzRowFor(scores, z, r) in ZdgzSummary(scores, indicators, roles) <==> HasScore(scores, z.id, r.id))
    ensures forall row :: row in ZdgzSummary(scores, indicators, roles) ==>
      exists z, r :: z in indicators && r in roles && HasScore(scores, z.id, r.id) && row == ZdgzRowFor(scores, z, r)
    ensures SortedBy(ZdgzSummary(scores, indicators, roles), ZdgzRowLe)
  {
    var g := ZdgzGroups(scores, indicators, roles);
    var s := ZdgzSummary(scores, indicators, roles);
    ZdgzGroupsMembers(scores, indicators, roles);
    assert forall row :: row in s <==> row in multiset(s);
    assert forall row :: row in g <==> row in multiset(g);
  }

  // ---------------------------------------------------------------------------
  // Satisfaction summary: myd_score JOIN department JOIN evaluator_role
  // JOIN role_dept_permission

  datatype MydSummaryRow = MydSummaryRow(
    deptId: int,
    deptName: string,
    roleId: int,
    roleName: string,
    mydWeight: real,
    scoreCount: nat,
    avgScore: real,
    weightedScore: real)

  /** The summary row of department `d` and role `r` under permission weight `w`. */
  function MydRowFor(scores: seq<Score>, d: Department, r: Role, w: real): MydSummaryRow
  {
    var xs := ScoresOf(scores, d.id, r.id);
    MydSummaryRow(d.id, d.name, r.id, r.name, w, |xs|, Average(xs), Average(xs) * w)
  }

  /** The groups of one department, role by role; a role without a
      permission row for the department has none. */
  function MydRoleRows(scores: seq<Score>, perms: seq<DeptPermission>, d: Department, roles: seq<Role>): seq<MydSummaryRow>
  {
    if roles == [] then []
    else
      var r := roles[|roles| - 1];
      var w := LastDeptWeight(perms, r.id, d.id);
      MydRoleRows(scores, perms, d, roles[..|roles| - 1])
        + (if w.Some? && |ScoresOf(scores, d.id, r.id)| > 0 then [MydRowFor(scores, d, r, w.value)] else [])
  }

  function MydGroups(scores: seq<Score>, perms: seq<DeptPermission>, ds: seq<Department>, roles: seq<Role>): seq<MydSummaryRow>
  {
    if ds == [] then []
    else MydGroups(scores, perms, ds[..|ds| - 1], roles) + MydRoleRows(scores, perms, ds[|ds| - 1], roles)
  }

  /** `ORDER BY d.id, r.id`. */
  predicate MydRowLe(a: MydSummaryRow, b: MydSummaryRow)
  {
    a.deptId < b.deptId || (a.deptId == b.deptId && a.roleId <= b.roleId)
  }

  /** `get_myd_score_summary`: the groups in the query's order. */
  function MydSummary(scores: seq<Score>, perms: seq<DeptPermission>, departments: seq<Department>, roles: seq<Role>): (r: seq<MydSummaryRow>)
    ensures SortedBy(r, MydRowLe)
    ensures multiset(r) == multiset(MydGroups(scores, perms, departments, roles))
  {
    assert TotalPreorder(MydRowLe);
    SortBySorted(MydGroups(scores, perms, departments, roles), MydRowLe);
    SortBy(MydGroups(scores, perms, departments, roles), MydRowLe)
  }

  /** Department `d` and role `r` form a group: the role may score the
      department (with weight `w`) and has scored it. */
  ghost predicate MydGroupOf(scores: seq<Score>, perms: seq<DeptPermission>, d: Department, r: Role, w: real)
  {
    LastDeptWeight(perms, r.id, d.id) == Some(w) && HasScore(scores, d.id, r.id)
  }

  lemma {:induction false} MydRoleRowsMembers(scores: seq<Score>, perms: seq<DeptPermission>, d: Department, roles: seq<Role>)
    ensures forall row :: row in MydRoleRows(scores, perms, d, roles) <==>
      exists r, w :: r in roles && MydGroupOf(scores, perms, d, r, w) && row == MydRowFor(scores, d, r, w)
  {
    if roles != [] {
      var init, last := roles[..|roles| - 1], roles[|roles| - 1];
      MydRoleRowsMembers(scores, perms, d, init);
      assert roles == init + [last];
      assert forall r :: r in roles <==> r in init || r == last;
    }
  }

  lemma {:induction false} MydGroupsMembers(scores: seq<Score>, perms: seq<DeptPermission>, ds: seq<Department>, roles: seq<Role>)
    ensures forall row :: row in MydGroups(scores, perms, ds, roles) <==>
      exists d, r, w :: d in ds && r in roles && MydGroupOf(scores, perms, d, r, w) && row == MydRowFor(scores, d, r, w)
  {
    if ds != [] {
      var init, last := ds[..|ds| - 1], ds[|ds| - 1];
      MydGroupsMembers(scores, perms, init, roles);
      MydRoleRowsMembers(scores, perms, last, roles);
      assert ds == init + [last];
      assert forall d :: d in ds <==> d in init || d == last;
    }
  }

  /** With one permission row per (role, department), as the table's unique
      key guarantees: a summary row for department `d` and role `r` exists
      exactly when `r` has scored `d` and a permission row (r, d, w) exists,
      and it carries that row's weight; every summary row is such a group;
      rows come in department, role order. */
  lemma MydSummaryRowIff(scores: seq<Score>, perms: seq<DeptPermission>, departments: seq<Department>, roles: seq<Role>)
    requires DeptPermsUnique(perms)
    ensures forall d, r, w :: d in departments && r in roles ==>
      (MydRowFor(scores, d, r, w) in MydSummary(scores, perms, departments, roles) <==>
        HasScore(scores, d.id, r.id) && DeptPermission(r.id, d.id, w) in perms)
    ensures forall row :: row in MydSummary(scores, perms, departments, roles) ==>
      exists d, r, w :: d in departments && r in roles && HasScore(scores, d.id, r.id)
        && DeptPermission(r.id, d.id, w) in perms && row == MydRowFor(scores, d, r, w)
    ensures SortedBy(MydSummary(scores, perms, departments, roles), MydRowLe)
  {
    hide MydSummary, MydGroups, MydRoleRows, SortBy;
    var g := MydGroups(scores, perms, departments, roles);
    var s := MydSummary(scores, perms, departments, roles);
    MydGroupsMembers(scores, perms, departments, roles);
    assert forall row :: row in s <==> row in multiset(s);
    assert forall row :: row in g <==> row in multiset(g);
    forall d: Department, r: Role, w: real {
      LastDeptWeightUnique(perms, r.id, d.id, w);
    }
  }

  // ---------------------------------------------------------------------------
  // The pivot of both exports

  /** One summary row as the pivot loop sees it: the record key, the
      descriptive cells of a new record, the role column and the weighted score. */
  datatype PivotRow<K, F> = PivotRow(key: K, fixed: F, column: string, value: real)

  /** One record of the data frame: its descriptive cells and one cell per role column. */
  datatype Record<F> = Record(fixed: F, cells: map<string, Option<real>>)

  /** The record keys in order of first appearance (dict insertion order). */
  function Keys<K(==, !new), F>(rows: seq<PivotRow<K, F>>): (r: seq<K>)
    ensures forall k :: k in r <==> exists i :: 0 <= i < |rows| && rows[i].key == k
    ensures forall i, j :: 0 <= i < j < |r| ==> r[i] != r[j]
  {
    var ks := seq(|rows|, i requires 0 <= i < |rows| => rows[i].key);
    forall k ensures k in ks <==> exists i :: 0 <= i < |rows| && rows[i].key == k {
      if exists i :: 0 <= i < |rows| && rows[i].key == k {
        var i :| 0 <= i < |rows| && rows[i].key == k;
        assert ks[i] == k;
      }
    }
    Distinct(ks)
  }

  /** The descriptive cells of the first row with key `k`, which creates the record. */
  function FirstFixed<K(==), F>(rows: seq<PivotRow<K, F>>, k: K): (r: Option<F>)
    ensures r.Some? <==> exists i :: 0 <= i < |rows| && rows[i].key == k
  {
    if rows == [] then None
    else
      var init := rows[..|rows| - 1];
      var f := FirstFixed(init, k);
      assert forall i :: 0 <= i < |init| ==> init[i] == rows[i];
      if f.Some? then f
      else if rows[|rows| - 1].key == k then Some(rows[|rows| - 1].fixed)
      else None
  }

  /** The cell of record `k` in column `c`: the value of the last row that
      sets it, or `None` when no row does. */
  function CellValue<K(==), F>(rows: seq<PivotRow<K, F>>, k: K, c: string): (r: Option<real>)
    ensures r.None? <==> forall i :: 0 <= i < |rows| ==> !(rows[i].key == k && rows[i].column == c)
    ensures r.Some? ==>
      exists i :: (0 <= i < |rows| && rows[i].key == k && rows[i].column == c && rows[i].value == r.value
        && forall j :: i < j < |rows| ==> !(rows[j].key == k && rows[j].column == c))
  {
    if rows == [] then None
    else
      var init, last := rows[..|rows| - 1], rows[|rows| - 1];
      assert forall i :: 0 <= i < |init| ==> init[i] == rows[i];
      if last.key == k && last.column == c then Some(last.value)
      else CellValue(init, k, c)
  }

  /** The record of key `k`: every column in `cols` present, `None` where no row sets it. */
  function RecordOf<K(==), F>(rows: seq<PivotRow<K, F>>, k: K, cols: seq<string>): Record<F>
    requires FirstFixed(rows, k).Some?
  {
    Record(FirstFixed(rows, k).value, map c | c in cols :: CellValue(rows, k, c))
  }

  /** `pd.DataFrame(rows.values())`: the records in key order. */
  function PivotRecords<K(==, !new), F>(rows: seq<PivotRow<K, F>>, cols: seq<string>): seq<Record<F>>
  {
    var ks := Keys(rows);
    assert forall i :: 0 <= i < |ks| ==> ks[i] in ks;
    seq(|ks|, i requires 0 <= i < |ks| => RecordOf(rows, ks[i], cols))
  }

  /** The loop both exports run: create a record, all role cells `None`, the
      first time a key is met, then set the row's role cell. */
  method Pivot<K(==, !new), F>(rows: seq<PivotRow<K, F>>, cols: seq<string>) returns (records: seq<Record<F>>)
    requires forall i :: 0 <= i < |rows| ==> rows[i].column in cols
    ensures records == PivotRecords(rows, cols)
  {
    var order: seq<K> := [];
    var m: map<K, Record<F>> := map[];
    for i := 0 to |rows|
      invariant order == Keys(rows[..i])
      invariant forall k :: k in m <==> k in order
      invariant forall k :: k in m ==> FirstFixed(rows[..i], k).Some? && m[k] == RecordOf(rows[..i], k, cols)
    {
      var row := rows[i];
      PivotStep(rows, i, cols);
      if row.key !in m {
        m := m[row.key := Record(row.fixed, map c | c in cols :: None)];
        order := order + [row.key];
      }
      var rec := m[row.key];
      m := m[row.key := rec.(cells := rec.cells[row.column := Some(row.value)])];
    }
    assert rows[..|rows|] == rows;
    records := seq(|order|, i requires 0 <= i < |order| => m[order[i]]);
  }

  /** How one more row changes the keys and the records. */
  lemma PivotStep<K(!new), F>(rows: seq<PivotRow<K, F>>, i: nat, cols: seq<string>)
    requires i < |rows| && rows[i].column in cols
    ensures var row, pre, post := rows[i], rows[..i], rows[..i + 1];
      && Keys(post) == (if FirstFixed(pre, row.key).Some? then Keys(pre) else Keys(pre) + [row.key])
      && (forall k :: k != row.key ==> FirstFixed(post, k) == FirstFixed(pre, k))
      && (forall k :: k != row.key && FirstFixed(pre, k).Some? ==> RecordOf(post, k, cols) == RecordOf(pre, k, cols))
      && FirstFixed(post, row.key) == Some(GetOr(FirstFixed(pre, row.key), row.fixed))
      && RecordOf(post, row.key, cols).cells
           == (if FirstFixed(pre, row.key).Some? then RecordOf(pre, row.key, cols).cells else map c | c in cols :: None)
                [row.column := Some(row.value)]
  {
    PivotStepKeys(rows, i);
    PivotStepCells(rows, i, cols);
  }

  lemma PivotStepKeys<K(!new), F>(rows: seq<PivotRow<K, F>>, i: nat)
    requires i < |rows|
    ensures var row, pre, post := rows[i], rows[..i], rows[..i + 1];
      && Keys(post) == (if FirstFixed(pre, row.key).Some? then Keys(pre) else Keys(pre) + [row.key])
      && (forall k :: k != row.key ==> FirstFixed(post, k) == FirstFixed(pre, k))
      && FirstFixed(post, row.key) == Some(GetOr(FirstFixed(pre, row.key), row.fixed))
  {
    hide CellValue, RecordOf;
    var row, pre, post := rows[i], rows[..i], rows[..i + 1];
    assert post[..i] == pre && post[i] == row;
    var ks := seq(|post|, j requires 0 <= j < |post| => post[j].key);
    var ksPre := seq(|pre|, j requires 0 <= j < |pre| => pre[j].key);
    assert ks[..i] == ksPre;
    assert row.key in Keys(pre) <==> FirstFixed(pre, row.key).Some?;
  }

  lemma PivotStepCells<K(!new), F>(rows: seq<PivotRow<K, F>>, i: nat, cols: seq<string>)
    requires i < |rows| && rows[i].column in cols
    ensures var row, pre, post := rows[i], rows[..i], rows[..i + 1];
      && (forall k :: k != row.key && FirstFixed(pre, k).Some? ==> RecordOf(post, k, cols) == RecordOf(pre, k, cols))
      && RecordOf(post, row.key, cols).cells
           == (if FirstFixed(pre, row.key).Some? then RecordOf(pre, row.key, cols).cells else map c | c in cols :: None)
                [row.column := Some(row.value)]
  {
    hide Keys;
    PivotStepKeys(rows, i);
    var row, pre, post := rows[i], rows[..i], rows[..i + 1];
    assert post[..i] == pre && post[i] == row;
    forall k | k != row.key && FirstFixed(pre, k).Some?
      ensures RecordOf(post, k, cols) == RecordOf(pre, k, cols)
    {
      forall c | c in cols ensures CellValue(post, k, c) == CellValue(pre, k, c) {}
    }
    var before := if FirstFixed(pre, row.key).Some? then RecordOf(pre, row.key, cols).cells else map c | c in cols :: None;
    forall c | c in cols ensures CellValue(post, row.key, c) == before[row.column := Some(row.value)][c] {
      if c != row.column && FirstFixed(pre, row.key).None? {
        assert CellValue(pre, row.key, c).None?;
      }
    }
  }

  /** What the pivot holds: one record per key, keys distinct and in order of
      first appearance (the keys of any prefix of the rows come first); each
      record has exactly the role columns, and a cell is `None` exactly when
      no row sets it and otherwise holds the value of the last row that does. */
  lemma PivotRecordsMeaning<K(!new), F>(rows: seq<PivotRow<K, F>>, cols: seq<string>, n: nat)
    requires n <= |rows|
    ensures var ks, recs := Keys(rows), PivotRecords(rows, cols);
      && |recs| == |ks|
      && Keys(rows[..n]) <= ks
      && (forall i :: 0 <= i < |recs| ==> recs[i].cells.Keys == set c | c in cols)
      && (forall i, c :: 0 <= i < |recs| && c in cols ==> recs[i].cells[c] == CellValue(rows, ks[i], c))
      && (forall i, c :: 0 <= i < |recs| && c in cols ==>
            (recs[i].cells[c].None? <==> forall j :: 0 <= j < |rows| ==> !(rows[j].key == ks[i] && rows[j].column == c)))
  {
    var ks := seq(|rows|, i requires 0 <= i < |rows| => rows[i].key);
    var pre := rows[..n];
    var ksPre := seq(|pre|, i requires 0 <= i < |pre| => pre[i].key);
    assert ks[..n] == ksPre;
    DistinctPrefix(ks, n);
    var recs := PivotRecords(rows, cols);
    assert forall i :: 0 <= i < |recs| ==> Keys(rows)[i] in Keys(rows);
  }

  // ---------------------------------------------------------------------------
  // The two exports

  /** The suffix of every role column header. */
  const RoleColumnSuffix: string := "评价得分系数"

  /** `df[columns]` raises on a data frame without rows. */
  datatype ExportError = EmptySummary

  datatype Sheet<F> = Sheet(columns: seq<string>, records: seq<Record<F>>)

  /** `sorted({f"{row['role_name']}评价得分系数" for row in summary})`. */
  function RoleColumns<K, F>(rows: seq<PivotRow<K, F>>): (r: seq<string>)
    ensures forall c :: c in r <==> exists i :: 0 <= i < |rows| && rows[i].column == c
    ensures forall i, j :: 0 <= i < j < |r| ==> StrLe(r[i], r[j]) && r[i] != r[j]
  {
    var cs := seq(|rows|, i requires 0 <= i < |rows| => rows[i].column);
    forall c ensures c in cs <==> exists i :: 0 <= i < |rows| && rows[i].column == c {
      if exists i :: 0 <= i < |rows| && rows[i].column == c {
        var i :| 0 <= i < |rows| && rows[i].column == c;
        assert cs[i] == c;
      }
    }
    SortedDistinct(cs)
  }

  /** The descriptive cells of an indicator record: 部门, 绩效指标, 指标含义/具体任务. */
  datatype ZdgzFixed = ZdgzFixed(deptName: Option<string>, indicatorName: Option<string>, description: string)

  /** The summary as the indicator export's loop reads it, keyed by (dept_name, zdgz_id). */
  function ZdgzPivotRows(summary: seq<ZdgzSummaryRow>): (r: seq<PivotRow<(Option<string>, int), ZdgzFixed>>)
    ensures |r| == |summary|
    ensures forall i :: 0 <= i < |r| ==> r[i] == PivotRow((summary[i].deptName, summary[i].zdgzId),
      ZdgzFixed(summary[i].deptName, summary[i].indicatorName, summary[i].description),
      summary[i].roleName + RoleColumnSuffix, summary[i].weightedScore)
  {
    seq(|summary|, i requires 0 <= i < |summary| =>
      var s := summary[i];
      PivotRow((s.deptName, s.zdgzId), ZdgzFixed(s.deptName, s.indicatorName, s.description),
        s.roleName + RoleColumnSuffix, s.weightedScore))
  }

  /** `export_zdgz_score_excel`: an error for an empty summary; otherwise the
      three descriptive columns followed by the sorted role columns, and one
      record per (department, indicator) in order of first appearance. */
  method ExportZdgzScoreExcel(scores: seq<Score>, indicators: seq<Indicator>, roles: seq<Role>)
    returns (r: Result<Sheet<ZdgzFixed>, ExportError>)
    ensures r.Err? <==> ZdgzSummary(scores, indicators, roles) == []
    ensures r.Ok? ==> var rows := ZdgzPivotRows(ZdgzSummary(scores, indicators, roles));
      && r.value.columns == ["部门", "绩效指标", "指标含义/具体任务"] + RoleColumns(rows)
      && r.value.records == PivotRecords(rows, RoleColumns(rows))
  {
    var summary := ZdgzSummary(scores, indicators, roles);
    var rows := ZdgzPivotRows(summary);
    var roleColumns := RoleColumns(rows);
    var records := Pivot(rows, roleColumns);
    assert forall i :: 0 <= i < |rows| ==> rows[i].key in Keys(rows);
    if records == [] {
      return Err(EmptySummary);
    }
    return Ok(Sheet(["部门", "绩效指标", "指标含义/具体任务"] + roleColumns, records));
  }

  /** The summary as the satisfaction export's loop reads it, keyed by dept_name. */
  function MydPivotRows(summary: seq<MydSummaryRow>): (r: seq<PivotRow<string, string>>)
    ensures |r| == |summary|
    ensures forall i :: 0 <= i < |r| ==> r[i] == PivotRow(summary[i].deptName, summary[i].deptName,
      summary[i].roleName + RoleColumnSuffix, summary[i].weightedScore)
  {
    seq(|summary|, i requires 0 <= i < |summary| =>
      PivotRow(summary[i].deptName, summary[i].deptName, summary[i].roleName + RoleColumnSuffix, summary[i].weightedScore))
  }

  /** `export_myd_score_excel`: an error for an empty summary; otherwise 部门
      followed by the sorted role columns, and one record per department name
      in order of first appearance. */
  method ExportMydScoreExcel(scores: seq<Score>, perms: seq<DeptPermission>, departments: seq<Department>, roles: seq<Role>)
    returns (r: Result<Sheet<string>, ExportError>)
    ensures r.Err? <==> MydSummary(scores, perms, departments, roles) == []
    ensures r.Ok? ==> var rows := MydPivotRows(MydSummary(scores, perms, departments, roles));
      && r.value.columns == ["部门"] + RoleColumns(rows)
      && r.value.records == PivotRecords(rows, RoleColumns(rows))
  {
    var summary := MydSummary(scores, perms, departments, roles);
    var rows := MydPivotRows(summary);
    var roleColumns := RoleColumns(rows);
    var records := Pivot(rows, roleColumns);
    assert forall i :: 0 <= i < |rows| ==> rows[i].key in Keys(rows);
    if records == [] {
      return Err(EmptySummary);
    }
    return Ok(Sheet(["部门"] + roleColumns, records));
  }
}
