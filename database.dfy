/** The data-access class of database.py: the portal's tables as fields of one
    object, and the statements the core issues against them as methods. Each
    method states the new contents of the tables it changes; what those
    contents mean is proved about the specification functions of the
    Schema, Permissions and CodeStats modules. */
module Storage {
  import opened Wrappers
  import opened Ordering
  import opened Schema
  import opened Permissions
  import opened CodeStats
  import Importer

  /** One entry of the `roles` list of the login-code statistics. */
  datatype RoleStats = RoleStats(roleId: int, roleName: string, total: nat, used: nat, unused: int, unusedCodes: seq<string>)

  /** The login-code statistics: `usedCount` is `None` when `login_no` is empty,
      as `SUM` over no rows is NULL. */
  datatype LoginStats = LoginStats(totalCount: nat, usedCount: Option<nat>, roles: seq<RoleStats>)

  function RoleIds(roles: seq<Role>): set<int>
  {
    set r | r in roles :: r.id
  }

  /** `result.get(role, {}).get(dept)` on the map `get_myd_permissions` returns. */
  function WeightIn(m: map<int, map<int, real>>, role: int, dept: int): Option<real>
  {
    if role in m && dept in m[role] then Some(m[role][dept]) else None
  }

  /** `d.get(key, [])`. */
  function ListOr<K, V>(m: map<K, seq<V>>, key: K): seq<V>
  {
    if key in m then m[key] else []
  }

  /** The indicator table after `UPDATE zdgz SET evidence_path = %s WHERE id = %s`. */
  function SetEvidence(indicators: seq<Indicator>, id: int, path: string): (r: seq<Indicator>)
    ensures |r| == |indicators|
    ensures forall i :: 0 <= i < |r| ==>
      r[i] == if indicators[i].id == id then indicators[i].(evidencePath := Some(path)) else indicators[i]
  {
    if indicators == [] then []
    else
      var head := if indicators[0].id == id then indicators[0].(evidencePath := Some(path)) else indicators[0];
      [head] + SetEvidence(indicators[1..], id, path)
  }

  /** The zdgz row the import inserts for one parsed sheet row, under the key `id`. */
  function IndicatorOf(p: Importer.ParsedRow, id: int): Indicator
  {
    Indicator(id, p.department, p.indicatorName, p.description, p.workDesc, None)
  }

  /** `SELECT ... FROM zdgz WHERE id=%s` and `fetchone()`. */
  function IndicatorById(indicators: seq<Indicator>, id: int): (r: Option<Indicator>)
    ensures r.Some? ==> r.value in indicators && r.value.id == id
    ensures r.None? ==> forall x :: x in indicators ==> x.id != id
  {
    if indicators == [] then None
    else if indicators[0].id == id then Some(indicators[0])
    else IndicatorById(indicators[1..], id)
  }

  /** Auto-increment keys: strictly ascending in insertion order. */
  ghost predicate RoleIdsAscending(roles: seq<Role>)
  {
    forall i, j :: 0 <= i < j < |roles| ==> roles[i].id < roles[j].id
  }

  /** Changing only the weights keeps the role keys and names valid. */
  lemma SameKeysRoles(a: seq<Role>, b: seq<Role>, bound: int)
    requires |a| == |b| && forall k :: 0 <= k < |a| ==> b[k].id == a[k].id && b[k].name == a[k].name
    requires RoleIdsAscending(a) && RoleNamesUnique(a) && forall r :: r in a ==> r.id < bound
    ensures RoleIdsAscending(b) && RoleNamesUnique(b) && forall r :: r in b ==> r.id < bound
  {
    forall r | r in b ensures r.id < bound {
      var k :| 0 <= k < |b| && b[k] == r;
      assert a[k] in a;
    }
  }

  ghost predicate IndicatorIdsAscending(indicators: seq<Indicator>)
  {
    forall i, j :: 0 <= i < j < |indicators| ==> indicators[i].id < indicators[j].id
  }

  /** Appending a role with a fresh name and the next id keeps the role keys valid. */
  lemma AppendRoleValid(roles: seq<Role>, r: Role, bound: int)
    requires RoleIdsAscending(roles) && RoleNamesUnique(roles)
    requires forall x :: x in roles ==> x.id < r.id && x.name != r.name
    requires r.id < bound
    ensures RoleIdsAscending(roles + [r]) && RoleNamesUnique(roles + [r])
    ensures forall x :: x in roles + [r] ==> x.id < bound
  {
    var t := roles + [r];
    forall i, j | 0 <= i < j < |t| ensures t[i].id < t[j].id && t[i].name != t[j].name {
      assert t[i] == roles[i];
      if j == |roles| {
        assert roles[i] in roles;
      }
    }
  }

  /** evaluator_role.role_name is unique: a second insert of a name fails. */
  ghost predicate RoleNamesUnique(roles: seq<Role>)
  {
    forall i, j :: 0 <= i < j < |roles| ==> roles[i].name != roles[j].name
  }

  /** The statistics entry of one role: its counts, `unused = total - used`,
      and its unused accounts, one per row, in ascending order. */
  ghost predicate RoleStatsFor(s: RoleStats, codes: seq<LoginCode>, role: Role)
  {
    && s.roleId == role.id && s.roleName == role.name
    && s.total == CountOfRole(codes, role.id) && s.used == UsedOfRole(codes, role.id)
    && s.unused == s.total - s.used == |s.unusedCodes|
    && SortedBy(s.unusedCodes, StrLe)
    && multiset(s.unusedCodes) == multiset(UnusedAccounts(codes, role.id))
  }

  lemma StatsEntryMeaning(codes: seq<LoginCode>, ids: set<int>, role: Role)
    requires role.id in ids
    ensures var total, used := CountOfRole(codes, role.id), UsedOfRole(codes, role.id);
      RoleStatsFor(RoleStats(role.id, role.name, total, used, total - used,
                             AccountsOf(SortBy(UnusedRows(codes, ids), CodeLe), role.id)), codes, role)
  {
    var listed := AccountsOf(SortBy(UnusedRows(codes, ids), CodeLe), role.id);
    UnusedCountMatches(codes, role.id);
    UnusedCodesMeaning(codes, ids, role.id);
    assert |listed| == |multiset(listed)|;
  }

  /** One pass of the loop of `get_role_zdgz_permissions`. */
  lemma AppendDepartment(m: map<int, seq<string>>, rows: seq<ZdgzPermission>, row: ZdgzPermission)
    requires forall r :: ListOr(m, r) == DepartmentsOf(rows, r)
    requires forall r :: r in m ==> m[r] != []
    ensures var m' := m[row.roleId := ListOr(m, row.roleId) + [row.department]];
      && (forall r :: ListOr(m', r) == DepartmentsOf(rows + [row], r))
      && (forall r :: r in m' ==> m'[r] != [])
  {
    DepartmentsOfSnocAll(rows, row);
  }

  /** One pass of the grouping loop of `get_login_code_stats_by_role`. */
  lemma AppendAccount(m: map<int, seq<string>>, rows: seq<LoginCode>, row: LoginCode)
    requires forall r :: ListOr(m, r) == AccountsOf(rows, r)
    ensures var m' := m[row.roleId := ListOr(m, row.roleId) + [row.account]];
      forall r :: ListOr(m', r) == AccountsOf(rows + [row], r)
  {
    assert (rows + [row])[..|rows|] == rows;
  }

  /** The loop `unused_map.setdefault(row['role_id'], []).append(row['account'])`. */
  method GroupAccounts(rows: seq<LoginCode>) returns (m: map<int, seq<string>>)
    ensures forall r :: ListOr(m, r) == AccountsOf(rows, r)
  {
    m := map[];
    for i := 0 to |rows|
      invariant forall r :: ListOr(m, r) == AccountsOf(rows[..i], r)
    {
      var row := rows[i];
      assert rows[..i + 1] == rows[..i] + [row];
      AppendAccount(m, rows[..i], row);
      m := m[row.roleId := ListOr(m, row.roleId) + [row.account]];
    }
    assert rows[..|rows|] == rows;
  }

  /** The first loop of `save_myd_permissions`: `role_map` built item by item,
      stopping at the first item that raises. */
  method GroupPayload(data: seq<MydPermItem>) returns (r: Result<seq<RoleGroup>, SaveError>)
    ensures r == GroupMyd(data)
  {
    var groups: seq<RoleGroup> := [];
    for i := 0 to |data|
      invariant GroupMyd(data[..i]) == Ok(groups)
    {
      assert data[..i + 1][..i] == data[..i];
      var p := ParseMydItem(data[i]);
      if p.None? {
        GroupMydStops(data, i);
        return Err(MalformedItem(i));
      }
      groups := AddToGroups(groups, p.value);
    }
    assert data[..|data|] == data;
    return Ok(groups);
  }

  /** The entry the statistics give a role, computed from the whole table. */
  function RoleEntry(codes: seq<LoginCode>, ids: set<int>, role: Role): RoleStats
  {
    var total, used := CountOfRole(codes, role.id), UsedOfRole(codes, role.id);
    RoleStats(role.id, role.name, total, used, total - used, AccountsOf(SortBy(UnusedRows(codes, ids), CodeLe), role.id))
  }

  /** The loop over the per-role query rows of `get_login_code_stats_by_role`. */
  method RoleEntries(codes: seq<LoginCode>, roles: seq<Role>, unusedMap: map<int, seq<string>>)
    returns (entries: seq<RoleStats>)
    requires forall r :: ListOr(unusedMap, r) == AccountsOf(SortBy(UnusedRows(codes, RoleIds(roles)), CodeLe), r)
    ensures |entries| == |roles|
    ensures forall i :: 0 <= i < |roles| ==> RoleStatsFor(entries[i], codes, roles[i])
  {
    hide AccountsOf, SortBy, UnusedRows, RoleStatsFor;
    ghost var ids := RoleIds(roles);
    entries := [];
    for i := 0 to |roles|
      invariant |entries| == i
      invariant forall k :: 0 <= k < i ==> entries[k] == RoleEntry(codes, ids, roles[k])
    {
      var role := roles[i];
      var total: int := CountOfRole(codes, role.id);
      var used: int := UsedOfRole(codes, role.id);
      entries := entries + [RoleStats(role.id, role.name, total as nat, used as nat, total - used, ListOr(unusedMap, role.id))];
    }
    RoleEntriesMeaning(codes, roles);
  }

  lemma RoleEntriesMeaning(codes: seq<LoginCode>, roles: seq<Role>)
    ensures forall i :: 0 <= i < |roles| ==> RoleStatsFor(RoleEntry(codes, RoleIds(roles), roles[i]), codes, roles[i])
  {
    forall i | 0 <= i < |roles| ensures RoleStatsFor(RoleEntry(codes, RoleIds(roles), roles[i]), codes, roles[i]) {
      assert roles[i] in roles;
      StatsEntryMeaning(codes, RoleIds(roles), roles[i]);
    }
  }

  class Database {
    var roles: seq<Role>
    var departments: seq<Department>
    var indicators: seq<Indicator>
    var deptPerms: seq<DeptPermission>
    var zdgzPerms: seq<ZdgzPermission>
    var zdgzScores: seq<Score>
    var mydScores: seq<Score>
    var loginCodes: seq<LoginCode>
    var loginRecords: seq<LoginRecord>
    /** The next auto-increment value of evaluator_role and of zdgz. */
    var nextRoleId: int
    var nextIndicatorId: int

    /** The keys and unique indexes the schema enforces. */
    ghost predicate Valid()
      reads this
    {
      && RoleIdsAscending(roles) && (forall r :: r in roles ==> r.id < nextRoleId)
      && RoleNamesUnique(roles)
      && IndicatorIdsAscending(indicators) && (forall x :: x in indicators ==> x.id < nextIndicatorId)
      && DeptPermsUnique(deptPerms)
      && KeysUnique(zdgzScores) && KeysUnique(mydScores)
    }

    /** A database with empty tables. */
    constructor ()
      ensures Valid()
      ensures roles == [] && departments == [] && indicators == [] && deptPerms == [] && zdgzPerms == []
      ensures zdgzScores == [] && mydScores == [] && loginCodes == [] && loginRecords == []
    {
      roles, departments, indicators := [], [], [];
      deptPerms, zdgzPerms := [], [];
      zdgzScores, mydScores := [], [];
      loginCodes, loginRecords := [], [];
      nextRoleId, nextIndicatorId := 1, 1;
    }

    // -------------------------------------------------------------------------
    // login_no and login_rec

    /** `yz_user`: the row of the account, if any. */
    method FindUser(account: string) returns (user: Option<LoginCode>)
      ensures user == FindLogin(loginCodes, account)
      ensures user.Some? ==> user.value in loginCodes && user.value.account == account
      ensures user.None? ==> forall c :: c in loginCodes ==> c.account != account
    {
      user := FindLogin(loginCodes, account);
    }

    /** `set_used`: every row of the account becomes used, nothing else changes. */
    method SetUsed(account: string)
      modifies this`loginCodes
      ensures loginCodes == MarkUsed(old(loginCodes), account)
    {
      loginCodes := MarkUsed(loginCodes, account);
    }

    /** `login_rec`. */
    method LoginRec(ip: string, account: string)
      modifies this`loginRecords
      ensures loginRecords == old(loginRecords) + [LoginRecord(ip, account)]
    {
      loginRecords := loginRecords + [LoginRecord(ip, account)];
    }

    /** `create_login_code`: a new unused row. */
    method CreateLoginCode(roleId: int, account: string, password: string)
      modifies this`loginCodes
      ensures loginCodes == old(loginCodes) + [LoginCode(account, password, roleId, false)]
    {
      loginCodes := loginCodes + [LoginCode(account, password, roleId, false)];
    }

    /** `clear_all_scores`. */
    method ClearAllScores()
      requires Valid()
      modifies this`zdgzScores, this`mydScores
      ensures Valid()
      ensures zdgzScores == [] && mydScores == []
    {
      zdgzScores := [];
      mydScores := [];
    }

    /** `clear_login_codes`. */
    method ClearLoginCodes()
      modifies this`loginCodes
      ensures loginCodes == []
    {
      loginCodes := [];
    }

    // -------------------------------------------------------------------------
    // evaluator_role

    /** `create_role`: a new role with weight 0 and the next id; the unique
        index on the name makes a second role of the same name fail. */
    method CreateRole(name: string) returns (id: Option<int>)
      requires Valid()
      modifies this`roles, this`nextRoleId
      ensures Valid()
      ensures (exists r :: r in old(roles) && r.name == name) ==> id.None? && roles == old(roles)
      ensures (forall r :: r in old(roles) ==> r.name != name) ==>
        id == Some(old(nextRoleId)) && roles == old(roles) + [Role(old(nextRoleId), name, 0.0)]
    {
      var k := 0;
      while k < |roles|
        invariant 0 <= k <= |roles|
        invariant forall i :: 0 <= i < k ==> roles[i].name != name
      {
        if roles[k].name == name {
          return None;
        }
        k := k + 1;
      }
      id := Some(nextRoleId);
      AppendRoleValid(roles, Role(nextRoleId, name, 0.0), nextRoleId + 1);
      roles := roles + [Role(nextRoleId, name, 0.0)];
      nextRoleId := nextRoleId + 1;
    }

    // -------------------------------------------------------------------------
    // Scores

    /** `save_zdgz_score`: an upsert on (login code, role, indicator). */
    method SaveZdgzScore(loginCode: string, roleId: int, zdgzId: int, score: real)
      requires Valid()
      modifies this`zdgzScores
      ensures Valid()
      ensures zdgzScores == Upsert(old(zdgzScores), ScoreKey(loginCode, roleId, zdgzId), score)
    {
      zdgzScores := Upsert(zdgzScores, ScoreKey(loginCode, roleId, zdgzId), score);
    }

    /** `save_myd_score`: an upsert on (login code, role, department). */
    method SaveMydScore(loginCode: string, roleId: int, deptId: int, score: real)
      requires Valid()
      modifies this`mydScores
      ensures Valid()
      ensures mydScores == Upsert(old(mydScores), ScoreKey(loginCode, roleId, deptId), score)
    {
      mydScores := Upsert(mydScores, ScoreKey(loginCode, roleId, deptId), score);
    }

    // -------------------------------------------------------------------------
    // zdgz

    /** `update_zdgz_evidence`. */
    method UpdateZdgzEvidence(id: int, path: string)
      requires Valid()
      modifies this`indicators
      ensures Valid()
      ensures indicators == SetEvidence(old(indicators), id, path)
    {
      indicators := SetEvidence(indicators, id, path);
    }

    /** The write of `import_zdgz`: `DELETE FROM zdgz`, then one `INSERT` per
        parsed row, in order; the auto-increment counter is not reset by the
        delete, so the new rows take the next keys. */
    method ReplaceIndicators(parsed: seq<Importer.ParsedRow>) returns (count: nat)
      requires Valid()
      modifies this`indicators, this`nextIndicatorId
      ensures Valid()
      ensures count == |parsed| && |indicators| == |parsed|
      ensures nextIndicatorId == old(nextIndicatorId) + |parsed|
      ensures forall k :: 0 <= k < |parsed| ==> indicators[k] == IndicatorOf(parsed[k], old(nextIndicatorId) + k)
    {
      ghost var first := nextIndicatorId;
      indicators := [];
      count := 0;
      for k := 0 to |parsed|
        invariant |indicators| == k && count == k && nextIndicatorId == first + k
        invariant forall j :: 0 <= j < k ==> indicators[j] == IndicatorOf(parsed[j], first + j)
      {
        indicators := indicators + [IndicatorOf(parsed[k], nextIndicatorId)];
        nextIndicatorId := nextIndicatorId + 1;
        count := count + 1;
      }
      forall x | x in indicators ensures x.id < nextIndicatorId {
        var j :| 0 <= j < |indicators| && indicators[j] == x;
      }
    }

    // -------------------------------------------------------------------------
    // Satisfaction permissions

    /** `get_myd_permissions`: role -> department -> weight, built row by row.
        With the table's pairs unique, the map holds exactly the table's rows. */
    method GetMydPermissions() returns (result: map<int, map<int, real>>)
      requires Valid()
      ensures forall r, d :: WeightIn(result, r, d) == LastDeptWeight(deptPerms, r, d)
      ensures forall r, d, w :: WeightIn(result, r, d) == Some(w) <==> DeptPermission(r, d, w) in deptPerms
      ensures forall r :: r in result <==> exists x :: x in deptPerms && x.roleId == r
    {
      var rows := deptPerms;
      result := map[];
      for i := 0 to |rows|
        invariant forall r, d :: WeightIn(result, r, d) == LastDeptWeight(rows[..i], r, d)
        invariant forall r :: r in result <==> exists x :: x in rows[..i] && x.roleId == r
      {
        var row := rows[i];
        assert rows[..i + 1][..i] == rows[..i] && rows[..i + 1] == rows[..i] + [row];
        var inner := if row.roleId in result then result[row.roleId] else map[];
        result := result[row.roleId := inner[row.deptId := row.weight]];
      }
      assert rows[..|rows|] == rows;
      forall r, d, w ensures WeightIn(result, r, d) == Some(w) <==> DeptPermission(r, d, w) in deptPerms {
        LastDeptWeightUnique(deptPerms, r, d, w);
      }
    }

    /** `save_myd_permissions`: the payload is grouped first, and an item that
        raises leaves the table as it was; otherwise each named role's rows are
        deleted and its grouped rows inserted. */
    method SaveMydPermissions(data: seq<MydPermItem>) returns (r: Result<(), SaveError>)
      requires Valid()
      modifies this`deptPerms
      ensures Valid()
      ensures r.Err? <==> GroupMyd(data).Err?
      ensures r.Err? ==> r.error == GroupMyd(data).error && deptPerms == old(deptPerms)
      ensures r.Ok? ==> deptPerms == ReplaceDeptPerms(old(deptPerms), GroupMyd(data).value)
    {
      var grouped := GroupPayload(data);
      if grouped.Err? {
        return Err(grouped.error);
      }
      var groups := grouped.value;
      GroupMydMeaning(data);
      var before := deptPerms;
      KeepOtherRolesNone(before, {});
      assert groups[..0] == [] && GroupRoles([]) == {};
      for k := 0 to |groups|
        invariant deptPerms == ReplaceDeptPerms(before, groups[..k])
      {
        ReplaceStep(before, groups, k);
        ReplaceRoleRows(groups[k]);
      }
      assert groups[..|groups|] == groups;
      ReplaceDeptPermsUnique(before, groups);
      return Ok(());
    }

    /** One pass of the second loop of `save_myd_permissions`: delete the
        role's rows, then insert one row per department of its group. */
    method ReplaceRoleRows(g: RoleGroup)
      modifies this`deptPerms
      ensures deptPerms == KeepOtherRoles(old(deptPerms), {g.roleId}) + GroupRowsOf(g)
    {
      deptPerms := KeepOtherRoles(deptPerms, {g.roleId});
      var base := deptPerms;
      for j := 0 to |g.entries|
        invariant deptPerms == base + GroupRowsOf(g)[..j]
      {
        assert GroupRowsOf(g)[..j + 1] == GroupRowsOf(g)[..j] + [GroupRowsOf(g)[j]];
        deptPerms := deptPerms + [DeptPermission(g.roleId, g.entries[j].deptId, g.entries[j].weight)];
      }
      assert GroupRowsOf(g)[..|g.entries|] == GroupRowsOf(g);
    }

    // -------------------------------------------------------------------------
    // Indicator permissions

    /** `get_role_zdgz_permissions`: role -> department names, appended row by row. */
    method GetRoleZdgzPermissions() returns (result: map<int, seq<string>>)
      ensures forall r :: ListOr(result, r) == DepartmentsOf(zdgzPerms, r)
      ensures forall r :: r in result <==> DepartmentsOf(zdgzPerms, r) != []
    {
      var rows := zdgzPerms;
      result := map[];
      for i := 0 to |rows|
        invariant forall r :: ListOr(result, r) == DepartmentsOf(rows[..i], r)
        invariant forall r :: r in result ==> result[r] != []
      {
        var row := rows[i];
        assert rows[..i + 1] == rows[..i] + [row];
        AppendDepartment(result, rows[..i], row);
        result := result[row.roleId := ListOr(result, row.roleId) + [row.department]];
      }
      assert rows[..|rows|] == rows;
    }

    /** `save_role_zdgz_permissions`: for each item in turn, delete the role's
        rows and insert one row per department the loop visits; an item that
        raises (no role id, or departments the loop cannot iterate, met after
        the delete) restores the table as it was before the call. */
    method SaveRoleZdgzPermissions(items: seq<ZdgzPermItem>) returns (r: Result<(), SaveError>)
      requires Valid()
      modifies this`zdgzPerms
      ensures Valid()
      ensures r.Ok? <==> ApplyZdgzItems(old(zdgzPerms), items).Ok?
      ensures r.Ok? ==> zdgzPerms == ApplyZdgzItems(old(zdgzPerms), items).value
      ensures r.Err? ==> r.error == ApplyZdgzItems(old(zdgzPerms), items).error && zdgzPerms == old(zdgzPerms)
    {
      var snapshot := zdgzPerms;
      for i := 0 to |items|
        invariant ApplyZdgzItems(snapshot, items[..i]) == Ok(zdgzPerms)
      {
        assert items[..i + 1][..i] == items[..i];
        var item := items[i];
        if item.roleId.None? {
          zdgzPerms := snapshot;
          ApplyZdgzItemsErrPersists(snapshot, items, i + 1);
          return Err(MalformedItem(i));
        }
        var role := item.roleId.value;
        zdgzPerms := KeepOtherZdgzRole(zdgzPerms, role);
        var names := DeptNames(item.departments);
        if names.None? {
          zdgzPerms := snapshot;
          ApplyZdgzItemsErrPersists(snapshot, items, i + 1);
          return Err(MalformedItem(i));
        }
        InsertZdgzRows(role, names.value);
      }
      assert items[..|items|] == items;
      return Ok(());
    }

    /** The insert loop of one item: one row per department, in list order. */
    method InsertZdgzRows(role: int, departments: seq<string>)
      modifies this`zdgzPerms
      ensures zdgzPerms == old(zdgzPerms) + ZdgzRows(role, departments)
    {
      for j := 0 to |departments|
        invariant zdgzPerms == old(zdgzPerms) + ZdgzRows(role, departments[..j])
      {
        assert ZdgzRows(role, departments[..j + 1])
            == ZdgzRows(role, departments[..j]) + [ZdgzPermission(role, departments[j])];
        zdgzPerms := zdgzPerms + [ZdgzPermission(role, departments[j])];
      }
      assert departments[..|departments|] == departments;
    }

    /** `update_role_zdgz_weights`: for each item in turn, set the role's
        weight (0 when the item has none); an item that raises (no role id, or
        a weight the column refuses) restores every weight. */
    method UpdateRoleZdgzWeights(items: seq<ZdgzPermItem>) returns (r: Result<(), SaveError>)
      requires Valid()
      modifies this`roles
      ensures Valid()
      ensures r.Ok? <==> ApplyZdgzWeights(old(roles), items).Ok?
      ensures r.Ok? ==> roles == ApplyZdgzWeights(old(roles), items).value
      ensures r.Err? ==> r.error == ApplyZdgzWeights(old(roles), items).error && roles == old(roles)
    {
      var snapshot := roles;
      for i := 0 to |items|
        invariant ApplyZdgzWeights(snapshot, items[..i]) == Ok(roles)
        invariant |roles| == |snapshot|
        invariant forall k :: 0 <= k < |roles| ==> roles[k].id == snapshot[k].id && roles[k].name == snapshot[k].name
      {
        assert items[..i + 1][..i] == items[..i];
        var item := items[i];
        if item.roleId.None? || item.zdgzWeight.WeightInvalid? {
          roles := snapshot;
          ApplyZdgzWeightsErrPersists(snapshot, items, i + 1);
          return Err(MalformedItem(i));
        }
        roles := SetRoleWeight(roles, item.roleId.value, StoredZdgzWeight(item.zdgzWeight));
      }
      assert items[..|items|] == items;
      SameKeysRoles(snapshot, roles, nextRoleId);
      return Ok(());
    }

    // -------------------------------------------------------------------------
    // Statistics

    /** `get_login_code_stats_by_role`: one entry per role in id order, zero
        codes included; `unused` is `total - used` and equals the number of
        listed unused accounts, which are the role's unused accounts in
        ascending order. */
    method GetLoginCodeStatsByRole() returns (stats: LoginStats)
      requires Valid()
      ensures stats.totalCount == |loginCodes|
      ensures stats.usedCount == if loginCodes == [] then None else Some(UsedCount(loginCodes))
      ensures |stats.roles| == |roles|
      ensures forall i :: 0 <= i < |roles| ==> RoleStatsFor(stats.roles[i], loginCodes, roles[i])
      ensures forall i, j :: 0 <= i < j < |stats.roles| ==> stats.roles[i].roleId < stats.roles[j].roleId
    {
      var codes := loginCodes;
      var unusedRows := SortBy(UnusedRows(codes, RoleIds(roles)), CodeLe);
      var unusedMap := GroupAccounts(unusedRows);
      var entries := RoleEntries(codes, roles, unusedMap);
      var usedCount := if codes == [] then None else Some(UsedCount(codes));
      stats := LoginStats(|codes|, usedCount, entries);
    }
  }
}
