/** The administrator side of jxkh.py: role creation and deletion, the
    department description, the indicator import, the evidence upload, the
    indicator-permission save and the login-code batch. Request parsing is
    reduced to the values the routes read; the `admin_required` redirect is
    an outcome of the routes that carry the decorator. */
module AdminRoutes {
  import opened Wrappers
  import opened Schema
  import Text
  import opened Validators
  import opened Permissions
  import opened CodeStats
  import Importer
  import opened Storage
  import opened LoginCodes
  import opened UserRoutes

  /** `admin_required`: the session must hold `admin_user`. */
  predicate IsAdmin(s: Session)
  {
    s.adminUser.Some?
  }

  // ---------------------------------------------------------------------------
  // add_role (jxkh.py:314-333)

  datatype AddRoleOutcome = NotChinese | NameExists | RoleAdded(id: int)

  /** `add_role`: only CJK ideographs are accepted; a taken name is refused by
      the unique index; otherwise the role is appended with the next id. */
  method AddRole(db: Database, roleName: string) returns (outcome: AddRoleOutcome)
    requires db.Valid()
    modifies db`roles, db`nextRoleId
    ensures db.Valid()
    ensures !RoleNameAllowed(roleName) ==> outcome == NotChinese
    ensures RoleNameAllowed(roleName) && (exists r :: r in old(db.roles) && r.name == roleName) ==> outcome == NameExists
    ensures outcome.NotChinese? || outcome.NameExists? ==> db.roles == old(db.roles)
    ensures RoleNameAllowed(roleName) && (forall r :: r in old(db.roles) ==> r.name != roleName) ==>
      && outcome == RoleAdded(old(db.nextRoleId))
      && db.roles == old(db.roles) + [Role(old(db.nextRoleId), roleName, 0.0)]
  {
    var k := 0;
    while k < |roleName|
      invariant 0 <= k <= |roleName|
      invariant forall i :: 0 <= i < k ==> '\U{4E00}' <= roleName[i] <= '\U{9FFF}'
    {
      if !('\U{4E00}' <= roleName[k] <= '\U{9FFF}') {
        return NotChinese;
      }
      k := k + 1;
    }
    var id := db.CreateRole(roleName);
    if id.None? {
      return NameExists;
    }
    return RoleAdded(id.value);
  }

  // ---------------------------------------------------------------------------
  // delete_role (jxkh.py:336-364)

  /** The roles left by `DELETE FROM evaluator_role WHERE id=%s`. */
  function RemoveRole(roles: seq<Role>, id: int): (r: seq<Role>)
    ensures forall x :: x in r <==> x in roles && x.id != id
  {
    if roles == [] then []
    else
      assert roles == [roles[0]] + roles[1..];
      (if roles[0].id == id then [] else [roles[0]]) + RemoveRole(roles[1..], id)
  }

  /** Deleting a role keeps the keys ascending and the names unique. */
  lemma {:induction false} RemoveRoleValid(roles: seq<Role>, id: int)
    requires RoleIdsAscending(roles) && RoleNamesUnique(roles)
    ensures RoleIdsAscending(RemoveRole(roles, id)) && RoleNamesUnique(RemoveRole(roles, id))
  {
    if roles != [] {
      var tail := roles[1..];
      assert RoleIdsAscending(tail) && RoleNamesUnique(tail) by {
        assert forall i :: 0 <= i < |tail| ==> tail[i] == roles[i + 1];
      }
      RemoveRoleValid(tail, id);
      var t := RemoveRole(tail, id);
      if roles[0].id != id {
        forall y | y in t ensures roles[0].id < y.id && roles[0].name != y.name {
          var k :| 0 <= k < |tail| && tail[k] == y;
          assert roles[k + 1] == y;
        }
        ConsRoles(roles[0], t);
      }
    }
  }

  /** A role before every other key and name extends a valid role list. */
  lemma ConsRoles(x: Role, t: seq<Role>)
    requires RoleIdsAscending(t) && RoleNamesUnique(t)
    requires forall y :: y in t ==> x.id < y.id && x.name != y.name
    ensures RoleIdsAscending([x] + t) && RoleNamesUnique([x] + t)
  {
    var r := [x] + t;
    forall i, j | 0 <= i < j < |r| ensures r[i].id < r[j].id && r[i].name != r[j].name {
      assert r[j] == t[j - 1];
      if i == 0 {
        assert r[j] in t;
      } else {
        assert r[i] == t[i - 1];
      }
    }
  }

  datatype DeleteRoleOutcome = BadRoleId | RoleDeleted

  /** `delete_role`: `int(role_id)` must parse; then the role's satisfaction
      permissions and the role itself are deleted. Its indicator permissions
      and its scores stay behind. */
  method DeleteRole(db: Database, roleId: Option<int>) returns (outcome: DeleteRoleOutcome)
    requires db.Valid()
    modifies db`deptPerms, db`roles
    ensures db.Valid()
    ensures outcome == BadRoleId <==> roleId.None?
    ensures roleId.None? ==> db.deptPerms == old(db.deptPerms) && db.roles == old(db.roles)
    ensures roleId.Some? ==>
      && db.deptPerms == KeepOtherRoles(old(db.deptPerms), {roleId.value})
      && db.roles == RemoveRole(old(db.roles), roleId.value)
  {
    if roleId.None? {
      return BadRoleId;
    }
    var id := roleId.value;
    KeepOtherRolesUnique(db.deptPerms, {id});
    RemoveRoleValid(db.roles, id);
    db.deptPerms := KeepOtherRoles(db.deptPerms, {id});
    db.roles := RemoveRole(db.roles, id);
    return RoleDeleted;
  }

  /** After a deletion no role and no satisfaction permission carries the id,
      and every other role and permission is still there. */
  lemma DeleteRoleRemovesAll(roles: seq<Role>, perms: seq<DeptPermission>, id: int)
    ensures forall x :: x in RemoveRole(roles, id) ==> x.id != id
    ensures forall x :: x in KeepOtherRoles(perms, {id}) ==> x.roleId != id
    ensures forall x :: x in roles && x.id != id ==> x in RemoveRole(roles, id)
    ensures forall x :: x in perms && x.roleId != id ==> x in KeepOtherRoles(perms, {id})
  {
  }

  // ---------------------------------------------------------------------------
  // update_dept_desc (jxkh.py:381-405)

  /** The departments after `UPDATE department SET work_desc=%s WHERE id=%s`. */
  function SetWorkDesc(departments: seq<Department>, id: Option<int>, text: string): (r: seq<Department>)
    ensures |r| == |departments|
    ensures forall i :: 0 <= i < |r| ==>
      r[i] == if Some(departments[i].id) == id then departments[i].(workDesc := Some(text)) else departments[i]
  {
    if departments == [] then []
    else
      var d := departments[0];
      [if Some(d.id) == id then d.(workDesc := Some(text)) else d] + SetWorkDesc(departments[1..], id, text)
  }

  datatype DescOutcome = DescRejected | DescSaved

  /** Every stored description passes the route's check. */
  ghost predicate DescsWithinLimits(departments: seq<Department>)
  {
    forall d :: d in departments && d.workDesc.Some? ==>
      d.workDesc.value == "" || 300 <= |d.workDesc.value| <= 1500
  }

  /** `update_dept_desc`: the stripped text is rejected when it is neither
      empty nor 300 to 1500 characters; otherwise it replaces the description
      of the department with that id (an empty text is stored as empty). */
  method UpdateDeptDesc(db: Database, deptId: Option<int>, workDesc: Option<string>) returns (outcome: DescOutcome)
    modifies db`departments
    ensures var text := Text.Strip(GetOr(workDesc, ""));
      && (outcome == DescRejected <==> !DescLengthAllowed(GetOr(workDesc, "")))
      && (outcome == DescRejected ==> db.departments == old(db.departments))
      && (outcome == DescSaved ==> db.departments == SetWorkDesc(old(db.departments), deptId, text))
    ensures DescsWithinLimits(old(db.departments)) ==> DescsWithinLimits(db.departments)
  {
    var text := Text.Strip(GetOr(workDesc, ""));
    if text != "" && !(300 <= |text| <= 1500) {
      return DescRejected;
    }
    db.departments := SetWorkDesc(db.departments, deptId, text);
    SetWorkDescLimits(old(db.departments), deptId, text);
    return DescSaved;
  }

  /** A text that passed the check keeps every stored description within it. */
  lemma SetWorkDescLimits(departments: seq<Department>, id: Option<int>, text: string)
    requires text == "" || 300 <= |text| <= 1500
    ensures DescsWithinLimits(departments) ==> DescsWithinLimits(SetWorkDesc(departments, id, text))
  {
    var r := SetWorkDesc(departments, id, text);
    if DescsWithinLimits(departments) {
      forall d | d in r && d.workDesc.Some? ensures d.workDesc.value == "" || 300 <= |d.workDesc.value| <= 1500 {
        var i :| 0 <= i < |r| && r[i] == d;
        assert departments[i] in departments;
      }
    }
  }

  // ---------------------------------------------------------------------------
  // import_zdgz (jxkh.py:436-539)

  /** An uploaded workbook: its file name and the cells A to D of its rows
      from row 2 on. */
  datatype Workbook = Workbook(filename: string, rows: seq<Importer.SheetRow>)

  datatype ImportOutcome = NoFile | ImportRejected(error: Importer.ImportError) | Imported(count: nat)

  /** `import_zdgz`: without a file nothing happens; a sheet the reader
      rejects changes nothing; otherwise every indicator is deleted and the
      read rows are inserted in sheet order under fresh ids. */
  method ImportZdgz(db: Database, upload: Option<Workbook>) returns (outcome: ImportOutcome)
    requires db.Valid()
    modifies db`indicators, db`nextIndicatorId
    ensures db.Valid()
    ensures upload.None? || upload.value.filename == "" ==> outcome == NoFile
    ensures upload.Some? && upload.value.filename != "" && Importer.ParseSheet(upload.value.rows).Err? ==>
      outcome == ImportRejected(Importer.ParseSheet(upload.value.rows).error)
    ensures !outcome.Imported? ==> db.indicators == old(db.indicators) && db.nextIndicatorId == old(db.nextIndicatorId)
    ensures upload.Some? && upload.value.filename != "" && Importer.ParseSheet(upload.value.rows).Ok? ==>
      var parsed := Importer.ParseSheet(upload.value.rows).value;
      && outcome == Imported(|parsed|)
      && |db.indicators| == |parsed|
      && (forall k :: 0 <= k < |parsed| ==> db.indicators[k] == IndicatorOf(parsed[k], old(db.nextIndicatorId) + k))
  {
    if upload.None? || upload.value.filename == "" {
      return NoFile;
    }
    var read := Importer.ReadSheet(upload.value.rows);
    if read.Err? {
      return ImportRejected(read.error);
    }
    var count := db.ReplaceIndicators(read.value);
    return Imported(count);
  }

  // ---------------------------------------------------------------------------
  // upload_zdgz_evidence (jxkh.py:542-595)

  datatype EvidenceOutcome = EvidenceNotAdmin | Incomplete | Unsupported | NoIndicator | NoIndicatorName | EvidenceSaved(path: string)

  /** `upload_zdgz_evidence`: the checks in their order, then the stored path
      under the indicator's directory. A file is present when it has a name. */
  method UploadEvidence(db: Database, session: Session, zdgzId: Option<nat>, filename: Option<string>)
    returns (outcome: EvidenceOutcome)
    requires db.Valid()
    modifies db`indicators
    ensures db.Valid()
    ensures outcome == EvidenceNotAdmin <==> !IsAdmin(session)
    ensures outcome == Incomplete <==> IsAdmin(session) && (zdgzId.None? || filename.None? || filename.value == "")
    ensures outcome.EvidenceSaved? ==>
      && zdgzId.Some? && filename.Some?
      && AllowedFile(filename.value)
      && IndicatorById(old(db.indicators), zdgzId.value).Some?
      && IndicatorById(old(db.indicators), zdgzId.value).value.name.Some?
      && outcome.path == EvidencePath(zdgzId.value, IndicatorById(old(db.indicators), zdgzId.value).value.name.value,
                                      Extension(filename.value).value)
      && db.indicators == SetEvidence(old(db.indicators), zdgzId.value, outcome.path)
    ensures !outcome.EvidenceSaved? ==> db.indicators == old(db.indicators)
    ensures IsAdmin(session) && zdgzId.Some? && filename.Some? && filename.value != "" ==>
      (outcome == Unsupported <==> !AllowedFile(filename.value))
      && (outcome == NoIndicator <==> AllowedFile(filename.value) && IndicatorById(old(db.indicators), zdgzId.value).None?)
      && (outcome == NoIndicatorName <==> AllowedFile(filename.value) && IndicatorById(old(db.indicators), zdgzId.value).Some?
                                           && IndicatorById(old(db.indicators), zdgzId.value).value.name.None?)
      && (outcome.EvidenceSaved? <==> AllowedFile(filename.value) && IndicatorById(old(db.indicators), zdgzId.value).Some?
                                      && IndicatorById(old(db.indicators), zdgzId.value).value.name.Some?)
  {
    if !IsAdmin(session) {
      return EvidenceNotAdmin;
    }
    if zdgzId.None? || filename.None? || filename.value == "" {
      return Incomplete;
    }
    if !AllowedFile(filename.value) {
      return Unsupported;
    }
    var zdgz := IndicatorById(db.indicators, zdgzId.value);
    if zdgz.None? {
      return NoIndicator;
    }
    if zdgz.value.name.None? {
      return NoIndicatorName;
    }
    var path := EvidencePath(zdgzId.value, zdgz.value.name.value, Extension(filename.value).value);
    db.UpdateZdgzEvidence(zdgzId.value, path);
    return EvidenceSaved(path);
  }

  // ---------------------------------------------------------------------------
  // save_zdgz_permission (jxkh.py:621-641)

  datatype PermissionOutcome = NotAList | PermissionFailed(error: SaveError) | PermissionsSaved

  /** `save_zdgz_permission`: the body must be a list; the permission rows
      are saved and committed, then the weights. A malformed item fails the
      step it is met in; a weight the column refuses fails only the second
      step, so the first step's rows stay (`ZdgzSavesDiverge`). */
  method SaveZdgzPermission(db: Database, data: Option<seq<ZdgzPermItem>>) returns (outcome: PermissionOutcome)
    requires db.Valid()
    modifies db`zdgzPerms, db`roles
    ensures db.Valid()
    ensures data.None? ==> outcome == NotAList && db.zdgzPerms == old(db.zdgzPerms) && db.roles == old(db.roles)
    ensures data.Some? ==>
      var perms, weights := ApplyZdgzItems(old(db.zdgzPerms), data.value), ApplyZdgzWeights(old(db.roles), data.value);
      && (perms.Err? ==> outcome == PermissionFailed(perms.error) && db.zdgzPerms == old(db.zdgzPerms) && db.roles == old(db.roles))
      && (perms.Ok? ==> db.zdgzPerms == perms.value)
      && (perms.Ok? && weights.Err? ==> outcome == PermissionFailed(weights.error) && db.roles == old(db.roles))
      && (perms.Ok? && weights.Ok? ==> outcome == PermissionsSaved && db.roles == weights.value)
  {
    if data.None? {
      return NotAList;
    }
    var saved := db.SaveRoleZdgzPermissions(data.value);
    if saved.Err? {
      return PermissionFailed(saved.error);
    }
    var weighted := db.UpdateRoleZdgzWeights(data.value);
    if weighted.Err? {
      return PermissionFailed(weighted.error);
    }
    return PermissionsSaved;
  }

  // ---------------------------------------------------------------------------
  // admin_login_codes (jxkh.py:645-682)

  /** `role_count_map`, built over the roles in id order from the form: a
      missing field counts 0, a positive count is kept, and `None` where a
      field does not parse as an integer (the `int()` raises). */
  function CountMap(roles: seq<Role>, form: map<int, Option<int>>): Option<seq<RoleCount>>
  {
    if roles == [] then Some([])
    else
      var id := roles[|roles| - 1].id;
      match CountMap(roles[..|roles| - 1], form)
      case None => None
      case Some(counts) =>
        if id !in form then Some(counts)
        else if form[id].None? then None
        else if form[id].value > 0 then Some(counts + [RoleCount(id, form[id].value)])
        else Some(counts)
  }

  /** The number of codes the form asks for a role: its positive count, or 0
      for a role that does not exist or a count below 1. */
  function Requested(roles: seq<Role>, form: map<int, Option<int>>, role: int): nat
  {
    if role in RoleIds(roles) && role in form && form[role].Some? && form[role].value > 0 then form[role].value else 0
  }

  /** The map holds exactly the requested count of every role. */
  lemma {:induction false} CountMapMeaning(roles: seq<Role>, form: map<int, Option<int>>, role: int)
    requires RoleIdsAscending(roles)
    requires CountMap(roles, form).Some?
    ensures CountFor(CountMap(roles, form).value, role) == Requested(roles, form, role)
  {
    if roles != [] {
      var init, last := roles[..|roles| - 1], roles[|roles| - 1];
      assert RoleIdsAscending(init);
      CountMapMeaning(init, form, role);
      RequestedSnoc(init, last, form, role);
      var counts := CountMap(init, form).value;
      if last.id in form && form[last.id].Some? && form[last.id].value > 0 {
        CountForSnoc(counts, RoleCount(last.id, form[last.id].value), role);
      }
      assert roles == init + [last];
    }
  }

  lemma CountForSnoc(counts: seq<RoleCount>, c: RoleCount, role: int)
    ensures CountFor(counts + [c], role) == CountFor(counts, role) + (if c.roleId == role then Share(c) else 0)
  {
    assert (counts + [c])[..|counts|] == counts;
  }

  /** The last role of an ascending list adds its own count only. */
  lemma RequestedSnoc(init: seq<Role>, last: Role, form: map<int, Option<int>>, role: int)
    requires RoleIdsAscending(init + [last])
    ensures Requested(init + [last], form, role) ==
      if role == last.id then (if role in form && form[role].Some? && form[role].value > 0 then form[role].value else 0)
      else Requested(init, form, role)
  {
    var roles := init + [last];
    assert RoleIds(roles) == RoleIds(init) + {last.id} by {
      forall x | x in roles ensures x in init || x == last { }
      assert last in roles;
      forall x | x in init ensures x in roles { }
    }
    forall x | x in init ensures x.id != last.id {
      var k :| 0 <= k < |init| && init[k] == x;
      assert roles[k] == x && roles[|init|] == last;
    }
  }

  datatype CodesOutcome = CodesNotAdmin | CodesFailed | CodesIssued

  /** `admin_login_codes` on POST: all scores and all login codes are
      cleared first; then the per-role counts are read and the new codes
      generated, role by role in id order, each row from its own pair of
      draws. A count that does not parse fails after the clearing. */
  method AdminLoginCodes(db: Database, session: Session, form: map<int, Option<int>>, draws: seq<CodeDraws>)
    returns (outcome: CodesOutcome)
    requires db.Valid()
    requires CountMap(db.roles, form).Some? ==>
      && |draws| == 2 * Total(CountMap(db.roles, form).value)
      && forall k :: 0 <= k < |draws| ==> DrawsFit(draws[k], DefaultLength)
    modifies db`zdgzScores, db`mydScores, db`loginCodes
    ensures db.Valid()
    ensures outcome == CodesNotAdmin <==> !IsAdmin(session)
    ensures !IsAdmin(session) ==>
      && outcome == CodesNotAdmin
      && db.zdgzScores == old(db.zdgzScores) && db.mydScores == old(db.mydScores) && db.loginCodes == old(db.loginCodes)
    ensures IsAdmin(session) ==>
      && db.zdgzScores == [] && db.mydScores == []
      && (outcome == CodesFailed <==> CountMap(db.roles, form).None?)
      && (outcome == CodesFailed ==> db.loginCodes == [])
      && (outcome == CodesIssued ==>
            && |db.loginCodes| == Total(CountMap(db.roles, form).value)
            && (forall k :: 0 <= k < |db.loginCodes| ==>
                  MadeFrom(db.loginCodes[k], RoleOrder(CountMap(db.roles, form).value)[k], draws[2 * k], draws[2 * k + 1]))
            && (forall role :: CountOfRole(db.loginCodes, role) == Requested(db.roles, form, role))
            && (forall k :: 0 <= k < |db.loginCodes| ==> Issued(db.loginCodes[k])))
  {
    if !IsAdmin(session) {
      return CodesNotAdmin;
    }
    db.ClearAllScores();
    db.ClearLoginCodes();
    var counts := ReadCounts(db.roles, form);
    if counts.None? {
      return CodesFailed;
    }
    GenerateLoginCodesByRole(db, counts.value, draws);
    forall role ensures CountOfRole(db.loginCodes, role) == Requested(db.roles, form, role) {
      CountMapMeaning(db.roles, form, role);
    }
    return CodesIssued;
  }

  /** The loop that builds `role_count_map`. */
  method ReadCounts(roles: seq<Role>, form: map<int, Option<int>>) returns (counts: Option<seq<RoleCount>>)
    ensures counts == CountMap(roles, form)
  {
    var built: seq<RoleCount> := [];
    for i := 0 to |roles|
      invariant CountMap(roles[..i], form) == Some(built)
    {
      assert roles[..i + 1][..i] == roles[..i];
      var id := roles[i].id;
      if id in form {
        if form[id].None? {
          CountMapStops(roles, form, i + 1);
          return None;
        }
        if form[id].value > 0 {
          built := built + [RoleCount(id, form[id].value)];
        }
      }
    }
    assert roles[..|roles|] == roles;
    return Some(built);
  }

  /** A field that does not parse fails the whole map. */
  lemma {:induction false} CountMapStops(roles: seq<Role>, form: map<int, Option<int>>, j: nat)
    requires j <= |roles| && CountMap(roles[..j], form).None?
    ensures CountMap(roles, form).None?
    decreases |roles|
  {
    if j < |roles| {
      var init := roles[..|roles| - 1];
      assert init[..j] == roles[..j];
      CountMapStops(init, form, j);
    } else {
      assert roles[..j] == roles;
    }
  }
}
