/** What the two permission saves of database.py compute, as functions of the
    old table and the request payload, with the properties the saves promise:
    `save_myd_permissions` (database.py:337-381) groups the payload per role,
    a later entry for the same (role, department) replacing an earlier one,
    then replaces each named role's rows; `save_role_zdgz_permissions`
    (database.py:512-547) replaces each item's role's department list in turn;
    `update_role_zdgz_weights` (database.py:549-576) sets each item's role weight. */
module Permissions {
  import opened Wrappers
  import opened Schema

  /** Why a save raised: the payload item at this index lacks a field or has
      one that `int()` / `float()` rejects. */
  datatype SaveError = MalformedItem(index: nat)

  // ===========================================================================
  // Satisfaction permissions and weights

  /** The `weight` field of a satisfaction payload item: absent (then 1.0),
      a number, or a value `float()` rejects. */
  datatype WeightField = WeightMissing | WeightGiven(w: real) | WeightInvalid

  /** One satisfaction payload item; `None` stands for a missing key or a value
      `int()` rejects. */
  datatype MydPermItem = MydPermItem(roleId: Option<int>, deptId: Option<int>, weight: WeightField)

  /** `int(item['role_id'])`, `int(item['dept_id'])`, `float(item.get('weight', 1.0))`. */
  function ParseMydItem(item: MydPermItem): (r: Option<DeptPermission>)
    ensures r.Some? <==> item.roleId.Some? && item.deptId.Some? && !item.weight.WeightInvalid?
    ensures r.Some? ==> r.value.roleId == item.roleId.value && r.value.deptId == item.deptId.value
    ensures r.Some? && item.weight.WeightMissing? ==> r.value.weight == 1.0
    ensures r.Some? && item.weight.WeightGiven? ==> r.value.weight == item.weight.w
  {
    if item.roleId.None? || item.deptId.None? then None
    else match item.weight
      case WeightInvalid => None
      case WeightMissing => Some(DeptPermission(item.roleId.value, item.deptId.value, 1.0))
      case WeightGiven(w) => Some(DeptPermission(item.roleId.value, item.deptId.value, w))
  }

  /** One department's weight inside a role's group. */
  datatype Entry = Entry(deptId: int, weight: real)

  /** `role_map[role_id]`: an insertion-ordered dict from department to weight. */
  datatype RoleGroup = RoleGroup(roleId: int, entries: seq<Entry>)

  /** `dept_weights[dept_id] = weight`: overwrite in place, or append. */
  function PutEntry(es: seq<Entry>, dept: int, w: real): (r: seq<Entry>)
    ensures forall i :: 0 <= i < |r| ==> r[i] == Entry(dept, w) || r[i] in es
    ensures Entry(dept, w) in r
    ensures forall e :: e in es && e.deptId != dept ==> e in r
  {
    if es == [] then [Entry(dept, w)]
    else if es[0].deptId == dept then [Entry(dept, w)] + es[1..]
    else [es[0]] + PutEntry(es[1..], dept, w)
  }

  /** `role_map.setdefault(role_id, {})[dept_id] = weight`. */
  function AddToGroups(gs: seq<RoleGroup>, p: DeptPermission): seq<RoleGroup>
  {
    if gs == [] then [RoleGroup(p.roleId, [Entry(p.deptId, p.weight)])]
    else if gs[0].roleId == p.roleId then [RoleGroup(p.roleId, PutEntry(gs[0].entries, p.deptId, p.weight))] + gs[1..]
    else
      assert gs == [gs[0]] + gs[1..];
      [gs[0]] + AddToGroups(gs[1..], p)
  }

  /** The grouping loop of `save_myd_permissions`: the groups built from the
      whole payload, or the index of the first item that raises. */
  function GroupMyd(data: seq<MydPermItem>): Result<seq<RoleGroup>, SaveError>
  {
    if data == [] then Ok([])
    else
      match GroupMyd(data[..|data| - 1])
      case Err(e) => Err(e)
      case Ok(gs) =>
        match ParseMydItem(data[|data| - 1])
        case None => Err(MalformedItem(|data| - 1))
        case Some(p) => Ok(AddToGroups(gs, p))
  }

  /** The payload fails exactly when one of its items does, and then it names the first. */
  lemma {:induction false} GroupMydErr(data: seq<MydPermItem>)
    ensures GroupMyd(data).Err? <==> exists k :: 0 <= k < |data| && ParseMydItem(data[k]).None?
    ensures GroupMyd(data).Err? ==> FirstMalformed(data, GroupMyd(data).error.index)
  {
    if data != [] {
      var n := |data| - 1;
      var init := data[..n];
      GroupMydErr(init);
      assert forall k :: 0 <= k < n ==> init[k] == data[k];
      if GroupMyd(init).Err? {
        var k := GroupMyd(init).error.index;
        assert FirstMalformed(init, k);
        assert FirstMalformed(data, k);
      } else if ParseMydItem(data[n]).None? {
        assert FirstMalformed(data, n);
      }
    }
  }

  /** Item `k` is the first that raises. */
  ghost predicate FirstMalformed(data: seq<MydPermItem>, k: nat)
  {
    k < |data| && ParseMydItem(data[k]).None? && forall j :: 0 <= j < k ==> ParseMydItem(data[j]).Some?
  }

  /** One group's rows, in the order the inner loop inserts them. */
  function GroupRowsOf(g: RoleGroup): (r: seq<DeptPermission>)
    ensures |r| == |g.entries|
    ensures forall i :: 0 <= i < |r| ==> r[i] == DeptPermission(g.roleId, g.entries[i].deptId, g.entries[i].weight)
  {
    seq(|g.entries|, i requires 0 <= i < |g.entries| => DeptPermission(g.roleId, g.entries[i].deptId, g.entries[i].weight))
  }

  /** All rows the save inserts, group after group. */
  function GroupRows(gs: seq<RoleGroup>): seq<DeptPermission>
  {
    if gs == [] then [] else GroupRows(gs[..|gs| - 1]) + GroupRowsOf(gs[|gs| - 1])
  }

  function GroupRoles(gs: seq<RoleGroup>): set<int>
  {
    set g | g in gs :: g.roleId
  }

  /** The table after the save: the rows of roles the payload does not name,
      then the new rows of each named role. */
  function ReplaceDeptPerms(rows: seq<DeptPermission>, gs: seq<RoleGroup>): seq<DeptPermission>
  {
    KeepOtherRoles(rows, GroupRoles(gs)) + GroupRows(gs)
  }

  /** Roles once each, and departments once each inside a group: what two
      Python dicts guarantee. */
  ghost predicate GroupsWellFormed(gs: seq<RoleGroup>)
  {
    RoleIdsDistinct(gs) && forall g :: g in gs ==> EntriesDistinct(g.entries)
  }

  ghost predicate RoleIdsDistinct(gs: seq<RoleGroup>)
  {
    forall i, j :: 0 <= i < j < |gs| ==> gs[i].roleId != gs[j].roleId
  }

  ghost predicate EntriesDistinct(es: seq<Entry>)
  {
    forall i, j :: 0 <= i < j < |es| ==> es[i].deptId != es[j].deptId
  }

  /** The weight the payload's last parseable entry for (role, dept) gives. */
  function LastWeight(data: seq<MydPermItem>, role: int, dept: int): Option<real>
  {
    if data == [] then None
    else
      var p := ParseMydItem(data[|data| - 1]);
      if p.Some? && p.value.roleId == role && p.value.deptId == dept then Some(p.value.weight)
      else LastWeight(data[..|data| - 1], role, dept)
  }

  /** The roles the payload names. */
  function PayloadRoles(data: seq<MydPermItem>): set<int>
  {
    set k | 0 <= k < |data| && data[k].roleId.Some? :: data[k].roleId.value
  }

  /** The weight a group list holds for (role, dept). */
  function GroupWeight(gs: seq<RoleGroup>, role: int, dept: int): Option<real>
  {
    if gs == [] then None
    else if gs[0].roleId == role then EntryWeight(gs[0].entries, dept)
    else GroupWeight(gs[1..], role, dept)
  }

  function EntryWeight(es: seq<Entry>, dept: int): Option<real>
  {
    if es == [] then None
    else if es[0].deptId == dept then Some(es[0].weight)
    else EntryWeight(es[1..], dept)
  }

  lemma {:induction false} PutEntryDistinct(es: seq<Entry>, dept: int, w: real)
    requires EntriesDistinct(es)
    ensures EntriesDistinct(PutEntry(es, dept, w))
  {
    hide PutEntry;
    PutEntryCons(es, dept, w);
    var r := PutEntry(es, dept, w);
    if es != [] {
      EntriesDistinctTail(es);
      if es[0].deptId == dept {
        assert r[1..] == es[1..];
        forall i, j | 0 <= i < j < |r| ensures r[i].deptId != r[j].deptId {
          assert r[j] == es[j];
          if i > 0 { assert r[i] == es[i]; }
        }
      } else {
        PutEntryDistinct(es[1..], dept, w);
        var t := PutEntry(es[1..], dept, w);
        assert r == [es[0]] + t;
        PutEntryHeadFresh(es, dept, w);
        forall i, j | 0 <= i < j < |r| ensures r[i].deptId != r[j].deptId {
          assert r[j] == t[j - 1];
          if i > 0 { assert r[i] == t[i - 1]; }
        }
      }
    }
  }

  /** One step of `PutEntry`. */
  lemma PutEntryCons(es: seq<Entry>, dept: int, w: real)
    ensures es == [] ==> PutEntry(es, dept, w) == [Entry(dept, w)]
    ensures es != [] ==>
      (PutEntry(es, dept, w) == if es[0].deptId == dept then [Entry(dept, w)] + es[1..] else [es[0]] + PutEntry(es[1..], dept, w))
  {
  }

  lemma EntriesDistinctTail(es: seq<Entry>)
    requires es != [] && EntriesDistinct(es)
    ensures EntriesDistinct(es[1..])
    ensures forall e :: e in es[1..] ==> e.deptId != es[0].deptId
  {
    forall i, j | 0 <= i < j < |es[1..]| ensures es[1..][i].deptId != es[1..][j].deptId {
      assert es[1..][i] == es[i + 1] && es[1..][j] == es[j + 1];
    }
    forall e | e in es[1..] ensures e.deptId != es[0].deptId {
      var m :| 0 <= m < |es[1..]| && es[1..][m] == e;
      assert es[m + 1] == e;
    }
  }

  /** Past a head with another department, the put leaves that department out. */
  lemma PutEntryHeadFresh(es: seq<Entry>, dept: int, w: real)
    requires es != [] && EntriesDistinct(es) && es[0].deptId != dept
    ensures forall e :: e in PutEntry(es[1..], dept, w) ==> e.deptId != es[0].deptId
  {
    EntriesDistinctTail(es);
    var t := PutEntry(es[1..], dept, w);
    forall e | e in t ensures e.deptId != es[0].deptId {
      var j :| 0 <= j < |t| && t[j] == e;
      assert t[j] == Entry(dept, w) || t[j] in es[1..];
    }
  }

  lemma {:induction false} PutEntryWeight(es: seq<Entry>, dept: int, w: real, d: int)
    ensures EntryWeight(PutEntry(es, dept, w), d) == if d == dept then Some(w) else EntryWeight(es, d)
  {
    var r := PutEntry(es, dept, w);
    if es != [] {
      if es[0].deptId == dept {
        assert r[1..] == es[1..];
      } else {
        PutEntryWeight(es[1..], dept, w, d);
        assert r[1..] == PutEntry(es[1..], dept, w);
      }
    }
  }

  lemma AddToGroupsWellFormed(gs: seq<RoleGroup>, p: DeptPermission)
    requires GroupsWellFormed(gs)
    ensures GroupsWellFormed(AddToGroups(gs, p))
  {
    AddToGroupsRoleIds(gs, p);
    AddToGroupsEntries(gs, p);
  }

  lemma {:induction false} AddToGroupsEntries(gs: seq<RoleGroup>, p: DeptPermission)
    requires forall g :: g in gs ==> EntriesDistinct(g.entries)
    ensures forall g :: g in AddToGroups(gs, p) ==> EntriesDistinct(g.entries)
  {
    var res := AddToGroups(gs, p);
    if gs == [] {
    } else if gs[0].roleId == p.roleId {
      PutEntryDistinct(gs[0].entries, p.deptId, p.weight);
      assert res[1..] == gs[1..];
      forall g | g in res ensures EntriesDistinct(g.entries) {
        if g != res[0] { assert g in res[1..]; }
      }
    } else {
      assert forall g :: g in gs[1..] ==> g in gs;
      AddToGroupsEntries(gs[1..], p);
      assert res == [gs[0]] + AddToGroups(gs[1..], p);
    }
  }

  lemma {:induction false} AddToGroupsRoleIds(gs: seq<RoleGroup>, p: DeptPermission)
    requires RoleIdsDistinct(gs)
    ensures RoleIdsDistinct(AddToGroups(gs, p))
  {
    var res := AddToGroups(gs, p);
    if gs == [] {
    } else if gs[0].roleId == p.roleId {
      assert res[1..] == gs[1..];
      forall i, j | 0 <= i < j < |res| ensures res[i].roleId != res[j].roleId {
        assert res[j] == gs[j];
        if i > 0 { assert res[i] == gs[i]; }
      }
    } else {
      var tail := AddToGroups(gs[1..], p);
      assert RoleIdsDistinct(gs[1..]) by {
        forall i, j | 0 <= i < j < |gs[1..]| ensures gs[1..][i].roleId != gs[1..][j].roleId {
          assert gs[1..][i] == gs[i + 1] && gs[1..][j] == gs[j + 1];
        }
      }
      AddToGroupsRoleIds(gs[1..], p);
      assert res == [gs[0]] + tail;
      HeadRoleIsNew(gs, p);
      forall i, j | 0 <= i < j < |res| ensures res[i].roleId != res[j].roleId {
        assert res[j] == tail[j - 1];
        if i > 0 { assert res[i] == tail[i - 1]; }
      }
    }
  }

  /** A group after the update is the updated role's, or was there before. */
  lemma {:induction false} AddToGroupsMembers(gs: seq<RoleGroup>, p: DeptPermission)
    ensures forall g :: g in AddToGroups(gs, p) ==> g.roleId == p.roleId || g in gs
  {
    if gs != [] && gs[0].roleId != p.roleId {
      AddToGroupsMembers(gs[1..], p);
      assert AddToGroups(gs, p) == [gs[0]] + AddToGroups(gs[1..], p);
      assert forall g :: g in gs[1..] ==> g in gs;
    } else if gs != [] {
      assert AddToGroups(gs, p)[1..] == gs[1..];
      assert forall g :: g in gs[1..] ==> g in gs;
    }
  }

  lemma HeadRoleIsNew(gs: seq<RoleGroup>, p: DeptPermission)
    requires RoleIdsDistinct(gs) && gs != [] && gs[0].roleId != p.roleId
    ensures forall g :: g in AddToGroups(gs[1..], p) ==> g.roleId != gs[0].roleId
  {
    AddToGroupsMembers(gs[1..], p);
    forall g | g in AddToGroups(gs[1..], p) ensures g.roleId != gs[0].roleId {
      if g.roleId != p.roleId {
        assert g in gs[1..];
        var m :| 0 <= m < |gs[1..]| && gs[1..][m] == g;
        assert gs[m + 1] == g;
      }
    }
  }

  lemma {:induction false} GroupRolesCons(g: RoleGroup, gs: seq<RoleGroup>)
    ensures GroupRoles([g] + gs) == {g.roleId} + GroupRoles(gs)
  {
    assert forall x :: x in [g] + gs <==> x == g || x in gs;
  }

  lemma {:induction false} AddToGroupsRoles(gs: seq<RoleGroup>, p: DeptPermission)
    ensures GroupRoles(AddToGroups(gs, p)) == GroupRoles(gs) + {p.roleId}
  {
    var res := AddToGroups(gs, p);
    if gs != [] {
      assert gs == [gs[0]] + gs[1..];
      GroupRolesCons(gs[0], gs[1..]);
      if gs[0].roleId == p.roleId {
        GroupRolesCons(res[0], gs[1..]);
      } else {
        AddToGroupsRoles(gs[1..], p);
        GroupRolesCons(gs[0], AddToGroups(gs[1..], p));
      }
    }
  }

  lemma {:induction false} AddToGroupsWeight(gs: seq<RoleGroup>, p: DeptPermission, r: int, d: int)
    ensures GroupWeight(AddToGroups(gs, p), r, d) ==
              if r == p.roleId && d == p.deptId then Some(p.weight) else GroupWeight(gs, r, d)
  {
    var res := AddToGroups(gs, p);
    if gs == [] {
      var es := [Entry(p.deptId, p.weight)];
      assert res == [RoleGroup(p.roleId, es)] && res[1..] == [] && es[1..] == [];
      assert EntryWeight(es, d) == if d == p.deptId then Some(p.weight) else EntryWeight(es[1..], d);
      assert GroupWeight(res, r, d) == if r == p.roleId then EntryWeight(es, d) else GroupWeight(res[1..], r, d);
    } else if gs[0].roleId == p.roleId {
      assert res[1..] == gs[1..];
      PutEntryWeight(gs[0].entries, p.deptId, p.weight, d);
    } else {
      AddToGroupsWeight(gs[1..], p, r, d);
      assert res[1..] == AddToGroups(gs[1..], p);
    }
  }

  /** The grouping gives roles once each, departments once each per role, the
      roles the payload names, and for every (role, dept) the weight of the
      last entry for it: a later entry for the same pair wins. */
  lemma {:induction false} GroupMydMeaning(data: seq<MydPermItem>)
    requires GroupMyd(data).Ok?
    ensures GroupsWellFormed(GroupMyd(data).value)
    ensures GroupRoles(GroupMyd(data).value) == PayloadRoles(data)
    ensures forall r, d :: GroupWeight(GroupMyd(data).value, r, d) == LastWeight(data, r, d)
  {
    if data != [] {
      var init := data[..|data| - 1];
      GroupMydMeaning(init);
      var gs := GroupMyd(init).value;
      var p := ParseMydItem(data[|data| - 1]).value;
      AddToGroupsWellFormed(gs, p);
      AddToGroupsRoles(gs, p);
      forall r, d ensures GroupWeight(AddToGroups(gs, p), r, d) == LastWeight(data, r, d) {
        AddToGroupsWeight(gs, p, r, d);
      }
      PayloadRolesSnoc(data);
    }
  }

  lemma PayloadRolesSnoc(data: seq<MydPermItem>)
    requires data != [] && data[|data| - 1].roleId.Some?
    ensures PayloadRoles(data) == PayloadRoles(data[..|data| - 1]) + {data[|data| - 1].roleId.value}
  {
    var init := data[..|data| - 1];
    assert forall k :: 0 <= k < |init| ==> init[k] == data[k];
  }

  lemma {:induction false} GroupRowsMembership(gs: seq<RoleGroup>, x: DeptPermission)
    requires GroupsWellFormed(gs)
    ensures x in GroupRows(gs) <==> x.roleId in GroupRoles(gs) && GroupWeight(gs, x.roleId, x.deptId) == Some(x.weight)
  {
    hide GroupRows, GroupRoles, GroupWeight, GroupRowsOf, GroupsWellFormed;
    GroupRowsSnoc(gs);
    if gs != [] {
      var init, last := gs[..|gs| - 1], gs[|gs| - 1];
      LastGroupSplit(gs);
      GroupRowsMembership(init, x);
      assert gs == init + [last];
      GroupWeightSplit(init, last, x.roleId, x.deptId);
      EntryWeightMembership(last.entries, x.deptId, x.weight);
      GroupRowsOfMembership(last, x);
    }
  }

  /** One step of `GroupRows` and `GroupRoles`, taken from the end. */
  lemma GroupRowsSnoc(gs: seq<RoleGroup>)
    ensures gs == [] ==> GroupRows(gs) == [] && GroupRoles(gs) == {}
    ensures gs != [] ==> GroupRows(gs) == GroupRows(gs[..|gs| - 1]) + GroupRowsOf(gs[|gs| - 1])
  {
  }

  /** Splitting off the last group of a well-formed list: the rest is well
      formed, and the last role is new to it. */
  lemma LastGroupSplit(gs: seq<RoleGroup>)
    requires gs != [] && GroupsWellFormed(gs)
    ensures GroupsWellFormed(gs[..|gs| - 1]) && EntriesDistinct(gs[|gs| - 1].entries)
    ensures gs[|gs| - 1].roleId !in GroupRoles(gs[..|gs| - 1])
    ensures GroupRoles(gs) == GroupRoles(gs[..|gs| - 1]) + {gs[|gs| - 1].roleId}
  {
    var init, last := gs[..|gs| - 1], gs[|gs| - 1];
    assert GroupsWellFormed(init) by {
      forall g | g in init ensures g in gs {}
    }
    assert last in gs;
    assert last.roleId !in GroupRoles(init) by {
      forall g | g in init ensures g.roleId != last.roleId {
        var i :| 0 <= i < |init| && init[i] == g;
        assert gs[i] == g && gs[|gs| - 1] == last;
      }
    }
    assert gs == init + [last];
  }

  lemma GroupRowsOfMembership(g: RoleGroup, x: DeptPermission)
    ensures x in GroupRowsOf(g) <==> x.roleId == g.roleId && Entry(x.deptId, x.weight) in g.entries
  {
    if x in GroupRowsOf(g) {
      var i :| 0 <= i < |g.entries| && GroupRowsOf(g)[i] == x;
      assert g.entries[i] == Entry(x.deptId, x.weight);
    }
    if x.roleId == g.roleId && Entry(x.deptId, x.weight) in g.entries {
      var i :| 0 <= i < |g.entries| && g.entries[i] == Entry(x.deptId, x.weight);
      assert GroupRowsOf(g)[i] == x;
    }
  }

  lemma {:induction false} GroupWeightSplit(init: seq<RoleGroup>, last: RoleGroup, r: int, d: int)
    requires last.roleId !in GroupRoles(init) || r != last.roleId
    ensures GroupWeight(init + [last], r, d) ==
      if r == last.roleId then EntryWeight(last.entries, d) else GroupWeight(init, r, d)
  {
    if init != [] {
      assert (init + [last])[1..] == init[1..] + [last];
      assert init[0] in init;
      assert last.roleId !in GroupRoles(init[1..]) || r != last.roleId by {
        forall g | g in init[1..] ensures g in init {}
      }
      GroupWeightSplit(init[1..], last, r, d);
    }
  }

  lemma {:induction false} EntryWeightMembership(es: seq<Entry>, d: int, w: real)
    requires EntriesDistinct(es)
    ensures Entry(d, w) in es <==> EntryWeight(es, d) == Some(w)
  {
    if es != [] {
      assert EntriesDistinct(es[1..]) by {
        forall i, j | 0 <= i < j < |es[1..]| ensures es[1..][i].deptId != es[1..][j].deptId {
          assert es[1..][i] == es[i + 1] && es[1..][j] == es[j + 1];
        }
      }
      EntryWeightMembership(es[1..], d, w);
      if es[0].deptId == d {
        forall j | 0 <= j < |es[1..]| ensures es[1..][j].deptId != d {
          assert es[1..][j] == es[j + 1];
        }
        assert Entry(d, w) !in es[1..];
      }
      assert es == [es[0]] + es[1..];
    }
  }

  lemma {:induction false} GroupRowsUnique(gs: seq<RoleGroup>)
    requires GroupsWellFormed(gs)
    ensures DeptPermsUnique(GroupRows(gs))
    ensures forall x :: x in GroupRows(gs) ==> x.roleId in GroupRoles(gs)
  {
    forall x | x in GroupRows(gs) ensures x.roleId in GroupRoles(gs) {
      GroupRowsMembership(gs, x);
    }
    var rows := GroupRows(gs);
    forall i, j | 0 <= i < j < |rows| && rows[i].roleId == rows[j].roleId
      ensures rows[i].deptId != rows[j].deptId
    {
      GroupRowsMembership(gs, rows[i]);
      GroupRowsMembership(gs, rows[j]);
      if rows[i].deptId == rows[j].deptId {
        assert rows[i] == rows[j];
        DistinctRowsAt(gs, i, j);
      }
    }
  }

  /** Two positions of `GroupRows` never hold the same row. */
  lemma {:induction false} DistinctRowsAt(gs: seq<RoleGroup>, i: nat, j: nat)
    requires GroupsWellFormed(gs)
    requires i < j < |GroupRows(gs)|
    ensures GroupRows(gs)[i] != GroupRows(gs)[j]
  {
    var init, last := gs[..|gs| - 1], gs[|gs| - 1];
    assert GroupsWellFormed(init) by {
      forall g | g in init ensures g in gs {}
    }
    var a, b := GroupRows(init), GroupRowsOf(last);
    assert GroupRows(gs) == a + b;
    if j < |a| {
      DistinctRowsAt(init, i, j);
    } else if i >= |a| {
      assert EntriesDistinct(last.entries);
      assert b[i - |a|].deptId == last.entries[i - |a|].deptId;
    } else {
      GroupRowsMembership(init, a[i]);
      assert last.roleId !in GroupRoles(init) by {
        forall g | g in init ensures g.roleId != last.roleId {
          var k :| 0 <= k < |init| && init[k] == g;
          assert gs[k] == g;
        }
      }
    }
  }

  // ---------------------------------------------------------------------------
  // The row algebra of delete-then-insert

  lemma {:induction false} KeepOtherRolesAppend(a: seq<DeptPermission>, b: seq<DeptPermission>, roles: set<int>)
    ensures KeepOtherRoles(a + b, roles) == KeepOtherRoles(a, roles) + KeepOtherRoles(b, roles)
  {
    if a == [] {
      assert a + b == b;
    } else {
      assert (a + b)[0] == a[0] && (a + b)[1..] == a[1..] + b;
      KeepOtherRolesAppend(a[1..], b, roles);
      var head := if a[0].roleId in roles then [] else [a[0]];
      assert KeepOtherRoles(a + b, roles) == head + KeepOtherRoles(a[1..] + b, roles);
    }
  }

  lemma {:induction false} KeepOtherRolesTwice(rows: seq<DeptPermission>, roles: set<int>, r: int)
    ensures KeepOtherRoles(KeepOtherRoles(rows, roles), {r}) == KeepOtherRoles(rows, roles + {r})
  {
    if rows != [] {
      KeepOtherRolesTwice(rows[1..], roles, r);
      var head := if rows[0].roleId in roles then [] else [rows[0]];
      KeepOtherRolesAppend(head, KeepOtherRoles(rows[1..], roles), {r});
    }
  }

  lemma {:induction false} KeepOtherRolesNone(rows: seq<DeptPermission>, roles: set<int>)
    requires forall x :: x in rows ==> x.roleId !in roles
    ensures KeepOtherRoles(rows, roles) == rows
  {
    hide KeepOtherRoles;
    if rows == [] {
      KeepOtherRolesCons(rows, roles);
    } else {
      assert rows[0] in rows;
      assert forall x :: x in rows[1..] ==> x in rows;
      KeepOtherRolesNone(rows[1..], roles);
      KeepOtherRolesCons(rows, roles);
      assert rows == [rows[0]] + rows[1..];
    }
  }

  /** One step of `KeepOtherRoles`. */
  lemma KeepOtherRolesCons(rows: seq<DeptPermission>, roles: set<int>)
    ensures rows == [] ==> KeepOtherRoles(rows, roles) == []
    ensures rows != [] ==> KeepOtherRoles(rows, roles) == (if rows[0].roleId in roles then [] else [rows[0]]) + KeepOtherRoles(rows[1..], roles)
  {
  }

  lemma {:induction false} DeptPermsOfAppend(a: seq<DeptPermission>, b: seq<DeptPermission>, role: int)
    ensures DeptPermsOf(a + b, role) == DeptPermsOf(a, role) + DeptPermsOf(b, role)
  {
    if a == [] {
      assert a + b == b;
    } else {
      assert (a + b)[0] == a[0] && (a + b)[1..] == a[1..] + b;
      DeptPermsOfAppend(a[1..], b, role);
      var head := if a[0].roleId == role then [a[0]] else [];
      assert DeptPermsOf(a + b, role) == head + DeptPermsOf(a[1..] + b, role);
    }
  }

  lemma {:induction false} DeptPermsOfKept(rows: seq<DeptPermission>, roles: set<int>, role: int)
    requires role !in roles
    ensures DeptPermsOf(KeepOtherRoles(rows, roles), role) == DeptPermsOf(rows, role)
  {
    if rows != [] {
      DeptPermsOfKept(rows[1..], roles, role);
      var head := if rows[0].roleId in roles then [] else [rows[0]];
      DeptPermsOfAppend(head, KeepOtherRoles(rows[1..], roles), role);
    }
  }

  lemma {:induction false} DeptPermsOfAbsent(rows: seq<DeptPermission>, role: int)
    requires forall x :: x in rows ==> x.roleId != role
    ensures DeptPermsOf(rows, role) == []
  {
    if rows != [] {
      assert rows[0] in rows;
      assert forall x :: x in rows[1..] ==> x in rows;
      DeptPermsOfAbsent(rows[1..], role);
    }
  }

  /** What `save_myd_permissions` leaves behind: no (role, dept) pair twice;
      for each role the payload names, a row (role, dept, w) exists exactly
      when the payload's last entry for (role, dept) gives w; every other role
      keeps exactly the rows it had. */
  lemma ReplaceDeptPermsMeaning(rows: seq<DeptPermission>, data: seq<MydPermItem>)
    requires DeptPermsUnique(rows)
    requires GroupMyd(data).Ok?
    ensures DeptPermsUnique(ReplaceDeptPerms(rows, GroupMyd(data).value))
    ensures forall x: DeptPermission :: x.roleId in PayloadRoles(data) ==>
      (x in ReplaceDeptPerms(rows, GroupMyd(data).value) <==> LastWeight(data, x.roleId, x.deptId) == Some(x.weight))
    ensures forall role :: role !in PayloadRoles(data) ==>
      DeptPermsOf(ReplaceDeptPerms(rows, GroupMyd(data).value), role) == DeptPermsOf(rows, role)
  {
    var gs := GroupMyd(data).value;
    GroupMydMeaning(data);
    ReplaceDeptPermsUnique(rows, gs);
    var kept := KeepOtherRoles(rows, GroupRoles(gs));
    var added := GroupRows(gs);
    forall x: DeptPermission | x.roleId in PayloadRoles(data)
      ensures x in kept + added <==> LastWeight(data, x.roleId, x.deptId) == Some(x.weight)
    {
      GroupRowsMembership(gs, x);
    }
    forall role | role !in PayloadRoles(data)
      ensures DeptPermsOf(kept + added, role) == DeptPermsOf(rows, role)
    {
      DeptPermsOfAppend(kept, added, role);
      DeptPermsOfKept(rows, GroupRoles(gs), role);
      GroupRowsUnique(gs);
      DeptPermsOfAbsent(added, role);
    }
  }

  lemma ReplaceDeptPermsUnique(rows: seq<DeptPermission>, gs: seq<RoleGroup>)
    requires DeptPermsUnique(rows) && GroupsWellFormed(gs)
    ensures DeptPermsUnique(ReplaceDeptPerms(rows, gs))
  {
    var kept := KeepOtherRoles(rows, GroupRoles(gs));
    var added := GroupRows(gs);
    GroupRowsUnique(gs);
    KeepOtherRolesUnique(rows, GroupRoles(gs));
    UniqueAppend(kept, added);
  }

  /** Same role and same department. */
  predicate SamePair(a: DeptPermission, b: DeptPermission)
  {
    a.roleId == b.roleId && a.deptId == b.deptId
  }

  lemma UniqueCons(a: DeptPermission, t: seq<DeptPermission>)
    requires DeptPermsUnique(t)
    requires forall x :: x in t ==> !SamePair(a, x)
    ensures DeptPermsUnique([a] + t)
  {
    var r := [a] + t;
    forall i, j | 0 <= i < j < |r| ensures !SamePair(r[i], r[j]) {
      assert r[j] == t[j - 1];
      if i > 0 { assert r[i] == t[i - 1]; }
    }
  }

  lemma UniqueTail(rows: seq<DeptPermission>)
    requires rows != [] && DeptPermsUnique(rows)
    ensures DeptPermsUnique(rows[1..])
    ensures forall x :: x in rows[1..] ==> !SamePair(rows[0], x)
  {
    var t := rows[1..];
    forall i, j | 0 <= i < j < |t| ensures !SamePair(t[i], t[j]) {
      assert t[i] == rows[i + 1] && t[j] == rows[j + 1];
    }
    forall x | x in t ensures !SamePair(rows[0], x) {
      var m :| 0 <= m < |t| && t[m] == x;
      assert rows[m + 1] == x;
    }
  }

  lemma {:induction false} KeepOtherRolesUnique(rows: seq<DeptPermission>, roles: set<int>)
    requires DeptPermsUnique(rows)
    ensures DeptPermsUnique(KeepOtherRoles(rows, roles))
  {
    if rows != [] {
      UniqueTail(rows);
      KeepOtherRolesUnique(rows[1..], roles);
      if rows[0].roleId !in roles {
        UniqueCons(rows[0], KeepOtherRoles(rows[1..], roles));
      }
    }
  }

  lemma UniqueAppend(a: seq<DeptPermission>, b: seq<DeptPermission>)
    requires DeptPermsUnique(a) && DeptPermsUnique(b)
    requires forall x, y :: x in a && y in b ==> x.roleId != y.roleId
    ensures DeptPermsUnique(a + b)
  {
    var r := a + b;
    forall i, j | 0 <= i < j < |r| ensures !SamePair(r[i], r[j]) {
      if j < |a| {
        assert r[i] == a[i] && r[j] == a[j];
      } else if i >= |a| {
        assert r[i] == b[i - |a|] && r[j] == b[j - |a|];
      } else {
        assert r[i] in a && r[j] in b;
      }
    }
  }

  /** The prefix of a well-formed group list is well formed. */
  lemma GroupsWellFormedPrefix(gs: seq<RoleGroup>, k: nat)
    requires GroupsWellFormed(gs) && k <= |gs|
    ensures GroupsWellFormed(gs[..k])
  {
    forall g | g in gs[..k] ensures g in gs {}
  }

  /** One pass of the save's second loop: deleting the next group's role and
      inserting its rows extends the replacement by that group. */
  lemma ReplaceStep(rows: seq<DeptPermission>, gs: seq<RoleGroup>, k: nat)
    requires GroupsWellFormed(gs) && k < |gs|
    ensures KeepOtherRoles(ReplaceDeptPerms(rows, gs[..k]), {gs[k].roleId}) + GroupRowsOf(gs[k])
              == ReplaceDeptPerms(rows, gs[..k + 1])
  {
    AddedHasOtherRoles(gs, k);
    PrefixSnoc(gs, k);
    DeleteThenInsert(rows, GroupRoles(gs[..k]), GroupRows(gs[..k]), gs[k].roleId, GroupRowsOf(gs[k]));
  }

  /** Deleting role `r` from "other roles' rows, then rows of new roles" and
      appending `r`'s rows is the same as keeping the rows of roles outside
      both and appending all new rows. */
  lemma DeleteThenInsert(rows: seq<DeptPermission>, roles: set<int>, added: seq<DeptPermission>, r: int, extra: seq<DeptPermission>)
    requires forall x :: x in added ==> x.roleId !in {r}
    ensures KeepOtherRoles(KeepOtherRoles(rows, roles) + added, {r}) + extra
              == KeepOtherRoles(rows, roles + {r}) + (added + extra)
  {
    DeleteFromReplaced(rows, roles, added, r);
    var both := KeepOtherRoles(rows, roles + {r});
    assert (both + added) + extra == both + (added + extra);
  }

  lemma DeleteFromReplaced(rows: seq<DeptPermission>, roles: set<int>, added: seq<DeptPermission>, r: int)
    requires forall x :: x in added ==> x.roleId !in {r}
    ensures KeepOtherRoles(KeepOtherRoles(rows, roles) + added, {r}) == KeepOtherRoles(rows, roles + {r}) + added
  {
    var kept := KeepOtherRoles(rows, roles);
    KeepOtherRolesAppend(kept, added, {r});
    KeepOtherRolesTwice(rows, roles, r);
    KeepOtherRolesNone(added, {r});
  }

  /** The rows inserted for earlier groups belong to other roles than the next group's. */
  lemma AddedHasOtherRoles(gs: seq<RoleGroup>, k: nat)
    requires GroupsWellFormed(gs) && k < |gs|
    ensures forall x :: x in GroupRows(gs[..k]) ==> x.roleId !in {gs[k].roleId}
  {
    NextRoleIsNew(gs, k);
    GroupsWellFormedPrefix(gs, k);
    GroupRowsUnique(gs[..k]);
  }

  lemma PrefixSnoc(gs: seq<RoleGroup>, k: nat)
    requires k < |gs|
    ensures GroupRows(gs[..k + 1]) == GroupRows(gs[..k]) + GroupRowsOf(gs[k])
    ensures GroupRoles(gs[..k + 1]) == GroupRoles(gs[..k]) + {gs[k].roleId}
  {
    assert gs[..k + 1][..k] == gs[..k];
    assert gs[..k + 1] == gs[..k] + [gs[k]];
  }

  lemma NextRoleIsNew(gs: seq<RoleGroup>, k: nat)
    requires GroupsWellFormed(gs) && k < |gs|
    ensures gs[k].roleId !in GroupRoles(gs[..k])
  {
    forall h | h in gs[..k] ensures h.roleId != gs[k].roleId {
      var m :| 0 <= m < k && gs[..k][m] == h;
      assert gs[m] == h;
    }
  }

  /** When an item fails after all before it parsed, the save reports that item. */
  lemma GroupMydStops(data: seq<MydPermItem>, i: nat)
    requires i < |data| && GroupMyd(data[..i]).Ok? && ParseMydItem(data[i]).None?
    ensures GroupMyd(data) == Err(MalformedItem(i))
  {
    GroupMydErr(data);
    GroupMydErr(data[..i]);
    var k := GroupMyd(data).error.index;
    assert FirstMalformed(data, k);
    assert forall m :: 0 <= m < i ==> data[..i][m] == data[m];
  }

  // ===========================================================================
  // Indicator permissions and weights

  /** The `departments` field of an indicator payload item: a list of
      names (an absent field reads as the empty list), a single string, or a
      value `for` cannot iterate, such as `null`. */
  datatype DeptsField = DeptList(names: seq<string>) | DeptText(text: string) | DeptNotIterable

  /** One item of the indicator payload: `role_id` (`None` when missing or
      rejected by `int()`), `departments`, and `zdgz_weight` (absent stores
      0; `WeightInvalid` is a value the weight column refuses). */
  datatype ZdgzPermItem = ZdgzPermItem(roleId: Option<int>, departments: DeptsField, zdgzWeight: WeightField)

  /** What `for dept in departments` visits: the listed names, one name per
      character of a string, or `None` where the loop raises. */
  function DeptNames(f: DeptsField): (r: Option<seq<string>>)
    ensures r.None? <==> f.DeptNotIterable?
    ensures f.DeptList? ==> r == Some(f.names)
    ensures f.DeptText? ==> |r.value| == |f.text| && forall k :: 0 <= k < |f.text| ==> r.value[k] == [f.text[k]]
  {
    match f
    case DeptList(names) => Some(names)
    case DeptText(text) => Some(seq(|text|, k requires 0 <= k < |text| => [text[k]]))
    case DeptNotIterable => None
  }

  /** The weight `item.get('zdgz_weight', 0)` stores for a valid field. */
  function StoredZdgzWeight(f: WeightField): (w: real)
    requires !f.WeightInvalid?
    ensures f.WeightMissing? ==> w == 0.0
    ensures f.WeightGiven? ==> w == f.w
  {
    if f.WeightGiven? then f.w else 0.0
  }

  /** One pass of the loop: delete the role's rows, insert its new list. */
  function ReplaceRoleDepartments(rows: seq<ZdgzPermission>, role: int, departments: seq<string>): seq<ZdgzPermission>
  {
    KeepOtherZdgzRole(rows, role) + ZdgzRows(role, departments)
  }

  /** The table after the loop of `save_role_zdgz_permissions`, or the index
      of the first item that raises (which rolls everything back). */
  function ApplyZdgzItems(rows: seq<ZdgzPermission>, items: seq<ZdgzPermItem>): Result<seq<ZdgzPermission>, SaveError>
  {
    if items == [] then Ok(rows)
    else
      match ApplyZdgzItems(rows, items[..|items| - 1])
      case Err(e) => Err(e)
      case Ok(before) =>
        var item := items[|items| - 1];
        if item.roleId.None? || item.departments.DeptNotIterable? then Err(MalformedItem(|items| - 1))
        else Ok(ReplaceRoleDepartments(before, item.roleId.value, DeptNames(item.departments).value))
  }

  /** The department names of the last item naming `role`, if any (none
      for an item whose field cannot be iterated). */
  function LastDepartments(items: seq<ZdgzPermItem>, role: int): Option<seq<string>>
  {
    if items == [] then None
    else
      var item := items[|items| - 1];
      if item.roleId == Some(role) then Some(GetOr(DeptNames(item.departments), []))
      else LastDepartments(items[..|items| - 1], role)
  }

  lemma {:induction false} DepartmentsOfAppend(a: seq<ZdgzPermission>, b: seq<ZdgzPermission>, role: int)
    ensures DepartmentsOf(a + b, role) == DepartmentsOf(a, role) + DepartmentsOf(b, role)
  {
    hide DepartmentsOf;
    if a == [] {
      assert a + b == b;
      DepartmentsOfEmpty(role);
    } else {
      DepartmentsOfCons(a, role);
      DepartmentsOfCons(a + b, role);
      assert (a + b)[0] == a[0] && (a + b)[1..] == a[1..] + b;
      DepartmentsOfAppend(a[1..], b, role);
    }
  }

  lemma DepartmentsOfEmpty(role: int)
    ensures DepartmentsOf([], role) == []
  {
  }

  /** One step of `DepartmentsOf`, with its definition out of sight afterwards. */
  lemma DepartmentsOfCons(rows: seq<ZdgzPermission>, role: int)
    requires rows != []
    ensures DepartmentsOf(rows, role) == (if rows[0].roleId == role then [rows[0].department] else []) + DepartmentsOf(rows[1..], role)
  {
  }

  lemma DepartmentsOfSnoc(rows: seq<ZdgzPermission>, row: ZdgzPermission, role: int)
    ensures DepartmentsOf(rows + [row], role) == DepartmentsOf(rows, role) + if row.roleId == role then [row.department] else []
  {
    DepartmentsOfAppend(rows, [row], role);
    assert [row][1..] == [];
  }

  lemma DepartmentsOfSnocAll(rows: seq<ZdgzPermission>, row: ZdgzPermission)
    ensures forall role :: DepartmentsOf(rows + [row], role) ==
                           DepartmentsOf(rows, role) + if row.roleId == role then [row.department] else []
  {
    forall role ensures DepartmentsOf(rows + [row], role) ==
                        DepartmentsOf(rows, role) + if row.roleId == role then [row.department] else []
    {
      DepartmentsOfSnoc(rows, row, role);
    }
  }

  lemma {:induction false} DepartmentsOfKept(rows: seq<ZdgzPermission>, r: int, role: int)
    ensures DepartmentsOf(KeepOtherZdgzRole(rows, r), role) == if role == r then [] else DepartmentsOf(rows, role)
  {
    if rows != [] {
      DepartmentsOfKept(rows[1..], r, role);
      var head := if rows[0].roleId == r then [] else [rows[0]];
      DepartmentsOfAppend(head, KeepOtherZdgzRole(rows[1..], r), role);
    }
  }

  lemma {:induction false} DepartmentsOfInserted(r: int, departments: seq<string>, role: int)
    ensures DepartmentsOf(ZdgzRows(r, departments), role) == if role == r then departments else []
  {
    if departments != [] {
      DepartmentsOfInserted(r, departments[1..], role);
      DepartmentsOfAppend([ZdgzPermission(r, departments[0])], ZdgzRows(r, departments[1..]), role);
      assert ZdgzRows(r, departments) == [ZdgzPermission(r, departments[0])] + ZdgzRows(r, departments[1..]);
      assert departments == [departments[0]] + departments[1..];
    }
  }

  /** `save_role_zdgz_permissions` fails exactly when an item lacks a usable
      `role_id` or has a `departments` value that cannot be iterated. */
  lemma {:induction false} ApplyZdgzItemsFails(rows: seq<ZdgzPermission>, items: seq<ZdgzPermItem>)
    ensures ApplyZdgzItems(rows, items).Err? <==>
      exists k :: 0 <= k < |items| && (items[k].roleId.None? || items[k].departments.DeptNotIterable?)
  {
    if items != [] {
      var init := items[..|items| - 1];
      ApplyZdgzItemsFails(rows, init);
      assert forall k :: 0 <= k < |init| ==> init[k] == items[k];
    }
  }

  /** Once an item has failed, later items change nothing: the result is that failure. */
  lemma {:induction false} ApplyZdgzItemsErrPersists(rows: seq<ZdgzPermission>, items: seq<ZdgzPermItem>, j: nat)
    requires j <= |items| && ApplyZdgzItems(rows, items[..j]).Err?
    ensures ApplyZdgzItems(rows, items) == ApplyZdgzItems(rows, items[..j])
  {
    if j < |items| {
      var init := items[..|items| - 1];
      assert init[..j] == items[..j];
      ApplyZdgzItemsErrPersists(rows, init, j);
    } else {
      assert items[..j] == items;
    }
  }

  /** What a successful `save_role_zdgz_permissions` leaves behind: a role
      named by some item has exactly the department list of the last item
      naming it (none at all for `[]`); every other role keeps its list. */
  lemma {:induction false} ApplyZdgzItemsMeaning(rows: seq<ZdgzPermission>, items: seq<ZdgzPermItem>, role: int)
    requires ApplyZdgzItems(rows, items).Ok?
    ensures DepartmentsOf(ApplyZdgzItems(rows, items).value, role) ==
              GetOr(LastDepartments(items, role), DepartmentsOf(rows, role))
  {
    if items != [] {
      var init := items[..|items| - 1];
      var item := items[|items| - 1];
      ApplyZdgzItemsMeaning(rows, init, role);
      var before := ApplyZdgzItems(rows, init).value;
      var r := item.roleId.value;
      var names := DeptNames(item.departments).value;
      DepartmentsOfAppend(KeepOtherZdgzRole(before, r), ZdgzRows(r, names), role);
      DepartmentsOfKept(before, r, role);
      DepartmentsOfInserted(r, names, role);
    }
  }

  /** `UPDATE evaluator_role SET zdgz_weight = %s WHERE id = %s`. */
  function SetRoleWeight(roles: seq<Role>, id: int, w: real): (r: seq<Role>)
    ensures |r| == |roles|
    ensures forall i :: 0 <= i < |r| ==> r[i] == if roles[i].id == id then roles[i].(zdgzWeight := w) else roles[i]
  {
    if roles == [] then []
    else [if roles[0].id == id then roles[0].(zdgzWeight := w) else roles[0]] + SetRoleWeight(roles[1..], id, w)
  }

  /** The role table after the loop of `update_role_zdgz_weights`, or the
      index of the first item that raises: one without a usable `role_id`
      or with a weight the column refuses. A missing weight stores 0. */
  function ApplyZdgzWeights(roles: seq<Role>, items: seq<ZdgzPermItem>): Result<seq<Role>, SaveError>
  {
    if items == [] then Ok(roles)
    else
      match ApplyZdgzWeights(roles, items[..|items| - 1])
      case Err(e) => Err(e)
      case Ok(before) =>
        var item := items[|items| - 1];
        if item.roleId.None? || item.zdgzWeight.WeightInvalid? then Err(MalformedItem(|items| - 1))
        else Ok(SetRoleWeight(before, item.roleId.value, StoredZdgzWeight(item.zdgzWeight)))
  }

  /** The weight the last item naming `role` stores. */
  function LastZdgzWeight(items: seq<ZdgzPermItem>, role: int): Option<real>
  {
    if items == [] then None
    else
      var item := items[|items| - 1];
      if item.roleId == Some(role) then Some(if item.zdgzWeight.WeightGiven? then item.zdgzWeight.w else 0.0)
      else LastZdgzWeight(items[..|items| - 1], role)
  }

  /** `update_role_zdgz_weights` keeps the role rows in place and changes only
      weights: each role named by some item takes the weight of the last item
      naming it, every other role keeps its weight. */
  lemma {:induction false} ApplyZdgzWeightsMeaning(roles: seq<Role>, items: seq<ZdgzPermItem>)
    requires ApplyZdgzWeights(roles, items).Ok?
    ensures var after := ApplyZdgzWeights(roles, items).value;
      && |after| == |roles|
      && forall i :: 0 <= i < |roles| ==>
           after[i].id == roles[i].id && after[i].name == roles[i].name
           && after[i].zdgzWeight == GetOr(LastZdgzWeight(items, roles[i].id), roles[i].zdgzWeight)
  {
    if items != [] {
      ApplyZdgzWeightsMeaning(roles, items[..|items| - 1]);
    }
  }

  lemma {:induction false} ApplyZdgzWeightsErrPersists(roles: seq<Role>, items: seq<ZdgzPermItem>, j: nat)
    requires j <= |items| && ApplyZdgzWeights(roles, items[..j]).Err?
    ensures ApplyZdgzWeights(roles, items) == ApplyZdgzWeights(roles, items[..j])
  {
    if j < |items| {
      var init := items[..|items| - 1];
      assert init[..j] == items[..j];
      ApplyZdgzWeightsErrPersists(roles, init, j);
    } else {
      assert items[..j] == items;
    }
  }

  /** `update_role_zdgz_weights` fails exactly when an item lacks a usable
      `role_id` or carries a weight the column refuses. */
  lemma {:induction false} ApplyZdgzWeightsFails(roles: seq<Role>, items: seq<ZdgzPermItem>)
    ensures ApplyZdgzWeights(roles, items).Err? <==>
      exists k :: 0 <= k < |items| && (items[k].roleId.None? || items[k].zdgzWeight.WeightInvalid?)
  {
    if items != [] {
      var init := items[..|items| - 1];
      ApplyZdgzWeightsFails(roles, init);
      assert forall k :: 0 <= k < |init| ==> init[k] == items[k];
    }
  }

  /** The two saves check different fields, so the permission rows can be
      committed while the weight update fails: that happens exactly when
      every item has a role id and iterable departments and some item has a
      weight the column refuses. */
  lemma ZdgzSavesDiverge(rows: seq<ZdgzPermission>, roles: seq<Role>, items: seq<ZdgzPermItem>)
    ensures ApplyZdgzItems(rows, items).Ok? && ApplyZdgzWeights(roles, items).Err? <==>
      && (forall k :: 0 <= k < |items| ==> items[k].roleId.Some? && !items[k].departments.DeptNotIterable?)
      && (exists k :: 0 <= k < |items| && items[k].zdgzWeight.WeightInvalid?)
  {
    ApplyZdgzItemsFails(rows, items);
    ApplyZdgzWeightsFails(roles, items);
  }
}
