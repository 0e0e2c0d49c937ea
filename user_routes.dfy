/** The evaluator side of jxkh.py: `login`, the permission filtering of
    `index`, and `save_score`. The Flask request is reduced to the values the
    routes read from it; templates and redirects become outcome values. */
module UserRoutes {
  import opened Wrappers
  import opened Ordering
  import opened Schema
  import Text
  import opened Validators
  import opened Storage

  /** The session keys the core reads and writes. */
  datatype Session = Session(loginCode: Option<string>, roleId: Option<int>, adminUser: Option<string>)

  /** `session.clear()`. */
  const Cleared: Session := Session(None, None, None)

  // ---------------------------------------------------------------------------
  // login (jxkh.py:92-120)

  /** What a POST to `/login` answers: the two error pages, the login page
      again (a wrong password gets no message), or the redirect to `/`. */
  datatype LoginOutcome = InvalidCode | AlreadyUsed | LoginPage | LoggedIn

  /** The checks in their order: the account must exist, must not be used,
      and only then is the password compared. */
  function LoginDecision(codes: seq<LoginCode>, account: string, password: string): LoginOutcome
  {
    match FindLogin(codes, account)
    case None => InvalidCode
    case Some(user) =>
      if user.used then AlreadyUsed
      else if user.password == password then LoggedIn
      else LoginPage
  }

  /** login_no.account is meant to be unique. */
  ghost predicate AccountsUnique(codes: seq<LoginCode>)
  {
    forall i, j :: 0 <= i < j < |codes| ==> codes[i].account != codes[j].account
  }

  /** An unknown account is `InvalidCode` whatever the password; a login
      succeeds only on an unused row with that account and password; with
      unique accounts, each outcome is exactly the state of the account's
      row. */
  lemma LoginDecisionMeaning(codes: seq<LoginCode>, account: string, password: string)
    ensures LoginDecision(codes, account, password) == InvalidCode <==> forall c :: c in codes ==> c.account != account
    ensures LoginDecision(codes, account, password) == LoggedIn ==>
      exists c :: c in codes && c.account == account && !c.used && c.password == password
    ensures AccountsUnique(codes) ==>
      && (LoginDecision(codes, account, password) == LoggedIn <==>
            exists c :: c in codes && c.account == account && !c.used && c.password == password)
      && (LoginDecision(codes, account, password) == AlreadyUsed <==>
            exists c :: c in codes && c.account == account && c.used)
  {
    var found := FindLogin(codes, account);
    if found.None? {
      assert forall c :: c in codes ==> c.account != account by {
        forall c | c in codes ensures c.account != account {
          var i :| 0 <= i < |codes| && codes[i] == c;
        }
      }
    }
    if AccountsUnique(codes) {
      forall c | c in codes && c.account == account ensures found == Some(c) {
        var i :| 0 <= i < |codes| && codes[i] == c;
        var j :| 0 <= j < |codes| && codes[j] == found.value;
        assert !(i < j) && !(j < i);
      }
    }
  }

  /** `login` on POST: the account is the stripped form field. A successful
      login sets the two session keys and appends a login record; every other
      outcome changes nothing. */
  method Login(db: Database, session: Session, loginCodeField: string, password: string, ip: string)
    returns (outcome: LoginOutcome, next: Session)
    modifies db`loginRecords
    ensures var account := Text.Strip(loginCodeField);
      && outcome == LoginDecision(db.loginCodes, account, password)
      && (outcome == LoggedIn ==>
            && next == session.(loginCode := Some(account), roleId := Some(FindLogin(db.loginCodes, account).value.roleId))
            && db.loginRecords == old(db.loginRecords) + [LoginRecord(ip, account)])
      && (outcome != LoggedIn ==> next == session && db.loginRecords == old(db.loginRecords))
  {
    var account := Text.Strip(loginCodeField);
    var user := db.FindUser(account);
    if user.None? {
      return InvalidCode, session;
    }
    if user.value.used {
      return AlreadyUsed, session;
    }
    if user.value.password == password {
      next := session.(loginCode := Some(account), roleId := Some(user.value.roleId));
      db.LoginRec(ip, account);
      return LoggedIn, next;
    }
    return LoginPage, session;
  }

  // ---------------------------------------------------------------------------
  // index (jxkh.py:43-89)

  /** `ORDER BY department, id` of `get_zdgz` (NULL first). */
  predicate IndicatorLe(a: Indicator, b: Indicator)
  {
    if a.department != b.department then OptStrLe(a.department, b.department) else a.id <= b.id
  }

  /** `WHERE enable = 1 ORDER BY dept_type, id` of `get_departments`. */
  predicate DepartmentLe(a: Department, b: Department)
  {
    if a.deptType != b.deptType then OptStrLe(a.deptType, b.deptType) else a.id <= b.id
  }

  lemma IndicatorLeTotalPreorder()
    ensures TotalPreorder(IndicatorLe)
  {
    forall a, b ensures IndicatorLe(a, b) || IndicatorLe(b, a) {
      OptStrLeTotal(a.department, b.department);
    }
    forall a, b, c | IndicatorLe(a, b) && IndicatorLe(b, c) ensures IndicatorLe(a, c) {
      if a.department != b.department && b.department != c.department {
        OptStrLeTrans(a.department, b.department, c.department);
        if a.department == c.department {
          OptStrLeAntisym(a.department, b.department);
        }
      }
    }
  }

  lemma DepartmentLeTotalPreorder()
    ensures TotalPreorder(DepartmentLe)
  {
    forall a, b ensures DepartmentLe(a, b) || DepartmentLe(b, a) {
      OptStrLeTotal(a.deptType, b.deptType);
    }
    forall a, b, c | DepartmentLe(a, b) && DepartmentLe(b, c) ensures DepartmentLe(a, c) {
      if a.deptType != b.deptType && b.deptType != c.deptType {
        OptStrLeTrans(a.deptType, b.deptType, c.deptType);
        if a.deptType == c.deptType {
          OptStrLeAntisym(a.deptType, b.deptType);
        }
      }
    }
  }

  /** The enabled departments, in table order. */
  function Enabled(departments: seq<Department>): (r: seq<Department>)
    ensures forall x :: x in r <==> x in departments && x.enabled
  {
    if departments == [] then []
    else
      var last := departments[|departments| - 1];
      assert departments == departments[..|departments| - 1] + [last];
      Enabled(departments[..|departments| - 1]) + (if last.enabled then [last] else [])
  }

  /** The department names of the allowed indicators, in list order, with repeats. */
  function AllowedDeptsOf(items: seq<Indicator>, allowed: set<string>): seq<string>
  {
    if items == [] then []
    else
      var last := items[|items| - 1];
      AllowedDeptsOf(items[..|items| - 1], allowed)
        + (if last.department.Some? && last.department.value in allowed then [last.department.value] else [])
  }

  /** The indicators of department `d`, in list order. */
  function ItemsOf(items: seq<Indicator>, d: string): seq<Indicator>
  {
    if items == [] then []
    else
      var last := items[|items| - 1];
      ItemsOf(items[..|items| - 1], d) + (if last.department == Some(d) then [last] else [])
  }

  /** A name is listed exactly when it is allowed and some indicator carries it. */
  lemma {:induction false} AllowedDeptsMeaning(items: seq<Indicator>, allowed: set<string>)
    ensures forall d :: d in AllowedDeptsOf(items, allowed) <==> d in allowed && exists x :: x in items && x.department == Some(d)
  {
    if items != [] {
      var init, last := items[..|items| - 1], items[|items| - 1];
      AllowedDeptsMeaning(init, allowed);
      assert items == init + [last];
      forall d | d in allowed && (exists x :: x in items && x.department == Some(d))
        ensures d in AllowedDeptsOf(items, allowed)
      {
        var x :| x in items && x.department == Some(d);
        if x != last {
          assert x in init;
        }
      }
    }
  }

  /** The group of `d` is every indicator of `d`, and nothing else. */
  lemma {:induction false} ItemsOfMeaning(items: seq<Indicator>, d: string)
    ensures forall x :: x in ItemsOf(items, d) <==> x in items && x.department == Some(d)
  {
    if items != [] {
      var init := items[..|items| - 1];
      ItemsOfMeaning(init, d);
      assert items == init + [items[|items| - 1]];
    }
  }

  /** The `zdgz_by_dept` loop: `setdefault(dept, []).append(item)` for every
      indicator whose department is allowed; the dictionary keeps its keys
      in first-insertion order, which `order` records. */
  method GroupIndicators(items: seq<Indicator>, allowed: set<string>)
    returns (order: seq<string>, byDept: map<string, seq<Indicator>>)
    ensures order == Distinct(AllowedDeptsOf(items, allowed))
    ensures forall d :: d in byDept <==> d in order
    ensures forall d :: d in byDept ==> byDept[d] == ItemsOf(items, d)
  {
    hide ItemsOf, AllowedDeptsOf, Distinct;
    order, byDept := [], map[];
    assert items[..0] == [];
    GroupEmpty(allowed);
    for i := 0 to |items|
      invariant order == Distinct(AllowedDeptsOf(items[..i], allowed))
      invariant forall d :: d in byDept <==> d in order
      invariant forall d :: d in byDept ==> byDept[d] == ItemsOf(items[..i], d)
      invariant forall d :: d in allowed && d !in byDept ==> ItemsOf(items[..i], d) == []
      invariant forall d :: d in order ==> d in allowed
    {
      var item := items[i];
      assert items[..i + 1] == items[..i] + [item];
      GroupStep(items[..i], item, allowed);
      if item.department.Some? && item.department.value in allowed {
        var dept := item.department.value;
        if dept !in byDept {
          order := order + [dept];
        }
        byDept := byDept[dept := ListOr(byDept, dept) + [item]];
      }
    }
    assert items[..|items|] == items;
  }

  lemma GroupEmpty(allowed: set<string>)
    ensures Distinct(AllowedDeptsOf([], allowed)) == []
    ensures forall d :: ItemsOf([], d) == []
  {
  }

  /** One more indicator extends the listed names and its department's group. */
  lemma GroupStep(s: seq<Indicator>, x: Indicator, allowed: set<string>)
    ensures var seen := AllowedDeptsOf(s, allowed);
      AllowedDeptsOf(s + [x], allowed)
        == seen + (if x.department.Some? && x.department.value in allowed then [x.department.value] else [])
    ensures forall d :: ItemsOf(s + [x], d) == ItemsOf(s, d) + (if x.department == Some(d) then [x] else [])
    ensures x.department.Some? && x.department.value in allowed ==>
      Distinct(AllowedDeptsOf(s + [x], allowed)) ==
        var d := Distinct(AllowedDeptsOf(s, allowed));
        if x.department.value in d then d else d + [x.department.value]
    ensures !(x.department.Some? && x.department.value in allowed) ==>
      Distinct(AllowedDeptsOf(s + [x], allowed)) == Distinct(AllowedDeptsOf(s, allowed))
  {
    assert (s + [x])[..|s|] == s;
    var seen := AllowedDeptsOf(s, allowed);
    if x.department.Some? && x.department.value in allowed {
      assert (seen + [x.department.value])[..|seen|] == seen;
    } else {
      assert seen + [] == seen;
    }
  }

  /** `[d for d in all_departments if d['id'] in allowed_depts]`. */
  function Permitted(departments: seq<Department>, ids: set<int>): (r: seq<Department>)
    ensures forall x :: x in r <==> x in departments && x.id in ids
  {
    if departments == [] then []
    else
      var last := departments[|departments| - 1];
      assert departments == departments[..|departments| - 1] + [last];
      Permitted(departments[..|departments| - 1], ids) + (if last.id in ids then [last] else [])
  }

  /** The department names a role may score indicators of (none without a role). */
  function ZdgzAllowed(rows: seq<ZdgzPermission>, role: Option<int>): set<string>
  {
    if role.None? then {} else set d | d in DepartmentsOf(rows, role.value)
  }

  /** The department ids a role may rate satisfaction of (none without a role). */
  function MydAllowed(rows: seq<DeptPermission>, role: Option<int>): set<int>
  {
    if role.None? then {} else set x | x in rows && x.roleId == role.value :: x.deptId
  }

  /** What the index page shows. */
  datatype IndexPage = IndexPage(deptOrder: seq<string>, zdgzByDept: map<string, seq<Indicator>>, departments: seq<Department>)

  /** `index`: without a login code the redirect to the login page; else the
      indicators of the departments the role may score, grouped by department
      in query order, and the enabled departments it may rate. */
  method Index(db: Database, session: Session) returns (page: Option<IndexPage>)
    requires db.Valid()
    ensures page.None? <==> session.loginCode.None?
    ensures page.Some? ==>
      var items := SortBy(db.indicators, IndicatorLe);
      var allowed := ZdgzAllowed(db.zdgzPerms, session.roleId);
      && page.value.deptOrder == Distinct(AllowedDeptsOf(items, allowed))
      && (forall d :: d in page.value.zdgzByDept <==> d in page.value.deptOrder)
      && (forall d :: d in page.value.zdgzByDept ==> page.value.zdgzByDept[d] == ItemsOf(items, d))
      && page.value.departments == Permitted(SortBy(Enabled(db.departments), DepartmentLe), MydAllowed(db.deptPerms, session.roleId))
  {
    if session.loginCode.None? {
      return None;
    }
    var items := SortBy(db.indicators, IndicatorLe);
    var zdgzPerms := db.GetRoleZdgzPermissions();
    var allowed: set<string> := {};
    if session.roleId.Some? {
      allowed := set d | d in ListOr(zdgzPerms, session.roleId.value);
    }
    var order, byDept := GroupIndicators(items, allowed);
    var all := SortBy(Enabled(db.departments), DepartmentLe);
    var mydPerms := db.GetMydPermissions();
    var ids: set<int> := {};
    if session.roleId.Some? && session.roleId.value in mydPerms {
      ids := mydPerms[session.roleId.value].Keys;
    }
    MydAllowedKeys(db.deptPerms, mydPerms, session.roleId, ids);
    page := Some(IndexPage(order, byDept, Permitted(all, ids)));
  }

  /** The keys of the role's inner map are the departments it has a row for. */
  lemma MydAllowedKeys(rows: seq<DeptPermission>, m: map<int, map<int, real>>, role: Option<int>, ids: set<int>)
    requires forall r, d :: WeightIn(m, r, d) == LastDeptWeight(rows, r, d)
    requires ids == if role.Some? && role.value in m then m[role.value].Keys else {}
    ensures ids == MydAllowed(rows, role)
  {
    if role.Some? {
      var r := role.value;
      forall d | d in MydAllowed(rows, role) ensures d in ids {
        var x :| x in rows && x.roleId == r && x.deptId == d;
        assert WeightIn(m, r, d).Some?;
      }
      forall d | d in ids ensures d in MydAllowed(rows, role) {
        assert WeightIn(m, r, d).Some?;
        var w := LastDeptWeight(rows, r, d).value;
        assert DeptPermission(r, d, w) in rows;
      }
    }
  }

  // ---------------------------------------------------------------------------
  // save_score (jxkh.py:123-195)

  /** One field of the score form, after `int()` of the id in its name and
      `float()` of its value; `None` where that conversion raises. */
  datatype FormField =
    | ZdgzField(id: Option<int>, value: Option<real>)
    | SatisfactionField(id: Option<int>, value: Option<real>)
    | OtherField

  /** The route's guard: both session values present and truthy. */
  predicate SignedIn(s: Session)
  {
    s.roleId.Some? && s.roleId.value != 0 && s.loginCode.Some? && s.loginCode.value != ""
  }

  /** The scores the excellence check sees: every indicator field in form
      order, an unparsable value counting as 0. */
  function CheckValues(form: seq<FormField>): seq<real>
  {
    if form == [] then []
    else
      var f := form[|form| - 1];
      CheckValues(form[..|form| - 1]) + (if f.ZdgzField? then [GetOr(f.value, 0.0)] else [])
  }

  /** A field the indicator loop (`zdgz`) or the satisfaction loop handles. */
  predicate OfKind(f: FormField, zdgz: bool)
  {
    if zdgz then f.ZdgzField? else f.SatisfactionField?
  }

  /** One save loop over the form: an upsert per field of its kind, in form
      order, stopping at the first field whose id or value does not parse.
      The flag says whether the loop reached the end; the upserts before a
      failure stay, as each save commits on its own. */
  function Saves(rows: seq<Score>, code: string, role: int, form: seq<FormField>, zdgz: bool): (r: (seq<Score>, bool))
    requires KeysUnique(rows)
    ensures KeysUnique(r.0)
  {
    if form == [] then (rows, true)
    else
      var (before, ok) := Saves(rows, code, role, form[..|form| - 1], zdgz);
      var f := form[|form| - 1];
      if !ok || !OfKind(f, zdgz) then (before, ok)
      else if f.id.None? || f.value.None? then (before, false)
      else (Upsert(before, ScoreKey(code, role, f.id.value), f.value.value), true)
  }

  /** A field of the kind that does not parse. */
  predicate Malformed(f: FormField, zdgz: bool)
  {
    OfKind(f, zdgz) && (f.id.None? || f.value.None?)
  }

  /** The score the last field of the kind for `item` carries, if any. */
  function LastScore(form: seq<FormField>, item: int, zdgz: bool): Option<real>
  {
    if form == [] then None
    else
      var f := form[|form| - 1];
      if OfKind(f, zdgz) && f.id == Some(item) && f.value.Some? then Some(f.value.value)
      else LastScore(form[..|form| - 1], item, zdgz)
  }

  /** A save loop fails exactly when a field of its kind does not parse. When
      it runs through, every item of the form holds the score of its last
      field, every other item of this login code and role keeps its score,
      and the rows of other login codes or roles are untouched. */
  lemma {:induction false} SavesMeaning(rows: seq<Score>, code: string, role: int, form: seq<FormField>, zdgz: bool)
    requires KeysUnique(rows)
    ensures !Saves(rows, code, role, form, zdgz).1 <==> exists k :: 0 <= k < |form| && Malformed(form[k], zdgz)
    ensures Saves(rows, code, role, form, zdgz).1 ==>
      && (forall item :: Lookup(Saves(rows, code, role, form, zdgz).0, ScoreKey(code, role, item))
            == if LastScore(form, item, zdgz).Some? then LastScore(form, item, zdgz) else Lookup(rows, ScoreKey(code, role, item)))
      && (forall k: ScoreKey :: k.loginCode != code || k.roleId != role ==> Lookup(Saves(rows, code, role, form, zdgz).0, k) == Lookup(rows, k))
  {
    if form != [] {
      var init, f := form[..|form| - 1], form[|form| - 1];
      SavesMeaning(rows, code, role, init, zdgz);
      var (before, ok) := Saves(rows, code, role, init, zdgz);
      assert forall k :: 0 <= k < |init| ==> init[k] == form[k];
      if ok && OfKind(f, zdgz) && f.id.Some? && f.value.Some? {
        var key := ScoreKey(code, role, f.id.value);
        forall other | other != key
          ensures Lookup(Upsert(before, key, f.value.value), other) == Lookup(before, other)
        {
          UpsertOther(before, key, f.value.value, other);
        }
      }
    }
  }

  /** What a POST to `/score/save` answers. */
  datatype SaveOutcome =
    | NotSignedIn
    | Rejected(rejection: ExcellenceRejection)
    | Crashed
    | Submitted

  /** `save_score`: the excellence check on all indicator scores before any
      write; then the indicator loop, the satisfaction loop, `set_used` and
      `session.clear()`. A field that does not parse in a save loop raises
      (an error response) and leaves the upserts before it in place. */
  method SaveScore(db: Database, session: Session, form: seq<FormField>) returns (outcome: SaveOutcome, next: Session)
    requires db.Valid()
    modifies db`zdgzScores, db`mydScores, db`loginCodes
    ensures db.Valid()
    ensures !SignedIn(session) ==> outcome == NotSignedIn
    ensures SignedIn(session) && CheckExcellence(CheckValues(form)).Some? ==>
      outcome == Rejected(CheckExcellence(CheckValues(form)).value)
    ensures outcome.NotSignedIn? || outcome.Rejected? ==>
      && next == session
      && db.zdgzScores == old(db.zdgzScores) && db.mydScores == old(db.mydScores) && db.loginCodes == old(db.loginCodes)
    ensures SignedIn(session) && CheckExcellence(CheckValues(form)).None? ==>
      var code, role := session.loginCode.value, session.roleId.value;
      var z := Saves(old(db.zdgzScores), code, role, form, true);
      var m := Saves(old(db.mydScores), code, role, form, false);
      && db.zdgzScores == z.0
      && db.mydScores == (if z.1 then m.0 else old(db.mydScores))
      && (outcome == Submitted <==> z.1 && m.1)
      && (outcome == Submitted ==> db.loginCodes == MarkUsed(old(db.loginCodes), code) && next == Cleared)
      && (outcome != Submitted ==> outcome == Crashed && db.loginCodes == old(db.loginCodes) && next == session)
  {
    if !SignedIn(session) {
      return NotSignedIn, session;
    }
    var code, role := session.loginCode.value, session.roleId.value;
    var scores := ExcellenceInput(form);
    var check := CheckExcellence(scores);
    if check.Some? {
      return Rejected(check.value), session;
    }
    var ok := SaveLoop(db, code, role, form, true);
    if !ok {
      return Crashed, session;
    }
    ok := SaveLoop(db, code, role, form, false);
    if !ok {
      return Crashed, session;
    }
    db.SetUsed(code);
    return Submitted, Cleared;
  }

  /** The first loop of `save_score`: `float(value)`, 0 on `ValueError`. */
  method ExcellenceInput(form: seq<FormField>) returns (scores: seq<real>)
    ensures scores == CheckValues(form)
  {
    scores := [];
    for i := 0 to |form|
      invariant scores == CheckValues(form[..i])
    {
      assert form[..i + 1][..i] == form[..i];
      if form[i].ZdgzField? {
        var score := 0.0;
        if form[i].value.Some? {
          score := form[i].value.value;
        }
        scores := scores + [score];
      }
    }
    assert form[..|form|] == form;
  }

  /** One save loop of `save_score` over the fields of its kind. */
  method SaveLoop(db: Database, code: string, role: int, form: seq<FormField>, zdgz: bool) returns (ok: bool)
    requires db.Valid()
    modifies db`zdgzScores, db`mydScores
    ensures db.Valid()
    ensures zdgz ==> (db.zdgzScores, ok) == Saves(old(db.zdgzScores), code, role, form, true) && db.mydScores == old(db.mydScores)
    ensures !zdgz ==> (db.mydScores, ok) == Saves(old(db.mydScores), code, role, form, false) && db.zdgzScores == old(db.zdgzScores)
  {
    ghost var start := if zdgz then db.zdgzScores else db.mydScores;
    for i := 0 to |form|
      invariant db.Valid()
      invariant (if zdgz then db.zdgzScores else db.mydScores, true) == Saves(start, code, role, form[..i], zdgz)
      invariant zdgz ==> db.mydScores == old(db.mydScores)
      invariant !zdgz ==> db.zdgzScores == old(db.zdgzScores)
    {
      assert form[..i + 1][..i] == form[..i];
      var f := form[i];
      if OfKind(f, zdgz) {
        if f.id.None? || f.value.None? {
          SavesStop(start, code, role, form, zdgz, i + 1);
          return false;
        }
        if zdgz {
          db.SaveZdgzScore(code, role, f.id.value, f.value.value);
        } else {
          db.SaveMydScore(code, role, f.id.value, f.value.value);
        }
      }
    }
    assert form[..|form|] == form;
    return true;
  }

  /** Once a save loop has failed, the fields after it change nothing. */
  lemma {:induction false} SavesStop(rows: seq<Score>, code: string, role: int, form: seq<FormField>, zdgz: bool, j: nat)
    requires KeysUnique(rows) && j <= |form| && !Saves(rows, code, role, form[..j], zdgz).1
    ensures Saves(rows, code, role, form, zdgz) == Saves(rows, code, role, form[..j], zdgz)
    decreases |form|
  {
    if j < |form| {
      var init := form[..|form| - 1];
      assert init[..j] == form[..j];
      SavesStop(rows, code, role, init, zdgz, j);
    } else {
      assert form[..j] == form;
    }
  }
}
