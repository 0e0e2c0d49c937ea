/** The counts behind `get_login_code_stats_by_role` (database.py:624-691):
    per-role totals of login_no, and the unused accounts the query
    `... WHERE l.used = 0 ORDER BY r.id, l.account` hands to the grouping loop. */
module CodeStats {
  import opened Wrappers
  import opened Ordering
  import opened Schema

  /** `COUNT(l.account)` of one role. */
  function CountOfRole(codes: seq<LoginCode>, role: int): (r: nat)
    ensures r <= |codes|
  {
    if codes == [] then 0
    else (if codes[|codes| - 1].roleId == role then 1 else 0) + CountOfRole(codes[..|codes| - 1], role)
  }

  /** `SUM(CASE WHEN l.used = 1 THEN 1 ELSE 0 END)` of one role. */
  function UsedOfRole(codes: seq<LoginCode>, role: int): nat
  {
    if codes == [] then 0
    else (if codes[|codes| - 1].roleId == role && codes[|codes| - 1].used then 1 else 0) + UsedOfRole(codes[..|codes| - 1], role)
  }

  /** The same sum over the whole table. */
  function UsedCount(codes: seq<LoginCode>): (r: nat)
    ensures r <= |codes|
  {
    if codes == [] then 0
    else (if codes[|codes| - 1].used then 1 else 0) + UsedCount(codes[..|codes| - 1])
  }

  /** The role's unused accounts, in table order. */
  function UnusedAccounts(codes: seq<LoginCode>, role: int): seq<string>
  {
    if codes == [] then []
    else
      var last := codes[|codes| - 1];
      UnusedAccounts(codes[..|codes| - 1], role) + (if last.roleId == role && !last.used then [last.account] else [])
  }

  /** A role's used and unused codes add up to its total, so `total - used`
      is the number of its unused accounts. */
  lemma {:induction false} UnusedCountMatches(codes: seq<LoginCode>, role: int)
    ensures UsedOfRole(codes, role) <= CountOfRole(codes, role)
    ensures CountOfRole(codes, role) - UsedOfRole(codes, role) == |UnusedAccounts(codes, role)|
  {
    if codes != [] {
      UnusedCountMatches(codes[..|codes| - 1], role);
    }
  }

  /** The rows of `login_no l JOIN evaluator_role r ON l.role_id = r.id WHERE l.used = 0`. */
  function UnusedRows(codes: seq<LoginCode>, roleIds: set<int>): (r: seq<LoginCode>)
    ensures forall x :: x in r <==> x in codes && !x.used && x.roleId in roleIds
  {
    if codes == [] then []
    else
      var last := codes[|codes| - 1];
      assert codes == codes[..|codes| - 1] + [last];
      UnusedRows(codes[..|codes| - 1], roleIds) + (if !last.used && last.roleId in roleIds then [last] else [])
  }

  /** `ORDER BY r.id, l.account`. */
  predicate CodeLe(a: LoginCode, b: LoginCode)
  {
    a.roleId < b.roleId || (a.roleId == b.roleId && StrLe(a.account, b.account))
  }

  lemma CodeLeTotalPreorder()
    ensures TotalPreorder(CodeLe)
  {
    forall a, b ensures CodeLe(a, b) || CodeLe(b, a) {
      StrLeTotal(a.account, b.account);
    }
    forall a, b, c | CodeLe(a, b) && CodeLe(b, c) ensures CodeLe(a, c) {
      if a.roleId == b.roleId == c.roleId {
        StrLeTrans(a.account, b.account, c.account);
      }
    }
  }

  /** What `unused_map.setdefault(role_id, []).append(account)` collects for
      one role from the query rows, in row order. */
  function AccountsOf(rows: seq<LoginCode>, role: int): (r: seq<string>)
    ensures forall a :: a in r ==> exists x :: x in rows && x.roleId == role && x.account == a
  {
    if rows == [] then []
    else
      var last := rows[|rows| - 1];
      assert rows == rows[..|rows| - 1] + [last];
      AccountsOf(rows[..|rows| - 1], role) + (if last.roleId == role then [last.account] else [])
  }

  lemma {:induction false} AccountsOfAppend(a: seq<LoginCode>, b: seq<LoginCode>, role: int)
    ensures AccountsOf(a + b, role) == AccountsOf(a, role) + AccountsOf(b, role)
  {
    if b == [] {
      assert a + b == a;
    } else {
      var init := b[..|b| - 1];
      AccountsOfAppend(a, init, role);
      assert (a + b)[..|a + b| - 1] == a + init;
      assert (a + b)[|a + b| - 1] == b[|b| - 1];
    }
  }

  /** Reordering the rows reorders what is collected for each role. */
  lemma {:induction false} AccountsOfPermutation(a: seq<LoginCode>, b: seq<LoginCode>, role: int)
    requires multiset(a) == multiset(b)
    ensures multiset(AccountsOf(a, role)) == multiset(AccountsOf(b, role))
    decreases |a|
  {
    hide AccountsOf;
    if a != [] {
      var x := a[|a| - 1];
      var init := a[..|a| - 1];
      assert x in multiset(b) by {
        assert a[|a| - 1] in a;
      }
      var k :| 0 <= k < |b| && b[k] == x;
      var rest := b[..k] + b[k + 1..];
      AccountsOfRemove(b, k, role);
      AccountsOfRemove(a, |a| - 1, role);
      assert a[..|a| - 1] + a[|a|..] == init;
      assert multiset(init) + multiset{x} == multiset(rest) + multiset{x};
      assert multiset(init) == multiset(rest) by {
        MultisetCancel(multiset(init), multiset(rest), x);
      }
      AccountsOfPermutation(init, rest, role);
    }
  }

  lemma MultisetCancel(p: multiset<LoginCode>, q: multiset<LoginCode>, x: LoginCode)
    requires p + multiset{x} == q + multiset{x}
    ensures p == q
  {
    forall y ensures p[y] == q[y] {
      assert (p + multiset{x})[y] == (q + multiset{x})[y];
    }
  }

  /** Taking one row out takes its contribution out. */
  lemma AccountsOfRemove(b: seq<LoginCode>, k: nat, role: int)
    requires k < |b|
    ensures multiset(b) == multiset(b[..k] + b[k + 1..]) + multiset{b[k]}
    ensures multiset(AccountsOf(b, role)) == multiset(AccountsOf(b[..k] + b[k + 1..], role)) + multiset(AccountsOf([b[k]], role))
  {
    var x := b[k];
    assert b == (b[..k] + [x]) + b[k + 1..];
    AccountsOfAppend(b[..k] + [x], b[k + 1..], role);
    AccountsOfAppend(b[..k], [x], role);
    AccountsOfAppend(b[..k], b[k + 1..], role);
  }

  /** Rows sorted by (role, account) yield each role's accounts in ascending order. */
  lemma {:induction false} AccountsOfSorted(rows: seq<LoginCode>, role: int)
    requires SortedBy(rows, CodeLe)
    ensures SortedBy(AccountsOf(rows, role), StrLe)
  {
    if rows != [] {
      var init, last := rows[..|rows| - 1], rows[|rows| - 1];
      AccountsOfSorted(init, role);
      var before := AccountsOf(init, role);
      if last.roleId == role {
        forall a | a in before ensures StrLe(a, last.account) {
          var x :| x in init && x.roleId == role && x.account == a;
          var m :| 0 <= m < |init| && init[m] == x;
          assert CodeLe(rows[m], rows[|rows| - 1]);
        }
        var r := before + [last.account];
        forall i, j | 0 <= i < j < |r| ensures StrLe(r[i], r[j]) {
          if j == |before| {
            assert r[i] in before;
          } else {
            assert r[i] == before[i] && r[j] == before[j];
          }
        }
      }
    }
  }

  /** The unused accounts the query returns for a role that exists, collected
      from the rows in the order the table stores them. */
  lemma {:induction false} AccountsOfUnusedRows(codes: seq<LoginCode>, roleIds: set<int>, role: int)
    requires role in roleIds
    ensures AccountsOf(UnusedRows(codes, roleIds), role) == UnusedAccounts(codes, role)
  {
    if codes != [] {
      var init, last := codes[..|codes| - 1], codes[|codes| - 1];
      AccountsOfUnusedRows(init, roleIds, role);
      var extra := if !last.used && last.roleId in roleIds then [last] else [];
      AccountsOfAppend(UnusedRows(init, roleIds), extra, role);
      if extra != [] {
        assert extra[..0] == [];
      }
    }
  }

  /** The unused-account list `get_login_code_stats_by_role` reports for an
      existing role: that role's unused accounts, each once per row, in
      ascending order. */
  lemma UnusedCodesMeaning(codes: seq<LoginCode>, roleIds: set<int>, role: int)
    requires role in roleIds
    ensures var listed := AccountsOf(SortBy(UnusedRows(codes, roleIds), CodeLe), role);
      SortedBy(listed, StrLe) && multiset(listed) == multiset(UnusedAccounts(codes, role))
  {
    var rows := UnusedRows(codes, roleIds);
    CodeLeTotalPreorder();
    SortBySorted(rows, CodeLe);
    AccountsOfSorted(SortBy(rows, CodeLe), role);
    AccountsOfPermutation(SortBy(rows, CodeLe), rows, role);
    AccountsOfUnusedRows(codes, roleIds, role);
  }
}
