/** login_code.py: the random credential generator and the per-role batch
    that refills login_no. The values `secrets.choice` and `random.shuffle`
    draw are parameters: the model holds for every outcome of the draws. */
module LoginCodes {
  import opened Schema
  import opened CodeStats
  import opened Storage

  /** The alphabet of the one special character. */
  const SpecialChars: string := "!@#$%&*_"

  /** `string.ascii_letters + string.digits`: a-z, A-Z, 0-9 in that order. */
  const LettersDigits: string := CharRange('a', 26) + CharRange('A', 26) + CharRange('0', 10)

  /** `n` consecutive code points from `first`. */
  function CharRange(first: char, n: nat): (r: string)
    requires first as int + n <= 0xD800
    ensures |r| == n
    ensures forall k :: 0 <= k < n ==> first <= r[k] && r[k] as int < first as int + n
  {
    seq(n, k requires 0 <= k < n => (first as int + k) as char)
  }

  /** An ASCII letter or digit. */
  predicate AsciiAlnum(c: char)
  {
    ('a' <= c <= 'z') || ('A' <= c <= 'Z') || ('0' <= c <= '9')
  }

  /** The length the batch generator asks for (the default argument). */
  const DefaultLength: int := 10

  /** The random values one call of `generate_random_code` consumes: the
      special-character draw, one draw per further character, and one draw
      per step of the shuffle. Each draw selects modulo the range it is
      drawn from. */
  datatype CodeDraws = CodeDraws(special: nat, picks: seq<nat>, swaps: seq<nat>)

  /** One batch entry of `role_count_map`. */
  datatype RoleCount = RoleCount(roleId: int, count: int)

  /** The length of the list before the shuffle: the special character plus
      `length - 1` others, which is none when `length` is below 1. */
  function CodeSize(length: int): (n: nat)
    ensures n >= 1
    ensures length >= 1 ==> n == length
  {
    if length >= 1 then length else 1
  }

  /** The draws cover one call with the given length. */
  predicate DrawsFit(d: CodeDraws, length: int)
  {
    |d.picks| == CodeSize(length) - 1 && |d.swaps| == CodeSize(length) - 1
  }

  /** The list as built before the shuffle: the special character first. */
  function Drawn(d: CodeDraws): (s: string)
    ensures |s| == |d.picks| + 1
  {
    [SpecialChars[d.special % |SpecialChars|]]
      + seq(|d.picks|, k requires 0 <= k < |d.picks| => LettersDigits[d.picks[k] % |LettersDigits|])
  }

  /** Exactly one character from the special alphabet; all others are
      letters or digits. */
  predicate CodeShape(s: string)
  {
    exists i :: 0 <= i < |s| && s[i] in SpecialChars && Others(s, i)
  }

  /** Every character other than the one at `i` is a letter or digit. */
  predicate Others(s: string, i: int)
  {
    forall j :: 0 <= j < |s| && j != i ==> AsciiAlnum(s[j])
  }

  /** The drawing alphabet holds exactly the ASCII letters and digits, 62 of them. */
  lemma LettersDigitsAlnum()
    ensures |LettersDigits| == 62
    ensures forall c :: c in LettersDigits <==> AsciiAlnum(c)
  {
    var lower, upper, digits := CharRange('a', 26), CharRange('A', 26), CharRange('0', 10);
    forall c | AsciiAlnum(c) ensures c in LettersDigits {
      if 'a' <= c <= 'z' {
        assert lower[c as int - 'a' as int] == c;
      } else if 'A' <= c <= 'Z' {
        assert upper[c as int - 'A' as int] == c;
      } else {
        assert digits[c as int - '0' as int] == c;
      }
    }
  }

  /** No special character is a letter or digit, so a shaped code has exactly
      one special character. */
  lemma AlphabetsDisjoint()
    ensures forall c :: c in SpecialChars ==> !AsciiAlnum(c)
    ensures forall c :: c in SpecialChars ==> c !in LettersDigits
  {
    LettersDigitsAlnum();
  }

  /** `generate_random_code`: the list of drawn characters, shuffled in place,
      then joined. */
  method GenerateRandomCode(length: int, d: CodeDraws) returns (code: string)
    requires DrawsFit(d, length)
    ensures |code| == CodeSize(length)
    ensures multiset(code) == multiset(Drawn(d))
    ensures CodeShape(code)
  {
    var drawn := Drawn(d);
    var n := |drawn|;
    LettersDigitsAlnum();
    assert Others(drawn, 0) by {
      assert forall k :: 1 <= k < n ==> drawn[k] in LettersDigits;
    }
    var a := new char[n](k requires 0 <= k < n => drawn[k]);
    assert a[..] == drawn;
    Shuffle(a, d.swaps);
    code := a[..];
  }

  /** `random.shuffle`, Fisher-Yates as CPython does it: from the last index
      down to 1, swap each position with one drawn at or below it. Only the
      order changes, so the shape of a code survives. */
  method Shuffle(a: array<char>, swaps: seq<nat>)
    requires |swaps| == a.Length - 1
    requires CodeShape(a[..])
    modifies a
    ensures multiset(a[..]) == multiset(old(a[..]))
    ensures CodeShape(a[..])
  {
    var n := a.Length;
    ghost var pos :| 0 <= pos < n && a[pos] in SpecialChars && Others(a[..], pos);
    var i := n - 1;
    while i > 0
      invariant 0 <= i < n
      invariant multiset(a[..]) == multiset(old(a[..]))
      invariant 0 <= pos < n && a[..][pos] in SpecialChars && Others(a[..], pos)
    {
      var j := swaps[n - 1 - i] % (i + 1);
      ghost var s := a[..];
      a[i], a[j] := a[j], a[i];
      assert a[..] == s[i := s[j]][j := s[i]];
      pos := SwapShape(s, i, j, pos);
      i := i - 1;
    }
  }

  /** Swapping two characters moves the special character at most from one
      end of the swap to the other. */
  lemma SwapShape(s: string, i: int, j: int, pos: int) returns (moved: int)
    requires 0 <= i < |s| && 0 <= j < |s| && 0 <= pos < |s| && s[pos] in SpecialChars && Others(s, pos)
    ensures var t := s[i := s[j]][j := s[i]];
      0 <= moved < |t| && t[moved] in SpecialChars && Others(t, moved)
  {
    moved := if pos == i then j else if pos == j then i else pos;
  }

  /** The codes of one role's share: `max(count, 0)`, as `range(count)` is
      empty for a count below 1. */
  function Share(c: RoleCount): nat
  {
    if c.count > 0 then c.count else 0
  }

  /** The number of rows the batch inserts. */
  function Total(counts: seq<RoleCount>): nat
  {
    if counts == [] then 0 else Total(counts[..|counts| - 1]) + Share(counts[|counts| - 1])
  }

  /** The number of rows the batch inserts for `role`. */
  function CountFor(counts: seq<RoleCount>, role: int): nat
  {
    if counts == [] then 0
    else CountFor(counts[..|counts| - 1], role) + (if counts[|counts| - 1].roleId == role then Share(counts[|counts| - 1]) else 0)
  }

  /** A dictionary's keys are distinct. */
  predicate KeysDistinct(counts: seq<RoleCount>)
  {
    forall i, j :: 0 <= i < j < |counts| ==> counts[i].roleId != counts[j].roleId
  }

  /** A row as the batch writes it: unused, with account and password of the
      default shape, drawn independently (nothing makes them differ). */
  predicate Issued(c: LoginCode)
  {
    && !c.used
    && |c.account| == DefaultLength && CodeShape(c.account)
    && |c.password| == DefaultLength && CodeShape(c.password)
  }

  /** The role of each row the batch writes, in insertion order: each role
      of the map, in map order, repeated its share of times. */
  function RoleOrder(counts: seq<RoleCount>): (r: seq<int>)
    ensures |r| == Total(counts)
  {
    if counts == [] then []
    else
      var last := counts[|counts| - 1];
      RoleOrder(counts[..|counts| - 1]) + seq(Share(last), _ => last.roleId)
  }

  /** Row `c` belongs to `role`, and its account and password are the
      shuffles of what the draws `a` and `p` picked. */
  ghost predicate MadeFrom(c: LoginCode, role: int, a: CodeDraws, p: CodeDraws)
  {
    c.roleId == role && multiset(c.account) == multiset(Drawn(a)) && multiset(c.password) == multiset(Drawn(p))
  }

  /** `generate_login_codes_by_role`: `DELETE FROM login_no`, then for each
      role of the map, in order, `count` new rows. Draw `2t` and `2t + 1`
      make the account and the password of the `t`-th row, so the table
      afterwards holds this run's rows and nothing else. */
  method GenerateLoginCodesByRole(db: Database, counts: seq<RoleCount>, draws: seq<CodeDraws>)
    requires |draws| == 2 * Total(counts)
    requires forall k :: 0 <= k < |draws| ==> DrawsFit(draws[k], DefaultLength)
    modifies db`loginCodes
    ensures |db.loginCodes| == Total(counts)
    ensures forall k :: 0 <= k < |db.loginCodes| ==>
      MadeFrom(db.loginCodes[k], RoleOrder(counts)[k], draws[2 * k], draws[2 * k + 1])
    ensures forall role :: CountOfRole(db.loginCodes, role) == CountFor(counts, role)
    ensures forall k :: 0 <= k < |db.loginCodes| ==> Issued(db.loginCodes[k])
  {
    db.ClearLoginCodes();
    assert counts[..0] == [];
    hide MadeFrom, Issued, CountOfRole, CountFor, RoleOrder, Total;
    for i := 0 to |counts|
      invariant |db.loginCodes| == Total(counts[..i]) <= Total(counts)
      invariant forall k :: 0 <= k < |db.loginCodes| ==>
        MadeFrom(db.loginCodes[k], RoleOrder(counts[..i])[k], draws[2 * k], draws[2 * k + 1])
      invariant forall role :: CountOfRole(db.loginCodes, role) == CountFor(counts[..i], role)
      invariant forall k :: 0 <= k < |db.loginCodes| ==> Issued(db.loginCodes[k])
    {
      var c := counts[i];
      PrefixStep(counts, i);
      TotalPrefix(counts, i + 1);
      ghost var before := db.loginCodes;
      InsertShare(db, c, draws);
      ghost var order := RoleOrder(counts[..i + 1]);
      forall k | 0 <= k < |db.loginCodes|
        ensures MadeFrom(db.loginCodes[k], order[k], draws[2 * k], draws[2 * k + 1])
      {
        if k < |before| {
          assert db.loginCodes[k] == db.loginCodes[..|before|][k];
        }
      }
    }
    assert counts[..|counts|] == counts;
  }

  /** One more entry of the map: its share extends the total, the insertion
      order and its role's count. */
  lemma PrefixStep(counts: seq<RoleCount>, i: nat)
    requires i < |counts|
    ensures Total(counts[..i + 1]) == Total(counts[..i]) + Share(counts[i])
    ensures RoleOrder(counts[..i + 1]) == RoleOrder(counts[..i]) + seq(Share(counts[i]), _ => counts[i].roleId)
    ensures forall role :: (CountFor(counts[..i + 1], role) ==
      CountFor(counts[..i], role) + (if counts[i].roleId == role then Share(counts[i]) else 0))
  {
    assert counts[..i + 1][..i] == counts[..i];
  }

  /** The inner loop: `count` rows for one role, the row at position `n`
      made from draws `2n` and `2n + 1`. */
  method InsertShare(db: Database, c: RoleCount, draws: seq<CodeDraws>)
    requires 2 * (|db.loginCodes| + Share(c)) <= |draws|
    requires forall k :: 0 <= k < |draws| ==> DrawsFit(draws[k], DefaultLength)
    modifies db`loginCodes
    ensures |db.loginCodes| == |old(db.loginCodes)| + Share(c)
    ensures db.loginCodes[..|old(db.loginCodes)|] == old(db.loginCodes)
    ensures forall k :: |old(db.loginCodes)| <= k < |db.loginCodes| ==>
      MadeFrom(db.loginCodes[k], c.roleId, draws[2 * k], draws[2 * k + 1]) && Issued(db.loginCodes[k])
    ensures forall role :: (CountOfRole(db.loginCodes, role) ==
      CountOfRole(old(db.loginCodes), role) + (if role == c.roleId then Share(c) else 0))
  {
    hide MadeFrom, Issued, CountOfRole;
    ghost var start := db.loginCodes;
    var t := 0;
    while t < c.count
      invariant 0 <= t <= Share(c)
      invariant |db.loginCodes| == |start| + t
      invariant db.loginCodes[..|start|] == start
      invariant forall k :: |start| <= k < |db.loginCodes| ==>
        MadeFrom(db.loginCodes[k], c.roleId, draws[2 * k], draws[2 * k + 1]) && Issued(db.loginCodes[k])
      invariant forall role :: CountOfRole(db.loginCodes, role) == CountOfRole(start, role) + (if role == c.roleId then t else 0)
    {
      var n := |db.loginCodes|;
      var account := GenerateRandomCode(DefaultLength, draws[2 * n]);
      var password := GenerateRandomCode(DefaultLength, draws[2 * n + 1]);
      ghost var before := db.loginCodes;
      db.CreateLoginCode(c.roleId, account, password);
      NewRow(account, password, c.roleId, draws[2 * n], draws[2 * n + 1]);
      CountOfRoleSnoc(before, LoginCode(account, password, c.roleId, false));
      assert db.loginCodes[..|start|] == before[..|start|];
      t := t + 1;
    }
  }

  /** A row built from two calls of the generator is issued and made from
      their draws. */
  lemma NewRow(account: string, password: string, role: int, a: CodeDraws, p: CodeDraws)
    requires |account| == CodeSize(DefaultLength) && multiset(account) == multiset(Drawn(a)) && CodeShape(account)
    requires |password| == CodeSize(DefaultLength) && multiset(password) == multiset(Drawn(p)) && CodeShape(password)
    ensures MadeFrom(LoginCode(account, password, role, false), role, a, p)
    ensures Issued(LoginCode(account, password, role, false))
  {
  }

  /** Appending a row adds one to its role's count and nothing to any other. */
  lemma CountOfRoleSnoc(codes: seq<LoginCode>, x: LoginCode)
    ensures forall role :: (CountOfRole(codes + [x], role) ==
      CountOfRole(codes, role) + (if x.roleId == role then 1 else 0))
  {
    assert (codes + [x])[..|codes|] == codes;
  }

  /** Each role appears in the insertion order as often as the batch gives
      it rows. */
  lemma {:induction false} RoleOrderCounts(counts: seq<RoleCount>, role: int)
    ensures multiset(RoleOrder(counts))[role] == CountFor(counts, role)
  {
    if counts != [] {
      var init, last := counts[..|counts| - 1], counts[|counts| - 1];
      RoleOrderCounts(init, role);
      RepeatCount(last.roleId, Share(last), role);
      assert RoleOrder(counts) == RoleOrder(init) + seq(Share(last), _ => last.roleId);
    }
  }

  lemma {:induction false} RepeatCount(x: int, n: nat, role: int)
    ensures multiset(seq(n, _ => x))[role] == if role == x then n else 0
  {
    if n > 0 {
      RepeatCount(x, n - 1, role);
      assert seq(n, _ => x) == seq(n - 1, _ => x) + [x];
    }
  }

  /** A prefix of the map inserts no more rows than the whole map. */
  lemma {:induction false} TotalPrefix(counts: seq<RoleCount>, i: nat)
    requires i <= |counts|
    ensures Total(counts[..i]) <= Total(counts)
    decreases |counts|
  {
    if i < |counts| {
      var init := counts[..|counts| - 1];
      assert init[..i] == counts[..i];
      TotalPrefix(init, i);
    } else {
      assert counts[..i] == counts;
    }
  }

  /** With distinct keys, a role of the map gets exactly its count (none for
      a count below 1), and a role outside the map gets no row. */
  lemma {:induction false} CountForMeaning(counts: seq<RoleCount>, role: int)
    requires KeysDistinct(counts)
    ensures forall c :: c in counts && c.roleId == role ==> CountFor(counts, role) == Share(c)
    ensures (forall c :: c in counts ==> c.roleId != role) ==> CountFor(counts, role) == 0
  {
    if counts != [] {
      var init, last := counts[..|counts| - 1], counts[|counts| - 1];
      CountForMeaning(init, role);
      forall c | c in counts && c.roleId == role ensures CountFor(counts, role) == Share(c) {
        if c != last {
          assert c in init;
        } else {
          assert forall x :: x in init ==> x.roleId != role by {
            forall x | x in init ensures x.roleId != role {
              var k :| 0 <= k < |init| && init[k] == x;
              assert counts[k].roleId != counts[|counts| - 1].roleId;
            }
          }
        }
      }
      if forall c :: c in counts ==> c.roleId != role {
        assert last in counts;
        assert forall x :: x in init ==> x in counts;
      }
    }
  }
}
