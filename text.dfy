/** Text normalisation of `Database.clean_text` (database.py), applied to every
    spreadsheet cell the indicator import keeps, and Python's `str.strip`,
    which the login form and the department description also use. */
module Text {
  import opened Wrappers

  /** The characters `clean_text` deletes outright: no-break space, the three
      zero-width characters, the byte-order mark and the ideographic space. */
  const Invisible: seq<char> := ['\U{A0}', '\U{200B}', '\U{200C}', '\U{200D}', '\U{FEFF}', '\U{3000}']

  /** Python's `str.isspace`: the characters `str.strip()` removes. */
  predicate IsSpace(c: char)
  {
    || c == ' ' || ('\t' <= c <= '\r') || ('\U{1C}' <= c <= '\U{1F}') || c == '\U{85}'
    || c == '\U{A0}' || c == '\U{1680}' || ('\U{2000}' <= c <= '\U{200A}')
    || c == '\U{2028}' || c == '\U{2029}' || c == '\U{202F}' || c == '\U{205F}' || c == '\U{3000}'
  }

  /** `s` with every character listed in `cs` removed, the rest kept in order
      (a chain of `str.replace(ch, '')`). */
  function DropChars(s: string, cs: seq<char>): (r: string)
    ensures forall c :: c in r ==> c in s && c !in cs
  {
    if s == [] then []
    else
      assert s == [s[0]] + s[1..];
      (if s[0] in cs then [] else [s[0]]) + DropChars(s[1..], cs)
  }

  /** Removing the characters of `cs` and then `c` is removing those of `cs + [c]`. */
  lemma {:induction false} DropCharsThen(s: string, cs: seq<char>, c: char)
    ensures DropChars(DropChars(s, cs), [c]) == DropChars(s, cs + [c])
  {
    if s != [] {
      var x, t := s[0], s[1..];
      DropCharsThen(t, cs, c);
      var u := DropChars(s, cs);
      assert x in cs + [c] <==> x in cs || x == c;
      if x in cs {
        assert u == DropChars(t, cs);
      } else {
        assert u == [x] + DropChars(t, cs);
        assert u[0] == x && u[1..] == DropChars(t, cs);
      }
    }
  }

  /** `str.replace('\r\n', '\n')`: each CR immediately followed by LF, scanning
      left to right, is dropped. */
  function ReplaceCrLf(s: string): (r: string)
    ensures forall c :: c in r ==> c in s
    ensures '\r' !in s ==> r == s
    decreases |s|
  {
    if |s| >= 2 && s[0] == '\r' && s[1] == '\n' then
      ['\n'] + ReplaceCrLf(s[2..])
    else if s == [] then []
    else
      assert s == [s[0]] + s[1..];
      [s[0]] + ReplaceCrLf(s[1..])
  }

  /** `str.replace('\r', '\n')`. */
  function ReplaceCr(s: string): (r: string)
    ensures |r| == |s|
    ensures forall i :: 0 <= i < |s| ==> r[i] == (if s[i] == '\r' then '\n' else s[i])
  {
    if s == [] then []
    else [if s[0] == '\r' then '\n' else s[0]] + ReplaceCr(s[1..])
  }

  /** Both newline replacements: afterwards no carriage return is left and
      nothing but line feeds was introduced. */
  function NormalizeNewlines(s: string): (r: string)
    ensures '\r' !in r
    ensures forall c :: c in r ==> c in s || c == '\n'
    ensures '\r' !in s ==> r == s
  {
    var t := ReplaceCrLf(s);
    var r := ReplaceCr(t);
    assert forall i :: 0 <= i < |r| ==> r[i] in t || r[i] == '\n';
    r
  }

  /** `str.lstrip()`: the longest suffix of `s` that does not start with whitespace. */
  function TrimStart(s: string): (r: string)
    ensures |r| <= |s| && r == s[|s| - |r|..]
    ensures forall k :: 0 <= k < |s| - |r| ==> IsSpace(s[k])
    ensures r == [] || !IsSpace(r[0])
  {
    if |s| > 0 && IsSpace(s[0]) then TrimStart(s[1..]) else s
  }

  /** `str.rstrip()`: the longest prefix of `s` that does not end with whitespace. */
  function TrimEnd(s: string): (r: string)
    ensures |r| <= |s| && r == s[..|r|]
    ensures forall k :: |r| <= k < |s| ==> IsSpace(s[k])
    ensures r == [] || !IsSpace(r[|r| - 1])
  {
    if |s| > 0 && IsSpace(s[|s| - 1]) then TrimEnd(s[..|s| - 1]) else s
  }

  /** A leading whitespace character is stripped away. */
  lemma StripLeadingSpace(c: char, t: string)
    requires IsSpace(c)
    ensures Strip([c] + t) == Strip(t)
  {
    assert ([c] + t)[1..] == t;
  }

  /** `str.strip()`: `s` without its leading and trailing whitespace. */
  function Strip(s: string): (r: string)
    ensures r == [] || (!IsSpace(r[0]) && !IsSpace(r[|r| - 1]))
    ensures forall c :: c in r ==> c in s
    ensures (s == [] || (!IsSpace(s[0]) && !IsSpace(s[|s| - 1]))) ==> r == s
  {
    var t := TrimStart(s);
    var r := TrimEnd(t);
    assert r == [] || r[0] == t[0];
    assert forall c :: c in t ==> c in s;
    r
  }

  /** Three line feeds start at index `i` of `s`. */
  predicate TripleAt(s: string, i: int)
  {
    0 <= i && i + 2 < |s| && s[i] == '\n' && s[i + 1] == '\n' && s[i + 2] == '\n'
  }

  /** No three consecutive line feeds. */
  predicate NoTripleNewline(s: string)
  {
    forall i | 0 <= i < |s| :: !TripleAt(s, i)
  }

  /** `re.sub(r'\n{3,}', '\n\n', s)`, computed by dropping a line feed
      whenever two more follow it. `CollapseIsSubstitution` shows this is the
      run-by-run substitution the regular expression performs. */
  function CollapseNewlines(s: string): (r: string)
    ensures |r| <= |s|
    ensures forall c :: c in r ==> c in s
    ensures |r| == 0 <==> |s| == 0
    ensures |s| > 0 ==> r[0] == s[0] && r[|r| - 1] == s[|s| - 1]
    ensures |r| >= 2 && r[0] == '\n' && r[1] == '\n' ==> |s| >= 2 && s[1] == '\n'
    ensures NoTripleNewline(r)
  {
    if TripleAt(s, 0) then
      CollapseNewlines(s[1..])
    else if s == [] then []
    else
      assert s == [s[0]] + s[1..];
      var t := CollapseNewlines(s[1..]);
      var r := [s[0]] + t;
      assert forall i | 1 <= i < |r| :: TripleAt(r, i) ==> TripleAt(t, i - 1);
      r
  }

  /** The number of line feeds `s` starts with. */
  function LeadingLf(s: string): (n: nat)
    ensures n <= |s|
    ensures forall k :: 0 <= k < n ==> s[k] == '\n'
    ensures n < |s| ==> s[n] != '\n'
  {
    if s != [] && s[0] == '\n' then 1 + LeadingLf(s[1..]) else 0
  }

  /** The substitution as the regular expression performs it, one maximal
      run at a time: every other character is copied, and a maximal run of
      line feeds is copied when it is shorter than three and replaced by
      exactly two line feeds otherwise. */
  function SubstituteRuns(s: string): string
    decreases |s|
  {
    if s == [] then []
    else if s[0] != '\n' then [s[0]] + SubstituteRuns(s[1..])
    else
      var n := LeadingLf(s);
      (if n >= 3 then "\n\n" else s[..n]) + SubstituteRuns(s[n..])
  }

  /** The line-feed-dropping definition is the regular-expression substitution. */
  lemma {:induction false} CollapseIsSubstitution(s: string)
    ensures CollapseNewlines(s) == SubstituteRuns(s)
    decreases |s|
  {
    if s != [] {
      if s[0] != '\n' {
        assert !TripleAt(s, 0);
        CollapseIsSubstitution(s[1..]);
      } else {
        var n := LeadingLf(s);
        CollapseRun(s, n);
        CollapseIsSubstitution(s[n..]);
      }
    }
  }

  /** The characters of `s` other than line feeds, in order. */
  function WithoutLf(s: string): string
  {
    if s == [] then [] else (if s[0] == '\n' then [] else [s[0]]) + WithoutLf(s[1..])
  }

  lemma {:induction false} WithoutLfAppend(a: string, b: string)
    ensures WithoutLf(a + b) == WithoutLf(a) + WithoutLf(b)
  {
    if a == [] {
      assert a + b == b;
    } else {
      assert (a + b)[1..] == a[1..] + b;
      WithoutLfAppend(a[1..], b);
    }
  }

  lemma {:induction false} WithoutLfOfRun(s: string)
    requires forall k :: 0 <= k < |s| ==> s[k] == '\n'
    ensures WithoutLf(s) == []
  {
    if s != [] {
      WithoutLfOfRun(s[1..]);
    }
  }

  /** The collapse changes line feeds only: every other character is kept,
      in order. */
  lemma {:induction false} CollapseKeepsText(s: string)
    ensures WithoutLf(CollapseNewlines(s)) == WithoutLf(s)
  {
    CollapseIsSubstitution(s);
    SubstituteKeepsText(s);
  }

  lemma {:induction false} SubstituteKeepsText(s: string)
    ensures WithoutLf(SubstituteRuns(s)) == WithoutLf(s)
    decreases |s|
  {
    if s != [] {
      if s[0] != '\n' {
        SubstituteKeepsText(s[1..]);
        WithoutLfAppend([s[0]], SubstituteRuns(s[1..]));
        assert [s[0]][1..] == [];
      } else {
        var n := LeadingLf(s);
        var run: string := if n >= 3 then "\n\n" else s[..n];
        SubstituteKeepsText(s[n..]);
        WithoutLfAppend(run, SubstituteRuns(s[n..]));
        WithoutLfOfRun(run);
        WithoutLfAppend(s[..n], s[n..]);
        WithoutLfOfRun(s[..n]);
        assert s[..n] + s[n..] == s;
      }
    }
  }

  /** A leading run of `n` line feeds collapses to two when `n` is three or
      more, and is copied otherwise; the rest is collapsed on its own. */
  lemma {:induction false} CollapseRun(s: string, n: nat)
    requires n == LeadingLf(s)
    ensures CollapseNewlines(s) == (if n >= 3 then "\n\n" else s[..n]) + CollapseNewlines(s[n..])
    decreases n, 1
  {
    if n == 0 {
      assert s[..0] == [] && s[0..] == s;
    } else if n >= 3 {
      CollapseLongRun(s, n);
    } else {
      CollapseShortRun(s, n);
    }
  }

  lemma {:induction false} CollapseLongRun(s: string, n: nat)
    requires n == LeadingLf(s) && n >= 3
    ensures CollapseNewlines(s) == "\n\n" + CollapseNewlines(s[n..])
    decreases n, 0
  {
    hide CollapseNewlines;
    var t := s[1..];
    assert LeadingLf(t) == n - 1;
    CollapseRun(t, n - 1);
    CollapseStep(s);
    assert TripleAt(s, 0);
    assert t[n - 1..] == s[n..];
    if n == 3 {
      assert t[..2] == "\n\n";
    }
  }

  lemma {:induction false} CollapseShortRun(s: string, n: nat)
    requires n == LeadingLf(s) && 1 <= n < 3
    ensures CollapseNewlines(s) == s[..n] + CollapseNewlines(s[n..])
    decreases n, 0
  {
    hide CollapseNewlines;
    var t := s[1..];
    assert LeadingLf(t) == n - 1;
    CollapseRun(t, n - 1);
    CollapseStep(s);
    assert !TripleAt(s, 0);
    assert t[n - 1..] == s[n..];
    assert s[..n] == [s[0]] + t[..n - 1];
  }

  /** One step of `CollapseNewlines`. */
  lemma CollapseStep(s: string)
    requires s != []
    ensures TripleAt(s, 0) ==> CollapseNewlines(s) == CollapseNewlines(s[1..])
    ensures !TripleAt(s, 0) ==> CollapseNewlines(s) == [s[0]] + CollapseNewlines(s[1..])
  {
  }

  /** Text without a run of three line feeds is left as it is. */
  lemma {:induction false} CollapseNoTriple(s: string)
    requires NoTripleNewline(s)
    ensures CollapseNewlines(s) == s
  {
    if s != [] {
      assert !TripleAt(s, 0);
      var t := s[1..];
      forall i | 0 <= i < |t| ensures !TripleAt(t, i) {
        assert TripleAt(t, i) ==> TripleAt(s, i + 1);
      }
      CollapseNoTriple(t);
      assert s == [s[0]] + t;
    }
  }

  /** The specification of `clean_text`: "" for a missing or empty value;
      otherwise invisible characters removed, newlines normalised, outer
      whitespace stripped and blank-line runs collapsed, in that order. */
  function Clean(value: Option<string>): string
  {
    match value
    case None => ""
    case Some(s) =>
      if s == "" then ""
      else CollapseNewlines(Strip(NormalizeNewlines(DropChars(s, Invisible))))
  }

  /** `Database.clean_text`, as written: the invisible characters are removed
      one `replace` at a time, then the text is reassigned by each further step. */
  method CleanText(value: Option<string>) returns (text: string)
    ensures text == Clean(value)
  {
    if value.None? || value.value == "" {
      return "";
    }
    text := value.value;
    DropCharsNone(text, []);
    for k := 0 to |Invisible|
      invariant text == DropChars(value.value, Invisible[..k])
    {
      DropCharsThen(value.value, Invisible[..k], Invisible[k]);
      assert Invisible[..k + 1] == Invisible[..k] + [Invisible[k]];
      text := DropChars(text, [Invisible[k]]);
    }
    assert Invisible[..|Invisible|] == Invisible;
    text := ReplaceCr(ReplaceCrLf(text));
    text := Strip(text);
    text := CollapseNewlines(text);
  }

  /** The cleaned text holds none of the invisible characters and no carriage return. */
  lemma CleanDropsInvisible(value: Option<string>)
    ensures forall c :: c in Clean(value) ==> c !in Invisible && c != '\r'
  {
    if value.Some? && value.value != "" {
      var d := DropChars(value.value, Invisible);
      CleanMembers(value.value);
      assert '\n' !in Invisible;
      forall c | c in Clean(value) ensures c !in Invisible && c != '\r' {
        assert c in d || c == '\n';
      }
    }
  }

  /** Every character of the cleaned text survived the deletion or is a line feed. */
  lemma CleanMembers(s: string)
    requires s != ""
    ensures forall c :: c in Clean(Some(s)) ==> c != '\r' && (c in DropChars(s, Invisible) || c == '\n')
  {
    var d := DropChars(s, Invisible);
    var n := NormalizeNewlines(d);
    var t := Strip(n);
    forall c | c in CollapseNewlines(t) ensures c != '\r' && (c in d || c == '\n') {
      assert c in t;
      assert c in n;
    }
  }

  /** The cleaned text has no leading or trailing whitespace and no run of
      three or more line feeds. */
  lemma CleanIsTidy(value: Option<string>)
    ensures var r := Clean(value);
      && (r == [] || (!IsSpace(r[0]) && !IsSpace(r[|r| - 1])))
      && NoTripleNewline(r)
  {
  }

  /** Cleaning twice is cleaning once. */
  lemma CleanIdempotent(value: Option<string>)
    ensures Clean(Some(Clean(value))) == Clean(value)
  {
    var r := Clean(value);
    if r != "" {
      CleanDropsInvisible(value);
      CleanIsTidy(value);
      DropCharsNone(r, Invisible);
      assert '\r' !in r;
      assert NormalizeNewlines(r) == r;
      assert Strip(r) == r;
      CollapseNoTriple(r);
    }
  }

  /** Removing characters that do not occur changes nothing. */
  lemma {:induction false} DropCharsNone(s: string, cs: seq<char>)
    requires forall c :: c in s ==> c !in cs
    ensures DropChars(s, cs) == s
  {
    if s != [] {
      assert s[0] in s;
      assert forall c :: c in s[1..] ==> c in s;
      DropCharsNone(s[1..], cs);
      assert s == [s[0]] + s[1..];
    }
  }
}
