/** The request checks of the web front end (jxkh.py) that are plain
    expressions: upload extensions, the evidence file name, the role-name and
    description-length rules and the "excellent ≤ 60%" submission rule. */
module Validators {
  import opened Wrappers
  import Text

  // ---------------------------------------------------------------------------
  // Upload extensions (jxkh.py:19, 22-32)

  /** `str.lower()` on the ASCII letters. */
  function LowerChar(c: char): char
  {
    if 'A' <= c <= 'Z' then (c as int + 32) as char else c
  }

  function Lower(s: string): (r: string)
    ensures |r| == |s|
    ensures forall i :: 0 <= i < |s| ==> r[i] == LowerChar(s[i])
  {
    seq(|s|, i requires 0 <= i < |s| => LowerChar(s[i]))
  }

  const AllowedExtensions: set<string> := {"pdf", "zip", "xls", "xlsx"}

  /** Index of the last '.' of `s`, if any. */
  function LastDot(s: string): (r: Option<nat>)
    ensures r.Some? ==> r.value < |s| && s[r.value] == '.' && '.' !in s[r.value + 1..]
    ensures r.None? ==> '.' !in s
  {
    if s == [] then None
    else if s[|s| - 1] == '.' then Some(|s| - 1)
    else
      var r := LastDot(s[..|s| - 1]);
      assert s == s[..|s| - 1] + [s[|s| - 1]];
      if r.Some? then
        assert s[r.value + 1..] == s[..|s| - 1][r.value + 1..] + [s[|s| - 1]];
        r
      else r
  }

  /** `filename.rsplit('.', 1)[1].lower()`: the lower-cased text after the last dot. */
  function Extension(filename: string): Option<string>
  {
    match LastDot(filename)
    case None => None
    case Some(i) => Some(Lower(filename[i + 1..]))
  }

  /** `allowed_file`: the name has a dot and its extension is allowed. */
  function AllowedFile(filename: string): bool
  {
    '.' in filename && Extension(filename).value in AllowedExtensions
  }

  /** A dot with no dot after it is the last dot. */
  lemma LastDotUnique(s: string, i: nat)
    requires i < |s| && s[i] == '.' && '.' !in s[i + 1..]
    ensures LastDot(s) == Some(i)
  {
  }

  /** `i` is the index of the last dot of `s`. */
  predicate LastDotAt(s: string, i: int)
  {
    0 <= i < |s| && s[i] == '.' && '.' !in s[i + 1..]
  }

  /** `allowed_file` accepts exactly the names that have a dot after which no
      further dot occurs and whose remainder, lower-cased, is one of the
      allowed extensions. */
  lemma AllowedFileIff(filename: string)
    ensures AllowedFile(filename) <==>
      exists i :: LastDotAt(filename, i) && Lower(filename[i + 1..]) in AllowedExtensions
  {
    if AllowedFile(filename) {
      var i := LastDot(filename).value;
      AllowedAtLastDot(filename, i);
    }
    if exists i :: LastDotAt(filename, i) && Lower(filename[i + 1..]) in AllowedExtensions {
      var i :| LastDotAt(filename, i) && Lower(filename[i + 1..]) in AllowedExtensions;
      AllowedAtLastDot(filename, i);
    }
  }

  /** At the last dot, `allowed_file` is the membership of the lower-cased rest. */
  lemma AllowedAtLastDot(filename: string, i: int)
    requires LastDotAt(filename, i)
    ensures AllowedFile(filename) <==> Lower(filename[i + 1..]) in AllowedExtensions
  {
    LastDotUnique(filename, i);
    assert filename[i] in filename;
  }

  // ---------------------------------------------------------------------------
  // Evidence file path (jxkh.py:572, 582-590)

  /** Characters the upload replaces by '_' in the indicator name. */
  predicate UnsafeInFileName(c: char)
  {
    c == '\\' || c == '/' || c == ':' || c == '*' || c == '?' || c == '"' || c == '<' || c == '>' || c == '|'
  }

  /** `re.sub(r'[\\/:*?"<>|]', '_', name)`. */
  function SafeName(name: string): (r: string)
    ensures |r| == |name|
    ensures forall i :: 0 <= i < |r| ==> !UnsafeInFileName(r[i])
    ensures forall i :: 0 <= i < |r| ==> (r[i] == name[i] || (UnsafeInFileName(name[i]) && r[i] == '_'))
  {
    if name == [] then []
    else [if UnsafeInFileName(name[0]) then '_' else name[0]] + SafeName(name[1..])
  }

  /** Decimal digits of `n`, as `str(n)` and an f-string print it. */
  function NatToDecimal(n: nat): (r: string)
    ensures |r| >= 1
    ensures forall i :: 0 <= i < |r| ==> '0' <= r[i] <= '9'
  {
    var d := ['0' + (n % 10) as char];
    if n < 10 then d else NatToDecimal(n / 10) + d
  }

  const EvidenceSuffix: string := "佐证材料."

  /** `f"uploads/zdgz/{zdgz_id}/{indicator_name}佐证材料.{ext}"`. */
  function EvidencePath(zdgzId: nat, indicatorName: string, ext: string): string
  {
    "uploads/zdgz/" + NatToDecimal(zdgzId) + "/" + SafeName(indicatorName) + EvidenceSuffix + ext
  }

  /** With an allowed extension, the stored path is the indicator's directory
      followed by one file name: whatever the indicator name holds, the file
      name contains no path separator. */
  lemma EvidencePathShape(zdgzId: nat, indicatorName: string, filename: string)
    requires AllowedFile(filename)
    ensures var file := SafeName(indicatorName) + EvidenceSuffix + Extension(filename).value;
      && EvidencePath(zdgzId, indicatorName, Extension(filename).value)
           == "uploads/zdgz/" + NatToDecimal(zdgzId) + "/" + file
      && '/' !in file && '\\' !in file
  {
    var ext := Extension(filename).value;
    var safe := SafeName(indicatorName);
    assert ext in AllowedExtensions;
    assert '/' !in safe && '\\' !in safe by {
      forall i | 0 <= i < |safe| ensures safe[i] != '/' && safe[i] != '\\' {
        assert !UnsafeInFileName(safe[i]);
      }
    }
  }

  // ---------------------------------------------------------------------------
  // Role name and department description (jxkh.py:325, 391-395)

  /** `all('一' <= c <= '鿿' for c in role_name)`. */
  predicate RoleNameAllowed(name: string)
  {
    forall i :: 0 <= i < |name| ==> '\U{4E00}' <= name[i] <= '\U{9FFF}'
  }

  /** The check of `update_dept_desc` on the stripped text: empty, or 300 to
      1500 characters. */
  predicate DescLengthAllowed(workDesc: string)
  {
    var t := Text.Strip(workDesc);
    t == "" || 300 <= |t| <= 1500
  }

  // ---------------------------------------------------------------------------
  // Excellence rate (jxkh.py:142-162)

  /** A score of at least 120 is "excellent". */
  const ExcellentScore: real := 120.0

  /** `int(total_cnt * 0.6)`, written as the integer quotient it equals. */
  function ExcellentLimit(total: nat): nat
  {
    3 * total / 5
  }

  /** `sum(1 for s in zdgz_scores if s >= 120)`. */
  function ExcellentCount(scores: seq<real>): (r: nat)
    ensures r <= |scores|
  {
    if scores == [] then 0
    else (if scores[|scores| - 1] >= ExcellentScore then 1 else 0) + ExcellentCount(scores[..|scores| - 1])
  }

  /** The rejection the back end returns: the allowed and the actual number of
      "excellent" scores, both shown in the message. */
  datatype ExcellenceRejection = TooManyExcellent(maxExcellent: nat, excellentCount: nat)

  /** The check of `save_score`: `None` when the submission may proceed. */
  function CheckExcellence(scores: seq<real>): Option<ExcellenceRejection>
  {
    var total := |scores|;
    if total > 0 && ExcellentCount(scores) > ExcellentLimit(total) then
      Some(TooManyExcellent(ExcellentLimit(total), ExcellentCount(scores)))
    else None
  }

  /** A submission is rejected exactly when strictly more than 60% of its
      indicator scores are excellent, and the rejection reports the limit and
      the count; an empty submission is never rejected. */
  lemma CheckExcellenceIff(scores: seq<real>)
    ensures CheckExcellence(scores).Some? <==> 5 * ExcellentCount(scores) > 3 * |scores|
    ensures CheckExcellence(scores).Some? ==>
      CheckExcellence(scores).value == TooManyExcellent(3 * |scores| / 5, ExcellentCount(scores))
    ensures |scores| == 0 ==> CheckExcellence(scores).None?
  {
    var n, c := |scores|, ExcellentCount(scores);
    assert 5 * (3 * n / 5) <= 3 * n < 5 * (3 * n / 5) + 5;
  }
}
