/** The row loop of `import_zdgz` (jxkh.py:457-506): the active sheet, from
    row 2 down, read as four cells per row (A department, B indicator name,
    C meaning, D completion text) and turned into indicator rows, or into
    the error the route answers with. */
module Importer {
  import opened Wrappers
  import opened Text

  /** One sheet row: a cell is `None` when openpyxl reads no value. */
  datatype SheetRow = SheetRow(a: Option<string>, b: Option<string>, c: Option<string>, d: Option<string>)

  /** One indicator to insert into zdgz. */
  datatype ParsedRow = ParsedRow(department: Option<string>, indicatorName: Option<string>, description: string, workDesc: string)

  /** `TooLong(row, length)`: sheet row `row` has a cleaned completion text of
      `length` characters; `NoData`: no indicator was read. */
  datatype ImportError = TooLong(row: nat, length: nat) | NoData

  const DefaultDescription: string := "无指标含义"
  const MaxWorkDesc: nat := 1000

  /** A cell Python treats as false: no value or the empty string. */
  predicate Blank(cell: Option<string>)
  {
    cell.None? || cell.value == ""
  }

  /** "B、C、D 都为空": the row that ends the sheet. */
  predicate EndRow(row: SheetRow)
  {
    Blank(row.b) && Blank(row.c) && Blank(row.d)
  }

  /** The department carried into row `j`: the stripped A cell of the last
      earlier row whose A cell is not blank. */
  function CarriedBefore(rows: seq<SheetRow>, j: nat): Option<string>
    requires j <= |rows|
  {
    if j == 0 then None else Carry(rows[j - 1], CarriedBefore(rows, j - 1))
  }

  /** The department stored for row `j`: its own A cell as read when it is not
      blank, the carried department otherwise. */
  function RowDepartment(rows: seq<SheetRow>, j: nat): Option<string>
    requires j < |rows|
  {
    RowDept(rows[j], CarriedBefore(rows, j))
  }

  /** The cleaning of one row's B, C and D cells. */
  function ParseRow(row: SheetRow, department: Option<string>): (p: ParsedRow)
    ensures p.department == department
    ensures p.indicatorName.None? <==> Blank(row.b)
    ensures Blank(row.c) ==> p.description == DefaultDescription
    ensures !Blank(row.c) ==> p.description == Clean(row.c)
    ensures p.workDesc == Clean(row.d)
  {
    ParsedRow(
      department,
      if !Blank(row.b) then Some(Clean(row.b)) else None,
      if !Blank(row.c) then Clean(row.c) else DefaultDescription,
      Clean(row.d))
  }

  /** The check on the cleaned completion text: `if work_desc` and then
      `length < 1 or length > 1000`. */
  predicate WorkDescRejected(workDesc: string)
  {
    workDesc != "" && (|workDesc| < 1 || |workDesc| > MaxWorkDesc)
  }

  /** The department stored for a row, given the one carried into it. */
  function RowDept(row: SheetRow, current: Option<string>): Option<string>
  {
    if !Blank(row.a) then row.a else current
  }

  /** `current_department` after a row. */
  function Carry(row: SheetRow, current: Option<string>): Option<string>
  {
    if !Blank(row.a) then Some(Strip(row.a.value)) else current
  }

  /** The loop from the row with index `i` (sheet row `i + 2`) on, with
      `current` the department carried so far. */
  function ParseFrom(rows: seq<SheetRow>, i: nat, current: Option<string>): Result<seq<ParsedRow>, ImportError>
    requires i <= |rows|
    decreases |rows| - i
  {
    if i == |rows| || EndRow(rows[i]) then Ok([])
    else
      var p := ParseRow(rows[i], RowDept(rows[i], current));
      if WorkDescRejected(p.workDesc) then Err(TooLong(i + 2, |p.workDesc|))
      else Prepend([p], ParseFrom(rows, i + 1, Carry(rows[i], current)))
  }

  function Prepend(ps: seq<ParsedRow>, r: Result<seq<ParsedRow>, ImportError>): Result<seq<ParsedRow>, ImportError>
  {
    match r
    case Ok(rest) => Ok(ps + rest)
    case Err(e) => Err(e)
  }

  /** What the route inserts, or why it answers 400. */
  function ParseSheet(rows: seq<SheetRow>): Result<seq<ParsedRow>, ImportError>
  {
    match ParseFrom(rows, 0, None)
    case Ok(ps) => if ps == [] then Err(NoData) else Ok(ps)
    case Err(e) => Err(e)
  }

  /** The loop as written: `current_department` and the collected rows change
      row by row; the loop breaks at the end row and returns at the first
      rejected completion text. */
  method ReadSheet(rows: seq<SheetRow>) returns (r: Result<seq<ParsedRow>, ImportError>)
    ensures r == ParseSheet(rows)
  {
    hide Clean, Strip;
    var parsed: seq<ParsedRow> := [];
    var current: Option<string> := None;
    var i := 0;
    PrependNothing(ParseFrom(rows, 0, None));
    while i < |rows|
      invariant i <= |rows|
      invariant Prepend(parsed, ParseFrom(rows, i, current)) == ParseFrom(rows, 0, None)
      decreases |rows| - i
    {
      var row := rows[i];
      var department := row.a;
      var carried := current;
      if !Blank(row.a) {
        current := Some(Strip(row.a.value));
      } else {
        department := current;
      }
      if EndRow(row) {
        ParseFromEnd(rows, i, carried);
        assert parsed + [] == parsed;
        break;
      }
      var p := ReadRow(row, department);
      if p.workDesc != "" {
        var length := |p.workDesc|;
        if length < 1 || length > MaxWorkDesc {
          ParseFromRejected(rows, i, carried);
          return Err(TooLong(i + 2, length));
        }
      }
      ParseFromRead(rows, i, carried);
      PrependTwice(parsed, [p], ParseFrom(rows, i + 1, current));
      parsed := parsed + [p];
      i := i + 1;
    }
    if i == |rows| {
      ParseFromEnd(rows, i, current);
      assert parsed + [] == parsed;
    }
    if parsed == [] {
      return Err(NoData);
    }
    return Ok(parsed);
  }

  /** The cleaning of one row, cell by cell. */
  method ReadRow(row: SheetRow, department: Option<string>) returns (p: ParsedRow)
    ensures p == ParseRow(row, department)
  {
    var name: Option<string> := None;
    if !Blank(row.b) {
      var cleaned := CleanText(row.b);
      name := Some(cleaned);
    }
    var description := DefaultDescription;
    if !Blank(row.c) {
      description := CleanText(row.c);
    }
    var workDesc := CleanText(row.d);
    p := ParsedRow(department, name, description, workDesc);
  }

  lemma ParseFromEnd(rows: seq<SheetRow>, i: nat, current: Option<string>)
    requires i <= |rows| && (i == |rows| || EndRow(rows[i]))
    ensures ParseFrom(rows, i, current) == Ok([])
  {
  }

  lemma ParseFromRejected(rows: seq<SheetRow>, i: nat, current: Option<string>)
    requires i < |rows| && !EndRow(rows[i])
    requires WorkDescRejected(ParseRow(rows[i], RowDept(rows[i], current)).workDesc)
    ensures ParseFrom(rows, i, current) == Err(TooLong(i + 2, |ParseRow(rows[i], RowDept(rows[i], current)).workDesc|))
  {
  }

  lemma ParseFromRead(rows: seq<SheetRow>, i: nat, current: Option<string>)
    requires i < |rows| && !EndRow(rows[i])
    requires !WorkDescRejected(ParseRow(rows[i], RowDept(rows[i], current)).workDesc)
    ensures ParseFrom(rows, i, current)
      == Prepend([ParseRow(rows[i], RowDept(rows[i], current))], ParseFrom(rows, i + 1, Carry(rows[i], current)))
  {
  }

  lemma PrependNothing(r: Result<seq<ParsedRow>, ImportError>)
    ensures Prepend([], r) == r
  {
    if r.Ok? {
      assert [] + r.value == r.value;
    }
  }

  lemma PrependTwice(a: seq<ParsedRow>, b: seq<ParsedRow>, r: Result<seq<ParsedRow>, ImportError>)
    ensures Prepend(a, Prepend(b, r)) == Prepend(a + b, r)
  {
    if r.Ok? {
      assert a + (b + r.value) == (a + b) + r.value;
    }
  }

  /** Row `k` is read (it is no end row) into `p`. */
  ghost predicate RowRead(rows: seq<SheetRow>, k: nat, p: ParsedRow)
  {
    k < |rows| && !EndRow(rows[k]) && p == ParseRow(rows[k], RowDepartment(rows, k))
  }

  /** `ps` is what the loop reads from row `i` on: one indicator per row up to
      the end row or the end of the sheet. */
  ghost predicate ReadFrom(rows: seq<SheetRow>, i: nat, ps: seq<ParsedRow>)
  {
    var stop := i + |ps|;
    && stop <= |rows|
    && (stop == |rows| || EndRow(rows[stop]))
    && forall j :: 0 <= j < |ps| ==> RowRead(rows, i + j, ps[j])
  }

  /** A successful pass from row `i` on, with the carried department right:
      it reads the rows from `i` up to the end row or the end of the sheet,
      none of them an end row, each row cleaned with its own department or
      the carried one. */
  lemma {:induction false} ParseFromOk(rows: seq<SheetRow>, i: nat, current: Option<string>)
    requires i <= |rows| && current == CarriedBefore(rows, i)
    requires ParseFrom(rows, i, current).Ok?
    ensures ReadFrom(rows, i, ParseFrom(rows, i, current).value)
    decreases |rows| - i
  {
    hide Clean, Strip, ParseRow, RowDept, Carry;
    if i < |rows| && !EndRow(rows[i]) {
      var p := ParseRow(rows[i], RowDept(rows[i], current));
      var rest := ParseFrom(rows, i + 1, Carry(rows[i], current));
      assert ParseFrom(rows, i, current) == Prepend([p], rest);
      ParseFromOk(rows, i + 1, Carry(rows[i], current));
      var q := rest.value;
      var ps := [p] + q;
      assert RowRead(rows, i, p);
      forall j | 0 <= j < |ps| ensures RowRead(rows, i + j, ps[j]) {
        if j > 0 {
          assert RowRead(rows, (i + 1) + (j - 1), q[j - 1]);
        }
      }
      assert (i + 1) + |q| == i + |ps|;
    }
  }

  /** A rejected pass from row `i` on names the first sheet row, at or after
      row `i + 2`, whose cleaned completion text is over 1000 characters, and
      gives that length; every row before it was read without complaint. */
  lemma {:induction false} ParseFromErr(rows: seq<SheetRow>, i: nat, current: Option<string>)
    requires i <= |rows|
    requires ParseFrom(rows, i, current).Err?
    ensures match ParseFrom(rows, i, current).error
      case NoData => false
      case TooLong(n, len) =>
        && i + 2 <= n < |rows| + 2
        && !EndRow(rows[n - 2])
        && len == |Clean(rows[n - 2].d)| > MaxWorkDesc
        && forall k :: i <= k < n - 2 ==> !EndRow(rows[k]) && |Clean(rows[k].d)| <= MaxWorkDesc
    decreases |rows| - i
  {
    hide Clean, Strip, ParseRow, RowDept, Carry;
    if !WorkDescRejected(Clean(rows[i].d)) {
      ParseFromErr(rows, i + 1, Carry(rows[i], current));
    }
  }

  /** The outcome of the whole loop: the indicators of every row before the
      end row (or the end of the sheet), each department carried forward as
      described; a completion text over 1000 characters rejects the whole
      import, naming its sheet row; no row read is `NoData`. */
  lemma ParseSheetMeaning(rows: seq<SheetRow>)
    ensures ParseSheet(rows) == Err(NoData) <==> rows == [] || EndRow(rows[0])
    ensures ParseSheet(rows).Ok? ==> |ParseSheet(rows).value| > 0 && ReadFrom(rows, 0, ParseSheet(rows).value)
    ensures ParseSheet(rows).Err? && ParseSheet(rows).error.TooLong? ==>
      var n, len := ParseSheet(rows).error.row, ParseSheet(rows).error.length;
      && 2 <= n < |rows| + 2 && !EndRow(rows[n - 2]) && len == |Clean(rows[n - 2].d)| > MaxWorkDesc
      && forall k :: 0 <= k < n - 2 ==> !EndRow(rows[k]) && |Clean(rows[k].d)| <= MaxWorkDesc
  {
    hide Clean, Strip;
    var r := ParseFrom(rows, 0, None);
    if r.Ok? {
      ParseFromOk(rows, 0, None);
    } else {
      ParseFromErr(rows, 0, None);
    }
  }

  /** A completion text is rejected exactly when, cleaned, it is over 1000
      characters: the `length < 1` test never fires, so an empty text passes. */
  lemma WorkDescRejectedIff(workDesc: string)
    ensures WorkDescRejected(workDesc) <==> |workDesc| > MaxWorkDesc
    ensures !WorkDescRejected("")
  {
  }

  /** A non-blank A cell is stored as read, while later rows with a blank A
      cell get it stripped: with A = " 办公室" above a blank A, the two rows
      carry different department strings. */
  lemma CarriedDepartmentIsStripped(rows: seq<SheetRow>)
    requires |rows| == 2 && rows[0].a == Some(" 办公室") && rows[1].a == None
    ensures RowDepartment(rows, 0) == Some(" 办公室")
    ensures RowDepartment(rows, 1) == Some("办公室")
  {
    hide Strip, Clean;
    assert " 办公室" == [' '] + "办公室";
    StripLeadingSpace(' ', "办公室");
    assert !IsSpace('办') && !IsSpace('室');
    assert Strip("办公室") == "办公室";
  }
}
