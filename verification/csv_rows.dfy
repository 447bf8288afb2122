/** The first half of `importData` (server.js): the file is split into lines,
    line 0 names the columns, and every later line becomes an object from
    trimmed column name to trimmed cell; only objects with a first name are
    kept, in file order. */
module CsvRows {
  import opened JsText

  /** What reading a property of a row object can give: a row object holds
      only strings and `null`, and a property it lacks reads as `undefined`. */
  datatype JsValue = Undefined | Null | Str(text: string)

  /** One data row: trimmed column name to cell value. */
  type RowObject = map<string, JsValue>

  /** `obj[key]` */
  function Get(obj: RowObject, key: string): JsValue {
    if key in obj then obj[key] else Undefined
  }

  /** JavaScript truthiness: only a non-empty string is truthy. */
  predicate Truthy(v: JsValue) {
    v.Str? && v.text != ""
  }

  /** `String(v)`, which is what a template literal interpolates. */
  function ToJsString(v: JsValue): string {
    match v
    case Undefined => "undefined"
    case Null => "null"
    case Str(s) => s
  }

  const FirstNameKey := "name.firstName"

  /** `cols[j] ? cols[j].trim() : null`: a cell past the end of the line or
      an empty cell is `null`; a whitespace-only cell is truthy and trims to "". */
  function Cell(cols: seq<string>, j: nat): (v: JsValue)
    ensures v == Null || (v.Str? && Trimmed(v.text))
    ensures Truthy(v) <==> j < |cols| && !AllWhitespace(cols[j])
  {
    if j < |cols| && cols[j] != "" then
      TrimEmpty(cols[j]);
      Str(Trim(cols[j]))
    else Null
  }

  /** The row object once the first `n` columns are stored; a later column
      with the same trimmed name overwrites an earlier one. */
  function BuildObject(headers: seq<string>, cols: seq<string>, n: nat): (obj: RowObject)
    requires n <= |headers|
    ensures |obj| <= n
    ensures forall key :: key in obj ==> obj[key] == Null || (obj[key].Str? && Trimmed(obj[key].text))
  {
    if n == 0 then map[]
    else BuildObject(headers, cols, n - 1)[Trim(headers[n - 1]) := Cell(cols, n - 1)]
  }

  /** The object for one data line. A blank line, empty or all whitespace,
      has no first name. */
  function RowOf(headers: seq<string>, line: string): (obj: RowObject)
    ensures AllWhitespace(line) ==> !HasFirstName(obj)
  {
    BlankLineCells(headers, line);
    BuildObject(headers, Split(line, ','), |headers|)
  }

  /** `if (obj['name.firstName'])` */
  predicate HasFirstName(obj: RowObject) {
    Truthy(Get(obj, FirstNameKey))
  }

  /** The objects of the data lines `lines` that have a first name, in order. */
  function KeptRows(headers: seq<string>, lines: seq<string>): (kept: seq<RowObject>)
    ensures |kept| <= |lines|
    ensures forall obj :: obj in kept ==> HasFirstName(obj)
  {
    if lines == [] then []
    else
      var obj := RowOf(headers, lines[|lines| - 1]);
      KeptRows(headers, lines[..|lines| - 1]) + (if HasFirstName(obj) then [obj] else [])
  }

  /** The column names of a file: line 0 split on commas. */
  function Headers(csv: string): seq<string> {
    Split(Split(csv, '\n')[0], ',')
  }

  /** `jsonObject` once the parsing loop has run over the whole file. */
  function ParseCsv(csv: string): (users: seq<RowObject>)
    ensures |users| < |Split(csv, '\n')|
    ensures forall obj :: obj in users ==> HasFirstName(obj)
  {
    KeptRows(Headers(csv), Split(csv, '\n')[1..])
  }

  /** Every trimmed column name is a key of the row object. */
  lemma {:induction false} BuildObjectKeys(headers: seq<string>, cols: seq<string>, n: nat)
    requires n <= |headers|
    ensures forall j :: 0 <= j < n ==> Trim(headers[j]) in BuildObject(headers, cols, n)
  {
    if n > 0 {
      BuildObjectKeys(headers, cols, n - 1);
    }
  }

  /** Nothing else is: a name that no column trims to reads as `undefined`. */
  lemma {:induction false} BuildObjectMissing(headers: seq<string>, cols: seq<string>, n: nat, key: string)
    requires n <= |headers|
    requires forall j :: 0 <= j < n ==> Trim(headers[j]) != key
    ensures Get(BuildObject(headers, cols, n), key) == Undefined
  {
    if n > 0 {
      BuildObjectMissing(headers, cols, n - 1, key);
    }
  }

  /** The value under a column name comes from the last column with that
      trimmed name: `null` when the line has no such cell or the cell is
      empty, and otherwise the trimmed cell text. */
  lemma {:induction false} BuildObjectLookup(headers: seq<string>, cols: seq<string>, n: nat, j: nat)
    requires j < n <= |headers|
    requires forall k :: j < k < n ==> Trim(headers[k]) != Trim(headers[j])
    ensures Get(BuildObject(headers, cols, n), Trim(headers[j]))
         == if j < |cols| && cols[j] != "" then Str(Trim(cols[j])) else Null
  {
    if n - 1 != j {
      BuildObjectLookup(headers, cols, n - 1, j);
    }
  }

  /** Cells beyond the number of columns named in the header are ignored. */
  lemma {:induction false} ExtraCellsIgnored(headers: seq<string>, cols: seq<string>, n: nat)
    requires n <= |headers| <= |cols|
    ensures BuildObject(headers, cols, n) == BuildObject(headers, cols[..|headers|], n)
  {
    if n > 0 {
      ExtraCellsIgnored(headers, cols, n - 1);
      assert Cell(cols, n - 1) == Cell(cols[..|headers|], n - 1);
    }
  }

  /** Without a truthy cell, no value of the object is truthy. */
  lemma {:induction false} NoTruthyCell(headers: seq<string>, cols: seq<string>, n: nat, key: string)
    requires n <= |headers|
    requires forall j :: 0 <= j < n ==> !Truthy(Cell(cols, j))
    ensures !Truthy(Get(BuildObject(headers, cols, n), key))
  {
    if n > 0 {
      NoTruthyCell(headers, cols, n - 1, key);
    }
  }

  /** A blank line is a single cell that is not truthy, so no value of its
      object is. */
  lemma BlankLineCells(headers: seq<string>, line: string)
    ensures AllWhitespace(line) ==> !HasFirstName(BuildObject(headers, Split(line, ','), |headers|))
  {
    if AllWhitespace(line) {
      assert !IsWhitespace(',');
      SplitWithoutSeparator(line, ',');
      NoTruthyCell(headers, [line], |headers|, FirstNameKey);
    }
  }

  /** Filtering works line by line, so the kept objects stay in file order. */
  lemma {:induction false} KeptRowsAppend(headers: seq<string>, a: seq<string>, b: seq<string>)
    ensures KeptRows(headers, a + b) == KeptRows(headers, a) + KeptRows(headers, b)
  {
    if b == [] {
      assert a + b == a;
    } else {
      var last := b[|b| - 1];
      assert (a + b)[..|a + b| - 1] == a + b[..|b| - 1];
      assert (a + b)[|a + b| - 1] == last;
      KeptRowsAppend(headers, a, b[..|b| - 1]);
    }
  }

  /** An object is kept exactly when it is the object of some data line and
      has a first name. */
  lemma {:induction false} KeptRowsMembers(headers: seq<string>, lines: seq<string>, obj: RowObject)
    ensures obj in KeptRows(headers, lines)
        <==> exists i :: 0 <= i < |lines| && RowOf(headers, lines[i]) == obj && HasFirstName(obj)
  {
    if lines != [] {
      var init := lines[..|lines| - 1];
      KeptRowsMembers(headers, init, obj);
      if obj in KeptRows(headers, lines) && obj !in KeptRows(headers, init) {
        assert RowOf(headers, lines[|lines| - 1]) == obj;
      }
      if i :| 0 <= i < |lines| && RowOf(headers, lines[i]) == obj && HasFirstName(obj) {
        if i < |lines| - 1 {
          assert init[i] == lines[i];
        }
      }
    }
  }

  /** A file none of whose data lines has a first name yields no objects. */
  lemma NoFirstNameNoRows(csv: string)
    requires forall line :: line in Split(csv, '\n')[1..] ==> !HasFirstName(RowOf(Headers(csv), line))
    ensures ParseCsv(csv) == []
  {
    var lines := Split(csv, '\n')[1..];
    if ParseCsv(csv) != [] {
      KeptRowsMembers(Headers(csv), lines, ParseCsv(csv)[0]);
    }
  }

  /** A file whose data lines are all blank (none at all, or only empty or
      whitespace lines, such as the one after a final line feed) yields no
      objects. */
  lemma HeaderOnlyFile(csv: string)
    requires forall line :: line in Split(csv, '\n')[1..] ==> AllWhitespace(line)
    ensures ParseCsv(csv) == []
  {
    NoFirstNameNoRows(csv);
  }

  /** In particular a header line followed by a line feed, the usual shape
      of a file without data. */
  lemma HeaderWithLineFeed(header: string)
    requires '\n' !in header
    ensures ParseCsv(header + "\n") == []
  {
    SplitJoin([header, ""], '\n');
    assert Join([header, ""], '\n') == header + "\n";
    HeaderOnlyFile(header + "\n");
  }
}
