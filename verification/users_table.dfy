/** The `users` table as `importData` and the age-distribution handler of
    server.js see it: rows with an id drawn from a SERIAL sequence. */
module UsersTable {
  import opened JsText
  import opened CsvRows
  import opened UserRecords
  import opened AgeBuckets

  /** One stored row: its SERIAL id and the four inserted columns. */
  datatype UserRecord = UserRecord(id: int, fields: UserFields)

  predicate IdsIncreasing(rows: seq<UserRecord>) {
    forall i, j :: 0 <= i < j < |rows| ==> rows[i].id < rows[j].id
  }

  /** The `age` column, as `SELECT age FROM users` returns it. */
  function AgesOf(rows: seq<UserRecord>): seq<int> {
    seq(|rows|, i requires 0 <= i < |rows| => rows[i].fields.age)
  }

  /** The rows that inserting the records of `users` one by one appends,
      when the id sequence stands at `firstId`: one row per object, in
      order, with consecutive ids. */
  function RecordsFor(firstId: int, users: seq<RowObject>): (rs: seq<UserRecord>)
    ensures |rs| == |users|
    ensures IdsIncreasing(rs)
  {
    seq(|users|, i requires 0 <= i < |users| => UserRecord(firstId + i, ToUserFields(users[i])))
  }

  /** Inserting one more object appends its record, numbered next. */
  lemma RecordsForSnoc(firstId: int, users: seq<RowObject>, k: nat)
    requires k < |users|
    ensures RecordsFor(firstId, users[..k + 1])
         == RecordsFor(firstId, users[..k]) + [UserRecord(firstId + k, ToUserFields(users[k]))]
  {
    var longer := RecordsFor(firstId, users[..k + 1]);
    var shorter := RecordsFor(firstId, users[..k]);
    forall i | 0 <= i < k
      ensures longer[i] == shorter[i]
    {
      assert users[..k + 1][i] == users[..k][i];
    }
  }

  /** The inner loop of `importData`: the object for one data line, keyed
      by the trimmed column names. */
  method ParseLine(headers: seq<string>, line: string) returns (obj: RowObject)
    ensures obj == RowOf(headers, line)
  {
    var cols := Split(line, ',');
    obj := map[];
    var j := 0;
    while j < |headers|
      invariant 0 <= j <= |headers|
      invariant obj == BuildObject(headers, cols, j)
    {
      obj := obj[Trim(headers[j]) := Cell(cols, j)];
      j := j + 1;
    }
  }

  /** Reading one more data line keeps its object exactly when it has a
      first name. */
  lemma KeptRowsSnoc(headers: seq<string>, lines: seq<string>, i: nat)
    requires 1 <= i < |lines|
    ensures var obj := RowOf(headers, lines[i]);
      KeptRows(headers, lines[1..i + 1])
        == KeptRows(headers, lines[1..i]) + if HasFirstName(obj) then [obj] else []
  {
    assert lines[1..i + 1][..i - 1] == lines[1..i];
  }

  /** The outer loop of `importData`: `jsonObject`, the objects of the data
      lines that have a first name, in file order. */
  method ReadRows(csv: string) returns (jsonObject: seq<RowObject>)
    ensures jsonObject == ParseCsv(csv)
  {
    var lines := Split(csv, '\n');
    var headers := Split(lines[0], ',');
    jsonObject := [];
    var i := 1;
    while i < |lines|
      invariant 1 <= i <= |lines|
      invariant jsonObject == KeptRows(headers, lines[1..i])
    {
      var obj := ParseLine(headers, lines[i]);
      KeptRowsSnoc(headers, lines, i);
      if Truthy(Get(obj, FirstNameKey)) {
        jsonObject := jsonObject + [obj];
      }
      i := i + 1;
    }
    assert lines[1..i] == lines[1..];
  }

  class Table {
    var rows: seq<UserRecord>
    /** The next value of the id sequence. */
    var nextId: int

    /** Ids are positive, strictly increasing in insertion order, and below
        the next value of the sequence, so never reused. */
    ghost predicate Valid()
      reads this
    {
      && 1 <= nextId
      && IdsIncreasing(rows)
      && forall i :: 0 <= i < |rows| ==> 1 <= rows[i].id < nextId
    }

    /** `CREATE TABLE IF NOT EXISTS users (...)` on a fresh database. */
    constructor ()
      ensures Valid() && rows == [] && nextId == 1
    {
      rows := [];
      nextId := 1;
    }

    /** `INSERT INTO users (name, age, address, additional_info) VALUES (...)` */
    method Insert(fields: UserFields) returns (id: int)
      requires Valid()
      modifies this
      ensures Valid()
      ensures id == old(nextId) && nextId == old(nextId) + 1
      ensures rows == old(rows) + [UserRecord(id, fields)]
    {
      id := nextId;
      rows := rows + [UserRecord(id, fields)];
      nextId := nextId + 1;
    }

    /** `importData` given the contents of the CSV file. A table that already
        holds a row is left alone; an empty one receives one record per kept
        row, in file order, with consecutive ids. */
    method ImportData(csv: string)
      requires Valid()
      modifies this
      ensures Valid()
      ensures old(|rows|) > 0 ==> rows == old(rows) && nextId == old(nextId)
      ensures old(|rows|) == 0 ==>
        && rows == RecordsFor(old(nextId), ParseCsv(csv))
        && nextId == old(nextId) + |ParseCsv(csv)|
    {
      if |rows| > 0 {
        return;
      }
      var jsonObject := ReadRows(csv);
      InsertAll(jsonObject);
    }

    /** The insert loop of `importData`: one record per object, in order. */
    method InsertAll(jsonObject: seq<RowObject>)
      requires Valid()
      modifies this
      ensures Valid()
      ensures rows == old(rows) + RecordsFor(old(nextId), jsonObject)
      ensures nextId == old(nextId) + |jsonObject|
    {
      var k := 0;
      while k < |jsonObject|
        invariant 0 <= k <= |jsonObject|
        invariant Valid()
        invariant rows == old(rows) + RecordsFor(old(nextId), jsonObject[..k])
        invariant nextId == old(nextId) + k
      {
        var user := jsonObject[k];
        var id := Insert(ToUserFields(user));
        RecordsForSnoc(old(nextId), jsonObject, k);
        k := k + 1;
      }
      assert jsonObject[..k] == jsonObject;
    }

    /** The counting loop of the `/api/age-distribution` handler over the
        ages of the stored rows. */
    method AgeDistribution() returns (d: Distribution)
      ensures d.total == |rows|
      ensures d.under20 == CountIn(AgesOf(rows), Under20)
      ensures d.from20To40 == CountIn(AgesOf(rows), From20To40)
      ensures d.from40To60 == CountIn(AgesOf(rows), From40To60)
      ensures d.over60 == CountIn(AgesOf(rows), Over60)
      ensures d.under20 + d.from20To40 + d.from40To60 + d.over60 == d.total
    {
      var ages := AgesOf(rows);
      var countUnder20, count20to40, count40to60, countOver60 := 0, 0, 0, 0;
      var i := 0;
      while i < |ages|
        invariant 0 <= i <= |ages|
        invariant countUnder20 == CountIn(ages[..i], Under20)
        invariant count20to40 == CountIn(ages[..i], From20To40)
        invariant count40to60 == CountIn(ages[..i], From40To60)
        invariant countOver60 == CountIn(ages[..i], Over60)
      {
        var age := ages[i];
        assert ages[..i + 1][..i] == ages[..i];
        if age < 20 {
          countUnder20 := countUnder20 + 1;
        } else if age < 40 {
          count20to40 := count20to40 + 1;
        } else if age < 60 {
          count40to60 := count40to60 + 1;
        } else {
          countOver60 := countOver60 + 1;
        }
        i := i + 1;
      }
      assert ages[..i] == ages;
      CountsPartition(ages);
      d := Distribution(|ages|, countUnder20, count20to40, count40to60, countOver60);
    }
  }

  /** Importing the same file twice into a fresh table stores exactly what
      importing it once does: the second run finds rows and inserts nothing,
      or finds none because the file has no kept row. */
  method ImportTwice(csv: string) returns (once: seq<UserRecord>, twice: seq<UserRecord>)
    ensures twice == once
    ensures once == RecordsFor(1, ParseCsv(csv))
    ensures IdsIncreasing(once)
  {
    var table := new Table();
    table.ImportData(csv);
    once := table.rows;
    table.ImportData(csv);
    twice := table.rows;
  }
}
