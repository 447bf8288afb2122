# Kelp user importer and age distribution, modelled in Dafny

`server.js` does two things of its own, beyond wiring a PostgreSQL client
and an Express server:

- `importData` loads a CSV file of users into an empty `users` table:
  - it splits the file on line feeds and takes line 0 as the column names;
  - it turns every later line into an object from trimmed column name to
    trimmed cell, or `null`;
  - it keeps the objects that have a first name;
  - it builds one record per kept object: a name, an age, an `address`
    document and an `additional_info` document;
  - it inserts the records one by one, but only when the table holds no row
    yet.
- The `/api/age-distribution` handler counts the stored ages into four
  brackets: under 20, 20 to 40, 40 to 60, and 60 or over.

The model follows the same structure:

- `js_text.dfy` (`JsText`) models the JavaScript built-ins the importer
  relies on: `String.prototype.trim`, using the ECMAScript whitespace and
  line-terminator code points, and `split` on a single character.
- `js_parse_int.dfy` (`JsParseInt`) models `parseInt` called without a
  radix. It skips leading whitespace, reads an optional sign and a
  `0x`/`0X` prefix, then the longest digit run. NaN is `None`.
- `csv_rows.dfy` (`CsvRows`) holds the row objects as
  `map<string, JsValue>`. A missing property reads as `Undefined`. It also
  defines the functions that specify the parsing loops: the object of one
  line, and the kept objects of a file.
- `user_records.dfy` (`UserRecords`) is the pure record construction of
  the insert loop. That covers the name interpolation and trim, `parseInt(age) || 0`,
  and `|| null` on the nine address and additional-info keys.
- `age_buckets.dfy` (`AgeBuckets`) defines the four brackets and what it
  means to count ages into them.
- `users_table.dfy` (`UsersTable`) holds the imperative part:
  - the two nested parsing loops, as methods proved against the functions
    of `CsvRows`;
  - the table, a class whose `rows` and `nextId` (standing in for the
    `SERIAL` sequence) the import updates in place;
  - the guarded sequential import;
  - the counting loop of the age handler.

Three behaviours of the code are worth stating plainly:

- Every line after the header is parsed, including empty ones. A blank
  line (empty or all whitespace) gives an object with no truthy value, so
  it is dropped for having no first name. In particular a header line
  that ends in a line feed yields no records.
- The name is the template literal `${first} ${last}`, trimmed. A `null`
  last name is written out as the text `null`, so a row with an empty
  last-name cell is stored as `"<first> null"`.
- The age is a prefix parse. `"35 years"` gives 35, `"+35"` and `"035"`
  give 35, `"-7"` gives -7 and `"0x1F"` gives 31. The age is 0 when
  `parseInt` finds nothing to read: a missing or `null` field, no digit
  after the whitespace and sign, or a `0x` prefix with no hexadecimal
  digit after it, as in `"0x"` or `"0xg"`. A field that reads as 0 also
  gives 0.

## Model

| member | source | states |
|---|---|---|
| JsText.TrimStart | server.js:54 | the whitespace-stripped start of a text is no longer than the text |
| JsText.TrimEnd | server.js:54 | the whitespace-stripped end of a text is no longer than the text and keeps its first character |
| JsText.Trim | server.js:54 | the result of `trim` has whitespace at neither end |
| JsText.TrimStartIsSuffix | server.js:54 | stripping the start removes a whitespace prefix and nothing else |
| JsText.TrimEndIsPrefix | server.js:54 | stripping the end removes a whitespace suffix and nothing else |
| JsText.TrimIsSlice | server.js:54 | `trim` returns the text between a whitespace prefix and a whitespace suffix of its input |
| JsText.TrimStartAppend | server.js:54 | leading whitespace in front of a text does not change where the trimmed start begins |
| JsText.TrimEndAppend | server.js:54 | trailing whitespace after a text does not change where the trimmed end stops |
| JsText.TrimPadded | server.js:54 | `trim` gives back any text with no whitespace at its ends, whatever whitespace surrounds it |
| JsText.TrimOfTrimmed | server.js:54 | a text with no whitespace at either end is its own trim |
| JsText.TrimIdempotent | server.js:54 | trimming twice is trimming once |
| JsText.TrimEmpty | server.js:54 | `trim` leaves nothing of a text exactly when the text is all whitespace |
| JsText.Split | server.js:46-51 | `split` always yields at least one piece, and no piece contains the separator |
| JsText.JoinSplit | server.js:46-51 | joining the pieces of a split with the separator gives the original text |
| JsText.SplitPrefix | server.js:46-51 | a separator-free start of a text becomes the start of the first piece |
| JsText.SplitJoin | server.js:46-51 | splitting joined separator-free pieces gives back those pieces |
| JsText.SplitWithoutSeparator | server.js:46 | a file without a line feed is one line |
| JsParseInt.DigitValue | server.js:66 | a digit's value is below 16, and below 10 for a decimal digit |
| JsParseInt.DigitRun | server.js:66 | the digit run is the longest prefix of radix digits: every character before its end is a digit, the one at its end is not |
| JsParseInt.DecimalString | server.js:66 | the numeral of a number is a non-empty digit string, with a leading 0 only for 0 |
| JsParseInt.ValueOfDecimalString | server.js:66 | a decimal numeral denotes the number it was written from |
| JsParseInt.DigitRunAppend | server.js:66 | the digit run of digits followed by a text is those digits plus the run of the text |
| JsParseInt.ParseInt | server.js:66 | `parseInt` is NaN exactly when there is no digit to read: none after the whitespace and sign, or a `0x` prefix with no hexadecimal digit after it |
| JsParseInt.UnsignedOfSigned | server.js:66 | whitespace and a `+` or `-` in front of a digit are skipped, and the value is negated exactly when the sign is a minus |
| JsParseInt.ReadDecimalDigits | server.js:66 | a run of decimal digits followed by a text that does not continue it is read as the run's value, signed |
| JsParseInt.ParseIntOfDigits | server.js:66 | `parseInt` of whitespace, an optional sign and decimal digits (leading zeros allowed), followed by any text that does not continue them, is the signed value of the digits |
| JsParseInt.ParseIntOfNumeral | server.js:66 | `parseInt` of any integer's numeral followed by text that does not continue it gives that integer |
| CsvRows.BuildObjectKeys | server.js:53-54 | every trimmed column name is a key of the row object |
| CsvRows.BuildObjectMissing | server.js:53-54 | a name that no column trims to reads as `undefined` |
| CsvRows.BuildObjectLookup | server.js:53-54 | under a column name is the last such column's cell: `null` when the cell is past the end of the line or empty, otherwise the trimmed cell |
| CsvRows.ExtraCellsIgnored | server.js:51-55 | cells beyond the number of header columns do not change the object |
| CsvRows.Cell | server.js:54 | a cell is `null` or trimmed text, and it is truthy exactly when it exists and holds a non-whitespace character |
| CsvRows.BuildObject | server.js:52-55 | the object has at most one property per column, and every value is `null` or trimmed text |
| CsvRows.RowOf | server.js:51-55 | the object of a blank line has no first name |
| CsvRows.NoTruthyCell | server.js:53-54 | when no cell of the line is truthy, no value of its object is |
| CsvRows.BlankLineCells | server.js:51-55 | a blank line is a single non-truthy cell, so its object has no first name |
| CsvRows.KeptRowsAppend | server.js:50-57 | filtering works line by line, so kept objects stay in file order |
| CsvRows.KeptRowsMembers | server.js:50-57 | an object is kept exactly when it is the object of some data line and its first name is a non-empty string |
| CsvRows.KeptRows | server.js:50-57 | the kept objects are at most one per line, and each has a first name |
| CsvRows.ParseCsv | server.js:46-57 | a file gives fewer objects than it has lines, and each has a first name |
| CsvRows.HeaderOnlyFile | server.js:46-57 | a file whose data lines are all blank (none, or only empty or whitespace lines) yields no objects |
| CsvRows.NoFirstNameNoRows | server.js:50-57 | a file none of whose lines has a first name yields no objects |
| CsvRows.HeaderWithLineFeed | server.js:46-57 | a header line followed by a line feed yields no objects |
| UserRecords.OrNull | server.js:68-81 | a property read with a `null` fallback is a value exactly when it is a non-empty string, and then it is that string |
| UserRecords.FullName | server.js:65 | the stored name has no whitespace at either end and is no longer than the two name texts and a blank |
| UserRecords.AgeOf | server.js:66 | an age other than 0 comes from an age field that is a string with digits for `parseInt` to read |
| UserRecords.ToUserFields | server.js:65-83 | each of the nine nullable fields of the record is the value under its fixed key with the `null` fallback, in the order of the key table |
| UserRecords.NullableFieldFromKey | server.js:67-83 | each of the nine address and additional-info fields is the non-empty text under its fixed key, and `null` exactly when that key is missing, `null` or empty |
| UserRecords.NullableFieldFromLine | server.js:51-83 | followed back to the data line, such a field is the trimmed text of the last column with its key, or `null` when that cell is missing, empty or blank |
| UserRecords.NullableFieldWithoutColumn | server.js:53-83 | a field whose key names no column is `null` |
| UserRecords.TrimJoinedName | server.js:65 | trimming `first + " " + last` of two trimmed names removes only the blank, and only when the last name is empty |
| UserRecords.FullNameOfTrimmedValues | server.js:65 | for an object whose values are `null` or trimmed text, the name is the first name, a blank and the last name's text, without the blank when the last name is empty |
| UserRecords.FullNameOfRow | server.js:65 | the stored name of a kept row is the first name, a blank and the last name's text; a `null` last name is written as `null`; an empty one leaves the first name alone |
| UserRecords.AgeOfNumeral | server.js:66 | the stored age is the integer written at the start of the age field, whatever follows it |
| UserRecords.AgeOfDigits | server.js:66 | the stored age is the signed value of the digit run after any whitespace and a `+` or `-`, whatever follows the run, leading zeros included |
| UserRecords.AgeDefaultsToZero | server.js:66 | the stored age is 0 when the age field is missing, `null`, or has no digit for `parseInt` to read, a bare `0x` prefix included |
| AgeBuckets.BucketOf | server.js:111-114 | each age lies in exactly one bracket: below 20, 20 up to 40, 40 up to 60, 60 and above |
| AgeBuckets.CountIn | server.js:108-115 | a bracket holds at most as many ages as there are |
| AgeBuckets.CountsPartition | server.js:108-117 | the four bracket counts add up to the number of ages |
| AgeBuckets.CountInAppend | server.js:108-115 | counting is additive over concatenated age lists |
| AgeBuckets.CountInPermutation | server.js:105-115 | the counts do not depend on the order in which the rows come back |
| UsersTable.RecordsFor | server.js:64-85 | the insert loop produces one record per kept object, with strictly increasing ids |
| UsersTable.RecordsForSnoc | server.js:64-85 | inserting one more object appends its record, numbered next |
| UsersTable.KeptRowsSnoc | server.js:50-57 | reading one more line appends its object exactly when it has a first name |
| UsersTable.ParseLine | server.js:51-55 | the inner loop builds exactly the object of the line |
| UsersTable.ReadRows | server.js:46-57 | the outer loop collects exactly the kept objects of the file, in order |
| UsersTable.Table.constructor | server.js:26-35 | a fresh table is empty, and its id sequence starts at 1 |
| UsersTable.Table.Insert | server.js:84 | an insert appends one row with the next id and advances the sequence, so ids stay positive, increasing and unused |
| UsersTable.Table.InsertAll | server.js:64-85 | the insert loop appends one record per object, in order, with consecutive ids, and keeps ids increasing |
| UsersTable.Table.ImportData | server.js:39-85 | a table with a row is left unchanged; an empty one receives exactly the records of the kept objects, in file order, with consecutive increasing ids |
| UsersTable.Table.AgeDistribution | server.js:106-117 | the loop's counters are the bracket counts of the stored ages, and they add up to the total |
| UsersTable.ImportTwice | server.js:39-43 | importing a file twice into a fresh table stores what importing it once does |

## Left out

- The PostgreSQL client, its connection and the SQL text are not modelled.
  The `users` table is the `Table` class, `SELECT COUNT(*)` is `|rows|`, and
  an `INSERT` is `Table.Insert`.
- Express routing, middleware, static files, `app.listen` and the JSON
  responses are HTTP plumbing and are not modelled.
- `dotenv` and the environment configuration are not modelled.
- `fs.readFileSync` is I/O. The file contents are the `csv` parameter of
  `ImportData`.
- The percentages (`toFixed`, `parseFloat`, and NaN when the table is
  empty) are floating point. The model stops at the counts and the total.
- The try/catch logging is not modelled. Nor is the partial table that a
  failing insert would leave: inserts here do not fail.
- `ORDER BY id` when listing users is done by the database, not by this
  code.
- The `INT` range of the `age` column is not modelled.
- JavaScript's number precision in `parseInt` is not modelled: ages are
  unbounded integers.
- `ParseInt` reads hexadecimal digits after a `0x` prefix. Its contract
  says exactly when the result is NaN, but the value of a hexadecimal
  run is stated by no lemma: `ParseIntOfDigits` and `AgeOfDigits` cover
  decimal digits only.
- The age loop reads ages from the stored rows. The model does not
  describe values that are not integers, because the `age` column is
  `INT NOT NULL`.
