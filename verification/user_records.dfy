/** The second half of `importData` (server.js): turning one kept row object
    into the values one INSERT stores in the `users` table. */
module UserRecords {
  import opened Wrappers
  import opened JsText
  import opened JsParseInt
  import opened CsvRows

  datatype Address = Address(
    line1: Option<string>, line2: Option<string>, city: Option<string>, state: Option<string>)

  datatype Employment = Employment(status: Option<string>, company: Option<string>)

  datatype Preferences = Preferences(food: Option<string>, color: Option<string>)

  datatype AdditionalInfo = AdditionalInfo(
    gender: Option<string>, employment: Employment, preferences: Preferences)

  /** The `name`, `age`, `address` and `additional_info` columns of one row. */
  datatype UserFields = UserFields(
    name: string, age: int, address: Address, additionalInfo: AdditionalInfo)

  const LastNameKey := "name.lastName"
  const AgeKey := "age"

  /** The source keys of the nullable fields, in the order of `NullableFields`. */
  const NullableKeys: seq<string> := [
    "address.line1", "address.line2", "address.city", "address.state",
    "gender", "employment.status", "employment.company",
    "preferences.food.type", "preferences.color.favorite"
  ]

  /** `v || null`: a non-empty string is kept, anything else becomes `null`. */
  function OrNull(v: JsValue): (r: Option<string>)
    ensures r.Some? <==> Truthy(v)
    ensures r.Some? ==> v == Str(r.value)
  {
    if Truthy(v) then Some(v.text) else None
  }

  /** `${first} ${last}`.trim(): no whitespace at either end, and no longer
      than the two texts and the blank between them. */
  function FullName(user: RowObject): (name: string)
    ensures Trimmed(name)
    ensures |name| <= |ToJsString(Get(user, FirstNameKey))| + 1 + |ToJsString(Get(user, LastNameKey))|
  {
    Trim(ToJsString(Get(user, FirstNameKey)) + " " + ToJsString(Get(user, LastNameKey)))
  }

  /** `parseInt(user.age) || 0`: NaN (and 0) give 0, so an age other than 0
      comes from an age field with digits to read. */
  function AgeOf(user: RowObject): (age: int)
    ensures age != 0 ==> Get(user, AgeKey).Str? && !NoDigits(Get(user, AgeKey).text)
  {
    match ParseInt(ToJsString(Get(user, AgeKey)))
    case Some(n) => n
    case None => 0
  }

  /** The record the loop body builds for one kept row object: each nullable
      field is `||  null` of the value under its fixed key. */
  function ToUserFields(user: RowObject): (u: UserFields)
    ensures forall i :: 0 <= i < |NullableKeys| ==> NullableFields(u)[i] == OrNull(Get(user, NullableKeys[i]))
  {
    UserFields(
      FullName(user),
      AgeOf(user),
      Address(
        OrNull(Get(user, "address.line1")), OrNull(Get(user, "address.line2")),
        OrNull(Get(user, "address.city")), OrNull(Get(user, "address.state"))),
      AdditionalInfo(
        OrNull(Get(user, "gender")),
        Employment(OrNull(Get(user, "employment.status")), OrNull(Get(user, "employment.company"))),
        Preferences(OrNull(Get(user, "preferences.food.type")), OrNull(Get(user, "preferences.color.favorite")))))
  }

  /** The nullable fields of a record, in the order of `NullableKeys`. */
  function NullableFields(u: UserFields): (fs: seq<Option<string>>)
    ensures |fs| == |NullableKeys|
  {
    [ u.address.line1, u.address.line2, u.address.city, u.address.state,
      u.additionalInfo.gender,
      u.additionalInfo.employment.status, u.additionalInfo.employment.company,
      u.additionalInfo.preferences.food, u.additionalInfo.preferences.color ]
  }

  /** Every nullable field is the non-empty text under its fixed key, or
      `null` when that key is missing, `null` or empty. */
  lemma NullableFieldFromKey(user: RowObject, i: nat)
    requires i < |NullableKeys|
    ensures var f := NullableFields(ToUserFields(user))[i];
      var v := Get(user, NullableKeys[i]);
      && (f.Some? <==> v.Str? && v.text != "")
      && (f.Some? ==> v == Str(f.value))
  {
  }

  /** Followed back to the data line: a nullable field holds the trimmed text
      of the last column named by its key, and is `null` when no column has
      that name, the line has no such cell, or the cell is blank. */
  lemma NullableFieldFromLine(headers: seq<string>, line: string, i: nat, j: nat)
    requires i < |NullableKeys|
    requires j < |headers| && Trim(headers[j]) == NullableKeys[i]
    requires forall k :: j < k < |headers| ==> Trim(headers[k]) != NullableKeys[i]
    ensures var cols := Split(line, ',');
      NullableFields(ToUserFields(RowOf(headers, line)))[i]
        == if j < |cols| && Trim(cols[j]) != "" then Some(Trim(cols[j])) else None
  {
    var cols := Split(line, ',');
    BuildObjectLookup(headers, cols, |headers|, j);
    NullableFieldFromKey(RowOf(headers, line), i);
  }

  lemma NullableFieldWithoutColumn(headers: seq<string>, line: string, i: nat)
    requires i < |NullableKeys|
    requires forall k :: 0 <= k < |headers| ==> Trim(headers[k]) != NullableKeys[i]
    ensures NullableFields(ToUserFields(RowOf(headers, line)))[i] == None
  {
    BuildObjectMissing(headers, Split(line, ','), |headers|, NullableKeys[i]);
    NullableFieldFromKey(RowOf(headers, line), i);
  }

  /** Trimming the joined name only removes the separating blank when the
      last name is empty. */
  lemma TrimJoinedName(first: string, last: string)
    requires first != [] && Trimmed(first) && Trimmed(last)
    ensures Trim(first + " " + last) == if last == "" then first else first + " " + last
  {
    if last == "" {
      assert AllWhitespace(" ");
      TrimPadded([], first, " ");
      assert [] + first + " " == first + " " + last;
    } else {
      var r := first + " " + last;
      assert r[0] == first[0] && r[|r| - 1] == last[|last| - 1];
      TrimOfTrimmed(r);
    }
  }

  /** The name of an object with a first name whose values are all `null`
      or trimmed text. */
  lemma FullNameOfTrimmedValues(user: RowObject)
    requires HasFirstName(user)
    requires forall key :: key in user ==> user[key] == Null || (user[key].Str? && Trimmed(user[key].text))
    ensures var first := Get(user, FirstNameKey).text;
      var last := ToJsString(Get(user, LastNameKey));
      FullName(user) == if last == "" then first else first + " " + last
  {
    var first := Get(user, FirstNameKey).text;
    var last := ToJsString(Get(user, LastNameKey));
    assert Trimmed(first);
    assert Trimmed(last) by {
      if Get(user, LastNameKey).Str? {
        assert LastNameKey in user;
      }
    }
    TrimJoinedName(first, last);
  }

  /** The stored name of a kept row is its first name, a blank and the text
      of its last name; a last name that is `null` or `undefined` is written
      out as that word, and an empty one leaves the first name alone. */
  lemma FullNameOfRow(headers: seq<string>, line: string)
    requires HasFirstName(RowOf(headers, line))
    ensures var user := RowOf(headers, line);
      var first := Get(user, FirstNameKey).text;
      var last := ToJsString(Get(user, LastNameKey));
      FullName(user) == if last == "" then first else first + " " + last
    ensures var user := RowOf(headers, line);
      Get(user, LastNameKey) == Null ==>
        FullName(user) == Get(user, FirstNameKey).text + " null"
  {
    FullNameOfTrimmedValues(RowOf(headers, line));
  }

  /** The stored age is the number written at the start of the age field,
      whatever text follows it. */
  lemma AgeOfNumeral(user: RowObject, n: int, rest: string)
    requires Get(user, AgeKey) == Str(IntToString(n) + rest)
    requires rest == [] || !IsDigit(rest[0])
    requires n == 0 && rest != [] ==> rest[0] != 'x' && rest[0] != 'X'
    ensures AgeOf(user) == n
  {
    ParseIntOfNumeral(n, rest);
  }

  /** The stored age is the signed value of the digit run at the start of
      the age field, after any whitespace and a `+` or `-` sign, whatever
      text follows the run. */
  lemma AgeOfDigits(user: RowObject, w: string, sign: string, ds: string, rest: string)
    requires Get(user, AgeKey) == Str(w + sign + ds + rest)
    requires AllWhitespace(w)
    requires sign == "" || sign == "+" || sign == "-"
    requires |ds| >= 1 && AllDigits(ds, false)
    requires rest == [] || !IsDigit(rest[0])
    requires ds == "0" && rest != [] ==> rest[0] != 'x' && rest[0] != 'X'
    ensures AgeOf(user) == if sign == "-" then -(ValueOf(ds, false) as int) else ValueOf(ds, false)
  {
    ParseIntOfDigits(w, sign, ds, rest);
  }

  /** The stored age is 0 when the age field is missing, `null`, or has no
      digit for `parseInt` to read. */
  lemma AgeDefaultsToZero(user: RowObject)
    requires var v := Get(user, AgeKey); !v.Str? || NoDigits(v.text)
    ensures AgeOf(user) == 0
  {
    var s := ToJsString(Get(user, AgeKey));
    if !Get(user, AgeKey).Str? {
      assert s[0] == 'n' || s[0] == 'u';
      assert Unsigned(s) == s;
    }
  }
}
