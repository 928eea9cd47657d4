/** `VoterRegisterSerializer` (elections/serializers.py): the student-ID
    uniqueness check, the two `validate` definitions of the class and which
    one Python keeps, and `create`, which derives the display name, hashes
    the PIN and saves the new voter. */
module VoterRegisterSerializer {
  import opened Outcomes
  import opened PyText
  import opened PyInt
  import opened PyValues
  import opened PyClass

  /** The fields the serializer declares: the keys its validated attributes
      can have. */
  const RegisterFields: set<string> := {
    "first_name", "middle_name", "last_name", "student_id", "date_of_birth",
    "degree_program", "batch_year", "campus_chapter", "email", "phone",
    "employment_status", "industry_field", "privacy_consent", "password"
  }

  const StudentIdTaken := FieldError("student_id", "Student ID already registered.")
  const BatchYearRequired := FieldError("batch_year", "Batch year is required.")
  const BatchYearInvalid := FieldError("batch_year", "Batch year looks invalid.")
  const ConsentRequired := FieldError("privacy_consent", "Consent is required to register.")
  const WrongPosition := NonFieldError("Candidate does not belong to the selected position.")

  // ---------------------------------------------------------------------
  // validate_student_id

  /** `Voter.objects.filter(student_id__iexact=value).exists()`: some stored
      student ID equals `value` once both are case-folded by `fold`, the
      database's case-insensitive comparison. A NULL ID matches nothing. */
  function IExactExists(stored: seq<Option<string>>, fold: string -> string, value: string): (found: bool)
    ensures found <==> exists i :: 0 <= i < |stored| && stored[i].Some? && fold(stored[i].value) == fold(value)
  {
    if stored == [] then false
    else
      (stored[0].Some? && fold(stored[0].value) == fold(value))
      || IExactExists(stored[1..], fold, value)
  }

  /** `validate_student_id(value)`: the trimmed ID, unless it is already
      registered under any capitalisation. */
  function ValidateStudentId(value: string, stored: seq<Option<string>>, fold: string -> string): (r: Result<string>)
    ensures r.Ok? <==> forall i :: 0 <= i < |stored| && stored[i].Some? ==> fold(stored[i].value) != fold(Strip(value))
    ensures r.Ok? ==> r.value == Strip(value) && Trimmed(r.value)
    ensures r.Err? ==> r.failure == StudentIdTaken
  {
    var v := Strip(value);
    if IExactExists(stored, fold, v) then Err(StudentIdTaken) else Ok(v)
  }

  predicate IsAsciiUpper(c: char) {
    'A' <= c <= 'Z'
  }

  /** SQLite's case folding of one character: an ASCII capital becomes its
      small letter, every other character is left alone. */
  function LowerAscii(c: char): (r: char)
    ensures !IsAsciiUpper(r)
    ensures IsAsciiUpper(c) ==> 'a' <= r <= 'z' && r as int - c as int == 'a' as int - 'A' as int
    ensures !IsAsciiUpper(c) ==> r == c
  {
    if IsAsciiUpper(c) then (c as int + 32) as char else c
  }

  /** ASCII-only case folding, as SQLite's `LIKE` performs it. */
  function AsciiLower(s: string): string {
    seq(|s|, k requires 0 <= k < |s| => LowerAscii(s[k]))
  }

  /** Two characters that are the same letter, one of them an ASCII capital
      and the other the matching small letter. */
  predicate CaseVariants(a: char, b: char) {
    || (IsAsciiUpper(a) && b as int == a as int + 32)
    || (IsAsciiUpper(b) && a as int == b as int + 32)
  }

  /** Two characters fold alike exactly when they are equal or are the two
      cases of one ASCII letter. */
  lemma LowerAsciiSame(a: char, b: char)
    ensures LowerAscii(a) == LowerAscii(b) <==> a == b || CaseVariants(a, b)
  {
  }

  /** `student_id__iexact` under SQLite: two IDs match exactly when they
      have the same length and agree at every position up to the case of
      ASCII letters. */
  lemma AsciiLowerSame(s: string, t: string)
    ensures AsciiLower(s) == AsciiLower(t)
            <==> |s| == |t| && forall k :: 0 <= k < |s| ==> s[k] == t[k] || CaseVariants(s[k], t[k])
  {
    if |s| == |t| && forall k :: 0 <= k < |s| ==> s[k] == t[k] || CaseVariants(s[k], t[k]) {
      forall k | 0 <= k < |s|
        ensures AsciiLower(s)[k] == AsciiLower(t)[k]
      {
        LowerAsciiSame(s[k], t[k]);
      }
    }
    if AsciiLower(s) == AsciiLower(t) {
      forall k | 0 <= k < |s|
        ensures s[k] == t[k] || CaseVariants(s[k], t[k])
      {
        assert AsciiLower(s)[k] == AsciiLower(t)[k];
        LowerAsciiSame(s[k], t[k]);
      }
    }
  }

  /** Folding twice folds no further. */
  lemma AsciiLowerIdempotent(s: string)
    ensures AsciiLower(AsciiLower(s)) == AsciiLower(s)
  {
  }

  lemma StripPaddedId()
    ensures Strip(" abc-7 ") == "abc-7"
  {
    var s := " abc-7 ";
    assert s[1..6] == "abc-7" && s[..1] == " " && s[6..] == " ";
    StripWitness("abc-7", s, 1, 6, Whitespace);
  }

  lemma LowerCaseId()
    ensures AsciiLower("ABC-7") == "abc-7" == AsciiLower("abc-7")
  {
    var r := AsciiLower("ABC-7");
    assert r[0] == 'a' && r[1] == 'b' && r[2] == 'c' && r[3] == '-' && r[4] == '7';
    var q := AsciiLower("abc-7");
    assert q[0] == 'a' && q[1] == 'b' && q[2] == 'c' && q[3] == '-' && q[4] == '7';
  }

  /** A padded, lower-case spelling of a stored ID is refused. */
  lemma CaseVariantRefused()
    ensures ValidateStudentId(" abc-7 ", [None, Some("ABC-7")], AsciiLower) == Err(StudentIdTaken)
  {
    StripPaddedId();
    LowerCaseId();
    var stored := [None, Some("ABC-7")];
    assert stored[1].Some? && AsciiLower(stored[1].value) == AsciiLower(Strip(" abc-7 "));
  }

  // ---------------------------------------------------------------------
  // The first `validate` (lines 208-217), replaced by the second one

  /** `int(attrs.get("batch_year"))` succeeds and lies in [1950, 2100]. */
  predicate InBatchYearRange(v: Value) {
    IntOf(v).Converted? && 1950 <= IntOf(v).n <= 2100
  }

  /** The `try` block at lines 209-212: the exception it raises, if any. */
  function BatchYearCheck(v: Value): (r: Option<PyException>)
    ensures r.None? <==> InBatchYearRange(v)
    ensures IntOf(v).Raised? ==> r == Some(IntOf(v).exception)
    ensures IntOf(v).Converted? && r.Some? ==> r == Some(ValidationError(BatchYearInvalid))
  {
    match IntOf(v)
    case Raised(e) => Some(e)
    case Converted(year) =>
      if year < 1950 || year > 2100 then Some(ValidationError(BatchYearInvalid)) else None
  }

  /** A batch year written as decimal text is in range exactly when the
      number it spells is. */
  lemma YearTextInRange(year: int)
    ensures InBatchYearRange(VStr(IntToDecimal(year))) <==> 1950 <= year <= 2100
  {
    IntOfDecimalString(year);
    if 1950 <= year <= 2100 {
      NatToDecimalLength(year);
    }
  }

  /** The first `validate`, as written: `except Exception` catches every
      exception of the `try` block, the "looks invalid" error included. */
  function ValidateYearAndConsent(attrs: Attrs): (r: Result<Attrs>)
    ensures r.Ok? <==> InBatchYearRange(Get(attrs, "batch_year")) && Truthy(Get(attrs, "privacy_consent"))
    ensures r.Ok? ==> r.value == attrs
    ensures !InBatchYearRange(Get(attrs, "batch_year")) ==> r == Err(BatchYearRequired)
    ensures InBatchYearRange(Get(attrs, "batch_year")) && !Truthy(Get(attrs, "privacy_consent")) ==> r == Err(ConsentRequired)
  {
    match BatchYearCheck(Get(attrs, "batch_year"))
    case Some(_) => Err(BatchYearRequired)
    case None =>
      if !Truthy(Get(attrs, "privacy_consent")) then Err(ConsentRequired) else Ok(attrs)
  }

  /** An integer batch year out of range raises "looks invalid", but the
      error reported is "is required". */
  lemma OutOfRangeYearReportedAsMissing(attrs: Attrs, year: int)
    requires Get(attrs, "batch_year") == VInt(year) && (year < 1950 || year > 2100)
    ensures BatchYearCheck(VInt(year)) == Some(ValidationError(BatchYearInvalid))
    ensures ValidateYearAndConsent(attrs) == Err(BatchYearRequired)
  {
  }

  /** The first `validate` with the handler narrowed to the conversion
      errors, so that an out-of-range year reports "looks invalid". */
  function ValidateYearAndConsentIntended(attrs: Attrs): (r: Result<Attrs>)
    ensures r.Ok? <==> InBatchYearRange(Get(attrs, "batch_year")) && Truthy(Get(attrs, "privacy_consent"))
    ensures r.Ok? ==> r.value == attrs
    ensures IntOf(Get(attrs, "batch_year")).Raised? ==> r == Err(BatchYearRequired)
    ensures IntOf(Get(attrs, "batch_year")).Converted? && !InBatchYearRange(Get(attrs, "batch_year")) ==> r == Err(BatchYearInvalid)
    ensures InBatchYearRange(Get(attrs, "batch_year")) && !Truthy(Get(attrs, "privacy_consent")) ==> r == Err(ConsentRequired)
  {
    match BatchYearCheck(Get(attrs, "batch_year"))
    case Some(ValidationError(detail)) => Err(detail)
    case Some(_) => Err(BatchYearRequired)
    case None =>
      if !Truthy(Get(attrs, "privacy_consent")) then Err(ConsentRequired) else Ok(attrs)
  }

  /** The corrected check accepts and rejects the same payloads as the one
      written, and differs only in the message for an out-of-range year. */
  lemma IntendedYearCheckAgrees(attrs: Attrs)
    ensures ValidateYearAndConsentIntended(attrs).Ok? <==> ValidateYearAndConsent(attrs).Ok?
    ensures !(IntOf(Get(attrs, "batch_year")).Converted? && !InBatchYearRange(Get(attrs, "batch_year"))) ==>
              ValidateYearAndConsentIntended(attrs) == ValidateYearAndConsent(attrs)
  {
  }

  // ---------------------------------------------------------------------
  // The second `validate` (lines 232-237), the one the class keeps

  /** What the comparison at line 235 needs in order not to raise
      `AttributeError`: when both objects are present, the candidate has a
      `position_id` and the position an `id`. */
  predicate Comparable(attrs: Attrs) {
    var c := Get(attrs, "candidate");
    var p := Get(attrs, "position");
    Truthy(c) && Truthy(p) ==> GetAttr(c, "position_id").Some? && GetAttr(p, "id").Some?
  }

  /** The candidate/position consistency check. */
  function ValidateConsistency(attrs: Attrs): (r: Result<Attrs>)
    requires Comparable(attrs)
    ensures r.Ok? ==> r.value == attrs
    ensures r.Err? ==> r.failure == WrongPosition
    ensures r.Err? <==>
              && Truthy(Get(attrs, "candidate")) && Truthy(Get(attrs, "position"))
              && GetAttr(Get(attrs, "candidate"), "position_id") != GetAttr(Get(attrs, "position"), "id")
  {
    var candidate := Get(attrs, "candidate");
    var position := Get(attrs, "position");
    if Truthy(candidate) && Truthy(position)
       && GetAttr(candidate, "position_id").value != GetAttr(position, "id").value
    then Err(WrongPosition)
    else Ok(attrs)
  }

  /** For a candidate and a position given as model instances, the check
      passes exactly when the candidate's position is that position. */
  lemma ConsistencyOfInstances(attrs: Attrs, candidate: map<string, Value>, position: map<string, Value>)
    requires "candidate" in attrs && attrs["candidate"] == VInstance("Candidate", candidate)
    requires "position" in attrs && attrs["position"] == VInstance("Position", position)
    requires "position_id" in candidate && "id" in position
    ensures Comparable(attrs)
    ensures ValidateConsistency(attrs).Ok? <==> candidate["position_id"] == position["id"]
  {
  }

  // ---------------------------------------------------------------------
  // Which `validate` the class keeps

  /** The members the class body defines, in the order it defines them. */
  datatype Member =
    | ValidateStudentIdDef
    | ValidateYearAndConsentDef
    | CreateDef
    | ValidateConsistencyDef

  const ClassBody: seq<(string, Member)> := [
    ("validate_student_id", ValidateStudentIdDef),
    ("validate", ValidateYearAndConsentDef),
    ("create", CreateDef),
    ("validate", ValidateConsistencyDef)
  ]

  /** The class's `validate` is the second definition; the first is lost. */
  lemma EffectiveValidate()
    ensures "validate" in Namespace(ClassBody)
    ensures Namespace(ClassBody)["validate"] == ValidateConsistencyDef
    ensures Namespace(ClassBody)["validate"] != ValidateYearAndConsentDef
  {
    LastDefinitionWins(ClassBody, "validate", 3);
  }

  /** `serializer.validate(attrs)`: the member the class namespace binds to
      `validate`, run on `attrs`. */
  function Validate(attrs: Attrs): (r: Result<Attrs>)
    requires Comparable(attrs)
    ensures r == ValidateConsistency(attrs)
  {
    EffectiveValidate();
    match Namespace(ClassBody)["validate"]
    case ValidateYearAndConsentDef => ValidateYearAndConsent(attrs)
    case ValidateConsistencyDef => ValidateConsistency(attrs)
    case _ => assert false; Ok(attrs)
  }

  /** The declared fields include neither `candidate` nor `position`, so the
      `validate` in force accepts every registration payload unchanged:
      neither the batch year nor the consent flag is ever examined. */
  lemma {:induction false} RegistrationValidateAcceptsAll(attrs: Attrs)
    requires attrs.Keys <= RegisterFields
    ensures Comparable(attrs)
    ensures Validate(attrs) == Ok(attrs)
  {
    assert "candidate" !in attrs;
  }

  /** A payload with every required field, but an impossible batch year
      and no consent. */
  const UnconsentedPayload: Attrs := map[
    "first_name" := VStr("Juan"), "last_name" := VStr("Dela Cruz"),
    "student_id" := VStr("2019-0001"), "batch_year" := VInt(1800),
    "date_of_birth" := VDate(2001, 5, 14), "degree_program" := VStr("BS Public Administration"),
    "email" := VStr("juan@example.com"), "phone" := VStr("09171234567"),
    "employment_status" := VStr("employed"), "industry_field" := VStr("government"),
    "privacy_consent" := VBool(false), "password" := VStr("12345678")
  ]

  /** The payload above passes the `validate` in force, although the first
      definition would have rejected it. */
  lemma ShadowedChecksSkipped()
    ensures Validate(UnconsentedPayload) == Ok(UnconsentedPayload)
    ensures ValidateYearAndConsent(UnconsentedPayload) == Err(BatchYearRequired)
  {
    RegistrationValidateAcceptsAll(UnconsentedPayload);
  }

  /** Registration validation as evidently intended: the corrected batch
      year and consent checks, then the consistency check. */
  function ValidateIntended(attrs: Attrs): (r: Result<Attrs>)
    requires Comparable(attrs)
    ensures r.Ok? <==>
              && InBatchYearRange(Get(attrs, "batch_year"))
              && Truthy(Get(attrs, "privacy_consent"))
              && ValidateConsistency(attrs).Ok?
    ensures r.Ok? ==> r.value == attrs
    ensures r.Err? && !ValidateYearAndConsentIntended(attrs).Ok? ==> r == ValidateYearAndConsentIntended(attrs)
  {
    match ValidateYearAndConsentIntended(attrs)
    case Err(f) => Err(f)
    case Ok(_) => ValidateConsistency(attrs)
  }

  /** On a registration payload the intended validation accepts exactly the
      payloads with a batch year in range and consent given. */
  lemma {:induction false} IntendedRegistrationValidation(attrs: Attrs)
    requires attrs.Keys <= RegisterFields
    ensures Comparable(attrs)
    ensures ValidateIntended(attrs).Ok? <==>
              InBatchYearRange(Get(attrs, "batch_year")) && Truthy(Get(attrs, "privacy_consent"))
    ensures ValidateIntended(UnconsentedPayload) == Err(BatchYearInvalid)
  {
    assert "candidate" !in attrs;
    assert "candidate" !in UnconsentedPayload;
  }

  // ---------------------------------------------------------------------
  // create (lines 219-230)

  /** A row of the voters table: its column values and the PIN hash
      `set_pin` stores. */
  datatype Voter = Voter(fields: map<string, Value>, pinHash: Option<string>)

  /** Column defaults the model supplies when `Voter(**data)` omits them:
      `alumni_id` is nullable, `middle_name` is a blank, non-null text
      column and so holds the empty string, and `is_approved` and
      `pin_reset_requested` default to false. */
  const ModelDefaults: map<string, Value> := map[
    "alumni_id" := VNone,
    "middle_name" := VStr(""),
    "is_approved" := VBool(false),
    "pin_reset_requested" := VBool(false)
  ]

  /** The name fields `create` reads hold strings when present. */
  predicate NamePartsAreStrings(data: map<string, Value>) {
    && ("first_name" in data ==> data["first_name"].VStr?)
    && ("middle_name" in data ==> data["middle_name"].VStr?)
    && ("last_name" in data ==> data["last_name"].VStr?)
  }

  /** `data.get(key, "")` for a name field. */
  function NamePart(data: map<string, Value>, key: string): string
    requires key in data ==> data[key].VStr?
  {
    if key in data then data[key].s else ""
  }

  /** The name `create` derives from the first, middle and last names: the
      stripped parts that are not empty, joined by single spaces, stripped
      once more. That last `strip()` changes nothing, and the name has no
      whitespace at either end. */
  function FullName(first: string, middle: string, last: string): (r: string)
    ensures r == JoinSpace(NonEmpty([Strip(first), Strip(middle), Strip(last)]))
    ensures Trimmed(r)
  {
    AllTrimmedThree(Strip(first), Strip(middle), Strip(last));
    JoinNonEmptyTrimmed([Strip(first), Strip(middle), Strip(last)]);
    Strip(JoinSpace(NonEmpty([Strip(first), Strip(middle), Strip(last)])))
  }

  /** The display name `create` stores under `name`. */
  function DisplayName(data: map<string, Value>): string
    requires NamePartsAreStrings(data)
  {
    FullName(NamePart(data, "first_name"), NamePart(data, "middle_name"), NamePart(data, "last_name"))
  }

  /** The full name is empty exactly when every part is blank. */
  lemma FullNameEmptyIffBlank(first: string, middle: string, last: string)
    ensures FullName(first, middle, last) == "" <==> Strip(first) == "" && Strip(middle) == "" && Strip(last) == ""
  {
    JoinThreeIsEmpty(Strip(first), Strip(middle), Strip(last));
  }

  /** A blank middle name is left out: first and last are joined by one
      space. */
  lemma FullNameWithoutMiddle(first: string, middle: string, last: string)
    ensures Strip(first) != "" && Strip(middle) == "" && Strip(last) != "" ==>
              FullName(first, middle, last) == Strip(first) + " " + Strip(last)
  {
    if Strip(first) != "" && Strip(middle) == "" && Strip(last) != "" {
      JoinSkipsEmptyMiddle(Strip(first), Strip(middle), Strip(last));
    }
  }

  lemma StripKeepsNoSpace(s: string)
    requires NoSpace(s)
    ensures NoSpace(Strip(s))
  {
    var r := Strip(s);
    var i, j :| StripsTo(s, r, i, j, Whitespace);
    assert forall k :: 0 <= k < |r| ==> r[k] == s[i + k];
  }

  /** When no part holds an inner space, splitting the full name on spaces
      gives back exactly the non-blank stripped parts, in order. */
  lemma FullNameWords(first: string, middle: string, last: string)
    requires NoSpace(first) && NoSpace(middle) && NoSpace(last)
    ensures FullName(first, middle, last) != "" ==>
              SplitSpace(FullName(first, middle, last)) == NonEmpty([Strip(first), Strip(middle), Strip(last)])
  {
    if FullName(first, middle, last) != "" {
      var parts := [Strip(first), Strip(middle), Strip(last)];
      StripKeepsNoSpace(first);
      StripKeepsNoSpace(middle);
      StripKeepsNoSpace(last);
      AllNoSpaceThree(Strip(first), Strip(middle), Strip(last));
      SplitJoinNonEmpty(parts);
    }
  }

  /** The student-ID column of the voters table; a row without a string ID
      holds NULL. */
  function StudentIdColumn(rows: seq<Voter>): seq<Option<string>> {
    seq(|rows|, i requires 0 <= i < |rows| =>
      if "student_id" in rows[i].fields && rows[i].fields["student_id"].VStr?
      then Some(rows[i].fields["student_id"].s) else None)
  }

  /** The voters table `save()` writes to. */
  class VoterTable {
    var rows: seq<Voter>

    constructor ()
      ensures rows == []
    {
      rows := [];
    }

    /** `voter.save()` for a new voter: one more row. */
    method Save(voter: Voter)
      modifies this
      ensures rows == old(rows) + [voter]
    {
      rows := rows + [voter];
    }
  }

  /** The voter `create` builds from `validated`, with `name` as its
      display name and `pinHash` as the hash of its PIN. The raw PIN is not
      a column of the new voter; every other validated field is carried
      over unchanged, `name` holds the given name, the model's defaults
      fill only what the payload leaves out, and the PIN is kept only as
      its hash. */
  function CreatedVoter(validated: map<string, Value>, name: string, pinHash: string): (v: Voter)
    ensures "password" !in v.fields
    ensures "name" in v.fields && v.fields["name"] == VStr(name)
    ensures forall k :: k in validated && k != "password" && k != "name" ==>
              k in v.fields && v.fields[k] == validated[k]
    ensures forall k :: k in ModelDefaults && k !in validated ==>
              k in v.fields && v.fields[k] == ModelDefaults[k]
    ensures v.fields.Keys == validated.Keys - {"password"} + {"name"} + ModelDefaults.Keys
    ensures v.pinHash == Some(pinHash)
  {
    assert "password" !in ModelDefaults;
    assert "name" !in ModelDefaults;
    Voter(ModelDefaults + (validated - {"password"})["name" := VStr(name)], Some(pinHash))
  }

  /** `create(validated_data)`: pops the password, stores the display name
      under `name`, builds the voter from what is left, hashes the PIN with
      `hash` and saves the voter. */
  method Create(data: PyDict, table: VoterTable, hash: string -> string) returns (voter: Voter)
    requires "password" in data.items && data.items["password"].VStr?
    requires NamePartsAreStrings(data.items)
    modifies data, table
    ensures data.items == (old(data.items) - {"password"})["name" := VStr(DisplayName(old(data.items)))]
    ensures voter == CreatedVoter(old(data.items), DisplayName(old(data.items)), hash(old(data.items)["password"].s))
    ensures table.rows == old(table.rows) + [voter]
  {
    var password := data.Pop("password");
    var first := data.GetOr("first_name", VStr("")).s;
    var middle := data.GetOr("middle_name", VStr("")).s;
    var last := data.GetOr("last_name", VStr("")).s;
    assert FullName(first, middle, last) == DisplayName(old(data.items)) by {
      assert first == NamePart(old(data.items), "first_name");
      assert middle == NamePart(old(data.items), "middle_name");
      assert last == NamePart(old(data.items), "last_name");
    }
    data.SetItem("name", VStr(FullName(first, middle, last)));
    voter := Voter(ModelDefaults + data.items, None);
    voter := voter.(pinHash := Some(hash(password.s)));
    table.Save(voter);
  }

  /** Once a voter with student ID `sid` is saved, any later registration
      whose trimmed ID case-folds to the same key is refused. */
  lemma {:induction false} SavedStudentIdIsTaken(rows: seq<Voter>, voter: Voter, sid: string, value: string, fold: string -> string)
    requires "student_id" in voter.fields && voter.fields["student_id"] == VStr(sid)
    requires fold(Strip(value)) == fold(sid)
    ensures ValidateStudentId(value, StudentIdColumn(rows + [voter]), fold) == Err(StudentIdTaken)
  {
    var ids := StudentIdColumn(rows + [voter]);
    assert (rows + [voter])[|rows|] == voter;
    assert ids[|rows|] == Some(sid);
  }
}
