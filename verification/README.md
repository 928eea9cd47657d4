# Voter registration, ballot and photo-URL serializers — a Dafny model

This project models the validation and transform logic in the election
backend's serializers (`dilg-voting-backend/elections/serializers.py`):

- `VoterRegisterSerializer.validate_student_id`: the student ID is trimmed
  and refused when it is already registered under any capitalisation.
- The two `validate` methods of `VoterRegisterSerializer`. The first checks
  the batch year and privacy consent. The second checks that a candidate
  belongs to the selected position. Python keeps only the second.
- `VoterRegisterSerializer.create`: pops the password from the validated
  data, derives the display `name`, builds the voter, hashes the PIN and
  saves the voter.
- `BallotSubmitSerializer.validate`: a ballot must hold at least one
  selection.
- `CandidateSerializer.get_photo_url`: the photo's address. It is absent when
  there is no photo, absolute when a request is at hand, and relative
  otherwise.

The modules follow that structure:
- `Outcomes`: result and error types.
- `PyText`: `str.strip` (with and without a set of characters), `" ".join`
  and `str.split`.
- `PyInt`: `int()` on text. It skips a slightly smaller set of whitespace
  than `str.strip()` does (`IntSpace`).
- `PyValues`: Python values, truthiness, `dict.get`, attribute access,
  `int(x)`, and a mutable `PyDict`.
- `PyClass`: how a class body binds its members.
- `VoterRegisterSerializer`, `BallotSubmitSerializer`, `CandidateSerializer`:
  one module per serializer class.

A validator returns `Ok(value)` or `Err(failure)`. A failure is either a
`FieldError(field, message)` or a `NonFieldError(message)`, mirroring the
framework's error detail.

The first `validate` (serializers.py:208-217) refuses an out-of-range
batch year and a missing consent. The second `validate` (serializers.py:232)
replaces it, so that check never runs; see "## Findings". The remaining
candidate/position check sits on `VoterRegisterSerializer`, whose declared
fields include neither `candidate` nor `position`.

## Model

| member | source | states |
|---|---|---|
| `PyText.StripChars` | dilg-voting-backend/elections/serializers.py:203 | `s.strip(chars)` returns a slice of `s` with only characters of `chars` cut off either end, and neither of its ends is one of `chars`. `s.strip()` is this with `Whitespace`, Python's `isspace` set. |
| `PyText.StripWitness` | dilg-voting-backend/elections/serializers.py:203 | Any cut of characters of `chars` off both ends that leaves ends outside `chars` gives exactly `s.strip(chars)`. |
| `PyText.StripOfUnique` | dilg-voting-backend/elections/serializers.py:203 | The strip of a string by a set of characters is uniquely determined by that description. |
| `PyText.StripTrimmed` | dilg-voting-backend/elections/serializers.py:226 | Stripping a string neither of whose ends is one of `chars` leaves it unchanged. |
| `PyText.StripIdempotent` | dilg-voting-backend/elections/serializers.py:203 | `strip(chars)` is idempotent. |
| `PyText.NonEmpty` | dilg-voting-backend/elections/serializers.py:226 | `[p for p in parts if p]` returns only non-empty strings, no more than it was given. It preserves trimmed ends and absence of spaces. It is empty iff every part is empty. |
| `PyText.NonEmptyMembers` | dilg-voting-backend/elections/serializers.py:226 | A string is in the result iff it is one of the parts and is not empty. |
| `PyText.NonEmptyAppend` | dilg-voting-backend/elections/serializers.py:226 | Filtering a concatenation gives the filtered left side followed by the filtered right side, so the parts keep their order. |
| `PyText.NonEmptyThree` | dilg-voting-backend/elections/serializers.py:226 | For three parts, the result is the non-empty ones among first, middle and last, in that order. |
| `PyText.JoinSpaceTrimmed` | dilg-voting-backend/elections/serializers.py:226 | Joining non-empty trimmed parts with single spaces gives a trimmed string. That string starts with the first part's first character and ends with the last part's last character. |
| `PyText.JoinNonEmptyTrimmed` | dilg-voting-backend/elections/serializers.py:226 | The trailing `.strip()` after the join changes nothing. |
| `PyText.JoinNonEmptyIsEmpty` | dilg-voting-backend/elections/serializers.py:226 | The joined non-empty parts are empty iff every part is empty. |
| `PyText.JoinSkipsEmptyMiddle` | dilg-voting-backend/elections/serializers.py:226 | An empty middle part is dropped: `a + " " + c`. |
| `PyText.SplitJoinSpace` | dilg-voting-backend/elections/serializers.py:226 | Splitting on `" "` undoes the join when the parts are non-empty and hold no space. |
| `PyInt.ParseIntOfDecimal` | dilg-voting-backend/elections/serializers.py:210 | `int(str(n)) == n` for every integer of at most 4300 digits. For a longer one, `int()` raises `ValueError` (CPython's default digit limit). |
| `PyInt.ParseDigits` | dilg-voting-backend/elections/serializers.py:210 | Text made of ASCII digits converts to its decimal value, unless it has more than 4300 digits. |
| `PyInt.ParseMinusDigits` | dilg-voting-backend/elections/serializers.py:210 | A minus sign followed by ASCII digits converts to minus their value, unless there are more than 4300 digits. |
| `PyInt.ParseIntLiteral` | dilg-voting-backend/elections/serializers.py:210 | `int(s)` on text: when it gives a value, the text left after skipping `IntSpace` at both ends starts with a digit or a sign and ends with a digit. It has at most 4300 digits, and a negative value comes from a leading minus sign. |
| `PyInt.ParseIntIgnoresPadding` | dilg-voting-backend/elections/serializers.py:210 | `int()` ignores the whitespace it skips around the literal (`IntSpace`): ASCII `\t \n \v \f \r` and space, and every non-ASCII whitespace character. |
| `PyInt.SeparatorIsNotPadding` | dilg-voting-backend/elections/serializers.py:210 | An information separator (U+001C) before the digits is removed by `str.strip()`, but `int()` raises `ValueError` on it. |
| `PyValues.GetAttr` | dilg-voting-backend/elections/serializers.py:235 | An attribute exists only on a model instance that has it, and its value is the instance's value for that name. |
| `PyValues.IntOf` | dilg-voting-backend/elections/serializers.py:210 | `int(v)`: an int converts to itself, text converts iff it parses, and other values raise only `TypeError` or `ValueError`. |
| `PyValues.IntOfDecimalString` | dilg-voting-backend/elections/serializers.py:210 | `int()` of an integer's decimal text gives that integer back when it has at most 4300 digits, and raises `ValueError` otherwise. |
| `PyValues.PyDict.Pop` | dilg-voting-backend/elections/serializers.py:220 | `d.pop(key)` returns the value and removes exactly that key. |
| `PyValues.PyDict.SetItem` | dilg-voting-backend/elections/serializers.py:226 | `d[key] = v` adds or overwrites exactly that key. |
| `PyClass.Namespace` | dilg-voting-backend/elections/serializers.py:208-237 | The class namespace binds exactly the names the body defines. |
| `PyClass.LastDefinitionWins` | dilg-voting-backend/elections/serializers.py:208-237 | A name is bound to its last definition in the class body. |
| `PyClass.ShadowedDefinition` | dilg-voting-backend/elections/serializers.py:208-237 | An earlier, different definition of a redefined name is not what the namespace binds. |
| `VoterRegisterSerializer.IExactExists` | dilg-voting-backend/elections/serializers.py:204 | `filter(student_id__iexact=value).exists()` holds iff some non-NULL stored ID case-folds to the same key as `value`. |
| `VoterRegisterSerializer.ValidateStudentId` | dilg-voting-backend/elections/serializers.py:202-206 | Returns the trimmed ID, with trimmed ends. It fails with "Student ID already registered." on `student_id` exactly when some stored ID case-folds to the trimmed value. |
| `VoterRegisterSerializer.LowerAscii` | dilg-voting-backend/elections/serializers.py:204 | SQLite's folding of one character: the result is never an ASCII capital. An ASCII capital becomes the small letter 32 code points above it, and every other character is unchanged. |
| `VoterRegisterSerializer.LowerAsciiSame` | dilg-voting-backend/elections/serializers.py:204 | Two characters fold alike iff they are equal or are the two cases of one ASCII letter. |
| `VoterRegisterSerializer.AsciiLowerSame` | dilg-voting-backend/elections/serializers.py:204 | Under SQLite, `student_id__iexact` matches two IDs iff they have the same length and agree at every position up to the case of ASCII letters. |
| `VoterRegisterSerializer.AsciiLowerIdempotent` | dilg-voting-backend/elections/serializers.py:204 | Folding twice gives the same as folding once. |
| `VoterRegisterSerializer.CaseVariantRefused` | dilg-voting-backend/elections/serializers.py:202-206 | `" abc-7 "` is refused when `"ABC-7"` is stored, even with a NULL ID alongside. |
| `VoterRegisterSerializer.SavedStudentIdIsTaken` | dilg-voting-backend/elections/serializers.py:202-206 | Once a voter with an ID is saved, every later ID that trims and case-folds to the same key is refused. |
| `VoterRegisterSerializer.BatchYearCheck` | dilg-voting-backend/elections/serializers.py:209-212 | The `try` block raises nothing iff `int(batch_year)` succeeds and lies in [1950, 2100]. A conversion error propagates. An out-of-range year raises "Batch year looks invalid.". |
| `VoterRegisterSerializer.YearTextInRange` | dilg-voting-backend/elections/serializers.py:209-212 | A year given as decimal text passes iff the number it spells is in [1950, 2100]. |
| `VoterRegisterSerializer.ValidateYearAndConsent` | dilg-voting-backend/elections/serializers.py:208-217 | The first `validate`. It accepts iff the year is in range and consent is truthy, and then returns attrs unchanged. Any failing year, missing, unparsable or out of range, fails on `batch_year` with "Batch year is required.". Consent is checked only after the year passes. |
| `VoterRegisterSerializer.OutOfRangeYearReportedAsMissing` | dilg-voting-backend/elections/serializers.py:209-214 | An integer year out of range raises "looks invalid", but "is required" is reported. |
| `VoterRegisterSerializer.ValidateYearAndConsentIntended` | dilg-voting-backend/elections/serializers.py:209-214 | The corrected check: an unconvertible year gives "is required", an out-of-range year gives "looks invalid", and the consent failure is unchanged. |
| `VoterRegisterSerializer.IntendedYearCheckAgrees` | dilg-voting-backend/elections/serializers.py:208-217 | The corrected check accepts exactly the same payloads, and its result differs only for an out-of-range year. |
| `VoterRegisterSerializer.ValidateConsistency` | dilg-voting-backend/elections/serializers.py:232-237 | Returns attrs unchanged unless both candidate and position are truthy and `candidate.position_id != position.id`. In that case it fails with the non-field error "Candidate does not belong to the selected position.". |
| `VoterRegisterSerializer.ConsistencyOfInstances` | dilg-voting-backend/elections/serializers.py:235-236 | For model instances, the check passes iff the candidate's `position_id` equals the position's `id`. |
| `VoterRegisterSerializer.EffectiveValidate` | dilg-voting-backend/elections/serializers.py:208-237 | The class binds `validate` to the second definition, not the first. |
| `VoterRegisterSerializer.Validate` | dilg-voting-backend/elections/serializers.py:232-237 | `serializer.validate`, resolved through the class namespace, is the consistency check. |
| `VoterRegisterSerializer.RegistrationValidateAcceptsAll` | dilg-voting-backend/elections/serializers.py:186-237 | Every payload over the declared registration fields passes `validate` unchanged. |
| `VoterRegisterSerializer.ShadowedChecksSkipped` | dilg-voting-backend/elections/serializers.py:208-237 | A payload with batch year 1800 and consent false is accepted by the class, though the first definition refuses it. |
| `VoterRegisterSerializer.ValidateIntended` | dilg-voting-backend/elections/serializers.py:208-237 | Corrected registration validation. It accepts iff the year is in range, consent is truthy and the consistency check passes, and it reports the year/consent failure first. |
| `VoterRegisterSerializer.IntendedRegistrationValidation` | dilg-voting-backend/elections/serializers.py:208-237 | On registration payloads, the corrected validation accepts exactly the in-range, consented ones. It refuses the year-1800 payload with "Batch year looks invalid.". |
| `VoterRegisterSerializer.FullName` | dilg-voting-backend/elections/serializers.py:221-226 | The derived name is the non-blank stripped first, middle and last names joined by single spaces, in that order. The final `strip()` changes nothing, and the name has no whitespace at either end. |
| `VoterRegisterSerializer.FullNameEmptyIffBlank` | dilg-voting-backend/elections/serializers.py:221-226 | The derived name is empty iff all three parts are blank. |
| `VoterRegisterSerializer.FullNameWithoutMiddle` | dilg-voting-backend/elections/serializers.py:221-226 | With a blank middle name, the result is first + " " + last. |
| `VoterRegisterSerializer.FullNameWords` | dilg-voting-backend/elections/serializers.py:221-226 | When no part holds an inner space and the name is not empty, splitting the name on spaces gives back exactly the non-blank parts. |
| `VoterRegisterSerializer.CreatedVoter` | dilg-voting-backend/elections/serializers.py:220-228 | The new voter has no `password` column. Every other validated field is carried over unchanged and `name` holds the derived name. Model defaults fill only missing columns, the columns are exactly those, and the PIN is kept only as its hash. |
| `VoterRegisterSerializer.VoterTable.Save` | dilg-voting-backend/elections/serializers.py:229 | Saving a new voter appends exactly one row. |
| `VoterRegisterSerializer.Create` | dilg-voting-backend/elections/serializers.py:219-230 | The validated-data dict loses `password` and gains `name`, the derived name. The returned voter is built from that dict, with the PIN hashed. The table gains exactly that voter. |
| `BallotSubmitSerializer.Validate` | dilg-voting-backend/elections/serializers.py:308-311 | Fails with the non-field error "votes is required" exactly when `votes` is missing or falsy. Otherwise it returns attrs unchanged. |
| `BallotSubmitSerializer.BallotRefusedIffEmpty` | dilg-voting-backend/elections/serializers.py:308-311 | A ballot whose `votes` is a selection dictionary is refused iff the dictionary is empty. |
| `CandidateSerializer.RequestOf` | dilg-voting-backend/elections/serializers.py:81 | There is a request iff the serializer has a context and that context holds a non-`None` "request", and the request is that entry. |
| `CandidateSerializer.GetPhotoUrl` | dilg-voting-backend/elections/serializers.py:78-83 | Returns `None` iff the candidate has no photo. With a request it returns the absolute form of the storage URL; otherwise it returns the storage URL itself. |
| `CandidateSerializer.AbsoluteOfRelative` | dilg-voting-backend/elections/serializers.py:78-83 | With a request, the address is the absolute form of the address returned without one. |
| `CandidateSerializer.NoneRequestIsRelative` | dilg-voting-backend/elections/serializers.py:81-83 | A `None` request, a context without one, and no context all give the same relative address. |

## Left out

- Framework field parsing and coercion (serializers.py:187-200, 294-302, 306) is not modelled. This covers required-field errors, the `max_length` bounds, the password's 8..128 length, e-mail and date parsing, and `IntegerField` coercion. The validators receive the attributes as given.
- `ModelSerializer` field lists and `read_only_fields` are not modelled, because the framework implements them. The same goes for the serializers that hold no logic of their own: election, position, voter, vote, admin-voter, nomination, nomination-create, admin-stats (`turnout_percent` is a float field), reminder and notification.
- PIN hashing (`Voter.set_pin`) is the parameter `hash`. Hashing is folded into building the voter record, so the in-place update of the model instance is not modelled.
- `save()` appends a row to `VoterTable`. Column unique constraints, the generated `voter_id`, `created_at` and `has_voted` are not modelled.
- The case-insensitive lookup `student_id__iexact` is the parameter `fold`, because its meaning depends on the database. `AsciiLower` is SQLite's folding.
- The check-then-write race between `validate_student_id` and `save()` is not modelled, because it is a concurrency concern. Vote uniqueness per voter and position is not modelled either; it is not implemented in this file.
- `PyInt.ParseIntLiteral`: non-ASCII decimal digits, which Python's `int()` also accepts, are not modelled. There is no float value, so `int()` on a float is not modelled. The digit limit is CPython's default of 4300 (`MaxStrDigits`), as in CPython 3.11 and later and the 3.7.14, 3.8.14, 3.9.14 and 3.10.7 security releases. A limit changed through `sys.set_int_max_str_digits` or `PYTHONINTMAXSTRDIGITS`, and older interpreters without the limit, are not modelled.
- `PyInt.IntToDecimal`: `str(n)` also raises `ValueError` past the digit limit in CPython. That is not modelled, because the serializers never call `str()` on an integer; `IntToDecimal` only states the round trips.
- `VoterRegisterSerializer.ValidateConsistency`: requires the compared attributes to exist (`Comparable`) instead of modelling the `AttributeError` path. It compares with structural equality, so Python's `1 == True` is not modelled.
- `VoterRegisterSerializer.Create`: requires `password` to be present and a string, and the name fields to be strings, as the declared fields guarantee. The `KeyError` path is not modelled.
- The framework's error-detail shape (messages wrapped in lists under the field key, or under `non_field_errors`) is simplified to `FieldError` / `NonFieldError`.
- `CandidateSerializer.GetPhotoUrl`: the storage backend's `url` and `request.build_absolute_uri` are the parameters `storageUrl` and `absolute`.
- `dilg-voting-frontend/src/stores/auth.js` is not part of this model: it is browser session and HTTP client code.
- The settings files are not part of this model: they are environment configuration.
- The migrations provide only the column defaults in `ModelDefaults`. The other optional registration field, `campus_chapter`, has no column in the migrations shown, so its default is not modelled; nor are the defaults of columns defined elsewhere.

## Findings

| source | as written | input that shows it | evidently intended | confidence | as-written member | corrected member |
|---|---|---|---|---|---|---|
| dilg-voting-backend/elections/serializers.py:208-237 | `validate` is defined twice in `VoterRegisterSerializer`. The second definition replaces the first, so registration never checks the batch year or the consent. Registration payloads carry no `candidate` or `position`, so the remaining check always passes. | a payload with every required field, batch_year 1800 and privacy_consent False: accepted | Registration refuses a batch year outside [1950, 2100] and a missing consent | high (not executed) | `VoterRegisterSerializer.ShadowedChecksSkipped` | `VoterRegisterSerializer.ValidateIntended` |
| dilg-voting-backend/elections/serializers.py:209-214 | `except Exception` also catches the `ValidationError` raised inside the `try`, so an out-of-range year reports "Batch year is required." | batch_year 1800: "Batch year is required." | An out-of-range year reports "Batch year looks invalid." | high (not executed) | `VoterRegisterSerializer.OutOfRangeYearReportedAsMissing` | `VoterRegisterSerializer.ValidateYearAndConsentIntended` |
