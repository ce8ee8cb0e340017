/**
  Validation of one changelog entry (`_validateEntry`, `_getEntryIDText`):
  first the object test, then the presence of the eight required keys, then
  the absence of any other key, then eleven field checks in a fixed order.
  The first problem found is reported, prefixed with the entry's 1-based
  index and, when it is truthy, its title.
 */
module Entry {
  import opened Wrappers
  import opened JsValues
  import opened Formats

  // ---------------------------------------------------------------------
  // Field names and messages

  const ID := "id"
  const AUTHOR := "author"
  const TITLE := "title"
  const DATE := "date"
  const MESSAGE := "message"
  const IMAGE_URL := "image_url"
  const AUTHOR_IMAGE_URL := "author_image_url"
  const BLOG_URL := "blog_url"

  /** The required keys, in the order in which a missing one is looked for. */
  const REQUIRED_ENTRY_PROPERTIES: seq<string> :=
    [ID, AUTHOR, AUTHOR_IMAGE_URL, TITLE, DATE, MESSAGE, IMAGE_URL, BLOG_URL]

  const ERROR_BODY_NOT_ARRAY := "JSON body must be a defined Array."
  const ERROR_ENTRY_NOT_OBJECT := "The entry must be a defined Object."
  const ERROR_INVALID_ID := "The 'id' property value is undefined or invalid."
  const ERROR_INVALID_GUID := "The 'id' property value is not a valid GUID."
  const ERROR_INVALID_TITLE := "The 'title' property value is undefined or invalid."
  const ERROR_INVALID_AUTHOR := "The 'author' property value is undefined or invalid."
  const ERROR_INVALID_AUTHOR_IMAGE_URL := "The 'author_image_url' property value must be a syntactically valid URL."
  const ERROR_INSECURE_AUTHOR_IMAGE_URL := "The 'author_image_url' property value must be a secure URL (i.e. HTTPS)"
  const ERROR_INVALID_DATE := "The 'date' property value is undefined or invalid."
  const ERROR_INVALID_MESSAGE := "The 'message' property value must be a defined String."
  const ERROR_INVALID_URL_IMAGE := "The 'image_url' property value must be a syntactically valid URL."
  const ERROR_INVALID_URL_BLOG := "The 'blog_url' property value must be a syntactically valid URL."
  const ERROR_INSECURE_URL_IMAGE := "The 'image_url' property value must be a secure URL (i.e. HTTPS)"
  const ERROR_EXTRANEOUS_PROPERTIES := "There were extraneous properties found: "
  const ERROR_MISSING_PROPERTY := "An expected property is missing: "

  // ---------------------------------------------------------------------
  // Message prefix

  /** The prefix of an entry with no (or a falsy) title. */
  function PlainPrefix(index: nat): string {
    "Entry " + NatToString(index) + ":\n"
  }

  /** `_getEntryIDText(index, title)`: "Entry {index}: '{title}'" and a line
      break when the title is truthy, "Entry {index}:" and a line break otherwise. */
  function EntryIdText(index: nat, title: Option<Json>): string {
    if Truthy(title) then "Entry " + NatToString(index) + ": '" + ToJsString(title.value) + "'\n"
    else PlainPrefix(index)
  }

  /** Both forms start with "Entry {index}:" and end with a line break; the
      plain form is used exactly when the title is falsy. */
  lemma EntryIdTextShape(index: nat, title: Option<Json>)
    ensures var r := EntryIdText(index, title);
      StartsWith(r, "Entry " + NatToString(index) + ":") && r[|r| - 1] == '\n'
    ensures EntryIdText(index, title) == PlainPrefix(index) <==> !Truthy(title)
  {
    var n := "Entry " + NatToString(index) + ":";
    if Truthy(title) {
      var r := EntryIdText(index, title);
      assert r == n + " '" + ToJsString(title.value) + "'\n";
      assert r[..|n|] == n;
      assert |r| > |PlainPrefix(index)|;
    } else {
      assert PlainPrefix(index) == n + "\n";
      assert PlainPrefix(index)[..|n|] == n;
    }
  }

  /** The prefix `_validateEntry` puts in front of every message for `e`. */
  function EntryPrefix(e: Json, index: nat): string {
    if IsObject(e) then EntryIdText(index, Property(e, TITLE)) else EntryIdText(index, Some(JNull))
  }

  // ---------------------------------------------------------------------
  // Presence of the required keys

  /** The first key of `props` that `e` does not own. */
  function FirstMissing(e: Json, props: seq<string>): Option<string> {
    if props == [] then None
    else if !HasOwn(e, props[0]) then Some(props[0])
    else FirstMissing(e, props[1..])
  }

  /** Nothing is missing exactly when every key is owned; otherwise the
      result is the first key that is not. */
  lemma {:induction false} FirstMissingMeaning(e: Json, props: seq<string>)
    ensures FirstMissing(e, props).None? <==> forall i | 0 <= i < |props| :: HasOwn(e, props[i])
    ensures FirstMissing(e, props).Some? ==>
      exists k: nat | FirstAbsentAt(e, props, k) :: FirstMissing(e, props).value == props[k]
  {
    if props != [] {
      FirstMissingMeaning(e, props[1..]);
      if !HasOwn(e, props[0]) {
        assert FirstAbsentAt(e, props, 0);
      } else if FirstMissing(e, props[1..]).Some? {
        var k: nat :| FirstAbsentAt(e, props[1..], k) && FirstMissing(e, props[1..]).value == props[1..][k];
        assert FirstAbsentAt(e, props, k + 1);
      } else {
        assert forall i | 1 <= i < |props| :: props[i] == props[1..][i - 1];
      }
    }
  }

  /** `props[k]` is absent from `e` and every key before it is present. */
  predicate FirstAbsentAt(e: Json, props: seq<string>, k: nat) {
    k < |props| && !HasOwn(e, props[k]) && forall j | 0 <= j < k :: HasOwn(e, props[j])
  }

  // ---------------------------------------------------------------------
  // Extraneous keys

  /** `lodash.difference(keys, REQUIRED_ENTRY_PROPERTIES)`: the keys that are
      not required, in their own order. */
  function Extraneous(keys: seq<string>): seq<string> {
    if keys == [] then []
    else if keys[0] in REQUIRED_ENTRY_PROPERTIES then Extraneous(keys[1..])
    else [keys[0]] + Extraneous(keys[1..])
  }

  /** The difference holds exactly the keys that are not required, and no
      more entries than there are keys; it is empty exactly when every key
      is required. */
  lemma {:induction false} ExtraneousMeaning(keys: seq<string>)
    ensures forall k :: k in Extraneous(keys) <==> k in keys && k !in REQUIRED_ENTRY_PROPERTIES
    ensures |Extraneous(keys)| <= |keys|
    ensures Extraneous(keys) == [] <==> forall k | k in keys :: k in REQUIRED_ENTRY_PROPERTIES
  {
    if keys != [] {
      ExtraneousMeaning(keys[1..]);
      assert forall k :: k in keys <==> k == keys[0] || k in keys[1..];
    }
  }

  /** The difference is taken key by key, so it keeps the order of the keys. */
  lemma {:induction false} ExtraneousConcat(a: seq<string>, b: seq<string>)
    ensures Extraneous(a + b) == Extraneous(a) + Extraneous(b)
  {
    if a == [] {
      assert a + b == b;
    } else {
      assert (a + b)[1..] == a[1..] + b;
      ExtraneousConcat(a[1..], b);
    }
  }

  /** `Array.prototype.join(sep)`. */
  function Join(xs: seq<string>, sep: string): string {
    if xs == [] then "" else if |xs| == 1 then xs[0] else xs[0] + sep + Join(xs[1..], sep)
  }

  // ---------------------------------------------------------------------
  // Problems and their messages

  /** What `_validateEntry` can find wrong with an entry. */
  datatype Problem =
    | NotObject
    | MissingProperty(key: string)
    | ExtraneousProperties(keys: seq<string>)
    | InvalidId
    | InvalidGuid
    | InvalidTitle
    | InvalidAuthor
    | InvalidAuthorImageUrl
    | InsecureAuthorImageUrl
    | InvalidDate
    | InvalidMessage
    | InvalidImageUrl
    | InsecureImageUrl
    | InvalidBlogUrl

  /** The text `_validateEntry` puts after the prefix for each problem. */
  function Message(p: Problem): string {
    match p
    case NotObject => ERROR_ENTRY_NOT_OBJECT
    case MissingProperty(key) => ERROR_MISSING_PROPERTY + key
    case ExtraneousProperties(keys) => ERROR_EXTRANEOUS_PROPERTIES + Join(keys, ", ")
    case InvalidId => ERROR_INVALID_ID
    case InvalidGuid => ERROR_INVALID_GUID
    case InvalidTitle => ERROR_INVALID_TITLE
    case InvalidAuthor => ERROR_INVALID_AUTHOR
    case InvalidAuthorImageUrl => ERROR_INVALID_AUTHOR_IMAGE_URL
    case InsecureAuthorImageUrl => ERROR_INSECURE_AUTHOR_IMAGE_URL
    case InvalidDate => ERROR_INVALID_DATE
    case InvalidMessage => ERROR_INVALID_MESSAGE
    case InvalidImageUrl => ERROR_INVALID_URL_IMAGE
    case InsecureImageUrl => ERROR_INSECURE_URL_IMAGE
    case InvalidBlogUrl => ERROR_INVALID_URL_BLOG
  }

  // ---------------------------------------------------------------------
  // Field checks

  /** Outcomes of field checks, in the order they run, each with the problem
      reported when it fails. */
  datatype Checks = Done | Then(passed: bool, failure: Problem, rest: Checks)

  /** The outcomes as a sequence of (passed, problem) pairs, front first. */
  function AsSeq(cs: Checks): seq<(bool, Problem)> {
    match cs
    case Done => []
    case Then(ok, p, rest) => [(ok, p)] + AsSeq(rest)
  }

  /** The problem of the first failed check, if any. */
  function FirstFailure(cs: Checks): Option<Problem> {
    match cs
    case Done => None
    case Then(ok, p, rest) => if !ok then Some(p) else FirstFailure(rest)
  }

  /** The `k`-th check failed and every check before it passed. */
  predicate FirstFailingAt(cs: Checks, k: nat) {
    var s := AsSeq(cs);
    k < |s| && !s[k].0 && forall j | 0 <= j < k :: s[j].0
  }

  /** No problem exactly when every check passed; otherwise the problem of
      the check that failed after all the checks before it passed. */
  lemma {:induction false} FirstFailureMeaning(cs: Checks)
    ensures FirstFailure(cs).None? <==> forall k | 0 <= k < |AsSeq(cs)| :: AsSeq(cs)[k].0
    ensures FirstFailure(cs).Some? ==>
      exists k: nat | FirstFailingAt(cs, k) :: FirstFailure(cs).value == AsSeq(cs)[k].1
  {
    match cs
    case Done =>
    case Then(ok, p, rest) =>
      FirstFailureMeaning(rest);
      assert AsSeq(cs) == [(ok, p)] + AsSeq(rest);
      assert forall j | 1 <= j < |AsSeq(cs)| :: AsSeq(cs)[j] == AsSeq(rest)[j - 1];
      if !ok {
        assert FirstFailingAt(cs, 0);
      } else if FirstFailure(rest).Some? {
        var k: nat :| FirstFailingAt(rest, k) && FirstFailure(rest).value == AsSeq(rest)[k].1;
        assert FirstFailingAt(cs, k + 1);
      }
  }

  /** The value of a field whose presence has already been checked. */
  function FieldValue(e: Json, key: string): Json {
    match Property(e, key)
    case Some(v) => v
    case None => JNull
  }

  /** Whether each of the eleven field checks passes, in source order. */
  datatype FieldResults = FieldResults(
    idPresent: bool, idGuid: bool, titlePresent: bool, authorPresent: bool,
    authorImageUrl: bool, authorImageSecure: bool, date: bool, messagePresent: bool,
    imageUrl: bool, imageSecure: bool, blogUrl: bool)

  /** The eleven field checks of `_validateEntry` evaluated on `e`. */
  function Results(e: Json, parses: DateParser): FieldResults {
    var entryId := FieldValue(e, ID);
    var authorImageUrl := FieldValue(e, AUTHOR_IMAGE_URL);
    var imageUrl := FieldValue(e, IMAGE_URL);
    FieldResults(
      !IsEmptyString(entryId), IsGuidValid(entryId),
      !IsEmptyString(FieldValue(e, TITLE)), !IsEmptyString(FieldValue(e, AUTHOR)),
      IsURL(authorImageUrl), IsSecureURL(authorImageUrl),
      IsDate(FieldValue(e, DATE), parses), !IsEmptyString(FieldValue(e, MESSAGE)),
      IsURL(imageUrl), IsSecureURL(imageUrl),
      IsURL(FieldValue(e, BLOG_URL)))
  }

  /** The outcomes in the order the checks run, each with its problem. */
  function ChecksOf(r: FieldResults): Checks {
    Then(r.idPresent, InvalidId,
    Then(r.idGuid, InvalidGuid,
    Then(r.titlePresent, InvalidTitle,
    Then(r.authorPresent, InvalidAuthor,
    Then(r.authorImageUrl, InvalidAuthorImageUrl,
    Then(r.authorImageSecure, InsecureAuthorImageUrl,
    Then(r.date, InvalidDate,
    Then(r.messagePresent, InvalidMessage,
    Then(r.imageUrl, InvalidImageUrl,
    Then(r.imageSecure, InsecureImageUrl,
    Then(r.blogUrl, InvalidBlogUrl,
    Done)))))))))))
  }

  /** Every field check passes. */
  predicate AllPass(r: FieldResults) {
    r.idPresent && r.idGuid && r.titlePresent && r.authorPresent &&
    r.authorImageUrl && r.authorImageSecure && r.date && r.messagePresent &&
    r.imageUrl && r.imageSecure && r.blogUrl
  }

  /** The chain reports nothing exactly when every check passes. */
  lemma ChecksOfNoneIff(r: FieldResults)
    ensures FirstFailure(ChecksOf(r)).None? <==> AllPass(r)
  {
    var c0 := ChecksOf(r);
    var c1 := c0.rest;
    var c2 := c1.rest;
    var c3 := c2.rest;
    var c4 := c3.rest;
    var c5 := c4.rest;
    var c6 := c5.rest;
    var c7 := c6.rest;
    var c8 := c7.rest;
    var c9 := c8.rest;
    var c10 := c9.rest;
    assert FirstFailure(c10).None? <==> r.blogUrl;
    assert FirstFailure(c9).None? <==> r.imageSecure && FirstFailure(c10).None?;
    assert FirstFailure(c8).None? <==> r.imageUrl && FirstFailure(c9).None?;
    assert FirstFailure(c7).None? <==> r.messagePresent && FirstFailure(c8).None?;
    assert FirstFailure(c6).None? <==> r.date && FirstFailure(c7).None?;
    assert FirstFailure(c5).None? <==> r.authorImageSecure && FirstFailure(c6).None?;
    assert FirstFailure(c4).None? <==> r.authorImageUrl && FirstFailure(c5).None?;
    assert FirstFailure(c3).None? <==> r.authorPresent && FirstFailure(c4).None?;
    assert FirstFailure(c2).None? <==> r.titlePresent && FirstFailure(c3).None?;
    assert FirstFailure(c1).None? <==> r.idGuid && FirstFailure(c2).None?;
  }

  /** The eleven field checks of `e` as a chain of outcomes. */
  function FieldChecks(e: Json, parses: DateParser): Checks {
    ChecksOf(Results(e, parses))
  }

  /** The problem of the first field check that `e` fails, if any. */
  function FieldFailure(e: Json, parses: DateParser): Option<Problem> {
    FirstFailure(FieldChecks(e, parses))
  }

  /** Every field of `e` passes its check. */
  predicate FieldsValid(e: Json, parses: DateParser) {
    AllPass(Results(e, parses))
  }

  /** The field checks report nothing exactly when every field is valid. */
  lemma FieldFailureNoneIff(e: Json, parses: DateParser)
    ensures FieldFailure(e, parses).None? <==> FieldsValid(e, parses)
  {
    ChecksOfNoneIff(Results(e, parses));
  }

  // ---------------------------------------------------------------------
  // The entry check

  /** The problem `_validateEntry` finds in `e`, if any. */
  function EntryProblem(e: Json, parses: DateParser): Option<Problem> {
    if !IsObject(e) then Some(NotObject)
    else match FirstMissing(e, REQUIRED_ENTRY_PROPERTIES)
      case Some(key) => Some(MissingProperty(key))
      case None =>
        var extra := Extraneous(OwnKeys(e));
        if extra != [] then Some(ExtraneousProperties(extra))
        else FieldFailure(e, parses)
  }

  /** What `_validateEntry(e, index)` returns: `None` for a valid entry,
      otherwise the message of the first problem found behind the prefix. */
  function EntryError(e: Json, index: nat, parses: DateParser): Option<string> {
    match EntryProblem(e, parses)
    case Some(p) => Some(EntryPrefix(e, index) + Message(p))
    case None => None
  }

  /** `_validateEntry`: the message of the problem `FindProblem` reports,
      behind the prefix `_getEntryIDText` builds for the entry. */
  method ValidateEntry(entry: Json, index: nat, parses: DateParser) returns (r: Option<string>)
    ensures r == EntryError(entry, index, parses)
  {
    var problem := FindProblem(entry, parses);
    if problem.None? {
      return None;
    }
    var prefix;
    if !IsObject(entry) {
      prefix := EntryIdText(index, Some(JNull));
    } else {
      prefix := EntryIdText(index, Property(entry, TITLE));
    }
    return Some(prefix + Message(problem.value));
  }

  /** The steps of `_validateEntry` in their order, each with its early
      return: the object test, the presence loop, the extraneous-key test,
      then the chain of field checks. */
  method FindProblem(entry: Json, parses: DateParser) returns (r: Option<Problem>)
    ensures r == EntryProblem(entry, parses)
  {
    if !IsObject(entry) {
      return Some(NotObject);
    }

    for i := 0 to |REQUIRED_ENTRY_PROPERTIES|
      invariant FirstMissing(entry, REQUIRED_ENTRY_PROPERTIES) == FirstMissing(entry, REQUIRED_ENTRY_PROPERTIES[i..])
    {
      var property := REQUIRED_ENTRY_PROPERTIES[i];
      if !HasOwn(entry, property) {
        return Some(MissingProperty(property));
      }
      assert REQUIRED_ENTRY_PROPERTIES[i..][1..] == REQUIRED_ENTRY_PROPERTIES[i + 1..];
    }

    var extraneousProperties := Extraneous(OwnKeys(entry));
    if |extraneousProperties| > 0 {
      return Some(ExtraneousProperties(extraneousProperties));
    }

    r := CheckFieldValues(entry, parses);
  }

  /** The chain of field checks of `_validateEntry`, in the source's order,
      each with its early return: it reports the first failure of
      `FieldChecks`, which `ValidateEntry` renders behind the prefix. */
  method CheckFieldValues(entry: Json, parses: DateParser) returns (r: Option<Problem>)
    ensures r == FieldFailure(entry, parses)
  {
    var entryId := FieldValue(entry, ID);
    var title := FieldValue(entry, TITLE);
    var author := FieldValue(entry, AUTHOR);
    var authorImageUrl := FieldValue(entry, AUTHOR_IMAGE_URL);
    var date := FieldValue(entry, DATE);
    var message := FieldValue(entry, MESSAGE);
    var imageUrl := FieldValue(entry, IMAGE_URL);
    var blogUrl := FieldValue(entry, BLOG_URL);

    ghost var checks := FieldChecks(entry, parses);
    assert FieldFailure(entry, parses) == FirstFailure(checks);
    if IsEmptyString(entryId) {
      return Some(InvalidId);
    }
    checks := checks.rest;
    assert FieldFailure(entry, parses) == FirstFailure(checks);
    if !IsGuidValid(entryId) {
      return Some(InvalidGuid);
    }
    checks := checks.rest;
    assert FieldFailure(entry, parses) == FirstFailure(checks);
    if IsEmptyString(title) {
      return Some(InvalidTitle);
    }
    checks := checks.rest;
    assert FieldFailure(entry, parses) == FirstFailure(checks);
    if IsEmptyString(author) {
      return Some(InvalidAuthor);
    }
    checks := checks.rest;
    assert FieldFailure(entry, parses) == FirstFailure(checks);
    if !IsURL(authorImageUrl) {
      return Some(InvalidAuthorImageUrl);
    }
    checks := checks.rest;
    assert FieldFailure(entry, parses) == FirstFailure(checks);
    if !IsSecureURL(authorImageUrl) {
      return Some(InsecureAuthorImageUrl);
    }
    checks := checks.rest;
    assert FieldFailure(entry, parses) == FirstFailure(checks);
    if !IsDate(date, parses) {
      return Some(InvalidDate);
    }
    checks := checks.rest;
    assert FieldFailure(entry, parses) == FirstFailure(checks);
    if IsEmptyString(message) {
      return Some(InvalidMessage);
    }
    checks := checks.rest;
    assert FieldFailure(entry, parses) == FirstFailure(checks);
    if !IsURL(imageUrl) {
      return Some(InvalidImageUrl);
    }
    checks := checks.rest;
    assert FieldFailure(entry, parses) == FirstFailure(checks);
    if !IsSecureURL(imageUrl) {
      return Some(InsecureImageUrl);
    }
    checks := checks.rest;
    assert FieldFailure(entry, parses) == FirstFailure(checks);
    if !IsURL(blogUrl) {
      return Some(InvalidBlogUrl);
    }
    checks := checks.rest;
    assert FieldFailure(entry, parses) == FirstFailure(checks);
    return None;
  }

  // ---------------------------------------------------------------------
  // What the entry check means

  /** The prefix of a non-object entry, and of an object whose title is
      falsy, carries no title. */
  lemma EntryPrefixShape(e: Json, index: nat)
    ensures EntryPrefix(e, index) == PlainPrefix(index) <==> !IsObject(e) || !Truthy(Property(e, TITLE))
    ensures IsObject(e) && Truthy(Property(e, TITLE)) ==>
      EntryPrefix(e, index) == "Entry " + NatToString(index) + ": '" + ToJsString(Property(e, TITLE).value) + "'\n"
  {
    if IsObject(e) {
      EntryIdTextShape(index, Property(e, TITLE));
    }
  }

  /** A value that is neither an object nor an array is reported as such,
      behind the title-less prefix. */
  lemma NonObjectEntry(e: Json, index: nat, parses: DateParser)
    requires !IsObject(e)
    ensures EntryError(e, index, parses) == Some(PlainPrefix(index) + ERROR_ENTRY_NOT_OBJECT)
  {
  }

  /** Only one key of a list can be the first absent one. */
  lemma FirstAbsentUnique(e: Json, props: seq<string>, k: nat, m: nat)
    requires FirstAbsentAt(e, props, k) && FirstAbsentAt(e, props, m)
    ensures k == m
  {
  }

  /** When required keys are absent, the problem names the first of them in
      the order of `REQUIRED_ENTRY_PROPERTIES`, whatever the field values. */
  lemma MissingPropertyReported(e: Json, parses: DateParser, k: nat)
    requires IsObject(e) && FirstAbsentAt(e, REQUIRED_ENTRY_PROPERTIES, k)
    ensures EntryProblem(e, parses) == Some(MissingProperty(REQUIRED_ENTRY_PROPERTIES[k]))
  {
    FirstMissingMeaning(e, REQUIRED_ENTRY_PROPERTIES);
    var r := FirstMissing(e, REQUIRED_ENTRY_PROPERTIES);
    var m: nat :| FirstAbsentAt(e, REQUIRED_ENTRY_PROPERTIES, m) && r.value == REQUIRED_ENTRY_PROPERTIES[m];
    FirstAbsentUnique(e, REQUIRED_ENTRY_PROPERTIES, k, m);
  }

  /** An array passes the object test but owns only index keys and "length"
      (and has no title), so it is reported as missing its `id`. */
  lemma ArrayEntryMissingId(items: seq<Json>, index: nat, parses: DateParser)
    ensures EntryProblem(JArray(items), parses) == Some(MissingProperty(ID))
    ensures EntryError(JArray(items), index, parses) ==
      Some(PlainPrefix(index) + ERROR_MISSING_PROPERTY + ID)
  {
    var e := JArray(items);
    var keys := OwnKeys(e);
    if ID in keys {
      var i :| 0 <= i < |keys| && keys[i] == ID;
      if i < |items| {
        assert keys[i] == NatToString(i);
        NatToStringDigits(i);
        assert IsDigit(keys[i][0]);
      }
    }
    assert FirstAbsentAt(e, REQUIRED_ENTRY_PROPERTIES, 0);
    MissingPropertyReported(e, parses, 0);
    assert EntryPrefix(e, index) == PlainPrefix(index);
    assert Message(MissingProperty(ID)) == ERROR_MISSING_PROPERTY + ID;
    assert PlainPrefix(index) + (ERROR_MISSING_PROPERTY + ID) == PlainPrefix(index) + ERROR_MISSING_PROPERTY + ID;
  }

  /** When every required key is present but others are too, all the others
      are listed, in the object's key order, and none of them is required. */
  lemma ExtraneousReported(e: Json, parses: DateParser)
    requires IsObject(e)
    requires forall k | 0 <= k < |REQUIRED_ENTRY_PROPERTIES| :: HasOwn(e, REQUIRED_ENTRY_PROPERTIES[k])
    requires exists key | key in OwnKeys(e) :: key !in REQUIRED_ENTRY_PROPERTIES
    ensures EntryProblem(e, parses) == Some(ExtraneousProperties(Extraneous(OwnKeys(e))))
  {
    var key :| key in OwnKeys(e) && key !in REQUIRED_ENTRY_PROPERTIES;
    ExtraneousMeaning(OwnKeys(e));
    FirstMissingMeaning(e, REQUIRED_ENTRY_PROPERTIES);
    assert key in Extraneous(OwnKeys(e));
  }

  /** Once an object owns exactly the required keys, the first failing field
      check decides. */
  lemma FieldCheckReported(e: Json, parses: DateParser)
    requires IsObject(e)
    requires forall k | 0 <= k < |REQUIRED_ENTRY_PROPERTIES| :: HasOwn(e, REQUIRED_ENTRY_PROPERTIES[k])
    requires forall key | key in OwnKeys(e) :: key in REQUIRED_ENTRY_PROPERTIES
    ensures EntryProblem(e, parses).None? <==> FieldsValid(e, parses)
    ensures EntryProblem(e, parses).Some? ==>
      exists k: nat | FirstFailingAt(FieldChecks(e, parses), k) ::
        EntryProblem(e, parses).value == AsSeq(FieldChecks(e, parses))[k].1
  {
    var keys := OwnKeys(e);
    ExtraneousMeaning(keys);
    FirstMissingMeaning(e, REQUIRED_ENTRY_PROPERTIES);
    FieldFailureNoneIff(e, parses);
    FirstFailureMeaning(FieldChecks(e, parses));
  }

  /** An entry `_validateEntry` accepts: an object whose keys are exactly the
      required ones and whose fields pass every check. */
  predicate WellFormedEntry(e: Json, parses: DateParser) {
    e.JObject? &&
    (forall k | 0 <= k < |REQUIRED_ENTRY_PROPERTIES| :: HasOwn(e, REQUIRED_ENTRY_PROPERTIES[k])) &&
    (forall key | key in OwnKeys(e) :: key in REQUIRED_ENTRY_PROPERTIES) &&
    FieldsValid(e, parses)
  }

  /** `_validateEntry` finds no problem exactly in a well-formed entry. */
  lemma EntryValidIff(e: Json, parses: DateParser)
    ensures EntryProblem(e, parses).None? <==> WellFormedEntry(e, parses)
  {
    if e.JArray? {
      ArrayEntryMissingId(e.items, 1, parses);
    } else if e.JObject? {
      var keys := OwnKeys(e);
      FirstMissingMeaning(e, REQUIRED_ENTRY_PROPERTIES);
      ExtraneousMeaning(keys);
      if FirstMissing(e, REQUIRED_ENTRY_PROPERTIES).None? {
        if Extraneous(keys) == [] {
          FieldCheckReported(e, parses);
        }
      }
    }
  }

  /** What a well-formed entry guarantees: its `id` is a GUID; its
      `author_image_url` and `image_url` are URLs whose text starts with the
      literal, lower-case "https"; its `blog_url` need only be a URL. */
  lemma WellFormedGuarantees(e: Json, parses: DateParser)
    requires WellFormedEntry(e, parses)
    ensures Property(e, ID) == Some(FieldValue(e, ID)) && IsGuidValid(FieldValue(e, ID))
    ensures Property(e, AUTHOR_IMAGE_URL) == Some(FieldValue(e, AUTHOR_IMAGE_URL)) &&
      IsURL(FieldValue(e, AUTHOR_IMAGE_URL)) &&
      StartsWith(ToJsString(FieldValue(e, AUTHOR_IMAGE_URL)), "https")
    ensures Property(e, IMAGE_URL) == Some(FieldValue(e, IMAGE_URL)) &&
      IsURL(FieldValue(e, IMAGE_URL)) &&
      StartsWith(ToJsString(FieldValue(e, IMAGE_URL)), "https")
    ensures Property(e, BLOG_URL) == Some(FieldValue(e, BLOG_URL)) && IsURL(FieldValue(e, BLOG_URL))
  {
    assert HasOwn(e, REQUIRED_ENTRY_PROPERTIES[0]);
    assert HasOwn(e, REQUIRED_ENTRY_PROPERTIES[2]);
    assert HasOwn(e, REQUIRED_ENTRY_PROPERTIES[6]);
    assert HasOwn(e, REQUIRED_ENTRY_PROPERTIES[7]);
    PropertyOfObject(e, ID);
    PropertyOfObject(e, AUTHOR_IMAGE_URL);
    PropertyOfObject(e, IMAGE_URL);
    PropertyOfObject(e, BLOG_URL);
  }

  /** Every message `_validateEntry` returns is the entry's prefix followed by
      the message of the problem found. */
  lemma EntryErrorHasPrefix(e: Json, index: nat, parses: DateParser)
    ensures EntryError(e, index, parses).Some? <==> EntryProblem(e, parses).Some?
    ensures EntryError(e, index, parses).Some? ==>
      StartsWith(EntryError(e, index, parses).value, EntryPrefix(e, index)) &&
      StartsWith(EntryError(e, index, parses).value, "Entry " + NatToString(index) + ":")
  {
    if EntryProblem(e, parses).Some? {
      var p := EntryPrefix(e, index);
      var m := p + Message(EntryProblem(e, parses).value);
      assert m[..|p|] == p;
      var n := "Entry " + NatToString(index) + ":";
      EntryIdTextShape(index, if IsObject(e) then Property(e, TITLE) else Some(JNull));
      assert p[..|n|] == n;
      assert m[..|n|] == p[..|n|];
    }
  }

  // ---------------------------------------------------------------------
  // A valid entry

  /** The entry with the eight required keys, in list order, and the given
      values. */
  function EntryOf(id: Json, author: Json, authorImageUrl: Json, title: Json,
                   date: Json, message: Json, imageUrl: Json, blogUrl: Json): Json {
    JObject([(ID, id), (AUTHOR, author), (AUTHOR_IMAGE_URL, authorImageUrl), (TITLE, title),
             (DATE, date), (MESSAGE, message), (IMAGE_URL, imageUrl), (BLOG_URL, blogUrl)])
  }

  /** Such an entry owns exactly the required keys, and each check reads the
      value given for its key. */
  lemma EntryOfFields(id: Json, author: Json, authorImageUrl: Json, title: Json,
                      date: Json, message: Json, imageUrl: Json, blogUrl: Json)
    ensures var e := EntryOf(id, author, authorImageUrl, title, date, message, imageUrl, blogUrl);
      OwnKeys(e) == REQUIRED_ENTRY_PROPERTIES &&
      FieldValue(e, ID) == id && FieldValue(e, AUTHOR) == author &&
      FieldValue(e, AUTHOR_IMAGE_URL) == authorImageUrl && FieldValue(e, TITLE) == title &&
      FieldValue(e, DATE) == date && FieldValue(e, MESSAGE) == message &&
      FieldValue(e, IMAGE_URL) == imageUrl && FieldValue(e, BLOG_URL) == blogUrl
  {
    var e := EntryOf(id, author, authorImageUrl, title, date, message, imageUrl, blogUrl);
    var fields := e.fields;
    assert forall i | 0 <= i < 8 :: fields[i].0 == REQUIRED_ENTRY_PROPERTIES[i];
    assert OwnKeys(e) == REQUIRED_ENTRY_PROPERTIES;
    LookupAt(fields, ID, 0);
    LookupAt(fields, AUTHOR, 1);
    LookupAt(fields, AUTHOR_IMAGE_URL, 2);
    LookupAt(fields, TITLE, 3);
    LookupAt(fields, DATE, 4);
    LookupAt(fields, MESSAGE, 5);
    LookupAt(fields, IMAGE_URL, 6);
    LookupAt(fields, BLOG_URL, 7);
  }

  /** An entry of the eight required keys is well-formed exactly when its
      values pass the eleven field checks. The `blog_url` need not be secure. */
  lemma EntryOfWellFormed(id: Json, author: Json, authorImageUrl: Json, title: Json,
                          date: Json, message: Json, imageUrl: Json, blogUrl: Json,
                          parses: DateParser)
    ensures WellFormedEntry(EntryOf(id, author, authorImageUrl, title, date, message, imageUrl, blogUrl), parses) <==>
      !IsEmptyString(id) && IsGuidValid(id) &&
      !IsEmptyString(title) && !IsEmptyString(author) &&
      IsURL(authorImageUrl) && IsSecureURL(authorImageUrl) &&
      IsDate(date, parses) && !IsEmptyString(message) &&
      IsURL(imageUrl) && IsSecureURL(imageUrl) &&
      IsURL(blogUrl)
  {
    var e := EntryOf(id, author, authorImageUrl, title, date, message, imageUrl, blogUrl);
    EntryOfFields(id, author, authorImageUrl, title, date, message, imageUrl, blogUrl);
    assert forall k | 0 <= k < |REQUIRED_ENTRY_PROPERTIES| :: HasOwn(e, REQUIRED_ENTRY_PROPERTIES[k]);
    assert Results(e, parses) == FieldResults(
      !IsEmptyString(id), IsGuidValid(id), !IsEmptyString(title), !IsEmptyString(author),
      IsURL(authorImageUrl), IsSecureURL(authorImageUrl), IsDate(date, parses), !IsEmptyString(message),
      IsURL(imageUrl), IsSecureURL(imageUrl), IsURL(blogUrl));
  }

  /** An entry with a GUID `id`, two https image URLs and a plain http
      `blog_url`. */
  function ExampleEntry(): Json {
    EntryOf(JString("f81d4fae-7dec-11d0-a765-00a0c91e6bf6"), JString("ann"),
      JString("https://example.com"), JString("release"), JString("2016-01-01"),
      JString("notes"), JString("https://example.com"), JString("http://example.com"))
  }

  /** The example is well-formed once the date parser accepts its date, although
      its `blog_url` is not secure: well-formed entries exist. */
  lemma ExampleEntryWellFormed(parses: DateParser)
    requires parses("2016-01-01")
    ensures WellFormedEntry(ExampleEntry(), parses)
    ensures !IsSecureURL(FieldValue(ExampleEntry(), BLOG_URL))
  {
    var id, author, url, title := JString("f81d4fae-7dec-11d0-a765-00a0c91e6bf6"), JString("ann"),
      JString("https://example.com"), JString("release");
    var date, message, blog := JString("2016-01-01"), JString("notes"), JString("http://example.com");
    GuidAcceptsExample();
    NotBlank("f81d4fae-7dec-11d0-a765-00a0c91e6bf6");
    NotBlank("ann");
    NotBlank("release");
    NotBlank("2016-01-01");
    NotBlank("notes");
    UrlAcceptsHttps();
    HttpsIsSecure();
    UrlAcceptsHttp();
    HttpIsNotSecure();
    EntryOfWellFormed(id, author, url, title, date, message, url, blog, parses);
    EntryOfFields(id, author, url, title, date, message, url, blog);
  }

  /** `_validateEntry` accepts the example, whatever its index. */
  lemma ExampleEntryAccepted(parses: DateParser, index: nat)
    requires parses("2016-01-01")
    ensures EntryError(ExampleEntry(), index, parses) == None
  {
    ExampleEntryWellFormed(parses);
    EntryValidIff(ExampleEntry(), parses);
  }
}
