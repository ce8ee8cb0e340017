# Changelog JSON validator, modelled in Dafny

This project models the structural validator of the `grunt-url-validate` task
(`lib/grunt-url-validate/task.js`). The validator checks an already-parsed
changelog document and returns either nothing (valid) or one error message,
the first problem found. It runs in this order:

- **The document.** It must be an array. Its entries are checked in order
  with a 1-based index, and the first entry that fails decides the message.
- **An entry.** The steps are:
  1. the object test (`lodash.isObject`, which also accepts arrays);
  2. the presence of the eight required keys, with the first missing key
     reported in the order of `REQUIRED_ENTRY_PROPERTIES`;
  3. the absence of any other key, with all extra keys reported in the
     object's own key order;
  4. eleven field checks in a fixed order.

  Every message carries the prefix `_getEntryIDText` builds:
  "Entry {i}: '{title}'" and a line break when the title is truthy,
  "Entry {i}:" and a line break otherwise.
- **The format predicates.** These are `_isEmptyString`, `_isGuidValid`,
  `_isURL`, `_isSecureURL` and `_isDate`.
- **The probe list of `_validateURLs`.** For a document that passed
  validation, each entry contributes three probes (`author_image_url`,
  `image_url`, `blog_url`). Each probe carries the entry's title and URL.

Modules, one per file:

- `Wrappers` (`wrappers.dfy`): `Option`.
- `JsValues` (`json.dfy`): the JSON value and the JavaScript semantics the
  validator relies on. These are truthiness, `String(v)`, own keys and
  `hasOwnProperty`, property reads, and decimal rendering of an index.
- `Formats` (`formats.dfy`): the format predicates, including the two
  regular expressions written out character class by character class.
- `Entry` (`entry.dfy`): the field names and messages, the prefix, and
  `_validateEntry`.
  - The pure specification is `EntryProblem`, the first `Problem` found, and
    `EntryError`, its message.
  - The source's loop and early-return chain are the methods `FindProblem`,
    `CheckFieldValues` and `ValidateEntry`, each proved equal to the
    specification.
- `Document` (`document.dfy`): `_validateEntries`. The specification is
  `DocumentError`; the method `ValidateEntries` has the source's counter
  and early return.
- `Liveness` (`liveness.dfy`): the probe list (`Probes`, built by the
  loop method `BuildProbes`) and the gating of `_runTask`, which builds
  probes only after validation passes (`RunTask`).

**Probe index.** The source declares the counter (`let index`) outside the
probe loop. The closures capture that one binding and run only after the
loop has finished, so every probe reports the index `entries.length`, not
its entry's position (task.js:278-301). The model reproduces this:
`BuildProbes` returns the probes and the final counter, and
`ValidDocumentProbes` proves that the reported index is `|entries|`, and
`ProbeReportsSharedIndex` that a failed probe of any entry would be reported
as entry `|entries|`. One might expect each probe to report its own entry's
position; the code does not, and the model follows the code.

## Model

| member | source | states |
|---|---|---|
| JsValues.Truthy | lib/grunt-url-validate/task.js:203 | definition: the truthiness of a property read (`undefined`, `null`, `false`, `0` and `""` are falsy) that picks the prefix form; used by `Entry.EntryIdTextShape` |
| JsValues.OwnKeys | lib/grunt-url-validate/task.js:136-141 | definition: an object's own keys in enumeration order, an array's index keys and `length`; read by `hasOwnProperty` and `Object.keys`. `Object.keys` of an array has no `length`, but an array never reaches the extraneous step (`Entry.ArrayEntryMissingId`) |
| JsValues.Property | lib/grunt-url-validate/task.js:146-153 | definition: `entry[key]`, the value of the key's pair in an object and `undefined` otherwise; characterised by `JsValues.LookupMeaning`, `JsValues.LookupAt` and `JsValues.PropertyOfObject` |
| JsValues.ToJsString | lib/grunt-url-validate/task.js:204 | definition: `String(v)` as a template literal or `RegExp.prototype.test` applies it; arrays are joined with "," |
| JsValues.IsObject | lib/grunt-url-validate/task.js:128 | definition of `lodash.isObject`: true for objects and arrays; see `Entry.NonObjectEntry` and `Entry.ArrayEntryMissingId` |
| JsValues.HasOwn | lib/grunt-url-validate/task.js:136 | definition of `entry.hasOwnProperty(key)`: the key is among the own keys; see `JsValues.PropertyOfObject` and `Entry.FirstMissingMeaning` |
| JsValues.NatToString | lib/grunt-url-validate/task.js:204-206 | the decimal rendering of `${index}`; its result is never empty, and `JsValues.NatToStringDigits` proves it is all digits |
| JsValues.LookupAt | lib/grunt-url-validate/task.js:146-153 | reading a key yields the value of the first pair with that key |
| JsValues.NatToStringDigits | lib/grunt-url-validate/task.js:204-206 | the index in the prefix is rendered with decimal digits only |
| JsValues.LookupMeaning | lib/grunt-url-validate/task.js:146-153 | reading a key of an object finds a value exactly when some own pair has that key, and the value comes from such a pair |
| JsValues.PropertyOfObject | lib/grunt-url-validate/task.js:136 | on an object, reading a key yields a value exactly when `hasOwnProperty` holds for it |
| Formats.IsEmptyString | lib/grunt-url-validate/task.js:263-265 | definition of `_isEmptyString`: not a string, or empty after `lodash.trim`; characterised by `Formats.EmptyStringMeaning` |
| Formats.IsGuidValid | lib/grunt-url-validate/task.js:267-269 | definition of `_isGuidValid`: the GUID pattern holds of `String(v)`; characterised by `Formats.GuidFormPositional` and `Formats.GuidCaseInsensitive` |
| Formats.IsSecureURL | lib/grunt-url-validate/task.js:229-231 | definition of `_isSecureURL`: `String(v)` starts with the literal "https"; with the URL pattern this means the scheme "https://" (`Formats.SecureUrlScheme`) |
| Formats.UrlPattern | lib/grunt-url-validate/task.js:55 | definition of `urlRegex.test`: a scheme, an optional `www.`, a domain, a dot and a top-level domain ending at a word boundary; characterised by `Formats.UrlPatternShape` and `Formats.UrlPatternOfParts` |
| Formats.IsURL | lib/grunt-url-validate/task.js:223-227 | definition of `_isURL`: not empty and accepted by the URL pattern; see `Formats.EmptyIsNeitherUrlNorDate` |
| Formats.IsDate | lib/grunt-url-validate/task.js:209-221 | definition of `_isDate`: not empty and accepted by the date parser given as a parameter; see `Formats.EmptyIsNeitherUrlNorDate` |
| Formats.Trim | lib/grunt-url-validate/task.js:264 | definition of `lodash.trim` as `TrimEnd(TrimStart(s))`; characterised by `Formats.TrimStartMeaning`, `Formats.TrimEndMeaning` and `Formats.TrimEmptyIffAllWhitespace` |
| Formats.TrimStart | lib/grunt-url-validate/task.js:264 | definition: dropping the leading whitespace; characterised by `Formats.TrimStartMeaning` |
| Formats.TrimEnd | lib/grunt-url-validate/task.js:264 | definition: dropping the trailing whitespace; characterised by `Formats.TrimEndMeaning` |
| Formats.GuidForm | lib/grunt-url-validate/task.js:62 | definition of `guidRegEx`, group by group; characterised by `Formats.GuidFormPositional`, `Formats.GuidGroupsRoundTrip`, `Formats.GuidSplits` and `Formats.GuidCaseInsensitive` |
| Formats.TrimStartMeaning | lib/grunt-url-validate/task.js:264 | `lodash.trim` drops exactly the leading whitespace: the result is a suffix that is empty or starts with a non-whitespace character, and everything before it is whitespace |
| Formats.TrimEndMeaning | lib/grunt-url-validate/task.js:264 | `lodash.trim` drops exactly the trailing whitespace, symmetrically |
| Formats.TrimEmptyIffAllWhitespace | lib/grunt-url-validate/task.js:264 | a string trims to empty exactly when all its characters are whitespace |
| Formats.EmptyStringMeaning | lib/grunt-url-validate/task.js:263-265 | `_isEmptyString` holds exactly for non-strings and for strings made only of whitespace |
| Formats.NotBlank | lib/grunt-url-validate/task.js:263-265 | a string starting with a non-whitespace character is not empty |
| Formats.GuidFormPositional | lib/grunt-url-validate/task.js:59-62 | the GUID pattern holds exactly for 36 characters with dashes at offsets 8, 13, 18 and 23 and hex digits everywhere else |
| Formats.GuidGroupsRoundTrip | lib/grunt-url-validate/task.js:62 | joining hex groups of 8, 4, 4, 4 and 12 digits with dashes gives a GUID, and its groups are recovered by position |
| Formats.GuidSplits | lib/grunt-url-validate/task.js:62 | every GUID is the dash-join of its five hex groups |
| Formats.GuidCaseInsensitive | lib/grunt-url-validate/task.js:62 | the `i` flag: a text is a GUID exactly when its lower-case form is |
| Formats.GuidAcceptsExample | lib/grunt-url-validate/task.js:59-62 | `f81d4fae-7dec-11d0-a765-00a0c91e6bf6` is a valid GUID |
| Formats.GuidAcceptsUpperCaseExample | lib/grunt-url-validate/task.js:267-269 | the same GUID in capitals is valid too |
| Formats.GuidRejectsExamples | lib/grunt-url-validate/task.js:267-269 | a GUID one digit short and `not-a-guid` are rejected |
| Formats.UrlPatternShape | lib/grunt-url-validate/task.js:55 | every text the URL pattern accepts starts with `http://` or `https://` in some letter case and has at least 12 characters |
| Formats.UrlPatternOfParts | lib/grunt-url-validate/task.js:55 | the pattern accepts a lower-case scheme (`http://` or `https://`), a 2–256 character domain, a dot, a 2–6 letter top-level domain and anything that starts at a word boundary |
| Formats.UrlAcceptsHttps | lib/grunt-url-validate/task.js:223-227 | `https://example.com` is a URL |
| Formats.UrlAcceptsHttp | lib/grunt-url-validate/task.js:223-227 | `http://example.com` is a URL |
| Formats.UrlAcceptsUpperCaseScheme | lib/grunt-url-validate/task.js:223-227 | `HTTPS://example.com` is a URL (the `i` flag) |
| Formats.UrlRejectsMissingScheme | lib/grunt-url-validate/task.js:223-227 | `example.com` is not a URL |
| Formats.SecureUrlScheme | lib/grunt-url-validate/task.js:223-231 | a text that passes both the URL pattern and the secure test starts with "https://" in lower case |
| Formats.HttpsIsSecure | lib/grunt-url-validate/task.js:229-231 | `https://example.com` is secure |
| Formats.HttpIsNotSecure | lib/grunt-url-validate/task.js:229-231 | `http://example.com` is not secure |
| Formats.UpperCaseSchemeIsNotSecure | lib/grunt-url-validate/task.js:57 | the secure test is case-sensitive: `HTTPS://example.com` is a URL but not secure |
| Formats.EmptyIsNeitherUrlNorDate | lib/grunt-url-validate/task.js:209-227 | whatever the URL pattern or the date parser says, `_isURL` and `_isDate` reject every value `_isEmptyString` accepts |
| Entry.EntryIdText | lib/grunt-url-validate/task.js:202-207 | definition of `_getEntryIDText`; characterised by `Entry.EntryIdTextShape` |
| Entry.EntryPrefix | lib/grunt-url-validate/task.js:128-133 | definition: the prefix `_validateEntry` uses, with a `null` title for a non-object; characterised by `Entry.EntryPrefixShape` |
| Entry.FirstMissing | lib/grunt-url-validate/task.js:135-139 | definition: the first required key the entry does not own; characterised by `Entry.FirstMissingMeaning` |
| Entry.Extraneous | lib/grunt-url-validate/task.js:141 | definition of `lodash.difference(Object.keys(entry), REQUIRED_ENTRY_PROPERTIES)`; characterised by `Entry.ExtraneousMeaning` and `Entry.ExtraneousConcat` |
| Entry.Join | lib/grunt-url-validate/task.js:143 | definition of `Array.prototype.join(", ")` |
| Entry.Message | lib/grunt-url-validate/task.js:40-53 | definition: the message constant for each problem, with the missing key or the joined extraneous keys appended |
| Entry.EntryProblem | lib/grunt-url-validate/task.js:126-200 | definition: the first problem `_validateEntry` finds; characterised by `Entry.EntryValidIff` and the `Reported` lemmas |
| Entry.EntryError | lib/grunt-url-validate/task.js:126-200 | definition: the message `_validateEntry` returns; characterised by `Entry.EntryErrorHasPrefix` |
| Entry.FieldValue | lib/grunt-url-validate/task.js:146-153 | definition: `entry[KEY]` once the key is known to be present; `Entry.WellFormedGuarantees` ties it to `JsValues.Property` |
| Entry.Results | lib/grunt-url-validate/task.js:155-199 | definition: the outcome of each of the eleven field checks on the entry's values; see `Entry.FieldCheckReported` |
| Entry.ChecksOf | lib/grunt-url-validate/task.js:155-199 | definition: the eleven checks in source order, each with the problem it reports; characterised by `Entry.ChecksOfNoneIff` and `Entry.FirstFailureMeaning` |
| Entry.FieldFailure | lib/grunt-url-validate/task.js:155-199 | definition: the problem of the first failing field check; characterised by `Entry.FieldFailureNoneIff` and `Entry.FieldCheckReported`, and computed by `Entry.CheckFieldValues` |
| Entry.EntryIdTextShape | lib/grunt-url-validate/task.js:202-207 | both prefix forms start with "Entry {index}:" and end with a line break; the plain form is chosen exactly when the title is falsy |
| Entry.EntryPrefixShape | lib/grunt-url-validate/task.js:128-133 | an entry's prefix is the plain form exactly when the entry is not an object or its title is falsy, and otherwise it quotes the title |
| Entry.FirstMissingMeaning | lib/grunt-url-validate/task.js:135-139 | the presence loop finds nothing exactly when every required key is owned; otherwise it names the first key, in list order, that is absent |
| Entry.FirstAbsentUnique | lib/grunt-url-validate/task.js:135-139 | there is only one first absent key |
| Entry.ExtraneousMeaning | lib/grunt-url-validate/task.js:141-144 | `lodash.difference` keeps exactly the keys that are not required, never more than there are keys, and is empty exactly when every key is required |
| Entry.ExtraneousConcat | lib/grunt-url-validate/task.js:141 | the difference treats each key on its own and keeps the keys' order |
| Entry.FirstFailureMeaning | lib/grunt-url-validate/task.js:155-199 | a chain of early-return checks reports nothing exactly when every check passes; otherwise it reports the problem of the check that failed after all before it passed |
| Entry.ChecksOfNoneIff | lib/grunt-url-validate/task.js:155-199 | the eleven field checks in source order report nothing exactly when all of them pass |
| Entry.FieldFailureNoneIff | lib/grunt-url-validate/task.js:155-199 | the field checks of an entry report nothing exactly when its fields are valid |
| Entry.CheckFieldValues | lib/grunt-url-validate/task.js:146-199 | the chain of eleven early-return field checks returns the problem of the first failing check, or nothing |
| Entry.FindProblem | lib/grunt-url-validate/task.js:126-200 | the object test, the presence loop, the extraneous test and the field checks, each with its early return, find exactly the entry's first problem |
| Entry.ValidateEntry | lib/grunt-url-validate/task.js:126-200 | `_validateEntry` returns the message of the entry's first problem behind its prefix, or nothing |
| Entry.NonObjectEntry | lib/grunt-url-validate/task.js:128-131 | a non-object entry gets the plain prefix and `ERROR_ENTRY_NOT_OBJECT` |
| Entry.MissingPropertyReported | lib/grunt-url-validate/task.js:135-139 | an object whose first absent required key is the k-th one is reported as missing that key |
| Entry.ArrayEntryMissingId | lib/grunt-url-validate/task.js:128-139 | an array passes the object test and is reported, with the plain prefix, as missing `id` |
| Entry.ExtraneousReported | lib/grunt-url-validate/task.js:141-144 | an object with every required key and some other key is reported with the list of all its non-required keys |
| Entry.FieldCheckReported | lib/grunt-url-validate/task.js:146-199 | an object with exactly the required keys is valid exactly when its fields are, and otherwise reports its first field failure |
| Entry.EntryValidIff | lib/grunt-url-validate/task.js:126-200 | `_validateEntry` returns nothing exactly when the entry is an object with exactly the required keys and valid fields |
| Entry.WellFormedGuarantees | lib/grunt-url-validate/task.js:155-199 | a valid entry has an `id` of GUID form, image URLs that are URLs starting with the literal "https", and a `blog_url` that is a URL |
| Entry.EntryOfFields | lib/grunt-url-validate/task.js:135-153 | an object of the eight required keys, in list order, owns exactly those keys, and each field check reads the value given for its key |
| Entry.EntryOfWellFormed | lib/grunt-url-validate/task.js:155-199 | such an object is well-formed exactly when its values pass the eleven field checks; the `blog_url` need not be secure |
| Entry.ExampleEntryWellFormed | lib/grunt-url-validate/task.js:155-199 | an entry with the example GUID, https image URLs and the http `blog_url` `http://example.com` is well-formed once the date parser accepts its date |
| Entry.ExampleEntryAccepted | lib/grunt-url-validate/task.js:126-200 | `_validateEntry` accepts that entry at every index |
| Entry.EntryErrorHasPrefix | lib/grunt-url-validate/task.js:126-207 | an entry has a message exactly when it has a problem, and every message starts with its prefix and so with "Entry {index}:" |
| Document.DocumentError | lib/grunt-url-validate/task.js:103-124 | definition: what `_validateEntries` returns; characterised by the lemmas below |
| Document.FirstWhere | lib/grunt-url-validate/task.js:111-121 | the early-exit search of the entry loop: a position it returns lies in the searched range; characterised by `Document.FirstWhereMeaning` |
| Document.FirstWhereMeaning | lib/grunt-url-validate/task.js:111-121 | a search with early return finds nothing exactly when no position is bad, and otherwise finds a bad position after a run of good ones |
| Document.ValidateEntries | lib/grunt-url-validate/task.js:103-124 | the loop with its 1-based counter and early return gives the document's message |
| Document.NonArrayDocument | lib/grunt-url-validate/task.js:105-107 | a non-array body yields exactly `ERROR_BODY_NOT_ARRAY`, which carries no entry prefix |
| Document.ArrayDocumentValidIff | lib/grunt-url-validate/task.js:109-123 | an array body passes exactly when no entry has a problem |
| Document.ArrayDocumentFirstFailure | lib/grunt-url-validate/task.js:109-123 | otherwise the message is that of the first failing entry, checked with its 1-based index |
| Document.FirstFailingEntryWins | lib/grunt-url-validate/task.js:109-123 | when entry k is the first with a problem, the document's message is entry k's message with index k + 1 |
| Document.DocumentValidIff | lib/grunt-url-validate/task.js:103-124 | a body passes exactly when it is an array of valid entries |
| Document.LaterEntriesIgnored | lib/grunt-url-validate/task.js:111-119 | once a run of entries fails, appending more entries does not change the message |
| Document.EntryMessagesArePrefixed | lib/grunt-url-validate/task.js:109-123 | every failure of an array body starts with "Entry {k}:" for the 1-based index of the first failing entry |
| Liveness.EntryProbes | lib/grunt-url-validate/task.js:286-301 | definition: an entry's three probes, `author_image_url`, `image_url` and `blog_url`, each with the entry's title and that field's value |
| Liveness.Probes | lib/grunt-url-validate/task.js:282-303 | definition: the probes of all entries, entry by entry; characterised by `Liveness.ProbesLength` and `Liveness.ProbesOfEntry` |
| Liveness.TaskOutcome | lib/grunt-url-validate/task.js:89-99 | definition: what `_runTask` does with a parsed document; characterised by `Liveness.ProbingOnlyWhenValid` and `Liveness.ValidDocumentProbes` |
| Liveness.ProbePrefix | lib/grunt-url-validate/task.js:240-249 | definition: the prefix `_doesUrlExist` puts before a failure message; see `Liveness.ProbeReportsSharedIndex` |
| Liveness.ProbesConcat | lib/grunt-url-validate/task.js:282-303 | the probes of two runs of entries are those of the first run followed by those of the second |
| Liveness.ProbesLength | lib/grunt-url-validate/task.js:282-303 | there are exactly three probes per entry |
| Liveness.ProbesOfEntry | lib/grunt-url-validate/task.js:286-301 | probes 3k to 3k + 2 are entry k's `author_image_url`, `image_url` and `blog_url` probes, each with that entry's title and URL |
| Liveness.BuildProbes | lib/grunt-url-validate/task.js:277-303 | the loop with three pushes per entry builds the probe list, and the shared counter ends at the number of entries |
| Liveness.ProbeReportsSharedIndex | lib/grunt-url-validate/task.js:278-301 | every probe of entry k would report a failure behind a prefix with entry k's title and the index `entries.length`, that is starting with "Entry {entries.length}:" |
| Liveness.WellFormedEntryProbes | lib/grunt-url-validate/task.js:171-197 | the three probes of a valid entry hold URLs that passed `_isURL`, the two image probes also `_isSecureURL` |
| Liveness.WellFormedEntriesProbes | lib/grunt-url-validate/task.js:282-303 | in a run of valid entries, each entry's three probes are accepted |
| Liveness.EveryProbe | lib/grunt-url-validate/task.js:282-303 | a property of the three probes of every entry holds of every probe in the list |
| Liveness.RunTask | lib/grunt-url-validate/task.js:89-99 | `_runTask` stops with the validation message, or builds the probes of the entries |
| Liveness.ProbingOnlyWhenValid | lib/grunt-url-validate/task.js:89-99 | probes are built exactly when the body is an array of valid entries |
| Liveness.ValidDocumentProbes | lib/grunt-url-validate/task.js:89-303 | for an array of valid entries the task builds three probes per entry, every probe's URL passed its checks, and every probe reports the index `entries.length` |

## Left out

- HTTP probing (`_doesUrlExist`, `request`, task.js:233-261) and the aggregation of its results (`async.parallel`, `_handleResults`, task.js:307-322) are left out. They are network I/O and callback concurrency, and which failure gets reported depends on completion order.
- ProbePrefix: only the prefix of a probe's failure message is modelled (with the shared index, `Liveness.ProbeReportsSharedIndex`). The rest of the message depends on the HTTP outcome, which is left out.
- `_runTask` (task.js:70-101) reads the file with `grunt.file.readJSON` and reports through `grunt.log` and `grunt.fail.fatal`. Both are I/O; only the gating between validation and probing is modelled, in `RunTask`.
- `Date.parse` (task.js:215) is engine-specific. It is the parameter `parses` (whether the text parses to a number other than NaN).
- Gruntfile.js is task-runner configuration and is not part of this model.
- Numbers are modelled as exact integers, printed in plain decimal digits. JavaScript numbers are doubles: a non-integral number prints with a fraction, and one of magnitude 10^21 or more prints in exponent form (a title `1e21` gives "Entry 1: '1e+21'"). Neither is modelled.
- An entry with an own key `hasOwnProperty` makes `entry.hasOwnProperty(...)` throw a TypeError (task.js:136). The model treats the name as an ordinary key: the first missing required key is reported, or, if all are present, `hasOwnProperty` is listed as extraneous.
- A title or URL field whose value is an object with an own `toString` key, or an array holding one, turns `${title}` (task.js:204) and `urlRegex.test(item)` (task.js:225) into a TypeError, because that `toString` is not callable. The model prints such an object as "[object Object]", so it renders the title and reports the URL checks as failed instead.
- Objects with a repeated key are not excluded. A parsed JavaScript object has each key once, and `JSON.parse` keeps the last value of a repeated key. On a repeated key the model's `Property` returns the first value and `Extraneous` lists the key once per occurrence. The model's results are meant for objects with distinct keys.
- Strings are sequences of Unicode scalar values. JavaScript strings are UTF-16 code units, so a title or key holding a lone surrogate cannot be represented.
- Objects are sequences of (key, value) pairs in the engine's key-enumeration order. The model does not derive that order (integer-like keys first) from the document text.
- ValidateEntry builds the prefix after the checks rather than before them. Both reads are pure, so the result is the same.
