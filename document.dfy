/**
  Validation of a whole changelog document (`_validateEntries`): the body
  must be an array, and its entries are checked in order with 1-based
  indices; the first entry that fails decides the result.
 */
module Document {
  import opened Wrappers
  import opened JsValues
  import opened Formats
  import opened Entry

  /** The first position `j` in `i..n` at which `bad(j)` holds. */
  function FirstWhere(n: nat, i: nat, bad: nat -> bool): (r: Option<nat>)
    requires i <= n
    ensures r.Some? ==> i <= r.value < n
    decreases n - i
  {
    if i == n then None
    else if bad(i) then Some(i)
    else FirstWhere(n, i + 1, bad)
  }

  /** The search finds nothing exactly when no position from `i` on is bad,
      and otherwise a bad position after a run of good ones. */
  lemma {:induction false} FirstWhereMeaning(n: nat, i: nat, bad: nat -> bool)
    requires i <= n
    ensures FirstWhere(n, i, bad).None? <==> forall j | i <= j < n :: !bad(j)
    ensures FirstWhere(n, i, bad).Some? ==>
      var k := FirstWhere(n, i, bad).value;
      bad(k) && forall j | i <= j < k :: !bad(j)
    decreases n - i
  {
    if i < n && !bad(i) {
      FirstWhereMeaning(n, i + 1, bad);
    }
  }

  /** The positions of the entries in which `_validateEntry` finds a problem. */
  function BadEntries(entries: seq<Json>, parses: DateParser): nat -> bool {
    (j: nat) => j < |entries| && EntryProblem(entries[j], parses).Some?
  }

  /** The position of the first entry among `entries[i..]` in which
      `_validateEntry` finds a problem. */
  function FirstBadFrom(entries: seq<Json>, i: nat, parses: DateParser): (r: Option<nat>)
    requires i <= |entries|
    ensures r.Some? ==> i <= r.value < |entries|
  {
    FirstWhere(|entries|, i, BadEntries(entries, parses))
  }

  /** What `_validateEntries(doc)` returns: the message of the first entry
      with a problem, checked with its 1-based index. */
  function DocumentError(doc: Json, parses: DateParser): Option<string> {
    if !doc.JArray? then Some(ERROR_BODY_NOT_ARRAY)
    else match FirstBadFrom(doc.items, 0, parses)
      case Some(k) => EntryError(doc.items[k], k + 1, parses)
      case None => None
  }

  /** `_validateEntries`: the loop over the entries with its 1-based
      counter and its early return. */
  method ValidateEntries(doc: Json, parses: DateParser) returns (r: Option<string>)
    ensures r == DocumentError(doc, parses)
  {
    if !doc.JArray? {
      return Some(ERROR_BODY_NOT_ARRAY);
    }
    var entries := doc.items;
    var index := 0;
    while index < |entries|
      invariant index <= |entries|
      invariant FirstBadFrom(entries, 0, parses) == FirstBadFrom(entries, index, parses)
    {
      var entry := entries[index];
      index := index + 1;
      var invalidEntryFound := ValidateEntry(entry, index, parses);
      EntryErrorHasPrefix(entry, index, parses);
      if invalidEntryFound.Some? {
        return invalidEntryFound;
      }
    }
    return None;
  }

  /** The entry at `k` has a problem, and no entry before it has one. */
  predicate FirstFailingEntry(entries: seq<Json>, k: nat, parses: DateParser) {
    k < |entries| &&
    EntryProblem(entries[k], parses).Some? &&
    forall j | 0 <= j < k :: EntryProblem(entries[j], parses).None?
  }

  /** An array body passes exactly when no entry has a problem. */
  lemma ArrayDocumentValidIff(entries: seq<Json>, parses: DateParser)
    ensures DocumentError(JArray(entries), parses).None? <==>
      forall j | 0 <= j < |entries| :: EntryProblem(entries[j], parses).None?
  {
    var bad := BadEntries(entries, parses);
    FirstWhereMeaning(|entries|, 0, bad);
    assert forall j | 0 <= j < |entries| :: bad(j) == EntryProblem(entries[j], parses).Some?;
    if FirstBadFrom(entries, 0, parses).Some? {
      EntryErrorHasPrefix(entries[FirstBadFrom(entries, 0, parses).value], FirstBadFrom(entries, 0, parses).value + 1, parses);
    }
  }

  /** Otherwise the message is that of the first entry with a problem,
      checked with its 1-based index. */
  lemma ArrayDocumentFirstFailure(entries: seq<Json>, parses: DateParser)
    requires DocumentError(JArray(entries), parses).Some?
    ensures exists k: nat | FirstFailingEntry(entries, k, parses) ::
      DocumentError(JArray(entries), parses) == EntryError(entries[k], k + 1, parses)
  {
    var bad := BadEntries(entries, parses);
    FirstWhereMeaning(|entries|, 0, bad);
    var k := FirstBadFrom(entries, 0, parses).value;
    assert forall j | 0 <= j <= k :: bad(j) == EntryProblem(entries[j], parses).Some?;
    assert FirstFailingEntry(entries, k, parses);
  }

  /** A body that is not an array is reported with the bare message, without
      any entry prefix. */
  lemma NonArrayDocument(doc: Json, parses: DateParser)
    requires !doc.JArray?
    ensures DocumentError(doc, parses) == Some(ERROR_BODY_NOT_ARRAY)
    ensures !StartsWith(DocumentError(doc, parses).value, "Entry ")
  {
    assert ERROR_BODY_NOT_ARRAY[0] == 'J';
  }

  /** The first failing entry, by 1-based index, decides the result. */
  lemma FirstFailingEntryWins(entries: seq<Json>, k: nat, parses: DateParser)
    requires FirstFailingEntry(entries, k, parses)
    ensures DocumentError(JArray(entries), parses) == EntryError(entries[k], k + 1, parses)
  {
    ArrayDocumentValidIff(entries, parses);
    ArrayDocumentFirstFailure(entries, parses);
    var m: nat :| FirstFailingEntry(entries, m, parses) &&
      DocumentError(JArray(entries), parses) == EntryError(entries[m], m + 1, parses);
    assert m == k;
  }

  /** An array body is accepted exactly when every entry is. */
  lemma DocumentValidIff(doc: Json, parses: DateParser)
    ensures DocumentError(doc, parses).None? <==>
      doc.JArray? && forall k | 0 <= k < |doc.items| :: WellFormedEntry(doc.items[k], parses)
  {
    if doc.JArray? {
      ArrayDocumentValidIff(doc.items, parses);
      forall k | 0 <= k < |doc.items|
        ensures EntryProblem(doc.items[k], parses).None? <==> WellFormedEntry(doc.items[k], parses)
      {
        EntryValidIff(doc.items[k], parses);
      }
    }
  }

  /** Once a prefix of the entries fails, entries after it are never
      consulted. */
  lemma LaterEntriesIgnored(a: seq<Json>, b: seq<Json>, parses: DateParser)
    requires DocumentError(JArray(a), parses).Some?
    ensures DocumentError(JArray(a + b), parses) == DocumentError(JArray(a), parses)
  {
    ArrayDocumentFirstFailure(a, parses);
    var k: nat :| FirstFailingEntry(a, k, parses) &&
      DocumentError(JArray(a), parses) == EntryError(a[k], k + 1, parses);
    assert forall j | 0 <= j < |a| :: (a + b)[j] == a[j];
    assert FirstFailingEntry(a + b, k, parses);
    FirstFailingEntryWins(a + b, k, parses);
  }

  /** Every failure of an array body names its entry: the message starts
      with "Entry {k}:" for the 1-based index `k` of the first failing entry. */
  lemma EntryMessagesArePrefixed(entries: seq<Json>, parses: DateParser)
    requires DocumentError(JArray(entries), parses).Some?
    ensures exists k: nat | FirstFailingEntry(entries, k, parses) ::
      StartsWith(DocumentError(JArray(entries), parses).value, "Entry " + NatToString(k + 1) + ":")
  {
    ArrayDocumentFirstFailure(entries, parses);
    var k: nat :| FirstFailingEntry(entries, k, parses) &&
      DocumentError(JArray(entries), parses) == EntryError(entries[k], k + 1, parses);
    EntryErrorHasPrefix(entries[k], k + 1, parses);
  }
}
