/**
  The list of liveness probes `_validateURLs` builds, and the gating in
  `_runTask` that builds it only for a document that passed validation.
  Each entry contributes three probes, for `author_image_url`, `image_url`
  and `blog_url`, in that order. The closures of the source all read one
  counter declared outside the loop and run only after the loop has
  finished, so every probe reports the index `|entries|`; the model keeps
  that index apart from the probes and returns its final value.
 */
module Liveness {
  import opened Wrappers
  import opened JsValues
  import opened Formats
  import opened Entry
  import opened Document

  /** One deferred probe: the entry's title, the field name and the field's value. */
  datatype Probe = Probe(title: Option<Json>, field: string, url: Option<Json>)

  /** The three probes one entry contributes. */
  function EntryProbes(e: Json): seq<Probe> {
    var title := Property(e, TITLE);
    [Probe(title, AUTHOR_IMAGE_URL, Property(e, AUTHOR_IMAGE_URL)),
     Probe(title, IMAGE_URL, Property(e, IMAGE_URL)),
     Probe(title, BLOG_URL, Property(e, BLOG_URL))]
  }

  /** The probes of all entries, entry by entry. */
  function Probes(entries: seq<Json>): seq<Probe> {
    if entries == [] then [] else EntryProbes(entries[0]) + Probes(entries[1..])
  }

  /** The probes of two runs of entries are those of the first run followed
      by those of the second. */
  lemma {:induction false} ProbesConcat(a: seq<Json>, b: seq<Json>)
    ensures Probes(a + b) == Probes(a) + Probes(b)
  {
    if a == [] {
      assert a + b == b;
    } else {
      assert (a + b)[0] == a[0];
      assert (a + b)[1..] == a[1..] + b;
      ProbesConcat(a[1..], b);
    }
  }

  /** Three probes per entry. */
  lemma {:induction false} ProbesLength(entries: seq<Json>)
    ensures |Probes(entries)| == 3 * |entries|
  {
    if entries != [] {
      ProbesLength(entries[1..]);
    }
  }

  /** Probes `3k`, `3k + 1` and `3k + 2` are those of entry `k`. */
  lemma {:induction false} ProbesOfEntry(entries: seq<Json>, k: nat)
    requires k < |entries|
    ensures |Probes(entries)| == 3 * |entries|
    ensures Probes(entries)[3 * k..3 * k + 3] == EntryProbes(entries[k])
  {
    ProbesLength(entries);
    if k > 0 {
      ProbesOfEntry(entries[1..], k - 1);
      var rest := Probes(entries[1..]);
      assert Probes(entries) == EntryProbes(entries[0]) + rest;
      assert Probes(entries)[3 * k..3 * k + 3] == rest[3 * (k - 1)..3 * (k - 1) + 3];
    }
  }

  /** The probe-building loop of `_validateURLs`: three pushes per entry and
      the shared counter, whose final value every probe later reports. */
  method BuildProbes(entries: seq<Json>) returns (asyncTasks: seq<Probe>, index: nat)
    ensures asyncTasks == Probes(entries)
    ensures index == |entries|
  {
    asyncTasks := [];
    index := 0;
    while index < |entries|
      invariant index <= |entries|
      invariant asyncTasks == Probes(entries[..index])
    {
      var entry := entries[index];
      index := index + 1;
      var authorImageUrl := Property(entry, AUTHOR_IMAGE_URL);
      var imageUrl := Property(entry, IMAGE_URL);
      var blogUrl := Property(entry, BLOG_URL);
      var title := Property(entry, TITLE);
      asyncTasks := asyncTasks + [Probe(title, AUTHOR_IMAGE_URL, authorImageUrl)];
      asyncTasks := asyncTasks + [Probe(title, IMAGE_URL, imageUrl)];
      asyncTasks := asyncTasks + [Probe(title, BLOG_URL, blogUrl)];
      assert entries[..index] == entries[..index - 1] + [entry];
      ProbesConcat(entries[..index - 1], [entry]);
      assert Probes([entry]) == EntryProbes(entry);
    }
    assert entries[..index] == entries;
  }

  /** The prefix of a failed probe's message, for a probe reported with index
      `index`. */
  function ProbePrefix(p: Probe, index: nat): string {
    EntryIdText(index, p.title)
  }

  /** A failed probe of entry `k` would be reported behind a prefix with that
      entry's title but with the shared index `|entries|`, whatever `k` is. */
  lemma ProbeReportsSharedIndex(entries: seq<Json>, k: nat, j: nat)
    requires k < |entries| && j < 3
    ensures |Probes(entries)| == 3 * |entries|
    ensures var p := ProbePrefix(Probes(entries)[3 * k + j], |entries|);
      p == EntryIdText(|entries|, Property(entries[k], TITLE)) &&
      StartsWith(p, "Entry " + NatToString(|entries|) + ":")
  {
    ProbesOfEntry(entries, k);
    var ps := Probes(entries);
    assert ps[3 * k + j] == ps[3 * k..3 * k + 3][j];
    EntryIdTextShape(|entries|, Property(entries[k], TITLE));
  }

  /** A probe whose URL passed the checks `_validateEntry` makes on its
      field: the URL test, and for the two image fields the secure test. */
  predicate ProbeAccepted(p: Probe) {
    p.url.Some? && IsURL(p.url.value) && (p.field != BLOG_URL ==> IsSecureURL(p.url.value))
  }

  /** The three probes of a well-formed entry are accepted. */
  lemma WellFormedEntryProbes(e: Json, parses: DateParser)
    requires WellFormedEntry(e, parses)
    ensures ProbeAccepted(EntryProbes(e)[0])
    ensures ProbeAccepted(EntryProbes(e)[1])
    ensures ProbeAccepted(EntryProbes(e)[2])
  {
    WellFormedGuarantees(e, parses);
  }

  /** The probes of every entry of a run of well-formed entries are accepted. */
  lemma WellFormedEntriesProbes(entries: seq<Json>, parses: DateParser)
    requires forall k | 0 <= k < |entries| :: WellFormedEntry(entries[k], parses)
    ensures forall k | 0 <= k < |entries| ::
      var ps := EntryProbes(entries[k]);
      ProbeAccepted(ps[0]) && ProbeAccepted(ps[1]) && ProbeAccepted(ps[2])
  {
    forall k | 0 <= k < |entries|
      ensures var ps := EntryProbes(entries[k]);
        ProbeAccepted(ps[0]) && ProbeAccepted(ps[1]) && ProbeAccepted(ps[2])
    {
      WellFormedEntryProbes(entries[k], parses);
    }
  }

  /** A property that holds of the three probes of every entry holds of
      every probe. */
  lemma {:induction false} EveryProbe(entries: seq<Json>, holds: Probe -> bool)
    requires forall k | 0 <= k < |entries| ::
      var ps := EntryProbes(entries[k]); holds(ps[0]) && holds(ps[1]) && holds(ps[2])
    ensures forall i | 0 <= i < |Probes(entries)| :: holds(Probes(entries)[i])
  {
    if entries != [] {
      EveryProbe(entries[1..], holds);
      var head, rest := EntryProbes(entries[0]), Probes(entries[1..]);
      assert Probes(entries) == head + rest;
      assert holds(head[0]) && holds(head[1]) && holds(head[2]);
      assert forall k | 0 <= k < |entries[1..]| :: entries[1..][k] == entries[k + 1];
      assert forall i | 3 <= i < |Probes(entries)| :: Probes(entries)[i] == rest[i - 3];
    }
  }

  /** What `_runTask` does with a parsed document: stop with the validation
      message, or go on to probe every URL. */
  datatype Outcome = Fatal(message: string) | Probing(probes: seq<Probe>, reportedIndex: nat)

  function TaskOutcome(doc: Json, parses: DateParser): Outcome {
    match DocumentError(doc, parses)
    case Some(m) => Fatal(m)
    case None => if doc.JArray? then Probing(Probes(doc.items), |doc.items|) else Fatal(ERROR_BODY_NOT_ARRAY)
  }

  /** The gating of `_runTask`: validation first; probes only when it passes. */
  method RunTask(doc: Json, parses: DateParser) returns (o: Outcome)
    ensures o == TaskOutcome(doc, parses)
  {
    var invalidBlogContent := ValidateEntries(doc, parses);
    if invalidBlogContent.Some? {
      return Fatal(invalidBlogContent.value);
    }
    DocumentValidIff(doc, parses);
    var asyncTasks, index := BuildProbes(doc.items);
    return Probing(asyncTasks, index);
  }

  /** Probing starts exactly for an array of well-formed entries. */
  lemma ProbingOnlyWhenValid(doc: Json, parses: DateParser)
    ensures TaskOutcome(doc, parses).Probing? <==>
      doc.JArray? && forall k | 0 <= k < |doc.items| :: WellFormedEntry(doc.items[k], parses)
  {
    DocumentValidIff(doc, parses);
  }

  /** For an array of well-formed entries the task probes three URLs per
      entry, each of which passed its checks, and every probe is reported
      with the index `|entries|`. */
  lemma ValidDocumentProbes(entries: seq<Json>, parses: DateParser)
    requires forall k | 0 <= k < |entries| :: WellFormedEntry(entries[k], parses)
    ensures TaskOutcome(JArray(entries), parses) == Probing(Probes(entries), |entries|)
    ensures |Probes(entries)| == 3 * |entries|
    ensures forall i | 0 <= i < |Probes(entries)| :: ProbeAccepted(Probes(entries)[i])
  {
    DocumentValidIff(JArray(entries), parses);
    ProbesLength(entries);
    WellFormedEntriesProbes(entries, parses);
    EveryProbe(entries, (p: Probe) => ProbeAccepted(p));
  }
}
