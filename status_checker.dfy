/**
  The status checker: a poll, re-entered by an external scheduler, that asks
  the accounting service whether a sales receipt it was sent has finished
  synchronising, and answers with a result hash (completed, retry pending or
  error); and the diagnostic text it builds from the service's message log.

  The two calls into the accounting service are inputs here: the record that
  `fetch_by_id(id, idDomain)` returned (or none), and the log listing (or the
  failure it raised). `message_id` comes from the message payload the checker
  was given and is a parameter as well.
*/
module StatusChecker {
  import opened Wrappers
  import opened Sequences

  /** A Ruby value as it appears in the result hash. */
  datatype Value = Nil | Int(i: int) | Str(s: string) | RHash(fields: map<string, Value>)

  /** A Ruby hash with string keys. */
  type Hash = map<string, Value>

  /** The record `fetch_by_id` returns: the service reports "true" or "false" as a string. */
  datatype Receipt = Receipt(synchronized: string)

  /**
    The checker's state: the message key and the order it was built from, and
    the accounting record (identifier and identifier domain) it polls.
  */
  datatype Checker = Checker(key: string, order: Value, id: string, idDomain: string)

  /** One entry of the service's message log. */
  datatype Entry = Entry(objectType: string, ngId: string, desc: string)

  /** A `StandardError` raised while listing the message log, which the `rescue` catches. */
  datatype ListFailure = ListFailure

  const SecondsPerMinute := 60
  const PendingDelay := 6000
  const NotFoundCode := 400
  const StatusUrlPrefix := "http://localhost:3000/status/"
  const ReceiptObjectType := "SalesReceipt"
  const ErrorSeparator := ", "
  const NoErrorInformation := "No Error Information Found"

  /** The default interval before the scheduler runs the check again: five minutes, in seconds. */
  function DefaultDelay(): (r: nat)
    ensures r == 300
    ensures r != PendingDelay
  {
    5 * SecondsPerMinute
  }

  /** The address at which the record's status can be looked up. */
  function UpdateUrl(idDomain: string, id: string): (r: string)
    ensures |r| == |StatusUrlPrefix| + |idDomain| + 1 + |id|
    ensures r[..|StatusUrlPrefix|] == StatusUrlPrefix
  {
    StatusUrlPrefix + idDomain + "/" + id
  }

  /**
    One poll. No record: an error result with event code 400. Status "true":
    only the message id. Status "false": the message id, a delay of 6000 and
    the status address. Any other status: no result at all (Ruby `nil`).
  */
  function VerifyQuickbooksImport(c: Checker, messageId: Value, response: Option<Receipt>): (r: Option<Hash>)
    ensures r.Some? <==> response.None? || response.value.synchronized in {"true", "false"}
    ensures r.Some? ==> "message_id" in r.value && r.value["message_id"] == messageId
    ensures response.None? ==>
      r.Some? && r.value.Keys == {"message_id", "events"} &&
      r.value["events"] == RHash(map["code" := Int(NotFoundCode)])
    ensures response.Some? && response.value.synchronized == "true" ==>
      r.Some? && r.value.Keys == {"message_id"}
    ensures response.Some? && response.value.synchronized == "false" ==>
      r.Some? && r.value.Keys == {"message_id", "delay", "update_url"} &&
      r.value["delay"] == Int(PendingDelay) &&
      r.value["update_url"] == Str(UpdateUrl(c.idDomain, c.id))
  {
    match response
    case None =>
      Some(map["message_id" := messageId, "events" := RHash(map["code" := Int(NotFoundCode)])])
    case Some(receipt) =>
      if receipt.synchronized == "true" then
        Some(map["message_id" := messageId])
      else if receipt.synchronized == "false" then
        Some(map["message_id" := messageId, "delay" := Int(PendingDelay),
                 "update_url" := Str(UpdateUrl(c.idDomain, c.id))])
      else
        None
  }

  /** Where one poll leaves the synchronisation of a record. */
  datatype PollOutcome = Completed | RetryPending(delay: int, url: string) | Failed(code: int)

  /**
    The poll as a state machine: a missing record is an error, a synchronised
    one is complete, one not yet synchronised is re-checked later at its
    status address; a status that is neither moves nowhere.
  */
  function PollTransition(c: Checker, response: Option<Receipt>): Option<PollOutcome>
  {
    match response
    case None => Some(Failed(NotFoundCode))
    case Some(receipt) =>
      if receipt.synchronized == "true" then Some(Completed)
      else if receipt.synchronized == "false" then Some(RetryPending(PendingDelay, UpdateUrl(c.idDomain, c.id)))
      else None
  }

  /**
    A decoder of the three result shapes, by their keys: an `events` entry
    with a code is an error; a `delay` with an `update_url` asks to be run
    again; a hash holding only the message id is completion; anything else is
    not a result. It belongs to the model, not to the checker.
  */
  function ReadResult(r: Option<Hash>): Option<PollOutcome>
  {
    match r
    case None => None
    case Some(h) =>
      if "events" in h && h["events"].RHash? && "code" in h["events"].fields && h["events"].fields["code"].Int? then
        Some(Failed(h["events"].fields["code"].i))
      else if "delay" in h && h["delay"].Int? && "update_url" in h && h["update_url"].Str? then
        Some(RetryPending(h["delay"].i, h["update_url"].s))
      else if h.Keys == {"message_id"} then
        Some(Completed)
      else
        None
  }

  /** The result hash of a poll, decoded by its shape, is exactly the poll's transition. */
  lemma PollResultMeansTransition(c: Checker, messageId: Value, response: Option<Receipt>)
    ensures ReadResult(VerifyQuickbooksImport(c, messageId, response)) == PollTransition(c, response)
  {
  }

  /**
    The three results are told apart by their keys alone: two polls that
    produce the same result hash reached the same outcome.
  */
  lemma PollResultsExclusive(c: Checker, m: Value, r1: Option<Receipt>, r2: Option<Receipt>)
    requires VerifyQuickbooksImport(c, m, r1).Some?
    requires VerifyQuickbooksImport(c, m, r1) == VerifyQuickbooksImport(c, m, r2)
    ensures PollTransition(c, r1) == PollTransition(c, r2)
    ensures r1.None? <==> r2.None?
    ensures r1.Some? ==> r1.value.synchronized == r2.value.synchronized
  {
  }

  /** Recovers the identifier domain and identifier from a status address. */
  function ParseUpdateUrl(url: string): Option<(string, string)>
  {
    if |url| >= |StatusUrlPrefix| && url[..|StatusUrlPrefix|] == StatusUrlPrefix then
      var rest := url[|StatusUrlPrefix|..];
      match FirstIndexOf(rest, '/')
      case None => None
      case Some(k) => Some((rest[..k], rest[k + 1..]))
    else
      None
  }

  /** A status address names its record unambiguously when the domain holds no '/'. */
  lemma {:induction false} UpdateUrlRoundTrip(idDomain: string, id: string)
    requires '/' !in idDomain
    ensures ParseUpdateUrl(UpdateUrl(idDomain, id)) == Some((idDomain, id))
  {
    var url := UpdateUrl(idDomain, id);
    var rest := idDomain + "/" + id;
    assert url[|StatusUrlPrefix|..] == rest;
    var k := FirstIndexOf(rest, '/');
    assert rest[|idDomain|] == '/';
    assert k.Some?;
    if k.value != |idDomain| {
      assert false;
    }
    assert rest[..|idDomain|] == idDomain;
    assert rest[|idDomain| + 1..] == id;
  }

  /** With a '/' in the domain, two different records share one status address. */
  lemma UpdateUrlAmbiguous()
    ensures UpdateUrl("a/b", "c") == UpdateUrl("a", "b/c")
    ensures ParseUpdateUrl(UpdateUrl("a/b", "c")) != Some(("a/b", "c"))
  {
    UpdateUrlRoundTrip("a", "b/c");
  }

  /** A pending result's address leads back to the record the checker polls. */
  lemma PendingUrlNamesRecord(c: Checker, messageId: Value, response: Option<Receipt>)
    requires response.Some? && response.value.synchronized == "false"
    requires '/' !in c.idDomain
    ensures var r := VerifyQuickbooksImport(c, messageId, response);
      r.Some? && "update_url" in r.value && r.value["update_url"].Str? &&
      ParseUpdateUrl(r.value["update_url"].s) == Some((c.idDomain, c.id))
  {
    UpdateUrlRoundTrip(c.idDomain, c.id);
  }

  /** A log entry about the checker's sales receipt. */
  predicate IsReceiptEntry(e: Entry, id: string)
  {
    e.objectType == ReceiptObjectType && e.ngId == id
  }

  /** Ruby's `select` over the log: the entries about this sales receipt, in log order. */
  function ReceiptEntries(entries: seq<Entry>, id: string): (r: seq<Entry>)
    ensures |r| <= |entries|
    ensures forall k :: 0 <= k < |r| ==> IsReceiptEntry(r[k], id)
  {
    Filter(entries, e => IsReceiptEntry(e, id))
  }

  /** Where the description of the `k`-th entry about the receipt starts in the diagnostic text. */
  function DescriptionOffset(c: Checker, entries: seq<Entry>, k: nat): nat
    requires k <= |ReceiptEntries(entries, c.id)|
  {
    Offset(Descriptions(ReceiptEntries(entries, c.id)), ErrorSeparator, k)
  }

  /** A log without entries about the receipt selects nothing. */
  lemma ReceiptEntriesAbsent(entries: seq<Entry>, id: string)
    ensures (forall k :: 0 <= k < |entries| ==> !IsReceiptEntry(entries[k], id)) ==> ReceiptEntries(entries, id) == []
  {
    if forall k :: 0 <= k < |entries| ==> !IsReceiptEntry(entries[k], id) {
      FilterNone(entries, e => IsReceiptEntry(e, id));
    }
  }

  /** The descriptions of the entries, in order. */
  function Descriptions(entries: seq<Entry>): (r: seq<string>)
    ensures |r| == |entries|
    ensures forall k :: 0 <= k < |r| ==> r[k] == entries[k].desc
  {
    seq(|entries|, k requires 0 <= k < |entries| => entries[k].desc)
  }

  /**
    The diagnostic text: the descriptions of the log entries about this
    sales receipt, joined with ", "; a fixed placeholder when the listing
    fails with a `StandardError`, so that such a failure never escapes.
  */
  function GetErrors(c: Checker, log: Result<seq<Entry>, ListFailure>): (r: string)
    ensures log.Failure? ==> r == NoErrorInformation
    ensures log.Success? && (forall k :: 0 <= k < |log.value| ==> !IsReceiptEntry(log.value[k], c.id)) ==> r == ""
  {
    match log
    case Failure(_) => NoErrorInformation
    case Success(entries) =>
      ReceiptEntriesAbsent(entries, c.id);
      Join(Descriptions(ReceiptEntries(entries, c.id)), ErrorSeparator)
  }

  /**
    The diagnostic text is the join of the descriptions of exactly the entries
    about this receipt, each as often as it is logged, in log order.
  */
  lemma GetErrorsExactly(c: Checker, entries: seq<Entry>, matched: seq<Entry>)
    requires forall k :: 0 <= k < |matched| ==> IsReceiptEntry(matched[k], c.id)
    requires forall x :: IsReceiptEntry(x, c.id) ==> multiset(matched)[x] == multiset(entries)[x]
    requires Embeds(matched, entries)
    ensures GetErrors(c, Success(entries)) == Join(Descriptions(matched), ErrorSeparator)
  {
    FilterUnique(entries, e => IsReceiptEntry(e, c.id), matched);
  }

  /**
    The description of the `k`-th matching entry appears in the text at its
    offset, and consecutive descriptions are separated by ", ".
  */
  lemma GetErrorsAt(c: Checker, entries: seq<Entry>, k: nat)
    requires k < |ReceiptEntries(entries, c.id)|
    ensures DescriptionOffset(c, entries, k) + |ReceiptEntries(entries, c.id)[k].desc| <= |GetErrors(c, Success(entries))|
    ensures GetErrors(c, Success(entries))[DescriptionOffset(c, entries, k)..DescriptionOffset(c, entries, k) + |ReceiptEntries(entries, c.id)[k].desc|]
      == ReceiptEntries(entries, c.id)[k].desc
    ensures k + 1 < |ReceiptEntries(entries, c.id)| ==>
      DescriptionOffset(c, entries, k + 1) == DescriptionOffset(c, entries, k) + |ReceiptEntries(entries, c.id)[k].desc| + |ErrorSeparator| <= |GetErrors(c, Success(entries))| &&
      GetErrors(c, Success(entries))[DescriptionOffset(c, entries, k) + |ReceiptEntries(entries, c.id)[k].desc|..DescriptionOffset(c, entries, k + 1)] == ErrorSeparator
  {
    var m := ReceiptEntries(entries, c.id);
    var ds := Descriptions(m);
    JoinAt(ds, ErrorSeparator, k);
  }

  /** An entry about the receipt is selected, so the selection from its log is not empty. */
  lemma ReceiptEntriesNonEmpty(entries: seq<Entry>, id: string, k: nat)
    requires k < |entries| && IsReceiptEntry(entries[k], id)
    ensures ReceiptEntries(entries, id) != []
  {
    FilterSome(entries, e => IsReceiptEntry(e, id), k);
  }

  /** Selecting from a log of two segments selects from each segment. */
  lemma ReceiptEntriesAppend(a: seq<Entry>, b: seq<Entry>, id: string)
    ensures ReceiptEntries(a + b, id) == ReceiptEntries(a, id) + ReceiptEntries(b, id)
  {
    FilterAppend(a, b, e => IsReceiptEntry(e, id));
  }

  /**
    Listing a longer log: the text for two log segments that both mention the
    receipt is the first segment's text, ", ", then the second's.
  */
  lemma GetErrorsAppend(c: Checker, a: seq<Entry>, b: seq<Entry>, i: nat, j: nat)
    requires i < |a| && IsReceiptEntry(a[i], c.id)
    requires j < |b| && IsReceiptEntry(b[j], c.id)
    ensures GetErrors(c, Success(a + b)) == GetErrors(c, Success(a)) + ErrorSeparator + GetErrors(c, Success(b))
  {
    var fa, fb := ReceiptEntries(a, c.id), ReceiptEntries(b, c.id);
    ReceiptEntriesAppend(a, b, c.id);
    ReceiptEntriesNonEmpty(a, c.id, i);
    ReceiptEntriesNonEmpty(b, c.id, j);
    assert Descriptions(fa + fb) == Descriptions(fa) + Descriptions(fb);
    JoinAppend(Descriptions(fa), Descriptions(fb), ErrorSeparator);
  }

  /** A log segment with no entry about the receipt adds nothing to the text. */
  lemma GetErrorsIgnoresOtherEntries(c: Checker, a: seq<Entry>, b: seq<Entry>)
    requires forall k :: 0 <= k < |b| ==> !IsReceiptEntry(b[k], c.id)
    ensures GetErrors(c, Success(a + b)) == GetErrors(c, Success(a))
  {
    ReceiptEntriesAppend(a, b, c.id);
    var fb := ReceiptEntries(b, c.id);
    ReceiptEntriesAbsent(b, c.id);
    assert ReceiptEntries(a, c.id) + fb == ReceiptEntries(a, c.id);
  }
}
