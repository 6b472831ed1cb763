/**
 * Building the RFP-update summaries from the Gmail search results
 * (bidWinner.py:222-238). The Gmail service is reduced to what each `get` call
 * yields: a message with its headers and snippet, or a failure.
 */
module Inbox {
  import opened Wrappers

  /** One entry of `msg['payload']['headers']`. */
  datatype Header = Header(name: string, value: string)

  /** The parts of a fetched message the summary uses. */
  datatype Message = Message(headers: seq<Header>, snippet: string)

  /** One `messages().get(...).execute()` call: the message, or an exception. */
  datatype Fetch = Fetched(msg: Message) | FetchFailed

  /** Only the first five search results are read (bidWinner.py:228). */
  const MaxUpdates: nat := 5

  const SubjectName: string := "Subject"
  const NoSubject: string := "No Subject"

  function Min(a: nat, b: nat): nat {
    if a <= b then a else b
  }

  /** `next((h['value'] for h in headers if h['name'] == 'Subject'), 'No Subject')`. */
  function SubjectOf(headers: seq<Header>): string
    decreases |headers|
  {
    if headers == [] then NoSubject
    else if headers[0].name == SubjectName then headers[0].value
    else SubjectOf(headers[1..])
  }

  /** The subject is the value of the first header named exactly `Subject`. */
  lemma {:induction false} SubjectOfFirst(headers: seq<Header>, i: nat)
    requires i < |headers| && headers[i].name == SubjectName
    requires forall j :: 0 <= j < i ==> headers[j].name != SubjectName
    ensures SubjectOf(headers) == headers[i].value
    decreases i
  {
    if i > 0 {
      SubjectOfFirst(headers[1..], i - 1);
    }
  }

  /** Without a `Subject` header the subject is `No Subject`. */
  lemma {:induction false} SubjectOfDefault(headers: seq<Header>)
    requires forall j :: 0 <= j < |headers| ==> headers[j].name != SubjectName
    ensures SubjectOf(headers) == NoSubject
    decreases |headers|
  {
    if headers != [] {
      SubjectOfDefault(headers[1..]);
    }
  }

  /** The text of one update, `f"Subject: {subject}\nPreview: {snippet}"`. */
  function Summary(m: Message): string {
    "Subject: " + SubjectOf(m.headers) + "\nPreview: " + m.snippet
  }

  /** The loop of bidWinner.py:227-236 over `messages[:5]`. A failed fetch raises out of
      the loop, so nothing is produced; otherwise there is one summary per message read,
      in the order the service listed them. */
  method BuildUpdates(listed: seq<Fetch>) returns (updates: Option<seq<string>>)
    ensures updates.None? <==> exists i :: 0 <= i < Min(|listed|, MaxUpdates) && listed[i].FetchFailed?
    ensures updates.Some? ==>
              && |updates.value| == Min(|listed|, MaxUpdates)
              && forall i :: 0 <= i < |updates.value| ==> updates.value[i] == Summary(listed[i].msg)
  {
    var n := Min(|listed|, MaxUpdates);
    var acc: seq<string> := [];
    var i := 0;
    while i < n
      invariant 0 <= i <= n && |acc| == i
      invariant forall k :: 0 <= k < i ==> listed[k].Fetched? && acc[k] == Summary(listed[k].msg)
    {
      match listed[i]
      case FetchFailed =>
        return None;
      case Fetched(msg) =>
        acc := acc + [Summary(msg)];
      i := i + 1;
    }
    updates := Some(acc);
  }

  /** With two `Subject` headers, the first one wins. */
  lemma SubjectExample(headers: seq<Header>)
    requires headers == [Header("From", "a@b"), Header("Subject", "RFP v2"), Header("Subject", "old")]
    ensures SubjectOf(headers) == "RFP v2"
  {
    SubjectOfFirst(headers, 1);
  }
}
