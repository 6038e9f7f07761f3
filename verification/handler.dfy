/** The request handler around the row extractor: wait for the analysis job, gather the block
    pages, find the line-items table, extract its items and publish them as JSON. The analysis
    service, the JSON mapper and the exception messages are parameters. */
module Handler {
  import opened Wrappers
  import opened Blocks
  import Seqs
  import RowExtractor

  /** The states of an analysis job; UnknownToSdkVersion stands for a status the SDK does not
      know. */
  datatype JobStatus = InProgress | Succeeded | Failed | PartialSuccess | UnknownToSdkVersion

  /** How a status reads when concatenated to a string: the service's own name for it, and
      "null" for a status the SDK does not know. */
  function StatusName(s: JobStatus): (name: string)
    ensures |name| >= 4
    ensures name == "null" <==> s == UnknownToSdkVersion
  {
    match s
    case InProgress => "IN_PROGRESS"
    case Succeeded => "SUCCEEDED"
    case Failed => "FAILED"
    case PartialSuccess => "PARTIAL_SUCCESS"
    case UnknownToSdkVersion => "null"
  }

  /** Distinct statuses read differently. */
  lemma StatusNameInjective(a: JobStatus, b: JobStatus)
    requires a != b
    ensures StatusName(a) != StatusName(b)
  {
  }

  /** What the handler returns, and the message it sends to the queue, if any. */
  datatype Response = Response(reply: string, message: Option<string>)

  const EmptyJson := "{}"
  const ErrorPrefix := "Error processing document: "
  const FailedPrefix := "Analysis job failed with status: "

  /** A job that is no longer running. */
  predicate Settled(s: JobStatus) {
    s != InProgress
  }

  /** The status the polling loop stops at: the first answer that is not IN_PROGRESS among the
      answers the service gives, poll by poll; None when it is still running at the last. */
  function FinalStatus(polls: seq<JobStatus>): (r: Option<JobStatus>)
    ensures r.Some? ==> r.value != InProgress && r.value in polls
    ensures r.None? <==> forall i :: 0 <= i < |polls| ==> polls[i] == InProgress
  {
    Seqs.FindFirst(polls, Settled)
  }

  /** How many status checks the polling loop makes: up to and including the first answer that
      is not IN_PROGRESS, or every answer when there is none. */
  function PollCount(polls: seq<JobStatus>): (n: nat)
    ensures n <= |polls|
    ensures forall i :: 0 <= i < n - 1 ==> polls[i] == InProgress
    ensures FinalStatus(polls).Some? ==> n >= 1 && polls[n - 1] == FinalStatus(polls).value
    ensures FinalStatus(polls).None? ==> n == |polls|
  {
    if polls == [] then 0
    else if polls[0] != InProgress then 1
    else
      var rest := PollCount(polls[1..]);
      assert forall i :: 1 <= i < |polls| ==> polls[i] == polls[1..][i - 1];
      1 + rest
  }

  /** Two IN_PROGRESS answers and then SUCCEEDED take exactly three status checks. */
  lemma ThreeChecks()
    ensures PollCount([InProgress, InProgress, Succeeded]) == 3
    ensures FinalStatus([InProgress, InProgress, Succeeded]) == Some(Succeeded)
  {
    var polls := [InProgress, InProgress, Succeeded];
    assert polls[1..] == [InProgress, Succeeded] && polls[1..][1..] == [Succeeded];
  }

  /** The polling loop: ask for the job's status until it is no longer IN_PROGRESS. `polls` is
      what the service answers, in order; running out of answers means the job has not settled
      within them. `checks` is the number of status requests made. */
  method AwaitJob(polls: seq<JobStatus>) returns (r: Option<JobStatus>, checks: nat)
    ensures r == FinalStatus(polls)
    ensures checks == PollCount(polls)
  {
    var k := 0;
    while k < |polls| && polls[k] == InProgress
      invariant 0 <= k <= |polls|
      invariant forall i :: 0 <= i < k ==> polls[i] == InProgress
      invariant Seqs.FindFirst(polls, Settled) == Seqs.FindFirst(polls[k..], Settled)
      invariant PollCount(polls) == k + PollCount(polls[k..])
    {
      assert polls[k..][1..] == polls[k + 1..];
      k := k + 1;
    }
    if k == |polls| {
      return None, k;
    }
    return Some(polls[k]), k + 1;
  }

  /** The blocks of all pages, in page order. */
  function Concat(pages: seq<seq<Block>>): seq<Block> {
    if pages == [] then [] else pages[0] + Concat(pages[1..])
  }

  /** Gathering pages in two batches gathers them all. */
  lemma {:induction false} ConcatAppend(xs: seq<seq<Block>>, ys: seq<seq<Block>>)
    ensures Concat(xs + ys) == Concat(xs) + Concat(ys)
  {
    if xs == [] {
      assert xs + ys == ys;
    } else {
      assert (xs + ys)[1..] == xs[1..] + ys;
      ConcatAppend(xs[1..], ys);
    }
  }

  /** A block is gathered exactly when it is on some page. */
  lemma {:induction false} ConcatMembers(pages: seq<seq<Block>>, b: Block)
    ensures b in Concat(pages) <==> exists i :: 0 <= i < |pages| && b in pages[i]
  {
    if pages != [] {
      ConcatMembers(pages[1..], b);
      if exists i :: 0 <= i < |pages[1..]| && b in pages[1..][i] {
        var i :| 0 <= i < |pages[1..]| && b in pages[1..][i];
        assert b in pages[i + 1];
      }
      if exists i :: 0 <= i < |pages| && b in pages[i] {
        var i :| 0 <= i < |pages| && b in pages[i];
        if i > 0 {
          assert b in pages[1..][i - 1];
        }
      }
    }
  }

  /** The pagination loop: the first page's blocks, then each following page's blocks, until
      the service returns no next token. `next` is the pages behind the tokens, in order. */
  method CollectBlocks(first: seq<Block>, next: seq<seq<Block>>) returns (blocks: seq<Block>)
    ensures blocks == first + Concat(next)
  {
    blocks := first;
    var k := 0;
    while k < |next|
      invariant 0 <= k <= |next|
      invariant blocks + Concat(next[k..]) == first + Concat(next)
    {
      assert next[k..][1..] == next[k + 1..];
      assert Concat(next[k..]) == next[k] + Concat(next[k + 1..]);
      assert blocks + Concat(next[k..]) == (blocks + next[k]) + Concat(next[k + 1..]);
      blocks := blocks + next[k];
      k := k + 1;
    }
    assert next[k..] == [];
  }

  /** What the handler answers once the job has settled with `status` and its blocks are
      `blocks`. `serialize` is the JSON mapper (None when it throws); `describe` gives the
      message of the exception an extraction error stands for. */
  function Respond(status: JobStatus, blocks: seq<Block>,
                   serialize: seq<RowExtractor.InvoiceItem> -> Option<string>,
                   describe: RowExtractor.ExtractionError -> string): (r: Response)
    ensures r.message.Some? ==> r.reply == r.message.value
    ensures status != Succeeded ==> r == Response(FailedPrefix + StatusName(status), None)
  {
    if status != Succeeded then Response(FailedPrefix + StatusName(status), None)
    else
      match GetItemsDetailTable(blocks)
      case None => Response(EmptyJson, None)
      case Some(table) =>
        match RowExtractor.ExtractItems(table, blocks)
        case Err(e) => Response(ErrorPrefix + describe(e), None)
        case Ok(items) =>
          match serialize(items)
          case None => Response(EmptyJson, None)
          case Some(json) => Response(json, Some(json))
  }

  /** The handler, from the status answers and the pages the service gives. None when the job
      never settles within `polls` (the handler keeps polling). */
  method HandleRequest(polls: seq<JobStatus>, first: seq<Block>, next: seq<seq<Block>>,
                       serialize: seq<RowExtractor.InvoiceItem> -> Option<string>,
                       describe: RowExtractor.ExtractionError -> string)
    returns (r: Option<Response>)
    ensures FinalStatus(polls).None? <==> r.None?
    ensures r.Some? ==> r.value == Respond(FinalStatus(polls).value, first + Concat(next), serialize, describe)
  {
    var status, _ := AwaitJob(polls);
    if status.None? {
      return None;
    }
    if status.value != Succeeded {
      return Some(Response(FailedPrefix + StatusName(status.value), None));
    }
    var blocks := CollectBlocks(first, next);
    var detailsTable := GetItemsDetailTable(blocks);
    if detailsTable.None? {
      return Some(Response(EmptyJson, None));
    }
    var items := RowExtractor.ProcessTable(detailsTable.value, blocks);
    if items.Err? {
      return Some(Response(ErrorPrefix + describe(items.error), None));
    }
    var itemsJson := serialize(items.value);
    if itemsJson.None? {
      return Some(Response(EmptyJson, None));
    }
    return Some(Response(itemsJson.value, Some(itemsJson.value)));
  }

  /** The items are published exactly when the job succeeded, a line-items table was found,
      every cell of it was read and the items serialized; the message is then their JSON. */
  lemma PublishedIffExtracted(status: JobStatus, blocks: seq<Block>,
                              serialize: seq<RowExtractor.InvoiceItem> -> Option<string>,
                              describe: RowExtractor.ExtractionError -> string)
    ensures var r := Respond(status, blocks, serialize, describe);
      r.message.Some? <==>
        (status == Succeeded && GetItemsDetailTable(blocks).Some? &&
         var x := RowExtractor.ExtractItems(GetItemsDetailTable(blocks).value, blocks);
         x.Ok? && serialize(x.value).Some? && r.message == serialize(x.value))
  {
  }

  /** "{}" without a message is answered exactly when the job succeeded but there was either no
      line-items table or no JSON for its items: neither failure text can read "{}". */
  lemma EmptyReplyIff(status: JobStatus, blocks: seq<Block>,
                      serialize: seq<RowExtractor.InvoiceItem> -> Option<string>,
                      describe: RowExtractor.ExtractionError -> string)
    ensures var r := Respond(status, blocks, serialize, describe);
      (r.reply == EmptyJson && r.message.None?) <==>
        (status == Succeeded &&
         (GetItemsDetailTable(blocks).None? ||
          var x := RowExtractor.ExtractItems(GetItemsDetailTable(blocks).value, blocks);
          x.Ok? && serialize(x.value).None?))
  {
    var r := Respond(status, blocks, serialize, describe);
    if status != Succeeded {
      assert |r.reply| > |EmptyJson|;
    } else if GetItemsDetailTable(blocks).Some? {
      var x := RowExtractor.ExtractItems(GetItemsDetailTable(blocks).value, blocks);
      if x.Err? {
        assert |r.reply| > |EmptyJson|;
      }
    }
  }

  /** An extraction that aborts (a null relationship list, an unresolved child, a malformed
      number) is answered with the error prefix and the exception's message, and nothing is
      published. */
  lemma ExtractionErrorReply(blocks: seq<Block>, table: Block,
                             serialize: seq<RowExtractor.InvoiceItem> -> Option<string>,
                             describe: RowExtractor.ExtractionError -> string)
    requires GetItemsDetailTable(blocks) == Some(table)
    requires RowExtractor.ExtractItems(table, blocks).Err?
    ensures var r := Respond(Succeeded, blocks, serialize, describe);
      r.message.None? && |r.reply| >= |ErrorPrefix| && r.reply[..|ErrorPrefix|] == ErrorPrefix &&
      r.reply[|ErrorPrefix|..] == describe(RowExtractor.ExtractItems(table, blocks).error)
  {
  }

  /** Every status other than SUCCEEDED has its own failure text. */
  lemma FailedReplyNamesStatus(a: JobStatus, b: JobStatus, blocks: seq<Block>,
                               serialize: seq<RowExtractor.InvoiceItem> -> Option<string>,
                               describe: RowExtractor.ExtractionError -> string)
    requires a != Succeeded && b != Succeeded && a != b
    ensures Respond(a, blocks, serialize, describe).reply != Respond(b, blocks, serialize, describe).reply
  {
    StatusNameInjective(a, b);
    var x, y := FailedPrefix + StatusName(a), FailedPrefix + StatusName(b);
    assert x[|FailedPrefix|..] == StatusName(a);
    assert y[|FailedPrefix|..] == StatusName(b);
  }
}
