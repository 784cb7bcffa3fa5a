/**
 * `PayrollController.uploadFile`: every uploaded file goes through
 * `processFile` in order, and the per-file responses are folded into one
 * response and an HTTP status.
 */
module Upload {
  import opened Wrappers
  import opened Events
  import opened Responses
  import opened ErrorCodes
  import opened LineParser
  import opened EventStore
  import opened Seqs
  import opened Ingestion

  datatype Status = Ok | BadRequest

  /** The response body and the HTTP status of one upload request. */
  datatype Reply = Reply(response: ProcessingResponse, status: Status)

  /** The reply to a request with no files or an empty file array. */
  function NoFilesReply(): (r: Reply)
    ensures r.status == BadRequest && !r.response.Succeeded()
    ensures r.response.events.None? && r.response.base.reasonCode.None?
    ensures GetEnumFromCode("400-002").Some?
    ensures r.response.errorDescriptions == Some([Description(GetEnumFromCode("400-002").value)])
  {
    LookupOwnCode(NoFileFound);
    Reply(WithErrors(false, [Description(NoFileFound)]), BadRequest)
  }

  predicate AllSucceeded(rs: seq<ProcessingResponse>) {
    forall i | 0 <= i < |rs| :: rs[i].Succeeded()
  }

  /** The non-null event lists of the successful responses, concatenated in order. */
  function SuccessEvents(rs: seq<ProcessingResponse>): seq<Event> {
    if |rs| == 0 then []
    else
      var last := rs[|rs| - 1];
      SuccessEvents(rs[..|rs| - 1]) + (if last.Succeeded() then last.events.GetOr([]) else [])
  }

  /** The non-null error lists of the failed responses, concatenated in order. */
  function FailureErrors(rs: seq<ProcessingResponse>): seq<string> {
    if |rs| == 0 then []
    else
      var last := rs[|rs| - 1];
      FailureErrors(rs[..|rs| - 1]) + (if last.Succeeded() then [] else last.errorDescriptions.GetOr([]))
  }

  /**
   * The fold over the per-file responses: all successes give the gathered
   * events with OK; otherwise the gathered error descriptions with BAD_REQUEST.
   * A null or empty file array is answered with NO_FILE_FOUND's description.
   */
  method CombineResponses(files: Option<seq<ProcessingResponse>>) returns (reply: Reply)
    ensures files.None? || |files.value| == 0 ==> reply == NoFilesReply()
    ensures files.Some? && |files.value| > 0 && AllSucceeded(files.value) ==>
      reply == Reply(WithEvents(true, SuccessEvents(files.value)), Ok)
    ensures files.Some? && |files.value| > 0 && !AllSucceeded(files.value) ==>
      reply == Reply(WithErrors(false, FailureErrors(files.value)), BadRequest)
  {
    if files.None? || |files.value| == 0 {
      return NoFilesReply();
    }
    var rs := files.value;
    var allEvents: seq<Event> := [];
    var errorDescriptions: seq<string> := [];
    var allSuccess := true;
    var i := 0;
    while i < |rs|
      invariant 0 <= i <= |rs|
      invariant allEvents == SuccessEvents(rs[..i])
      invariant errorDescriptions == FailureErrors(rs[..i])
      invariant allSuccess <==> AllSucceeded(rs[..i])
    {
      var res := rs[i];
      assert rs[..i + 1][..i] == rs[..i];
      if res.Succeeded() {
        if res.events.Some? {
          allEvents := allEvents + res.events.value;
        }
      } else {
        allSuccess := false;
        if res.errorDescriptions.Some? {
          errorDescriptions := errorDescriptions + res.errorDescriptions.value;
        }
      }
      i := i + 1;
    }
    assert rs[..i] == rs;
    if allSuccess {
      reply := Reply(WithEvents(true, allEvents), Ok);
    } else {
      reply := Reply(WithErrors(false, errorDescriptions), BadRequest);
    }
  }

  /** The per-file responses of a run over several files, and the store after the last one. */
  datatype Run = Run(responses: seq<ProcessingResponse>, store: StoreFile)

  /** `processFile` on each file in turn, each seeing the store the previous one left. */
  function RunFiles(store: StoreFile, files: seq<seq<string>>, canCreate: bool): (r: Run)
    ensures |r.responses| == |files|
  {
    if |files| == 0 then Run([], store)
    else Step(RunFiles(store, files[..|files| - 1], canCreate), files[|files| - 1], canCreate)
  }

  /** One more file: its response is recorded and its store is passed on. */
  function Step(run: Run, lines: seq<string>, canCreate: bool): (r: Run)
    ensures |r.responses| == |run.responses| + 1
    ensures r.responses[..|run.responses|] == run.responses
    ensures IsFileResponse(r.responses[|run.responses|])
    ensures r.responses[|run.responses|].Succeeded() <==> ParseLines(lines).Success? && (canCreate || !run.store.Missing?)
    ensures !r.responses[|run.responses|].Succeeded() ==> r.store == run.store
  {
    var f := ProcessFile(run.store, lines, canCreate);
    Run(run.responses + [f.response], f.store)
  }

  /** What `processFile` can answer: a bare success, or the internal-error response. */
  predicate IsFileResponse(r: ProcessingResponse) {
    r == Plain(true) || r == FromBase(GetResponse(InternalException))
  }

  /** Every response of a run is one `processFile` can give. */
  lemma {:induction false} RunResponses(store: StoreFile, files: seq<seq<string>>, canCreate: bool)
    ensures forall i | 0 <= i < |files| :: IsFileResponse(RunFiles(store, files, canCreate).responses[i])
  {
    if |files| > 0 {
      RunResponses(store, files[..|files| - 1], canCreate);
    }
  }

  /**
   * `processFile` never fills in events or error descriptions, so the
   * controller gathers nothing from it.
   */
  lemma {:induction false} FileResponsesCarryNothing(rs: seq<ProcessingResponse>)
    requires forall i | 0 <= i < |rs| :: IsFileResponse(rs[i])
    ensures SuccessEvents(rs) == []
    ensures FailureErrors(rs) == []
  {
    if |rs| > 0 {
      FileResponsesCarryNothing(rs[..|rs| - 1]);
    }
  }

  /**
   * `uploadFile`: all files are processed, failures included, and their
   * responses combined. The reply's event list is always empty on success,
   * and the error list is always empty on failure.
   */
  method UploadFiles(store: StoreFile, files: Option<seq<seq<string>>>, canCreate: bool)
    returns (reply: Reply, after: StoreFile)
    ensures files.None? || |files.value| == 0 ==> reply == NoFilesReply() && after == store
    ensures files.Some? && |files.value| > 0 ==>
      var run := RunFiles(store, files.value, canCreate);
      && after == run.store
      && (reply.status == Ok <==> AllSucceeded(run.responses))
    ensures files.Some? && |files.value| > 0 && reply.status == Ok ==> reply == Reply(WithEvents(true, []), Ok)
    ensures files.Some? && |files.value| > 0 && reply.status == BadRequest ==> reply == Reply(WithErrors(false, []), BadRequest)
  {
    if files.None? || |files.value| == 0 {
      return NoFilesReply(), store;
    }
    var run := RunFiles(store, files.value, canCreate);
    RunResponses(store, files.value, canCreate);
    FileResponsesCarryNothing(run.responses);
    reply := CombineResponses(Some(run.responses));
    after := run.store;
  }

  /** The events a file contributes when every one of its lines parses, and none otherwise. */
  function Accepted(lines: seq<string>): seq<Event> {
    if ParseLines(lines).Success? then ParseLines(lines).value else []
  }

  /** The events of the files whose every line parsed, concatenated in upload order. */
  function ParsedRecords(files: seq<seq<string>>): seq<Event> {
    if |files| == 0 then []
    else ParsedRecords(files[..|files| - 1]) + Accepted(files[|files| - 1])
  }

  /** The store can take an append: it exists and decodes, or it may be created. */
  predicate CanWrite(store: StoreFile, canCreate: bool) {
    store.Stored? || (store.Missing? && canCreate)
  }

  /** One `processFile` on a writable store keeps it writable and succeeds exactly when every line parses. */
  lemma FileStep(store: StoreFile, lines: seq<string>, canCreate: bool)
    requires CanWrite(store, canCreate)
    ensures var f := ProcessFile(store, lines, canCreate);
      && CanWrite(f.store, canCreate)
      && (f.response.Succeeded() <==> ParseLines(lines).Success?)
      && ReadAll(f.store) == ReadAll(store) + Accepted(lines)
  {
  }

  /** A run that starts on a writable store leaves it writable. */
  lemma {:induction false} RunStaysWritable(store: StoreFile, files: seq<seq<string>>, canCreate: bool)
    requires CanWrite(store, canCreate)
    ensures CanWrite(RunFiles(store, files, canCreate).store, canCreate)
  {
    if |files| > 0 {
      RunStaysWritable(store, files[..|files| - 1], canCreate);
      FileStep(RunFiles(store, files[..|files| - 1], canCreate).store, files[|files| - 1], canCreate);
    }
  }

  /** The last file of a run on a writable store adds exactly what it contributes. */
  lemma RunStep(store: StoreFile, files: seq<seq<string>>, canCreate: bool)
    requires CanWrite(store, canCreate) && |files| > 0
    ensures ReadAll(RunFiles(store, files, canCreate).store)
      == ReadAll(RunFiles(store, files[..|files| - 1], canCreate).store) + Accepted(files[|files| - 1])
  {
    RunStaysWritable(store, files[..|files| - 1], canCreate);
    FileStep(RunFiles(store, files[..|files| - 1], canCreate).store, files[|files| - 1], canCreate);
  }

  /**
   * When the store can be written, the store ends with the events of every
   * file whose lines all parsed, in upload order: a failing file does not
   * stop the rest.
   */
  lemma {:induction false} RunStoresParsedFiles(store: StoreFile, files: seq<seq<string>>, canCreate: bool)
    requires CanWrite(store, canCreate)
    ensures ReadAll(RunFiles(store, files, canCreate).store) == ReadAll(store) + ParsedRecords(files)
  {
    if |files| > 0 {
      var prefix := files[..|files| - 1];
      RunStoresParsedFiles(store, prefix, canCreate);
      RunStep(store, files, canCreate);
      Associates(ReadAll(store), ParsedRecords(prefix), Accepted(files[|files| - 1]));
    }
  }

  /**
   * An append cannot fail for want of a file: the file exists (readable or
   * not), or it may be created.
   */
  predicate Creatable(store: StoreFile, canCreate: bool) {
    canCreate || !store.Missing?
  }

  /** One `processFile` on such a store keeps it so and succeeds exactly when every line parses. */
  lemma FileStays(store: StoreFile, lines: seq<string>, canCreate: bool)
    requires Creatable(store, canCreate)
    ensures var f := ProcessFile(store, lines, canCreate);
      && Creatable(f.store, canCreate)
      && (f.response.Succeeded() <==> ParseLines(lines).Success?)
  {
  }

  /** A run that starts on such a store never loses the file. */
  lemma {:induction false} RunStaysCreatable(store: StoreFile, files: seq<seq<string>>, canCreate: bool)
    requires Creatable(store, canCreate)
    ensures Creatable(RunFiles(store, files, canCreate).store, canCreate)
  {
    if |files| > 0 {
      RunStaysCreatable(store, files[..|files| - 1], canCreate);
      FileStays(RunFiles(store, files[..|files| - 1], canCreate).store, files[|files| - 1], canCreate);
    }
  }

  /**
   * An undecodable store stays undecodable through a whole run: every append
   * is swallowed, though each file whose lines parse still reports success.
   */
  lemma {:induction false} RunKeepsCorrupt(files: seq<seq<string>>, canCreate: bool)
    ensures RunFiles(Corrupt, files, canCreate).store == Corrupt
  {
    if |files| > 0 {
      RunKeepsCorrupt(files[..|files| - 1], canCreate);
    }
  }

  /**
   * Unless the file is missing and cannot be created, a file's response is a
   * success exactly when all its lines parse; an undecodable store included.
   */
  lemma RunSucceedsPerFile(store: StoreFile, files: seq<seq<string>>, canCreate: bool)
    requires Creatable(store, canCreate)
    ensures forall i | 0 <= i < |files| ::
      RunFiles(store, files, canCreate).responses[i].Succeeded() <==> ParseLines(files[i]).Success?
  {
    forall i | 0 <= i < |files|
      ensures RunFiles(store, files, canCreate).responses[i].Succeeded() <==> ParseLines(files[i]).Success?
    {
      FileSucceedsAt(store, files, canCreate, i);
    }
  }

  lemma {:induction false} FileSucceedsAt(store: StoreFile, files: seq<seq<string>>, canCreate: bool, i: int)
    requires Creatable(store, canCreate) && 0 <= i < |files|
    ensures RunFiles(store, files, canCreate).responses[i].Succeeded() <==> ParseLines(files[i]).Success?
  {
    if i == |files| - 1 {
      LastFileSucceeds(store, files, canCreate);
    } else {
      FileSucceedsAt(store, files[..|files| - 1], canCreate, i);
      EarlierResponseKept(store, files, canCreate, i);
    }
  }

  /** Later files do not change an earlier file's response. */
  lemma EarlierResponseKept(store: StoreFile, files: seq<seq<string>>, canCreate: bool, i: int)
    requires 0 <= i < |files| - 1
    ensures RunFiles(store, files, canCreate).responses[i] == RunFiles(store, files[..|files| - 1], canCreate).responses[i]
    ensures files[i] == files[..|files| - 1][i]
  {
  }

  lemma LastFileSucceeds(store: StoreFile, files: seq<seq<string>>, canCreate: bool)
    requires Creatable(store, canCreate) && |files| > 0
    ensures var run := RunFiles(store, files, canCreate).responses;
      run[|files| - 1].Succeeded() <==> ParseLines(files[|files| - 1]).Success?
  {
    RunStaysCreatable(store, files[..|files| - 1], canCreate);
    FileStays(RunFiles(store, files[..|files| - 1], canCreate).store, files[|files| - 1], canCreate);
  }
}
