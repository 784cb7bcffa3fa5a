/** `PayrollServiceImpl.processFile`: parse one uploaded file and append its events to the store. */
module Ingestion {
  import opened Wrappers
  import opened Events
  import opened Responses
  import opened ErrorCodes
  import opened LineParser
  import opened EventStore

  /** The response for one file and the store after it. */
  datatype FileResult = FileResult(response: ProcessingResponse, store: StoreFile)

  /**
   * `processFile`: every line is parsed; if none raised an uncaught exception
   * and the store could be written, the events are appended and a bare
   * success response returned. Any exception becomes the INTERNAL_EXCEPTION
   * response, and then nothing from this file is written.
   */
  function ProcessFile(store: StoreFile, lines: seq<string>, canCreate: bool): (r: FileResult)
    ensures r.response.Succeeded() <==> ParseLines(lines).Success? && (canCreate || !store.Missing?)
    ensures r.response.Succeeded() ==> r.response == Plain(true)
    ensures !r.response.Succeeded() ==> r.store == store && r.response == FromBase(GetResponse(InternalException))
    ensures r.response.Succeeded() && !store.Corrupt? ==>
      ReadAll(r.store) == ReadAll(store) + ParseLines(lines).value
    ensures store.Corrupt? ==> r.store == Corrupt
    ensures !store.Corrupt? ==> !r.store.Corrupt?
    ensures !store.Missing? ==> !r.store.Missing?
  {
    var failed := FileResult(FromBase(GetResponse(InternalException)), store);
    match ParseLines(lines)
    case Failure(_) => failed
    case Success(records) =>
      match Append(store, records, canCreate)
      case Failure(_) => failed
      case Success(updated) => FileResult(Plain(true), updated)
  }

  /**
   * Uploading one file and then another stores exactly what uploading their
   * lines as a single file would.
   */
  lemma {:induction false} ProcessTwoFiles(store: StoreFile, a: seq<string>, b: seq<string>, canCreate: bool)
    requires ProcessFile(store, a, canCreate).response.Succeeded()
    requires ProcessFile(ProcessFile(store, a, canCreate).store, b, canCreate).response.Succeeded()
    ensures ProcessFile(ProcessFile(store, a, canCreate).store, b, canCreate) == ProcessFile(store, a + b, canCreate)
  {
    var ra := ParseLines(a).value;
    var rb := ParseLines(b).value;
    ParseLinesAppend(a, b);
    AppendTwice(store, ra, rb, canCreate, canCreate);
  }
}
