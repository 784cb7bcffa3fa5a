/**
 * `writeRecordsToFile` and `readRecordsFromFile`: the JSON file holding every
 * stored event, seen as one state value that an append replaces whole.
 */
module EventStore {
  import opened Wrappers
  import opened Events

  /**
   * The backing file: absent, present but not decodable as a list of events,
   * or decodable to `events` (a zero-length file is `Stored([])`).
   */
  datatype StoreFile = Missing | Corrupt | Stored(events: seq<Event>)

  /** The `IOException` raised when the data directory or file cannot be created. */
  datatype StoreError = CreateFailed

  /**
   * `readRecordsFromFile`: the stored events in insertion order; a missing,
   * empty or undecodable file reads as no events.
   */
  function ReadAll(f: StoreFile): (r: seq<Event>)
    ensures f.Stored? ==> r == f.events
    ensures !f.Stored? ==> r == []
  {
    match f
    case Missing => []
    case Corrupt => []
    case Stored(events) => events
  }

  /**
   * `writeRecordsToFile`: a missing file is created first (`canCreate` says
   * whether the file system allows it), then the existing events are read,
   * the new ones appended and the whole list written back. When the existing
   * content cannot be decoded the exception is swallowed: nothing is written
   * and the call still returns normally.
   */
  function Append(f: StoreFile, records: seq<Event>, canCreate: bool): (r: Result<StoreFile, StoreError>)
    ensures r.Failure? <==> f.Missing? && !canCreate
    ensures f.Corrupt? ==> r == Success(Corrupt)
    ensures r.Success? && !f.Corrupt? ==> r.value.Stored? && ReadAll(r.value) == ReadAll(f) + records
  {
    match f
    case Missing => if canCreate then Success(Stored(records)) else Failure(CreateFailed)
    case Corrupt => Success(Corrupt)
    case Stored(existing) => Success(Stored(existing + records))
  }

  /** Two appends in a row store the same as one append of both batches. */
  lemma AppendTwice(f: StoreFile, a: seq<Event>, b: seq<Event>, canCreate: bool, canCreateLater: bool)
    requires Append(f, a, canCreate).Success?
    ensures Append(Append(f, a, canCreate).value, b, canCreateLater) == Append(f, a + b, canCreate)
  {
    match f
    case Missing =>
    case Corrupt =>
    case Stored(existing) =>
      assert (existing + a) + b == existing + (a + b);
  }

  /** An append never changes or drops what was stored before, and never merges duplicates. */
  lemma AppendKeepsHistory(f: StoreFile, records: seq<Event>, canCreate: bool)
    requires Append(f, records, canCreate).Success?
    ensures ReadAll(f) <= ReadAll(Append(f, records, canCreate).value)
    ensures !f.Corrupt? ==> |ReadAll(Append(f, records, canCreate).value)| == |ReadAll(f)| + |records|
  {
  }
}
