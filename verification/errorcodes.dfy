/** `CustomExceptionEnum`: three error constants, a code lookup table and a response builder. */
module ErrorCodes {
  import opened Wrappers
  import opened Responses

  datatype ExceptionKind = NoFileFound | ErrorProcessingFile | InternalException

  /** The constants in declaration order, as `values()` lists them. */
  const AllKinds: seq<ExceptionKind> := [NoFileFound, ErrorProcessingFile, InternalException]

  function Code(k: ExceptionKind): string {
    match k
    case NoFileFound => "400-002"
    case ErrorProcessingFile => "400-003"
    case InternalException => "400-001"
  }

  function Description(k: ExceptionKind): string {
    match k
    case NoFileFound => "No file uploaded or file is empty"
    case ErrorProcessingFile => "Error processing file"
    case InternalException => "Internal Error has been occurred."
  }

  /** No two constants share a code, so the lookup table loses nothing. */
  lemma CodesDistinct(k1: ExceptionKind, k2: ExceptionKind)
    ensures Code(k1) == Code(k2) ==> k1 == k2
  {
  }

  /** The static initialiser: `map.put(code, constant)` for each constant in order. */
  function CodeTable(kinds: seq<ExceptionKind>): (t: map<string, ExceptionKind>)
    ensures forall code | code in t :: Code(t[code]) == code
    ensures forall i | 0 <= i < |kinds| :: Code(kinds[i]) in t
    ensures forall code | code in t :: exists i | 0 <= i < |kinds| :: Code(kinds[i]) == code
  {
    if |kinds| == 0 then map[]
    else
      var t := CodeTable(kinds[..|kinds| - 1]);
      var k := kinds[|kinds| - 1];
      assert forall i | 0 <= i < |kinds| - 1 :: kinds[..|kinds| - 1][i] == kinds[i];
      t[Code(k) := k]
  }

  /** Where each constant sits in `AllKinds`. */
  function IndexOfKind(k: ExceptionKind): (i: nat)
    ensures i < |AllKinds| && AllKinds[i] == k
  {
    match k
    case NoFileFound => 0
    case ErrorProcessingFile => 1
    case InternalException => 2
  }

  /** `getEnumFromCode`: the constant with that code, or `null` for any other code. */
  function GetEnumFromCode(code: string): (r: Option<ExceptionKind>)
    ensures r.Some? ==> Code(r.value) == code
    ensures r.None? ==> forall k: ExceptionKind :: Code(k) != code
  {
    var t := CodeTable(AllKinds);
    if code in t then Some(t[code])
    else
      assert forall k: ExceptionKind :: Code(k) in t by {
        forall k: ExceptionKind ensures Code(k) in t {
          assert AllKinds[IndexOfKind(k)] == k;
        }
      }
      None
  }

  /** Looking up a constant's own code finds that constant. */
  lemma {:induction false} LookupOwnCode(k: ExceptionKind)
    ensures GetEnumFromCode(Code(k)) == Some(k)
  {
    assert k in AllKinds;
    var r := GetEnumFromCode(Code(k));
    assert r.Some?;
    CodesDistinct(r.value, k);
  }

  /** `getResponse`: a failed `BaseResponse` carrying the constant's code and description. */
  function GetResponse(k: ExceptionKind): (r: BaseResponse)
    ensures !r.success
    ensures r.reasonCode.Some? && GetEnumFromCode(r.reasonCode.value) == Some(k)
    ensures r.reasonDesc == Some(Description(k))
  {
    LookupOwnCode(k);
    BaseResponse(false, Some(Code(k)), Some(Description(k)))
  }
}
