/**
 * The XML decoder, seen from the container: a cursor over the records the
 * persisted object graph decodes to. Parsing the XML is not modelled; the
 * records it would yield are the input.
 */
module Decoder {
  import opened Wrappers
  import opened JavaRuntime

  /** What successive `readObject()` calls decode, in order; `None` is a decoded `null`. */
  type Records = seq<Option<Ref>>

  /** The outcome of one `readObject()` call: an object or `null`, or the exception thrown past the last record. */
  datatype ReadOutcome = Decoded(object: Option<Ref>) | ArrayIndexOutOfBounds

  /** `readObject()` at cursor position `pos`: past the last record it throws. */
  function ReadObject(records: Records, pos: nat): ReadOutcome
  {
    if pos < |records| then Decoded(records[pos]) else ArrayIndexOutOfBounds
  }

  /**
   * The records a decoder opened on `inputStream` yields: a decoder opened on a
   * `null` stream decodes nothing.
   */
  function Open(inputStream: Option<Records>): Records
  {
    if inputStream.Some? then inputStream.value else []
  }

  /**
   * The objects the container catalogs from `records`: every record before the
   * first `null` record (or before the end), in order, and nothing after it.
   */
  function Loaded(records: Records): (objs: seq<Ref>)
    ensures |objs| <= |records|
    ensures forall i :: 0 <= i < |objs| ==> records[i] == Some(objs[i])
    ensures |objs| < |records| ==> records[|objs|] == None
  {
    if records == [] || records[0].None? then []
    else [records[0].value] + Loaded(records[1..])
  }
}
