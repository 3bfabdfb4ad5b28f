/**
 * The saved document: one base 64 string per frame, in order. Loading decodes
 * each string and accepts it as a frame only when it yields exactly one
 * frame's worth of bytes.
 */
module Persistence {
  import opened Wrappers
  import opened Bytes
  import opened Base64
  import opened Raster

  /** Why one entry of a document could not become a frame. */
  datatype FrameError =
    | NotBase64                 // the string is not a base 64 encoding
    | WrongLength(length: nat)  // it decodes, but not to FrameSize bytes

  /** Why a load stopped. */
  datatype LoadError =
    | MissingFramesField                       // the document has no "frames" field
    | BadFrame(position: nat, reason: FrameError)

  /** The "frames" field of a saved document for these frames. */
  function SaveDocument(frames: seq<Frame>): (doc: seq<string>)
    ensures |doc| == |frames|
    ensures forall i :: 0 <= i < |doc| ==> Decode(doc[i]) == Some(frames[i])
  {
    DecodeEncodeEach(frames);
    seq(|frames|, i requires 0 <= i < |frames| => Encode(frames[i]))
  }

  /** The base 64 round trip, for every frame of a list. */
  lemma DecodeEncodeEach(frames: seq<Frame>)
    ensures forall i :: 0 <= i < |frames| ==> Decode(Encode(frames[i])) == Some(frames[i])
  {
    forall i | 0 <= i < |frames|
      ensures Decode(Encode(frames[i])) == Some(frames[i])
    {
      DecodeEncode(frames[i]);
    }
  }

  /** Decodes one entry of a document into a frame. */
  function DecodeFrame(s: string): (r: Result<Frame, FrameError>)
    ensures r.Ok? <==> Decode(s).Some? && IsFrame(Decode(s).value)
  {
    match Decode(s)
    case None => Err(NotBase64)
    case Some(b) => if |b| == FrameSize then Ok(b) else Err(WrongLength(|b|))
  }

  /** An entry is accepted only if it is exactly the saved form of the frame it yields. */
  lemma DecodeFrameExact(s: string)
    requires DecodeFrame(s).Ok?
    ensures Encode(DecodeFrame(s).value) == s
  {
    EncodeDecode(s);
  }

  /** The position of the first entry that does not decode, or the length when all do. */
  function FirstBad(entries: seq<string>): (k: nat)
    ensures k <= |entries|
    ensures forall j :: 0 <= j < k ==> DecodeFrame(entries[j]).Ok?
    ensures k < |entries| ==> DecodeFrame(entries[k]).Err?
  {
    if entries == [] then 0
    else if DecodeFrame(entries[0]).Err? then 0
    else 1 + FirstBad(entries[1..])
  }

  /** The frames decoded from the entries before the first bad one. */
  function DecodedPrefix(entries: seq<string>): (frames: seq<Frame>)
    ensures |frames| == FirstBad(entries)
    ensures forall j :: 0 <= j < |frames| ==> IsFrame(frames[j])
  {
    var k := FirstBad(entries);
    seq(k, j requires 0 <= j < k => DecodeFrame(entries[j]).value)
  }

  /** The error a load of this document reports, or None when every entry decodes. */
  function LoadOutcome(doc: Option<seq<string>>): (r: Option<LoadError>)
    ensures r.None? <==> doc.Some? && FirstBad(doc.value) == |doc.value|
  {
    match doc
    case None => Some(MissingFramesField)
    case Some(entries) =>
      var k := FirstBad(entries);
      if k == |entries| then None else Some(BadFrame(k, DecodeFrame(entries[k]).error))
  }

  /** A saved document decodes completely, to the very frames that were saved. */
  lemma {:induction false} SaveThenDecode(frames: seq<Frame>)
    requires forall i :: 0 <= i < |frames| ==> IsFrame(frames[i])
    ensures FirstBad(SaveDocument(frames)) == |frames|
    ensures DecodedPrefix(SaveDocument(frames)) == frames
  {
    var doc := SaveDocument(frames);
    assert forall j :: 0 <= j < |frames| ==> DecodeFrame(doc[j]) == Ok(frames[j]);
  }

  /** A frame that lost its last byte is rejected with the length it decodes to. */
  lemma TruncatedFrameRejected(f: Frame)
    requires IsFrame(f)
    ensures DecodeFrame(Encode(f[..FrameSize - 1])) == Err(WrongLength(FrameSize - 1))
  {
    DecodeEncode(f[..FrameSize - 1]);
  }
}
