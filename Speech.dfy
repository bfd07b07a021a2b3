/**
 * `text_to_speech`: stream the synthesized audio into a temporary file,
 * read it back, and return it Base64-encoded, or None if any step raises.
 */
module Speech {
  import opened Wrappers
  import opened Base64
  import opened Services

  /** What the ElevenLabs conversion yields: an error raised by the call, or
      the chunks the returned iterator produces; `interrupted` is set when
      the iterator raises after those chunks. */
  datatype SpeechReply = ConvertFailed(error: string) | Streamed(chunks: seq<seq<byte>>, interrupted: bool)

  /** The one file-system step that raises, if any. A write fault names the
      index of the chunk whose write raises. */
  datatype FsFault = NoFault | CreateFails | WriteFails(chunk: nat) | ReadFails | RemoveFails

  /** The audio payload, and whether the temporary file is left on disk. */
  datatype SpeechOutcome = SpeechOutcome(audio: Option<string>, leftover: bool)

  /** The bytes of all chunks, in order. */
  function Flatten(chunks: seq<seq<byte>>): seq<byte> {
    if chunks == [] then [] else Flatten(chunks[..|chunks| - 1]) + chunks[|chunks| - 1]
  }

  /** The chunks that `if chunk:` lets through, in order. */
  function NonEmpty(chunks: seq<seq<byte>>): (r: seq<seq<byte>>)
    ensures forall k :: 0 <= k < |r| ==> r[k] != []
  {
    if chunks == [] then []
    else if chunks[|chunks| - 1] == [] then NonEmpty(chunks[..|chunks| - 1])
    else NonEmpty(chunks[..|chunks| - 1]) + [chunks[|chunks| - 1]]
  }

  /** Skipping empty chunks does not change the bytes written. */
  lemma {:induction false} FlattenNonEmpty(chunks: seq<seq<byte>>)
    ensures Flatten(NonEmpty(chunks)) == Flatten(chunks)
  {
    if chunks != [] {
      var init, last := chunks[..|chunks| - 1], chunks[|chunks| - 1];
      FlattenNonEmpty(init);
      if last != [] {
        var ne := NonEmpty(init) + [last];
        assert ne[..|ne| - 1] == NonEmpty(init);
      }
    }
  }

  /** The write of a non-empty chunk raises. */
  predicate WriteFaultHits(chunks: seq<seq<byte>>, fault: FsFault) {
    fault.WriteFails? && fault.chunk < |chunks| && chunks[fault.chunk] != []
  }

  /** What `text_to_speech` returns for a service reply and a fault. */
  function Synthesis(reply: SpeechReply, fault: FsFault): (o: SpeechOutcome)
    ensures o.audio.Some? <==>
      reply.Streamed? && !reply.interrupted && (fault.NoFault? || (fault.WriteFails? && !WriteFaultHits(reply.chunks, fault)))
    ensures o.audio.Some? ==> Decode(o.audio.value) == Some(Flatten(reply.chunks))
    ensures o.audio.Some? ==> |o.audio.value| == 4 * ((|Flatten(reply.chunks)| + 2) / 3)
    ensures o.audio.Some? ==> forall k :: 0 <= k < |o.audio.value| ==> IsAlphabetChar(o.audio.value[k]) || o.audio.value[k] == Pad
    ensures o.leftover <==> reply.Streamed? && !fault.CreateFails? && o.audio.None?
  {
    match reply
    case ConvertFailed(_) => SpeechOutcome(None, false)
    case Streamed(chunks, interrupted) =>
      if fault.CreateFails? then SpeechOutcome(None, false)
      else if WriteFaultHits(chunks, fault) || interrupted || fault.ReadFails? || fault.RemoveFails? then
        SpeechOutcome(None, true)
      else
        DecodeEncode(Flatten(chunks));
        EncodeAlphabet(Flatten(chunks));
        SpeechOutcome(Some(Encode(Flatten(chunks))), false)
  }

  /** The temporary mp3 file, as an in-memory byte buffer. */
  class TempFile {
    var contents: seq<byte>

    constructor ()
      ensures contents == []
    {
      contents := [];
    }

    method Write(chunk: seq<byte>)
      modifies this
      ensures contents == old(contents) + chunk
    {
      contents := contents + chunk;
    }

    method Read() returns (data: seq<byte>)
      ensures data == contents
    {
      data := contents;
    }
  }

  /** The `with open(file, "wb")` block: every non-empty chunk is written in
      arrival order until a write raises. */
  method WriteChunks(file: TempFile, chunks: seq<seq<byte>>, fault: FsFault) returns (failed: bool)
    requires file.contents == []
    modifies file
    ensures failed <==> WriteFaultHits(chunks, fault)
    ensures !failed ==> file.contents == Flatten(chunks)
  {
    var i := 0;
    while i < |chunks|
      invariant 0 <= i <= |chunks|
      invariant file.contents == Flatten(NonEmpty(chunks[..i]))
      invariant !(fault.WriteFails? && fault.chunk < i && chunks[fault.chunk] != [])
    {
      if chunks[i] != [] {
        if fault == WriteFails(i) {
          return true;
        }
        file.Write(chunks[i]);
      }
      assert chunks[..i + 1][..i] == chunks[..i];
      i := i + 1;
    }
    assert chunks[..i] == chunks;
    FlattenNonEmpty(chunks);
    return false;
  }

  method TextToSpeech(text: string, tts: SpeechRequest -> SpeechReply, fault: FsFault)
    returns (audio: Option<string>, leftover: bool)
    ensures SpeechOutcome(audio, leftover) == Synthesis(tts(SpeechRequestFor(text)), fault)
  {
    var reply := tts(SpeechRequestFor(text));
    if reply.ConvertFailed? || fault.CreateFails? {
      return None, false;
    }
    var file := new TempFile();
    var failed := WriteChunks(file, reply.chunks, fault);
    if failed || reply.interrupted || fault.ReadFails? {
      return None, true;
    }
    var data := file.Read();
    var encoded := Encode(data);
    if fault.RemoveFails? {
      return None, true;
    }
    return Some(encoded), false;
  }
}
