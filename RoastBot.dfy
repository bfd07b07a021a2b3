/**
 * The `/reply` and `/roast` endpoints (`roast`, `roast_alias`) and the
 * missing-file guard of `/transcribe`.
 */
module RoastBot {
  import opened Wrappers
  import opened PyStr
  import opened Services
  import opened ReplyParser
  import opened MediaFetcher
  import opened Speech
  import Base64

  /** The framing of the user's text in the prompt sent to the model. */
  const PromptHead: string := "surprise me:\n"
  const PromptTail: string := "\nDon't hold back. End with GIF: description."

  /** The request's JSON, as far as `roast` reads it. NotJsonObject stands for
      a body that `request.json` rejects or that has no `.get` (not an
      object); `error` is the message of the exception raised. */
  datatype RequestBody = JsonObject(fields: map<string, string>) | NotJsonObject(error: string)

  datatype ResponseBody =
    | RoastBody(roast: string, gif: string, audio: Option<string>)
    | ErrorBody(error: string)
    | TranscriptionBody(transcription: string)

  datatype HttpResponse = HttpResponse(status: int, body: ResponseBody)

  /** `data.get("text", "")`. */
  function UserInput(fields: map<string, string>): (u: string)
    ensures "text" in fields ==> u == fields["text"]
    ensures "text" !in fields ==> u == ""
  {
    if "text" in fields then fields["text"] else ""
  }

  /** The f-string of line 80: the user's text between a fixed head and tail. */
  function FramePrompt(userInput: string): (p: string)
    ensures |p| == |PromptHead| + |userInput| + |PromptTail|
    ensures p[..|PromptHead|] == PromptHead
    ensures p[|PromptHead|..|PromptHead| + |userInput|] == userInput
    ensures p[|p| - |PromptTail|..] == PromptTail
  {
    PromptHead + userInput + PromptTail
  }

  /** Different user texts give different prompts. */
  lemma FramePromptInjective(u: string, v: string)
    requires FramePrompt(u) == FramePrompt(v)
    ensures u == v
  {
    var p := FramePrompt(u);
    assert u == p[|PromptHead|..|PromptHead| + |u|];
  }

  /** Everything up to and including the model call (lines 77-81): the raw
      model output, or the message of the exception that aborts the request. */
  function Generate(body: RequestBody, llm: ChatRequest -> Result<string>): (g: Result<string>)
    ensures body.NotJsonObject? ==> g == Failure(body.error)
    ensures body.JsonObject? ==> g == llm(RoastChatRequest(FramePrompt(UserInput(body.fields))))
  {
    match body
    case NotJsonObject(e) => Failure(e)
    case JsonObject(fields) => llm(RoastChatRequest(FramePrompt(UserInput(fields))))
  }

  /** The response of `roast`: status 500 with the error message when the
      request cannot reach or get past the model; otherwise the parsed reply,
      the GIF for the parsed search phrase, and the audio of the parsed reply. */
  ghost predicate IsRoastResponse(
    resp: HttpResponse, body: RequestBody, llm: ChatRequest -> Result<string>,
    search: GifSearch -> SearchReply, pick: nat, tts: SpeechRequest -> SpeechReply, fault: FsFault)
  {
    match Generate(body, llm)
    case Failure(e) => resp == HttpResponse(500, ErrorBody(e))
    case Success(raw) =>
      var parsed := SplitRoastAndGif(raw);
      resp == HttpResponse(200, RoastBody(
        parsed.reply,
        FetchGif(parsed.gifPrompt, search, pick),
        Synthesis(tts(SpeechRequestFor(parsed.reply)), fault).audio))
  }

  /** `roast`: the upstream services and the random pick are parameters. Only
      a failure before or in the model call gives status 500; the GIF and the
      audio steps always yield a value. */
  method Roast(
    body: RequestBody, llm: ChatRequest -> Result<string>,
    search: GifSearch -> SearchReply, pick: nat, tts: SpeechRequest -> SpeechReply, fault: FsFault)
    returns (resp: HttpResponse)
    ensures IsRoastResponse(resp, body, llm, search, pick, tts, fault)
    ensures resp.status == 500 <==> Generate(body, llm).Failure?
    ensures resp.status == 500 ==> resp.body == ErrorBody(Generate(body, llm).error)
    ensures resp.status != 500 ==> resp.status == 200 && resp.body.RoastBody?
  {
    match Generate(body, llm)
    case Failure(e) =>
      resp := HttpResponse(500, ErrorBody(e));
    case Success(raw) =>
      var parsed := SplitRoastAndGif(raw);
      var gif := FetchGif(parsed.gifPrompt, search, pick);
      var audio, _ := TextToSpeech(parsed.reply, tts, fault);
      resp := HttpResponse(200, RoastBody(parsed.reply, gif, audio));
  }

  /** `/roast` is the same handler as `/reply`. */
  method RoastAlias(
    body: RequestBody, llm: ChatRequest -> Result<string>,
    search: GifSearch -> SearchReply, pick: nat, tts: SpeechRequest -> SpeechReply, fault: FsFault)
    returns (resp: HttpResponse)
    ensures IsRoastResponse(resp, body, llm, search, pick, tts, fault)
  {
    resp := Roast(body, llm, search, pick, tts, fault);
  }

  /** A successful response carries the model's reply without the marker. */
  lemma RoastReplyHasNoMarker(
    resp: HttpResponse, body: RequestBody, llm: ChatRequest -> Result<string>,
    search: GifSearch -> SearchReply, pick: nat, tts: SpeechRequest -> SpeechReply, fault: FsFault)
    requires IsRoastResponse(resp, body, llm, search, pick, tts, fault) && resp.body.RoastBody?
    ensures !Contains(resp.body.roast, Marker)
  {
    ReplyHasNoMarker(Generate(body, llm).value);
  }

  /** The guard of `/transcribe`: without an "audio" upload the answer is 400;
      otherwise it is the transcription of the upload. */
  function Transcribe(files: map<string, seq<Base64.byte>>, whisper: seq<Base64.byte> -> string): (resp: HttpResponse)
    ensures "audio" !in files <==> resp.status == 400
    ensures "audio" !in files ==> resp.body == ErrorBody("No audio file")
    ensures "audio" in files ==> resp == HttpResponse(200, TranscriptionBody(whisper(files["audio"])))
  {
    if "audio" !in files then HttpResponse(400, ErrorBody("No audio file"))
    else HttpResponse(200, TranscriptionBody(whisper(files["audio"])))
  }
}
