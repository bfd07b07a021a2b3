/**
 * The requests the bot sends to its three upstream services, with the fixed
 * parameters of roast_bot.py. The services themselves are not modelled: the
 * orchestration takes each as a function from its request to an outcome.
 */
module Services {

  /** Chat completion, as `get_roast_response` calls it. */
  datatype ChatRequest = ChatRequest(
    model: string, systemPrompt: string, userPrompt: string, temperature: real, maxTokens: nat)

  const ChatModel: string := "llama3-70b-8192"
  const Persona: string := "you are a romantic chatbot you dont miss a chance to flirt. Add 'GIF:' at the end with a reaction."

  function RoastChatRequest(prompt: string): (r: ChatRequest)
    ensures r.userPrompt == prompt && r.systemPrompt == Persona
    ensures r.temperature == 1.0 && r.maxTokens == 250
  {
    ChatRequest(ChatModel, Persona, prompt, 1.0, 250)
  }

  /** The Giphy search of `fetch_gif`: ten results at most, rating up to "r". */
  datatype GifSearch = GifSearch(query: string, limit: nat, rating: string)

  function GifSearchFor(prompt: string): (r: GifSearch)
    ensures r.query == prompt && r.limit == 10 && r.rating == "r"
  {
    GifSearch(prompt, 10, "r")
  }

  /** The ElevenLabs conversion of `text_to_speech`. */
  datatype SpeechRequest = SpeechRequest(
    voiceId: string, text: string, modelId: string, outputFormat: string,
    stability: real, similarityBoost: real, style: real, useSpeakerBoost: bool)

  function SpeechRequestFor(text: string): (r: SpeechRequest)
    ensures r.text == text && r.voiceId == "pNInz6obpgDQGcFmaJgB"
  {
    SpeechRequest("pNInz6obpgDQGcFmaJgB", text, "eleven_turbo_v2_5", "mp3_22050_32", 0.0, 1.0, 0.0, true)
  }
}
