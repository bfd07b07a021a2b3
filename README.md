# Sarcastic bot: a Dafny model of the roast pipeline

The bot behind `roast_bot.py` takes a short text from the user. It frames the text in a fixed prompt and asks a hosted language model for a flirtatious, sarcastic reply. The model is told to end that reply with `GIF:` and a short reaction phrase. The bot cuts the model's output at the first `GIF:`. It searches Giphy for the phrase and picks a random result, with a fixed fallback GIF. It sends the reply to a text-to-speech service and returns the audio Base64-encoded, or nothing if synthesis fails. The reply, the GIF URL and the audio go back to the caller in one JSON answer. If anything fails before or during the language-model call, the answer is status 500 with the error message.

The project models that pipeline:

- `PyStr.dfy`: the Python string operations the parser relies on. These are `str.isspace`, `strip()`, the `in` operator and `split(sep, 1)`.
- `ReplyParser.dfy`: `split_roast_and_gif`.
- `Base64.dfy`: the encoding of section 4 of RFC 4648, which `base64.b64encode` produces. It has an encoder and a decoder, and proves that the two are inverse bijections.
- `Services.dfy`: the requests sent to the three upstream services, with the fixed parameters from the source.
- `MediaFetcher.dfy`: `fetch_gif`.
- `Speech.dfy`: `text_to_speech`. This is an imperative method. Its loop writes the non-empty chunks into a temporary-file object, which stands in for the disk file. The method then reads the bytes back and encodes them.
- `RoastBot.dfy`: the `roast` and `roast_alias` handlers, the prompt framing, and the missing-upload guard of `/transcribe`.
- `Wrappers.dfy`: `Option` and `Result`.

External services are parameters: the chat model (`ChatRequest -> Result<string>`), the Giphy search (`GifSearch -> SearchReply`), the text-to-speech conversion (`SpeechRequest -> SpeechReply`) and the Whisper transcription. The index that `random.choice` would draw is a parameter `pick`, and the result is the item at `pick % |items|`. The exception a file-system step may raise is a parameter `fault`.

Where the intended behaviour of the system and the code differ, the model follows the code:

- When `GIF:` is absent, the reply is the model output as it is, without trimming (line 71).
- An empty Giphy result list gives `""`, not the fallback URL (line 62). The GIF field can therefore be empty.
- The temporary audio file is removed only on the success path (line 50). Any exception after the file is created leaves it on disk. `Speech.TextToSpeech` reports this as its `leftover` result.

## Model

| member | source | states |
|---|---|---|
| `PyStr.SkipSpaces` | Sarcastic_bot/Sarcastic_bot/roast_bot.py:70 | The forward scan of `strip()` stops at the first non-space character at or after its start, or at the end. Every character it passes is whitespace. |
| `PyStr.SkipSpacesBack` | Sarcastic_bot/Sarcastic_bot/roast_bot.py:70 | The backward scan stops just past the last non-space character before its start, and never moves below its lower bound. Every character it passes is whitespace. |
| `PyStr.Strip` | Sarcastic_bot/Sarcastic_bot/roast_bot.py:70 | The result is the slice of the input that starts after its leading whitespace and ends before its trailing whitespace, using Python's `isspace` set. It is empty, or it starts and ends with a non-space character. |
| `PyStr.StripUnique` | Sarcastic_bot/Sarcastic_bot/roast_bot.py:70 | Take any text made of whitespace, then a core with non-space ends, then whitespace. Stripping it gives exactly that core. |
| `PyStr.StripIdempotent` | Sarcastic_bot/Sarcastic_bot/roast_bot.py:70 | Stripping twice gives the same result as stripping once. |
| `PyStr.StripKeepsOccurrences` | Sarcastic_bot/Sarcastic_bot/roast_bot.py:70 | Let a pattern contain no whitespace. It occurs in a text at `k` exactly when it occurs in the stripped text at `k` minus the leading-space count. |
| `PyStr.FindFrom` | Sarcastic_bot/Sarcastic_bot/roast_bot.py:68-69 | The result is the first index at or after `from` where the pattern occurs. None means no occurrence at or after `from`. |
| `PyStr.Find` | Sarcastic_bot/Sarcastic_bot/roast_bot.py:68-69 | The result is the first occurrence of the pattern. None holds exactly when the text does not contain it. |
| `PyStr.In` | Sarcastic_bot/Sarcastic_bot/roast_bot.py:68 | Python's `m in s` holds exactly when `m` occurs somewhere in `s`. |
| `PyStr.SplitOnce` | Sarcastic_bot/Sarcastic_bot/roast_bot.py:69 | None holds exactly when the separator is absent. Otherwise the text is `before + sep + after`, and `before` contains no separator. |
| `ReplyParser.SplitRoastAndGif` | Sarcastic_bot/Sarcastic_bot/roast_bot.py:67-71 | Without `GIF:` the result is the text unchanged plus `"surprise me"`. With it, the result is the stripped text before the first marker plus the stripped text after it. |
| `ReplyParser.SplitReconstructs` | Sarcastic_bot/Sarcastic_bot/roast_bot.py:68-70 | With the marker present, the text equals `before + "GIF:" + after`, `before` holds no marker, and the parse is `(strip(before), strip(after))`. |
| `ReplyParser.SplitAtFirstMarker` | Sarcastic_bot/Sarcastic_bot/roast_bot.py:69-70 | This is the converse. Any decomposition `before + "GIF:" + after` with no marker in `before` is the one the parser uses, so the decomposition is unique. |
| `ReplyParser.MarkerNoOverlap` | Sarcastic_bot/Sarcastic_bot/roast_bot.py:69 | Two occurrences of `GIF:` in one text are at least four characters apart. |
| `ReplyParser.ReplyHasNoMarker` | Sarcastic_bot/Sarcastic_bot/roast_bot.py:68-71 | For every input, the parsed reply contains no `GIF:`. |
| `ReplyParser.LaterMarkersStayInGifPrompt` | Sarcastic_bot/Sarcastic_bot/roast_bot.py:69-70 | Only the first marker is a split point. A `GIF:` occurs in the text at `k` exactly when `k` is the first marker, or when it occurs in the GIF phrase at `k` minus the offset of that phrase. |
| `ReplyParser.OccurrenceAfterMarker` | Sarcastic_bot/Sarcastic_bot/roast_bot.py:69-70 | Past a given position, the markers in the text are exactly the markers in the stripped rest, shifted by the stripped whitespace. |
| `Services.RoastChatRequest` | Sarcastic_bot/Sarcastic_bot/roast_bot.py:24-31 | The chat request carries the persona as system message, the framed prompt as user message, temperature 1.0 and 250 tokens at most. |
| `Services.GifSearchFor` | Sarcastic_bot/Sarcastic_bot/roast_bot.py:59-61 | The Giphy search uses the phrase as query, with limit 10 and rating "r". |
| `Services.SpeechRequestFor` | Sarcastic_bot/Sarcastic_bot/roast_bot.py:37-42 | The speech request carries the text to speak and the fixed voice id. |
| `MediaFetcher.FetchGif` | Sarcastic_bot/Sarcastic_bot/roast_bot.py:57-64 | A failed or malformed search gives the constant fallback URL. An empty result list gives `""`. Otherwise the result is the URL of one of the items, or the fallback when an item without a URL is picked. |
| `MediaFetcher.WellFormedResultsGiveMember` | Sarcastic_bot/Sarcastic_bot/roast_bot.py:62 | When every result has a URL, each pick returns one of those URLs. |
| `MediaFetcher.EveryCandidateReachable` | Sarcastic_bot/Sarcastic_bot/roast_bot.py:62 | Some pick yields each candidate URL. Some pick yields the fallback through an item without a URL. |
| `Base64.Encode` | Sarcastic_bot/Sarcastic_bot/roast_bot.py:49 | Encoding `n` bytes gives `4 * ceil(n / 3)` characters. |
| `Base64.EncodeAlphabet` | Sarcastic_bot/Sarcastic_bot/roast_bot.py:49 | Every character of an encoding is from the Base64 alphabet or is `=`. |
| `Base64.EncodePadding` | Sarcastic_bot/Sarcastic_bot/roast_bot.py:49 | `=` appears exactly in the last `(3 - n % 3) % 3` positions. |
| `Base64.DecodeEncode` | Sarcastic_bot/Sarcastic_bot/roast_bot.py:49 | Decoding an encoding gives back the original bytes. |
| `Base64.EncodeDecode` | Sarcastic_bot/Sarcastic_bot/roast_bot.py:49 | Every text that decodes is the encoding of its decoded bytes, so the encoding is a bijection onto the canonical Base64 texts. |
| `Base64.EncodeDecodeQuad` | Sarcastic_bot/Sarcastic_bot/roast_bot.py:49 | Each decodable group of four characters is the encoding of the one to three bytes it decodes to. Only the last group may be short. |
| `Speech.NonEmpty` | Sarcastic_bot/Sarcastic_bot/roast_bot.py:46 | The filter `if chunk:` keeps only non-empty chunks. |
| `Speech.FlattenNonEmpty` | Sarcastic_bot/Sarcastic_bot/roast_bot.py:45-47 | Skipping empty chunks leaves the concatenated bytes unchanged. |
| `Speech.Synthesis` | Sarcastic_bot/Sarcastic_bot/roast_bot.py:35-54 | Audio is present exactly when the conversion succeeds, the stream ends normally and no file step raises. Present audio decodes to the in-order concatenation of the chunks, has length `4 * ceil(n / 3)` and uses only the Base64 alphabet and `=`. The file is left behind exactly when a step after its creation raises. |
| `Speech.TempFile.Write` | Sarcastic_bot/Sarcastic_bot/roast_bot.py:47 | Writing a chunk appends it to the file's contents. |
| `Speech.WriteChunks` | Sarcastic_bot/Sarcastic_bot/roast_bot.py:44-47 | The write loop raises exactly when the fault hits a non-empty chunk. Otherwise the file holds the concatenation of all chunks, in arrival order. |
| `Speech.TextToSpeech` | Sarcastic_bot/Sarcastic_bot/roast_bot.py:35-54 | The method's audio and leftover results are those that `Synthesis` gives for the service reply and the fault. |
| `RoastBot.UserInput` | Sarcastic_bot/Sarcastic_bot/roast_bot.py:79 | The `text` field of the request, or `""` when it is missing. |
| `RoastBot.FramePrompt` | Sarcastic_bot/Sarcastic_bot/roast_bot.py:80 | The prompt is `"surprise me:\n"`, then the user text, then `"\nDon't hold back. End with GIF: description."`. |
| `RoastBot.FramePromptInjective` | Sarcastic_bot/Sarcastic_bot/roast_bot.py:80 | Different user texts give different prompts. |
| `RoastBot.Generate` | Sarcastic_bot/Sarcastic_bot/roast_bot.py:76-81 | A body that is not a JSON object fails with its error. Otherwise the result is the model's answer to the framed prompt. |
| `RoastBot.Roast` | Sarcastic_bot/Sarcastic_bot/roast_bot.py:75-90 | Status 500 with `{"error": message}` holds exactly when the model step fails. Otherwise the status is 200, `roast` is the parsed reply, `gif` is the fetched GIF for the parsed phrase, and `audio` is the synthesis of the parsed reply. |
| `RoastBot.RoastAlias` | Sarcastic_bot/Sarcastic_bot/roast_bot.py:92-94 | `/roast` gives the same response as `/reply`. |
| `RoastBot.RoastReplyHasNoMarker` | Sarcastic_bot/Sarcastic_bot/roast_bot.py:82-84 | A successful response's `roast` field never contains `GIF:`. |
| `RoastBot.Transcribe` | Sarcastic_bot/Sarcastic_bot/roast_bot.py:96-105 | Without an `audio` upload the answer is 400 with `"No audio file"`. Otherwise it is 200 with the transcription of the upload. |

## Left out

- Flask app setup, CORS, route registration, favicon and template serving, `jsonify` and the `print` logging are left out. They are transport and side effects.
- Reading the API keys from the environment and building the SDK clients are left out. They are read-only configuration.
- The Groq, ElevenLabs and Giphy calls and the Whisper model are not modelled. The model takes them as functions that return a value or a failure.
- The device selection for Whisper is left out.
- The uuid-based temporary file name and the real file system are left out. The file is an in-memory byte buffer, and the one step that raises is the `fault` parameter.
- `MediaFetcher.FetchGif`: `random.choice` is not modelled as a uniform draw. The pick is an arbitrary index, and `EveryCandidateReachable` shows that every candidate can be drawn.
- `RoastBot.UserInput`: JSON values of the `text` field other than strings are not modelled. The source would format them with `str()`, so a JSON `null` becomes `"None"`.
- `RoastBot.Roast` does not report the leftover temporary file. The leak is stated by `Speech.TextToSpeech` and `Speech.Synthesis`.
- `RoastBot.Transcribe`: the exceptions of the Whisper call and the temporary upload file of `/transcribe` are not modelled.
- `Base64.CharOf` describes the alphabet of Table 1 of RFC 4648 by its ranges, not by a 64-character table.
- The Base64 text is returned as a string. The source's `.decode("utf-8")` cannot fail on Base64 output, so it is left out.
- A `None` content in the model's answer makes the source raise inside the parser. The model folds this into the model step's failure.
