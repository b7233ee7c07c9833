# Interview debrief bot — verified model of its decision and string logic

The program is a one-page Streamlit app (`interview_bot.py`). A user records or
uploads an audio clip of an interview debrief and presses "Process Experience".
The app then checks for a Gemini API key and lists the models the key can use.
It picks `models/gemini-1.5-flash` or `models/gemini-1.5-pro` and sends the clip
with a fixed extraction prompt. It strips Markdown code fences from the reply
and parses what is left as JSON.

This project models the parts of that flow that are decisions or string
handling, and proves what they guarantee:

- `Strings` models Python's `str.replace` (a left-to-right scan that replaces
  non-overlapping occurrences) and `str.strip()` (trimming of whitespace as
  Python's `str.isspace` defines it).
- `FenceCleaning` models the reply cleaning on line 76:
  `replace("```json", "")`, then `replace("```", "")`, then `strip()`. It
  proves that no "```" is left and that the result has no whitespace at
  either end. It proves that cleaning is idempotent and that clean text
  passes through unchanged. It proves that a fenced block
  "```json" + body + "```" cleans to the stripped body when the body holds
  no "```". It also proves that
  the order of the two replacements matters: the other order leaves a stray
  "json".
- `ModelSelection` models the default-then-if/elif choice of model as a
  method, proved equal to a reference rule: the first listed name from the
  preference list, else the default. It also proves that only which names
  are listed matters, not their order.
- `InputGuard` models the choice of the active clip, where the Upload tab
  overwrites the Record tab. It also models the guard in front of the
  service, where an empty key gives the missing-key error.
- `Pipeline` puts these together in one run. The service is given as
  inputs: the result of listing the models, and the reply for each model
  name. The run returns the outcome and the list of service calls it made.
  This shows that with an empty key no call is made at all.

An uploaded file always replaces a recording, whatever the user touched
last, because the Upload tab (interview_bot.py:25-28) is read after the
Record tab (interview_bot.py:21-24). `InputGuard.ActiveAudio` follows this
order.

## Model

| member | source | states |
|---|---|---|
| `Strings.Replace` | interview_bot.py:76 | `str.replace` as a left-to-right scan; it has no contract of its own and is specified by `Strings.ReplaceLeading`, `Strings.ReplaceAbsent`, `FenceCleaning.NoFenceAfterRemoval`, `FenceCleaning.TickRunShrinks` and `FenceCleaning.RemoveClosingFence` |
| `Strings.ReplaceLeading` | interview_bot.py:76 | the scan's second case unfolded once: a pattern at the start of the text is replaced and the scan resumes after it, so replacements never overlap |
| `Strings.ReplaceAbsent` | interview_bot.py:76 | `str.replace` with a pattern that does not occur returns the text unchanged |
| `Strings.IsSpace` | interview_bot.py:76 | the whitespace set of Python's `str.isspace`, which `strip()` trims; a predicate with no contract, used by `Strings.TrimLeft`, `Strings.TrimRight` and `Strings.Strip` |
| `Strings.TrimLeft` | interview_bot.py:76 | drops exactly the longest all-whitespace prefix: the result is a suffix, what was dropped is all whitespace, and the result does not start with whitespace |
| `Strings.TrimRight` | interview_bot.py:76 | drops exactly the longest all-whitespace suffix: the result is a prefix, what was dropped is all whitespace, and the result does not end with whitespace |
| `Strings.Strip` | interview_bot.py:76 | `strip()` returns a slice of its input with only whitespace outside it, and the slice neither begins nor ends with whitespace |
| `Strings.StripTrimmed` | interview_bot.py:76 | text with no whitespace at either end is its own strip |
| `Strings.StripKeepsAbsence` | interview_bot.py:76 | stripping never creates an occurrence of a string |
| `Strings.StripKeepsLeadingWord` | interview_bot.py:76 | a leading word with no whitespace at its ends survives stripping at the front |
| `FenceCleaning.Clean` | interview_bot.py:76 | for any reply, the cleaned text contains no "```" and neither begins nor ends with whitespace |
| `FenceCleaning.NoFenceAfterRemoval` | interview_bot.py:76 | removing "```" leftmost-first never joins leftover backticks into a new "```", so none remains |
| `FenceCleaning.TickRunShrinks` | interview_bot.py:76 | a run of n backticks is left with n mod 3 of them ("````" gives "`", "``````" gives "") |
| `FenceCleaning.CleanFixedPoint` | interview_bot.py:76 | text with no "```" and no whitespace at either end passes through cleaning unchanged |
| `FenceCleaning.CleanIdempotent` | interview_bot.py:76 | cleaning the cleaned text returns it unchanged |
| `FenceCleaning.RemoveClosingFence` | interview_bot.py:76 | removing "```" from a fence-free body followed by a closing "```" gives back the body, even when the body ends in backticks |
| `FenceCleaning.CleanUnwrapsFencedBlock` | interview_bot.py:76 | a reply "```json" + body + "```" with a fence-free body cleans to the stripped body |
| `FenceCleaning.SwappedOrderKeepsJsonTag` | interview_bot.py:76 | with the two replacements in the other order, the same reply would clean to the strip of "json" + body, which starts with "json" |
| `FenceCleaning.OrderMatters` | interview_bot.py:76 | for a body without "```" or "json", the real order leaves no "json" while the other order leaves text starting with "json" |
| `ModelSelection.FirstAvailable` | interview_bot.py:41-49 | the reference rule: the first preferred name that is listed, with no earlier preferred name listed; the fallback when none is listed |
| `ModelSelection.FirstAvailableOnlyMembership` | interview_bot.py:43-49 | the choice depends only on which names are listed, not on their order or repetitions |
| `ModelSelection.SelectModel` | interview_bot.py:41-49 | equals the reference rule over [flash, pro] with default flash; flash whenever listed; pro exactly when flash is absent and pro is listed; always one of the two |
| `InputGuard.LastPresent` | interview_bot.py:19-28 | the reference rule for the widgets: none exactly when no widget holds a clip, otherwise the clip of the last widget that holds one |
| `InputGuard.ActiveAudio` | interview_bot.py:19-28 | equals the last present of [recording, upload]: the upload when there is one, else the recording, else none |
| `InputGuard.Guard` | interview_bot.py:31-33 | the missing-key error exactly when a clip is active, the button is pressed and the key is empty; going on to the service exactly when the key is non-empty |
| `Pipeline.Process` | interview_bot.py:31-77 | an empty key makes no service call; with a key, the models are listed, then one model chosen by the reference rule is asked; service errors surface as the failure; the text handed to the JSON parser has no "```", no surrounding whitespace, and comes from flash or pro |

## Left out

- The Streamlit page, tabs, widgets, spinner, JSON viewer and download button (interview_bot.py:6, 14-28, 79-85): user interface. The widgets' values enter as inputs: two optional clips and whether the button was pressed.
- The key lookup in the secrets store or the sidebar (interview_bot.py:9-12): environment input. Only its result, a possibly empty string, enters the model.
- `genai.configure`, `list_models`, `GenerativeModel` and `generate_content` (interview_bot.py:37, 43, 52, 70-73): a network client and a foreign SDK. They enter `Pipeline.Process` as their results (a listed-name sequence or an error, and a reply or an error per model name). A failure in `genai.configure` is not modelled separately.
- The prompt text, reading the audio bytes and the fixed `audio/mp3` MIME type (interview_bot.py:55-72): opaque payload. Clips are of an arbitrary type parameter.
- `json.loads` and the pandas CSV export (interview_bot.py:77, 83-84): library behaviour that is not part of this model. The model stops at the text handed to the JSON parser, so a malformed reply is not distinguished from a well-formed one.
- The catch-all exception display (interview_bot.py:87-89): the model carries the exception's message in `Failed`. It does not model the fixed hint text.
- Strings.IsSpace: follows the whitespace set of Python 3's `str.isspace` (0x09-0x0D, 0x1C-0x20, U+0085, U+00A0, U+1680, U+2000-U+200A, U+2028, U+2029, U+202F, U+205F, U+3000). It assumes no Unicode database update changes that set.
- Strings.Replace: models `str.replace` without its optional count argument, which the program never passes.
