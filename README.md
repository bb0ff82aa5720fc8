# StoryVision storyboard scripts, modelled in Dafny

StoryVision turns a story into a storyboard. A text model analyses the story
into a style guide and a handful of scenes. An image service draws one picture
per scene, and a Streamlit page shows them. Three scripts do this in three ways,
and each has its own module here:

- `app_dalee.py` (module `DalleStoryboard`) builds a DALL-E prompt per scene with
  `create_scene_prompt`. It keeps the analysis and one image slot `image_{i}` per
  scene in `st.session_state` across Streamlit reruns. A slot is generated only
  when absent, and is replaced only by a "Regenerate Image" that delivers.
  `generate_image_dalle` returns `None` whenever anything raises. The session is
  the class `DalleStoryboard.Session`. Its `Rerun` method is one run of `main`.
  The slot table is a `map` from scene index to `Option<Image>`.
- `app.py` (module `LeonardoStoryboard`) composes each prompt from the style
  guide text and the frame description. It renders the scenes in order, calling
  the Leonardo service for each one.
- `app2.py` (module `LooseStoryboard`) asks for a free-form reply instead of
  JSON. It cuts the reply into scenes at each `\n\n`, scanned from the left, and reads each scene's
  description, prompt and key elements off the literal markers
  "Visual prompt:" and "Key elements:". The `prompt` variable outlives the loop
  iteration. A scene without "Key elements:" is therefore drawn with an earlier
  scene's prompt. When no earlier scene set one, the script stops on an unbound
  variable.

Shared parts:

- `Leonardo` is the submit-then-poll client, written out identically in `app.py`
  and `app2.py`. The network is an `Exchange`: the submission's HTTP code, then
  the status responses in the order the client would receive them. The client
  polls with no bound. An exchange that never shows a 200 with `COMPLETE` leaves
  the call `StillPolling`.
- `Strings` holds the Python `str` operations the scripts use: `join`, `find`,
  `split`, slicing with clipped bounds, and `strip`.
- `Storyboard` holds the analysis records.
- `Wrappers` holds `Option`, which stands for a Python value that may be `None`.

Replies from the text and image services are parameters: a record, a
`DalleReply`, an `Exchange`, or a function from scene index to one of these.

Behaviour of the code that the model keeps as it is:

- The poll loop has no attempt or time bound.
- Failures are `None` or uncaught exceptions, not typed errors.
- A regenerate during a generation is not rejected.
- A new analysis keeps the old image slots instead of resetting them.
- `app2.py` parses its reply by literal markers, not as a strict document.

## Model

| member | source | states |
|---|---|---|
| Strings.FindFirst | app2.py:95-96 | `find` returns an index where the pattern occurs, and no earlier index holds an occurrence |
| Strings.FindMissing | app2.py:95-97 | `find` returns -1 exactly when the pattern does not occur |
| Strings.JoinAt | app_dalee.py:116-117 | in `sep.join(xs)`, element k sits verbatim at its offset: the earlier elements and separators come first |
| Strings.JoinSplit | app2.py:85 | joining the pieces of `split(sep)` with `sep` gives back the original text |
| Strings.SplitPiecesFree | app2.py:85 | no piece of `split(sep)` contains `sep` |
| Strings.SplitFirst | app2.py:93 | `split(sep)[0]` is the text before the first `sep` that `find` gives, and that `sep` follows it directly; it is the whole text when `sep` is absent; it never contains `sep` |
| Strings.SplitLast | app2.py:113 | `split(sep)[-1]` is the whole text when `find` gives -1; otherwise the text ends with `sep` followed by that piece |
| Strings.SplitLastFree | app2.py:113 | `split(sep)[-1]` contains no `sep` |
| Strings.Slice | app2.py:98 | `s[i:j]` is `s[i..j]` within bounds, is clipped at the end, and is empty when `j <= i` or `i` is past the end |
| Strings.StripSpec | app2.py:93 | `strip()` keeps a contiguous middle part of the text, and everything cut before and after it is whitespace |
| Strings.StripEnds | app2.py:93 | the result of `strip()` neither starts nor ends with whitespace |
| Strings.StripIdempotent | app2.py:93 | stripping twice is the same as stripping once |
| Leonardo.FirstComplete | app2.py:52-58 | the first status response that is a 200 with `COMPLETE`, with none before it; `None` when no response is one |
| Leonardo.Generate | app2.py:38-61 | sends the given prompt with model `ac614f96-…`, 512x512, one image, prompt magic, not public; a submission other than 200 gives `None` after no polls; otherwise it polls until the first completed response and returns its first image, skipping non-200 and unfinished responses; with none, it is still polling after the whole exchange |
| Leonardo.PolledOutcomes | app2.py:48-61 | the outcome is `None` exactly when the submission is not a 200; it is still polling exactly when no response completes; otherwise it is the first completed response's image |
| Leonardo.ReturnedIsFinal | app2.py:56-60 | once a call has returned, later status responses cannot change its result |
| DalleStoryboard.ScenePromptLayout | app_dalee.py:115-119 | the prompt is the style sentence, "Scene-specific elements: ", the joined key elements, "Frame description: " and the frame description, in that order with nothing else; the frame description ends it |
| DalleStoryboard.StyleSentenceListsPalette | app_dalee.py:116 | the style sentence starts with the artistic style and mood, lists every palette colour verbatim and in order, and ends with a full stop |
| DalleStoryboard.ScenePromptListsElements | app_dalee.py:117-118 | every key element appears verbatim in the prompt, and each one ends before the next one starts |
| DalleStoryboard.ScenePromptIgnoresDescription | app_dalee.py:115-119 | the scene's description does not affect the prompt |
| DalleStoryboard.GenerateImage | app_dalee.py:100-113 | the result is `None` exactly when the call raised, and otherwise it is the delivered picture |
| DalleStoryboard.SceneStepElsewhere | app_dalee.py:162-176 | handling scene i leaves every other slot, and whether it exists, unchanged |
| DalleStoryboard.SlotsAfterAt | app_dalee.py:146-176 | after a rerun over n scenes, every scene has a slot and no other slot is added; an existing slot, even a failed one, is never regenerated; a slot changes only when a regenerate for that scene delivers; an absent slot gets the first call's result |
| DalleStoryboard.FailedRegenerateChangesNothing | app_dalee.py:172-176 | a regenerate that raised leaves every slot as if it had not been clicked |
| DalleStoryboard.RegenerateIsLocal | app_dalee.py:172-176 | a regenerate for scene i changes no slot but `image_{i}` |
| DalleStoryboard.RerunIsStable | app_dalee.py:162-164 | a further rerun without a click changes no slot, whatever the image service would answer |
| DalleStoryboard.AnalyzeRerunIsIdle | app_dalee.py:130-133 | the rerun that brings a new analysis leaves the slots exactly as a rerun without a click would, for every slot table |
| DalleStoryboard.NewAnalysisReusesSlots | app_dalee.py:130-133 | a scene index that already had a slot keeps showing that old image or failure under the new analysis |
| DalleStoryboard.Session.constructor | app_dalee.py:125-126 | the first run starts with no analysis and no slots |
| DalleStoryboard.Session.Analyze | app_dalee.py:130-133 | the analysis is replaced only on a click with non-empty text; the slots stay as they were |
| DalleStoryboard.Session.ShowScene | app_dalee.py:159-178 | the scene's slot afterwards exists and holds the result of the slot rules; the page shows that slot's content with the scene's description and key elements, and the view records the scene's prompt as the one its image calls are given |
| DalleStoryboard.Session.Rerun | app_dalee.py:125-178 | without an analysis nothing is shown and the slots are unchanged; with one, every scene is shown in order from its own slot, and the slot table is the result of the slot rules over all the scenes |
| LeonardoStoryboard.FramePromptLayout | app.py:54-55 | the prompt is the style text, then "Frame description: ", then the frame description, which ends it |
| LeonardoStoryboard.StyleTextStartsWithStyleAndMood | app.py:54 | the style text starts with the artistic style and then the mood |
| LeonardoStoryboard.FramePromptListsPalette | app.py:54-55 | every palette colour appears verbatim in the prompt, at its offset in the joined list |
| LeonardoStoryboard.FramePromptListsRecurring | app.py:54-55 | every recurring element appears verbatim in the prompt, at its offset in the joined list |
| LeonardoStoryboard.GenerateImage | app.py:47-79 | the service receives the composed prompt for this frame and style guide, and the result is the poll outcome of its exchange |
| LeonardoStoryboard.RenderScenes | app.py:113-134 | scenes are shown in order, each one with its description, frame description and key elements, the prompt its own call was sent, and that call's image or `None`; a `None` affects only that scene; the loop stops early only where a call is still polling |
| LeonardoStoryboard.PromptIgnoresKeyElements | app.py:126 | two scenes with the same frame description get the same prompt, whatever their key elements and descriptions |
| LooseStoryboard.ScenesPartitionReply | app2.py:85 | there is at least one scene; rejoining the scenes with `\n\n` gives back the reply; no scene contains `\n\n` |
| LooseStoryboard.DescriptionBeforeMarker | app2.py:93 | the description is the stripped text before the first "Visual prompt:", or the whole scene stripped when that marker is absent |
| LooseStoryboard.KeyElementsAfterLastMarker | app2.py:113 | the key elements are the stripped text after a "Key elements:" that no other one follows, or the whole scene stripped when that marker is absent |
| LooseStoryboard.PromptStart | app2.py:95-97 | `prompt_start` is at least 13, so the `!= -1` test on it always passes |
| LooseStoryboard.PromptNeedsKeysMarker | app2.py:95-98 | a scene assigns `prompt` exactly when it contains "Key elements:" |
| LooseStoryboard.PromptBetweenMarkers | app2.py:95-98 | with both markers, the first "Visual prompt:" ending before the first "Key elements:", the prompt is the stripped text between them |
| LooseStoryboard.PromptWithoutPromptMarker | app2.py:95-98 | without "Visual prompt:", the prompt is the stripped text from index 13 up to "Key elements:" |
| LooseStoryboard.PromptEmptyWhenMarkersOverlap | app2.py:95-98 | when "Key elements:" starts before the end of the prompt marker (or before index 13), the prompt is empty |
| LooseStoryboard.CarriedPromptIsLatest | app2.py:87-105 | `prompt` is unbound at a scene exactly when no scene up to it assigned one; otherwise it holds the prompt of the latest scene up to it that did |
| LooseStoryboard.UnboundOnlyAtFirstScene | app2.py:97-105 | if `prompt` is unbound at any scene, it is already unbound at the first one |
| LooseStoryboard.GenerateImage | app2.py:31-61 | the prompt is sent as it is, and the result is the poll outcome of its exchange |
| LooseStoryboard.RenderScenes | app2.py:85-113 | every rendered scene sent the carried prompt and shows its own description, its assigned prompt, its key elements and its own call's image; the loop ends after all scenes, at the first scene on an unbound `prompt`, or where a call is still polling |

## Left out

- The page layout, the CSS and the headings are not modelled. Neither are the spinners, captions, success messages or the style-guide lines. A view records the content shown for each scene, plus the prompt given to that scene's image call. `app_dalee.py` and `app.py` never show that prompt. `app2.py` shows it only for a scene that assigns `prompt` (`shownPrompt`); a scene that reuses an earlier prompt does not show it.
- The text model call (`analyze_text`), its system prompts and `json.loads` are not modelled. The analysis, or the reply text in `app2.py`, is a parameter.
- The HTTP requests, the image download and the PIL decoding are not modelled. In `app_dalee.py` every failure there is one `Raised` reply. In `app.py` and `app2.py` an exception in the download or decode, or a missing key or an empty image list in a JSON response, stops the script; the model does not cover those paths.
- A missing or malformed field of the analysis is not modelled. The scripts raise `KeyError` or `IndexError`; the model assumes the records are well formed.
- When `analyze_text` or `json.loads` raises in `app_dalee.py`, the script stops at line 133 and the old analysis and slots are kept. The model does not cover this path.
- `LeonardoStoryboard.RenderScenes` and `LooseStoryboard.RenderScenes` run only on the "Analyze and Visualize" rerun with a non-empty text box (app.py:99-100, app2.py:80-81). Nothing is kept between those reruns. The models take the analysis or reply as given and do not model the button or the text-box check.
- Reading `.env` and the API keys, and the request headers, are not modelled.
- The DALL-E request parameters (model, size, quality, n) and the `st.error` text of a failed DALL-E call are not modelled. Only whether the call raised matters.
- Python truthiness is not modelled: an empty analysis dictionary would count as no analysis, and an image is always truthy. The model uses `None` against a value.
- `Strings.Strip` removes only ASCII whitespace (0x09-0x0D, 0x1C-0x20). Python also strips non-ASCII whitespace such as U+00A0 and U+2028.
- Leonardo.Generate: polling is unbounded, so a call that never completes does not return. The model observes a finite prefix of the status responses and reports `StillPolling` when it runs out. Each `RenderScenes` stops there with `Hung`.
- LooseStoryboard.RenderScenes: a scene that stops the loop has already shown its description, and perhaps its prompt, before the image call. The returned views hold only fully rendered scenes.
- LeonardoStoryboard.RenderScenes: a scene whose image call is still polling has already shown its description and frame description. The returned views hold only fully rendered scenes.
- `Strings.Split` models `split` only for a non-empty separator. Python raises on an empty one, and the scripts never pass one.
