/**
 * app.py: the storyboard page backed by Leonardo, with a JSON analysis.
 *
 * Each scene's prompt is the style guide's text plus the scene's frame
 * description; the scenes are rendered one after another, and a scene whose
 * image call returns `None` shows an error without affecting the others.
 */
module LeonardoStoryboard {
  import opened Wrappers
  import opened Strings
  import opened Storyboard
  import Leonardo

  /** The text before the palette's first colour. */
  function PaletteStart(style: StyleGuide): string
  {
    "Style: " + style.artisticStyle + ". Mood: " + style.mood + ". Color palette: "
  }

  /** The text before the first recurring element. */
  function RecurringStart(style: StyleGuide): string
  {
    PaletteStart(style) + Join(", ", style.colorPalette) + ". Recurring elements: "
  }

  /** `style_guide_text` of line 54. */
  function StyleText(style: StyleGuide): string
  {
    RecurringStart(style) + Join(", ", style.recurringElements) + "."
  }

  /** `full_prompt` of line 55: the style text, the frame label, then the frame description. */
  function FramePrompt(style: StyleGuide, frameDescription: string): string
  {
    StyleText(style) + FrameLabel + frameDescription
  }

  /**
   * The prompt is the style text, then the frame label, then the frame
   * description verbatim, which ends the prompt.
   */
  lemma FramePromptLayout(style: StyleGuide, frameDescription: string)
    ensures var p := FramePrompt(style, frameDescription);
      var h := |StyleText(style)|;
      && |p| == h + |FrameLabel| + |frameDescription|
      && p[..h] == StyleText(style)
      && p[h..h + |FrameLabel|] == FrameLabel
      && p[h + |FrameLabel|..] == frameDescription
  {
    Parts3(StyleText(style), FrameLabel, frameDescription);
  }

  /** The style text starts with the artistic style and the mood. */
  lemma StyleTextStartsWithStyleAndMood(style: StyleGuide)
    ensures "Style: " + style.artisticStyle + ". Mood: " + style.mood <= StyleText(style)
  {
    var start := "Style: " + style.artisticStyle + ". Mood: " + style.mood;
    Parts3(start, ". Color palette: ", Join(", ", style.colorPalette));
    Parts3(RecurringStart(style), Join(", ", style.recurringElements), ".");
  }

  /** Palette colour `k` appears verbatim; the colours keep their order. */
  lemma FramePromptListsPalette(style: StyleGuide, frameDescription: string, k: nat)
    requires k < |style.colorPalette|
    ensures var p := FramePrompt(style, frameDescription);
      var at := |PaletteStart(style)| + Offset(", ", style.colorPalette, k);
      && at + |style.colorPalette[k]| <= |p|
      && p[at..at + |style.colorPalette[k]|] == style.colorPalette[k]
  {
    var at := |PaletteStart(style)| + Offset(", ", style.colorPalette, k);
    var n := |style.colorPalette[k]|;
    var recurring, text := RecurringStart(style), StyleText(style);
    RecurringStartListsPalette(style, k);
    assert text == recurring + Join(", ", style.recurringElements) + ".";
    Parts3(recurring, Join(", ", style.recurringElements), ".");
    SliceOfPrefix(recurring, text, at, at + n);
    Parts3(text, FrameLabel, frameDescription);
    SliceOfPrefix(text, FramePrompt(style, frameDescription), at, at + n);
  }

  lemma RecurringStartListsPalette(style: StyleGuide, k: nat)
    requires k < |style.colorPalette|
    ensures var r := RecurringStart(style);
      var at := |PaletteStart(style)| + Offset(", ", style.colorPalette, k);
      && at + |style.colorPalette[k]| <= |r|
      && r[at..at + |style.colorPalette[k]|] == style.colorPalette[k]
  {
    JoinedWithin(PaletteStart(style), ", ", style.colorPalette, ". Recurring elements: ", k);
  }

  /** Recurring element `k` appears verbatim; the elements keep their order. */
  lemma FramePromptListsRecurring(style: StyleGuide, frameDescription: string, k: nat)
    requires k < |style.recurringElements|
    ensures var p := FramePrompt(style, frameDescription);
      var at := |RecurringStart(style)| + Offset(", ", style.recurringElements, k);
      && at + |style.recurringElements[k]| <= |p|
      && p[at..at + |style.recurringElements[k]|] == style.recurringElements[k]
  {
    var at := |RecurringStart(style)| + Offset(", ", style.recurringElements, k);
    var n := |style.recurringElements[k]|;
    var text := StyleText(style);
    JoinedWithin(RecurringStart(style), ", ", style.recurringElements, ".", k);
    assert text == RecurringStart(style) + Join(", ", style.recurringElements) + ".";
    Parts3(text, FrameLabel, frameDescription);
    SliceOfPrefix(text, FramePrompt(style, frameDescription), at, at + n);
  }

  /**
   * Lines 47-79: `generate_image_leonardo(frame_description, style_guide)`
   * composes the prompt and submits it.
   */
  method GenerateImage(frameDescription: string, style: StyleGuide, ex: Leonardo.Exchange)
    returns (sent: Leonardo.Payload, out: Leonardo.Outcome)
    ensures sent == Leonardo.RequestPayload(FramePrompt(style, frameDescription))
    ensures out == Leonardo.Polled(ex)
  {
    var prompt := FramePrompt(style, frameDescription);
    var polled;
    sent, polled, out := Leonardo.Generate(prompt, ex);
  }

  /**
   * One scene of the page: what it shows (the description, the frame
   * description, the image, `None` being the "Failed to generate image" error,
   * and the key elements) and `sentPrompt`, the prompt handed to the image
   * call, which is not shown.
   */
  datatype SceneView = SceneView(
    description: string,
    frameDescription: string,
    sentPrompt: string,
    image: Option<Image>,
    keyElements: string)

  /**
   * How the scene loop ends on the given exchanges: every scene rendered, or
   * stuck polling for the scene after the last one rendered.
   */
  datatype Run = Finished(views: seq<SceneView>) | Hung(views: seq<SceneView>)

  /** The view of scene `scene` when its image call returned `image`. */
  function ViewOf(style: StyleGuide, scene: Scene, image: Option<Image>): SceneView
  {
    SceneView(scene.description, scene.frameDescription,
              FramePrompt(style, scene.frameDescription), image, Join(", ", scene.keyElements))
  }

  /**
   * Lines 113-134: the scenes in `enumerate` order, `respond(i)` being the
   * service's side of scene `i`'s image call. Each scene's image is exactly
   * what its own call returned, so a `None` marks that scene alone as failed.
   * The loop stops only where an image call never returns.
   */
  method RenderScenes(analysis: Analysis, respond: nat -> Leonardo.Exchange) returns (run: Run)
    ensures |run.views| <= |analysis.scenes|
    ensures run.Finished? <==> |run.views| == |analysis.scenes|
    ensures run.Hung? ==> Leonardo.Polled(respond(|run.views|)) == Leonardo.StillPolling
    ensures forall j :: 0 <= j < |run.views| ==>
      && Leonardo.Polled(respond(j)).Returned?
      && run.views[j] == ViewOf(analysis.styleGuide, analysis.scenes[j], Leonardo.Polled(respond(j)).image)
  {
    var style := analysis.styleGuide;
    var views: seq<SceneView> := [];
    for i := 0 to |analysis.scenes|
      invariant |views| == i
      invariant forall j :: 0 <= j < i ==>
        && Leonardo.Polled(respond(j)).Returned?
        && views[j] == ViewOf(style, analysis.scenes[j], Leonardo.Polled(respond(j)).image)
    {
      var scene := analysis.scenes[i];
      var sent, out := GenerateImage(scene.frameDescription, style, respond(i));
      if out == Leonardo.StillPolling {
        return Hung(views);
      }
      var view := SceneView(scene.description, scene.frameDescription, sent.prompt,
                            out.image, Join(", ", scene.keyElements));
      views := views + [view];
    }
    run := Finished(views);
  }

  /**
   * Key elements are only displayed: two scenes with the same frame description
   * get the same prompt whatever their key elements and descriptions.
   */
  lemma PromptIgnoresKeyElements(style: StyleGuide, a: Scene, b: Scene)
    requires a.frameDescription == b.frameDescription
    ensures ViewOf(style, a, None).sentPrompt == ViewOf(style, b, None).sentPrompt
  {
  }
}
