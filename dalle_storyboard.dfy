/**
 * app_dalee.py: the storyboard page backed by DALL-E.
 *
 * The page is a script that Streamlit reruns after every widget event. What
 * survives a rerun is `st.session_state`: the current analysis and one image
 * slot `image_{i}` per scene index. A slot is filled once, when it is absent,
 * and afterwards only a successful "Regenerate Image" for that scene replaces it.
 */
module DalleStoryboard {
  import opened Wrappers
  import opened Strings
  import opened Storyboard

  // ---------------------------------------------------------------------------
  // create_scene_prompt
  // ---------------------------------------------------------------------------

  const ElementsLabel := "\n\nScene-specific elements: "

  /** The text before the palette's first colour. */
  function PaletteStart(style: StyleGuide): string
  {
    "Artistic Style: " + style.artisticStyle + ". Mood: " + style.mood + ". Color palette: "
  }

  /** The style sentence: artistic style, mood and the palette joined by ", ". */
  function StyleSentence(style: StyleGuide): string
  {
    PaletteStart(style) + Join(", ", style.colorPalette) + "."
  }

  /** `create_scene_prompt(style_guide, scene)`. */
  function ScenePrompt(style: StyleGuide, scene: Scene): string
  {
    StyleSentence(style) + ElementsLabel + Join(", ", scene.keyElements)
    + FrameLabel + scene.frameDescription
  }

  /**
   * The prompt is, in this order and with nothing between: the style sentence,
   * the elements label, the key elements joined by ", ", the frame label, and
   * the frame description, which ends the prompt.
   */
  lemma ScenePromptLayout(style: StyleGuide, scene: Scene)
    ensures var p := ScenePrompt(style, scene);
      var a := |StyleSentence(style)| + |ElementsLabel|;
      var b := a + |Join(", ", scene.keyElements)|;
      && |p| == b + |FrameLabel| + |scene.frameDescription|
      && p[..|StyleSentence(style)|] == StyleSentence(style)
      && p[|StyleSentence(style)|..a] == ElementsLabel
      && p[a..b] == Join(", ", scene.keyElements)
      && p[b..b + |FrameLabel|] == FrameLabel
      && p[b + |FrameLabel|..] == scene.frameDescription
  {
    var s := StyleSentence(style);
    var j := Join(", ", scene.keyElements);
    var q := s + ElementsLabel + j;
    var p := ScenePrompt(style, scene);
    Parts3(q, FrameLabel, scene.frameDescription);
    Parts3(s, ElementsLabel, j);
    SliceOfPrefix(q, p, 0, |s|);
    SliceOfPrefix(q, p, |s|, |s| + |ElementsLabel|);
    SliceOfPrefix(q, p, |s| + |ElementsLabel|, |q|);
  }

  /**
   * The style sentence begins with the artistic style and mood, lists the
   * palette colours verbatim and in their order, and closes with a full stop.
   */
  lemma StyleSentenceListsPalette(style: StyleGuide, k: nat)
    requires k < |style.colorPalette|
    ensures var s := StyleSentence(style);
      var at := |PaletteStart(style)| + Offset(", ", style.colorPalette, k);
      && PaletteStart(style) <= s
      && at + |style.colorPalette[k]| < |s|
      && s[at..at + |style.colorPalette[k]|] == style.colorPalette[k]
      && s[|s| - 1] == '.'
  {
    JoinedWithin(PaletteStart(style), ", ", style.colorPalette, ".", k);
    Parts3(PaletteStart(style), Join(", ", style.colorPalette), ".");
  }

  /** Key element `k` appears verbatim, and the elements appear in their original order. */
  lemma ScenePromptListsElements(style: StyleGuide, scene: Scene, k: nat)
    requires k < |scene.keyElements|
    ensures var p := ScenePrompt(style, scene);
      var at := |StyleSentence(style)| + |ElementsLabel| + Offset(", ", scene.keyElements, k);
      && at + |scene.keyElements[k]| <= |p|
      && p[at..at + |scene.keyElements[k]|] == scene.keyElements[k]
      && (k + 1 < |scene.keyElements| ==>
            at + |scene.keyElements[k]| < |StyleSentence(style)| + |ElementsLabel|
                                          + Offset(", ", scene.keyElements, k + 1))
  {
    var a := StyleSentence(style) + ElementsLabel;
    var at := |a| + Offset(", ", scene.keyElements, k);
    JoinedWithin(a, ", ", scene.keyElements, FrameLabel, k);
    PrefixSlice(a + Join(", ", scene.keyElements) + FrameLabel, scene.frameDescription,
                at, at + |scene.keyElements[k]|);
  }

  /** The scene's `description` does not reach the prompt. */
  lemma ScenePromptIgnoresDescription(style: StyleGuide, scene: Scene, other: string)
    ensures ScenePrompt(style, scene.(description := other)) == ScenePrompt(style, scene)
  {
  }

  // ---------------------------------------------------------------------------
  // generate_image_dalle
  // ---------------------------------------------------------------------------

  /**
   * What the image call gives back: the picture downloaded from the returned
   * URL, or an exception raised anywhere in the request, download or decoding.
   */
  datatype DalleReply = Delivered(image: Image) | Raised(message: string)

  /** `generate_image_dalle`: the picture, or `None` when anything raised. */
  function GenerateImage(reply: DalleReply): (r: Option<Image>)
    ensures r.None? <==> reply.Raised?
    ensures r.Some? ==> r.value == reply.image
  {
    match reply
    case Delivered(image) => Some(image)
    case Raised(_) => None
  }

  // ---------------------------------------------------------------------------
  // The image slots of st.session_state
  // ---------------------------------------------------------------------------

  /**
   * The widget event behind a rerun: none, "Analyze and Visualize" with the
   * text box's contents and the reply `analyze_text` would give, or
   * "Regenerate Image" for one scene with the reply of the new image call.
   */
  datatype Event =
    | Idle
    | AnalyzeClicked(text: string, analysis: Analysis)
    | RegenerateClicked(index: nat, retry: DalleReply)

  type Slots = map<nat, Option<Image>>

  /** Lines 162-164: generate into `image_{i}` only when that key is absent. */
  function FillSlot(slots: Slots, i: nat, reply: DalleReply): Slots
  {
    if i in slots then slots else slots[i := GenerateImage(reply)]
  }

  /** Lines 172-176: a regenerated image is stored only when it is not `None`. */
  function Regenerate(slots: Slots, i: nat, retry: DalleReply): Slots
  {
    var image := GenerateImage(retry);
    if image.Some? then slots[i := image] else slots
  }

  /** The slot updates of loop iteration `i`. */
  function SceneStep(slots: Slots, i: nat, first: DalleReply, event: Event): Slots
  {
    var filled := FillSlot(slots, i, first);
    if event.RegenerateClicked? && event.index == i then Regenerate(filled, i, event.retry)
    else filled
  }

  /** Iteration `i` leaves every other slot as it was. */
  lemma SceneStepElsewhere(slots: Slots, i: nat, first: DalleReply, event: Event, j: nat)
    requires j != i
    ensures j in SceneStep(slots, i, first, event) <==> j in slots
    ensures j in slots ==> SceneStep(slots, i, first, event)[j] == slots[j]
  {
  }

  /**
   * The slots after the loop has run over scenes 0 .. n-1, where `first(i)` is
   * the reply a first generation for scene `i` would get in this rerun.
   */
  function SlotsAfter(slots: Slots, n: nat, first: nat -> DalleReply, event: Event): Slots
  {
    if n == 0 then slots
    else SceneStep(SlotsAfter(slots, n - 1, first, event), n - 1, first(n - 1), event)
  }

  /** What the slot of scene `j` holds after a rerun over `n` scenes. */
  function SlotAfter(slots: Slots, n: nat, first: nat -> DalleReply, event: Event, j: nat): Option<Image>
    requires j < n || j in slots
  {
    if j < n && event.RegenerateClicked? && event.index == j && event.retry.Delivered? then
      Some(event.retry.image)
    else if j in slots then slots[j]
    else GenerateImage(first(j))
  }

  /**
   * A rerun over `n` scenes gives every scene a slot and keeps every other slot.
   * A slot that already existed, even one holding `None` after a failure, is
   * not generated again. It changes only when a regenerate for that scene
   * delivers an image. An absent slot gets the first call's result, unless a
   * delivered regenerate overrides it.
   */
  lemma {:induction false} SlotsAfterAt(slots: Slots, n: nat, first: nat -> DalleReply, event: Event, j: nat)
    ensures j in SlotsAfter(slots, n, first, event) <==> j in slots || j < n
    ensures j in slots || j < n ==>
      SlotsAfter(slots, n, first, event)[j] == SlotAfter(slots, n, first, event, j)
  {
    if n > 0 {
      SlotsAfterAt(slots, n - 1, first, event, j);
    }
  }

  /** A regenerate that raised leaves every slot as if the button had not been clicked. */
  lemma FailedRegenerateChangesNothing(slots: Slots, n: nat, first: nat -> DalleReply, i: nat, message: string)
    ensures SlotsAfter(slots, n, first, RegenerateClicked(i, Raised(message)))
         == SlotsAfter(slots, n, first, Idle)
  {
    var failed := SlotsAfter(slots, n, first, RegenerateClicked(i, Raised(message)));
    var idle := SlotsAfter(slots, n, first, Idle);
    forall j: nat ensures (j in failed <==> j in idle) && (j in failed ==> failed[j] == idle[j]) {
      SlotsAfterAt(slots, n, first, RegenerateClicked(i, Raised(message)), j);
      SlotsAfterAt(slots, n, first, Idle, j);
    }
    assert failed.Keys == idle.Keys;
  }

  /** A regenerate for scene `i` touches no slot but `image_{i}`. */
  lemma RegenerateIsLocal(slots: Slots, n: nat, first: nat -> DalleReply, i: nat, retry: DalleReply, j: nat)
    requires j != i
    ensures var clicked := SlotsAfter(slots, n, first, RegenerateClicked(i, retry));
      var idle := SlotsAfter(slots, n, first, Idle);
      && (j in clicked <==> j in idle)
      && (j in clicked ==> clicked[j] == idle[j])
  {
    SlotsAfterAt(slots, n, first, RegenerateClicked(i, retry), j);
    SlotsAfterAt(slots, n, first, Idle, j);
  }

  /**
   * Once a rerun has run, a further rerun without a regenerate click changes no
   * slot, whatever the image service would answer: images are generated once.
   */
  lemma RerunIsStable(slots: Slots, n: nat, first: nat -> DalleReply, event: Event, later: nat -> DalleReply)
    ensures SlotsAfter(SlotsAfter(slots, n, first, event), n, later, Idle)
         == SlotsAfter(slots, n, first, event)
  {
    var once := SlotsAfter(slots, n, first, event);
    var twice := SlotsAfter(once, n, later, Idle);
    forall j: nat ensures (j in twice <==> j in once) && (j in twice ==> twice[j] == once[j]) {
      SlotsAfterAt(slots, n, first, event, j);
      SlotsAfterAt(once, n, later, Idle, j);
    }
    assert twice.Keys == once.Keys;
  }

  /** The rerun that brings a new analysis fills the slots exactly as a rerun without a click would. */
  lemma AnalyzeRerunIsIdle(slots: Slots, n: nat, first: nat -> DalleReply, text: string, analysis: Analysis)
    ensures SlotsAfter(slots, n, first, AnalyzeClicked(text, analysis)) == SlotsAfter(slots, n, first, Idle)
  {
    var analyzed := SlotsAfter(slots, n, first, AnalyzeClicked(text, analysis));
    var idle := SlotsAfter(slots, n, first, Idle);
    forall i: nat ensures (i in analyzed <==> i in idle) && (i in analyzed ==> analyzed[i] == idle[i]) {
      SlotsAfterAt(slots, n, first, AnalyzeClicked(text, analysis), i);
      SlotsAfterAt(slots, n, first, Idle, i);
    }
    assert analyzed.Keys == idle.Keys;
  }

  /**
   * A new analysis does not clear the slots: a scene index that already had a
   * slot shows that old image (or old failure) under the new analysis.
   */
  lemma NewAnalysisReusesSlots(slots: Slots, n: nat, first: nat -> DalleReply,
                               text: string, analysis: Analysis, j: nat)
    requires j in slots
    ensures j in SlotsAfter(slots, n, first, AnalyzeClicked(text, analysis))
    ensures SlotsAfter(slots, n, first, AnalyzeClicked(text, analysis))[j] == slots[j]
  {
    SlotsAfterAt(slots, n, first, AnalyzeClicked(text, analysis), j);
  }

  /**
   * One scene of the page: what it shows (the description, the key elements and
   * the slot's content, `None` being the "Failed to generate image" error) and
   * `sentPrompt`, the prompt the scene's image calls are given, which is not shown.
   */
  datatype SceneView = SceneView(
    description: string,
    keyElements: string,
    sentPrompt: string,
    shown: Option<Image>)

  /** The view of `scene` when its slot holds `shown`. */
  function ViewOf(style: StyleGuide, scene: Scene, shown: Option<Image>): SceneView
  {
    SceneView(scene.description, Join(", ", scene.keyElements), ScenePrompt(style, scene), shown)
  }

  class Session {
    var analysis: Option<Analysis>
    var slots: Slots

    /** The first run: `analysis` is set to `None` and no slot exists yet. */
    constructor ()
      ensures analysis == None && slots == map[]
    {
      analysis := None;
      slots := map[];
    }

    /** Lines 130-133: analyse only when the text box is non-empty; the slots stay. */
    method Analyze(event: Event)
      modifies this
      ensures analysis == (if event.AnalyzeClicked? && event.text != "" then Some(event.analysis) else old(analysis))
      ensures slots == old(slots)
    {
      if event.AnalyzeClicked? {
        if event.text != "" {
          analysis := Some(event.analysis);
        }
      }
    }

    /** Lines 159-178: the image column of scene `i`. */
    method ShowScene(i: nat, style: StyleGuide, scene: Scene, first: DalleReply, event: Event)
      returns (view: SceneView)
      modifies this
      ensures analysis == old(analysis)
      ensures slots == SceneStep(old(slots), i, first, event)
      ensures i in slots
      ensures view == ViewOf(style, scene, slots[i])
    {
      var prompt := ScenePrompt(style, scene);
      if i !in slots {
        slots := slots[i := GenerateImage(first)];
      }
      var shown := slots[i];
      if event.RegenerateClicked? && event.index == i {
        var image := GenerateImage(event.retry);
        if image.Some? {
          slots := slots[i := image];
          shown := image;
        }
      }
      view := SceneView(scene.description, Join(", ", scene.keyElements), prompt, shown);
    }

    /** One run of `main` after `event`. */
    method Rerun(event: Event, first: nat -> DalleReply) returns (views: seq<SceneView>)
      modifies this
      ensures analysis == (if event.AnalyzeClicked? && event.text != "" then Some(event.analysis) else old(analysis))
      ensures analysis.None? ==> slots == old(slots) && views == []
      ensures analysis.Some? ==>
        var a := analysis.value;
        && slots == SlotsAfter(old(slots), |a.scenes|, first, event)
        && |views| == |a.scenes|
        && forall j :: 0 <= j < |a.scenes| ==>
             && j in slots
             && views[j] == ViewOf(a.styleGuide, a.scenes[j], slots[j])
    {
      Analyze(event);
      views := [];
      if analysis.Some? {
        var a := analysis.value;
        for i := 0 to |a.scenes|
          invariant analysis == Some(a)
          invariant slots == SlotsAfter(old(slots), i, first, event)
          invariant |views| == i
          invariant forall j :: 0 <= j < i ==>
            && j in slots
            && views[j] == ViewOf(a.styleGuide, a.scenes[j], slots[j])
        {
          ghost var before := slots;
          var view := ShowScene(i, a.styleGuide, a.scenes[i], first(i), event);
          forall j | 0 <= j < i ensures j in slots && slots[j] == before[j] {
            SceneStepElsewhere(before, i, first(i), event, j);
          }
          views := views + [view];
        }
      }
    }
  }
}
