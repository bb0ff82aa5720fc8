/**
 * app2.py: the storyboard page that parses the text model's free-form reply.
 *
 * The reply is cut into scenes at each "\n\n", scanned from the left; in each scene the description
 * is the text before "Visual prompt:", the prompt the text between that marker
 * and "Key elements:", and the key elements the text after the last
 * "Key elements:". The `prompt` variable lives across loop iterations, so a
 * scene without "Key elements:" is drawn from the previous scene's prompt, and
 * a first scene without it stops the script on an unbound variable.
 */
module LooseStoryboard {
  import opened Wrappers
  import opened Strings
  import opened Storyboard
  import Leonardo

  const SceneBreak := "\n\n"
  const PromptMarker := "Visual prompt:"
  const KeysMarker := "Key elements:"

  /** Line 85: the scenes of the reply. */
  function Scenes(reply: string): seq<string>
  {
    Split(reply, SceneBreak)
  }

  /** The scenes are the pieces of the reply between its "\n\n"s, in order: none holds "\n\n", and rejoined they are the reply. */
  lemma ScenesPartitionReply(reply: string)
    ensures |Scenes(reply)| >= 1
    ensures Join(SceneBreak, Scenes(reply)) == reply
    ensures forall j :: 0 <= j < |Scenes(reply)| ==> !Contains(Scenes(reply)[j], SceneBreak)
  {
    JoinSplit(reply, SceneBreak);
    SplitPiecesFree(reply, SceneBreak);
  }

  /** Line 93: `scene.split("Visual prompt:")[0].strip()`. */
  function Description(scene: string): string
  {
    Strip(Split(scene, PromptMarker)[0])
  }

  /**
   * The description is the stripped text before the first "Visual prompt:", or
   * the whole scene stripped when there is no such marker.
   */
  lemma DescriptionBeforeMarker(scene: string)
    ensures !Contains(scene, PromptMarker) ==> Description(scene) == Strip(scene)
    ensures Contains(scene, PromptMarker) ==>
      var k := Find(scene, PromptMarker);
      0 <= k && Description(scene) == Strip(scene[..k])
  {
    FindMissing(scene, PromptMarker);
    if Find(scene, PromptMarker) == -1 {
      assert Split(scene, PromptMarker) == [scene];
    } else {
      SplitStep(scene, PromptMarker);
    }
  }

  /** Line 113: `scene.split("Key elements:")[-1].strip()`. */
  function KeyElements(scene: string): string
  {
    Strip(Last(Split(scene, KeysMarker)))
  }

  /**
   * The key elements are the stripped text after the last "Key elements:": the
   * marker occurs at some `n`, and no marker follows it. Without the marker they
   * are the whole scene, stripped.
   */
  lemma KeyElementsAfterLastMarker(scene: string)
    ensures !Contains(scene, KeysMarker) ==> KeyElements(scene) == Strip(scene)
    ensures Contains(scene, KeysMarker) ==>
      exists n: nat :: OccursAt(scene, KeysMarker, n)
        && !Contains(scene[n + |KeysMarker|..], KeysMarker)
        && KeyElements(scene) == Strip(scene[n + |KeysMarker|..])
  {
    FindMissing(scene, KeysMarker);
    SplitLast(scene, KeysMarker);
    SplitLastFree(scene, KeysMarker);
    if Contains(scene, KeysMarker) {
      var last := Last(Split(scene, KeysMarker));
      var n := |scene| - |last| - |KeysMarker|;
      assert scene[n..] == KeysMarker + last;
      assert scene[n..n + |KeysMarker|] == KeysMarker;
      assert scene[n + |KeysMarker|..] == last;
      assert OccursAt(scene, KeysMarker, n);
    }
  }

  /** Line 95: `prompt_start`. It is at least 13, so the `!= -1` test of line 97 always passes. */
  function PromptStart(scene: string): (start: nat)
    ensures start >= |PromptMarker| - 1
  {
    Find(scene, PromptMarker) + |PromptMarker|
  }

  /**
   * Lines 95-98: the prompt this scene assigns, or `None` when the scene has no
   * "Key elements:" and `prompt` is left as it was.
   */
  function ScenePrompt(scene: string): Option<string>
  {
    var start := PromptStart(scene);
    var end := Find(scene, KeysMarker);
    if start != -1 && end != -1 then Some(Strip(Slice(scene, start, end as nat)))
    else None
  }

  /** A scene assigns a prompt exactly when it contains "Key elements:". */
  lemma PromptNeedsKeysMarker(scene: string)
    ensures ScenePrompt(scene).Some? <==> Contains(scene, KeysMarker)
  {
    FindMissing(scene, KeysMarker);
  }

  /** With both markers in order, the prompt is the stripped text between them. */
  lemma PromptBetweenMarkers(scene: string)
    requires Contains(scene, PromptMarker) && Contains(scene, KeysMarker)
    requires Find(scene, PromptMarker) + |PromptMarker| <= Find(scene, KeysMarker)
    ensures ScenePrompt(scene)
         == Some(Strip(scene[Find(scene, PromptMarker) + |PromptMarker|..Find(scene, KeysMarker)]))
  {
    FindMissing(scene, PromptMarker);
    FindMissing(scene, KeysMarker);
    FindFirst(scene, KeysMarker);
    var start := PromptStart(scene);
    var q := Find(scene, KeysMarker);
    assert OccursAt(scene, KeysMarker, q);
    assert Slice(scene, start, q) == scene[start..q];
    assert ScenePrompt(scene) == Some(Strip(Slice(scene, start, q)));
  }

  /**
   * Without "Visual prompt:", `find` gives -1 and the slice starts at index 13:
   * the prompt is the text from index 13 up to "Key elements:".
   */
  lemma PromptWithoutPromptMarker(scene: string)
    requires !Contains(scene, PromptMarker) && Contains(scene, KeysMarker)
    requires 13 <= Find(scene, KeysMarker)
    ensures ScenePrompt(scene) == Some(Strip(scene[13..Find(scene, KeysMarker)]))
  {
    FindMissing(scene, PromptMarker);
    FindMissing(scene, KeysMarker);
  }

  /**
   * When "Key elements:" starts before the end of the first "Visual prompt:"
   * (or before index 13 when that marker is absent), the slice is empty and the
   * prompt is "".
   */
  lemma PromptEmptyWhenMarkersOverlap(scene: string)
    requires Contains(scene, KeysMarker)
    requires Find(scene, KeysMarker) < Find(scene, PromptMarker) + |PromptMarker|
    ensures ScenePrompt(scene) == Some("")
  {
    FindMissing(scene, KeysMarker);
  }

  /** What the loop body reads off one scene: its description, the prompt it assigns, its key elements. */
  datatype ParsedScene = ParsedScene(description: string, prompt: Option<string>, keyElements: string)

  function Parse(scene: string): ParsedScene
  {
    ParsedScene(Description(scene), ScenePrompt(scene), KeyElements(scene))
  }

  /** Every scene of `scenes`, parsed. */
  function ParseAll(scenes: seq<string>): (parsed: seq<ParsedScene>)
    ensures |parsed| == |scenes|
  {
    if scenes == [] then []
    else ParseAll(scenes[..|scenes| - 1]) + [Parse(scenes[|scenes| - 1])]
  }

  /** Entry `j` of `ParseAll(scenes)` is scene `j`, parsed. */
  lemma {:induction false} ParseAllAt(scenes: seq<string>, j: nat)
    requires j < |scenes|
    ensures ParseAll(scenes)[j] == Parse(scenes[j])
  {
    var init := scenes[..|scenes| - 1];
    assert ParseAll(scenes) == ParseAll(init) + [Parse(scenes[|scenes| - 1])];
    if j < |scenes| - 1 {
      ParseAllAt(init, j);
      assert init[j] == scenes[j];
    }
  }

  /**
   * The value of `prompt` when scene `i` reaches its image call: what scene `i`
   * assigned, else what the closest earlier scene assigned, else unbound.
   */
  function CarriedPrompt(parsed: seq<ParsedScene>, i: nat): Option<string>
    requires i < |parsed|
  {
    match parsed[i].prompt
    case Some(p) => Some(p)
    case None => if i == 0 then None else CarriedPrompt(parsed, i - 1)
  }

  /**
   * `prompt` is unbound at scene `i` exactly when no scene up to `i` assigned
   * it; otherwise it holds the prompt of the latest scene up to `i` that did.
   */
  lemma {:induction false} CarriedPromptIsLatest(parsed: seq<ParsedScene>, i: nat)
    requires i < |parsed|
    ensures CarriedPrompt(parsed, i).None? <==> forall j :: 0 <= j <= i ==> parsed[j].prompt.None?
    ensures CarriedPrompt(parsed, i).Some? ==>
      exists j :: 0 <= j <= i && parsed[j].prompt == CarriedPrompt(parsed, i)
        && forall l :: j < l <= i ==> parsed[l].prompt.None?
  {
    if parsed[i].prompt.None? && i > 0 {
      CarriedPromptIsLatest(parsed, i - 1);
      assert CarriedPrompt(parsed, i) == CarriedPrompt(parsed, i - 1);
      if CarriedPrompt(parsed, i).Some? {
        var j :| 0 <= j <= i - 1 && parsed[j].prompt == CarriedPrompt(parsed, i - 1)
          && forall l :: j < l <= i - 1 ==> parsed[l].prompt.None?;
        assert forall l :: j < l <= i ==> parsed[l].prompt.None?;
      }
    }
  }

  /** If `prompt` is ever unbound at its use, it is already unbound at the first scene. */
  lemma UnboundOnlyAtFirstScene(parsed: seq<ParsedScene>, i: nat)
    requires i < |parsed| && CarriedPrompt(parsed, i).None?
    ensures CarriedPrompt(parsed, 0).None?
  {
    CarriedPromptIsLatest(parsed, i);
    CarriedPromptIsLatest(parsed, 0);
  }

  /** Lines 31-61: `generate_image_leonardo(prompt)` sends the prompt as it is. */
  method GenerateImage(prompt: string, ex: Leonardo.Exchange)
    returns (sent: Leonardo.Payload, out: Leonardo.Outcome)
    ensures sent == Leonardo.RequestPayload(prompt)
    ensures out == Leonardo.Polled(ex)
  {
    var polled;
    sent, polled, out := Leonardo.Generate(prompt, ex);
  }

  /**
   * What the page shows for one scene: the description, the prompt when the
   * scene assigned one, the prompt actually sent, the image (`None` is the
   * "Failed to generate image" error) and the key elements.
   */
  datatype SceneView = SceneView(
    description: string,
    shownPrompt: Option<string>,
    sentPrompt: string,
    image: Option<Image>,
    keyElements: string)

  /**
   * How the scene loop ends: every scene rendered; stopped by the unbound
   * `prompt` at the scene after the last one rendered; or stuck polling there.
   */
  datatype Run =
    | Finished(views: seq<SceneView>)
    | Unbound(views: seq<SceneView>)
    | Hung(views: seq<SceneView>)

  /** The view of scene `i` when its image call returned `image`. */
  function ViewOf(parsed: seq<ParsedScene>, i: nat, image: Option<Image>): SceneView
    requires i < |parsed| && CarriedPrompt(parsed, i).Some?
  {
    SceneView(parsed[i].description, parsed[i].prompt, CarriedPrompt(parsed, i).value,
              image, parsed[i].keyElements)
  }

  /**
   * `views` are the first `|views|` scenes rendered: each one's prompt was
   * bound, its image call returned, and it shows what that call returned.
   */
  ghost predicate Rendered(parsed: seq<ParsedScene>, respond: nat -> Leonardo.Exchange, views: seq<SceneView>)
  {
    && |views| <= |parsed|
    && forall j :: 0 <= j < |views| ==>
      && CarriedPrompt(parsed, j).Some?
      && Leonardo.Polled(respond(j)).Returned?
      && views[j] == ViewOf(parsed, j, Leonardo.Polled(respond(j)).image)
  }

  /** Rendering one more scene keeps `Rendered`. */
  lemma RenderedExtend(parsed: seq<ParsedScene>, respond: nat -> Leonardo.Exchange,
                       views: seq<SceneView>, view: SceneView)
    requires Rendered(parsed, respond, views) && |views| < |parsed|
    requires CarriedPrompt(parsed, |views|).Some? && Leonardo.Polled(respond(|views|)).Returned?
    requires view == ViewOf(parsed, |views|, Leonardo.Polled(respond(|views|)).image)
    ensures Rendered(parsed, respond, views + [view])
  {
    var vs := views + [view];
    forall j | 0 <= j < |vs|
      ensures CarriedPrompt(parsed, j).Some? && Leonardo.Polled(respond(j)).Returned?
        && vs[j] == ViewOf(parsed, j, Leonardo.Polled(respond(j)).image)
    {
      if j < |views| {
        assert vs[j] == views[j];
      }
    }
  }

  /**
   * Lines 85-113: the loop over the scenes of `reply`, `respond(i)` being the
   * service's side of scene `i`'s image call. Each rendered scene sent the
   * carried prompt and shows what its own call returned. An unbound `prompt`
   * can only stop the loop at the first scene.
   */
  method RenderScenes(reply: string, respond: nat -> Leonardo.Exchange) returns (run: Run)
    ensures var parsed := ParseAll(Scenes(reply));
      && Rendered(parsed, respond, run.views)
      && (run.Finished? <==> |run.views| == |parsed|)
      && (run.Unbound? ==> run.views == [] && CarriedPrompt(parsed, 0).None?)
      && (run.Hung? ==>
        && CarriedPrompt(parsed, |run.views|).Some?
        && Leonardo.Polled(respond(|run.views|)) == Leonardo.StillPolling)
  {
    var scenes := Scenes(reply);
    ghost var parsed := ParseAll(scenes);
    var prompt: Option<string> := None;
    var views: seq<SceneView> := [];
    for i := 0 to |scenes|
      invariant prompt == if i == 0 then None else CarriedPrompt(parsed, i - 1)
      invariant |views| == i
      invariant Rendered(parsed, respond, views)
    {
      var scene := scenes[i];
      var description := Description(scene);
      var own := ScenePrompt(scene);
      if own.Some? {
        prompt := own;
      }
      ParseAllAt(scenes, i);
      if prompt.None? {
        UnboundOnlyAtFirstScene(parsed, i);
        return Unbound(views);
      }
      var sent, out := GenerateImage(prompt.value, respond(i));
      if out == Leonardo.StillPolling {
        return Hung(views);
      }
      var view := SceneView(description, own, sent.prompt, out.image, KeyElements(scene));
      RenderedExtend(parsed, respond, views, view);
      views := views + [view];
    }
    run := Finished(views);
  }
}
