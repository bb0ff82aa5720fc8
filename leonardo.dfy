/**
 * The submit-then-poll client for the Leonardo generation service, written out
 * identically as `generate_image_leonardo` in app.py and app2.py.
 *
 * The network is replaced by an `Exchange`: the HTTP code of the submission and
 * the status responses the service gives, in the order the client would ask for
 * them. The client polls with no bound, so a finite exchange in which no status
 * response is a 200 carrying `COMPLETE` leaves the client still polling.
 */
module Leonardo {
  import opened Wrappers
  import opened Storyboard

  const ModelId := "ac614f96-1082-45bf-be9d-757f2d31c174"

  /** The JSON body of the submission. */
  datatype Payload = Payload(
    prompt: string,
    modelId: string,
    width: nat,
    height: nat,
    numImages: nat,
    promptMagic: bool,
    isPublic: bool)

  function RequestPayload(prompt: string): Payload
  {
    Payload(prompt, ModelId, 512, 512, 1, true, false)
  }

  /** One status response: its HTTP code, the job's `status`, and the first generated image. */
  datatype Poll = Poll(code: int, status: string, firstImage: Image)

  /** The service's side of one call: the submission's HTTP code, then the status responses. */
  datatype Exchange = Exchange(submitCode: int, polls: seq<Poll>)

  /**
   * How a call ends on an exchange: it returns an image or `None`, or it has
   * used up the exchange and would poll again.
   */
  datatype Outcome = Returned(image: Option<Image>) | StillPolling

  /** The only status response that ends the loop. */
  predicate IsComplete(p: Poll)
  {
    p.code == 200 && p.status == "COMPLETE"
  }

  /** The position of the first completed status response, if any. */
  function FirstComplete(polls: seq<Poll>): (r: Option<nat>)
    ensures r.Some? ==>
      && r.value < |polls|
      && IsComplete(polls[r.value])
      && forall j :: 0 <= j < r.value ==> !IsComplete(polls[j])
    ensures r.None? ==> forall j :: 0 <= j < |polls| ==> !IsComplete(polls[j])
  {
    if polls == [] then None
    else if IsComplete(polls[0]) then Some(0)
    else match FirstComplete(polls[1..])
      case None => None
      case Some(k) => Some(k + 1)
  }

  /** The outcome of a call on `ex`, as a function for the callers' specifications. */
  function Polled(ex: Exchange): Outcome
  {
    if ex.submitCode != 200 then Returned(None)
    else match FirstComplete(ex.polls)
      case None => StillPolling
      case Some(k) => Returned(Some(ex.polls[k].firstImage))
  }

  /**
   * `generate_image_leonardo` after the prompt is known: submit one payload, and
   * if the submission is accepted poll until a status response is a 200 with
   * `COMPLETE`. `polled` counts the status requests made.
   */
  method Generate(prompt: string, ex: Exchange) returns (sent: Payload, polled: nat, out: Outcome)
    ensures sent.prompt == prompt && sent.modelId == ModelId
    ensures sent.width == 512 && sent.height == 512 && sent.numImages == 1
    ensures sent.promptMagic && !sent.isPublic
    ensures out == Polled(ex)
    ensures polled <= |ex.polls|
    ensures ex.submitCode != 200 ==> polled == 0 && out == Returned(None)
    ensures out.Returned? && out.image.Some? ==>
      && 0 < polled
      && IsComplete(ex.polls[polled - 1])
      && out.image.value == ex.polls[polled - 1].firstImage
      && forall j :: 0 <= j < polled - 1 ==> !IsComplete(ex.polls[j])
    ensures out == StillPolling ==> polled == |ex.polls|
  {
    sent := RequestPayload(prompt);
    polled := 0;
    if ex.submitCode != 200 {
      out := Returned(None);
      return;
    }
    out := StillPolling;
    while polled < |ex.polls|
      invariant polled <= |ex.polls|
      invariant forall j :: 0 <= j < polled ==> !IsComplete(ex.polls[j])
    {
      var status := ex.polls[polled];
      polled := polled + 1;
      if status.code == 200 {
        if status.status == "COMPLETE" {
          out := Returned(Some(status.firstImage));
          return;
        }
      }
    }
  }

  /**
   * The three ways a call can go: `None` exactly when the submission is not a
   * 200; otherwise the first image of the first completed status response; and
   * with no completed response, still polling however long the exchange is.
   */
  lemma PolledOutcomes(ex: Exchange)
    ensures Polled(ex) == Returned(None) <==> ex.submitCode != 200
    ensures Polled(ex) == StillPolling <==>
      ex.submitCode == 200 && forall j :: 0 <= j < |ex.polls| ==> !IsComplete(ex.polls[j])
    ensures Polled(ex).Returned? && Polled(ex).image.Some? ==>
      exists k :: 0 <= k < |ex.polls| && IsComplete(ex.polls[k])
        && (forall j :: 0 <= j < k ==> !IsComplete(ex.polls[j]))
        && Polled(ex).image.value == ex.polls[k].firstImage
  {
    var fc := FirstComplete(ex.polls);
    if ex.submitCode == 200 && fc.Some? {
      assert IsComplete(ex.polls[fc.value]);
    }
  }

  /** Observations after the first completed response change nothing: a returned outcome is final. */
  lemma {:induction false} FirstCompleteExtends(polls: seq<Poll>, more: seq<Poll>)
    requires FirstComplete(polls).Some?
    ensures FirstComplete(polls + more) == FirstComplete(polls)
  {
    if !IsComplete(polls[0]) {
      assert (polls + more)[1..] == polls[1..] + more;
      FirstCompleteExtends(polls[1..], more);
    }
  }

  lemma ReturnedIsFinal(ex: Exchange, more: seq<Poll>)
    requires Polled(ex).Returned?
    ensures Polled(Exchange(ex.submitCode, ex.polls + more)) == Polled(ex)
  {
    if ex.submitCode == 200 {
      FirstCompleteExtends(ex.polls, more);
      var k := FirstComplete(ex.polls).value;
      assert (ex.polls + more)[k] == ex.polls[k];
    }
  }
}
