/**
 Whose list of jobs is shown (frontend/src/useCompletedTopoJobs.ts).

 React renders first and runs effects after, as a step of their own; an answer
 may arrive at any point between. A stretch is one signed-in period.
 */
module CompletedJobs {
  import opened Common

  type JobList = seq<string>

  /** A list asked for: in which stretch, and the controller whose signal it holds (`current`). */
  datatype Request = Request(stretch: nat, signal: Option<nat>, answer: Option<JobList>)

  /** `stretch` counts sign-ins rendered; `controller` is the ref, and `aborted` the controllers whose
      effect was cleaned up. `due`: effects of the last change of `loads` have not run. `shownFrom` is
      the stretch the shown list was asked in. */
  datatype Hook = Hook(
    loads: bool, signedOut: bool, jobs: JobList, loaded: bool,
    stretch: nat, controller: Option<nat>, aborted: set<nat>, due: bool,
    sent: set<Request>, shownFrom: nat)

  datatype Step =
    | Render(loads: bool)
    | RunEffects(answer: Option<JobList>)
    | Refetch(answer: Option<JobList>)
    | Arrive(request: Request)

  function Init(loads: bool): Hook {
    Hook(loads, !loads, [], false, if loads then 1 else 0, None, {}, true, {}, 0)
  }

  /** A render waits for the effects of the one before. */
  ghost predicate Enabled(h: Hook, step: Step) {
    match step
    case Render(_) => !h.due
    case RunEffects(_) => h.due
    case Refetch(_) => true
    case Arrive(r) => r in h.sent
  }

  /** `current`: the request's stretch has a controller, not aborted. */
  predicate Current(h: Hook, r: Request) {
    r.signal.Some? && r.signal.value !in h.aborted
  }

  /** The state set during render: signing out forgets the list at once. */
  function Rendered(h: Hook, loads: bool): Hook {
    var h1 := h.(loads := loads, due := loads != h.loads, stretch := h.stretch + if loads && !h.loads then 1 else 0);
    if !loads == h1.signedOut then h1
    else if loads then h1.(signedOut := false)
    else h1.(signedOut := true, jobs := [], loaded := false)
  }

  /** What `refetch` sends: it holds the signal of the controller now in the ref. */
  function Asked(h: Hook, answer: Option<JobList>): Hook {
    h.(sent := h.sent + {Request(h.stretch, h.controller, answer)})
  }

  /** Cleanup of the last stretch's effect, then this one's: a new controller, then the first fetch. */
  function Effects(h: Hook, answer: Option<JobList>): Hook {
    var ended := if h.loads || h.controller.None? then {} else {h.controller.value};
    var h1 := h.(due := false, aborted := h.aborted + ended);
    if h.loads then Asked(h1.(controller := Some(h.stretch)), answer) else h1
  }

  /** The answer, or the failure (`None`), as it arrives. */
  function Arrived(h: Hook, r: Request): Hook {
    if !Current(h, r) then h
    else
      var h1 := if r.answer.Some? then h.(jobs := r.answer.value, shownFrom := r.stretch) else h;
      h1.(loaded := true)
  }

  function Apply(h: Hook, step: Step): Hook {
    match step
    case Render(loads) => Rendered(h, loads)
    case RunEffects(answer) => Effects(h, answer)
    case Refetch(answer) => Asked(h, answer)
    case Arrive(r) => Arrived(h, r)
  }

  /** What the users are promised: a list is shown only to the signed-in user who asked for it. */
  predicate ShownToItsOwner(h: Hook) {
    h.jobs != [] || h.loaded ==> h.loads && (h.jobs != [] ==> h.shownFrom == h.stretch)
  }

  /** Signed out, with the ended stretch's controller not yet aborted. */
  predicate InGap(h: Hook) {
    !h.loads && h.due && h.controller.Some?
  }

  ghost predicate SignalsAreStretches(h: Hook) {
    forall r :: r in h.sent && r.signal.Some? ==> r.signal.value <= r.stretch <= h.stretch
  }

  /** A signal not aborted is the current stretch's, or the ended one's in the gap. */
  ghost predicate LiveIsCurrent(h: Hook) {
    forall r :: r in h.sent && Current(h, r) ==> r.stretch == h.stretch && r.signal == h.controller
  }

  /** How the ref, the aborted controllers and the props stand. */
  predicate RefIsRight(h: Hook) {
    (h.signedOut == !h.loads) &&
    (h.controller.Some? ==> h.controller.value <= h.stretch) &&
    (h.controller.Some? && h.controller.value !in h.aborted ==>
     h.controller.value == h.stretch && (h.loads || h.due)) &&
    (h.due && h.loads && h.controller.Some? ==> h.controller.value in h.aborted && h.controller.value < h.stretch) &&
    (!h.due && h.loads ==> h.controller == Some(h.stretch)) &&
    (!h.due && !h.loads && h.controller.Some? ==> h.controller.value in h.aborted) &&
    (forall c :: c in h.aborted ==> c <= h.stretch) && (h.loads ==> h.stretch !in h.aborted)
  }

  ghost predicate NoneLiveElsewhere(h: Hook) {
    !InGap(h) && (h.loads ==> h.due) ==> forall r :: r in h.sent ==> !Current(h, r)
  }

  ghost predicate Inv(h: Hook) {
    RefIsRight(h) && SignalsAreStretches(h) && LiveIsCurrent(h) && NoneLiveElsewhere(h)
  }

  lemma InitInv(loads: bool)
    ensures Inv(Init(loads)) && ShownToItsOwner(Init(loads))
  {
  }

  lemma StepKeepsInv(h: Hook, step: Step)
    requires Inv(h) && Enabled(h, step)
    ensures Inv(Apply(h, step))
  {
  }

  /** The step that lets a list of the ended stretch be shown. */
  predicate Leaks(h: Hook, step: Step) {
    step.Arrive? && InGap(h) && Current(h, step.request)
  }

  /** From a good state, exactly the arrival of an answer between the sign-out's render and its effects
      breaks the promise. */
  lemma OnlyTheGapLeaks(h: Hook, step: Step)
    requires Inv(h) && Enabled(h, step) && ShownToItsOwner(h)
    ensures ShownToItsOwner(Apply(h, step)) <==> !Leaks(h, step)
  {
  }

  ghost predicate Runs(states: seq<Hook>, steps: seq<Step>) {
    |states| == |steps| + 1 && (exists loads :: states[0] == Init(loads)) &&
    forall i :: 0 <= i < |steps| ==> Enabled(states[i], steps[i]) && states[i + 1] == Apply(states[i], steps[i])
  }

  lemma {:induction false} RunKeepsInv(states: seq<Hook>, steps: seq<Step>, n: nat)
    requires Runs(states, steps) && n <= |steps|
    ensures Inv(states[n])
  {
    if n == 0 {
      var loads :| states[0] == Init(loads);
      InitInv(loads);
    } else {
      RunKeepsInv(states, steps, n - 1);
      StepKeepsInv(states[n - 1], steps[n - 1]);
    }
  }

  /** Over a whole run, a list asked for in an ended stretch is never shown if and only if no answer
      with a live signal arrives between a sign-out's render and its effects. */
  lemma {:induction false} ShownIffNoLeak(states: seq<Hook>, steps: seq<Step>)
    requires Runs(states, steps)
    ensures (forall i :: 0 <= i <= |steps| ==> ShownToItsOwner(states[i])) <==>
            (forall i :: 0 <= i < |steps| ==> !Leaks(states[i], steps[i]))
  {
    if forall i :: 0 <= i <= |steps| ==> ShownToItsOwner(states[i]) {
      forall i | 0 <= i < |steps| ensures !Leaks(states[i], steps[i]) {
        RunKeepsInv(states, steps, i);
        OnlyTheGapLeaks(states[i], steps[i]);
        assert ShownToItsOwner(states[i + 1]);
      }
    }
    if forall i :: 0 <= i < |steps| ==> !Leaks(states[i], steps[i]) {
      forall i | 0 <= i <= |steps| ensures ShownToItsOwner(states[i]) { ShownWhileNoLeak(states, steps, i); }
    }
  }

  lemma {:induction false} ShownWhileNoLeak(states: seq<Hook>, steps: seq<Step>, n: nat)
    requires Runs(states, steps) && n <= |steps|
    requires forall i :: 0 <= i < |steps| ==> !Leaks(states[i], steps[i])
    ensures ShownToItsOwner(states[n])
  {
    if n == 0 {
      var loads :| states[0] == Init(loads);
      InitInv(loads);
    } else {
      ShownWhileNoLeak(states, steps, n - 1);
      RunKeepsInv(states, steps, n - 1);
      OnlyTheGapLeaks(states[n - 1], steps[n - 1]);
    }
  }

  // --------------------------------------------------------------- what is shown

  /** Signing in asks for the list, and the answer, when it comes, is shown. */
  lemma SignInLoads(h: Hook, answer: Option<JobList>)
    requires Inv(h) && h.due && h.loads
    ensures var asked, r := Apply(h, RunEffects(answer)), Request(h.stretch, Some(h.stretch), answer);
            Enabled(asked, Arrive(r)) && asked.controller == r.signal &&
            var shown := Apply(asked, Arrive(r));
            shown.loaded && shown.jobs == if answer.Some? then answer.value else h.jobs
  {
  }

  /** So is any later answer to one asked for since; a failure keeps the list there is. */
  lemma RefetchLoads(h: Hook, later: Hook, answer: Option<JobList>)
    requires Inv(h) && h.loads && !h.due
    requires Inv(later) && later.loads && later.stretch == h.stretch && Apply(h, Refetch(answer)).sent <= later.sent
    ensures var r := Request(h.stretch, Some(h.stretch), answer);
            Enabled(later, Arrive(r)) &&
            var shown := Apply(later, Arrive(r));
            shown.loaded && shown.jobs == if answer.Some? then answer.value else later.jobs
  {
    var r := Request(h.stretch, Some(h.stretch), answer);
    assert r in Apply(h, Refetch(answer)).sent;
  }

  /** Signing out forgets the list in the same render. */
  lemma SignOutForgets(h: Hook)
    requires Inv(h) && h.loads && !h.due
    ensures var out := Apply(h, Render(false)); out.jobs == [] && !out.loaded && out.due
  {
  }

  predicate ShowsAnothers(h: Hook) {
    h.loads && h.jobs != [] && h.shownFrom != h.stretch
  }

  /** It can happen: A's list arrives in the gap, and is still there when B has signed in. */
  lemma GapShowsTheLastUsersList()
    ensures exists states: seq<Hook>, steps: seq<Step> :: Runs(states, steps) && ShowsAnothers(states[|steps|])
  {
    var list := Some(["a-job"]);
    var r := Request(1, Some(1), list);
    var steps := [RunEffects(list), Render(false), Arrive(r), RunEffects(None), Render(true)];
    var h0 := Init(true);
    var h1 := Apply(h0, steps[0]);
    var h2 := Apply(h1, steps[1]);
    var h3 := Apply(h2, steps[2]);
    var h4 := Apply(h3, steps[3]);
    var h5 := Apply(h4, steps[4]);
    var states := [h0, h1, h2, h3, h4, h5];
    assert r in h2.sent;
    assert Runs(states, steps);
  }
}
