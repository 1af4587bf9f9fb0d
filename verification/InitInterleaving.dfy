/**
 Any number of threads running initializer lists at once, with initializers that load further images
 and run their lists in turn. Steps interleave at each access to the shared image states. Lists name
 images by number; an image also answers to the number it overrides.
 */
module InitInterleaving {
  import opened ImageGraph
  import opened ImageLookup
  import opened RunInitializers

  /** Looking at the head of the list; about to claim it; running its initializers. */
  datatype Phase = Looking | Claiming | Running

  /** One activation of the list runner: the entries still to do, and where the image was found last. */
  datatype Frame = Frame(todo: seq<ImageNum>, phase: Phase, hint: nat)

  /** Each thread is a stack of activations, innermost last. `starts` and `done` are history, by index:
      initializers started, and images some runner has finished with. */
  datatype System = System(
    images: seq<LoadedImage>, threads: seq<seq<Frame>>, starts: seq<nat>, done: set<nat>)

  datatype Action =
    | Load(image: LoadedImage)
    | Enter(t: nat, list: seq<ImageNum>)
    | Look(t: nat)
    | Claim(t: nat)
    | Finish(t: nat)
    | Leave(t: nat)

  predicate HasTop(s: System, t: nat) { t < |s.threads| && s.threads[t] != [] }

  function Top(s: System, t: nat): Frame
    requires HasTop(s, t)
  {
    s.threads[t][|s.threads[t]| - 1]
  }

  function WithTop(s: System, t: nat, f: Frame): System
    requires HasTop(s, t)
  {
    s.(threads := s.threads[t := s.threads[t][|s.threads[t]| - 1 := f]])
  }

  /** The lookup tries the hint first; otherwise it scans. */
  function Found(s: System, f: Frame): nat
    requires f.todo != []
  {
    if f.hint < |s.images| && Represents(Key(s.images[f.hint]), f.todo[0]) then f.hint
    else Locate(s.images, Key, f.todo[0])
  }

  function WithState(s: System, k: nat, state: State): System
    requires k < |s.images|
  {
    s.(images := s.images[k := s.images[k].(state := state)])
  }

  /** The entry, found at `k`, is finished with; look at the next one. */
  function Drop(s: System, t: nat, k: nat): System
    requires HasTop(s, t) && Top(s, t).todo != []
  {
    WithTop(s, t, Frame(Top(s, t).todo[1..], Looking, 0)).(done := s.done + {k})
  }

  /** A runner stands in a phase at a list entry whose image is loaded, as the lookup asserts. */
  predicate At(s: System, t: nat, phase: Phase)
  {
    HasTop(s, t) && Top(s, t).phase == phase && Top(s, t).todo != [] && Found(s, Top(s, t)) < |s.images|
  }

  predicate Enabled(s: System, a: Action)
  {
    match a
    case Load(image) => image.state == FixedUp
    case Enter(t, list) => t < |s.threads| && (s.threads[t] != [] ==> Top(s, t).phase == Running)
    case Look(t) => At(s, t, Looking)
    case Claim(t) => At(s, t, Claiming)
    case Finish(t) => At(s, t, Running)
    case Leave(t) => HasTop(s, t) && Top(s, t).todo == [] && Top(s, t).phase == Looking
  }

  function Step(s: System, a: Action): System
    requires Enabled(s, a)
  {
    match a
    case Load(image) => s.(images := s.images + [image])
    case Enter(t, list) => s.(threads := s.threads[t := s.threads[t] + [Frame(list, Looking, 0)]])
    case Look(t) =>
      var k := Found(s, Top(s, t));
      if s.images[k].state == FixedUp then WithTop(s, t, Top(s, t).(phase := Claiming, hint := k)) else Drop(s, t, k)
    case Claim(t) =>
      var k := Found(s, Top(s, t));
      if s.images[k].state == FixedUp then
        WithState(WithTop(s, t, Top(s, t).(phase := Running, hint := k)), k, BeingInited).(starts := s.starts + [k])
      else Drop(s, t, k)
    case Finish(t) =>
      var k := Found(s, Top(s, t));
      Drop(if s.images[k].state == BeingInited then WithState(s, k, Inited) else s, t, k)
    case Leave(t) => s.(threads := s.threads[t := s.threads[t][..|s.threads[t]| - 1]])
  }

  /** Runs: sequences of enabled actions. */
  predicate CanRun(s: System, actions: seq<Action>)
    decreases |actions|, 0
  {
    actions == [] ||
    (CanRun(s, actions[..|actions| - 1]) && Enabled(Run(s, actions[..|actions| - 1]), actions[|actions| - 1]))
  }

  function Run(s: System, actions: seq<Action>): System
    requires CanRun(s, actions)
    decreases |actions|, 1
  {
    if actions == [] then s else Step(Run(s, actions[..|actions| - 1]), actions[|actions| - 1])
  }

  /** No runner is active and loaded images are fixed up or already initialized. */
  predicate Initial(s: System)
  {
    && (forall t :: 0 <= t < |s.threads| ==> s.threads[t] == [])
    && (forall k :: 0 <= k < |s.images| ==> s.images[k].state in {FixedUp, Inited})
    && s.starts == [] && s.done == {}
  }

  // ----- invariants ---------------------------------------------------------------------------

  function Rank(state: State): nat
  {
    match state case Unmapped => 0 case Mapped => 1 case FixedUp => 2 case BeingInited => 3 case Inited => 4
  }

  predicate InState(s: System, k: nat, state: State) { k < |s.images| && s.images[k].state == state }

  /** An activation is inside the initializers of the image at `k`. */
  predicate RunningAt(s: System, t: nat, d: nat, k: nat)
  {
    t < |s.threads| && d < |s.threads[t]| && RunningIn(s.threads[t][d], k)
  }

  predicate RunningIn(f: Frame, k: nat) { f.phase == Running && f.hint == k }

  predicate Begun(s: System, k: nat) { InState(s, k, BeingInited) || InState(s, k, Inited) }

  predicate Distinct(s: seq<nat>)
  {
    forall j, k :: 0 <= j < k < |s| ==> s[j] != s[k]
  }

  /** Started images have begun; begun images were started or initialized from the outset (`pre`). */
  ghost predicate HistoryOk(s: System, pre: set<nat>)
  {
    && Distinct(s.starts)
    && (forall k :: 0 <= k < |s.images| ==> s.images[k].state in {FixedUp, BeingInited, Inited})
    && (forall k :: k in s.starts ==> Begun(s, k))
    && (forall k: nat :: Begun(s, k) ==> k in s.starts || k in pre)
    && (forall k :: k in s.done ==> Begun(s, k))
  }

  /** A running activation finds its image again by the hint. */
  predicate HintOk(s: System, f: Frame)
  {
    f.phase == Running ==> f.hint < |s.images| && f.todo != [] && Represents(Key(s.images[f.hint]), f.todo[0])
  }

  /** Exactly the images being initialized have a runner in their initializers, and only one. */
  ghost predicate RunnersOk(s: System)
  {
    && (forall t: nat, d: nat :: t < |s.threads| && d < |s.threads[t]| ==> HintOk(s, s.threads[t][d]))
    && (forall t: nat, d: nat, k: nat :: RunningAt(s, t, d, k) ==> InState(s, k, BeingInited))
    && (forall t: nat, d: nat, t': nat, d': nat, k: nat ::
          RunningAt(s, t, d, k) && RunningAt(s, t', d', k) ==> t == t' && d == d')
    && (forall k: nat :: InState(s, k, BeingInited) ==> exists t: nat, d: nat :: RunningAt(s, t, d, k))
  }

  ghost predicate Inv(s: System, pre: set<nat>) { HistoryOk(s, pre) && RunnersOk(s) }

  /** Loaded images keep their place and their numbers, none moves to an earlier state, no start is forgotten. */
  predicate Forward(s: System, r: System)
  {
    && |s.images| <= |r.images|
    && (forall k :: 0 <= k < |s.images| ==>
          Key(s.images[k]) == Key(r.images[k]) && Rank(s.images[k].state) <= Rank(r.images[k].state))
    && s.starts <= r.starts && s.done <= r.done
  }

  lemma HistoryStep(s: System, pre: set<nat>, a: Action)
    requires Inv(s, pre) && Enabled(s, a)
    ensures HistoryOk(Step(s, a), pre) && Forward(s, Step(s, a))
  {
    hide Represents, Locate;
    match a {
      case Load(image) => HistoryGrown(s, Step(s, a), pre);
      case Enter(t, list) =>
      case Look(t) =>
        var k := Found(s, Top(s, t));
        assert s.images[k].state != FixedUp ==> Begun(s, k);
      case Claim(t) =>
        var k := Found(s, Top(s, t));
        if s.images[k].state == FixedUp { HistoryClaimed(s, Step(s, a), pre, k); } else { assert Begun(s, k); }
      case Finish(t) =>
        var k := Found(s, Top(s, t));
        FinishFinds(s, t);
        HistoryFinished(s, Step(s, a), pre, k);
      case Leave(t) =>
    }
  }

  lemma HistoryGrown(s: System, r: System, pre: set<nat>)
    requires HistoryOk(s, pre) && |r.images| == |s.images| + 1 && r.images[..|s.images|] == s.images
    requires r.images[|s.images|].state == FixedUp && r.starts == s.starts && r.done == s.done
    ensures HistoryOk(r, pre)
  {
    assert forall k :: 0 <= k < |s.images| ==> r.images[k] == s.images[k];
    assert forall k: nat :: Begun(r, k) <==> Begun(s, k);
  }

  lemma HistoryClaimed(s: System, r: System, pre: set<nat>, k: nat)
    requires HistoryOk(s, pre) && InState(s, k, FixedUp)
    requires r.images == s.images[k := s.images[k].(state := BeingInited)]
    requires r.starts == s.starts + [k] && r.done == s.done
    ensures HistoryOk(r, pre)
  {
    assert k !in s.starts;
    assert forall n: nat :: Begun(r, n) <==> Begun(s, n) || n == k;
  }

  lemma HistoryFinished(s: System, r: System, pre: set<nat>, k: nat)
    requires HistoryOk(s, pre) && InState(s, k, BeingInited)
    requires r.images == s.images[k := s.images[k].(state := Inited)]
    requires r.starts == s.starts && r.done == s.done + {k}
    ensures HistoryOk(r, pre)
  {
    assert forall n: nat :: Begun(r, n) <==> Begun(s, n);
  }

  /** When a runner is done, it finds the image it claimed, still being initialized. */
  lemma FinishFinds(s: System, t: nat)
    requires RunnersOk(s) && At(s, t, Running)
    ensures var k := Found(s, Top(s, t));
            k == Top(s, t).hint && InState(s, k, BeingInited) && RunningAt(s, t, |s.threads[t]| - 1, k)
  {
    hide Represents, Locate;
    assert HintOk(s, s.threads[t][|s.threads[t]| - 1]);
    assert RunningAt(s, t, |s.threads[t]| - 1, Top(s, t).hint);
  }

  /** Rewriting the top activation moves runners only there. */
  lemma TopRunners(s: System, t: nat, f: Frame, r: System)
    requires HasTop(s, t) && r.threads == WithTop(s, t, f).threads
    ensures forall t': nat, d: nat, k: nat :: !(t' == t && d == |s.threads[t]| - 1) ==>
              (RunningAt(r, t', d, k) <==> RunningAt(s, t', d, k))
    ensures forall d: nat, k: nat :: d == |s.threads[t]| - 1 ==> (RunningAt(r, t, d, k) <==> RunningIn(f, k))
    ensures forall d: nat, k: nat :: d == |s.threads[t]| - 1 ==> (RunningAt(s, t, d, k) <==> RunningIn(Top(s, t), k))
    ensures forall t': nat, d: nat :: t' < |r.threads| && d < |r.threads[t']| ==>
              t' < |s.threads| && d < |s.threads[t']|
              && (r.threads[t'][d] == f || r.threads[t'][d] == s.threads[t'][d])
  {
  }

  /** Adding or removing an activation that is not running moves no runner. */
  lemma SameRunners(s: System, r: System, t: nat)
    requires t < |s.threads| == |r.threads| && r.threads == s.threads[t := r.threads[t]]
    requires (r.threads[t] != [] && r.threads[t][..|r.threads[t]| - 1] == s.threads[t] && Top(r, t).phase != Running)
          || (s.threads[t] != [] && s.threads[t][..|s.threads[t]| - 1] == r.threads[t] && Top(s, t).phase != Running)
    ensures forall t': nat, d: nat, k: nat :: RunningAt(r, t', d, k) <==> RunningAt(s, t', d, k)
    ensures forall t': nat, d: nat :: t' < |r.threads| && d < |r.threads[t']| && r.threads[t'][d].phase == Running ==>
              d < |s.threads[t']| && r.threads[t'][d] == s.threads[t'][d]
  {
    forall t': nat, d: nat, k: nat ensures RunningAt(r, t', d, k) <==> RunningAt(s, t', d, k) {
      if t' == t && d < |s.threads[t]| && d < |r.threads[t]| {
        assert s.threads[t][d] == r.threads[t][d];
      }
    }
    forall t': nat, d: nat | t' < |r.threads| && d < |r.threads[t']| && r.threads[t'][d].phase == Running
      ensures d < |s.threads[t']| && r.threads[t'][d] == s.threads[t'][d]
    {
      if t' == t && d < |s.threads[t]| {
        assert s.threads[t][d] == r.threads[t][d];
      }
    }
  }

  lemma StillRunning(s: System, r: System, k: nat)
    requires exists t: nat, d: nat :: RunningAt(s, t, d, k)
    requires forall t: nat, d: nat :: RunningAt(s, t, d, k) ==> RunningAt(r, t, d, k)
    ensures exists t: nat, d: nat :: RunningAt(r, t, d, k)
  {
    var t: nat, d: nat :| RunningAt(s, t, d, k);
    assert RunningAt(r, t, d, k);
  }

  /** Loaded images keep their numbers. */
  predicate SameKeys(s: System, r: System)
  {
    |s.images| <= |r.images| && forall k :: 0 <= k < |s.images| ==> Key(s.images[k]) == Key(r.images[k])
  }

  /** Every running activation of `r` was there before. */
  predicate OldFrames(s: System, r: System)
  {
    forall t: nat, d: nat :: t < |r.threads| && d < |r.threads[t]| && r.threads[t][d].phase == Running ==>
      t < |s.threads| && d < |s.threads[t]| && r.threads[t][d] == s.threads[t][d]
  }

  lemma HintsKept(s: System, r: System)
    requires RunnersOk(s) && SameKeys(s, r) && OldFrames(s, r)
    ensures forall t: nat, d: nat :: t < |r.threads| && d < |r.threads[t]| ==> HintOk(r, r.threads[t][d])
  {
    hide Represents, Key;
    forall t: nat, d: nat | t < |r.threads| && d < |r.threads[t]| && r.threads[t][d].phase == Running
      ensures HintOk(r, r.threads[t][d])
    {
      assert HintOk(s, s.threads[t][d]);
    }
  }

  /** The step moves no runner and changes no state of an image being initialized. */
  lemma Unmoved(s: System, r: System)
    requires RunnersOk(s) && SameKeys(s, r) && OldFrames(s, r)
    requires forall t: nat, d: nat, k: nat :: RunningAt(r, t, d, k) <==> RunningAt(s, t, d, k)
    requires forall k: nat :: InState(r, k, BeingInited) <==> InState(s, k, BeingInited)
    ensures RunnersOk(r)
  {
    hide HintOk, SameKeys, OldFrames, InState, RunningAt;
    HintsKept(s, r);
    forall k: nat | InState(r, k, BeingInited) ensures exists t: nat, d: nat :: RunningAt(r, t, d, k) {
      StillRunning(s, r, k);
    }
  }

  /** A claim that succeeds makes the top activation the only runner of its image. */
  lemma Claimed(s: System, t: nat)
    requires RunnersOk(s) && At(s, t, Claiming) && s.images[Found(s, Top(s, t))].state == FixedUp
    ensures RunnersOk(Step(s, Claim(t)))
  {
    hide Locate, Represents;
    var r, k := Step(s, Claim(t)), Found(s, Top(s, t));
    var f := Top(s, t).(phase := Running, hint := k);
    FoundRepresents(s, Top(s, t));
    TopRunners(s, t, f, r);
    assert RunningAt(r, t, |s.threads[t]| - 1, k);
    assert HintOk(r, f);
    forall t': nat, d: nat | t' < |r.threads| && d < |r.threads[t']| ensures HintOk(r, r.threads[t'][d]) {
      if r.threads[t'][d] != f { assert HintOk(s, s.threads[t'][d]); }
    }
    assert forall n: nat :: InState(r, n, BeingInited) <==> InState(s, n, BeingInited) || n == k;
    forall n: nat | InState(r, n, BeingInited) ensures exists t: nat, d: nat :: RunningAt(r, t, d, n) {
      if n != k { StillRunning(s, r, n); }
    }
  }

  lemma FoundRepresents(s: System, f: Frame)
    requires f.todo != [] && Found(s, f) < |s.images|
    ensures Represents(Key(s.images[Found(s, f)]), f.todo[0])
  {
  }

  /** Finishing retires the only runner of the image. */
  lemma Finished(s: System, t: nat)
    requires RunnersOk(s) && At(s, t, Running)
    ensures RunnersOk(Step(s, Finish(t)))
  {
    hide Locate, Represents;
    var r, k := Step(s, Finish(t)), Found(s, Top(s, t));
    FinishFinds(s, t);
    TopRunners(s, t, Frame(Top(s, t).todo[1..], Looking, 0), r);
    assert OldFrames(s, r);
    HintsKept(s, r);
    assert forall n: nat :: InState(r, n, BeingInited) <==> InState(s, n, BeingInited) && n != k;
    forall n: nat | InState(r, n, BeingInited) ensures exists t: nat, d: nat :: RunningAt(r, t, d, n) {
      StillRunning(s, r, n);
    }
  }

  /** Only the top activation of a thread changes, and it is not running before or after. */
  lemma TopUnmoved(s: System, t: nat, r: System)
    requires RunnersOk(s) && HasTop(s, t) && r.images == s.images
    requires HasTop(r, t) && r.threads == WithTop(s, t, Top(r, t)).threads
    requires Top(s, t).phase != Running && Top(r, t).phase != Running
    ensures RunnersOk(r)
  {
    hide RunnersOk, Key;
    TopRunners(s, t, Top(r, t), r);
    Unmoved(s, r);
  }

  /** Loading an image, entering a list and leaving it move no runner. */
  lemma NoneRuns(s: System, a: Action)
    requires RunnersOk(s) && Enabled(s, a) && (a.Load? || a.Enter? || a.Leave?)
    ensures RunnersOk(Step(s, a))
  {
    hide RunnersOk, Found, Key, Locate, Represents;
    var r := Step(s, a);
    if !a.Load? { SameRunners(s, r, a.t); }
    Unmoved(s, r);
  }

  lemma RunnersStep(s: System, a: Action)
    requires RunnersOk(s) && Enabled(s, a)
    ensures RunnersOk(Step(s, a))
  {
    hide RunnersOk, Found, Key, Locate, Represents;
    var r := Step(s, a);
    if a.Load? || a.Enter? || a.Leave? {
      NoneRuns(s, a);
    } else if a.Look? {
      TopUnmoved(s, a.t, r);
    } else if a.Finish? {
      Finished(s, a.t);
    } else if s.images[Found(s, Top(s, a.t))].state == FixedUp {
      Claimed(s, a.t);
    } else {
      TopUnmoved(s, a.t, r);
    }
  }

  // ----- whole runs ---------------------------------------------------------------------------

  /** Images initialized before anything ran. */
  function Pre(s: System): set<nat>
  {
    set k: nat | k < |s.images| && s.images[k].state == Inited
  }

  lemma {:induction false} RunInv(s: System, actions: seq<Action>)
    requires Initial(s) && CanRun(s, actions)
    ensures Inv(Run(s, actions), Pre(s)) && Forward(s, Run(s, actions))
  {
    if actions == [] {
      assert forall t: nat, d: nat, k: nat :: !RunningAt(s, t, d, k);
    } else {
      hide RunnersOk, HistoryOk, Step;
      var front := actions[..|actions| - 1];
      RunInv(s, front);
      HistoryStep(Run(s, front), Pre(s), actions[|actions| - 1]);
      RunnersStep(Run(s, front), actions[|actions| - 1]);
    }
  }

  /** Over every interleaving, each image's initializers start at most once, whatever number lists call it by;
      started images have begun, and states never move backward from one moment of the run to a later one. */
  lemma {:induction false} AtMostOnce(s: System, actions: seq<Action>, k: nat)
    requires Initial(s) && CanRun(s, actions) && k <= |actions|
    ensures CanRun(s, actions[..k])
    ensures Distinct(Run(s, actions).starts)
    ensures forall n :: n in Run(s, actions).starts ==> Begun(Run(s, actions), n)
    ensures Forward(Run(s, actions[..k]), Run(s, actions))
    decreases |actions| - k
  {
    hide HistoryOk, RunnersOk, Step, Enabled, Forward, Distinct, Begun, Initial;
    RunInv(s, actions);
    StartsBegun(Run(s, actions), Pre(s));
    if k == |actions| {
      assert actions[..k] == actions;
      ForwardSelf(Run(s, actions));
    } else {
      AtMostOnce(s, actions, k + 1);
      var longer := actions[..k + 1];
      assert longer[..|longer| - 1] == actions[..k];
      RunInv(s, actions[..k]);
      HistoryStep(Run(s, actions[..k]), Pre(s), actions[k]);
      ForwardTrans(Run(s, actions[..k]), Run(s, actions[..k + 1]), Run(s, actions));
    }
  }

  lemma StartsBegun(s: System, pre: set<nat>)
    requires HistoryOk(s, pre)
    ensures Distinct(s.starts) && forall n :: n in s.starts ==> Begun(s, n)
  {
  }

  lemma ForwardSelf(s: System)
    ensures Forward(s, s)
  {
  }

  lemma ForwardTrans(a: System, b: System, c: System)
    requires Forward(a, b) && Forward(b, c)
    ensures Forward(a, c)
  {
    hide Rank, Key;
  }

  /** Two activations are never inside the initializers of the same image. */
  lemma OneRunner(s: System, actions: seq<Action>, t: nat, d: nat, t': nat, d': nat, k: nat)
    requires Initial(s) && CanRun(s, actions)
    requires RunningAt(Run(s, actions), t, d, k) && RunningAt(Run(s, actions), t', d', k)
    ensures t == t' && d == d' && InState(Run(s, actions), k, BeingInited)
  {
    RunInv(s, actions);
  }

  /** When no runner is active any more, every image of every list that was run is initialized, and it was
      started exactly once unless it was initialized from the outset. */
  lemma QuiescentInited(s: System, actions: seq<Action>, k: nat)
    requires Initial(s) && CanRun(s, actions)
    requires forall t :: 0 <= t < |Run(s, actions).threads| ==> Run(s, actions).threads[t] == []
    requires k in Run(s, actions).done
    ensures InState(Run(s, actions), k, Inited)
    ensures k in Run(s, actions).starts || InState(s, k, Inited)
    ensures Distinct(Run(s, actions).starts)
  {
    RunInv(s, actions);
    var r := Run(s, actions);
    assert Begun(r, k);
    assert forall t: nat, d: nat :: !RunningAt(r, t, d, k);
  }

  // ----- every listed image ---------------------------------------------------------------------

  /** Some activation still has the number to do. */
  predicate ToDo(s: System, num: ImageNum)
  {
    exists t, d :: 0 <= t < |s.threads| && 0 <= d < |s.threads[t]| && num in s.threads[t][d].todo
  }

  /** The image of that number is loaded and has begun. */
  predicate NumBegun(s: System, num: ImageNum) { Begun(s, Locate(s.images, Key, num)) }

  /** A hint is either unused or where a scan finds the image. */
  predicate HintExact(s: System, f: Frame)
  {
    if f.phase == Looking then f.hint == 0
    else f.todo != [] && f.hint == Locate(s.images, Key, f.todo[0]) < |s.images|
  }

  ghost predicate HintsExact(s: System)
  {
    forall t: nat, d: nat :: t < |s.threads| && d < |s.threads[t]| ==> HintExact(s, s.threads[t][d])
  }

  /** The hinted lookup is the scan. */
  lemma FoundByScan(s: System, f: Frame)
    requires f.todo != [] && HintExact(s, f)
    ensures Found(s, f) == Locate(s.images, Key, f.todo[0])
  {
  }

  lemma {:induction false} LocateByKeys(a: seq<LoadedImage>, b: seq<LoadedImage>, num: ImageNum)
    requires |a| == |b| && forall k :: 0 <= k < |a| ==> Key(a[k]) == Key(b[k])
    ensures Locate(a, Key, num) == Locate(b, Key, num)
  {
    if a != [] { LocateByKeys(a[1..], b[1..], num); }
  }

  /** Where a number is found stays the same for good. */
  lemma LocateForward(s: System, r: System, num: ImageNum)
    requires Forward(s, r) && Locate(s.images, Key, num) < |s.images|
    ensures Locate(r.images, Key, num) == Locate(s.images, Key, num)
  {
    var n := |s.images|;
    LocateByKeys(s.images, r.images[..n], num);
    LocateStable(r.images[..n], Key, r.images[n..], num);
    assert r.images[..n] + r.images[n..] == r.images;
  }

  lemma NumBegunForward(s: System, r: System, num: ImageNum)
    requires Forward(s, r) && NumBegun(s, num)
    ensures Locate(r.images, Key, num) == Locate(s.images, Key, num) && Rank(r.images[Locate(r.images, Key, num)].state) >= 3
  {
    LocateForward(s, r, num);
  }

  lemma HintForward(s: System, r: System, f: Frame)
    requires Forward(s, r) && HintExact(s, f)
    ensures HintExact(r, f)
  {
    if f.phase != Looking { LocateForward(s, r, f.todo[0]); }
  }

  lemma HintsStep(s: System, pre: set<nat>, a: Action)
    requires Inv(s, pre) && HintsExact(s) && Enabled(s, a)
    ensures HintsExact(Step(s, a))
  {
    hide Inv, Forward, Locate, Represents, HintExact, Found, WithState;
    var r := Step(s, a);
    assert Forward(s, r) by { HistoryStep(s, pre, a); }
    forall t: nat, d: nat | t < |r.threads| && d < |r.threads[t]|
      ensures HintExact(r, r.threads[t][d])
    {
      if t < |s.threads| && d < |s.threads[t]| && r.threads[t][d] == s.threads[t][d] {
        HintForward(s, r, s.threads[t][d]);
      } else {
        NewFrame(s, pre, a, t, d);
      }
    }
  }

  /** The activation a step writes. */
  lemma NewFrame(s: System, pre: set<nat>, a: Action, t: nat, d: nat)
    requires Inv(s, pre) && HintsExact(s) && Enabled(s, a)
    requires var r := Step(s, a);
             && t < |r.threads| && d < |r.threads[t]|
             && !(t < |s.threads| && d < |s.threads[t]| && r.threads[t][d] == s.threads[t][d])
    ensures HintExact(Step(s, a), Step(s, a).threads[t][d])
  {
    hide Inv, Locate, Represents;
    var r := Step(s, a);
    assert Forward(s, r) by { HistoryStep(s, pre, a); }
    if !a.Load? && !a.Enter? && !a.Leave? {
      assert t == a.t && d == |s.threads[t]| - 1;
      assert HintExact(s, s.threads[t][d]);
      FoundByScan(s, Top(s, t));
      LocateForward(s, r, Top(s, t).todo[0]);
    }
  }

  /** A number to do stays to do until its image has begun. */
  lemma ToDoStep(s: System, pre: set<nat>, a: Action, num: ImageNum)
    requires Inv(s, pre) && HintsExact(s) && Enabled(s, a) && (ToDo(s, num) || NumBegun(s, num))
    ensures ToDo(Step(s, a), num) || NumBegun(Step(s, a), num)
  {
    hide Inv, Locate, Represents, HintExact, Found;
    var r := Step(s, a);
    assert Forward(s, r) && HistoryOk(r, pre) by { HistoryStep(s, pre, a); assert Inv(s, pre); }
    if NumBegun(s, num) {
      NumBegunForward(s, r, num);
    } else {
      var t, d :| 0 <= t < |s.threads| && 0 <= d < |s.threads[t]| && num in s.threads[t][d].todo;
      if t < |r.threads| && d < |r.threads[t]| && num in r.threads[t][d].todo {
        assert ToDo(r, num);
      } else {
        DroppedHasBegun(s, pre, a, t, d, num);
      }
    }
  }

  /** An entry is dropped only when its image has begun. */
  lemma DroppedHasBegun(s: System, pre: set<nat>, a: Action, t: nat, d: nat, num: ImageNum)
    requires Inv(s, pre) && HintsExact(s) && Enabled(s, a)
    requires t < |s.threads| && d < |s.threads[t]| && num in s.threads[t][d].todo
    requires var r := Step(s, a); !(t < |r.threads| && d < |r.threads[t]| && num in r.threads[t][d].todo)
    ensures NumBegun(Step(s, a), num)
  {
    hide Locate, Represents;
    var r := Step(s, a);
    assert Forward(s, r) by { HistoryStep(s, pre, a); }
    assert !a.Load? && !a.Enter? && !a.Leave? && t == a.t && d == |s.threads[t]| - 1;
    assert HintExact(s, s.threads[t][d]);
    FoundByScan(s, Top(s, t));
    LocateForward(s, r, Top(s, t).todo[0]);
    assert num == Top(s, t).todo[0];
    if a.Finish? { FinishFinds(s, t); }
  }

  /** The numbers of all lists entered so far. */
  predicate Entered(actions: seq<Action>, num: ImageNum)
  {
    exists i :: 0 <= i < |actions| && actions[i].Enter? && num in actions[i].list
  }

  lemma {:induction false} EnteredKept(s: System, actions: seq<Action>, num: ImageNum)
    requires Initial(s) && CanRun(s, actions)
    ensures HintsExact(Run(s, actions))
    ensures Entered(actions, num) ==> ToDo(Run(s, actions), num) || NumBegun(Run(s, actions), num)
  {
    if actions != [] {
      hide Inv, HintsExact, NumBegun, Step;
      var n := |actions| - 1;
      var front, a := actions[..n], actions[n];
      EnteredKept(s, front, num);
      RunInv(s, front);
      HintsStep(Run(s, front), Pre(s), a);
      if Entered(front, num) {
        ToDoStep(Run(s, front), Pre(s), a, num);
      } else if Entered(actions, num) {
        var i :| 0 <= i < |actions| && actions[i].Enter? && num in actions[i].list;
        assert forall j :: 0 <= j < n ==> front[j] == actions[j];
        assert i == n;
        NewlyEntered(Run(s, front), a, num);
      }
    }
  }

  lemma NewlyEntered(s: System, a: Action, num: ImageNum)
    requires Enabled(s, a) && a.Enter? && num in a.list
    ensures ToDo(Step(s, a), num)
  {
    var r := Step(s, a);
    assert r.threads[a.t][|s.threads[a.t]|].todo == a.list;
  }

  /** Once no runner is active any more, the image of every number of every list entered is loaded and
      initialized, and no image is still being initialized. */
  lemma ListsInited(s: System, actions: seq<Action>, i: nat, num: ImageNum)
    requires Initial(s) && CanRun(s, actions)
    requires forall t :: 0 <= t < |Run(s, actions).threads| ==> Run(s, actions).threads[t] == []
    requires i < |actions| && actions[i].Enter? && num in actions[i].list
    ensures var r := Run(s, actions);
            var k := Locate(r.images, Key, num);
            k < |r.images| && r.images[k].state == Inited
    ensures forall k :: 0 <= k < |Run(s, actions).images| ==> Run(s, actions).images[k].state != BeingInited
  {
    hide Step, HistoryOk, Locate;
    assert Entered(actions, num);
    EnteredKept(s, actions, num);
    RunInv(s, actions);
    var r := Run(s, actions);
    assert forall t: nat, d: nat, k: nat :: !RunningAt(r, t, d, k);
    assert forall k: nat :: !InState(r, k, BeingInited);
    forall k | 0 <= k < |r.images| ensures r.images[k].state != BeingInited {
      assert !InState(r, k, BeingInited);
    }
  }

  /** The j-th action ends an activation's stay inside the initializers of the image at `k`. */
  predicate FinishedRunning(s: System, actions: seq<Action>, j: nat, k: nat)
  {
    && j < |actions| && actions[j].Finish? && CanRun(s, actions[..j])
    && var r, t := Run(s, actions[..j]), actions[j].t;
       t < |r.threads| && r.threads[t] != [] && RunningAt(r, t, |r.threads[t]| - 1, k)
  }

  /** An image gets initialized only by an activation that was inside its initializers. */
  lemma {:induction false} InitedByRunner(s: System, actions: seq<Action>, k: nat)
    requires Initial(s) && CanRun(s, actions)
    requires InState(Run(s, actions), k, Inited) && !InState(s, k, Inited)
    ensures exists j: nat :: FinishedRunning(s, actions, j, k)
  {
    hide HistoryOk, Locate, Represents;
    var n := |actions| - 1;
    var front, a := actions[..n], actions[n];
    var r := Run(s, front);
    RunInv(s, front);
    if InState(r, k, Inited) {
      InitedByRunner(s, front, k);
      var j: nat :| FinishedRunning(s, front, j, k);
      assert front[..j] == actions[..j] && FinishedRunning(s, actions, j, k);
    } else {
      OnlyFinishInits(r, a, k);
      FinishFinds(r, a.t);
      assert FinishedRunning(s, actions, n, k);
    }
  }

  lemma OnlyFinishInits(s: System, a: Action, k: nat)
    requires Enabled(s, a) && !InState(s, k, Inited) && InState(Step(s, a), k, Inited)
    ensures a.Finish? && k == Found(s, Top(s, a.t))
  {
    hide Locate, Represents;
  }

  /** Whatever a run has come to, a thread that is not inside initializers can look at a list, and an active
      runner can take its next step unless the image it wants is not loaded. */
  lemma NeverStuck(s: System, actions: seq<Action>, t: nat)
    requires Initial(s) && CanRun(s, actions) && t < |Run(s, actions).threads|
    ensures var r := Run(s, actions);
            && (r.threads[t] == [] || r.threads[t][|r.threads[t]| - 1].phase == Running ==>
                  forall list :: CanRun(s, actions + [Enter(t, list)]))
            && (forall li: LoadedImage :: li.state == FixedUp ==> CanRun(s, actions + [Load(li)]))
            && (r.threads[t] != [] ==>
                  var f := r.threads[t][|r.threads[t]| - 1];
                  || (f.todo != [] && forall k :: 0 <= k < |r.images| ==> !Represents(Key(r.images[k]), f.todo[0]))
                  || CanRun(s, actions + [Look(t)]) || CanRun(s, actions + [Claim(t)])
                  || CanRun(s, actions + [Finish(t)]) || CanRun(s, actions + [Leave(t)]))
  {
    hide Represents, Locate, Step;
    EnteredKept(s, actions, 0);
    var r := Run(s, actions);
    forall a | Enabled(r, a) ensures CanRun(s, actions + [a]) {
      assert (actions + [a])[..|actions + [a]| - 1] == actions;
    }
    if r.threads[t] != [] {
      var f := r.threads[t][|r.threads[t]| - 1];
      assert f == Top(r, t) && HintExact(r, f);
      if f.todo != [] { FoundByScan(r, f); }
    }
  }
}
