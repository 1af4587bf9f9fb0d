/** Running a prebuilt initializer list over the loaded images of a process. */
module RunInitializers {
  import opened Wrappers
  import opened ImageGraph
  import opened ImageLookup
  import opened InitOrder
  import opened Selection
  import opened InitOrderProofs
  import opened InitCoverage
  import opened InitList

  datatype State = Unmapped | Mapped | FixedUp | BeingInited | Inited

  datatype LoadedImage = LoadedImage(imageNum: ImageNum, overrideOf: Option<ImageNum>, state: State)

  function Key(li: LoadedImage): ImageKey { ImageKey(li.imageNum, li.overrideOf) }

  predicate AllLoaded(images: seq<LoadedImage>, nums: seq<ImageNum>)
  {
    forall k :: 0 <= k < |nums| ==> Locate(images, Key, nums[k]) < |images|
  }

  /** Where the listed images are among the loaded ones. */
  function Indices(images: seq<LoadedImage>, nums: seq<ImageNum>): (s: seq<nat>)
    ensures |s| == |nums| && forall k :: 0 <= k < |s| ==> s[k] == Locate(images, Key, nums[k])
  {
    seq(|nums|, k requires 0 <= k < |nums| => Locate(images, Key, nums[k]))
  }

  function States(images: seq<LoadedImage>): (s: seq<State>)
    ensures |s| == |images| && forall k :: 0 <= k < |s| ==> s[k] == images[k].state
  {
    seq(|images|, k requires 0 <= k < |images| => images[k].state)
  }

  // ----- the run as a function of the image states -------------------------------------------

  /** One start of an image's initializers: the image, and the states the initializers find. */
  datatype Start = Start(at: nat, states: seq<State>)

  datatype Process = Process(states: seq<State>, starts: seq<Start>)

  predicate InRange(ps: Process, at: seq<nat>)
  {
    forall k :: 0 <= k < |at| ==> at[k] < |ps.states|
  }

  /** One list entry, with initializers that neither load images nor start threads. */
  function InitOne(ps: Process, at: nat): (r: Process)
    requires at < |ps.states|
    ensures |r.states| == |ps.states|
  {
    if ps.states[at] != FixedUp then ps
    else
      var claimed := ps.states[at := BeingInited];
      Process(claimed[at := Inited], ps.starts + [Start(at, claimed)])
  }

  function RunAll(ps: Process, at: seq<nat>): (r: Process)
    requires InRange(ps, at)
    ensures |r.states| == |ps.states|
  {
    if at == [] then ps else InitOne(RunAll(ps, at[..|at| - 1]), at[|at| - 1])
  }

  // ----- the runtime's methods ------------------------------------------------------------

  class AllImages {
    var loadedImages: seq<LoadedImage>
    /** Observable history: which initializers started, and what they found. */
    var starts: seq<Start>

    function Value(): Process
      reads this
    {
      Process(States(loadedImages), starts)
    }

    constructor (images: seq<LoadedImage>)
      ensures loadedImages == images && starts == []
    {
      loadedImages, starts := images, [];
    }

    /** Tries the hint first; otherwise scans. */
    method FindImageNum(num: ImageNum, hint: nat) returns (index: nat)
      requires Locate(loadedImages, Key, num) < |loadedImages|
      ensures index < |loadedImages| && Represents(Key(loadedImages[index]), num)
      ensures index == if hint < |loadedImages| && Represents(Key(loadedImages[hint]), num) then hint
                       else Locate(loadedImages, Key, num)
      ensures loadedImages[index].imageNum == num || loadedImages[index].overrideOf == Some(num)
      ensures index == hint || forall j :: 0 <= j < index ==>
                loadedImages[j].imageNum != num && loadedImages[j].overrideOf != Some(num)
    {
      if hint < |loadedImages| && Represents(Key(loadedImages[hint]), num) { return hint; }
      index := 0;
      while !Represents(Key(loadedImages[index]), num)
        invariant index <= Locate(loadedImages, Key, num)
        decreases Locate(loadedImages, Key, num) - index
      {
        index := index + 1;
      }
    }

    /** Changes the state only if it is the expected one. */
    method SwapImageState(num: ImageNum, hint: nat, expected: State, next: State) returns (swapped: bool, index: nat)
      requires Locate(loadedImages, Key, num) < |loadedImages|
      modifies this`loadedImages
      ensures index < |old(loadedImages)| && Represents(Key(old(loadedImages)[index]), num)
      ensures index == if hint < |old(loadedImages)| && Represents(Key(old(loadedImages)[hint]), num) then hint
                       else Locate(old(loadedImages), Key, num)
      ensures old(loadedImages)[index].imageNum == num || old(loadedImages)[index].overrideOf == Some(num)
      ensures swapped == (old(loadedImages)[index].state == expected)
      ensures loadedImages == if swapped then old(loadedImages)[index := old(loadedImages)[index].(state := next)]
                              else old(loadedImages)
    {
      index := FindImageNum(num, hint);
      swapped := loadedImages[index].state == expected;
      if swapped {
        loadedImages := loadedImages[index := loadedImages[index].(state := next)];
      }
    }

    /** One entry of the list: claim the image, run its initializers, mark it initialized. */
    method InitImage(num: ImageNum)
      requires Locate(loadedImages, Key, num) < |loadedImages|
      modifies this
      ensures SameNumbers(loadedImages, old(loadedImages))
      ensures Value() == InitOne(old(Value()), Locate(old(loadedImages), Key, num))
    {
      hide Represents, Locate, Key;
      ghost var before := loadedImages;
      var indexHint := FindImageNum(num, 0);
      assert indexHint == Locate(before, Key, num);
      var copy := loadedImages[indexHint];
      if copy.state == FixedUp {
        var claimed, hint := SwapImageState(num, indexHint, FixedUp, BeingInited);
        if claimed {
          starts := starts + [Start(hint, States(loadedImages))];
          assert States(loadedImages) == States(before)[hint := BeingInited];
          SameNumbersLocate(loadedImages, before, num);
          var finished, last := SwapImageState(num, hint, BeingInited, Inited);
          assert States(loadedImages) == States(before)[hint := BeingInited][hint := Inited];
        }
      }
    }

    method RunInitializersBottomUp(nums: seq<ImageNum>)
      requires AllLoaded(loadedImages, nums)
      modifies this
      ensures SameNumbers(loadedImages, old(loadedImages))
      ensures Value() == RunAll(old(Value()), Indices(old(loadedImages), nums))
    {
      ghost var at := Indices(loadedImages, nums);
      for k := 0 to |nums|
        invariant SameNumbers(loadedImages, old(loadedImages))
        invariant Value() == RunAll(old(Value()), at[..k])
      {
        assert at[..k + 1][..k] == at[..k];
        SameNumbersLocate(loadedImages, old(loadedImages), nums[k]);
        InitImage(nums[k]);
      }
      assert at[..|nums|] == at;
    }
  }

  /** The images answer to the same numbers; only states may differ. */
  predicate SameNumbers(a: seq<LoadedImage>, b: seq<LoadedImage>)
  {
    |a| == |b| && forall k :: 0 <= k < |a| ==> a[k].imageNum == b[k].imageNum && a[k].overrideOf == b[k].overrideOf
  }

  lemma {:induction false} SameNumbersLocate(a: seq<LoadedImage>, b: seq<LoadedImage>, num: ImageNum)
    requires SameNumbers(a, b)
    ensures Locate(a, Key, num) == Locate(b, Key, num)
  {
    if a != [] { SameNumbersLocate(a[1..], b[1..], num); }
  }

  // ----- what a run over a list does ---------------------------------------------------------

  /** The listed images are distinct and either fixed up or already initialized. */
  predicate Ready(states: seq<State>, at: seq<nat>)
  {
    && (forall k :: 0 <= k < |at| ==> at[k] < |states| && states[at[k]] in {FixedUp, Inited})
    && (forall j, k :: 0 <= j < k < |at| ==> at[j] != at[k])
  }

  /** The entries of the list that still need initializing, in order. */
  function Pending(states: seq<State>, at: seq<nat>): seq<nat>
    requires forall k :: 0 <= k < |at| ==> at[k] < |states|
  {
    if at == [] then [] else
    var n := |at| - 1;
    Pending(states, at[..n]) + if states[at[n]] == FixedUp then [at[n]] else []
  }

  function Started(starts: seq<Start>): (s: seq<nat>)
    ensures |s| == |starts| && forall k :: 0 <= k < |s| ==> s[k] == starts[k].at
  {
    seq(|starts|, k requires 0 <= k < |starts| => starts[k].at)
  }

  /** `start` is of the k-th list entry, already claimed, and found all earlier entries initialized. */
  predicate FoundEarlierInited(at: seq<nat>, start: Start, k: nat)
  {
    && k < |at| && start.at == at[k] && start.at < |start.states| && start.states[start.at] == BeingInited
    && forall j :: 0 <= j < k ==> at[j] < |start.states| && start.states[at[j]] == Inited
  }

  ghost predicate RunEffect(states: seq<State>, at: seq<nat>, r: Process)
    requires forall k :: 0 <= k < |at| ==> at[k] < |states|
  {
    && |r.states| == |states|
    && (forall k :: 0 <= k < |at| ==> r.states[at[k]] == Inited)
    && (forall i :: 0 <= i < |states| && i !in at ==> r.states[i] == states[i])
    && Started(r.starts) == Pending(states, at)
    && (forall e :: e in r.starts ==> exists k: nat :: FoundEarlierInited(at, e, k))
  }

  lemma EffectStep(states: seq<State>, at: seq<nat>, r: Process)
    requires Ready(states, at) && at != [] && RunEffect(states, at[..|at| - 1], r)
    ensures RunEffect(states, at, InitOne(r, at[|at| - 1]))
  {
    var n := |at| - 1;
    var front, now := at[..n], InitOne(r, at[n]);
    assert at[n] !in front && forall k :: 0 <= k < n ==> front[k] == at[k];
    assert r.states[at[n]] == states[at[n]];
    assert Started(now.starts) == Started(r.starts) + if states[at[n]] == FixedUp then [at[n]] else [];
    forall e | e in now.starts ensures exists k: nat :: FoundEarlierInited(at, e, k) {
      if e in r.starts {
        var k: nat :| FoundEarlierInited(front, e, k);
        FoundInLonger(at, n, e, k);
      } else {
        assert e == Start(at[n], r.states[at[n] := BeingInited]);
        assert FoundEarlierInited(at, e, n);
      }
    }
  }

  lemma FoundInLonger(at: seq<nat>, n: nat, e: Start, k: nat)
    requires n <= |at| && FoundEarlierInited(at[..n], e, k)
    ensures FoundEarlierInited(at, e, k)
  {
    assert forall j :: 0 <= j < n ==> at[..n][j] == at[j];
  }

  /** A run initializes every listed image, touches no other, starts exactly the pending ones in list
      order, each once, and each start finds every earlier entry of the list initialized. */
  lemma {:induction false} RunAllEffect(states: seq<State>, at: seq<nat>)
    requires Ready(states, at)
    ensures RunEffect(states, at, RunAll(Process(states, []), at))
  {
    if at != [] {
      hide RunEffect, InitOne;
      RunAllEffect(states, at[..|at| - 1]);
      EffectStep(states, at, RunAll(Process(states, []), at[..|at| - 1]));
    }
  }

  predicate MustStart(states: seq<State>, at: nat) { at < |states| && states[at] == FixedUp }

  function Flags(states: seq<State>, at: seq<nat>): (keep: seq<bool>)
    ensures |keep| == |at| && forall k :: 0 <= k < |at| ==> (keep[k] <==> MustStart(states, at[k]))
  {
    seq(|at|, k requires 0 <= k < |at| => MustStart(states, at[k]))
  }

  lemma {:induction false} PendingPlaces(states: seq<State>, at: seq<nat>) returns (places: seq<nat>)
    requires forall k :: 0 <= k < |at| ==> at[k] < |states|
    ensures TakenFrom(at, Pending(states, at), places) && Flagged(Flags(states, at), places)
  {
    if at == [] {
      places := [];
    } else {
      hide TakenFrom, Flagged;
      var n := |at| - 1;
      places := PendingPlaces(states, at[..n]);
      TakeOneMore(at[..n], Pending(states, at[..n]), places, at[n], Flags(states, at[..n]));
      assert at[..n] + [at[n]] == at;
      assert Flags(states, at[..n]) + [MustStart(states, at[n])] == Flags(states, at);
      if states[at[n]] == FixedUp {
        places := places + [n];
      } else {
        assert Pending(states, at[..n]) + [] == Pending(states, at[..n]);
      }
    }
  }

  /** The starts are the list entries that were fixed up, in list order, and none is left out. */
  lemma StartsExactly(states: seq<State>, at: seq<nat>) returns (places: seq<nat>)
    requires Ready(states, at)
    ensures var starts := RunAll(Process(states, []), at).starts;
            && |places| == |starts| && (forall i, j :: 0 <= i < j < |places| ==> places[i] < places[j])
            && (forall i :: 0 <= i < |places| ==> places[i] < |at| && starts[i].at == at[places[i]])
    ensures forall k: nat :: k < |at| ==> (states[at[k]] == FixedUp <==> k in places)
  {
    hide Pending, RunAll;
    RunAllEffect(states, at);
    places := PendingPlaces(states, at);
    assert Started(RunAll(Process(states, []), at).starts) == Pending(states, at);
    assert forall k :: 0 <= k < |at| ==> (Flags(states, at)[k] <==> states[at[k]] == FixedUp);
  }

  // ----- order and run together ---------------------------------------------------------------

  /** Where the images of a builder's order are among the loaded ones. */
  function Listed(g: Graph, images: seq<LoadedImage>, order: seq<nat>): (at: seq<nat>)
    requires forall k :: 0 <= k < |order| ==> order[k] < |g|
    ensures |at| == |order| && forall k :: 0 <= k < |at| ==> at[k] == Locate(images, Key, g[order[k]].imageNum)
  {
    Indices(images, ImageNums(g, order))
  }

  /** The state that the initializers of `start` found for image `v`. */
  predicate FoundInited(g: Graph, images: seq<LoadedImage>, start: Start, v: nat)
    requires v < |g|
  {
    var k := Locate(images, Key, g[v].imageNum);
    k < |start.states| && start.states[k] == Inited
  }

  lemma EarlierInOrder(g: Graph, w: Walk, order: seq<nat>, u: nat, v: nat) returns (k: nat)
    requires |w.infos| == |g| && Emits(g, w, order) && u < |order| && v in order
    requires Order(w, v) < Order(w, order[u])
    ensures k < u && order[k] == v
  {
    k :| 0 <= k < |order| && order[k] == v;
    assert forall m :: u < m < |order| ==> Order(w, order[u]) < Order(w, order[m]);
  }

  /** Image `u` starts only after every image with initializers that it links to downward and that
      does not lead back to it. */
  ghost predicate AfterItsDependents(g: Graph, images: seq<LoadedImage>, start: Start, u: nat)
    requires u < |g|
  {
    start.at == Locate(images, Key, g[u].imageNum)
    && forall v: nat :: v < |g| && LinksTo(g, u, v, false) && g[v].hasInits && !Reaches(g, v, u) ==>
         FoundInited(g, images, start, v)
  }

  /** Building the order of an image and then running it: when an image's initializers start, every image
      it links to downward that has initializers and does not lead back to it is already initialized. */
  lemma DependentsInitedFirst(g: Graph, top: nat, order: seq<nat>, images: seq<LoadedImage>)
    requires Succeeds(g, top)
    requires Emits(g, FullWalk(g, top), order) && Ready(States(images), Listed(g, images, order))
    ensures var r := RunAll(Process(States(images), []), Listed(g, images, order));
            forall e :: e in r.starts ==> exists u: nat :: u in order && AfterItsDependents(g, images, e, u)
  {
    hide FullWalk, Reaches, LinksTo;
    var at := Listed(g, images, order);
    RunAllEffect(States(images), at);
    var r := RunAll(Process(States(images), []), at);
    forall e | e in r.starts ensures exists u: nat :: u in order && AfterItsDependents(g, images, e, u) {
      var k: nat :| FoundEarlierInited(at, e, k);
      var u := order[k];
      assert u in order;
      forall v: nat | v < |g| && LinksTo(g, u, v, false) && g[v].hasInits && !Reaches(g, v, u)
        ensures FoundInited(g, images, e, v)
      {
        DependentsFirst(g, top, u, v);
        var j := EarlierInOrder(g, FullWalk(g, top), order, k, v);
        assert at[j] == Locate(images, Key, g[v].imageNum);
      }
      assert AfterItsDependents(g, images, e, u);
    }
  }

  /** Every image reachable downward from the top that has initializers is initialized by the run. */
  lemma ReachableInited(g: Graph, top: nat, order: seq<nat>, images: seq<LoadedImage>, v: nat)
    requires Succeeds(g, top)
    requires Emits(g, FullWalk(g, top), order) && Ready(States(images), Listed(g, images, order))
    requires v < |g| && Reaches(g, top, v) && g[v].hasInits
    ensures var r := RunAll(Process(States(images), []), Listed(g, images, order));
            var k := Locate(images, Key, g[v].imageNum);
            k < |r.states| && r.states[k] == Inited
  {
    hide FullWalk, Reaches;
    TopCovered(g, top, v);
    RunAllEffect(States(images), Listed(g, images, order));
    assert v in order;
    var k :| 0 <= k < |order| && order[k] == v;
    assert Listed(g, images, order)[k] == Locate(images, Key, g[v].imageNum);
  }
}
