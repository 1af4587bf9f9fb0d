/** What is kept of a sequence, told by the places it was taken from. */
module Selection {
  /** `r` holds what stands at the places `at` of `s`, in order. */
  ghost predicate TakenFrom<T>(s: seq<T>, r: seq<T>, at: seq<nat>)
  {
    && |at| == |r|
    && (forall i, j :: 0 <= i < j < |at| ==> at[i] < at[j])
    && (forall i :: 0 <= i < |at| ==> at[i] < |s| && r[i] == s[at[i]])
  }

  /** The places are exactly those flagged. */
  predicate Flagged(keep: seq<bool>, at: seq<nat>)
  {
    forall k: nat :: k < |keep| ==> (keep[k] <==> k in at)
  }

  lemma TakeOneMore<T>(s: seq<T>, r: seq<T>, at: seq<nat>, x: T, keep: seq<bool>)
    requires TakenFrom(s, r, at) && Flagged(keep, at) && |keep| == |s|
    ensures TakenFrom(s + [x], r + [x], at + [|s|]) && Flagged(keep + [true], at + [|s|])
    ensures TakenFrom(s + [x], r, at) && Flagged(keep + [false], at)
  {
    var all, at', keep' := s + [x], at + [|s|], keep + [true];
    assert forall k :: 0 <= k < |s| ==> all[k] == s[k];
    assert at'[|at|] == |s|;
    forall k: nat | k < |keep'|
      ensures keep'[k] <==> k in at'
    {
      if k < |s| { assert keep'[k] == keep[k]; }
    }
  }

  function MovedUp(at: seq<nat>): (r: seq<nat>)
    ensures |r| == |at| && forall i :: 0 <= i < |r| ==> r[i] == at[i] + 1
  {
    seq(|at|, i requires 0 <= i < |at| => at[i] + 1)
  }

  lemma MovedUpHas(at: seq<nat>, k: nat)
    ensures k in MovedUp(at) <==> k > 0 && k - 1 in at
  {
    if k > 0 && k - 1 in at {
      var i :| 0 <= i < |at| && at[i] == k - 1;
      assert MovedUp(at)[i] == k;
    }
  }

  lemma TakeOneBefore<T>(s: seq<T>, r: seq<T>, at: seq<nat>, x: T, keep: seq<bool>)
    requires TakenFrom(s, r, at) && Flagged(keep, at) && |keep| == |s|
    ensures TakenFrom([x] + s, [x] + r, [0] + MovedUp(at)) && Flagged([true] + keep, [0] + MovedUp(at))
    ensures TakenFrom([x] + s, r, MovedUp(at)) && Flagged([false] + keep, MovedUp(at))
  {
    TakenBefore(s, r, at, x);
    hide TakenFrom;
    forall k: nat | k < 1 + |keep|
      ensures k in MovedUp(at) <==> k > 0 && keep[k - 1]
    {
      MovedUpHas(at, k);
    }
  }

  lemma TakenBefore<T>(s: seq<T>, r: seq<T>, at: seq<nat>, x: T)
    requires TakenFrom(s, r, at)
    ensures TakenFrom([x] + s, [x] + r, [0] + MovedUp(at)) && TakenFrom([x] + s, r, MovedUp(at))
  {
  }
}
