/** The emitted initializer list: visited images with initializers, sorted by order. */
module InitList {
  import opened Wrappers
  import opened ImageGraph
  import opened InitOrder
  import opened InitOrderProofs
  import opened InitCoverage

  /** `order` lists exactly the entered images with initializers, by increasing order. */
  predicate Emits(g: Graph, w: Walk, order: seq<nat>)
    requires |w.infos| == |g|
  {
    && (forall k :: 0 <= k < |order| ==> order[k] < |g|)
    && (forall i: nat :: i < |g| ==> (i in order <==> Seen(w, i) && g[i].hasInits))
    && (forall j, k :: 0 <= j < k < |order| ==> Order(w, order[j]) < Order(w, order[k]))
  }

  function ImageNums(g: Graph, order: seq<nat>): (nums: seq<ImageNum>)
    requires forall k :: 0 <= k < |order| ==> order[k] < |g|
    ensures |nums| == |order| && forall k :: 0 <= k < |order| ==> nums[k] == g[order[k]].imageNum
  {
    seq(|order|, k requires 0 <= k < |order| => g[order[k]].imageNum)
  }

  // ----- bubble sort ----------------------------------------------------------------------

  predicate InRange(infos: seq<InitInfo>, s: seq<nat>)
  {
    forall k :: 0 <= k < |s| ==> s[k] < |infos|
  }

  /** The positions from `n` on are in order among themselves and after everything before them. */
  predicate Settled(infos: seq<InitInfo>, s: seq<nat>, n: nat)
    requires InRange(infos, s)
  {
    forall j, k :: 0 <= j < k < |s| && n <= k ==> infos[s[j]].initOrder <= infos[s[k]].initOrder
  }

  /** No earlier position holds a larger order than position `j`. */
  predicate LargestAt(infos: seq<InitInfo>, s: seq<nat>, j: nat)
    requires InRange(infos, s) && j < |s|
  {
    forall k :: 0 <= k < j ==> infos[s[k]].initOrder <= infos[s[j]].initOrder
  }

  function Swapped(s: seq<nat>, j: nat): (t: seq<nat>)
    requires j + 1 < |s|
  {
    s[j := s[j + 1]][j + 1 := s[j]]
  }

  lemma SwapKeeps(infos: seq<InitInfo>, s: seq<nat>, j: nat, n: nat)
    requires InRange(infos, s) && j + 1 < n <= |s| && Settled(infos, s, n) && LargestAt(infos, s, j)
    requires infos[s[j]].initOrder > infos[s[j + 1]].initOrder
    ensures var t := Swapped(s, j);
            InRange(infos, t) && Settled(infos, t, n) && LargestAt(infos, t, j + 1) && multiset(t) == multiset(s)
  {
    var t := Swapped(s, j);
    forall a, b | 0 <= a < b < |t| && n <= b ensures infos[t[a]].initOrder <= infos[t[b]].initOrder {
      assert t[b] == s[b] && (t[a] == s[a] || t[a] == s[j] || t[a] == s[j + 1]);
    }
  }

  lemma SettleMore(infos: seq<InitInfo>, s: seq<nat>, n: nat)
    requires InRange(infos, s) && 0 < n <= |s| && Settled(infos, s, n) && LargestAt(infos, s, n - 1)
    ensures Settled(infos, s, n - 1)
  {
  }

  /** One sweep over the first `n` entries settles position n - 1. */
  method BubblePass(infos: seq<InitInfo>, a: array<nat>, n: nat)
    requires 0 < n <= a.Length && InRange(infos, a[..]) && Settled(infos, a[..], n)
    modifies a
    ensures InRange(infos, a[..]) && multiset(a[..]) == multiset(old(a[..]))
    ensures Settled(infos, a[..], n - 1)
  {
    hide Settled;
    for j := 0 to n - 1
      invariant InRange(infos, a[..]) && multiset(a[..]) == multiset(old(a[..])) && Settled(infos, a[..], n)
      invariant LargestAt(infos, a[..], j)
    {
      ghost var before := a[..];
      assert before[j] == a[j] && before[j + 1] == a[j + 1];
      if infos[a[j]].initOrder > infos[a[j + 1]].initOrder {
        SwapKeeps(infos, before, j, n);
        a[j], a[j + 1] := a[j + 1], a[j];
        assert a[..] == Swapped(before, j);
      }
    }
    SettleMore(infos, a[..], n);
  }

  method BubbleSort(infos: seq<InitInfo>, a: array<nat>)
    requires InRange(infos, a[..])
    modifies a
    ensures InRange(infos, a[..]) && multiset(a[..]) == multiset(old(a[..]))
    ensures Settled(infos, a[..], 0)
  {
    if a.Length > 1 {
      for i := 0 to a.Length - 1
        invariant InRange(infos, a[..]) && multiset(a[..]) == multiset(old(a[..]))
        invariant Settled(infos, a[..], a.Length - i)
      {
        BubblePass(infos, a, a.Length - i);
      }
    }
  }

  // ----- the whole computation ------------------------------------------------------------

  /** The indices, in image order, of the entered images with initializers. */
  method CollectWithInits(g: Graph, infos: seq<InitInfo>) returns (s: seq<nat>)
    requires |infos| == |g|
    ensures forall k :: 0 <= k < |s| ==> s[k] < |g|
    ensures forall i: nat :: i < |g| ==> (i in s <==> infos[i].visited && g[i].hasInits)
    ensures forall j, k :: 0 <= j < k < |s| ==> s[j] < s[k]
  {
    s := [];
    for i := 0 to |g|
      invariant forall k :: 0 <= k < |s| ==> s[k] < i
      invariant forall k: nat :: k < i ==> (k in s <==> infos[k].visited && g[k].hasInits)
      invariant forall j, k :: 0 <= j < k < |s| ==> s[j] < s[k]
    {
      if infos[i].visited && g[i].hasInits {
        s := s + [i];
      }
    }
  }

  /** Sorting distinct images with distinct orders gives a strictly increasing list. */
  lemma SortedEmits(g: Graph, w: Walk, s: seq<nat>, t: seq<nat>)
    requires |w.infos| == |g|
    requires forall k :: 0 <= k < |s| ==> s[k] < |g|
    requires forall i: nat :: i < |g| ==> (i in s <==> w.infos[i].visited && g[i].hasInits)
    requires forall j, k :: 0 <= j < k < |s| ==> s[j] < s[k]
    requires multiset(t) == multiset(s) && InRange(w.infos, t)
    requires Settled(w.infos, t, 0)
    requires Good(g, w) && NoGray(w)
    ensures Emits(g, w, t)
  {
    hide Follows, Marks;
    forall i: nat | i < |g| ensures i in t <==> Seen(w, i) && g[i].hasInits {
      assert i in t <==> i in multiset(t);
      assert i in s <==> i in multiset(s);
    }
    assert forall i: nat :: multiset(s)[i] <= 1 by {
      forall i: nat ensures multiset(s)[i] <= 1 { OnceOnly(s, i); }
    }
    forall j, k | 0 <= j < k < |t| ensures Order(w, t[j]) < Order(w, t[k]) {
      if t[j] == t[k] { TwiceIn(t, j, k); }
      assert t[j] in t && t[k] in t;
      assert Seen(w, t[j]) && Seen(w, t[k]) && !Gray(w, t[j]) && !Gray(w, t[k]);
    }
  }

  lemma {:induction false} OnceOnly(s: seq<nat>, x: nat)
    requires forall j, k :: 0 <= j < k < |s| ==> s[j] < s[k]
    ensures multiset(s)[x] <= 1
  {
    if s != [] {
      var n := |s| - 1;
      OnceOnly(s[..n], x);
      assert s == s[..n] + [s[n]];
      if s[n] == x { assert x !in s[..n]; }
    }
  }

  lemma TwiceIn(t: seq<nat>, j: nat, k: nat)
    requires j < k < |t| && t[j] == t[k]
    ensures multiset(t)[t[j]] >= 2
  {
    assert t == t[..k] + t[k..];
    assert t[j] == t[..k][j] && t[k] == t[k..][0];
    assert t[j] in multiset(t[..k]) && t[j] in multiset(t[k..]);
  }

  /** Two lists emitted for one walk are the same list. */
  lemma {:induction false} EmitsUnique(g: Graph, w: Walk, s: seq<nat>, t: seq<nat>)
    requires |w.infos| == |g| && Emits(g, w, s) && Emits(g, w, t)
    ensures s == t
  {
    EmitsPrefix(g, w, s, t, |s|);
    EmitsPrefix(g, w, t, s, |t|);
  }

  lemma {:induction false} EmitsPrefix(g: Graph, w: Walk, s: seq<nat>, t: seq<nat>, n: nat)
    requires |w.infos| == |g| && Emits(g, w, s) && Emits(g, w, t) && n <= |s|
    ensures n <= |t| && s[..n] == t[..n]
  {
    if n > 0 {
      EmitsPrefix(g, w, s, t, n - 1);
      var m := n - 1;
      assert s[m] in s;
      var k :| 0 <= k < |t| && t[k] == s[m];
      assert forall q :: 0 <= q < m ==> s[..m][q] == s[q] && t[..m][q] == t[q];
      assert k >= m;
      assert t[m] in t;
      var q :| 0 <= q < |s| && s[q] == t[m];
      assert q >= m;
      assert k == m;
      assert s[..n] == s[..m] + [s[m]] && t[..n] == t[..m] + [t[m]];
    }
  }

  /** Computes the initializer order of one image; None marks its closure invalid. */
  method ComputeInitOrder(g: Graph, loadIndex: nat) returns (initNums: Option<seq<ImageNum>>)
    requires Linked(g) && loadIndex < |g| < 0x4000_0000
    ensures initNums.None? <==> FullWalk(g, loadIndex).hasError
    ensures initNums.Some? ==>
              exists order :: Emits(g, FullWalk(g, loadIndex), order) && initNums.value == ImageNums(g, order)
  {
    var initInfos := new InitInfo[|g|](_ => BLANK);
    assert initInfos[..] == seq(|g|, _ => BLANK);
    var initOrder, hasMissingDependent := DepthFirstRecurseSetInitInfo(g, loadIndex, initInfos, 1, false);
    if hasMissingDependent { return None; }
    for i := 0 to |g|
      invariant VisitDangling(g, i, Walk(initInfos[..], initOrder, hasMissingDependent)) == FullWalk(g, loadIndex)
    {
      if !initInfos[i].visited && initInfos[i].danglingUpward {
        initOrder, hasMissingDependent :=
          DepthFirstRecurseSetInitInfo(g, i, initInfos, initOrder, hasMissingDependent);
      }
    }
    if hasMissingDependent { return None; }
    ghost var w := Walk(initInfos[..], initOrder, hasMissingDependent);
    var infos := initInfos[..];
    var collected := CollectWithInits(g, infos);
    var indexOfImagesWithInits := new nat[|collected|](k requires 0 <= k < |collected| => collected[k]);
    assert indexOfImagesWithInits[..] == collected;
    BubbleSort(infos, indexOfImagesWithInits);
    var order := indexOfImagesWithInits[..];
    initNums := Some(ImageNums(g, order));
    FullWalkExact(g, loadIndex);
    SortedEmits(g, w, collected, order);
  }
}
