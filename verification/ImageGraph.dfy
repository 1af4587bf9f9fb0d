/** The images known to the closure builder, their links, and reachability over downward links. */
module ImageGraph {
  type ImageNum = n: int | 0 <= n < 0x1_0000_0000

  const MISSING_WEAK_LINKED_IMAGE: ImageNum := 0x0FFF_FFFF

  datatype LinkKind = Regular | Weak | Upward | ReExport

  datatype LinkedImage = LinkedImage(kind: LinkKind, imageNum: ImageNum)

  datatype BuilderImage = BuilderImage(
    imageNum: ImageNum, overrideImageNum: ImageNum, dependents: seq<LinkedImage>, hasInits: bool, isBadImage: bool)

  type Graph = seq<BuilderImage>

  /** The first image with this number, else the first image overriding it; the length when neither exists. */
  function FindByNum(g: Graph, num: ImageNum): (k: nat)
    ensures k <= |g| && (k < |g| ==> g[k].imageNum == num)
    ensures forall j :: 0 <= j < k ==> g[j].imageNum != num
  {
    if g == [] || g[0].imageNum == num then 0 else 1 + FindByNum(g[1..], num)
  }

  function FindByOverride(g: Graph, num: ImageNum): (k: nat)
    ensures k <= |g| && (k < |g| ==> g[k].overrideImageNum == num)
    ensures forall j :: 0 <= j < k ==> g[j].overrideImageNum != num
  {
    if g == [] || g[0].overrideImageNum == num then 0 else 1 + FindByOverride(g[1..], num)
  }

  function FindLoaded(g: Graph, num: ImageNum): (k: nat)
    ensures k <= |g|
  {
    if FindByNum(g, num) < |g| then FindByNum(g, num) else FindByOverride(g, num)
  }

  /** An image of that number is found before any image that overrides it, and the first of its kind. */
  lemma LoadedFirst(g: Graph, num: ImageNum)
    ensures var k := FindLoaded(g, num);
            && (k == |g| <==> forall j :: 0 <= j < |g| ==> g[j].imageNum != num && g[j].overrideImageNum != num)
            && (k < |g| && g[k].imageNum == num ==> forall j :: 0 <= j < k ==> g[j].imageNum != num)
            && (k < |g| && g[k].imageNum != num ==>
                  && g[k].overrideImageNum == num
                  && (forall j :: 0 <= j < |g| ==> g[j].imageNum != num)
                  && (forall j :: 0 <= j < k ==> g[j].overrideImageNum != num))
  {
    var k := FindByNum(g, num);
    assert k < |g| ==> g[k].imageNum == num;
  }

  /** Every link except a missing weak one resolves to a loaded image; the lookup asserts it. */
  predicate Linked(g: Graph)
  {
    forall i, k :: 0 <= i < |g| && 0 <= k < |g[i].dependents| ==> Resolves(g, g[i].dependents[k])
  }

  predicate Resolves(g: Graph, d: LinkedImage)
  {
    d.imageNum != MISSING_WEAK_LINKED_IMAGE ==> FindLoaded(g, d.imageNum) < |g|
  }

  /** Image `u` has a present link of the given direction to image `v`. */
  predicate LinksTo(g: Graph, u: nat, v: nat, upward: bool)
  {
    u < |g| && exists k :: 0 <= k < |g[u].dependents| && IsLink(g, g[u].dependents[k], v, upward)
  }

  predicate IsLink(g: Graph, d: LinkedImage, v: nat, upward: bool)
  {
    d.imageNum != MISSING_WEAK_LINKED_IMAGE && FindLoaded(g, d.imageNum) == v && v < |g| && d.kind.Upward? == upward
  }

  /** Links of all kinds count, and only missing weak ones lead nowhere. */
  lemma LinksExactly(g: Graph, u: nat, v: nat, upward: bool)
    requires Linked(g) && u < |g|
    ensures LinksTo(g, u, v, upward) <==>
            exists k :: 0 <= k < |g[u].dependents| && g[u].dependents[k].imageNum != 0x0FFF_FFFF
              && (upward <==> g[u].dependents[k].kind == Upward) && v == FindLoaded(g, g[u].dependents[k].imageNum)
  {
    if k :| 0 <= k < |g[u].dependents| && g[u].dependents[k].imageNum != 0x0FFF_FFFF
            && (upward <==> g[u].dependents[k].kind == Upward) && v == FindLoaded(g, g[u].dependents[k].imageNum) {
      assert Resolves(g, g[u].dependents[k]);
      assert IsLink(g, g[u].dependents[k], v, upward);
    }
  }

  /** A chain of non-upward links. */
  predicate Path(g: Graph, p: seq<nat>)
  {
    && p != []
    && (forall i :: 0 <= i < |p| ==> p[i] < |g|)
    && forall i :: 0 < i < |p| ==> LinksTo(g, p[i - 1], p[i], false)
  }

  ghost predicate Reaches(g: Graph, u: nat, v: nat)
  {
    exists p :: Path(g, p) && p[0] == u && p[|p| - 1] == v
  }

  lemma ReachesSelf(g: Graph, u: nat)
    requires u < |g|
    ensures Reaches(g, u, u)
  {
    assert Path(g, [u]);
  }

  lemma ReachesStep(g: Graph, u: nat, v: nat, w: nat)
    requires Reaches(g, u, v) && LinksTo(g, v, w, false) && w < |g|
    ensures Reaches(g, u, w)
  {
    var p :| Path(g, p) && p[0] == u && p[|p| - 1] == v;
    assert Path(g, p + [w]);
  }

  lemma StepReaches(g: Graph, u: nat, v: nat, w: nat)
    requires LinksTo(g, u, v, false) && Reaches(g, v, w)
    ensures Reaches(g, u, w)
  {
    var p :| Path(g, p) && p[0] == v && p[|p| - 1] == w;
    var q := [u] + p;
    assert forall i :: 0 < i < |q| ==> q[i] == p[i - 1];
    assert Path(g, q);
  }

  /** A set closed under downward links contains everything reachable from its members. */
  lemma {:induction false} ClosedContainsReachable(g: Graph, s: set<nat>, u: nat, v: nat)
    requires forall a, b :: a in s && LinksTo(g, a, b, false) ==> b in s
    requires u in s && Reaches(g, u, v)
    ensures v in s
  {
    var p :| Path(g, p) && p[0] == u && p[|p| - 1] == v;
    PathStaysInside(g, s, p);
  }

  lemma {:induction false} PathStaysInside(g: Graph, s: set<nat>, p: seq<nat>)
    requires forall a, b :: a in s && LinksTo(g, a, b, false) ==> b in s
    requires Path(g, p) && p[0] in s
    ensures p[|p| - 1] in s
  {
    if |p| > 1 {
      var q := p[..|p| - 1];
      assert Path(g, q);
      PathStaysInside(g, s, q);
    }
  }
}
