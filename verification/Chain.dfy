/** The block tree with its skip pointers, and the active chain as a vector of block index entries. */
module Chain {
  import opened Arith

  // ---------------------------------------------------------------------------------------------
  // Skip heights
  // ---------------------------------------------------------------------------------------------

  /** Bitwise and. */
  function And(x: nat, y: nat): nat {
    if x == 0 || y == 0 then 0 else 2 * And(x / 2, y / 2) + (if x % 2 == 1 && y % 2 == 1 then 1 else 0)
  }

  lemma {:induction false} AndSelf(x: nat)
    ensures And(x, x) == x
  {
    if x > 0 {
      AndSelf(x / 2);
    }
  }

  lemma {:induction false} AndPredecessor(n: nat)
    requires n > 0
    ensures And(n, n - 1) < n && (n % 2 == 0 ==> And(n, n - 1) % 2 == 0)
  {
    hide And;
    if n % 2 == 1 {
      AndOdd(n / 2);
    } else {
      AndEven(n / 2);
      AndPredecessor(n / 2);
    }
  }

  lemma AndOdd(k: nat)
    ensures And(2 * k + 1, 2 * k) == 2 * k
  {
    hide And;
    AndHalf(2 * k + 1, 2 * k, k, k);
    AndSelf(k);
  }

  lemma AndHalf(x: nat, y: nat, u: nat, v: nat)
    requires u == x / 2 && v == y / 2
    ensures And(x, y) == 2 * And(u, v) + if x % 2 == 1 && y % 2 == 1 then 1 else 0
  {
  }

  lemma AndEven(k: nat)
    requires k > 0
    ensures And(2 * k, 2 * k - 1) == 2 * And(k, k - 1)
  {
    hide And;
    AndHalf(2 * k, 2 * k - 1, k, k - 1);
  }

  /** Clearing the lowest set bit. */
  function InvertLowestOne(n: nat): (r: nat)
    ensures (n > 0 ==> r < n) && (n % 2 == 0 ==> r % 2 == 0)
  {
    if n == 0 then 0 else AndPredecessor(n); And(n, n - 1)
  }

  /** The height a skip pointer goes back to: always strictly lower. */
  function SkipHeight(height: nat): (r: nat)
    ensures height > 0 ==> r < height
  {
    if height < 2 then 0
    else if height % 2 == 1 then InvertLowestOne(InvertLowestOne(height - 1)) + 1
    else InvertLowestOne(height)
  }

  // ---------------------------------------------------------------------------------------------
  // The block tree
  // ---------------------------------------------------------------------------------------------

  class Block {
    const height: nat
    const prev: Block?
    const skip: Block?
    const timeMax: int

    /** A block linked under `parent`, with its skip pointer built. */
    constructor (parent: Block?, time: int)
      requires parent != null ==> Linked(parent)
      ensures Linked(this) && prev == parent && height == (if parent == null then 0 else parent.height + 1)
      ensures timeMax == if parent != null && parent.timeMax > time then parent.timeMax else time
      ensures skip == if parent == null then null else Ancestor(parent, SkipHeight(height))
    {
      var h, s, t := 0, null, time;
      if parent != null {
        h := parent.height + 1;
        s := GetAncestor(parent, SkipHeight(h));
        if parent.timeMax > t {
          t := parent.timeMax;
        }
      }
      height := h;
      prev := parent;
      skip := s;
      timeMax := t;
    }
  }

  /** Heights count up from a root, and a skip pointer that is set is the ancestor at the skip height. */
  ghost predicate Linked(b: Block)
    decreases b.height, 0
  {
    if b.height == 0 then b.prev == null && b.skip == null
    else
      && b.prev != null && b.prev.height == b.height - 1 && Linked(b.prev) && b.prev.timeMax <= b.timeMax
      && (b.skip != null ==> b.skip == Ancestor(b.prev, SkipHeight(b.height)))
  }

  /** The plain walk along `prev`. */
  ghost function Ancestor(b: Block, h: nat): (a: Block)
    requires Linked(b) && h <= b.height
    ensures a.height == h && Linked(a)
    decreases b.height, 1
  {
    if h == b.height then b else Ancestor(b.prev, h)
  }

  ghost predicate IsAncestor(a: Block, b: Block)
    requires Linked(b)
  {
    a.height <= b.height && Ancestor(b, a.height) == a
  }

  lemma {:induction false} AncestorTwice(b: Block, k: nat, h: nat)
    requires Linked(b) && h <= k <= b.height
    ensures Ancestor(Ancestor(b, k), h) == Ancestor(b, h)
    decreases b.height
  {
    if k < b.height {
      AncestorTwice(b.prev, k, h);
    }
  }

  /** The skip-list walk finds what the plain walk finds. */
  method GetAncestor(b: Block, height: int) returns (a: Block?)
    requires Linked(b)
    ensures a == if 0 <= height <= b.height then Ancestor(b, height) else null
  {
    if height > b.height || height < 0 {
      return null;
    }
    var walk: Block := b;
    var heightWalk := b.height;
    while heightWalk > height
      invariant Linked(walk) && height <= heightWalk == walk.height <= b.height
      invariant Ancestor(walk, height) == Ancestor(b, height)
    {
      var heightSkip, heightSkipPrev := SkipHeight(heightWalk), SkipHeight(heightWalk - 1);
      if walk.skip != null && (heightSkip == height ||
        (heightSkip > height && !(heightSkipPrev < heightSkip - 2 && heightSkipPrev >= height))) {
        AncestorTwice(walk.prev, heightSkip, height);
        walk := walk.skip;
        heightWalk := heightSkip;
      } else {
        walk := walk.prev;
        heightWalk := heightWalk - 1;
      }
    }
    return walk;
  }

  // ---------------------------------------------------------------------------------------------
  // The active chain
  // ---------------------------------------------------------------------------------------------

  /** `chain[h]` is the ancestor at height `h` of the last entry. */
  ghost predicate ChainOf(chain: seq<Block?>, tip: Block) {
    Linked(tip) && |chain| == tip.height + 1 && forall h :: 0 <= h < |chain| ==> chain[h] == Ancestor(tip, h)
  }

  ghost predicate Common(c: Block, a: Block, b: Block)
    requires Linked(a) && Linked(b)
  {
    IsAncestor(c, a) && IsAncestor(c, b)
  }

  /** `r` is the highest common ancestor, or null if there is none. */
  ghost predicate HighestCommon(r: Block?, a: Block, b: Block)
    requires Linked(a) && Linked(b)
  {
    if r == null then forall h :: 0 <= h <= a.height && h <= b.height ==> Ancestor(a, h) != Ancestor(b, h)
    else Common(r, a, b) && forall h :: r.height < h <= a.height && h <= b.height ==> Ancestor(a, h) != Ancestor(b, h)
  }

  /** Once two blocks share an ancestor they share every lower one. */
  lemma SharedBelow(a: Block, b: Block, k: nat, h: nat)
    requires Linked(a) && Linked(b) && h <= k <= a.height && k <= b.height && Ancestor(a, k) == Ancestor(b, k)
    ensures Ancestor(a, h) == Ancestor(b, h)
  {
    AncestorTwice(a, k, h);
    AncestorTwice(b, k, h);
  }

  class ActiveChain {
    var chain: seq<Block?>

    ghost predicate Valid()
      reads this
    {
      chain == [] || (chain[|chain| - 1] != null && ChainOf(chain, chain[|chain| - 1]))
    }

    constructor ()
      ensures Valid() && chain == []
    {
      chain := [];
    }

    function Tip(): (r: Block?)
      reads this
    {
      if |chain| > 0 then chain[|chain| - 1] else null
    }

    function At(h: int): Block?
      reads this
    {
      if h < 0 || h >= |chain| then null else chain[h]
    }

    function Height(): int
      reads this
    {
      |chain| - 1
    }

    predicate Contains(b: Block)
      reads this
    {
      At(b.height) == b
    }

    function Next(b: Block): Block?
      reads this
    {
      if Contains(b) then At(b.height + 1) else null
    }

    /** The vector lookup tells exactly the ancestors of the tip. */
    lemma ContainsIff(b: Block)
      requires Valid() && Linked(b)
      ensures Contains(b) <==> Tip() != null && IsAncestor(b, Tip())
      ensures Next(b) != null ==> Next(b).prev == b
      ensures Next(b) == null <==> !Contains(b) || b == Tip()
    {
      if Contains(b) && b.height + 1 < |chain| {
        AncestorTwice(Tip(), b.height + 1, b.height);
      }
    }

    /** SetTip: overwrite from the new tip down, stopping at the first entry that is already right. */
    method SetTip(tip: Block?)
      requires Valid() && (tip != null ==> Linked(tip))
      modifies this
      ensures Valid() && Tip() == tip
      ensures tip == null ==> chain == []
      ensures tip != null ==> ChainOf(chain, tip)
    {
      if tip == null {
        chain := [];
        return;
      }
      ghost var was := chain;
      chain := Resized(chain, tip.height + 1);
      ghost var sized := chain;
      var p: Block? := tip;
      while p != null && chain[p.height] != p
        invariant |chain| == tip.height + 1
        invariant p != null ==> Linked(p) && p.height <= tip.height && p == Ancestor(tip, p.height)
        invariant forall h :: (if p == null then 0 else p.height + 1) <= h < |chain| ==> chain[h] == Ancestor(tip, h)
        invariant p != null ==> forall h :: 0 <= h <= p.height ==> chain[h] == sized[h]
        decreases if p == null then 0 else p.height + 1
      {
        chain := chain[p.height := p];
        if p.height > 0 {
          AncestorTwice(tip, p.height, p.height - 1);
        }
        p := p.prev;
      }
      if p != null {
        var old' := was[|was| - 1];
        forall h | 0 <= h <= p.height
          ensures chain[h] == Ancestor(tip, h)
        {
          SharedBelow(tip, old', p.height, h);
        }
      }
    }

    /** The last block of this chain that is an ancestor of `b`. */
    method FindFork(b: Block?) returns (r: Block?)
      requires Valid() && (b != null ==> Linked(b))
      ensures b == null || Tip() == null ==> r == null
      ensures b != null && Tip() != null ==> HighestCommon(r, Tip(), b)
    {
      if b == null {
        return null;
      }
      var p: Block? := b;
      if b.height > Height() {
        p := GetAncestor(b, Height());
      }
      while p != null && !Contains(p)
        invariant p != null ==> Linked(p) && p.height <= b.height && p.height <= Height() && p == Ancestor(b, p.height)
        invariant Tip() == null ==> p == null
        invariant Tip() != null ==>
                    forall h :: (if p == null then 0 else p.height + 1) <= h <= b.height && h <= Height() ==>
                      Ancestor(Tip(), h) != Ancestor(b, h)
        decreases if p == null then 0 else p.height + 1
      {
        if p.height > 0 {
          AncestorTwice(b, p.height, p.height - 1);
        }
        p := p.prev;
      }
      return p;
    }

    /** The locator of `b`, or of the tip: ancestors down to the root, thinning out by doubling steps. */
    method GetLocator(b: Block?) returns (have: seq<Block>)
      requires Valid() && (b != null ==> Linked(b))
      ensures b == null && Tip() == null ==> have == []
      ensures b != null || Tip() != null ==> LocatorOf(have, if b == null then Tip() else b)
    {
      have := [];
      var from := if b == null then Tip() else b;
      if from == null {
        return;
      }
      have := ListBack(from);
    }

    method ListBack(start: Block) returns (have: seq<Block>)
      requires Valid() && Linked(start)
      ensures LocatorOf(have, start)
    {
      have := [];
      var p, step := start, 1;
      GapDoubles(0);
      assert HeightAt(start.height, 0) == start.height && Ancestor(start, start.height) == start;
      assert Listed([], start);
      hide Gap, HeightAt, Ancestor, Linked, Listed, LocatorOf;
      while true
        invariant Listed(have, start) && p == Ancestor(start, HeightAt(start.height, |have|)) && step == Gap(|have|)
        decreases p.height
      {
        ghost var n := |have|;
        GapDoubles(n);
        NextHeight(start.height, n);
        ListOne(have, start, p);
        have := have + [p];
        if p.height == 0 {
          break;
        }
        var h := if p.height - step > 0 then p.height - step else 0;
        p := StepBack(p, h, start);
        if |have| > 10 {
          step := step * 2;
        }
      }
    }

    /** The ancestor at height `h`, by the vector when `p` is in the chain and by the skip list otherwise. */
    method StepBack(p: Block, h: nat, ghost start: Block) returns (a: Block)
      requires Valid() && Linked(start) && h <= p.height && IsAncestor(p, start)
      ensures a == Ancestor(start, h)
    {
      AncestorTwice(start, p.height, h);
      if Contains(p) {
        AncestorTwice(Tip(), p.height, h);
        a := At(h);
      } else {
        a := GetAncestor(p, h);
      }
    }

    /** Binary search for the first block late enough and high enough. */
    method FindEarliestAtLeast(time: int, height: int) returns (r: Block?)
      requires Valid()
      ensures r == null ==> forall h :: 0 <= h < |chain| ==> TooEarly(chain[h], time, height)
      ensures r != null ==> Contains(r) && !TooEarly(r, time, height)
      ensures r != null ==> forall h :: 0 <= h < r.height ==> TooEarly(chain[h], time, height)
    {
      var first, count := 0, |chain|;
      while count > 0
        invariant 0 <= first <= first + count <= |chain|
        invariant forall h :: 0 <= h < first ==> TooEarly(chain[h], time, height)
        invariant forall h :: first + count <= h < |chain| ==> !TooEarly(chain[h], time, height)
      {
        var half := count / 2;
        TimesOrdered(Tip(), first + half);
        if TooEarly(chain[first + half], time, height) {
          first := first + half + 1;
          count := count - half - 1;
        } else {
          count := half;
        }
      }
      return if first == |chain| then null else chain[first];
    }
  }

  predicate TooEarly(b: Block?, time: int, height: int) {
    b != null && (b.timeMax < time || b.height < height)
  }

  /** Block times never run backwards along a chain. */
  lemma {:induction false} TimesOrdered(tip: Block, k: nat)
    requires Linked(tip) && k <= tip.height
    ensures forall h :: 0 <= h <= k ==> Ancestor(tip, h).timeMax <= Ancestor(tip, k).timeMax
    ensures forall h :: k <= h <= tip.height ==> Ancestor(tip, k).timeMax <= Ancestor(tip, h).timeMax
  {
    forall h | 0 <= h <= tip.height
      ensures h <= k ==> Ancestor(tip, h).timeMax <= Ancestor(tip, k).timeMax
      ensures h >= k ==> Ancestor(tip, k).timeMax <= Ancestor(tip, h).timeMax
    {
      if h <= k {
        AncestorTwice(tip, k, h);
        AncestorEarlier(Ancestor(tip, k), h);
      } else {
        AncestorTwice(tip, h, k);
        AncestorEarlier(Ancestor(tip, h), k);
      }
    }
  }

  lemma {:induction false} AncestorEarlier(b: Block, h: nat)
    requires Linked(b) && h <= b.height
    ensures Ancestor(b, h).timeMax <= b.timeMax
    decreases b.height
  {
    if h < b.height {
      AncestorEarlier(b.prev, h);
    }
  }

  // ---------------------------------------------------------------------------------------------
  // Locators
  // ---------------------------------------------------------------------------------------------

  /** The step taken after entry `i`. */
  function Gap(i: nat): nat { if i <= 10 then 1 else Pow2(i - 10) }

  lemma GapDoubles(n: nat)
    ensures Gap(0) == 1 && Gap(n) >= 1 && Gap(n + 1) == if n + 1 > 10 then 2 * Gap(n) else Gap(n)
  {
  }

  /** The height of entry `i` of a locator that starts at height `h`. */
  function HeightAt(h: nat, i: nat): (r: nat)
    ensures r <= h
  {
    if i == 0 then h else if HeightAt(h, i - 1) > Gap(i - 1) then HeightAt(h, i - 1) - Gap(i - 1) else 0
  }

  ghost predicate LocatorOf(have: seq<Block>, start: Block)
    requires Linked(start)
  {
    && |have| > 0 && have[0] == start && have[|have| - 1].height == 0
    && (forall j :: 0 <= j < |have| ==> have[j] == Ancestor(start, HeightAt(start.height, j)))
    && (forall j :: 0 <= j < |have| - 1 ==> have[j].height > 0)
  }

  ghost predicate Listed(have: seq<Block>, start: Block)
    requires Linked(start)
  {
    && (forall j :: 0 <= j < |have| ==> have[j] == Ancestor(start, HeightAt(start.height, j)))
    && (forall j :: 0 <= j < |have| ==> have[j].height > 0)
  }

  lemma ListOne(have: seq<Block>, start: Block, p: Block)
    requires Linked(start) && Listed(have, start) && p == Ancestor(start, HeightAt(start.height, |have|))
    ensures IsAncestor(p, start) && p.height == HeightAt(start.height, |have|)
    ensures if p.height > 0 then Listed(have + [p], start) else LocatorOf(have + [p], start)
  {
    assert have == [] ==> HeightAt(start.height, 0) == start.height && Ancestor(start, start.height) == start;
    hide HeightAt, Ancestor, Linked;
    var now := have + [p];
    forall j | 0 <= j < |now|
      ensures now[j] == Ancestor(start, HeightAt(start.height, j))
    {
      assert j == |have| || now[j] == have[j];
    }
  }

  lemma NextHeight(h: nat, n: nat)
    ensures HeightAt(h, n + 1) == if HeightAt(h, n) > Gap(n) then HeightAt(h, n) - Gap(n) else 0
  {
  }

  /** Ten single steps, then the distance from the start doubles. */
  lemma {:induction false} HeightClosed(h: nat, i: nat)
    ensures HeightAt(h, i) == var back := if i <= 10 then i else 9 + Pow2(i - 10); if h > back then h - back else 0
  {
    if i > 0 {
      HeightClosed(h, i - 1);
      if i > 11 {
        assert Pow2(i - 10) == 2 * Pow2(i - 11);
      }
    }
  }

  /** A locator is short: it goes strictly down and has at most 11 + k entries below height two to the k. */
  lemma LocatorShort(have: seq<Block>, start: Block, k: nat)
    requires Linked(start) && LocatorOf(have, start) && start.height < Pow2(k)
    ensures |have| <= 11 + k
    ensures forall j :: 0 <= j < |have| - 1 ==> have[j + 1].height < have[j].height
  {
    forall j | 0 <= j < |have| - 1
      ensures have[j + 1].height < have[j].height
    {
      assert have[j].height == HeightAt(start.height, j);
    }
    if |have| >= 2 {
      var i := |have| - 2;
      HeightClosed(start.height, i);
      assert have[i].height == HeightAt(start.height, i) > 0;
      if i > 10 && i - 10 >= k {
        Pow2Monotone(k, i - 10);
      }
    }
  }

  function Resized(s: seq<Block?>, n: nat): (r: seq<Block?>)
    ensures |r| == n && forall i :: 0 <= i < n ==> r[i] == if i < |s| then s[i] else null
  {
    if n <= |s| then s[..n] else s + seq(n - |s|, i => null)
  }

  /** The highest common ancestor of two blocks of one tree; null exactly for blocks of different trees. */
  method LastCommonAncestor(a: Block, b: Block) returns (r: Block?)
    requires Linked(a) && Linked(b)
    ensures HighestCommon(r, a, b)
    ensures r == null <==> Ancestor(a, 0) != Ancestor(b, 0)
  {
    var pa: Block?, pb: Block? := a, b;
    if a.height > b.height {
      pa := GetAncestor(a, b.height);
    } else if b.height > a.height {
      pb := GetAncestor(b, a.height);
    }
    while pa != pb && pa != null && pb != null
      invariant pa == null <==> pb == null
      invariant pa != null ==> Linked(pa) && Linked(pb) && pa.height == pb.height <= a.height && pa.height <= b.height
      invariant pa != null ==> pa == Ancestor(a, pa.height) && pb == Ancestor(b, pa.height)
      invariant forall h :: (if pa == null then 0 else pa.height + 1) <= h <= a.height && h <= b.height ==>
                Ancestor(a, h) != Ancestor(b, h)
      decreases if pa == null then 0 else pa.height + 1
    {
      if pa.height > 0 {
        AncestorTwice(a, pa.height, pa.height - 1);
        AncestorTwice(b, pb.height, pb.height - 1);
      }
      pa, pb := pa.prev, pb.prev;
    }
    assert pa == pb;
    if pa != null {
      SharedBelow(a, b, pa.height, 0);
    }
    return pa;
  }
}
