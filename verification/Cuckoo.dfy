/** The eight-way cuckoo cache with lazy erasure and two epochs. */
module Cuckoo {
  import opened Basics

  /** Elements are hashes; the zero hash is what an unused slot holds. */
  type Element = nat

  const DEFAULT: Element := 0

  type Hasher8 = (nat, Element) -> Word32

  function Locs(hash: Hasher8, size: nat, e: Element): (r: seq<nat>)
    requires size > 0
    ensures |r| == 8 && forall i :: 0 <= i < 8 ==> r[i] < size
  {
    [FastMod(hash(0, e), size), FastMod(hash(1, e), size), FastMod(hash(2, e), size), FastMod(hash(3, e), size),
     FastMod(hash(4, e), size), FastMod(hash(5, e), size), FastMod(hash(6, e), size), FastMod(hash(7, e), size)]
  }

  /** The content of the cache: the elements of the slots not marked discardable, with their epoch flags. */
  ghost function Entries(table: seq<Element>, discard: seq<bool>, recent: seq<bool>): set<(Element, bool)>
    requires |table| == |discard| == |recent|
  {
    set i | 0 <= i < |table| && !discard[i] :: (table[i], recent[i])
  }

  /** Every element, and every live slot, is at one of the element's own positions. */
  ghost predicate Placed(hash: Hasher8, table: seq<Element>, discard: seq<bool>)
    requires |table| == |discard| && |table| > 0
  {
    forall i :: 0 <= i < |table| && (table[i] != DEFAULT || !discard[i]) ==> i in Locs(hash, |table|, table[i])
  }

  ghost predicate Unique(table: seq<Element>) {
    forall i, j :: 0 <= i < j < |table| && table[i] == table[j] ==> table[i] == DEFAULT
  }

  /** The element in hand is nowhere in the table. */
  ghost predicate InHand(table: seq<Element>, e: Element) { e != DEFAULT ==> e !in table }

  ghost predicate AnyOpen(discard: seq<bool>, locs: seq<nat>) {
    exists i :: 0 <= i < |locs| && locs[i] < |discard| && discard[locs[i]]
  }

  lemma EntryIn(table: seq<Element>, discard: seq<bool>, recent: seq<bool>, i: nat)
    requires |table| == |discard| == |recent| && i < |table| && !discard[i]
    ensures (table[i], recent[i]) in Entries(table, discard, recent)
  {
  }

  lemma EntryOf(table: seq<Element>, discard: seq<bool>, recent: seq<bool>, x: (Element, bool)) returns (i: nat)
    requires |table| == |discard| == |recent| && x in Entries(table, discard, recent)
    ensures i < |table| && !discard[i] && x == (table[i], recent[i])
  {
    i :| 0 <= i < |table| && !discard[i] && x == (table[i], recent[i]);
  }

  lemma BothFlags(e: Element, f: bool)
    ensures (e, f) in {(e, true), (e, false)}
  {
  }

  /** Exchanging the element in hand with that of a live slot moves both, with their epoch flags. */
  lemma SwapEntry(table: seq<Element>, discard: seq<bool>, recent: seq<bool>, p: nat, e: Element, f: bool)
    requires |table| == |discard| == |recent| && p < |table| && !discard[p]
    ensures Entries(table[p := e], discard, recent[p := f]) + {(table[p], recent[p])} ==
            Entries(table, discard, recent) + {(e, f)}
  {
  }

  /** Filling a discardable slot adds one entry. */
  lemma PlaceEntry(table: seq<Element>, discard: seq<bool>, recent: seq<bool>, p: nat, e: Element, f: bool)
    requires |table| == |discard| == |recent| && p < |table| && discard[p]
    ensures Entries(table[p := e], discard[p := false], recent[p := f]) == Entries(table, discard, recent) + {(e, f)}
  {
    var t', d', r' := table[p := e], discard[p := false], recent[p := f];
    var was, now := Entries(table, discard, recent), Entries(t', d', r');
    hide Entries;
    EntryIn(t', d', r', p);
    forall x | x in was
      ensures x in now
    {
      var i := EntryOf(table, discard, recent, x);
      EntryIn(t', d', r', i);
    }
    forall x | x in now
      ensures x in was + {(e, f)}
    {
      var i := EntryOf(t', d', r', x);
      if i != p {
        EntryIn(table, discard, recent, i);
      }
    }
  }

  /** Marking a slot discardable takes its entry away. */
  lemma DropEntry(table: seq<Element>, discard: seq<bool>, recent: seq<bool>, p: nat)
    requires |table| == |discard| == |recent| && p < |table| && Unique(table) && table[p] != DEFAULT
    ensures Entries(table, discard[p := true], recent) ==
            Entries(table, discard, recent) - {(table[p], true), (table[p], false)}
  {
    var d' := discard[p := true];
    var was, now := Entries(table, discard, recent), Entries(table, d', recent);
    var gone := {(table[p], true), (table[p], false)};
    hide Entries;
    forall x | x in was - gone
      ensures x in now
    {
      var i := EntryOf(table, discard, recent, x);
      BothFlags(table[i], recent[i]);
      EntryIn(table, d', recent, i);
    }
    forall x | x in now
      ensures x in was - gone
    {
      var i := EntryOf(table, d', recent, x);
      EntryIn(table, discard, recent, i);
    }
  }

  lemma DropOthers(table: seq<Element>, discard: seq<bool>, recent: seq<bool>, p: nat)
    requires |table| == |discard| == |recent| && p < |table|
    ensures forall y, f :: y != table[p] ==>
                             ((y, f) in Entries(table, discard[p := true], recent) <==>
                               (y, f) in Entries(table, discard, recent))
  {
  }

  ghost predicate Shape(hash: Hasher8, table: seq<Element>, discard: seq<bool>, recent: seq<bool>) {
    |table| == |discard| == |recent| && |table| > 0 && Placed(hash, table, discard) && Unique(table)
  }

  /** What one exchange keeps, and what is in hand after it. */
  lemma SwapKeeps(hash: Hasher8, table: seq<Element>, discard: seq<bool>, recent: seq<bool>, p: nat, e: Element,
                  f: bool)
    requires Shape(hash, table, discard, recent) && InHand(table, e) && p in Locs(hash, |table|, e) && p < |table| &&
             !discard[p]
    ensures Shape(hash, table[p := e], discard, recent[p := f]) && InHand(table[p := e], table[p])
  {
    hide Locs;
    var t' := table[p := e];
    assert forall i :: 0 <= i < |table| && i != p ==> table[i] != e || e == DEFAULT;
  }

  lemma PlaceKeeps(hash: Hasher8, table: seq<Element>, discard: seq<bool>, recent: seq<bool>, p: nat, e: Element,
                   f: bool)
    requires Shape(hash, table, discard, recent) && InHand(table, e) && p in Locs(hash, |table|, e) && p < |table|
    ensures Shape(hash, table[p := e], discard[p := false], recent[p := f])
  {
  }

  /** The entries after an ageing: the recent ones, no longer recent. */
  ghost function Aged(entries: set<(Element, bool)>): set<(Element, bool)> {
    set x | x in entries && x.1 :: (x.0, false)
  }

  lemma AgedEntries(table: seq<Element>, discard: seq<bool>, recent: seq<bool>, discard': seq<bool>, recent': seq<bool>)
    requires |table| == |discard| == |recent| == |discard'| == |recent'|
    requires forall i :: 0 <= i < |table| ==> !recent'[i] && discard'[i] == (discard[i] || !recent[i])
    ensures Entries(table, discard', recent') == Aged(Entries(table, discard, recent))
  {
    var was, now := Entries(table, discard, recent), Entries(table, discard', recent');
    hide Entries;
    forall x | x in now
      ensures x in Aged(was)
    {
      var i := EntryOf(table, discard', recent', x);
      EntryIn(table, discard, recent, i);
      assert (table[i], true) in was;
    }
    forall x | x in Aged(was)
      ensures x in now
    {
      var y :| y in was && y.1 && x == (y.0, false);
      var i := EntryOf(table, discard, recent, y);
      EntryIn(table, discard', recent', i);
    }
  }

  /** Forty-five percent of the size, computed in 32 bits. */
  function EpochSize(size: nat): nat {
    var e := ((45 * size) % 0x1_0000_0000) / 100;
    if e < 1 then 1 else e
  }

  /** The documented share is kept exactly up to 95443717 slots; above that the product wraps. */
  lemma EpochSizeIff(size: nat)
    requires 2 <= size <= 0xffff_ffff
    ensures EpochSize(size) == (if 45 * size / 100 < 1 then 1 else 45 * size / 100) <==> size <= 95443717
  {
  }

  /** The heuristic counter after an insertion: it counts down, and at zero a scan of the `load` recent slots
    * resets it. */
  function NextCounter(epochSize: nat, counter: nat, load: nat): (r: nat)
    requires epochSize >= 1
    ensures counter == 0 ==> 1 <= r <= epochSize
  {
    if counter != 0 then counter - 1
    else if load >= epochSize then epochSize
    else Max(1, Max(epochSize / 16, epochSize - load))
  }

  class Cache {
    const hash: Hasher8
    var table: seq<Element>
    var discard: seq<bool>
    var recent: seq<bool>
    var counter: nat
    var epochSize: nat
    var depthLimit: nat

    ghost predicate Valid()
      reads this
    {
      Shape(hash, table, discard, recent) && 0 < |table| <= 0xffff_ffff && epochSize >= 1 && counter <= epochSize
    }

    ghost function Content(): set<(Element, bool)>
      requires Valid()
      reads this
    {
      Entries(table, discard, recent)
    }

    /** The number of live slots of the current epoch. */
    ghost function Load(): nat
      requires Valid()
      reads this
    {
      |LiveRecent(discard, recent, |discard|)|
    }

    ghost function Now(): Moment
      requires Valid()
      reads this
    {
      Moment(Content(), counter, Load())
    }

    /** Construction and setup; `depth` is the logarithm of the size. */
    constructor (hasher: Hasher8, newSize: nat, depth: nat)
      requires newSize <= 0xffff_ffff
      ensures Valid() && Content() == {} && |table| == (if newSize < 2 then 2 else newSize)
      ensures epochSize == EpochSize(|table|) == counter && depthLimit == depth && hash == hasher
    {
      hash := hasher;
      var size := if newSize < 2 then 2 else newSize;
      table := seq(size, i => DEFAULT);
      discard := seq(size, i => true);
      recent := seq(size, i => false);
      epochSize := EpochSize(size);
      counter := EpochSize(size);
      depthLimit := depth;
    }

    /** Count down, and on zero scan; a full epoch is aged. */
    method EpochCheck() returns (aged: bool)
      requires Valid()
      modifies this
      ensures Valid() && table == old(table) && epochSize == old(epochSize) && depthLimit == old(depthLimit)
      ensures aged <==> old(counter) == 0 && old(Load()) >= epochSize
      ensures Content() == if aged then Aged(old(Content())) else old(Content())
      ensures counter == NextCounter(epochSize, old(counter), old(Load()))
      ensures !aged ==> discard == old(discard)
    {
      aged := false;
      if counter != 0 {
        counter := counter - 1;
        return;
      }
      var count := CountRecent();
      if count >= epochSize {
        Age();
        counter := epochSize;
        return true;
      }
      counter := Max(1, Max(epochSize / 16, epochSize - count));
    }

    method CountRecent() returns (count: nat)
      requires Valid()
      ensures count == |LiveRecent(discard, recent, |table|)|
    {
      count := 0;
      for i := 0 to |table|
        invariant count == |LiveRecent(discard, recent, i)|
      {
        LiveRecentStep(discard, recent, i);
        if recent[i] && !discard[i] {
          count := count + 1;
        }
      }
    }

    method Age()
      requires Valid()
      modifies this`discard, this`recent
      ensures Valid() && Content() == Aged(old(Content()))
    {
      ghost var d0, r0 := discard, recent;
      hide Locs;
      for i := 0 to |table|
        invariant |discard| == |recent| == |table|
        invariant forall k :: 0 <= k < i ==> !recent[k] && discard[k] == (d0[k] || !r0[k])
        invariant forall k :: i <= k < |table| ==> recent[k] == r0[k] && discard[k] == d0[k]
      {
        if recent[i] {
          recent := recent[i := false];
        } else {
          discard := discard[i := true];
        }
      }
      AgedEntries(table, d0, r0, discard, recent);
    }

    /** The slot among the element's own positions that holds it. */
    method Find(e: Element, locs: seq<nat>) returns (found: bool, at: nat)
      requires Valid() && locs == Locs(hash, |table|, e)
      ensures found ==> at < |table| && at in locs && table[at] == e
      ensures !found ==> InHand(table, e) && forall i :: 0 <= i < 8 ==> table[locs[i]] != e
    {
      at := 0;
      for i := 0 to 8
        invariant forall k :: 0 <= k < i ==> table[locs[k]] != e
      {
        if table[locs[i]] == e {
          return true, locs[i];
        }
      }
      return false, 0;
    }

    method FindOpen(locs: seq<nat>) returns (found: bool, at: nat)
      requires |discard| == |table| && |locs| == 8 && forall i :: 0 <= i < 8 ==> locs[i] < |table|
      ensures found ==> at < |table| && at in locs && discard[at]
      ensures !found ==> !AnyOpen(discard, locs) && forall i :: 0 <= i < 8 ==> !discard[locs[i]]
    {
      at := 0;
      for i := 0 to 8
        invariant forall k :: 0 <= k < i ==> !discard[locs[k]]
      {
        if discard[locs[i]] {
          return true, locs[i];
        }
      }
      return false, 0;
    }

    /** Insertion. Up to the ageing, the content gains the element as recent and loses at most the one element left in
      * hand when the depth runs out; every other entry keeps its epoch flag. */
    method Insert(e: Element) returns (ghost aged: bool, ghost dropped: set<(Element, bool)>)
      requires Valid()
      modifies this
      ensures Valid() && |table| == old(|table|) && epochSize == old(epochSize) && depthLimit == old(depthLimit)
      ensures Inserted(epochSize, old(Now()), e, aged, dropped, Now())
      ensures !aged && depthLimit > 0 && AnyOpen(old(discard), Locs(hash, |table|, e)) ==> dropped == {}
    {
      ghost var before := Now();
      aged := EpochCheck();
      ghost var checked := Content();
      hide Locs, Aged, Entries, Shape, NextCounter, Inserted, LiveRecent, AnyOpen, Live;
      dropped := Put(e);
      PutInserts(epochSize, before, e, aged, dropped, checked, Now());
    }

    /** The part of an insertion after the epoch check. */
    method Put(e: Element) returns (ghost dropped: set<(Element, bool)>)
      requires Valid()
      modifies this`table, this`discard, this`recent
      ensures Valid() && |table| == old(|table|)
      ensures Content() + {(e, false)} + dropped == old(Content()) + {(e, true), (e, false)}
      ensures dropped == {} || exists x :: dropped == {x} && (x.0 != DEFAULT ==> !Live(Content(), x.0))
      ensures e != DEFAULT && dropped != {(e, false)} ==> (e, false) !in Content()
      ensures depthLimit > 0 && AnyOpen(old(discard), Locs(hash, |table|, e)) ==> dropped == {}
    {
      hide Locs, Entries, Shape, AnyOpen, Live;
      dropped := {};
      var locs := Locs(hash, |table|, e);
      var found, at := Find(e, locs);
      if found {
        Refresh(e, at);
        return;
      }
      ghost var was := Content();
      dropped := Displace(e, locs);
      WithOther(Content(), dropped, was, e);
    }

    /** An element that is there already becomes live and recent. */
    method Refresh(e: Element, at: nat)
      requires Valid() && at < |table| && table[at] == e && at in Locs(hash, |table|, e)
      modifies this`discard, this`recent
      ensures Valid() && Content() + {(e, false)} == old(Content()) + {(e, true), (e, false)}
      ensures e != DEFAULT ==> (e, false) !in Content()
    {
      RefreshEntry(table, discard, recent, at);
      hide Locs, Entries;
      discard := discard[at := false];
      recent := recent[at := true];
    }

    method Place(at: nat, e: Element, epoch: bool)
      requires Valid() && InHand(table, e) && at < |table| && at in Locs(hash, |table|, e) && discard[at]
      modifies this`table, this`discard, this`recent
      ensures Valid() && |table| == old(|table|) && Content() == old(Content()) + {(e, epoch)}
    {
      PlaceEntry(table, discard, recent, at, e, epoch);
      PlaceKeeps(hash, table, discard, recent, at, e, epoch);
      table := table[at := e];
      discard := discard[at := false];
      recent := recent[at := epoch];
    }

    method Swap(at: nat, e: Element, epoch: bool) returns (evicted: Element, itsEpoch: bool)
      requires Valid() && InHand(table, e) && at < |table| && at in Locs(hash, |table|, e) && !discard[at]
      modifies this`table, this`recent
      ensures Valid() && |table| == old(|table|) && InHand(table, evicted)
      ensures Content() + {(evicted, itsEpoch)} == old(Content()) + {(e, epoch)}
    {
      SwapEntry(table, discard, recent, at, e, epoch);
      SwapKeeps(hash, table, discard, recent, at, e, epoch);
      evicted, itsEpoch := table[at], recent[at];
      table := table[at := e];
      recent := recent[at := epoch];
    }

    /** The displacement loop. */
    method Displace(e0: Element, locs0: seq<nat>) returns (ghost dropped: set<(Element, bool)>)
      requires Valid() && InHand(table, e0) && locs0 == Locs(hash, |table|, e0)
      modifies this`table, this`discard, this`recent
      ensures Valid() && |table| == old(|table|)
      ensures Content() + dropped == old(Content()) + {(e0, true)}
      ensures dropped == {} || exists x :: dropped == {x} && (x.0 != DEFAULT ==> !Live(Content(), x.0))
      ensures depthLimit > 0 && AnyOpen(old(discard), locs0) ==> dropped == {}
      ensures e0 != DEFAULT && dropped != {(e0, false)} ==> (e0, false) !in Content()
    {
      var e, locs, lastLoc, lastEpoch := e0, locs0, 0xffff_ffff, true;
      ghost var all := Content() + {(e0, true)};
      hide Locs, Entries, Shape, InHand, AnyOpen, Live;
      for depth := 0 to depthLimit
        invariant Valid() && |table| == old(|table|) && InHand(table, e) && locs == Locs(hash, |table|, e)
        invariant Content() + {(e, lastEpoch)} == all
        invariant depth == 0 ==> discard == old(discard) && locs == locs0
        invariant depth > 0 ==> !AnyOpen(old(discard), locs0)
      {
        var open, at := FindOpen(locs);
        if open {
          Place(at, e, lastEpoch);
          return {};
        }
        lastLoc := NextLoc(locs, lastLoc);
        e, lastEpoch := Swap(lastLoc, e, lastEpoch);
        locs := Locs(hash, |table|, e);
      }
      dropped := {(e, lastEpoch)};
      if e != DEFAULT {
        AbsentEntries(table, discard, recent, e);
      }
    }

    /** Lookup, which also finds elements marked discardable but not yet overwritten. */
    method Contains(e: Element, erase: bool) returns (r: bool)
      requires Valid()
      modifies this`discard
      ensures Valid() && (e != DEFAULT ==> (r <==> e in table))
      ensures r ==> e in table
      ensures LookedUp(old(Now()), e, erase, r, Now())
      ensures !erase ==> discard == old(discard)
    {
      LiveIsFound(e);
      var found, at := Find(e, Locs(hash, |table|, e));
      hide Locs, Entries;
      if found {
        if erase {
          if e != DEFAULT {
            DropEntry(table, discard, recent, at);
          }
          DropOthers(table, discard, recent, at);
          discard := discard[at := true];
        }
        return true;
      }
      if e != DEFAULT {
        AbsentEntries(table, discard, recent, e);
      }
      return false;
    }

    method Do(op: Op) returns (found: bool, ghost event: Event)
      requires Valid()
      modifies this
      ensures Valid() && |table| == old(|table|) && epochSize == old(epochSize)
      ensures event.op == op && event.found == found && Moves(epochSize, old(Now()), event, Now())
    {
      hide Shape, Entries, LiveRecent, Inserted, LookedUp;
      found := false;
      match op {
        case Insert(e) =>
          ghost var aged, dropped := Insert(e);
          event := Event(op, aged, dropped, found);
        case Lookup(e, erase) =>
          found := Contains(e, erase);
          event := Event(op, false, {}, found);
      }
    }

    /** Any sequence of operations moves from moment to moment as `Moves` says. */
    method Run(ops: seq<Op>) returns (found: seq<bool>, ghost events: seq<Event>, ghost moments: seq<Moment>)
      requires Valid()
      modifies this
      ensures Valid() && |table| == old(|table|) && epochSize == old(epochSize)
      ensures AllMove(epochSize, events, moments) && Answers(ops, found, events)
      ensures moments[0] == old(Now()) && moments[|ops|] == Now()
    {
      found, events, moments := [], [], [Now()];
      NoMoves(epochSize, moments, ops);
      hide Shape, Now, AllMove, Moves, Answers;
      for i := 0 to |ops|
        invariant Valid() && |table| == old(|table|) && epochSize == old(epochSize)
        invariant |moments| == i + 1 && moments[0] == old(Now()) && moments[i] == Now()
        invariant AllMove(epochSize, events, moments) && Answers(ops[..i], found, events)
      {
        ghost var event;
        var r;
        r, event := Do(ops[i]);
        OneMoreMove(epochSize, events, moments, event, Now());
        OneMoreAnswer(ops, i, found, events, r, event);
        found, events, moments := found + [r], events + [event], moments + [Now()];
      }
    }

    lemma LiveIsFound(e: Element)
      requires Valid()
      ensures (exists f :: (e, f) in Content()) ==> exists i :: 0 <= i < 8 && table[Locs(hash, |table|, e)[i]] == e
    {
    }
  }

  lemma AbsentEntries(table: seq<Element>, discard: seq<bool>, recent: seq<bool>, e: Element)
    requires |table| == |discard| == |recent| && e !in table
    ensures (e, true) !in Entries(table, discard, recent) && (e, false) !in Entries(table, discard, recent)
  {
  }

  lemma RefreshEntry(table: seq<Element>, discard: seq<bool>, recent: seq<bool>, p: nat)
    requires |table| == |discard| == |recent| && p < |table|
    ensures Entries(table, discard[p := false], recent[p := true]) + {(table[p], false)}
            == Entries(table, discard, recent) + {(table[p], true), (table[p], false)}
    ensures Unique(table) && table[p] != DEFAULT ==> (table[p], false) !in Entries(table, discard[p := false],
              recent[p := true])
  {
    var d', r' := discard[p := false], recent[p := true];
    var was, now := Entries(table, discard, recent), Entries(table, d', r');
    hide Entries;
    EntryIn(table, d', r', p);
    forall x | x in was
      ensures x in now + {(table[p], false)}
    {
      var i := EntryOf(table, discard, recent, x);
      BothFlags(table[i], recent[i]);
      EntryIn(table, d', r', i);
    }
    forall x | x in now
      ensures x in was + {(table[p], true)} && (Unique(table) && table[p] != DEFAULT ==> x != (table[p], false))
    {
      var i := EntryOf(table, d', r', x);
      if i != p {
        EntryIn(table, discard, recent, i);
      }
    }
  }

  /** The position after `last` among the eight, or the second one when `last` is none of them. */
  function NextLoc(locs: seq<nat>, last: nat): (r: nat)
    requires |locs| == 8
    ensures r in locs
  {
    locs[(1 + IndexOf(locs, last)) % 8]
  }

  function IndexOf(locs: seq<nat>, x: nat): (i: nat)
    ensures i <= |locs| && (i < |locs| ==> locs[i] == x) && (forall k :: 0 <= k < i ==> locs[k] != x)
  {
    if locs == [] then 0 else if locs[0] == x then 0 else 1 + IndexOf(locs[1..], x)
  }

  ghost function LiveRecent(discard: seq<bool>, recent: seq<bool>, n: nat): set<int>
    requires n <= |discard| == |recent|
  {
    set i | 0 <= i < n && recent[i] && !discard[i]
  }

  lemma LiveRecentStep(discard: seq<bool>, recent: seq<bool>, n: nat)
    requires n < |discard| == |recent|
    ensures |LiveRecent(discard, recent, n + 1)| == |LiveRecent(discard, recent, n)| + if recent[n] &&
            !discard[n] then 1 else 0
  {
    var s, t := LiveRecent(discard, recent, n), LiveRecent(discard, recent, n + 1);
    assert t == if recent[n] && !discard[n] then s + {n} else s;
  }

  // ---------------------------------------------------------------------------------------------
  // Runs
  // ---------------------------------------------------------------------------------------------

  datatype Op = Insert(e: Element) | Lookup(e: Element, erase: bool)

  /** What can be told of a cache at one time: its content, the heuristic counter and the slots of the current epoch. */
  datatype Moment = Moment(content: set<(Element, bool)>, counter: nat, load: nat)

  /** One operation with what happened in it: an ageing, an element left in hand, the answer of a lookup. */
  datatype Event = Event(op: Op, aged: bool, dropped: set<(Element, bool)>, found: bool)

  ghost predicate Live(content: set<(Element, bool)>, e: Element) { (e, true) in content || (e, false) in content }

  /** Up to the ageing, an insertion makes the element recent and loses at most the one element left in hand;
    * every other entry keeps its epoch flag. */
  ghost predicate Inserted(epochSize: nat, a: Moment, e: Element, aged: bool, dropped: set<(Element, bool)>, b: Moment)
    requires epochSize >= 1
  {
    && (aged <==> a.counter == 0 && a.load >= epochSize)
    && b.counter == NextCounter(epochSize, a.counter, a.load)
    && b.content + {(e, false)} + dropped == (if aged then Aged(a.content) else a.content) + {(e, true), (e, false)}
    && (e != DEFAULT && dropped != {(e, false)} ==> (e, false) !in b.content)
    && (dropped == {} || exists x :: dropped == {x} && (x.0 != DEFAULT ==> !Live(b.content, x.0)))
  }

  /** A lookup finds every live element, changes nothing unless it erases, and then removes that element only. */
  ghost predicate LookedUp(a: Moment, e: Element, erase: bool, found: bool, b: Moment) {
    && (Live(a.content, e) ==> found)
    && b.counter == a.counter
    && (!erase ==> b == a)
    && (erase && e != DEFAULT ==> b.content == a.content - {(e, true), (e, false)})
    && (forall y, f :: y != e ==> ((y, f) in b.content <==> (y, f) in a.content))
  }

  lemma WithOther(content: set<(Element, bool)>, dropped: set<(Element, bool)>, was: set<(Element, bool)>, e: Element)
    requires content + dropped == was + {(e, true)}
    ensures content + {(e, false)} + dropped == was + {(e, true), (e, false)}
  {
    var other := {(e, false)};
    assert content + other + dropped == content + dropped + other;
    assert was + {(e, true), (e, false)} == was + {(e, true)} + other;
  }

  lemma PutInserts(epochSize: nat, a: Moment, e: Element, aged: bool, dropped: set<(Element, bool)>,
                   checked: set<(Element, bool)>, b: Moment)
    requires epochSize >= 1 && (aged <==> a.counter == 0 && a.load >= epochSize)
    requires checked == (if aged then Aged(a.content) else a.content) &&
             b.counter == NextCounter(epochSize, a.counter, a.load)
    requires b.content + {(e, false)} + dropped == checked + {(e, true), (e, false)}
    requires e != DEFAULT && dropped != {(e, false)} ==> (e, false) !in b.content
    requires dropped == {} || exists x :: dropped == {x} && (x.0 != DEFAULT ==> !Live(b.content, x.0))
    ensures Inserted(epochSize, a, e, aged, dropped, b)
  {
    hide Aged, NextCounter, Live;
  }

  ghost predicate Moves(epochSize: nat, a: Moment, v: Event, b: Moment)
    requires epochSize >= 1
  {
    match v.op
    case Insert(e) => Inserted(epochSize, a, e, v.aged, v.dropped, b)
    case Lookup(e, erase) => !v.aged && v.dropped == {} && LookedUp(a, e, erase, v.found, b)
  }

  ghost predicate AllMove(epochSize: nat, events: seq<Event>, moments: seq<Moment>) {
    epochSize >= 1 && |moments| == |events| + 1
    && forall i {:trigger events[i]} :: 0 <= i < |events| ==> Moves(epochSize, moments[i], events[i], moments[i + 1])
  }

  /** The events are those of the operations, with the answers given. */
  ghost predicate Answers(ops: seq<Op>, found: seq<bool>, events: seq<Event>) {
    |ops| == |found| == |events| && forall i :: 0 <= i < |ops| ==> events[i].op == ops[i] && events[i].found == found[i]
  }

  lemma OneMoreAnswer(ops: seq<Op>, i: nat, found: seq<bool>, events: seq<Event>, r: bool, v: Event)
    requires i < |ops| && Answers(ops[..i], found, events) && v.op == ops[i] && v.found == r
    ensures Answers(ops[..i + 1], found + [r], events + [v])
    ensures i + 1 == |ops| ==> ops[..i + 1] == ops
  {
  }

  lemma NoMoves(epochSize: nat, moments: seq<Moment>, ops: seq<Op>)
    requires epochSize >= 1 && |moments| == 1
    ensures AllMove(epochSize, [], moments) && Answers(ops[..0], [], []) && (ops == [] ==> ops == ops[..0])
  {
  }

  lemma OneMoreMove(epochSize: nat, events: seq<Event>, moments: seq<Moment>, v: Event, b: Moment)
    requires AllMove(epochSize, events, moments) && |moments| == |events| + 1 &&
             Moves(epochSize, moments[|events|], v, b)
    ensures AllMove(epochSize, events + [v], moments + [b])
  {
    hide Moves;
  }

  /** The insertions, and the ageings, among the first `n` events. */
  function Inserts(events: seq<Event>, n: nat): (r: nat)
    requires n <= |events|
    ensures r <= n
  {
    if n == 0 then 0 else Inserts(events, n - 1) + if events[n - 1].op.Insert? then 1 else 0
  }

  function Ages(events: seq<Event>, n: nat): nat
    requires n <= |events|
  {
    if n == 0 then 0 else Ages(events, n - 1) + if events[n - 1].op.Insert? && events[n - 1].aged then 1 else 0
  }

  /** The element was erased by a lookup, or was the one left in hand by an insertion. */
  ghost predicate Removed(events: seq<Event>, e: Element) {
    exists i :: 0 <= i < |events| && RemovedBy(events[i], e)
  }

  ghost predicate RemovedBy(v: Event, e: Element) {
    if v.op.Insert? then Live(v.dropped, e) else v.op == Lookup(e, true)
  }

  lemma MoveKeeps(epochSize: nat, a: Moment, v: Event, b: Moment, e: Element)
    requires epochSize >= 1 && Moves(epochSize, a, v, b) && e != DEFAULT && !RemovedBy(v, e)
    ensures (e, true) in a.content && !v.aged ==> (e, true) in b.content
    ensures (e, true) in a.content ==> Live(b.content, e)
    ensures Live(a.content, e) && !v.aged ==> Live(b.content, e)
  {
    if v.op.Insert? && v.aged && (e, true) in a.content {
      assert (e, false) in Aged(a.content);
    }
  }

  /** A recent element stays through one ageing. */
  lemma {:induction false} StaysOneAgeing(epochSize: nat, events: seq<Event>, moments: seq<Moment>, e: Element, n: nat)
    requires AllMove(epochSize, events, moments) && e != DEFAULT && (e, true) in moments[0].content &&
             !Removed(events, e)
    requires n <= |events| && Ages(events, n) <= 1
    ensures Live(moments[n].content, e) && (Ages(events, n) == 0 ==> (e, true) in moments[n].content)
  {
    if n > 0 {
      StaysOneAgeing(epochSize, events, moments, e, n - 1);
      var v := events[n - 1];
      assert !RemovedBy(v, e);
      hide Moves, RemovedBy, Live;
      MoveKeeps(epochSize, moments[n - 1], v, moments[n], e);
      NoAgeingLookup(epochSize, moments[n - 1], v, moments[n]);
    }
  }

  lemma NoAgeingLookup(epochSize: nat, a: Moment, v: Event, b: Moment)
    requires epochSize >= 1 && Moves(epochSize, a, v, b)
    ensures v.aged ==> v.op.Insert? && a.counter == 0 && b.counter == epochSize
    ensures !v.aged && v.op.Insert? ==> b.counter >= a.counter - 1
    ensures v.op.Lookup? ==> b.counter == a.counter
  {
  }

  /** After the first ageing the counter stands for the insertions that must come before the next one. */
  lemma {:induction false} CounterHolds(epochSize: nat, events: seq<Event>, moments: seq<Moment>, n: nat)
    requires AllMove(epochSize, events, moments) && n <= |events|
    ensures Ages(events, n) == 1 ==> Inserts(events, n) >= 1 && moments[n].counter + Inserts(events, n) >= epochSize + 1
    ensures Ages(events, n) >= 2 ==> Inserts(events, n) >= epochSize + 2
  {
    if n > 0 {
      CounterHolds(epochSize, events, moments, n - 1);
      var v := events[n - 1];
      hide Moves;
      NoAgeingLookup(epochSize, moments[n - 1], v, moments[n]);
    }
  }

  /** In any run with at most `epochSize + 1` insertions there is at most one ageing, so an element that was
    * recent at its start is live, and found, throughout, unless it was erased or left in hand. */
  lemma RecentSurvives(epochSize: nat, events: seq<Event>, moments: seq<Moment>, e: Element, n: nat)
    requires AllMove(epochSize, events, moments) && e != DEFAULT && (e, true) in moments[0].content &&
             !Removed(events, e)
    requires n <= |events| && Inserts(events, n) <= epochSize + 1
    ensures Ages(events, n) <= 1 && Live(moments[n].content, e)
    ensures n < |events| && events[n].op == Lookup(e, false) ==> events[n].found
  {
    CounterHolds(epochSize, events, moments, n);
    StaysOneAgeing(epochSize, events, moments, e, n);
  }

  /** Two ageings are more than `epochSize` insertions apart. */
  lemma AgeingsApart(epochSize: nat, events: seq<Event>, moments: seq<Moment>, i: nat, j: nat)
    requires AllMove(epochSize, events, moments) && i < j < |events| && events[i].aged && events[j].aged
    ensures Inserts(events, j) - Inserts(events, i) >= epochSize + 1
  {
    LaterMoves(epochSize, events, moments, i);
    InsertsFrom(events, i, j - i);
    hide AllMove, Inserts;
    AgedTwice(epochSize, events[i..], moments[i..], j - i);
  }

  lemma AgedTwice(epochSize: nat, events: seq<Event>, moments: seq<Moment>, n: nat)
    requires AllMove(epochSize, events, moments) && 0 < n < |events| && events[0].aged && events[n].aged
    ensures Inserts(events, n) >= epochSize + 1
  {
    CounterHolds(epochSize, events, moments, n + 1);
    AgedInserts(epochSize, events, moments, 0);
    AgedInserts(epochSize, events, moments, n);
    AgesNext(events, 0);
    AgesNext(events, n);
    AgesGrow(events, 1, n);
    hide AllMove, Ages, Inserts;
  }

  lemma AgesNext(events: seq<Event>, n: nat)
    requires n < |events|
    ensures Ages(events, n + 1) == Ages(events, n) + if events[n].op.Insert? && events[n].aged then 1 else 0
    ensures Inserts(events, n + 1) == Inserts(events, n) + if events[n].op.Insert? then 1 else 0
  {
  }

  lemma AgedInserts(epochSize: nat, events: seq<Event>, moments: seq<Moment>, i: nat)
    requires AllMove(epochSize, events, moments) && i < |events| && events[i].aged
    ensures events[i].op.Insert?
  {
    hide Moves;
    NoAgeingLookup(epochSize, moments[i], events[i], moments[i + 1]);
  }

  lemma LaterMoves(epochSize: nat, events: seq<Event>, moments: seq<Moment>, i: nat)
    requires AllMove(epochSize, events, moments) && i <= |events|
    ensures AllMove(epochSize, events[i..], moments[i..])
  {
    hide Moves;
  }

  lemma {:induction false} InsertsFrom(events: seq<Event>, i: nat, n: nat)
    requires i + n <= |events|
    ensures Inserts(events[i..], n) == Inserts(events, i + n) - Inserts(events, i)
  {
    if n > 0 {
      InsertsFrom(events, i, n - 1);
    }
  }

  lemma {:induction false} AgesGrow(events: seq<Event>, m: nat, n: nat)
    requires m <= n <= |events|
    ensures Ages(events, m) <= Ages(events, n)
  {
    if m < n {
      AgesGrow(events, m, n - 1);
    }
  }

  ghost function RecentEntries(table: seq<Element>, discard: seq<bool>, recent: seq<bool>, n: nat): set<(Element, bool)>
    requires n <= |table| == |discard| == |recent|
  {
    set i | 0 <= i < n && recent[i] && !discard[i] :: (table[i], true)
  }

  /** When the zero hash is not live, the slots of the current epoch are its elements. */
  lemma LoadCounts(table: seq<Element>, discard: seq<bool>, recent: seq<bool>)
    requires |table| == |discard| == |recent| && Unique(table) && !Live(Entries(table, discard, recent), DEFAULT)
    ensures |LiveRecent(discard, recent, |table|)| == |set x | x in Entries(table, discard, recent) && x.1|
  {
    RecentCounts(table, discard, recent, |table|);
    assert RecentEntries(table, discard, recent, |table|) == (set x | x in Entries(table, discard, recent) && x.1);
  }

  lemma {:induction false} RecentCounts(table: seq<Element>, discard: seq<bool>, recent: seq<bool>, n: nat)
    requires n <= |table| == |discard| == |recent| && Unique(table) && !Live(Entries(table, discard, recent), DEFAULT)
    ensures |RecentEntries(table, discard, recent, n)| == |LiveRecent(discard, recent, n)|
  {
    if n > 0 {
      RecentCounts(table, discard, recent, n - 1);
      LiveRecentStep(discard, recent, n - 1);
      RecentStep(table, discard, recent, n - 1);
    }
  }

  lemma NotYetAmong(table: seq<Element>, discard: seq<bool>, recent: seq<bool>, n: nat)
    requires n < |table| == |discard| == |recent| && Unique(table) && table[n] != DEFAULT
    ensures (table[n], true) !in RecentEntries(table, discard, recent, n)
  {
    assert forall i :: 0 <= i < n ==> table[i] != table[n];
  }

  lemma RecentStep(table: seq<Element>, discard: seq<bool>, recent: seq<bool>, n: nat)
    requires n < |table| == |discard| == |recent| && Unique(table) && !Live(Entries(table, discard, recent), DEFAULT)
    ensures |RecentEntries(table, discard, recent, n + 1)|
            == |RecentEntries(table, discard, recent, n)| + if recent[n] && !discard[n] then 1 else 0
  {
    var s, t := RecentEntries(table, discard, recent, n), RecentEntries(table, discard, recent, n + 1);
    if recent[n] && !discard[n] {
      EntryIn(table, discard, recent, n);
      NotYetAmong(table, discard, recent, n);
      hide Entries, Live, Unique;
      assert t == s + {(table[n], true)};
    } else {
      assert t == s;
    }
  }
}
