/** The rolling Bloom filter: every cell has a two-bit generation label, kept in a pair of 64-bit words. */
module RollingBloom {
  import opened Basics

  type Key = seq<bv8>

  /** The seeded hash: function number, tweak and key to a 32-bit word. */
  type Hasher = (nat, nat, Key) -> Word32

  // ---------------------------------------------------------------------------------------------
  // Labels in word pairs
  // ---------------------------------------------------------------------------------------------

  function Join(x: bv64, y: bv64): bv64 { x | y }

  function Meet(x: bv64, y: bv64): bv64 { x & y }

  function Not(x: bv64): bv64 { !x }

  function Shifted(bit: bv64, b: bv6): bv64 { bit << b }

  /** Bit `b` of a word is set. */
  predicate Has(word: bv64, b: bv6) { (word >> b) & 1 == 1 }

  /** The label of bit `b` of a word pair: 0 for an empty cell, else the generation 1, 2 or 3. */
  function Tag(lo: bv64, hi: bv64, b: bv6): (t: nat)
    ensures t <= 3
  {
    (if Has(lo, b) then 1 else 0) + (if Has(hi, b) then 2 else 0)
  }

  function LowBit(g: nat): (r: bv64)
    ensures r <= 1
  {
    if g % 2 == 1 then 1 else 0
  }

  function HighBit(g: nat): (r: bv64)
    ensures r <= 1
  {
    if g / 2 == 1 then 1 else 0
  }

  function Stored(word: bv64, b: bv6, bit: bv64): bv64 { Join(Meet(word, Not(Shifted(1, b))), Shifted(bit, b)) }

  lemma StoredBit(word: bv64, b: bv6, bit: bv64, c: bv6)
    requires bit <= 1
    ensures Has(Stored(word, b, bit), c) <==> if c == b then bit == 1 else Has(word, c)
  {
    hide Has, Join, Meet, Not, Shifted;
    JoinBit(Meet(word, Not(Shifted(1, b))), Shifted(bit, b), c);
    MeetBit(word, Not(Shifted(1, b)), c);
    NotBit(Shifted(1, b), c);
    ShiftedBit(b, 1, c);
    ShiftedBit(b, bit, c);
  }

  lemma OrBit(x: bv64, y: bv64, c: bv6)
    ensures Has(x | y, c) <==> Has(x, c) || Has(y, c)
  {
  }

  lemma AndBit(x: bv64, y: bv64, c: bv6)
    ensures Has(x & y, c) <==> Has(x, c) && Has(y, c)
  {
  }

  lemma ComplementBit(x: bv64, c: bv6)
    ensures Has(!x, c) <==> !Has(x, c)
  {
  }

  lemma OneShifted(b: bv6, c: bv6)
    ensures Has(1 << b, c) <==> b == c
  {
  }

  lemma ZeroShifted(b: bv6, c: bv6)
    ensures !Has(0 << b, c)
  {
  }

  lemma JoinBit(x: bv64, y: bv64, c: bv6)
    ensures Has(Join(x, y), c) <==> Has(x, c) || Has(y, c)
  {
    OrBit(x, y, c);
    hide Has;
  }

  lemma MeetBit(x: bv64, y: bv64, c: bv6)
    ensures Has(Meet(x, y), c) <==> Has(x, c) && Has(y, c)
  {
    AndBit(x, y, c);
    hide Has;
  }

  lemma NotBit(x: bv64, c: bv6)
    ensures Has(Not(x), c) <==> !Has(x, c)
  {
    ComplementBit(x, c);
    hide Has;
  }

  lemma ShiftedBit(b: bv6, bit: bv64, c: bv6)
    requires bit <= 1
    ensures Has(Shifted(bit, b), c) <==> bit == 1 && b == c
  {
    OneShifted(b, c);
    ZeroShifted(b, c);
    hide Has;
    assert bit == 0 || bit == 1;
  }

  /** Storing a label changes that cell and no other. */
  lemma StoredTag(lo: bv64, hi: bv64, b: bv6, g: nat, c: bv6)
    requires 1 <= g <= 3
    ensures Tag(Stored(lo, b, LowBit(g)), Stored(hi, b, HighBit(g)), c) == if c == b then g else Tag(lo, hi, c)
  {
    hide Has, Stored;
    StoredBit(lo, b, LowBit(g), c);
    StoredBit(hi, b, HighBit(g), c);
  }

  function Flip(x: bv64, bit: bv64): bv64 { x ^ (0 - bit) }

  function WipeMask(p1: bv64, p2: bv64, g: nat): bv64 {
    Join(Flip(p1, LowBit(g)), Flip(p2, HighBit(g)))
  }

  function Wiped(word: bv64, p1: bv64, p2: bv64, g: nat): bv64 { Meet(word, WipeMask(p1, p2, g)) }

  /** The mask empties exactly the cells labelled `g`. */
  lemma WipedTag(p1: bv64, p2: bv64, g: nat, c: bv6)
    requires 1 <= g <= 3
    ensures Tag(Wiped(p1, p1, p2, g), Wiped(p2, p1, p2, g), c) == if Tag(p1, p2, c) == g then 0 else Tag(p1, p2, c)
  {
    hide Has, Wiped;
    WipedBit(p1, p1, p2, g, c);
    WipedBit(p2, p1, p2, g, c);
  }

  lemma WipedBit(word: bv64, p1: bv64, p2: bv64, g: nat, c: bv6)
    ensures Has(Wiped(word, p1, p2, g), c) <==>
              Has(word, c) && (Has(p1, c) != (LowBit(g) == 1) || Has(p2, c) != (HighBit(g) == 1))
  {
    hide Has, LowBit, HighBit, Flip, Join, Meet;
    var low, high := LowBit(g), HighBit(g);
    FlipBit(p1, low, c);
    FlipBit(p2, high, c);
    JoinBit(Flip(p1, low), Flip(p2, high), c);
    MeetBit(word, WipeMask(p1, p2, g), c);
  }

  lemma FlipBit(x: bv64, bit: bv64, c: bv6)
    requires bit <= 1
    ensures Has(Flip(x, bit), c) <==> Has(x, c) != (bit == 1)
  {
    if bit == 1 {
      assert 0 - bit == 0xffff_ffff_ffff_ffff;
      FlipOnes(x, c);
    } else {
      assert 0 - bit == 0;
      assert x ^ 0 == x;
    }
  }

  lemma FlipOnes(x: bv64, c: bv6)
    ensures Has(x ^ 0xffff_ffff_ffff_ffff, c) <==> !Has(x, c)
  {
  }

  // ---------------------------------------------------------------------------------------------
  // Cells of a key
  // ---------------------------------------------------------------------------------------------

  function BitOf(h: Word32): bv6 { (h % 64) as bv6 }

  /** The first word of the pair that holds the cell of hash `h`. */
  function Slot(h: Word32, size: nat): (w: nat)
    requires size > 0 && size % 2 == 0
    ensures w % 2 == 0 && w + 1 < size
  {
    var pos := FastMod(h, size);
    pos - pos % 2
  }

  function TagAt(d: seq<bv64>, w: nat, b: bv6): nat
    requires w + 1 < |d|
  {
    Tag(d[w], d[w + 1], b)
  }

  ghost predicate Even(d: seq<bv64>) { |d| > 0 && |d| % 2 == 0 }

  /** The cell of `h` carries a label at most `age` generations older than `g`. */
  ghost predicate CellLive(d: seq<bv64>, h: Word32, g: nat, age: nat)
    requires Even(d)
  {
    var t := TagAt(d, Slot(h, |d|), BitOf(h));
    t != 0 && (g - t) % 3 <= age
  }

  ghost predicate KeyLive(d: seq<bv64>, hash: Hasher, funcs: nat, tweak: nat, key: Key, g: nat, age: nat)
    requires Even(d)
  {
    forall n :: 0 <= n < funcs ==> CellLive(d, hash(n, tweak, key), g, age)
  }

  /** `d'` is `d` with exactly the cells labelled `g` emptied. */
  ghost predicate WipedOf(d: seq<bv64>, d': seq<bv64>, g: nat) {
    |d'| == |d| && forall w, b :: 0 <= w < |d| - 1 && w % 2 == 0 ==>
                                TagAt(d', w, b) == if TagAt(d, w, b) == g then 0 else TagAt(d, w, b)
  }

  /** The same with the words from `p` on still to do. */
  ghost predicate WipedTo(d: seq<bv64>, now: seq<bv64>, g: nat, p: nat) {
    && |now| == |d| && (forall k :: p <= k < |d| ==> now[k] == d[k])
    && forall w, b :: 0 <= w < p && w + 1 < |d| && w % 2 == 0 ==>
                    TagAt(now, w, b) == if TagAt(d, w, b) == g then 0 else TagAt(d, w, b)
  }

  lemma WipedNone(d: seq<bv64>, g: nat)
    ensures WipedTo(d, d, g, 0)
  {
  }

  lemma WipedNext(d: seq<bv64>, now: seq<bv64>, g: nat, p: nat)
    requires WipedTo(d, now, g, p) && p % 2 == 0 && p + 1 < |d| && 1 <= g <= 3
    ensures WipedTo(d, now[p := Wiped(now[p], now[p], now[p + 1], g)][p +
              1 := Wiped(now[p + 1], now[p], now[p + 1], g)], g, p + 2)
  {
    hide Tag, Wiped;
    var next := now[p := Wiped(now[p], now[p], now[p + 1], g)][p + 1 := Wiped(now[p + 1], now[p], now[p + 1], g)];
    forall w, b | 0 <= w < p + 2 && w + 1 < |d| && w % 2 == 0
      ensures TagAt(next, w, b) == if TagAt(d, w, b) == g then 0 else TagAt(d, w, b)
    {
      if w == p {
        WipedTag(now[p], now[p + 1], g, b);
      } else {
        assert TagAt(next, w, b) == TagAt(now, w, b);
      }
    }
  }

  lemma WipedAll(d: seq<bv64>, now: seq<bv64>, g: nat)
    requires WipedTo(d, now, g, |d|)
    ensures WipedOf(d, now, g)
  {
    hide TagAt;
  }

  ghost predicate Hit(hash: Hasher, funcs: nat, tweak: nat, key: Key, size: nat, w: nat, b: bv6)
    requires size > 0 && size % 2 == 0
  {
    exists n :: 0 <= n < funcs && Slot(hash(n, tweak, key), size) == w && BitOf(hash(n, tweak, key)) == b
  }

  /** `d'` is `d` with exactly the cells of `key` relabelled `g`. */
  ghost predicate MarkedOf(d: seq<bv64>, d': seq<bv64>, hash: Hasher, funcs: nat, tweak: nat, key: Key, g: nat)
    requires Even(d)
  {
    |d'| == |d| && forall w, b :: 0 <= w < |d| - 1 && w % 2 == 0 ==>
                                TagAt(d', w, b) == if Hit(hash, funcs, tweak, key, |d|, w, b) then g else TagAt(d, w, b)
  }

  /** One insertion, exactly: the cells of `key` get label `g`; on a new generation the other cells labelled `g` go. */
  ghost predicate InsertedOf(d: seq<bv64>, d': seq<bv64>, hash: Hasher, funcs: nat, tweak: nat, key: Key, g: nat,
                             rolled: bool)
    requires Even(d)
  {
    |d'| == |d| && forall w, b :: 0 <= w < |d| - 1 && w % 2 == 0 ==>
                                TagAt(d', w, b) == if Hit(hash, funcs, tweak, key, |d|, w, b) then g
                                                   else if rolled && TagAt(d, w, b) == g then 0 else TagAt(d, w, b)
  }

  lemma InsertedExactly(d: seq<bv64>, mid: seq<bv64>, d': seq<bv64>, hash: Hasher, funcs: nat, tweak: nat, key: Key,
                        g: nat, rolled: bool)
    requires Even(d) && (if rolled then WipedOf(d, mid, g) else mid == d) &&
             MarkedOf(mid, d', hash, funcs, tweak, key, g)
    ensures InsertedOf(d, d', hash, funcs, tweak, key, g, rolled)
  {
  }

  function NextGeneration(g: nat): nat { if g + 1 == 4 then 1 else g + 1 }

  /** Wiping the reused label spares every key of the last two generations. */
  lemma WipeKeeps(d: seq<bv64>, d': seq<bv64>, hash: Hasher, funcs: nat, tweak: nat, key: Key, g: nat, age: nat)
    requires Even(d) && 1 <= g <= 3 && age <= 1 && WipedOf(d, d', NextGeneration(g))
    requires KeyLive(d, hash, funcs, tweak, key, g, age)
    ensures KeyLive(d', hash, funcs, tweak, key, NextGeneration(g), age + 1)
  {
    hide Tag, Slot, BitOf;
    forall n | 0 <= n < funcs
      ensures CellLive(d', hash(n, tweak, key), NextGeneration(g), age + 1)
    {
      assert CellLive(d, hash(n, tweak, key), g, age);
    }
  }

  lemma MarkKeeps(d: seq<bv64>, d': seq<bv64>, hash: Hasher, funcs: nat, tweak: nat, new': Key, key: Key, g: nat,
                  age: nat)
    requires Even(d) && 1 <= g <= 3 && MarkedOf(d, d', hash, funcs, tweak, new', g)
    requires KeyLive(d, hash, funcs, tweak, key, g, age)
    ensures KeyLive(d', hash, funcs, tweak, key, g, age)
  {
    hide Tag, Slot, BitOf, Hit;
    forall n | 0 <= n < funcs
      ensures CellLive(d', hash(n, tweak, key), g, age)
    {
      assert CellLive(d, hash(n, tweak, key), g, age);
    }
  }

  lemma MarkedIsLive(d: seq<bv64>, d': seq<bv64>, hash: Hasher, funcs: nat, tweak: nat, key: Key, g: nat)
    requires Even(d) && 1 <= g <= 3 && MarkedOf(d, d', hash, funcs, tweak, key, g)
    ensures KeyLive(d', hash, funcs, tweak, key, g, 0)
  {
  }

  // ---------------------------------------------------------------------------------------------
  // The filter
  // ---------------------------------------------------------------------------------------------

  /** How many generations ago insertion number `i` happened; `start` is the first one of this generation. */
  function KeyAge(i: nat, start: int, perGeneration: nat): nat {
    if i >= start then 0 else if i >= start - perGeneration then 1 else if i >= start - 2 * perGeneration then 2 else 3
  }

  class RollingFilter {
    const perGeneration: nat
    const hashFuncs: nat
    const hash: Hasher
    const data: array<bv64>
    var thisGeneration: nat
    var generation: nat
    var tweak: nat
    /** Everything inserted since the last reset, oldest first. */
    ghost var inserted: seq<Key>

    ghost predicate Shape()
      reads this
    {
      && perGeneration >= 1 && data.Length > 0 && data.Length % 2 == 0
      && 1 <= generation <= 3 && thisGeneration <= perGeneration && thisGeneration <= |inserted|
    }

    ghost function Age(i: nat): nat
      reads this
    {
      KeyAge(i, |inserted| - thisGeneration, perGeneration)
    }

    /** Every key of this and the last two generations has all its cells labelled at least as recently. */
    ghost predicate Valid()
      reads this, data
    {
      Shape() && forall i :: 0 <= i < |inserted| && Age(i) <= 2 ==>
                             KeyLive(data[..], hash, hashFuncs, tweak, inserted[i], generation, Age(i))
    }

    /** `words` and `funcs` stand for the sizes computed from the false-positive rate. */
    constructor (elements: nat, words: nat, funcs: nat, hasher: Hasher, seed: nat)
      requires elements >= 1 && words >= 1
      ensures Valid() && inserted == [] && fresh(data) && tweak == seed
      ensures perGeneration == (elements + 1) / 2 && hashFuncs == funcs && hash == hasher && data.Length == 2 * words
    {
      perGeneration := (elements + 1) / 2;
      hashFuncs := funcs;
      hash := hasher;
      data := new bv64[2 * words];
      thisGeneration := 0;
      generation := 1;
      tweak := seed;
      inserted := [];
      new;
      Reset(seed);
    }

    method Reset(seed: nat)
      requires Shape()
      modifies this, data
      ensures Valid() && inserted == [] && tweak == seed && thisGeneration == 0
      ensures forall k :: 0 <= k < data.Length ==> data[k] == 0
    {
      tweak := seed;
      thisGeneration := 0;
      generation := 1;
      inserted := [];
      for i := 0 to data.Length
        invariant forall k :: 0 <= k < i ==> data[k] == 0
        invariant inserted == [] && tweak == seed && thisGeneration == 0 && generation == 1
      {
        data[i] := 0;
      }
    }

    /** Start the next generation and empty the cells that carry its reused label. */
    method Roll()
      requires Valid() && thisGeneration == perGeneration
      modifies this, data
      ensures Valid() && inserted == old(inserted) && tweak == old(tweak)
      ensures thisGeneration == 0 && generation == NextGeneration(old(generation))
      ensures WipedOf(old(data[..]), data[..], generation)
    {
      ghost var d, g := data[..], generation;
      hide KeyLive, WipedOf, Tag;
      label before:
      thisGeneration := 0;
      generation := generation + 1;
      if generation == 4 {
        generation := 1;
      }
      Wipe();
      forall i | 0 <= i < |inserted| && Age(i) <= 2
        ensures KeyLive(data[..], hash, hashFuncs, tweak, inserted[i], generation, Age(i))
      {
        assert old@before(Age(i)) == Age(i) - 1;
        WipeKeeps(d, data[..], hash, hashFuncs, tweak, inserted[i], g, Age(i) - 1);
      }
    }

    method Wipe()
      requires Shape()
      modifies data
      ensures WipedOf(old(data[..]), data[..], generation)
    {
      ghost var d := data[..];
      hide Tag, Wiped, WipedTo, WipedOf;
      WipedNone(d, generation);
      var p := 0;
      while p < data.Length
        invariant 0 <= p <= data.Length && p % 2 == 0 && WipedTo(d, data[..], generation, p)
      {
        ghost var was := data[..];
        WipedNext(d, was, generation, p);
        var p1, p2 := data[p], data[p + 1];
        data[p] := Wiped(p1, p1, p2, generation);
        data[p + 1] := Wiped(p2, p1, p2, generation);
        assert data[..] == was[p := Wiped(p1, p1, p2, generation)][p + 1 := Wiped(p2, p1, p2, generation)];
        p := p + 2;
      }
      WipedAll(d, data[..], generation);
    }

    method Mark(key: Key)
      requires data.Length > 0 && data.Length % 2 == 0 && 1 <= generation <= 3
      modifies data
      ensures MarkedOf(old(data[..]), data[..], hash, hashFuncs, tweak, key, generation)
    {
      ghost var d := data[..];
      hide Tag, Stored, Slot, Hit, BitOf;
      MarkNone(d, hash, tweak, key, generation);
      hide MarkedOf;
      for n := 0 to hashFuncs
        invariant MarkedOf(d, data[..], hash, n, tweak, key, generation)
      {
        var h := hash(n, tweak, key);
        var w, bit := Slot(h, data.Length), BitOf(h);
        ghost var was := data[..];
        data[w] := Stored(data[w], bit, LowBit(generation));
        data[w + 1] := Stored(data[w + 1], bit, HighBit(generation));
        assert data[..] == Relabelled(was, h, generation);
        MarkStep(d, was, hash, n, tweak, key, generation);
      }
    }

    method Insert(key: Key)
      requires Valid()
      modifies this, data
      ensures Valid() && inserted == old(inserted) + [key] && tweak == old(tweak)
      ensures var rolled := old(thisGeneration) == perGeneration;
              && thisGeneration == (if rolled then 1 else old(thisGeneration) + 1)
              && generation == (if rolled then NextGeneration(old(generation)) else old(generation))
              && InsertedOf(old(data[..]), data[..], hash, hashFuncs, tweak, key, generation, rolled)
    {
      hide KeyLive, MarkedOf, WipedOf, InsertedOf;
      if thisGeneration == perGeneration {
        Roll();
      }
      ghost var d := data[..];
      label before:
      thisGeneration := thisGeneration + 1;
      Mark(key);
      inserted := inserted + [key];
      InsertedExactly(old(data[..]), d, data[..], hash, hashFuncs, tweak, key, generation,
                      old(thisGeneration) == perGeneration);
      MarkedIsLive(d, data[..], hash, hashFuncs, tweak, key, generation);
      forall i | 0 <= i < |inserted| && Age(i) <= 2
        ensures KeyLive(data[..], hash, hashFuncs, tweak, inserted[i], generation, Age(i))
      {
        if i < |inserted| - 1 {
          assert old@before(Age(i)) == Age(i);
          MarkKeeps(d, data[..], hash, hashFuncs, tweak, key, inserted[i], generation, Age(i));
        }
      }
    }

    ghost predicate Present(key: Key)
      requires Shape()
      reads this, data
    {
      forall n :: 0 <= n < hashFuncs ==>
                  TagAt(data[..], Slot(hash(n, tweak, key), data.Length), BitOf(hash(n, tweak, key))) != 0
    }

    /** True for every key among the insertions of this and the last two generations, so for at least the last
      * `elements` of them. */
    method Contains(key: Key) returns (r: bool)
      requires Valid()
      ensures r <==> Present(key)
      ensures key in Recent(inserted, 2 * perGeneration + thisGeneration) ==> r
    {
      RecentPresent(key);
      hide Tag, Has, Slot, BitOf;
      for n := 0 to hashFuncs
        invariant forall k :: 0 <= k < n ==>
                    TagAt(data[..], Slot(hash(k, tweak, key), data.Length), BitOf(hash(k, tweak, key))) != 0
      {
        var h := hash(n, tweak, key);
        var w := Slot(h, data.Length);
        JoinTag(data[w], data[w + 1], BitOf(h));
        if !Has(Join(data[w], data[w + 1]), BitOf(h)) {
          return false;
        }
      }
      return true;
    }

    lemma RecentPresent(key: Key)
      requires Valid()
      ensures key in Recent(inserted, 2 * perGeneration + thisGeneration) ==> Present(key)
    {
      hide Slot, BitOf, Tag;
      var r := Recent(inserted, 2 * perGeneration + thisGeneration);
      if key in r {
        var j :| 0 <= j < |r| && r[j] == key;
        var i := j + |inserted| - |r|;
        assert inserted[i] == key && Age(i) <= 2;
        forall n | 0 <= n < hashFuncs
          ensures TagAt(data[..], Slot(hash(n, tweak, key), data.Length), BitOf(hash(n, tweak, key))) != 0
        {
          assert CellLive(data[..], hash(n, tweak, key), generation, Age(i));
        }
      }
    }
  }

  /** The last `n` of the insertions. */
  ghost function Recent(keys: seq<Key>, n: nat): seq<Key> {
    if n >= |keys| then keys else keys[|keys| - n..]
  }

  lemma JoinTag(lo: bv64, hi: bv64, b: bv6)
    ensures Has(Join(lo, hi), b) <==> Tag(lo, hi, b) != 0
  {
    JoinBit(lo, hi, b);
  }

  lemma MarkNone(d: seq<bv64>, hash: Hasher, tweak: nat, key: Key, g: nat)
    requires Even(d)
    ensures MarkedOf(d, d, hash, 0, tweak, key, g)
  {
  }

  /** The word pair of hash `h` with the label of its cell replaced. */
  function Relabelled(d: seq<bv64>, h: Word32, g: nat): seq<bv64>
    requires |d| > 0 && |d| % 2 == 0
  {
    var w, b := Slot(h, |d|), BitOf(h);
    d[w := Stored(d[w], b, LowBit(g))][w + 1 := Stored(d[w + 1], b, HighBit(g))]
  }

  lemma RelabelledTag(d: seq<bv64>, h: Word32, g: nat, v: nat, b: bv6)
    requires Even(d) && 1 <= g <= 3 && v + 1 < |d| && v % 2 == 0
    ensures TagAt(Relabelled(d, h, g), v, b) == if v == Slot(h, |d|) && b == BitOf(h) then g else TagAt(d, v, b)
  {
    hide Tag, Stored, Slot, BitOf;
    var w := Slot(h, |d|);
    if v == w {
      StoredTag(d[w], d[w + 1], BitOf(h), g, b);
    }
  }

  lemma MarkStep(d: seq<bv64>, was: seq<bv64>, hash: Hasher, n: nat, tweak: nat, key: Key, g: nat)
    requires Even(d) && 1 <= g <= 3 && MarkedOf(d, was, hash, n, tweak, key, g)
    ensures MarkedOf(d, Relabelled(was, hash(n, tweak, key), g), hash, n + 1, tweak, key, g)
  {
    var now := Relabelled(was, hash(n, tweak, key), g);
    hide TagAt, Slot, BitOf, Hit, Relabelled;
    assert |now| == |d| by { RelabelledSize(was, hash(n, tweak, key), g); }
    forall v, b | 0 <= v < |d| - 1 && v % 2 == 0
      ensures TagAt(now, v, b) == if Hit(hash, n + 1, tweak, key, |d|, v, b) then g else TagAt(d, v, b)
    {
      HitNext(hash, n, tweak, key, |d|, v, b);
      RelabelledTag(was, hash(n, tweak, key), g, v, b);
    }
  }

  lemma RelabelledSize(d: seq<bv64>, h: Word32, g: nat)
    requires Even(d)
    ensures |Relabelled(d, h, g)| == |d|
  {
  }

  lemma HitNext(hash: Hasher, n: nat, tweak: nat, key: Key, size: nat, w: nat, b: bv6)
    requires size > 0 && size % 2 == 0
    ensures Hit(hash, n + 1, tweak, key, size, w, b)
            <==> Hit(hash, n, tweak, key, size, w, b)
                 || (Slot(hash(n, tweak, key), size) == w && BitOf(hash(n, tweak, key)) == b)
  {
  }
}
