/** The Bech32 code: a checksum over GF(32) and the text form around it (section "Bech32" of BIP 173). */
module Bech32 {
  import opened Basics

  type Char = bv8

  /** A five-bit value. */
  type Value = bv5

  // ---------------------------------------------------------------------------------------------
  // The checksum
  // ---------------------------------------------------------------------------------------------

  function Xor(a: bv32, b: bv32): bv32 { a ^ b }

  predicate Bit(c: bv32, n: bv5) { (c >> n) & 1 == 1 }

  function Pick(b: bool, k: bv32): bv32 { if b then k else 0 }

  /** The multiple of the generator that reduces the leading coefficient. */
  function Reduce(b0: bool, b1: bool, b2: bool, b3: bool, b4: bool): bv32 {
    Xor(Xor(Xor(Xor(Pick(b0, 0x3b6a57b2), Pick(b1, 0x26508e6d)), Pick(b2, 0x1ea119fa)), Pick(b3, 0x3d4233dd)),
        Pick(b4, 0x2a1462b3))
  }

  function Low(c: bv32): bv32 { (c & 0x1ffffff) << 5 }

  function Top(c: bv32): bv32 { Reduce(Bit(c, 25), Bit(c, 26), Bit(c, 27), Bit(c, 28), Bit(c, 29)) }

  /** Multiplication by x modulo the generator. */
  function Shift(c: bv32): bv32 { Xor(Low(c), Top(c)) }

  function Step(c: bv32, v: Value): bv32 { Xor(Shift(c), v as bv32) }

  /** The remainder after the values `vs`, from state `c`. */
  function Poly(c: bv32, vs: seq<Value>): bv32 {
    if vs == [] then c else Step(Poly(c, vs[..|vs| - 1]), vs[|vs| - 1])
  }

  // --- linearity ----------------------------------------------------------------------------------

  lemma XorIs(a: bv32, b: bv32)
    ensures Xor(a, b) == a ^ b
  {
  }

  lemma Regroup(p: bv32, q: bv32, r: bv32, s: bv32, x: bv32, y: bv32, z: bv32, w: bv32)
    requires x == p ^ q && y == r ^ s && z == p ^ r && w == q ^ s
    ensures x ^ y == z ^ w
  {
  }

  lemma XorSwap(p: bv32, q: bv32, r: bv32, s: bv32)
    ensures Xor(Xor(p, q), Xor(r, s)) == Xor(Xor(p, r), Xor(q, s))
  {
    hide Xor;
    XorIs(p, q);
    XorIs(r, s);
    XorIs(p, r);
    XorIs(q, s);
    XorIs(Xor(p, q), Xor(r, s));
    XorIs(Xor(p, r), Xor(q, s));
    Regroup(p, q, r, s, Xor(p, q), Xor(r, s), Xor(p, r), Xor(q, s));
  }

  ghost predicate BitsDiffer(a: bv32, b: bv32, c: bv32, n: bv5) { Bit(c, n) <==> Bit(a, n) != Bit(b, n) }

  lemma BitsXor(a: bv32, b: bv32, c: bv32)
    requires c == a ^ b
    ensures BitsDiffer(a, b, c, 25) && BitsDiffer(a, b, c, 26) && BitsDiffer(a, b, c, 27) && BitsDiffer(a, b, c, 28) &&
            BitsDiffer(a, b, c, 29)
  {
  }

  lemma PickXor(x: bool, y: bool, k: bv32)
    ensures Pick(x != y, k) == Xor(Pick(x, k), Pick(y, k))
  {
    if x && y {
      assert k ^ k == 0;
    } else if x {
      assert k ^ 0 == k;
    } else if y {
      assert 0 ^ k == k;
    }
  }

  lemma ReduceXor(a0: bool, a1: bool, a2: bool, a3: bool, a4: bool, b0: bool, b1: bool, b2: bool, b3: bool, b4: bool)
    ensures Reduce(a0 != b0, a1 != b1, a2 != b2, a3 != b3, a4 != b4) ==
            Xor(Reduce(a0, a1, a2, a3, a4), Reduce(b0, b1, b2, b3, b4))
  {
    hide Xor, Pick;
    PickXor(a0, b0, 0x3b6a57b2);
    PickXor(a1, b1, 0x26508e6d);
    PickXor(a2, b2, 0x1ea119fa);
    PickXor(a3, b3, 0x3d4233dd);
    PickXor(a4, b4, 0x2a1462b3);
    var p, q := Pick(a0, 0x3b6a57b2), Pick(b0, 0x3b6a57b2);
    XorSwap(p, q, Pick(a1, 0x26508e6d), Pick(b1, 0x26508e6d));
    p, q := Xor(p, Pick(a1, 0x26508e6d)), Xor(q, Pick(b1, 0x26508e6d));
    XorSwap(p, q, Pick(a2, 0x1ea119fa), Pick(b2, 0x1ea119fa));
    p, q := Xor(p, Pick(a2, 0x1ea119fa)), Xor(q, Pick(b2, 0x1ea119fa));
    XorSwap(p, q, Pick(a3, 0x3d4233dd), Pick(b3, 0x3d4233dd));
    p, q := Xor(p, Pick(a3, 0x3d4233dd)), Xor(q, Pick(b3, 0x3d4233dd));
    XorSwap(p, q, Pick(a4, 0x2a1462b3), Pick(b4, 0x2a1462b3));
  }

  lemma TopXor(a: bv32, b: bv32)
    ensures Top(Xor(a, b)) == Xor(Top(a), Top(b))
  {
    hide Bit, Reduce, Xor;
    XorIs(a, b);
    BitsXor(a, b, Xor(a, b));
    ReduceXor(Bit(a, 25), Bit(a, 26), Bit(a, 27), Bit(a, 28), Bit(a, 29), Bit(b, 25), Bit(b, 26), Bit(b, 27),
              Bit(b, 28), Bit(b, 29));
  }

  lemma LowXor(a: bv32, b: bv32)
    ensures Low(Xor(a, b)) == Xor(Low(a), Low(b))
  {
  }

  /** Multiplication by x is linear. */
  lemma ShiftLinear(a: bv32, b: bv32)
    ensures Shift(Xor(a, b)) == Xor(Shift(a), Shift(b))
  {
    hide Low, Top, Xor;
    TopXor(a, b);
    LowXor(a, b);
    XorSwap(Low(a), Low(b), Top(a), Top(b));
  }

  lemma ValueXor(v: Value, w: Value)
    ensures (v ^ w) as bv32 == Xor(v as bv32, w as bv32)
  {
  }

  /** Values added one by one. */
  function XorAll(vs: seq<Value>, ws: seq<Value>): (r: seq<Value>)
    requires |vs| == |ws|
    ensures |r| == |vs| && forall i :: 0 <= i < |r| ==> r[i] == vs[i] ^ ws[i]
  {
    seq(|vs|, i requires 0 <= i < |vs| => vs[i] ^ ws[i])
  }

  /** The checksum of a sum is the sum of the checksums. */
  lemma {:induction false} PolyLinear(a: bv32, b: bv32, vs: seq<Value>, ws: seq<Value>)
    requires |vs| == |ws|
    ensures Poly(Xor(a, b), XorAll(vs, ws)) == Xor(Poly(a, vs), Poly(b, ws))
    decreases |vs|
  {
    hide Step, Xor;
    if vs != [] {
      var n := |vs| - 1;
      PolyLinear(a, b, vs[..n], ws[..n]);
      assert XorAll(vs, ws)[..n] == XorAll(vs[..n], ws[..n]);
      StepLinear(Poly(a, vs[..n]), Poly(b, ws[..n]), vs[n], ws[n]);
    }
  }

  lemma StepLinear(p: bv32, q: bv32, v: Value, w: Value)
    ensures Step(Xor(p, q), v ^ w) == Xor(Step(p, v), Step(q, w))
  {
    hide Shift, Xor;
    ShiftLinear(p, q);
    ValueXor(v, w);
    XorSwap(Shift(p), Shift(q), v as bv32, w as bv32);
  }

  // --- injectivity --------------------------------------------------------------------------------

  /** Multiplication by x loses nothing on 30-bit states. */
  lemma ShiftInjective(c: bv32)
    requires c < 0x4000_0000 && Shift(c) == 0
    ensures c == 0
  {
  }

  lemma StepBound(c: bv32, v: Value)
    ensures Step(c, v) < 0x4000_0000
  {
  }

  lemma {:induction false} PolyBound(c: bv32, vs: seq<Value>)
    requires c < 0x4000_0000
    ensures Poly(c, vs) < 0x4000_0000
  {
    hide Step;
    if vs != [] {
      PolyBound(c, vs[..|vs| - 1]);
      StepBound(Poly(c, vs[..|vs| - 1]), vs[|vs| - 1]);
    }
  }

  ghost predicate AllZero(vs: seq<Value>) { forall i :: 0 <= i < |vs| ==> vs[i] == 0 }

  lemma StepZero(c: bv32)
    ensures Step(c, 0) == Shift(c)
  {
  }

  /** Zeros after a nonzero state keep it nonzero, and zeros after zero keep it zero. */
  lemma {:induction false} PolyZeros(c: bv32, vs: seq<Value>)
    requires AllZero(vs) && c < 0x4000_0000
    ensures Poly(c, vs) == 0 <==> c == 0
  {
    if vs == [] {
      return;
    }
    var d := Poly(c, vs[..|vs| - 1]);
    PolyZeros(c, vs[..|vs| - 1]);
    PolyBound(c, vs[..|vs| - 1]);
    StepZero(d);
    ShiftZero();
    if Shift(d) == 0 {
      ShiftInjective(d);
    }
    hide Shift, Step;
  }

  lemma ShiftZero()
    ensures Shift(0) == 0
  {
  }

  lemma {:induction false} PolyJoin(c: bv32, vs: seq<Value>, ws: seq<Value>)
    ensures Poly(c, vs + ws) == Poly(Poly(c, vs), ws)
    decreases |ws|
  {
    hide Step;
    if ws == [] {
      assert vs + ws == vs;
    } else {
      PolyJoin(c, vs, ws[..|ws| - 1]);
      assert (vs + ws)[..|vs + ws| - 1] == vs + ws[..|ws| - 1];
    }
  }

  /** Six values or fewer fit into the state without reduction. */
  function Room(k: nat): bv32
    requires k <= 5
  {
    if k == 0 then 1 else if k == 1 then 0x20 else if k == 2 then 0x400 else if k == 3 then 0x8000
      else if k == 4 then 0x10_0000 else 0x200_0000
  }

  lemma SmallStep(c: bv32, v: Value)
    requires c < 0x200_0000
    ensures Step(c, v) == (c << 5) | (v as bv32) && (Step(c, v) == 0 <==> c == 0 && v == 0)
  {
  }

  lemma RoomStep(c: bv32, v: Value, k: nat)
    requires k < 5 && c < Room(k)
    ensures Step(c, v) < Room(k + 1) && c < 0x200_0000
  {
    SmallStep(c, v);
    hide Step;
  }

  lemma {:induction false} WindowRoom(vs: seq<Value>)
    requires |vs| <= 5
    ensures Poly(0, vs) < Room(|vs|)
  {
    hide Step;
    if vs != [] {
      WindowRoom(vs[..|vs| - 1]);
      RoomStep(Poly(0, vs[..|vs| - 1]), vs[|vs| - 1], |vs| - 1);
    }
  }

  /** A window of at most six values leaves the zero state unless it is all zero. */
  lemma {:induction false} WindowNonzero(vs: seq<Value>)
    requires |vs| <= 6
    ensures Poly(0, vs) == 0 <==> AllZero(vs)
  {
    hide Step, Room;
    if vs != [] {
      var n := |vs| - 1;
      WindowNonzero(vs[..n]);
      WindowRoom(vs[..n]);
      RoomMonotone(n);
      SmallStep(Poly(0, vs[..n]), vs[n]);
      assert AllZero(vs) <==> AllZero(vs[..n]) && vs[n] == 0;
    }
  }

  lemma RoomMonotone(k: nat)
    requires k <= 5
    ensures Room(k) <= 0x200_0000
  {
  }

  /** The two strings of values differ nowhere but in `k` places from `i` on. */
  ghost predicate DifferWithin(vs: seq<Value>, ws: seq<Value>, i: nat, k: nat) {
    |vs| == |ws| && i + k <= |vs| && forall j :: 0 <= j < |vs| && !(i <= j < i + k) ==> vs[j] == ws[j]
  }

  lemma XorNone(v: Value, w: Value)
    ensures v ^ w == 0 <==> v == w
  {
  }

  lemma XorSame(a: bv32)
    ensures Xor(a, a) == 0
  {
  }

  lemma ErrorNonzero(e: seq<Value>, i: nat, k: nat)
    requires i + k <= |e| && k <= 6 && AllZero(e[..i]) && AllZero(e[i + k..]) && !AllZero(e)
    ensures Poly(0, e) != 0
  {
    hide Step;
    var a, b, c := e[..i], e[i..i + k], e[i + k..];
    assert e == (a + b) + c;
    PolyJoin(0, a + b, c);
    PolyJoin(0, a, b);
    PolyZeros(0, a);
    WindowNonzero(b);
    PolyBound(0, b);
    PolyZeros(Poly(0, b), c);
    assert forall j :: 0 <= j < i ==> e[j] == a[j];
    assert forall j :: i + k <= j < |e| ==> e[j] == c[j - i - k];
    var j :| 0 <= j < |e| && e[j] != 0;
    assert b[j - i] == e[j];
  }

  /** Every error confined to six neighbouring values changes the checksum, at any length; so does a single one. */
  lemma BurstDetected(vs: seq<Value>, ws: seq<Value>, i: nat, k: nat)
    requires DifferWithin(vs, ws, i, k) && k <= 6 && vs != ws
    ensures Poly(1, vs) != Poly(1, ws)
  {
    var e := XorAll(vs, ws);
    forall j | 0 <= j < |vs|
      ensures e[j] == 0 <==> vs[j] == ws[j]
    {
      XorNone(vs[j], ws[j]);
    }
    hide Step, Xor, Poly;
    ErrorNonzero(e, i, k);
    PolyLinear(1, 1, vs, ws);
    XorSame(1);
    XorSame(Poly(1, vs));
  }

  // --- creating a checksum ------------------------------------------------------------------------

  function Group(x: bv32, i: nat): Value
    requires i < 6
  {
    GroupFits(x, i);
    (if i == 0 then (x >> 25) & 31 else if i == 1 then (x >> 20) & 31 else if i == 2 then (x >> 15) & 31
     else if i == 3 then (x >> 10) & 31 else if i == 4 then (x >> 5) & 31 else x & 31) as bv5
  }

  lemma GroupFits(x: bv32, i: nat)
    ensures (x >> 25) & 31 < 32 && (x >> 20) & 31 < 32 && (x >> 15) & 31 < 32 && (x >> 10) & 31 < 32 &&
            (x >> 5) & 31 < 32 && x & 31 < 32
  {
  }

  /** The six groups of a 30-bit number, most significant first. */
  function Groups(x: bv32): (r: seq<Value>)
    ensures |r| == 6 && forall i :: 0 <= i < 6 ==> r[i] == Group(x, i)
  {
    [Group(x, 0), Group(x, 1), Group(x, 2), Group(x, 3), Group(x, 4), Group(x, 5)]
  }

  /** The number made of the first `i` groups. */
  function Leading(x: bv32, i: nat): bv32
    requires i <= 6
  {
    if i == 0 then 0 else if i == 1 then x >> 25 else if i == 2 then x >> 20 else if i == 3 then x >> 15
    else if i == 4 then x >> 10 else if i == 5 then x >> 5 else x
  }

  lemma StepGroup0(x: bv32)
    requires x < 0x4000_0000
    ensures Step(Leading(x, 0), Group(x, 0)) == Leading(x, 1)
  {
  }

  lemma StepGroup1(x: bv32)
    requires x < 0x4000_0000
    ensures Step(Leading(x, 1), Group(x, 1)) == Leading(x, 2)
  {
  }

  lemma StepGroup2(x: bv32)
    requires x < 0x4000_0000
    ensures Step(Leading(x, 2), Group(x, 2)) == Leading(x, 3)
  {
  }

  lemma StepGroup3(x: bv32)
    requires x < 0x4000_0000
    ensures Step(Leading(x, 3), Group(x, 3)) == Leading(x, 4)
  {
  }

  lemma StepGroup4(x: bv32)
    requires x < 0x4000_0000
    ensures Step(Leading(x, 4), Group(x, 4)) == Leading(x, 5)
  {
  }

  lemma StepGroup5(x: bv32)
    requires x < 0x4000_0000
    ensures Step(Leading(x, 5), Group(x, 5)) == Leading(x, 6)
  {
  }

  lemma PackGroups(x: bv32)
    requires x < 0x4000_0000
    ensures Poly(0, Groups(x)) == x
  {
    assert Leading(x, 0) == 0 && Leading(x, 6) == x;
    hide Step, Group, Groups, Leading;
    StepGroup0(x);
    StepGroup1(x);
    StepGroup2(x);
    StepGroup3(x);
    StepGroup4(x);
    StepGroup5(x);
    PolyChain(Groups(x), Leading(x, 1), Leading(x, 2), Leading(x, 3), Leading(x, 4), Leading(x, 5), Leading(x, 6));
  }

  lemma PolyChain(g: seq<Value>, c1: bv32, c2: bv32, c3: bv32, c4: bv32, c5: bv32, c6: bv32)
    requires |g| == 6 && Step(0, g[0]) == c1 && Step(c1, g[1]) == c2 && Step(c2, g[2]) == c3
    requires Step(c3, g[3]) == c4 && Step(c4, g[4]) == c5 && Step(c5, g[5]) == c6
    ensures Poly(0, g) == c6
  {
    hide Step;
    PolySix(g);
  }

  lemma PolySix(g: seq<Value>)
    requires |g| == 6
    ensures Poly(0, g) == Step(Step(Step(Step(Step(Step(0, g[0]), g[1]), g[2]), g[3]), g[4]), g[5])
  {
    hide Step;
    assert g[..5][..4] == g[..4] && g[..4][..3] == g[..3] && g[..3][..2] == g[..2] && g[..2][..1] == g[..1];
    assert Poly(0, g[..1]) == Step(0, g[0]);
    assert Poly(0, g[..2]) == Step(Poly(0, g[..1]), g[1]);
    assert Poly(0, g[..3]) == Step(Poly(0, g[..2]), g[2]);
    assert Poly(0, g[..4]) == Step(Poly(0, g[..3]), g[3]);
    assert Poly(0, g[..5]) == Step(Poly(0, g[..4]), g[4]);
  }

  function Zeros(n: nat): (r: seq<Value>)
    ensures |r| == n && AllZero(r)
  {
    seq(n, i => 0)
  }

  /** The checksum values make the whole check out: the remainder becomes one. */
  lemma ChecksumWorks(pre: seq<Value>)
    ensures Poly(1, pre + Groups(Xor(Poly(1, pre + Zeros(6)), 1))) == 1
  {
    var m := Poly(1, pre + Zeros(6));
    PolyBound(1, pre + Zeros(6));
    XorBound(m);
    var cs := Groups(Xor(m, 1));
    PackGroups(Xor(m, 1));
    XorTwice(m);
    XorZeroRight(1);
    hide Step, Xor, Groups;
    XorPadded(pre, cs);
    PolyLinear(1, 0, pre + Zeros(6), Zeros(|pre|) + cs);
    PolyJoin(0, Zeros(|pre|), cs);
    PolyZeros(0, Zeros(|pre|));
  }

  lemma XorPadded(pre: seq<Value>, cs: seq<Value>)
    requires |cs| == 6
    ensures XorAll(pre + Zeros(6), Zeros(|pre|) + cs) == pre + cs
  {
  }

  lemma XorBound(m: bv32)
    requires m < 0x4000_0000
    ensures Xor(m, 1) < 0x4000_0000
  {
  }

  lemma XorTwice(m: bv32)
    ensures Xor(m, Xor(m, 1)) == 1
  {
  }

  lemma XorZeroRight(a: bv32)
    ensures Xor(a, 0) == a
  {
  }

  /** One round of the checksum loop, bit by bit of the leading coefficient. */
  method StepOnce(c: bv32, v: Value) returns (r: bv32)
    ensures r == Step(c, v)
  {
    hide Step, Pick, Bit;
    var c0 := c >> 25;
    CoefficientBits(c, c0);
    r := ((c & 0x1ffffff) << 5) ^ (v as bv32);
    StartOf(c, v as bv32);
    ghost var start := r;
    hide Xor, Low;
    r := AddIf(c0 & 1 != 0, r, 0x3b6a57b2);
    r := AddIf(c0 & 2 != 0, r, 0x26508e6d);
    r := AddIf(c0 & 4 != 0, r, 0x1ea119fa);
    r := AddIf(c0 & 8 != 0, r, 0x3d4233dd);
    r := AddIf(c0 & 16 != 0, r, 0x2a1462b3);
    StepByBits(c, v, start, r);
  }

  method AddIf(b: bool, c: bv32, k: bv32) returns (r: bv32)
    ensures r == Xor(c, Pick(b, k))
  {
    r := c;
    if b {
      r := r ^ k;
    }
  }

  lemma CoefficientBits(c: bv32, c0: bv32)
    requires c0 == c >> 25
    ensures (c0 & 1 != 0 <==> Bit(c, 25)) && (c0 & 2 != 0 <==> Bit(c, 26)) && (c0 & 4 != 0 <==> Bit(c, 27))
    ensures (c0 & 8 != 0 <==> Bit(c, 28)) && (c0 & 16 != 0 <==> Bit(c, 29))
  {
  }

  lemma StepByBits(c: bv32, v: Value, start: bv32, r: bv32)
    requires start == Xor(Low(c), v as bv32)
    requires r == Xor(Xor(Xor(Xor(Xor(start, Pick(Bit(c, 25), 0x3b6a57b2)), Pick(Bit(c, 26), 0x26508e6d)),
                              Pick(Bit(c, 27), 0x1ea119fa)), Pick(Bit(c, 28), 0x3d4233dd)),
                                Pick(Bit(c, 29), 0x2a1462b3))
    ensures r == Step(c, v)
  {
    hide Xor, Pick, Bit, Low;
    Reorder(Low(c), v as bv32, Pick(Bit(c, 25), 0x3b6a57b2), Pick(Bit(c, 26), 0x26508e6d), Pick(Bit(c, 27), 0x1ea119fa),
            Pick(Bit(c, 28), 0x3d4233dd), Pick(Bit(c, 29), 0x2a1462b3));
  }

  lemma StartOf(c: bv32, w: bv32)
    ensures ((c & 0x1ffffff) << 5) ^ w == Xor(Low(c), w)
  {
  }

  lemma XorRotate(a: bv32, b: bv32, p: bv32)
    ensures Xor(Xor(a, b), p) == Xor(Xor(a, p), b)
  {
    hide Xor;
    XorIs(a, b);
    XorIs(a, p);
    XorIs(Xor(a, b), p);
    XorIs(Xor(a, p), b);
    Rotate(a, b, p, Xor(a, b), Xor(a, p));
  }

  lemma Rotate(a: bv32, b: bv32, p: bv32, x: bv32, y: bv32)
    requires x == a ^ b && y == a ^ p
    ensures x ^ p == y ^ b
  {
  }

  lemma XorGroup(a: bv32, b: bv32, p: bv32)
    ensures Xor(Xor(a, b), p) == Xor(a, Xor(b, p))
  {
    hide Xor;
    XorIs(a, b);
    XorIs(b, p);
    XorIs(Xor(a, b), p);
    XorIs(a, Xor(b, p));
    Associate(a, b, p, Xor(a, b), Xor(b, p));
  }

  lemma Associate(a: bv32, b: bv32, p: bv32, x: bv32, y: bv32)
    requires x == a ^ b && y == b ^ p
    ensures x ^ p == a ^ y
  {
  }

  lemma Reorder(l: bv32, w: bv32, p0: bv32, p1: bv32, p2: bv32, p3: bv32, p4: bv32)
    ensures Xor(Xor(Xor(Xor(Xor(Xor(l, w), p0), p1), p2), p3), p4) ==
            Xor(Xor(l, Xor(Xor(Xor(Xor(p0, p1), p2), p3), p4)), w)
  {
    hide Xor;
    XorRotate(l, w, p0);
    XorRotate(Xor(l, p0), w, p1);
    XorGroup(l, p0, p1);
    var q := Xor(p0, p1);
    XorRotate(Xor(l, q), w, p2);
    XorGroup(l, q, p2);
    q := Xor(q, p2);
    XorRotate(Xor(l, q), w, p3);
    XorGroup(l, q, p3);
    q := Xor(q, p3);
    XorRotate(Xor(l, q), w, p4);
    XorGroup(l, q, p4);
  }

  method PolyMod(vs: seq<Value>) returns (c: bv32)
    ensures c == Poly(1, vs)
  {
    hide Step;
    c := 1;
    for i := 0 to |vs|
      invariant c == Poly(1, vs[..i])
    {
      assert vs[..i + 1][..i] == vs[..i];
      c := StepOnce(c, vs[i]);
    }
    assert vs[..|vs|] == vs;
  }

  // ---------------------------------------------------------------------------------------------
  // The text form
  // ---------------------------------------------------------------------------------------------

  /** The character of a value. */
  function Charset(v: Value): Char {
    if v == 0 then 113 else if v == 1 then 112 else if v == 2 then 122 else if v == 3 then 114
      else if v == 4 then 121 else
    if v == 5 then 57 else if v == 6 then 120 else if v == 7 then 56 else if v == 8 then 103
      else if v == 9 then 102 else
    if v == 10 then 50 else if v == 11 then 116 else if v == 12 then 118 else if v == 13 then 100
      else if v == 14 then 119 else
    if v == 15 then 48 else if v == 16 then 115 else if v == 17 then 51 else if v == 18 then 106
      else if v == 19 then 110 else
    if v == 20 then 53 else if v == 21 then 52 else if v == 22 then 107 else if v == 23 then 104
      else if v == 24 then 99 else
    if v == 25 then 101 else if v == 26 then 54 else if v == 27 then 109 else if v == 28 then 117
      else if v == 29 then 97 else
    if v == 30 then 55 else 108
  }

  function LowerCase(c: Char): Char { if 65 <= c <= 90 then c - 65 + 97 else c }

  /** The value of a character, in either case. */
  function CharsetRev(c: Char): Option<Value> { LowerRev(LowerCase(c)) }

  function LowerRev(d: Char): Option<Value> {
    if d == 113 then Some(0) else if d == 112 then Some(1) else if d == 122 then Some(2)
      else if d == 114 then Some(3) else
    if d == 121 then Some(4) else if d == 57 then Some(5) else if d == 120 then Some(6)
      else if d == 56 then Some(7) else
    if d == 103 then Some(8) else if d == 102 then Some(9) else if d == 50 then Some(10)
      else if d == 116 then Some(11) else
    if d == 118 then Some(12) else if d == 100 then Some(13) else if d == 119 then Some(14)
      else if d == 48 then Some(15) else
    if d == 115 then Some(16) else if d == 51 then Some(17) else if d == 106 then Some(18)
      else if d == 110 then Some(19) else
    if d == 53 then Some(20) else if d == 52 then Some(21) else if d == 107 then Some(22)
      else if d == 104 then Some(23) else
    if d == 99 then Some(24) else if d == 101 then Some(25) else if d == 54 then Some(26)
      else if d == 109 then Some(27) else
    if d == 117 then Some(28) else if d == 97 then Some(29) else if d == 55 then Some(30)
      else if d == 108 then Some(31) else
    None
  }

  lemma RevOfCharset(v: Value)
    ensures CharsetRev(Charset(v)) == Some(v)
  {
    CharsetPlain(v);
    if v < 16 {
      RevOfLow(v);
    } else {
      RevOfHigh(v);
    }
    hide Charset, LowerRev;
  }

  lemma RevOfLow(v: Value)
    requires v < 16
    ensures LowerRev(Charset(v)) == Some(v)
  {
  }

  lemma RevOfHigh(v: Value)
    requires v >= 16
    ensures LowerRev(Charset(v)) == Some(v)
  {
  }

  lemma CharsetPlain(v: Value)
    ensures 33 <= Charset(v) <= 126 && !(65 <= Charset(v) <= 90) && Charset(v) != 49
  {
  }

  lemma CharsetOfRev(c: Char)
    ensures CharsetRev(c).Some? ==> Charset(CharsetRev(c).value) == LowerCase(c)
    ensures CharsetRev(c) == CharsetRev(LowerCase(c)) && (c == 49 <==> LowerCase(c) == 49)
  {
    CharsetOfLower(LowerCase(c));
    hide Charset, LowerRev;
    assert LowerCase(LowerCase(c)) == LowerCase(c);
  }

  lemma CharsetOfLower(d: Char)
    ensures LowerRev(d).Some? ==> Charset(LowerRev(d).value) == d
  {
  }

  function HighPart(c: Char): Value {
    PartsFit(c);
    (c >> 5) as bv5
  }

  function LowPart(c: Char): Value {
    PartsFit(c);
    (c & 31) as bv5
  }

  lemma PartsFit(c: Char)
    ensures c >> 5 < 32 && c & 31 < 32
  {
  }

  /** The prefix as values: the high bits of every character, a zero, the low bits of every character. */
  function Expand(hrp: seq<Char>): (r: seq<Value>)
    ensures |r| == 2 * |hrp| + 1
  {
    seq(|hrp|, i requires 0 <= i < |hrp| => HighPart(hrp[i])) + [0] +
      seq(|hrp|, i requires 0 <= i < |hrp| => LowPart(hrp[i]))
  }

  method ExpandHRP(hrp: seq<Char>) returns (r: seq<Value>)
    ensures r == Expand(hrp)
  {
    var n := |hrp|;
    r := Zeros(2 * n + 1);
    for i := 0 to n
      invariant |r| == 2 * n + 1
      invariant forall k :: 0 <= k < i ==> r[k] == HighPart(hrp[k]) && r[k + n + 1] == LowPart(hrp[k])
    {
      r := r[i := HighPart(hrp[i])][i + n + 1 := LowPart(hrp[i])];
    }
    r := r[n := 0];
    var e := Expand(hrp);
    forall k | 0 <= k < |r|
      ensures r[k] == e[k]
    {
      if k > n {
        assert r[k] == r[(k - n - 1) + n + 1];
      }
    }
  }

  ghost predicate Verifies(hrp: seq<Char>, vs: seq<Value>) { Poly(1, Expand(hrp) + vs) == 1 }

  function ChecksumOf(hrp: seq<Char>, vs: seq<Value>): (r: seq<Value>)
    ensures |r| == 6
  {
    Groups(Xor(Poly(1, Expand(hrp) + vs + Zeros(6)), 1))
  }

  /** A string of values with its checksum verifies, and no other six values do. */
  lemma ChecksumUnique(hrp: seq<Char>, vs: seq<Value>, cs: seq<Value>)
    requires |cs| == 6
    ensures Verifies(hrp, vs + cs) <==> cs == ChecksumOf(hrp, vs)
  {
    var pre, right := Expand(hrp) + vs, ChecksumOf(hrp, vs);
    ChecksumWorks(pre);
    hide Poly, Groups, Xor, Expand;
    assert Expand(hrp) + (vs + cs) == pre + cs;
    if cs != right {
      assert (pre + cs)[|pre|..] == cs && (pre + right)[|pre|..] == right;
      BurstDetected(pre + cs, pre + right, |pre|, 6);
    }
  }

  method VerifyChecksum(hrp: seq<Char>, vs: seq<Value>) returns (r: bool)
    ensures r <==> Verifies(hrp, vs)
  {
    var e := ExpandHRP(hrp);
    var c := PolyMod(e + vs);
    r := c == 1;
  }

  method CreateChecksum(hrp: seq<Char>, vs: seq<Value>) returns (r: seq<Value>)
    ensures r == ChecksumOf(hrp, vs) && Verifies(hrp, vs + r)
  {
    hide Poly, Expand, Group;
    var e := ExpandHRP(hrp);
    var mod := PolyMod(e + vs + Zeros(6));
    mod := Xor(mod, 1);
    r := [];
    for i := 0 to 6
      invariant r == Groups(mod)[..i]
    {
      r := r + [Group(mod, i)];
    }
    assert Groups(mod)[..6] == Groups(mod);
    ChecksumUnique(hrp, vs, r);
  }

  function Chars(vs: seq<Value>): (r: seq<Char>)
    ensures |r| == |vs| && forall i :: 0 <= i < |r| ==> r[i] == Charset(vs[i])
  {
    seq(|vs|, i requires 0 <= i < |vs| => Charset(vs[i]))
  }

  /** The text: prefix, separator, values, checksum. */
  function Text(hrp: seq<Char>, vs: seq<Value>): seq<Char> { hrp + [49] + Chars(vs + ChecksumOf(hrp, vs)) }

  predicate IsUpper(c: Char) { 65 <= c <= 90 }

  predicate IsLower(c: Char) { 97 <= c <= 122 }

  method Encode(hrp: seq<Char>, vs: seq<Value>) returns (r: seq<Char>)
    requires forall i :: 0 <= i < |hrp| ==> !IsUpper(hrp[i])
    ensures r == Text(hrp, vs)
  {
    hide ChecksumOf, Charset;
    var checksum := CreateChecksum(hrp, vs);
    var combined := vs + checksum;
    r := hrp + [49];
    for i := 0 to |combined|
      invariant r == hrp + [49] + Chars(combined)[..i]
    {
      r := r + [Charset(combined[i])];
    }
    assert Chars(combined)[..|combined|] == Chars(combined);
  }

  function LowerAll(s: seq<Char>): (r: seq<Char>)
    ensures |r| == |s| && forall i :: 0 <= i < |r| ==> r[i] == LowerCase(s[i])
  {
    seq(|s|, i requires 0 <= i < |s| => LowerCase(s[i]))
  }

  /** Printable characters of one case only. */
  ghost predicate Clean(s: seq<Char>) {
    && (forall i :: 0 <= i < |s| ==> 33 <= s[i] <= 126)
    && !((exists i :: 0 <= i < |s| && IsLower(s[i])) && exists i :: 0 <= i < |s| && IsUpper(s[i]))
  }

  /** `s` is, up to case, the text of `hrp` and `vs`. */
  ghost predicate Coded(s: seq<Char>, hrp: seq<Char>, vs: seq<Value>) {
    Clean(s) && |s| <= 90 && |hrp| >= 1 && LowerAll(s) == Text(hrp, vs)
  }

  /** The character check of the decoder. */
  method CheckChars(s: seq<Char>) returns (ok: bool)
    ensures ok <==> Clean(s)
  {
    var lower, upper := false, false;
    for i := 0 to |s|
      invariant forall k :: 0 <= k < i ==> 33 <= s[k] <= 126
      invariant lower <==> exists k :: 0 <= k < i && IsLower(s[k])
      invariant upper <==> exists k :: 0 <= k < i && IsUpper(s[k])
    {
      var c := s[i];
      if IsLower(c) {
        lower := true;
      } else if IsUpper(c) {
        upper := true;
      } else if c < 33 || c > 126 {
        return false;
      }
    }
    return !(lower && upper);
  }

  /** The position of the last separator, or -1. */
  method LastSeparator(s: seq<Char>) returns (pos: int)
    ensures -1 <= pos < |s| && (pos >= 0 ==> s[pos] == 49) && forall k :: pos < k < |s| ==> s[k] != 49
  {
    pos := |s| - 1;
    while pos >= 0 && s[pos] != 49
      invariant -1 <= pos < |s| && forall k :: pos < k < |s| ==> s[k] != 49
    {
      pos := pos - 1;
    }
  }

  /** The values of the characters from `from` on. */
  method ReadValues(s: seq<Char>, from: nat) returns (ok: bool, vs: seq<Value>)
    requires from <= |s|
    ensures ok <==> forall k :: from <= k < |s| ==> CharsetRev(s[k]).Some?
    ensures ok ==> |vs| == |s| - from && forall k :: from <= k < |s| ==> CharsetRev(s[k]) == Some(vs[k - from])
  {
    hide CharsetRev;
    vs := [];
    for i := from to |s|
      invariant |vs| == i - from && forall k :: from <= k < i ==> CharsetRev(s[k]) == Some(vs[k - from])
    {
      var rev := CharsetRev(s[i]);
      if rev == None {
        return false, [];
      }
      vs := vs + [rev.value];
    }
    ok := true;
  }

  /** Decoding accepts exactly the coded strings, and gives back what they code. */
  method Decode(s: seq<Char>) returns (r: Option<(seq<Char>, seq<Value>)>)
    ensures r.Some? ==> Coded(s, r.value.0, r.value.1)
    ensures r == None ==> forall hrp, vs :: !Coded(s, hrp, vs)
    ensures forall hrp, vs :: Coded(s, hrp, vs) ==> r == Some((hrp, vs))
  {
    hide Charset, CharsetRev, LowerCase, Text;
    var clean := CheckChars(s);
    if !clean {
      return None;
    }
    var pos := LastSeparator(s);
    forall hrp, vs | Coded(s, hrp, vs)
      ensures pos == |hrp| && pos + 7 <= |s| && forall k :: pos < k < |s| ==> CharsetRev(s[k]).Some?
    {
      CodedShape(s, hrp, vs, pos);
    }
    if |s| > 90 || pos == -1 || pos == 0 || pos + 7 > |s| {
      return None;
    }
    var ok, values := ReadValues(s, pos + 1);
    if !ok {
      return None;
    }
    var hrp := LowerAll(s[..pos]);
    var verified := VerifyChecksum(hrp, values);
    forall h, vs | Coded(s, h, vs)
      ensures verified && h == hrp && vs == values[..|values| - 6]
    {
      CodedIsRead(s, h, vs, pos, hrp, values);
    }
    if !verified {
      return None;
    }
    ReadIsCoded(s, pos, hrp, values);
    return Some((hrp, values[..|values| - 6]));
  }

  lemma CodedShape(s: seq<Char>, hrp: seq<Char>, vs: seq<Value>, pos: int)
    requires Coded(s, hrp, vs) && -1 <= pos < |s|
    requires (pos >= 0 ==> s[pos] == 49) && forall k :: pos < k < |s| ==> s[k] != 49
    ensures pos == |hrp| && pos + 7 <= |s| && forall k :: pos < k < |s| ==> CharsetRev(s[k]).Some?
  {
    var t, all := Text(hrp, vs), vs + ChecksumOf(hrp, vs);
    hide Charset, CharsetRev, LowerCase, ChecksumOf;
    forall k | 0 <= k < |s|
      ensures s[k] == 49 <==> t[k] == 49
      ensures k > |hrp| ==> t[k] != 49 && CharsetRev(s[k]).Some?
    {
      CharsetOfRev(s[k]);
      if k > |hrp| {
        var v := all[k - |hrp| - 1];
        assert t[k] == Charset(v);
        CharsetPlain(v);
        RevOfCharset(v);
      }
    }
    assert t[|hrp|] == 49;
  }

  lemma CodedIsRead(s: seq<Char>, hrp: seq<Char>, vs: seq<Value>, pos: nat, h: seq<Char>, values: seq<Value>)
    requires Coded(s, hrp, vs) && pos == |hrp| < |s| && h == LowerAll(s[..pos]) && |values| == |s| - pos - 1 >= 6
    requires forall k :: pos < k < |s| ==> CharsetRev(s[k]) == Some(values[k - pos - 1])
    ensures Verifies(h, values) && h == hrp && vs == values[..|values| - 6]
  {
    var t, all := Text(hrp, vs), vs + ChecksumOf(hrp, vs);
    hide Charset, CharsetRev, LowerCase, ChecksumOf, Verifies;
    assert h == hrp;
    forall j | 0 <= j < |values|
      ensures values[j] == all[j]
    {
      var k := j + pos + 1;
      assert t[k] == Charset(all[j]);
      CharsetOfRev(s[k]);
      RevOfCharset(all[j]);
    }
    assert values == all;
    ChecksumUnique(hrp, vs, ChecksumOf(hrp, vs));
  }

  lemma ReadIsCoded(s: seq<Char>, pos: nat, hrp: seq<Char>, values: seq<Value>)
    requires Clean(s) && |s| <= 90 && 1 <= pos < |s| && s[pos] == 49 && hrp == LowerAll(s[..pos]) &&
             |values| == |s| - pos - 1 >= 6
    requires forall k :: pos < k < |s| ==> CharsetRev(s[k]) == Some(values[k - pos - 1])
    requires Verifies(hrp, values)
    ensures Coded(s, hrp, values[..|values| - 6])
  {
    hide Charset, CharsetRev, LowerCase, ChecksumOf, Verifies, Clean, Chars, LowerAll;
    var n := |values| - 6;
    var vs, cs := values[..n], values[n..];
    assert vs + cs == values;
    ChecksumUnique(hrp, vs, cs);
    ReadText(s, pos, hrp, values);
  }

  lemma ReadText(s: seq<Char>, pos: nat, hrp: seq<Char>, values: seq<Value>)
    requires pos < |s| && s[pos] == 49 && hrp == LowerAll(s[..pos]) && |values| == |s| - pos - 1
    requires forall k :: pos < k < |s| ==> CharsetRev(s[k]) == Some(values[k - pos - 1])
    ensures LowerAll(s) == hrp + [49] + Chars(values)
  {
    hide Charset, CharsetRev, LowerCase, Chars, LowerAll;
    var t := hrp + [49] + Chars(values);
    forall k | 0 <= k < |s|
      ensures LowerAll(s)[k] == t[k]
    {
      CharsetOfRev(s[k]);
      if k > pos {
        assert t[k] == Chars(values)[k - pos - 1];
      }
    }
  }

  /** Decoding undoes encoding exactly for a legal prefix: printable, without upper case, not empty, and short
    * enough. */
  method EncodeDecode(hrp: seq<Char>, vs: seq<Value>) returns (r: Option<(seq<Char>, seq<Value>)>)
    requires forall i :: 0 <= i < |hrp| ==> !IsUpper(hrp[i])
    ensures r == Some((hrp, vs)) <==> 1 <= |hrp| && |hrp| + |vs| + 7 <= 90 && forall i :: 0 <= i < |hrp| ==>
            33 <= hrp[i] <= 126
  {
    var s := Encode(hrp, vs);
    TextIsCoded(hrp, vs);
    hide *;
    r := Decode(s);
  }

  lemma TextIsCoded(hrp: seq<Char>, vs: seq<Value>)
    requires forall i :: 0 <= i < |hrp| ==> !IsUpper(hrp[i])
    ensures Coded(Text(hrp, vs), hrp, vs) <==> 1 <= |hrp| && |hrp| + |vs| + 7 <= 90 && forall i :: 0 <= i < |hrp| ==>
            33 <= hrp[i] <= 126
  {
    var s, all := Text(hrp, vs), vs + ChecksumOf(hrp, vs);
    hide Charset, ChecksumOf;
    forall k | 0 <= k < |s|
      ensures k > |hrp| ==> 33 <= s[k] <= 126
      ensures !IsUpper(s[k]) && LowerCase(s[k]) == s[k]
    {
      if k > |hrp| {
        CharsetPlain(all[k - |hrp| - 1]);
      }
    }
    assert LowerAll(s) == s;
    assert forall i :: 0 <= i < |hrp| ==> s[i] == hrp[i];
  }
}
