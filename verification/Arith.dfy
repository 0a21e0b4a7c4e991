/** Multi-limb unsigned integers: `pn` is a little-endian array of 32-bit limbs and every operation is
  * proved equal to arithmetic on `Value` modulo two to the bit width. */
module Arith {

  const BASE := 0x1_0000_0000

  type Limb = x: int | 0 <= x < 0x1_0000_0000 witness 0

  // ---------------------------------------------------------------------------------------------
  // Powers of two
  // ---------------------------------------------------------------------------------------------

  function Pow2(n: nat): (r: nat)
    ensures r >= 1
  {
    if n == 0 then 1 else 2 * Pow2(n - 1)
  }

  lemma {:induction false} Pow2Add(a: nat, b: nat)
    ensures Pow2(a + b) == Pow2(a) * Pow2(b)
  {
    if a > 0 {
      Pow2Add(a - 1, b);
      assert Pow2(a + b) == 2 * Pow2(a - 1 + b);
      assert 2 * (Pow2(a - 1) * Pow2(b)) == (2 * Pow2(a - 1)) * Pow2(b);
    }
  }

  lemma {:induction false} Pow2Monotone(a: nat, b: nat)
    requires a <= b
    ensures Pow2(a) <= Pow2(b)
  {
    if a < b {
      Pow2Monotone(a, b - 1);
    }
  }

  lemma Pow2Values()
    ensures Pow2(8) == 256 && Pow2(15) == 0x8000 && Pow2(16) == 0x1_0000 && Pow2(23) == 0x80_0000
    ensures Pow2(24) == 0x100_0000 && Pow2(31) == 0x8000_0000 && Pow2(32) == BASE
  {
    assert Pow2(8) == 256;
    Pow2Add(8, 7);
    Pow2Add(8, 8);
    Pow2Add(16, 7);
    Pow2Add(16, 8);
    Pow2Add(16, 15);
    Pow2Add(16, 16);
  }

  lemma LimbStep(i: nat)
    ensures Pow2(32 * (i + 1)) == BASE * Pow2(32 * i)
  {
    Pow2Values();
    Pow2Add(32, 32 * i);
  }

  // --- division facts -----------------------------------------------------------------------------

  lemma MulSub(a: int, b: int, c: int)
    ensures (a - b) * c == a * c - b * c
  {
  }

  lemma MulAssoc(a: int, b: int, c: int)
    ensures a * (b * c) == (a * b) * c
  {
  }

  lemma MulAtLeast(a: int, d: int)
    requires a >= 1 && d >= 0
    ensures a * d >= d
  {
  }

  lemma DivMod(x: int, d: int)
    requires d > 0
    ensures x == (x / d) * d + x % d && 0 <= x % d < d
  {
  }

  lemma DivUnique(x: int, d: int, q: int, r: int)
    requires d > 0 && x == q * d + r && 0 <= r < d
    ensures x / d == q && x % d == r
  {
    DivMod(x, d);
    MulSub(q, x / d, d);
    if q > x / d {
      MulAtLeast(q - x / d, d);
    } else if q < x / d {
      MulSub(x / d, q, d);
      MulAtLeast(x / d - q, d);
    }
  }

  lemma MulMonotone(a: int, b: int, c: int)
    requires a <= b && c >= 0
    ensures a * c <= b * c
  {
  }

  lemma ModSmall(x: int, d: int)
    requires 0 <= x < d
    ensures x % d == x && x / d == 0
  {
  }

  lemma ModOfMultiple(x: int, k: int, d: int)
    requires d > 0
    ensures (x + k * d) % d == x % d
  {
    DivUnique(x + k * d, d, x / d + k, x % d);
  }

  lemma DivTwice(x: nat, a: nat, b: nat)
    requires a >= 1 && b >= 1
    ensures b * a >= 1 && x / (b * a) == (x / a) / b
  {
    MulAtLeast(b, a);
    DivMod(x, a);
    DivMod(x / a, b);
    var q, r, s := (x / a) / b, (x / a) % b, x % a;
    assert x == (q * b + r) * a + s;
    assert (q * b + r) * a == q * (b * a) + r * a;
    MulLess(r, b, a);
    DivUnique(x, b * a, q, r * a + s);
  }

  // ---------------------------------------------------------------------------------------------
  // Bitwise or
  // ---------------------------------------------------------------------------------------------

  function Or(x: nat, y: nat): nat {
    if x == 0 then y else 2 * Or(x / 2, y / 2) + (if x % 2 == 1 || y % 2 == 1 then 1 else 0)
  }

  /** Numbers without a common bit: or is addition. */
  lemma {:induction false} OrDisjoint(x: nat, y: nat, s: nat)
    requires x < Pow2(s) && y % Pow2(s) == 0
    ensures Or(x, y) == x + y && Or(y, x) == x + y
    decreases s
  {
    if s == 0 {
      OrZero(y);
    } else {
      var h := Pow2(s - 1);
      assert y == (y / Pow2(s)) * Pow2(s);
      var k := y / Pow2(s);
      assert y == 2 * (k * h);
      DivUnique(y / 2, h, k, 0);
      OrDisjoint(x / 2, y / 2, s - 1);
      OrZero(x);
      OrZero(y);
    }
  }

  lemma {:induction false} OrZero(y: nat)
    ensures Or(y, 0) == y && Or(0, y) == y
  {
    if y > 0 {
      OrZero(y / 2);
    }
  }

  // ---------------------------------------------------------------------------------------------
  // The value of a limb sequence
  // ---------------------------------------------------------------------------------------------

  function Value(s: seq<Limb>): nat {
    if s == [] then 0 else Value(s[..|s| - 1]) + s[|s| - 1] * Pow2(32 * (|s| - 1))
  }

  lemma {:induction false} ValueBound(s: seq<Limb>)
    ensures Value(s) < Pow2(32 * |s|)
  {
    if s != [] {
      var n := |s| - 1;
      ValueBound(s[..n]);
      LimbStep(n);
      MulMonotone(s[n], BASE - 1, Pow2(32 * n));
      MulSub(BASE, 1, Pow2(32 * n));
    }
  }

  lemma ValuePrefix(s: seq<Limb>, i: nat)
    requires i < |s|
    ensures Value(s[..i + 1]) == Value(s[..i]) + s[i] * Pow2(32 * i)
  {
    assert s[..i + 1][..i] == s[..i];
  }

  lemma {:induction false} ValueUpdate(s: seq<Limb>, i: nat, x: Limb)
    requires i < |s|
    ensures Value(s[i := x]) == Value(s) + (x - s[i]) * Pow2(32 * i)
  {
    var n := |s| - 1;
    if i == n {
      assert s[i := x][..n] == s[..n];
      assert x * Pow2(32 * n) == s[n] * Pow2(32 * n) + (x - s[n]) * Pow2(32 * n);
    } else {
      ValueUpdate(s[..n], i, x);
      assert s[i := x][..n] == s[..n][i := x];
    }
  }

  lemma Distribute(p: int, a: int, b: int, q: int)
    ensures p * (a + b * q) == p * a + b * (p * q)
  {
  }

  /** The value splits at any limb. */
  lemma {:induction false} ValueSplit(s: seq<Limb>, i: nat)
    requires i <= |s|
    ensures Value(s) == Value(s[..i]) + Pow2(32 * i) * Value(s[i..])
    decreases |s|
  {
    hide Pow2;
    var n := |s| - 1;
    if i == |s| {
      assert s[..i] == s && s[i..] == [];
    } else {
      ValueSplit(s[..n], i);
      assert s[..n][..i] == s[..i];
      var t := s[i..];
      assert t[..|t| - 1] == s[..n][i..] && t[|t| - 1] == s[n];
      Pow2Add(32 * i, 32 * (n - i));
      Distribute(Pow2(32 * i), Value(t[..|t| - 1]), s[n], Pow2(32 * (n - i)));
    }
  }

  lemma {:induction false} ValueZeros(s: seq<Limb>)
    requires forall i :: 0 <= i < |s| ==> s[i] == 0
    ensures Value(s) == 0
  {
    if s != [] {
      ValueZeros(s[..|s| - 1]);
    }
  }

  /** Limb sequences of one width are determined by their value. */
  lemma {:induction false} ValueInjective(s: seq<Limb>, t: seq<Limb>)
    requires |s| == |t| && Value(s) == Value(t)
    ensures s == t
  {
    if s != [] {
      var n := |s| - 1;
      ValueBound(s[..n]);
      ValueBound(t[..n]);
      DivUnique(Value(s), Pow2(32 * n), s[n], Value(s[..n]));
      DivUnique(Value(t), Pow2(32 * n), t[n], Value(t[..n]));
      ValueInjective(s[..n], t[..n]);
      assert s == s[..n] + [s[n]] && t == t[..n] + [t[n]];
    }
  }

  /** A limb and a carry hold what was added up. */
  lemma CarryStep(n: int, p: int)
    ensures (n % BASE) * p + (n / BASE) * (BASE * p) == n * p
  {
  }

  /** Dropping the last carry is reduction modulo the width. */
  lemma CarryDropped(s: seq<Limb>, carry: nat, total: nat)
    requires Value(s) + carry * Pow2(32 * |s|) == total
    ensures Value(s) == total % Pow2(32 * |s|)
  {
    ValueBound(s);
    DivUnique(total, Pow2(32 * |s|), carry, Value(s));
  }

  // ---------------------------------------------------------------------------------------------
  // Addition and subtraction
  // ---------------------------------------------------------------------------------------------

  lemma AddStep(xs: seq<Limb>, ys: seq<Limb>, zs: seq<Limb>, i: nat, carry: nat)
    requires |xs| == |ys| == |zs| && i < |xs|
    requires Value(zs[..i]) + carry * Pow2(32 * i) == Value(xs[..i]) + Value(ys[..i])
    requires zs[i] == (carry + xs[i] + ys[i]) % BASE
    ensures Value(zs[..i + 1]) + ((carry + xs[i] + ys[i]) / BASE) * Pow2(32 * (i + 1)) ==
            Value(xs[..i + 1]) + Value(ys[..i + 1])
  {
    hide Value, Pow2;
    var p := Pow2(32 * i);
    ValuePrefix(xs, i);
    ValuePrefix(ys, i);
    ValuePrefix(zs, i);
    LimbStep(i);
    CarryStep(carry + xs[i] + ys[i], p);
    assert (carry + xs[i] + ys[i]) * p == carry * p + xs[i] * p + ys[i] * p;
  }

  /** operator+=; `b` may be the number itself. */
  method Add(pn: array<Limb>, b: array<Limb>)
    requires pn.Length == b.Length
    modifies pn
    ensures Value(pn[..]) == (old(Value(pn[..])) + old(Value(b[..]))) % Pow2(32 * pn.Length)
  {
    hide Value, Pow2;
    ghost var xs, ys := pn[..], b[..];
    var carry: nat := 0;
    EmptyValue(xs);
    EmptyValue(ys);
    EmptyValue(pn[..]);
    for i := 0 to pn.Length
      invariant carry <= 1
      invariant forall k :: i <= k < pn.Length ==> pn[k] == xs[k] && b[k] == ys[k]
      invariant Value(pn[..i]) + carry * Pow2(32 * i) == Value(xs[..i]) + Value(ys[..i])
    {
      ghost var before := pn[..];
      var n := carry + pn[i] + b[i];
      pn[i] := n % BASE;
      assert pn[..][..i] == before[..i] == pn[..i];
      AddStep(xs, ys, pn[..], i, carry);
      assert pn[..][..i + 1] == pn[..i + 1];
      carry := n / BASE;
    }
    assert pn[..pn.Length] == pn[..] && xs[..pn.Length] == xs && ys[..pn.Length] == ys;
    CarryDropped(pn[..], carry, Value(xs) + Value(ys));
  }

  lemma EmptyValue(s: seq<Limb>)
    ensures Value(s[..0]) == 0
  {
  }

  lemma {:induction false} ComplementValue(s: seq<Limb>, t: seq<Limb>)
    requires |s| == |t| && forall i :: 0 <= i < |s| ==> t[i] == BASE - 1 - s[i]
    ensures Value(t) == Pow2(32 * |s|) - 1 - Value(s)
  {
    if s != [] {
      var n := |s| - 1;
      ComplementValue(s[..n], t[..n]);
      LimbStep(n);
      MulSub(BASE - 1, s[n], Pow2(32 * n));
      MulSub(BASE, 1, Pow2(32 * n));
    }
  }

  /** operator~ */
  method Complement(pn: array<Limb>) returns (ret: array<Limb>)
    ensures fresh(ret) && ret.Length == pn.Length
    ensures Value(ret[..]) == Pow2(32 * pn.Length) - 1 - Value(pn[..])
  {
    ret := new Limb[pn.Length];
    for i := 0 to pn.Length
      invariant forall k :: 0 <= k < i ==> ret[k] == BASE - 1 - pn[k]
    {
      ret[i] := BASE - 1 - pn[i];
    }
    ComplementValue(pn[..], ret[..]);
  }

  /** Adding one at limb `i`: it either stops there or carries on to the next limb. */
  lemma IncrementStep(s: seq<Limb>, i: nat, x: Limb)
    requires i < |s| && x == (s[i] as int + 1) % BASE
    ensures Value(s[i := x]) + (if x == 0 then Pow2(32 * (i + 1)) else 0) == Value(s) + Pow2(32 * i)
  {
    hide Value, Pow2;
    LimbStep(i);
    ValueUpdate(s, i, x);
    StepProduct(s[i], x, Pow2(32 * i));
  }

  lemma DecrementStep(s: seq<Limb>, i: nat, x: Limb)
    requires i < |s| && x == (s[i] as int - 1) % BASE
    ensures Value(s[i := x]) - (if x == BASE - 1 then Pow2(32 * (i + 1)) else 0) == Value(s) - Pow2(32 * i)
  {
    hide Value, Pow2;
    LimbStep(i);
    ValueUpdate(s, i, x);
    StepProduct(x, s[i], Pow2(32 * i));
  }

  /** The step from a limb to its successor, which is zero after the largest one. */
  lemma StepProduct(x: Limb, y: Limb, p: int)
    requires y == (x as int + 1) % BASE
    ensures (y - x) * p == if y == 0 then p - BASE * p else p
    ensures (x - y) * p == if y == 0 then BASE * p - p else 0 - p
  {
    ScaledBy(y - x, if y == 0 then 1 - BASE else 1, p);
    ScaledBy(x - y, if y == 0 then BASE - 1 else 0 - 1, p);
  }

  lemma ScaledBy(d: int, c: int, p: int)
    requires d == c && c in {1 - BASE, 1, BASE - 1, 0 - 1}
    ensures d * p == if c == 1 - BASE then p - BASE * p else if c == 1 then p else if c == BASE - 1 then BASE * p - p
            else 0 - p
  {
  }

  /** Limbs that differ from `v` by a multiple of the modulus hold `v` reduced. */
  lemma Reduced(s: seq<Limb>, v: int, k: int)
    requires Value(s) + k * Pow2(32 * |s|) == v
    ensures Value(s) == v % Pow2(32 * |s|)
  {
    ValueBound(s);
    hide Value, Pow2;
    DivUnique(v, Pow2(32 * |s|), k, Value(s));
  }

  /** operator++ */
  method Increment(pn: array<Limb>)
    modifies pn
    ensures Value(pn[..]) == (old(Value(pn[..])) + 1) % Pow2(32 * pn.Length)
  {
    ghost var v := Value(pn[..]);
    var i := 0;
    assert Pow2(0) == 1;
    hide Value, Pow2;
    while i < pn.Length
      invariant 0 <= i <= pn.Length && Value(pn[..]) + Pow2(32 * i) == v + 1
    {
      ghost var s := pn[..];
      pn[i] := (pn[i] + 1) % BASE;
      IncrementStep(s, i, pn[i]);
      assert pn[..] == s[i := pn[i]];
      if pn[i] != 0 {
        Reduced(pn[..], v + 1, 0);
        return;
      }
      i := i + 1;
    }
    Reduced(pn[..], v + 1, 1);
  }

  /** operator-- */
  method Decrement(pn: array<Limb>)
    modifies pn
    ensures Value(pn[..]) == (old(Value(pn[..])) - 1) % Pow2(32 * pn.Length)
  {
    ghost var v := Value(pn[..]);
    var i := 0;
    assert Pow2(0) == 1;
    hide Value, Pow2;
    while i < pn.Length
      invariant 0 <= i <= pn.Length && Value(pn[..]) == v - 1 + Pow2(32 * i)
    {
      ghost var s := pn[..];
      pn[i] := (pn[i] - 1) % BASE;
      DecrementStep(s, i, pn[i]);
      assert pn[..] == s[i := pn[i]];
      if pn[i] != BASE - 1 {
        Reduced(pn[..], v - 1, 0);
        return;
      }
      i := i + 1;
    }
    Reduced(pn[..], v - 1, -1);
  }

  /** Unary operator- */
  method Negate(pn: array<Limb>) returns (ret: array<Limb>)
    ensures fresh(ret) && ret.Length == pn.Length
    ensures Value(ret[..]) == (0 - Value(pn[..])) % Pow2(32 * pn.Length)
  {
    hide Value, Pow2;
    ret := Complement(pn);
    Increment(ret);
    ModOfMultiple(0 - Value(pn[..]), 1, Pow2(32 * pn.Length));
  }

  lemma SubtractByAdding(x: int, y: int, m: int)
    requires m > 0
    ensures (x + (0 - y) % m) % m == (x - y) % m
  {
    DivMod(0 - y, m);
    MulSub(0, (0 - y) / m, m);
    ModOfMultiple(x - y, 0 - (0 - y) / m, m);
  }

  /** operator-=; `b` may be the number itself. */
  method Sub(pn: array<Limb>, b: array<Limb>)
    requires pn.Length == b.Length
    modifies pn
    ensures Value(pn[..]) == (old(Value(pn[..])) - old(Value(b[..]))) % Pow2(32 * pn.Length)
  {
    hide Value, Pow2;
    ghost var x, y, m := Value(pn[..]), Value(b[..]), Pow2(32 * pn.Length);
    var neg := Negate(b);
    Add(pn, neg);
    SubtractByAdding(x, y, m);
  }

  // ---------------------------------------------------------------------------------------------
  // Multiplication
  // ---------------------------------------------------------------------------------------------

  /** One limb product entered into an accumulator with its carry. */
  lemma MulStep(s: seq<Limb>, t: nat, carry: nat, x: nat)
    requires t < |s|
    ensures var n := carry + s[t] + x;
            Value(s[t := n % BASE]) + (n / BASE) * Pow2(32 * (t + 1)) ==
              Value(s) + carry * Pow2(32 * t) + x * Pow2(32 * t)
  {
    hide Value, Pow2;
    var n, p := carry + s[t] + x, Pow2(32 * t);
    ValueUpdate(s, t, n % BASE);
    LimbStep(t);
    CarryStep(n, p);
    MulSub(n % BASE, s[t], p);
    assert n * p == carry * p + s[t] * p + x * p;
  }

  /** operator*= with a 32-bit factor. */
  method MulLimb(pn: array<Limb>, b32: Limb)
    modifies pn
    ensures Value(pn[..]) == (old(Value(pn[..])) * b32) % Pow2(32 * pn.Length)
  {
    hide Value, Pow2;
    ghost var xs := pn[..];
    var carry: nat := 0;
    EmptyValue(xs);
    EmptyValue(pn[..]);
    for i := 0 to pn.Length
      invariant carry < BASE
      invariant forall k :: i <= k < pn.Length ==> pn[k] == xs[k]
      invariant Value(pn[..i]) + carry * Pow2(32 * i) == Value(xs[..i]) * b32
    {
      ghost var before := pn[..];
      var n := carry + b32 * pn[i];
      ProductFits(carry, b32, pn[i], 0);
      pn[i] := n % BASE;
      assert pn[..][..i] == before[..i] == pn[..i] && pn[..][..i + 1] == pn[..i + 1];
      MulLimbStep(xs, pn[..], i, carry, b32);
      carry := n / BASE;
    }
    assert pn[..pn.Length] == pn[..] && xs[..pn.Length] == xs;
    CarryDropped(pn[..], carry, Value(xs) * b32);
  }

  lemma MulLimbStep(xs: seq<Limb>, zs: seq<Limb>, i: nat, carry: nat, b: Limb)
    requires |xs| == |zs| && i < |xs|
    requires Value(zs[..i]) + carry * Pow2(32 * i) == Value(xs[..i]) * b
    requires zs[i] == (carry + b * xs[i]) % BASE
    ensures Value(zs[..i + 1]) + ((carry + b * xs[i]) / BASE) * Pow2(32 * (i + 1)) == Value(xs[..i + 1]) * b
  {
    hide Value, Pow2;
    var p, n := Pow2(32 * i), carry + b * xs[i];
    ValuePrefix(xs, i);
    ValuePrefix(zs, i);
    LimbStep(i);
    CarryStep(n, p);
    assert n * p == carry * p + (b * xs[i]) * p;
    assert (Value(xs[..i]) + xs[i] * p) * b == Value(xs[..i]) * b + (xs[i] * p) * b;
    assert (xs[i] * p) * b == (b * xs[i]) * p;
  }

  /** A 64-bit accumulator does not overflow: its carry is a limb again. */
  lemma ProductFits(carry: nat, x: Limb, y: Limb, z: Limb)
    requires carry < BASE
    ensures 0 <= carry + z + x * y < 0x1_0000_0000_0000_0000
    ensures 0 <= (carry + z + x * y) / BASE < BASE
  {
    LimbProduct(x, y);
    SquareBound(carry + z + x * y);
  }

  lemma LimbProduct(x: Limb, y: Limb)
    ensures 0 <= x * y <= 0xFFFF_FFFE_0000_0001
  {
    MulMonotone(0, x, y);
    MulMonotone(x, 0xFFFF_FFFF, y);
  }

  lemma SquareBound(n: int)
    requires 0 <= n < BASE * BASE
    ensures 0 <= n < 0x1_0000_0000_0000_0000 && 0 <= n / BASE < BASE
  {
  }

  /** operator*=; `b` may be the number itself. */
  method Mul(pn: array<Limb>, b: array<Limb>)
    requires pn.Length == b.Length
    modifies pn
    ensures Value(pn[..]) == (old(Value(pn[..])) * old(Value(b[..]))) % Pow2(32 * pn.Length)
  {
    var a := new Limb[pn.Length](_ => 0);
    ValueZeros(a[..]);
    hide Value, Pow2;
    MulRows(a, pn, b);
    ValueBound(a[..]);
    ModSmall(Value(a[..]), Pow2(32 * pn.Length));
    Assign(pn, a);
  }

  /** operator= */
  method Assign(pn: array<Limb>, b: array<Limb>)
    requires pn.Length == b.Length
    modifies pn
    ensures pn[..] == old(b[..])
  {
    for i := 0 to pn.Length
      invariant forall k :: 0 <= k < i ==> pn[k] == old(b[k])
      invariant forall k :: i <= k < pn.Length ==> b[k] == old(b[k])
    {
      pn[i] := b[i];
    }
  }

  /** The outer loop: accumulates the product in `a`, which is zero at first. */
  method MulRows(a: array<Limb>, pn: array<Limb>, b: array<Limb>)
    requires a.Length == pn.Length == b.Length && a != pn && a != b && Value(a[..]) == 0
    modifies a
    ensures Value(a[..]) % Pow2(32 * a.Length) == (Value(pn[..]) * Value(b[..])) % Pow2(32 * a.Length)
  {
    hide Value, Pow2;
    ghost var xs, ys := pn[..], b[..];
    EmptyValue(xs);
    for j := 0 to a.Length
      invariant Value(a[..]) % Pow2(32 * a.Length) == (Value(xs[..j]) * Value(ys)) % Pow2(32 * a.Length)
    {
      ghost var before := Value(a[..]);
      assert b[..a.Length - j] == ys[..a.Length - j];
      MulRow(a, b, pn[j], j);
      RowAdded(xs, ys, j, before, Value(a[..]));
    }
    assert xs[..a.Length] == xs;
  }

  /** The inner loop: adds one row of the product at limb `j`, dropping what exceeds the width. */
  method MulRow(a: array<Limb>, b: array<Limb>, x: Limb, j: nat)
    requires a != b && a.Length == b.Length && j < a.Length
    modifies a
    ensures Value(a[..]) % Pow2(32 * a.Length)
            == (old(Value(a[..])) + (x * Value(b[..a.Length - j])) * Pow2(32 * j)) % Pow2(32 * a.Length)
  {
    hide Value, Pow2;
    var carry: nat := 0;
    ghost var v := Value(a[..]);
    EmptyValue(b[..]);
    var i := 0;
    while i + j < a.Length
      invariant 0 <= i <= a.Length - j && carry < BASE
      invariant Value(a[..]) + carry * Pow2(32 * (i + j)) == v + (x * Value(b[..i])) * Pow2(32 * j)
    {
      carry := MulCell(a, i + j, carry, x, b[i]);
      RowStep(b[..], i, j, x);
      assert b[..][..i] == b[..i] && b[..][..i + 1] == b[..i + 1];
      i := i + 1;
    }
    ModOfMultiple(Value(a[..]), carry, Pow2(32 * a.Length));
  }

  method MulCell(a: array<Limb>, t: nat, carry: nat, x: Limb, y: Limb) returns (carry': nat)
    requires t < a.Length && carry < BASE
    modifies a
    ensures carry' < BASE
    ensures Value(a[..]) + carry' * Pow2(32 * (t + 1)) ==
            old(Value(a[..])) + carry * Pow2(32 * t) + (x * y) * Pow2(32 * t)
  {
    hide Value, Pow2;
    ghost var s: seq<Limb> := a[..];
    var n := carry + a[t] + x * y;
    ProductFits(carry, x, y, a[t]);
    MulStep(s, t, carry, x * y);
    a[t] := n % BASE;
    ghost var low: Limb := n % BASE;
    assert a[..] == s[t := low];
    carry' := n / BASE;
  }

  lemma RowStep(b: seq<Limb>, i: nat, j: nat, x: nat)
    requires i < |b|
    ensures (x * Value(b[..i + 1])) * Pow2(32 * j) == (x * Value(b[..i])) * Pow2(32 * j) +
            (x * b[i]) * Pow2(32 * (i + j))
  {
    hide Value, Pow2;
    ValuePrefix(b, i);
    Pow2Add(32 * i, 32 * j);
    var p, q, v := Pow2(32 * i), Pow2(32 * j), Value(b[..i]);
    assert x * (v + b[i] * p) == x * v + x * (b[i] * p);
    MulAssoc(x, b[i], p);
    MulAssoc(x * b[i], p, q);
    assert (x * v + (x * b[i]) * p) * q == (x * v) * q + ((x * b[i]) * p) * q;
  }

  /** A full row differs from the truncated one by a multiple of the modulus. */
  lemma RowAdded(xs: seq<Limb>, ys: seq<Limb>, j: nat, before: nat, after: nat)
    requires |xs| == |ys| && j < |xs|
    requires before % Pow2(32 * |xs|) == (Value(xs[..j]) * Value(ys)) % Pow2(32 * |xs|)
    requires after % Pow2(32 * |xs|) == (before + (xs[j] * Value(ys[..|xs| - j])) * Pow2(32 * j)) % Pow2(32 * |xs|)
    ensures after % Pow2(32 * |xs|) == (Value(xs[..j + 1]) * Value(ys)) % Pow2(32 * |xs|)
  {
    hide Value, Pow2;
    var w := |xs|;
    var m, p, q := Pow2(32 * w), Pow2(32 * j), Pow2(32 * (w - j));
    var lo, hi := Value(ys[..w - j]), Value(ys[w - j..]);
    ValuePrefix(xs, j);
    ValueSplit(ys, w - j);
    Pow2Add(32 * j, 32 * (w - j));
    var r := (xs[j] * lo) * p;
    // before and the finished rows agree modulo m
    var k := before / m - (Value(xs[..j]) * Value(ys)) / m;
    DivMod(before, m);
    DivMod(Value(xs[..j]) * Value(ys), m);
    MulSub(before / m, (Value(xs[..j]) * Value(ys)) / m, m);
    assert before == Value(xs[..j]) * Value(ys) + k * m;
    // the row that is missing
    RowExcess(xs[j], p, q, lo, hi);
    assert (Value(xs[..j]) + xs[j] * p) * Value(ys) == Value(xs[..j]) * Value(ys) + (xs[j] * p) * Value(ys);
    var total := Value(xs[..j + 1]) * Value(ys);
    assert before + r == total + (k - xs[j] * hi) * m by {
      MulSub(k, xs[j] * hi, m);
    }
    ModOfMultiple(total, k - xs[j] * hi, m);
  }

  lemma RowExcess(x: int, p: int, q: int, lo: int, hi: int)
    ensures (x * p) * (lo + q * hi) == (x * lo) * p + (x * hi) * (p * q)
  {
  }

  // ---------------------------------------------------------------------------------------------
  // Comparison and size
  // ---------------------------------------------------------------------------------------------

  /** The highest differing limb decides. */
  lemma CompareAt(xs: seq<Limb>, ys: seq<Limb>, i: nat)
    requires |xs| == |ys| && i < |xs| && xs[i + 1..] == ys[i + 1..] && xs[i] < ys[i]
    ensures Value(xs) < Value(ys)
  {
    hide Value, Pow2;
    ValueSplit(xs, i + 1);
    ValueSplit(ys, i + 1);
    ValuePrefix(xs, i);
    ValuePrefix(ys, i);
    ValueBound(xs[..i]);
    var p := Pow2(32 * i);
    MulMonotone(xs[i] + 1, ys[i], p);
    assert (xs[i] + 1) * p == xs[i] * p + p;
  }

  method CompareTo(pn: array<Limb>, b: array<Limb>) returns (r: int)
    requires pn.Length == b.Length
    ensures r == if Value(pn[..]) < Value(b[..]) then -1 else if Value(pn[..]) > Value(b[..]) then 1 else 0
  {
    hide Value, Pow2;
    for i := pn.Length downto 0
      invariant pn[i..] == b[i..]
    {
      if pn[i] < b[i] {
        CompareAt(pn[..], b[..], i);
        return -1;
      }
      if pn[i] > b[i] {
        CompareAt(b[..], pn[..], i);
        return 1;
      }
    }
    assert pn[..] == pn[0..] == b[0..] == b[..];
    return 0;
  }

  lemma LowLimbs(s: seq<Limb>)
    requires |s| >= 2
    ensures Value(s[..2]) == s[0] + s[1] * BASE
  {
    Pow2Values();
    ValuePrefix(s, 0);
    ValuePrefix(s, 1);
  }

  lemma HighLimbsZero(s: seq<Limb>, i: nat)
    requires i <= |s| && forall k :: i <= k < |s| ==> s[k] == 0
    ensures Value(s) == Value(s[..i])
  {
    ValueSplit(s, i);
    ValueZeros(s[i..]);
  }

  /** Assignment from a 64-bit number. */
  method SetU64(pn: array<Limb>, b: int)
    requires pn.Length >= 2 && 0 <= b < BASE * BASE
    modifies pn
    ensures Value(pn[..]) == b
  {
    pn[0] := b % BASE;
    pn[1] := b / BASE;
    for i := 2 to pn.Length
      invariant pn[0] == b % BASE && pn[1] == b / BASE
      invariant forall k :: 2 <= k < i ==> pn[k] == 0
    {
      pn[i] := 0;
    }
    hide Value, Pow2;
    LowLimbs(pn[..]);
    HighLimbsZero(pn[..], 2);
  }

  method EqualTo(pn: array<Limb>, b: int) returns (r: bool)
    requires pn.Length >= 2 && 0 <= b < BASE * BASE
    ensures r <==> Value(pn[..]) == b
  {
    hide Value, Pow2;
    ghost var s: seq<Limb> := pn[..];
    LowLimbs(s);
    for i := pn.Length downto 2
      invariant forall k :: i <= k < pn.Length ==> pn[k] == 0
    {
      if pn[i] != 0 {
        AboveLow(s, i);
        return false;
      }
    }
    HighLimbsZero(s, 2);
    return pn[1] == b / BASE && pn[0] == b % BASE;
  }

  lemma AboveLow(s: seq<Limb>, i: nat)
    requires 2 <= i < |s| && s[i] != 0
    ensures Value(s) >= BASE * BASE
  {
    hide Value;
    ValueSplit(s, i);
    ValueSplit(s[i..], 1);
    assert s[i..][..1] == [s[i]];
    SingleLimb(s[i]);
    Pow2Values();
    hide Pow2;
    Pow2Add(32, 32);
    Pow2Monotone(64, 32 * i);
    MulAtLeast(Value(s[i..]), Pow2(32 * i));
  }

  lemma SingleLimb(x: Limb)
    ensures Value([x]) == x
  {
  }

  method GetLow64(pn: array<Limb>) returns (r: int)
    requires pn.Length >= 2
    ensures r == Value(pn[..]) % (BASE * BASE)
  {
    hide Value;
    ghost var s: seq<Limb> := pn[..];
    r := pn[0] + pn[1] * BASE;
    LowLimbs(s);
    ValueSplit(s, 2);
    Pow2Values();
    hide Pow2;
    Pow2Add(32, 32);
    ModOfMultiple(r, Value(s[2..]), BASE * BASE);
    ModSmall(r, BASE * BASE);
  }

  /** The number of bits: the position of the highest one plus one. */
  ghost predicate IsBitLength(x: nat, n: nat) {
    x < Pow2(n) && (n > 0 ==> Pow2(n - 1) <= x)
  }

  lemma LimbBits(s: seq<Limb>, pos: nat, nbits: nat)
    requires pos < |s| && (forall k :: pos < k < |s| ==> s[k] == 0)
    requires Pow2(nbits) <= s[pos] < Pow2(nbits + 1)
    ensures IsBitLength(Value(s), 32 * pos + nbits + 1)
  {
    hide Value, Pow2;
    HighLimbsZero(s, pos + 1);
    ValuePrefix(s, pos);
    ValueBound(s[..pos]);
    Pow2Add(nbits, 32 * pos);
    Pow2Add(nbits + 1, 32 * pos);
    var p, x: int := Pow2(32 * pos), s[pos];
    MulMonotone(Pow2(nbits), x, p);
    MulMonotone(x + 1, Pow2(nbits + 1), p);
    assert (x + 1) * p == x * p + p;
  }

  method Bits(pn: array<Limb>) returns (n: nat)
    ensures IsBitLength(Value(pn[..]), n) && n <= 32 * pn.Length
  {
    hide Value, IsBitLength;
    Pow2Values();
    ghost var s: seq<Limb> := pn[..];
    for pos := pn.Length downto 0
      invariant forall k :: pos <= k < pn.Length ==> pn[k] == 0
    {
      if pn[pos] != 0 {
        var nbits := TopBit(pn[pos]);
        LimbBits(s, pos, nbits);
        return 32 * pos + nbits + 1;
      }
    }
    ValueZeros(s);
    ZeroBits();
    return 0;
  }

  lemma ZeroBits()
    ensures IsBitLength(0, 0)
  {
  }

  /** The inner loop of bits(): the highest set bit of a limb. */
  method TopBit(x: Limb) returns (nbits: nat)
    requires x != 0
    ensures nbits < 32 && Pow2(nbits) <= x < Pow2(nbits + 1)
  {
    Pow2Values();
    nbits := 31;
    while nbits > 0
      invariant nbits < 32 && x < Pow2(nbits + 1)
    {
      if (x / Pow2(nbits)) % 2 == 1 {
        TopBitSet(x, nbits);
        return;
      }
      TopBitClear(x, nbits);
      nbits := nbits - 1;
    }
  }

  lemma TopBitSet(x: nat, n: nat)
    requires (x / Pow2(n)) % 2 == 1
    ensures Pow2(n) <= x
  {
    if x < Pow2(n) {
      ModSmall(x, Pow2(n));
    }
  }

  lemma TopBitClear(x: nat, n: nat)
    requires n > 0 && x < Pow2(n + 1) && (x / Pow2(n)) % 2 != 1
    ensures x < Pow2(n)
  {
    if x >= Pow2(n) {
      DivUnique(x, Pow2(n), 1, x - Pow2(n));
    }
  }

  // ---------------------------------------------------------------------------------------------
  // Shifts
  // ---------------------------------------------------------------------------------------------

  /** What a limb shifted left by `s` bits keeps and what it hands to the next limb. */
  function ShlLow(x: Limb, s: nat): Limb { (x * Pow2(s)) % BASE }

  function ShlHigh(x: Limb, s: nat): Limb
    requires s <= 32
  {
    DivBound(x, Pow2(32 - s));
    x / Pow2(32 - s)
  }

  lemma DivBound(x: nat, d: nat)
    requires d >= 1
    ensures 0 <= x / d <= x
  {
  }

  /** Keeping and handing on lose nothing, and the two parts use different bits. */
  lemma ShlParts(x: Limb, s: nat)
    requires s <= 32
    ensures ShlLow(x, s) + BASE * ShlHigh(x, s) == x * Pow2(s)
    ensures ShlHigh(x, s) < Pow2(s) && ShlLow(x, s) % Pow2(s) == 0 && ShlLow(x, s) + Pow2(s) <= BASE
  {
    Pow2Values();
    Pow2Add(s, 32 - s);
    hide Pow2;
    ShlCore(x, Pow2(s), Pow2(32 - s));
  }

  lemma ShlCore(x: int, p: int, q: int)
    requires 0 <= x < BASE && p >= 1 && q >= 1 && p * q == BASE
    ensures (x * p) % BASE + BASE * (x / q) == x * p
    ensures 0 <= x / q < p && ((x * p) % BASE) % p == 0 && (x * p) % BASE + p <= BASE
  {
    var h, l := x / q, x % q;
    DivMod(x, q);
    QuotientBound(x, q, p);
    SplitTimes(h, q, l, p);
    MulLess(l, q, p);
    DivUnique(x * p, BASE, h, l * p);
    ModOfMultiple(0, l, p);
    ModSmall(0, p);
  }

  lemma SplitTimes(h: int, q: int, l: int, p: int)
    ensures (h * q + l) * p == h * (p * q) + l * p
  {
  }

  lemma MulLess(l: int, q: int, p: int)
    requires 0 <= l < q && p >= 1
    ensures 0 <= l * p && l * p + p <= q * p == p * q
  {
    MulMonotone(l + 1, q, p);
    assert (l + 1) * p == l * p + p;
  }

  lemma QuotientBound(x: nat, q: nat, p: nat)
    requires q >= 1 && x < q * p
    ensures x / q < p
  {
  }

  /** What limb `j` of `a` times two to the `s` holds when the first `n` limbs of `a` are in. */
  function Part(a: seq<Limb>, s: nat, n: nat, j: int): Limb
    requires s <= 32 && n <= |a|
  {
    PartBound(a, s, n, j);
    (if 0 <= j < n then ShlLow(a[j], s) else 0) + (if 1 <= j <= n then ShlHigh(a[j - 1], s) else 0)
  }

  lemma PartBound(a: seq<Limb>, s: nat, n: nat, j: int)
    requires s <= 32 && n <= |a|
    ensures (if 0 <= j < n then ShlLow(a[j], s) else 0) + (if 1 <= j <= n then ShlHigh(a[j - 1], s) else 0) < BASE
  {
    hide Pow2, ShlLow, ShlHigh;
    if 1 <= j < n {
      ShlParts(a[j], s);
      ShlParts(a[j - 1], s);
    }
  }

  lemma PartOutside(a: seq<Limb>, s: nat, n: nat)
    requires s <= 32 && n <= |a|
    ensures forall j :: j < 0 || j > n ==> Part(a, s, n, j) == 0
  {
  }

  /** Taking in one more limb is one or with its low part and one with its high part. */
  lemma PartStep(a: seq<Limb>, s: nat, n: nat)
    requires s <= 32 && n < |a|
    ensures Or(Part(a, s, n, n), ShlLow(a[n], s)) == Part(a, s, n + 1, n)
    ensures Or(Part(a, s, n, n + 1), ShlHigh(a[n], s)) == Part(a, s, n + 1, n + 1)
    ensures Part(a, s, n, n + 1) == 0
    ensures s == 0 ==> ShlHigh(a[n], s) == 0
    ensures s == 32 ==> ShlLow(a[n], s) == 0 && Part(a, s, n + 1, n) == Part(a, s, n, n)
  {
    ShlParts(a[n], s);
    if n > 0 {
      ShlParts(a[n - 1], s);
    }
    Pow2Values();
    hide Pow2, ShlLow, ShlHigh, Or;
    var before := if n == 0 then 0 else ShlHigh(a[n - 1], s);
    OrDisjoint(before, ShlLow(a[n], s), s);
    OrZero(ShlHigh(a[n], s));
  }

  ghost function Spread(a: seq<Limb>, s: nat): (b: seq<Limb>)
    requires s <= 32
    ensures |b| == |a| + 1 && forall j :: 0 <= j <= |a| ==> b[j] == Part(a, s, |a|, j)
  {
    seq(|a| + 1, j requires 0 <= j <= |a| => Part(a, s, |a|, j))
  }

  ghost function Carry(a: seq<Limb>, s: nat, m: nat): nat
    requires s <= 32 && m <= |a|
  {
    if m == 0 then 0 else ShlHigh(a[m - 1], s)
  }

  lemma SpreadLimb(a: seq<Limb>, s: nat, n: nat)
    requires s <= 32 && n < |a|
    ensures Spread(a, s)[n] == ShlLow(a[n], s) + Carry(a, s, n) && Carry(a, s, n + 1) == ShlHigh(a[n], s)
  {
  }

  lemma {:induction false} SpreadPrefix(a: seq<Limb>, s: nat, m: nat)
    requires s <= 32 && m <= |a|
    ensures Value(Spread(a, s)[..m]) + Carry(a, s, m) * Pow2(32 * m) == Value(a[..m]) * Pow2(s)
  {
    hide *;
    if m == 0 {
      SpreadNone(a, s);
      return;
    }
    var b, n := Spread(a, s), m - 1;
    SpreadPrefix(a, s, n);
    SpreadLimb(a, s, n);
    ValuePrefix(b, n);
    ValuePrefix(a, n);
    ShlParts(a[n], s);
    LimbStep(n);
    SpreadAlgebra(Value(a[..n]), a[n], Pow2(s), Pow2(32 * n), ShlLow(a[n], s), ShlHigh(a[n], s), Carry(a, s, n),
                  Value(b[..n]));
  }

  lemma SpreadNone(a: seq<Limb>, s: nat)
    requires s <= 32
    ensures Value(Spread(a, s)[..0]) + Carry(a, s, 0) * Pow2(32 * 0) == Value(a[..0]) * Pow2(s)
  {
    hide Spread, Pow2;
    EmptyValue(a);
    EmptyValue(Spread(a, s));
  }

  lemma SpreadAlgebra(v: int, x: int, p: int, u: int, low: int, high: int, c: int, w: int)
    requires w + c * u == v * p && low + BASE * high == x * p
    ensures w + (low + c) * u + high * (BASE * u) == (v + x * u) * p
  {
  }

  /** Spreading the bits over one more limb multiplies by a power of two. */
  lemma SpreadValue(a: seq<Limb>, s: nat)
    requires s <= 32
    ensures Value(Spread(a, s)) == Value(a) * Pow2(s)
  {
    var b, w := Spread(a, s), |a|;
    SpreadPrefix(a, s, w);
    hide Value, Pow2, ShlLow, ShlHigh, Spread;
    ValuePrefix(b, w);
    assert b[..w + 1] == b && a[..w] == a;
  }

  lemma {:induction false} ValueSkip(s: seq<Limb>, k: nat)
    requires k <= |s| && forall j :: 0 <= j < k ==> s[j] == 0
    ensures Value(s) == Pow2(32 * k) * Value(s[k..])
  {
    ValueZeros(s[..k]);
    ValueSplit(s, k);
  }

  lemma {:induction false} ValuePad(s: seq<Limb>, k: nat)
    requires k <= |s| && forall j :: k <= j < |s| ==> s[j] == 0
    ensures Value(s) == Value(s[..k])
  {
    ValueZeros(s[k..]);
    ValueSplit(s, k);
  }

  /** The limbs left by the shift have the shifted value, reduced to the width. */
  lemma ShlValue(a: seq<Limb>, r: seq<Limb>, k: nat, s: nat)
    requires |a| == |r| && s < 32
    requires forall j :: 0 <= j < |r| ==> r[j] == Part(a, s, |a|, j - k)
    ensures Value(r) == (Value(a) * Pow2(32 * k + s)) % Pow2(32 * |a|)
  {
    hide *;
    var w := |a|;
    if k >= w {
      ShlFar(a, r, k, s);
      return;
    }
    ShlLimbs(a, r, k, s);
    var lo, hi := Value(Spread(a, s)[..w - k]), Value(Spread(a, s)[w - k..]);
    SpreadSplit(a, s, w - k);
    Pow2Add(s, 32 * k);
    Pow2Add(32 * k, 32 * (w - k));
    ShlReduce(Value(a), Pow2(s), Pow2(32 * k), Pow2(32 * (w - k)), lo, hi);
  }

  lemma ShlFar(a: seq<Limb>, r: seq<Limb>, k: nat, s: nat)
    requires |a| == |r| <= k && s < 32
    requires forall j :: 0 <= j < |r| ==> r[j] == Part(a, s, |a|, j - k)
    ensures Value(r) == (Value(a) * Pow2(32 * k + s)) % Pow2(32 * |a|)
  {
    var w := |a|;
    PartOutside(a, s, w);
    hide *;
    ValueZeros(r);
    Pow2Add(32 * k + s - 32 * w, 32 * w);
    ShlGone(Value(a), Pow2(32 * k + s - 32 * w), Pow2(32 * w));
  }

  lemma ShlLimbs(a: seq<Limb>, r: seq<Limb>, k: nat, s: nat)
    requires |a| == |r| && s < 32 && k < |a|
    requires forall j :: 0 <= j < |r| ==> r[j] == Part(a, s, |a|, j - k)
    ensures Value(r) == Pow2(32 * k) * Value(Spread(a, s)[..|a| - k])
  {
    PartOutside(a, s, |a|);
    hide *;
    ValueSkip(r, k);
    assert r[k..] == Spread(a, s)[..|a| - k];
  }

  lemma SpreadSplit(a: seq<Limb>, s: nat, m: nat)
    requires s <= 32 && m <= |a| + 1
    ensures Value(a) * Pow2(s) == Value(Spread(a, s)[..m]) + Pow2(32 * m) * Value(Spread(a, s)[m..])
    ensures Value(Spread(a, s)[..m]) < Pow2(32 * m)
  {
    hide *;
    SpreadValue(a, s);
    ValueSplit(Spread(a, s), m);
    ValueBound(Spread(a, s)[..m]);
  }

  lemma ShlGone(v: nat, p: nat, m: nat)
    requires m >= 1
    ensures (v * (p * m)) % m == 0
  {
    MulAssoc(v, p, m);
    ModOfMultiple(0, v * p, m);
    ModSmall(0, m);
  }

  lemma ShlReduce(v: int, p: int, t: int, u: int, lo: int, hi: int)
    requires v * p == lo + u * hi && 0 <= lo < u && t >= 1
    ensures t * lo == (v * (p * t)) % (t * u)
  {
    MulAssoc(v, p, t);
    assert (lo + u * hi) * t == hi * (t * u) + t * lo;
    MulLess(lo, u, t);
    DivUnique(v * (p * t), t * u, hi, t * lo);
  }

  /** operator<<= by any amount. */
  method ShiftLeft(pn: array<Limb>, shift: nat)
    modifies pn
    ensures Value(pn[..]) == (old(Value(pn[..])) * Pow2(shift)) % Pow2(32 * pn.Length)
  {
    hide *;
    ghost var a: seq<Limb> := pn[..];
    var copy := new Limb[pn.Length];
    Assign(copy, pn);
    Clear(pn);
    var k, s := shift / 32, shift % 32;
    PartNone(a, s);
    for i := 0 to pn.Length
      invariant copy[..] == a
      invariant forall j :: 0 <= j < pn.Length ==> pn[j] == Part(a, s, i, j - k)
    {
      PartStep(a, s, i);
      PartSame(a, s, i);
      assert copy[i] == a[i];
      if i + k + 1 < pn.Length && s != 0 {
        pn[i + k + 1] := Or(pn[i + k + 1], ShlHigh(copy[i], s));
      }
      if i + k < pn.Length {
        pn[i + k] := Or(pn[i + k], ShlLow(copy[i], s));
      }
    }
    ShlValue(a, pn[..], k, s);
  }

  lemma PartNone(a: seq<Limb>, s: nat)
    requires s <= 32
    ensures forall j :: Part(a, s, 0, j) == 0
  {
  }

  lemma PartSame(a: seq<Limb>, s: nat, n: nat)
    requires s <= 32 && n < |a|
    ensures forall j :: j != n && j != n + 1 ==> Part(a, s, n + 1, j) == Part(a, s, n, j)
    ensures s == 0 ==> Part(a, s, n + 1, n + 1) == Part(a, s, n, n + 1)
  {
    PartStep(a, s, n);
    hide ShlLow, ShlHigh;
  }

  /** The limbs left by the right shift have the quotient's value. */
  lemma ShrValue(a: seq<Limb>, r: seq<Limb>, k: nat, s: nat)
    requires |a| == |r| && s < 32
    requires forall j :: 0 <= j < |r| ==> r[j] == Part(a, 32 - s, |a|, j + k + 1)
    ensures Value(r) == Value(a) / Pow2(32 * k + s)
  {
    hide *;
    if k >= |a| {
      ShrFar(a, r, k, s);
      return;
    }
    ShrLimbs(a, r, k, s);
    var lo, hi := Value(Spread(a, 32 - s)[..k + 1]), Value(Spread(a, 32 - s)[k + 1..]);
    SpreadSplit(a, 32 - s, k + 1);
    Pow2Add(32 - s, 32 * k + s);
    ShrQuotient(Value(a), Pow2(32 - s), Pow2(32 * k + s), lo, hi);
  }

  lemma ShrFar(a: seq<Limb>, r: seq<Limb>, k: nat, s: nat)
    requires |a| == |r| <= k && s < 32
    requires forall j :: 0 <= j < |r| ==> r[j] == Part(a, 32 - s, |a|, j + k + 1)
    ensures Value(r) == Value(a) / Pow2(32 * k + s)
  {
    PartOutside(a, 32 - s, |a|);
    hide *;
    ValueZeros(r);
    ValueBound(a);
    Pow2Monotone(32 * |a|, 32 * k + s);
    DivUnique(Value(a), Pow2(32 * k + s), 0, Value(a));
  }

  lemma ShrLimbs(a: seq<Limb>, r: seq<Limb>, k: nat, s: nat)
    requires |a| == |r| && s < 32 && k < |a|
    requires forall j :: 0 <= j < |r| ==> r[j] == Part(a, 32 - s, |a|, j + k + 1)
    ensures Value(r) == Value(Spread(a, 32 - s)[k + 1..])
  {
    PartOutside(a, 32 - s, |a|);
    hide *;
    ValuePad(r, |a| - k);
    assert r[..|a| - k] == Spread(a, 32 - s)[k + 1..];
  }

  lemma ShrQuotient(v: int, q: int, d: int, lo: int, hi: int)
    requires v * q == lo + (q * d) * hi && 0 <= lo < q * d && q >= 1 && d >= 1
    ensures v / d == hi
  {
    var rest := v - d * hi;
    assert rest * q == lo by {
      MulSub(v, d * hi, q);
      assert (d * hi) * q == (q * d) * hi;
    }
    if rest < 0 {
      MulAtLeast(0 - rest, q);
      MulSub(0, rest, q);
    } else if rest >= d {
      MulMonotone(d, rest, q);
    }
    DivUnique(v, d, hi, rest);
  }

  /** operator>>= by any amount. */
  method ShiftRight(pn: array<Limb>, shift: nat)
    modifies pn
    ensures Value(pn[..]) == old(Value(pn[..])) / Pow2(shift)
  {
    hide *;
    ghost var a: seq<Limb> := pn[..];
    var copy := new Limb[pn.Length];
    Assign(copy, pn);
    Clear(pn);
    var k, s := shift / 32, shift % 32;
    PartNone(a, 32 - s);
    for i := 0 to pn.Length
      invariant copy[..] == a
      invariant forall j :: 0 <= j < pn.Length ==> pn[j] == Part(a, 32 - s, i, j + k + 1)
    {
      PartStep(a, 32 - s, i);
      PartSame(a, 32 - s, i);
      assert copy[i] == a[i];
      if i - k - 1 >= 0 && s != 0 {
        pn[i - k - 1] := Or(pn[i - k - 1], ShlLow(copy[i], 32 - s));
      }
      if i - k >= 0 {
        pn[i - k] := Or(pn[i - k], ShlHigh(copy[i], 32 - s));
      }
    }
    ShrValue(a, pn[..], k, s);
  }

  method Clear(pn: array<Limb>)
    modifies pn
    ensures forall k :: 0 <= k < pn.Length ==> pn[k] == 0
  {
    for i := 0 to pn.Length
      invariant forall k :: 0 <= k < i ==> pn[k] == 0
    {
      pn[i] := 0;
    }
  }

  // ---------------------------------------------------------------------------------------------
  // Division
  // ---------------------------------------------------------------------------------------------

  /** Bits 0 to `s` of the quotient are still clear. */
  ghost predicate LowClear(q: seq<Limb>, s: nat) {
    s < 32 * |q| && (forall j :: 0 <= j < s / 32 ==> q[j] == 0) && q[s / 32] % Pow2(s % 32 + 1) == 0
  }

  lemma LowClearNext(q: seq<Limb>, s: nat)
    requires s > 0 && LowClear(q, s)
    ensures LowClear(q, s - 1)
  {
    ClearHalf(q[s / 32], s % 32);
    ModSmall(0, Pow2(32));
  }

  lemma ClearHalf(x: nat, r: nat)
    requires x % Pow2(r + 1) == 0
    ensures x % Pow2(r) == 0 && (x + Pow2(r)) % Pow2(r) == 0
  {
    var p, c := Pow2(r), x / Pow2(r + 1);
    DivMod(x, 2 * p);
    assert x == (2 * c) * p;
    ModOfMultiple(0, 2 * c, p);
    ModOfMultiple(0, 2 * c + 1, p);
    ModSmall(0, p);
    assert (2 * c + 1) * p == x + p;
  }

  lemma RoomForBit(x: Limb, r: nat)
    requires r < 32 && x % Pow2(r + 1) == 0
    ensures x + Pow2(r) < BASE && Or(x, Pow2(r)) == x + Pow2(r)
  {
    Pow2Values();
    Pow2Add(31 - r, r + 1);
    assert Pow2(r + 1) == 2 * Pow2(r);
    hide Pow2, Or;
    OrDisjoint(Pow2(r), x, r + 1);
    RoomAbove(x, Pow2(r + 1), Pow2(31 - r));
  }

  lemma RoomAbove(x: nat, p: nat, m: nat)
    requires p >= 1 && x % p == 0 && x < m * p
    ensures x + p <= m * p
  {
    DivMod(x, p);
    var c := x / p;
    if c >= m {
      MulMonotone(m, c, p);
    }
    MulMonotone(c + 1, m, p);
    assert (c + 1) * p == x + p;
  }

  /** Setting bit `s` of a quotient whose low bits are clear adds two to the `s`. */
  lemma SetBit(q: seq<Limb>, s: nat, x: Limb)
    requires LowClear(q, s) && x == Or(q[s / 32], Pow2(s % 32))
    ensures Value(q[s / 32 := x]) == Value(q) + Pow2(s)
    ensures s > 0 ==> LowClear(q[s / 32 := x], s - 1)
  {
    hide Value, Pow2, Or;
    var k, r := s / 32, s % 32;
    RoomForBit(q[k], r);
    ClearHalf(q[k], r);
    ModSmall(0, Pow2(32));
    ValueUpdate(q, k, x);
    Pow2Add(r, 32 * k);
  }

  /** The state between two rounds of the long division of `n` by `d`: bits above `s` are decided. */
  ghost predicate Dividing(num: nat, div: nat, q: seq<Limb>, n: nat, d: nat, s: int) {
    s >= -1 && num + Value(q) * d == n && num < d * Pow2(s + 1) && (s >= 0 ==> div == d * Pow2(s) && LowClear(q, s))
  }

  lemma DivideTake(num: nat, div: nat, q: seq<Limb>, n: nat, d: nat, s: nat, x: Limb)
    requires Dividing(num, div, q, n, d, s) && num >= div && x == Or(q[s / 32], Pow2(s % 32))
    ensures Dividing(num - div, div / 2, q[s / 32 := x], n, d, s - 1)
  {
    hide Value, LowClear, Pow2, Or;
    assert LowClear(q, s);
    SetBit(q, s, x);
    HalfPower(d, s);
    TakeAlgebra(Value(q), Pow2(s), d);
  }

  lemma TakeAlgebra(v: int, p: int, d: int)
    ensures (v + p) * d == v * d + d * p
  {
  }

  lemma DivideSkip(num: nat, div: nat, q: seq<Limb>, n: nat, d: nat, s: nat)
    requires Dividing(num, div, q, n, d, s) && num < div
    ensures Dividing(num, div / 2, q, n, d, s - 1)
  {
    if s > 0 {
      LowClearNext(q, s);
    }
    HalfPower(d, s);
    hide Value, LowClear, Pow2;
  }

  lemma HalfPower(d: nat, s: nat)
    ensures d * Pow2(s + 1) == 2 * (d * Pow2(s))
    ensures s > 0 ==> d * Pow2(s) / 2 == d * Pow2(s - 1)
  {
  }

  lemma DivideDone(num: nat, div: nat, q: seq<Limb>, n: nat, d: nat)
    requires Dividing(num, div, q, n, d, -1) && d > 0
    ensures Value(q) == n / d && num == n % d
  {
    DivUnique(n, d, Value(q), num);
  }

  lemma DivideStart(n: nat, d: nat, nb: nat, db: nat, q: seq<Limb>)
    requires IsBitLength(n, nb) && IsBitLength(d, db) && 0 < db <= nb <= 32 * |q|
    requires forall j :: 0 <= j < |q| ==> q[j] == 0
    ensures Dividing(n, d * Pow2(nb - db), q, n, d, nb - db)
    ensures d * Pow2(nb - db) < Pow2(32 * |q|)
  {
    hide Value, Pow2, LowClear, IsBitLength;
    ValueZeros(q);
    ZerosClear(q, nb - db);
    Aligned(n, d, nb, db, 32 * |q|);
  }

  lemma ZerosClear(q: seq<Limb>, s: nat)
    requires s < 32 * |q| && forall j :: 0 <= j < |q| ==> q[j] == 0
    ensures LowClear(q, s)
  {
    ModSmall(0, Pow2(s % 32 + 1));
  }

  /** After aligning the divisor with the number, one more doubling would pass it. */
  lemma Aligned(n: nat, d: nat, nb: nat, db: nat, width: nat)
    requires IsBitLength(n, nb) && IsBitLength(d, db) && 0 < db <= nb <= width
    ensures n < d * Pow2(nb - db + 1) && d * Pow2(nb - db) < Pow2(width)
  {
    hide Pow2;
    var s := nb - db;
    Pow2Add(db, s);
    Pow2Add(db - 1, s + 1);
    Pow2Monotone(nb, width);
    MulMonotone(Pow2(db - 1), d, Pow2(s + 1));
    MulMonotone(d + 1, Pow2(db), Pow2(s));
    assert (d + 1) * Pow2(s) == d * Pow2(s) + Pow2(s);
  }

  lemma ShorterIsSmaller(n: nat, d: nat, nb: nat, db: nat)
    requires IsBitLength(n, nb) && IsBitLength(d, db) && db > nb
    ensures d > 0 && n / d == 0
  {
    Pow2Monotone(nb, db - 1);
    hide Pow2;
    DivUnique(n, d, 0, n);
  }

  /** operator/=: fails exactly for a zero divisor, and otherwise leaves the quotient. */
  method Div(pn: array<Limb>, b: array<Limb>) returns (ok: bool)
    requires pn.Length == b.Length
    modifies pn
    ensures ok <==> old(Value(b[..])) != 0
    ensures Value(pn[..]) == if ok then old(Value(pn[..])) / old(Value(b[..])) else 0
  {
    ghost var n, d := Value(pn[..]), Value(b[..]);
    var div, num := new Limb[pn.Length], new Limb[pn.Length];
    Assign(div, b);
    Assign(num, pn);
    Clear(pn);
    ValueZeros(pn[..]);
    var numBits := Bits(num);
    var divBits := Bits(div);
    ZeroHasNoBits(d, divBits);
    if divBits == 0 {
      return false;
    }
    ok := true;
    if divBits > numBits {
      ShorterIsSmaller(n, d, numBits, divBits);
      return;
    }
    hide *;
    DivideStart(n, d, numBits, divBits, pn[..]);
    Divide(num, div, pn, numBits - divBits, n, d);
  }

  lemma ZeroHasNoBits(x: nat, n: nat)
    requires IsBitLength(x, n)
    ensures n == 0 <==> x == 0
  {
  }

  /** The shift-and-subtract loop: the quotient in `pn`, the remainder left in `num`. */
  method Divide(num: array<Limb>, div: array<Limb>, pn: array<Limb>, s: nat, ghost n: nat, ghost d: nat)
    requires num.Length == div.Length == pn.Length && num != div && num != pn && div != pn
    requires d > 0 && Value(div[..]) == d && d * Pow2(s) < Pow2(32 * pn.Length)
    requires Dividing(n, d * Pow2(s), pn[..], n, d, s) && Value(num[..]) == n
    modifies num, div, pn
    ensures Value(pn[..]) == n / d && Value(num[..]) == n % d
  {
    hide *;
    ModSmall(d * Pow2(s), Pow2(32 * pn.Length));
    ShiftLeft(div, s);
    var shift: int := s;
    while shift >= 0
      invariant -1 <= shift <= s
      invariant Dividing(Value(num[..]), Value(div[..]), pn[..], n, d, shift)
    {
      DivideRound(num, div, pn, shift, n, d);
      shift := shift - 1;
    }
    DivideDone(Value(num[..]), Value(div[..]), pn[..], n, d);
  }

  method DivideRound(num: array<Limb>, div: array<Limb>, pn: array<Limb>, shift: nat, ghost n: nat, ghost d: nat)
    requires num.Length == div.Length == pn.Length && num != div && num != pn && div != pn
    requires Dividing(Value(num[..]), Value(div[..]), pn[..], n, d, shift)
    modifies num, div, pn
    ensures Dividing(Value(num[..]), Value(div[..]), pn[..], n, d, shift - 1)
  {
    DivideBit(pn[..], Value(num[..]), Value(div[..]), n, d, shift);
    hide *;
    ghost var u, v, q := Value(num[..]), Value(div[..]), pn[..];
    var c := CompareTo(num, div);
    if c >= 0 {
      SubExactly(num, div);
      pn[shift / 32] := Or(pn[shift / 32], Pow2(shift % 32));
      DivideTake(u, v, q, n, d, shift, pn[shift / 32]);
      assert pn[..] == q[shift / 32 := pn[shift / 32]];
    } else {
      DivideSkip(u, v, q, n, d, shift);
    }
    ShiftRight(div, 1);
    OnePower();
  }

  method SubExactly(num: array<Limb>, div: array<Limb>)
    requires num.Length == div.Length && num != div && Value(num[..]) >= Value(div[..])
    modifies num
    ensures Value(num[..]) == old(Value(num[..])) - Value(div[..])
  {
    hide *;
    ValueBound(num[..]);
    ModSmall(Value(num[..]) - Value(div[..]), Pow2(32 * num.Length));
    Sub(num, div);
  }

  lemma DivideBit(q: seq<Limb>, num: nat, div: nat, n: nat, d: nat, s: nat)
    requires Dividing(num, div, q, n, d, s)
    ensures s / 32 < |q| && Or(q[s / 32], Pow2(s % 32)) < BASE
  {
    RoomForBit(q[s / 32], s % 32);
  }

  lemma OnePower()
    ensures Pow2(1) == 2
  {
  }
}
