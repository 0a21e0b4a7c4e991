/** Base58 text: positional conversion between byte strings and a 58-letter alphabet, with an optional checksum. */
module Base58 {
  import opened Arith
  import opened Basics

  // ---------------------------------------------------------------------------------------------
  // Powers
  // ---------------------------------------------------------------------------------------------

  function Pow(b: nat, e: nat): nat {
    if e == 0 then 1 else b * Pow(b, e - 1)
  }

  lemma {:induction false} PowPositive(b: nat, e: nat)
    requires b >= 1
    ensures Pow(b, e) >= 1
  {
    if e > 0 {
      PowPositive(b, e - 1);
      MulAtLeast(b, Pow(b, e - 1));
    }
  }

  lemma {:induction false} PowAdd(b: nat, d: nat, e: nat)
    ensures Pow(b, d + e) == Pow(b, d) * Pow(b, e)
  {
    if d > 0 {
      PowAdd(b, d - 1, e);
      MulAssoc(b, Pow(b, d - 1), Pow(b, e));
    }
  }

  lemma {:induction false} PowMul(b: nat, d: nat, e: nat)
    ensures Pow(b, d * e) == Pow(Pow(b, d), e)
  {
    if e == 0 {
      assert d * e == 0;
    } else {
      PowMul(b, d, e - 1);
      assert d * e == d + d * (e - 1);
      PowAdd(b, d, d * (e - 1));
    }
  }

  lemma {:induction false} PowGrows(b: nat, d: nat, e: nat)
    requires b >= 1 && d <= e
    ensures Pow(b, d) <= Pow(b, e)
  {
    if d < e {
      PowGrows(b, d, e - 1);
      PowPositive(b, e - 1);
      MulAtLeast(b, Pow(b, e - 1));
    }
  }

  lemma {:induction false} PowBase(a: nat, b: nat, e: nat)
    requires a <= b
    ensures Pow(a, e) <= Pow(b, e)
  {
    if e > 0 {
      PowBase(a, b, e - 1);
      MulMonotone(a, b, Pow(a, e - 1));
      MulMonotone(Pow(a, e - 1), Pow(b, e - 1), b);
    }
  }

  lemma {:induction false} PowStrict(a: nat, b: nat, e: nat)
    requires a < b && e >= 1
    ensures Pow(a, e) < Pow(b, e)
  {
    PowBase(a, b, e - 1);
    PowPositive(b, e - 1);
    MulMonotone(Pow(a, e - 1), Pow(b, e - 1), a);
    MulMonotone(a + 1, b, Pow(b, e - 1));
    assert (a + 1) * Pow(b, e - 1) == a * Pow(b, e - 1) + Pow(b, e - 1);
  }

  lemma PowNested(b: nat, d: nat, e: nat, k: nat)
    requires k == d * e
    ensures Pow(b, k) == Pow(Pow(b, d), e) == Pow(Pow(b, e), d)
  {
    PowMul(b, d, e);
    assert d * e == e * d;
    PowMul(b, e, d);
  }

  /** A comparison of two powers at one ratio of exponents carries over to every length: `qs` and `pn` stand for the
    * products of the exponents. */
  lemma RatioCarries(a: nat, b: nat, p: nat, q: nat, s: nat, n: nat, qs: nat, pn: nat)
    requires Pow(a, p) >= Pow(b, q) && qs >= pn && q >= 1 && a >= 1
    requires Pow(a, qs) == Pow(Pow(a, s), q) && Pow(a, pn) == Pow(Pow(a, p), n) &&
             Pow(Pow(b, q), n) == Pow(Pow(b, n), q)
    ensures Pow(a, s) >= Pow(b, n)
  {
    hide Pow;
    PowGrows(a, pn, qs);
    PowBase(Pow(b, q), Pow(a, p), n);
    if Pow(a, s) < Pow(b, n) {
      PowStrict(Pow(a, s), Pow(b, n), q);
    }
  }

  lemma PowTwo(b: nat, e: nat, half: nat)
    requires Pow(b, e) == half
    ensures Pow(b, 2 * e) == half * half && Pow(b, 2 * e + 1) == b * (half * half)
  {
    PowAdd(b, e, e);
  }

  /** The two ratios behind the buffer sizes. */
  lemma Ratios()
    ensures Pow(58, 11) >= Pow(256, 8) && Pow(256, 52) >= Pow(58, 71)
  {
    SmallPowers58();
    SmallPowers256();
  }

  lemma SmallPowers58()
    ensures Pow(58, 11) == 24986644000165537792
    ensures Pow(58, 71) == 159730386663078066345306447337161584696769904898410078913243029577507397293846405390982563136983769384625594118558891106107392
  {
    hide Pow;
    PowOne(58);
    PowTwo(58, 1, 58);
    PowTwo(58, 2, 3364);
    PowTwo(58, 5, 656356768);
    PowTwo(58, 1, 58);
    PowTwo(58, 2, 3364);
    PowTwo(58, 4, 11316496);
    PowTwo(58, 8, 128063081718016);
    PowTwo(58, 17, 951208868148684143308060622848);
    PowTwo(58, 35, 52478302028992644968172978478148648556151605660894866578604032);
  }

  lemma SmallPowers256()
    ensures Pow(256, 8) == 18446744073709551616
    ensures Pow(256, 52) == 169230328010303641331690318856389386196071598838855992136870091590247882556495704531248437872567112920983350278405979725889536
  {
    hide Pow;
    PowOne(256);
    PowTwo(256, 1, 256);
    PowTwo(256, 2, 65536);
    PowTwo(256, 4, 4294967296);
    PowTwo(256, 1, 256);
    PowTwo(256, 3, 16777216);
    PowTwo(256, 6, 281474976710656);
    PowTwo(256, 13, 20282409603651670423947251286016);
    PowTwo(256, 26, 411376139330301510538742295639337626245683966408394965837152256);
  }

  /** 138 letters for 100 bytes are enough. */
  lemma LettersSuffice(n: nat)
    ensures Pow(256, n) <= Pow(58, n * 138 / 100 + 1)
  {
    hide Pow;
    var s := n * 138 / 100 + 1;
    Ratios();
    PowNested(58, 8, s, 8 * s);
    PowNested(58, 11, n, 11 * n);
    PowNested(256, 8, n, 8 * n);
    RatioCarries(58, 256, 11, 8, s, n, 8 * s, 11 * n);
  }

  /** 733 bytes for 1000 letters are enough. */
  lemma BytesSuffice(n: nat)
    ensures Pow(58, n) <= Pow(256, n * 733 / 1000 + 1)
  {
    hide Pow;
    var s := n * 733 / 1000 + 1;
    Ratios();
    PowNested(256, 71, s, 71 * s);
    PowNested(256, 52, n, 52 * n);
    PowNested(58, 71, n, 71 * n);
    RatioCarries(256, 58, 52, 71, s, n, 71 * s, 52 * n);
  }

  lemma PowOne(b: nat)
    ensures Pow(b, 1) == b
  {
  }

  // ---------------------------------------------------------------------------------------------
  // Positional numbers
  // ---------------------------------------------------------------------------------------------

  ghost predicate AreDigits(ds: seq<nat>, b: nat) { forall i :: 0 <= i < |ds| ==> ds[i] < b }

  /** The number written by `ds`, most significant digit first. */
  function Num(ds: seq<nat>, b: nat): nat {
    if ds == [] then 0 else NatSum(Num(ds[..|ds| - 1], b), b, ds[|ds| - 1]); Num(ds[..|ds| - 1], b) * b + ds[|ds| - 1]
  }

  lemma NatSum(x: nat, b: nat, d: nat)
    ensures x * b + d >= 0
  {
  }

  /** The digits of `n` without leading zeros. */
  function Digits(n: nat, b: nat): seq<nat>
    requires b >= 2
    decreases n
  {
    QuotientShrinks(n, b);
    if n == 0 then [] else Digits(n / b, b) + [n % b]
  }

  lemma QuotientShrinks(n: nat, b: nat)
    requires b >= 2
    ensures 0 <= n / b && (n > 0 ==> n / b < n) && 0 <= n % b < b && n == (n / b) * b + n % b
  {
  }

  /** Digits write the number, start with a nonzero one, and are the only ones that do. */
  lemma {:induction false} DigitsWrite(n: nat, b: nat)
    requires b >= 2
    ensures Num(Digits(n, b), b) == n && AreDigits(Digits(n, b), b)
    ensures if n > 0 then Digits(n, b) != [] && Digits(n, b)[0] != 0 else Digits(n, b) == []
  {
    QuotientShrinks(n, b);
    if n > 0 {
      DigitsWrite(n / b, b);
      var ds := Digits(n / b, b);
      assert (ds + [n % b])[..|ds|] == ds;
      if n / b == 0 {
        assert ds == [];
        ZeroTimes(b);
      }
    }
  }

  lemma ZeroTimes(b: nat)
    ensures 0 * b == 0
  {
  }

  lemma {:induction false} NumPositive(ds: seq<nat>, b: nat)
    requires b >= 2 && ds != [] && ds[0] != 0
    ensures Num(ds, b) > 0
  {
    if |ds| > 1 {
      NumPositive(ds[..|ds| - 1], b);
      MulAtLeast(b, Num(ds[..|ds| - 1], b));
    }
  }

  lemma {:induction false} DigitsUnique(ds: seq<nat>, b: nat)
    requires b >= 2 && AreDigits(ds, b) && (ds == [] || ds[0] != 0)
    ensures Digits(Num(ds, b), b) == ds
  {
    if ds != [] {
      var n := |ds| - 1;
      if n > 0 {
        DigitsUnique(ds[..n], b);
      }
      NumPositive(ds, b);
      DivUnique(Num(ds, b), b, Num(ds[..n], b), ds[n]);
      assert ds == ds[..n] + [ds[n]];
    }
  }

  lemma {:induction false} NumJoin(h: seq<nat>, t: seq<nat>, b: nat)
    ensures Num(h + t, b) == Num(h, b) * Pow(b, |t|) + Num(t, b)
    decreases |t|
  {
    if t == [] {
      assert h + t == h;
    } else {
      var n := |t| - 1;
      NumJoin(h, t[..n], b);
      assert (h + t)[..|h + t| - 1] == h + t[..n];
      JoinAlgebra(Num(h, b), Pow(b, n), Num(t[..n], b), b, t[n]);
    }
  }

  lemma JoinAlgebra(h: nat, p: nat, t: nat, b: nat, d: nat)
    ensures (h * p + t) * b + d == h * (b * p) + (t * b + d)
  {
  }

  lemma {:induction false} NumBound(ds: seq<nat>, b: nat)
    requires AreDigits(ds, b)
    ensures Num(ds, b) < Pow(b, |ds|)
  {
    if ds != [] {
      var n := |ds| - 1;
      NumBound(ds[..n], b);
      MulMonotone(Num(ds[..n], b) + 1, Pow(b, n), b);
      assert (Num(ds[..n], b) + 1) * b == Num(ds[..n], b) * b + b;
      assert Pow(b, n) * b == b * Pow(b, n);
    }
  }

  lemma {:induction false} NumZeros(ds: seq<nat>, b: nat)
    requires forall i :: 0 <= i < |ds| ==> ds[i] == 0
    ensures Num(ds, b) == 0
  {
    if ds != [] {
      NumZeros(ds[..|ds| - 1], b);
      ZeroTimes(b);
    }
  }

  // ---------------------------------------------------------------------------------------------
  // The digit buffer
  // ---------------------------------------------------------------------------------------------

  ghost predicate Clear(buf: seq<nat>, n: int) { forall k :: 0 <= k < n && k < |buf| ==> buf[k] == 0 }

  /** The buffer holds `n` in its last `length` places, and needs all of them. */
  ghost predicate Holds(buf: seq<nat>, b: nat, length: nat, n: nat) {
    && length <= |buf| && AreDigits(buf, b) && Num(buf, b) == n
    && Clear(buf, |buf| - length)
    && (length > 0 ==> Pow(b, length - 1) <= n)
  }

  /** In the middle of multiplying by `m`: `i` places are done and `carry` goes into the next. */
  ghost predicate Carrying(buf: seq<nat>, b: nat, m: nat, i: nat, carry: nat, target: nat) {
    && i <= |buf| && AreDigits(buf, b)
    && (Num(buf[..|buf| - i], b) * m + carry) * Pow(b, i) + Num(buf[|buf| - i..], b) == target
  }

  lemma CarryOne(buf: seq<nat>, b: nat, m: nat, i: nat, carry: nat, target: nat)
    requires b >= 2 && Carrying(buf, b, m, i, carry, target) && i < |buf|
    ensures var p, total := |buf| - i - 1, carry + m * buf[|buf| - i - 1];
            total >= 0 && 0 <= total % b < b && total / b >= 0 &&
              Carrying(buf[p := total % b], b, m, i + 1, total / b, target)
  {
    hide Num, Pow;
    var p := |buf| - i - 1;
    var x: nat := buf[p];
    NatSum(m, x, carry);
    var total: nat := carry + m * x;
    QuotientShrinks(total, b);
    NewPlace(buf, p, b, total % b);
    CarryAlgebra(Num(buf[..p], b), b, x, m, carry, Pow(b, i), total % b, total / b, Num(buf[p + 1..], b));
  }

  lemma NewPlace(buf: seq<nat>, p: nat, b: nat, y: nat)
    requires p < |buf| && AreDigits(buf, b) && y < b
    ensures AreDigits(buf[p := y], b) && buf[p := y][..p] == buf[..p]
    ensures Num(buf[..p + 1], b) == Num(buf[..p], b) * b + buf[p]
    ensures Pow(b, |buf| - p) == b * Pow(b, |buf| - p - 1)
    ensures Num(buf[p := y][p..], b) == y * Pow(b, |buf| - p - 1) + Num(buf[p + 1..], b)
  {
    var tail := buf[p + 1..];
    assert buf[..p + 1][..p] == buf[..p] && buf[p := y][p..] == [y] + tail;
    NumJoin([y], tail, b);
    NumOne(y, b);
  }

  lemma NumOne(y: nat, b: nat)
    ensures Num([y], b) == y
  {
  }

  lemma CarryAlgebra(h: nat, b: nat, x: nat, m: nat, carry: nat, q: nat, y: nat, c: nat, t: nat)
    requires carry + m * x == c * b + y
    ensures ((h * b + x) * m + carry) * q + t == (h * m + c) * (b * q) + (y * q + t)
  {
  }

  lemma CarryStart(buf: seq<nat>, b: nat, m: nat, d: nat)
    requires AreDigits(buf, b)
    ensures Num(buf, b) * m + d >= 0 && Carrying(buf, b, m, 0, d, Num(buf, b) * m + d)
  {
    NatSum(Num(buf, b), m, d);
    assert buf[..|buf|] == buf && buf[|buf|..] == [];
  }

  /** Beyond the old length the target fills the place before. */
  lemma CarryFills(buf: seq<nat>, b: nat, m: nat, i: nat, carry: nat, target: nat)
    requires b >= 2 && Carrying(buf, b, m, i, carry, target) && carry > 0
    ensures Pow(b, i) <= target
  {
    var h := Num(buf[..|buf| - i], b);
    NatSum(h, m, 0);
    PowPositive(b, i);
    MulMonotone(1, h * m + carry, Pow(b, i));
  }

  lemma CarryDone(buf: seq<nat>, b: nat, m: nat, i: nat, carry: nat, target: nat)
    requires b >= 2 && Carrying(buf, b, m, i, carry, target) && target < Pow(b, |buf|)
    requires i == |buf| || (carry == 0 && Clear(buf, |buf| - i))
    ensures carry == 0 && Num(buf, b) == target
  {
    hide Num, Pow, AreDigits;
    var head, tail := buf[..|buf| - i], buf[|buf| - i..];
    NumZeros(head, b);
    ZeroTimes(m);
    if carry > 0 {
      PowPositive(b, i);
      MulMonotone(1, carry, Pow(b, i));
    }
    ZeroTimes(Pow(b, i));
    NumJoin(head, tail, b);
    assert head + tail == buf;
  }

  /** In place: the number in the buffer times `m` plus `d`. The carry never leaves a large enough buffer. */
  method Accumulate(buf: array<nat>, length: nat, b: nat, m: nat, d: nat, ghost n: nat) returns (length': nat)
    requires b >= 2 && m >= 1 && Holds(buf[..], b, length, n) && n * m + d < Pow(b, buf.Length)
    modifies buf
    ensures n * m + d >= 0 && Holds(buf[..], b, length', n * m + d)
  {
    CarryStart(buf[..], b, m, d);
    MulMonotone(1, m, n);
    hide Carrying, Num, Pow, AreDigits;
    length' := CarryThrough(buf, length, b, m, d, n * m + d);
  }

  /** The carry loop, from the last place up. */
  method CarryThrough(buf: array<nat>, length: nat, b: nat, m: nat, d: nat, ghost target: nat) returns (i: nat)
    requires b >= 2 && length <= buf.Length && Carrying(buf[..], b, m, 0, d, target) && target < Pow(b, buf.Length)
    requires Clear(buf[..], buf.Length - length) && (length > 0 ==> Pow(b, length - 1) <= target)
    modifies buf
    ensures Holds(buf[..], b, i, target)
  {
    hide Carrying, Num, Pow, AreDigits, Clear;
    var carry: nat := d;
    i := 0;
    while (carry != 0 || i < length) && i < buf.Length
      invariant i <= buf.Length && Carrying(buf[..], b, m, i, carry, target)
      invariant Clear(buf[..], buf.Length - if i < length then length else i)
      invariant i > length ==> Pow(b, i - 1) <= target
      decreases buf.Length - i
    {
      if carry != 0 {
        CarryFills(buf[..], b, m, i, carry, target);
      }
      carry := CarryPlace(buf, b, m, i, carry, target, buf.Length - if i < length then length else i);
      i := i + 1;
    }
    CarryDone(buf[..], b, m, i, carry, target);
    assert carry == 0;
    CarryDigits(buf[..], b, m, i, carry, target);
  }

  /** One place of the carry loop. */
  method CarryPlace(buf: array<nat>, b: nat, m: nat, i: nat, carry: nat, ghost target: nat,
                    ghost n: int) returns (carry': nat)
    requires b >= 2 && i < buf.Length && Carrying(buf[..], b, m, i, carry, target) && Clear(buf[..], n)
    modifies buf
    ensures Carrying(buf[..], b, m, i + 1, carry', target)
    ensures Clear(buf[..], if n < buf.Length - i - 1 then n else buf.Length - i - 1)
  {
    var p := buf.Length - i - 1;
    CarryOne(buf[..], b, m, i, carry, target);
    hide Carrying;
    ghost var was := buf[..];
    var total := carry + m * buf[p];
    buf[p] := total % b;
    assert buf[..] == was[p := buf[p]];
    carry' := total / b;
  }

  lemma CarryDigits(buf: seq<nat>, b: nat, m: nat, i: nat, carry: nat, target: nat)
    requires Carrying(buf, b, m, i, carry, target)
    ensures AreDigits(buf, b)
  {
  }

  /** The used part of the buffer is exactly the digits of the number. */
  lemma HeldDigits(buf: seq<nat>, b: nat, length: nat, n: nat)
    requires b >= 2 && Holds(buf, b, length, n)
    ensures buf[|buf| - length..] == Digits(n, b)
  {
    var head, tail := buf[..|buf| - length], buf[|buf| - length..];
    assert head + tail == buf;
    assert AreDigits(tail, b);
    assert forall i :: 0 <= i < |head| ==> head[i] == 0;
    hide Num, Pow, Digits;
    AfterZeros(head, tail, b);
    if length > 0 {
      LeadingDigit(tail, b);
    }
    DigitsUnique(tail, b);
  }

  lemma AfterZeros(head: seq<nat>, tail: seq<nat>, b: nat)
    requires forall i :: 0 <= i < |head| ==> head[i] == 0
    ensures Num(head + tail, b) == Num(tail, b)
  {
    hide Num, Pow;
    NumZeros(head, b);
    NumJoin(head, tail, b);
    ZeroTimes(Pow(b, |tail|));
  }

  /** A number of full length does not start with a zero. */
  lemma LeadingDigit(ds: seq<nat>, b: nat)
    requires ds != [] && AreDigits(ds, b) && Num(ds, b) >= Pow(b, |ds| - 1)
    ensures ds[0] != 0
  {
    hide Num, Pow;
    if ds[0] == 0 {
      AfterZeros([0], ds[1..], b);
      assert [0] + ds[1..] == ds;
      NumBound(ds[1..], b);
    }
  }

  /** The number of digits grows with the number. */
  lemma HeldLength(buf: seq<nat>, b: nat, length: nat, n: nat)
    requires b >= 2 && Holds(buf, b, length, n)
    ensures |Digits(n, b)| == length
  {
    HeldDigits(buf, b, length, n);
  }

  lemma {:induction false} DigitsGrow(n: nat, m: nat, b: nat)
    requires b >= 2 && n <= m
    ensures |Digits(n, b)| <= |Digits(m, b)|
    decreases m
  {
    QuotientShrinks(n, b);
    QuotientShrinks(m, b);
    if n > 0 {
      DivGrows(n, m, b);
      DigitsGrow(n / b, m / b, b);
    }
  }

  lemma DivGrows(n: nat, m: nat, b: nat)
    requires b >= 2 && n <= m
    ensures n / b <= m / b
  {
    DivMod(n, b);
    DivMod(m, b);
    if n / b > m / b {
      MulMonotone(m / b + 1, n / b, b);
    }
  }

  // ---------------------------------------------------------------------------------------------
  // The alphabet
  // ---------------------------------------------------------------------------------------------

  /** The letter of a digit: digits and letters without 0, I, O and l. */
  function Letter(d: nat): nat
    requires d < 58
  {
    if d < 9 then 49 + d else if d < 17 then 65 + (d - 9) else if d < 22 then 74 + (d - 17)
    else if d < 33 then 80 + (d - 22) else if d < 44 then 97 + (d - 33) else 109 + (d - 44)
  }

  function DigitOf(c: nat): (r: Option<nat>)
    ensures r.Some? ==> r.value < 58
  {
    if 49 <= c <= 57 then Some(c - 49) else if 65 <= c <= 72 then Some(c - 65 + 9)
      else if 74 <= c <= 78 then Some(c - 74 + 17)
    else if 80 <= c <= 90 then Some(c - 80 + 22) else if 97 <= c <= 107 then Some(c - 97 + 33)
      else if 109 <= c <= 122 then Some(c - 109 + 44)
    else None
  }

  /** Letters and digits correspond one to one; only the letter 1 is the digit zero. */
  lemma LetterDigit(c: nat, d: nat)
    ensures d < 58 ==>
              DigitOf(Letter(d)) == Some(d) && (Letter(d) == 49 <==> d == 0) && !IsSpace(Letter(d)) && Letter(d) != 0
    ensures DigitOf(c).Some? ==> Letter(DigitOf(c).value) == c && !IsSpace(c) && c != 0
  {
  }

  predicate IsSpace(c: nat) { c == 32 || 9 <= c <= 13 }

  ghost predicate AllLetters(t: seq<nat>) { forall i :: 0 <= i < |t| ==> DigitOf(t[i]).Some? }

  ghost function DigitsOf(t: seq<nat>): (r: seq<nat>)
    requires AllLetters(t)
    ensures |r| == |t| && AreDigits(r, 58) && forall i :: 0 <= i < |t| ==> r[i] == DigitOf(t[i]).value
  {
    seq(|t|, i requires 0 <= i < |t| => DigitOf(t[i]).value)
  }

  ghost function Letters(ds: seq<nat>): (r: seq<nat>)
    requires AreDigits(ds, 58)
    ensures |r| == |ds| && forall i :: 0 <= i < |r| ==> r[i] == Letter(ds[i])
  {
    seq(|ds|, i requires 0 <= i < |ds| => Letter(ds[i]))
  }

  /** How often `x` stands at the front. */
  ghost function Leading(s: seq<nat>, x: nat): (z: nat)
    ensures z <= |s| && (forall i :: 0 <= i < z ==> s[i] == x) && (z < |s| ==> s[z] != x)
  {
    if s == [] || s[0] != x then 0 else 1 + Leading(s[1..], x)
  }

  lemma LeadingIs(s: seq<nat>, x: nat, z: nat)
    requires z <= |s| && (forall i :: 0 <= i < z ==> s[i] == x) && (z < |s| ==> s[z] != x)
    ensures Leading(s, x) == z
  {
  }

  function Repeat(x: nat, n: nat): (r: seq<nat>)
    ensures |r| == n && forall i :: 0 <= i < n ==> r[i] == x
  {
    seq(n, i => x)
  }

  // ---------------------------------------------------------------------------------------------
  // What the codec computes
  // ---------------------------------------------------------------------------------------------

  /** A 1 for every leading zero byte, then the rest as one number in base 58. */
  ghost function Encoded(bytes: seq<Byte>): seq<nat> {
    var z := Leading(bytes, 0);
    Repeat(49, z) + Spelled(Num(bytes[z..], 256))
  }

  /** A zero byte for every leading 1, then the rest as one number in base 256. */
  ghost function Decoded(t: seq<nat>): seq<nat>
    requires AllLetters(t)
  {
    var z := Leading(t, 49);
    Repeat(0, z) + Digits(Num(DigitsOf(t[z..]), 58), 256)
  }

  lemma LettersBack(ds: seq<nat>)
    requires AreDigits(ds, 58)
    ensures AllLetters(Letters(ds)) && DigitsOf(Letters(ds)) == ds && (ds != [] && ds[0] != 0 ==> Letters(ds)[0] != 49)
  {
  }

  lemma DigitsBack(t: seq<nat>)
    requires AllLetters(t)
    ensures Letters(DigitsOf(t)) == t && (t != [] && t[0] != 49 ==> DigitsOf(t)[0] != 0)
  {
  }

  lemma Prefixed(x: nat, z: nat, rest: seq<nat>)
    requires rest == [] || rest[0] != x
    ensures Leading(Repeat(x, z) + rest, x) == z && (Repeat(x, z) + rest)[z..] == rest
  {
  }

  lemma OnesAreLetters(z: nat, rest: seq<nat>)
    requires AllLetters(rest)
    ensures AllLetters(Repeat(49, z) + rest)
  {
  }

  /** Decoding gives back every byte string. */
  lemma DecodeEncoded(bytes: seq<Byte>)
    ensures AllLetters(Encoded(bytes)) && Decoded(Encoded(bytes)) == bytes
  {
    hide Digits, Num, Letters, DigitsOf, AllLetters, Leading, Repeat, AreDigits;
    var z := Leading(bytes, 0);
    var n := Num(bytes[z..], 256);
    DigitsWrite(n, 58);
    BytesAreDigits(bytes, z);
    DigitsUnique(bytes[z..], 256);
    DecodeParts(z, Digits(n, 58), n);
    assert Repeat(0, z) + bytes[z..] == bytes;
  }

  lemma BytesAreDigits(bytes: seq<Byte>, z: nat)
    requires z <= |bytes|
    ensures AreDigits(bytes[z..], 256)
  {
  }

  lemma DecodeParts(z: nat, ds: seq<nat>, n: nat)
    requires AreDigits(ds, 58) && Num(ds, 58) == n && (ds == [] || ds[0] != 0)
    ensures AllLetters(Repeat(49, z) + Letters(ds)) &&
            Decoded(Repeat(49, z) + Letters(ds)) == Repeat(0, z) + Digits(n, 256)
  {
    hide Digits, Num, Letters, DigitsOf, AllLetters, Leading, Repeat, AreDigits;
    LettersBack(ds);
    Prefixed(49, z, Letters(ds));
    OnesAreLetters(z, Letters(ds));
  }

  /** Encoding gives back every string of letters. */
  lemma EncodeDecoded(t: seq<nat>)
    requires AllLetters(t)
    ensures AreDigits(Decoded(t), 256) && Encoded(Decoded(t)) == t
  {
    hide Digits, Num, Letters, DigitsOf, Leading, Repeat, AreDigits, AllLetters;
    var z := Leading(t, 49);
    BodyLetters(t, z);
    var body := t[z..];
    DigitsBack(body);
    var n := Num(DigitsOf(body), 58);
    DigitsUnique(DigitsOf(body), 58);
    DigitsWrite(n, 256);
    EncodeParts(z, Digits(n, 256), n);
    assert Repeat(49, z) + body == t;
  }

  lemma BodyLetters(t: seq<nat>, z: nat)
    requires AllLetters(t) && z <= |t|
    ensures AllLetters(t[z..])
  {
  }

  lemma EncodeParts(z: nat, ds: seq<nat>, n: nat)
    requires AreDigits(ds, 256) && Num(ds, 256) == n && (ds == [] || ds[0] != 0)
    ensures AreDigits(Repeat(0, z) + ds, 256) && Encoded(Repeat(0, z) + ds) == Repeat(49, z) + Spelled(n)
  {
    Prefixed(0, z, ds);
    hide Digits, Num, Leading, Spelled;
    assert AreDigits(Repeat(0, z) + ds, 256);
  }

  // ---------------------------------------------------------------------------------------------
  // The codec
  // ---------------------------------------------------------------------------------------------

  method NewBuffer(size: nat) returns (buf: array<nat>)
    ensures fresh(buf) && buf.Length == size && forall k :: 0 <= k < size ==> buf[k] == 0
  {
    buf := new nat[size](_ => 0);
  }

  lemma EmptyHolds(buf: seq<nat>, b: nat)
    requires b >= 2 && forall k :: 0 <= k < |buf| ==> buf[k] == 0
    ensures Holds(buf, b, 0, 0)
  {
    NumZeros(buf, b);
  }

  lemma NumNext(ds: seq<nat>, i: nat, b: nat)
    requires i < |ds|
    ensures Num(ds[..i + 1], b) == Num(ds[..i], b) * b + ds[i]
  {
    assert ds[..i + 1][..i] == ds[..i];
  }

  lemma PrefixFits(ds: seq<nat>, i: nat, b: nat)
    requires i <= |ds| && AreDigits(ds, b) && b >= 1
    ensures Num(ds[..i], b) < Pow(b, |ds|)
  {
    NumBound(ds[..i], b);
    PowGrows(b, i, |ds|);
  }

  /** Convert digits of base `m` into a buffer of base `b`, one by one. */
  method Convert(ds: seq<nat>, m: nat, b: nat, size: nat) returns (buf: array<nat>, length: nat)
    requires m >= 2 && b >= 2 && AreDigits(ds, m) && Pow(m, |ds|) <= Pow(b, size)
    ensures fresh(buf) && buf.Length == size && Holds(buf[..], b, length, Num(ds, m))
  {
    buf := NewBuffer(size);
    EmptyHolds(buf[..], b);
    length := 0;
    assert Num(ds[..0], m) == 0;
    hide Num, Pow, Holds, AreDigits;
    for i := 0 to |ds|
      invariant buf.Length == size && fresh(buf) && Holds(buf[..], b, length, Num(ds[..i], m))
    {
      NumNext(ds, i, m);
      PrefixFits(ds, i + 1, m);
      length := Accumulate(buf, length, b, m, ds[i], Num(ds[..i], m));
    }
    assert ds[..|ds|] == ds;
  }

  method EncodeBase58(bytes: seq<Byte>) returns (r: seq<nat>)
    ensures r == Encoded(bytes)
  {
    var zeroes := 0;
    while zeroes < |bytes| && bytes[zeroes] == 0
      invariant zeroes <= |bytes| && forall k :: 0 <= k < zeroes ==> bytes[k] == 0
    {
      zeroes := zeroes + 1;
    }
    LeadingIs(bytes, 0, zeroes);
    hide *;
    BytesAreDigits(bytes, zeroes);
    r := EncodeRest(bytes[zeroes..], zeroes);
    EncodedIs(bytes, zeroes);
  }

  lemma EncodedIs(bytes: seq<Byte>, z: nat)
    requires z == Leading(bytes, 0)
    ensures Encoded(bytes) == Repeat(49, z) + Spelled(Num(bytes[z..], 256))
  {
  }

  ghost function Spelled(n: nat): seq<nat> {
    DigitsWrite(n, 58);
    Letters(Digits(n, 58))
  }

  method EncodeRest(rest: seq<nat>, zeroes: nat) returns (r: seq<nat>)
    requires AreDigits(rest, 256)
    ensures r == Repeat(49, zeroes) + Spelled(Num(rest, 256))
  {
    hide Digits, Num, Holds, Repeat, Letters, Pow, AreDigits;
    var size := |rest| * 138 / 100 + 1;
    LettersSuffice(|rest|);
    var buf, length := Convert(rest, 256, 58, size);
    HeldDigits(buf[..], 58, length, Num(rest, 256));
    HeldRange(buf[..], 58, length, Num(rest, 256));
    DigitsWrite(Num(rest, 256), 58);
    assert buf[size - length..] == Digits(Num(rest, 256), 58);
    var it := SkipZeros(buf, size - length);
    r := Spell(buf, it, zeroes);
  }

  method SkipZeros(buf: array<nat>, start: nat) returns (it: nat)
    requires start <= buf.Length
    ensures start <= it <= buf.Length && (it > start ==> buf[start] == 0) && (it < buf.Length ==> buf[it] != 0)
  {
    it := start;
    while it < buf.Length && buf[it] == 0
      invariant start <= it <= buf.Length && (it > start ==> buf[start] == 0)
    {
      it := it + 1;
    }
  }

  method Spell(buf: array<nat>, start: nat, zeroes: nat) returns (r: seq<nat>)
    requires start <= buf.Length && AreDigits(buf[start..], 58)
    ensures r == Repeat(49, zeroes) + Letters(buf[start..])
  {
    ghost var ds := buf[start..];
    hide Letter;
    r := seq(zeroes, i => 49);
    for it := start to buf.Length
      invariant r == Repeat(49, zeroes) + Letters(ds)[..it - start]
    {
      assert ds[it - start] == buf[it];
      r := r + [Letter(buf[it])];
    }
    assert Letters(ds)[..|ds|] == Letters(ds);
  }

  // --- decoding -----------------------------------------------------------------------------------

  /** The number of leading spaces. */
  function FirstWord(s: seq<nat>): (a: nat)
    ensures a <= |s| && (forall k :: 0 <= k < a ==> IsSpace(s[k])) && (a < |s| ==> !IsSpace(s[a]))
  {
    if s == [] || !IsSpace(s[0]) then 0 else 1 + FirstWord(s[1..])
  }

  /** The end of the text without trailing spaces. */
  function LastWord(s: seq<nat>): (e: nat)
    ensures e <= |s| && (forall k :: e <= k < |s| ==> IsSpace(s[k])) && (e > 0 ==> !IsSpace(s[e - 1]))
  {
    if s == [] || !IsSpace(s[|s| - 1]) then |s| else LastWord(s[..|s| - 1])
  }

  /** The text without spaces around it. */
  function Trim(s: seq<nat>): seq<nat> { if FirstWord(s) <= LastWord(s) then s[FirstWord(s)..LastWord(s)] else [] }

  lemma WordBounds(s: seq<nat>, k: nat)
    requires k < |s| && !IsSpace(s[k])
    ensures FirstWord(s) <= k < LastWord(s)
  {
    hide FirstWord, LastWord, IsSpace;
  }

  /** Any text that is not a space lies within the trimmed part. */
  lemma WordInside(s: seq<nat>, k: nat)
    requires k < |s| && !IsSpace(s[k])
    ensures FirstWord(s) <= k < LastWord(s) && Trim(s) == s[FirstWord(s)..LastWord(s)] &&
            Trim(s)[k - FirstWord(s)] == s[k]
  {
    WordBounds(s, k);
    TrimSlice(s);
    hide FirstWord, LastWord, IsSpace, Trim;
    SliceAt(s, FirstWord(s), LastWord(s), k);
  }

  lemma SliceAt(s: seq<nat>, a: nat, e: nat, k: nat)
    requires a <= k < e <= |s|
    ensures s[a..e][k - a] == s[k]
  {
  }

  lemma TrimSlice(s: seq<nat>)
    ensures FirstWord(s) <= LastWord(s) ==> Trim(s) == s[FirstWord(s)..LastWord(s)]
  {
    hide FirstWord, LastWord, IsSpace;
  }

  method SkipSpaces(s: seq<nat>, from: nat) returns (i: nat)
    requires from <= |s|
    ensures from <= i <= |s| && (forall k :: from <= k < i ==> IsSpace(s[k])) && (i < |s| ==> !IsSpace(s[i]))
  {
    i := from;
    while i < |s| && IsSpace(s[i])
      invariant from <= i <= |s| && forall k :: from <= k < i ==> IsSpace(s[k])
    {
      i := i + 1;
    }
  }

  /** `vals` are the digits of the letters from `start` to `stop`. */
  ghost predicate Read(s: seq<nat>, start: nat, stop: nat, vals: seq<nat>) {
    && start <= stop <= |s| && |vals| == stop - start && AreDigits(vals, 58)
    && forall k :: 0 <= k < |vals| ==> DigitOf(s[start + k]) == Some(vals[k])
  }

  /** Why reading stops early: a character that is no letter, or more bytes than allowed. */
  ghost predicate Stuck(s: seq<nat>, start: nat, stop: nat, vals: seq<nat>, zeroes: nat, max: int) {
    || (start <= stop < |s| && !IsSpace(s[stop]) && DigitOf(s[stop]) == None)
    || (start < stop <= |s| && Read(s, start, stop, vals) && zeroes + |Digits(Num(vals, 58), 256)| > max)
  }

  /** Read letters into the byte buffer. */
  method ReadDigits(s: seq<nat>, start: nat, zeroes: nat, max: int)
    returns (ok: bool, stop: nat, length: nat, buf: array<nat>, ghost vals: seq<nat>)
    requires start <= |s|
    ensures ok ==>
              && Read(s, start, stop, vals)
              && (stop < |s| ==> IsSpace(s[stop]))
              && Holds(buf[..], 256, length, Num(vals, 58))
    ensures ok && stop > start ==> zeroes + length <= max
    ensures !ok ==> Stuck(s, start, stop, vals, zeroes, max)
  {
    var size := (|s| - start) * 733 / 1000 + 1;
    buf := NewBuffer(size);
    EmptyHolds(buf[..], 256);
    BytesSuffice(|s| - start);
    length, stop, vals := 0, start, [];
    assert Num([], 58) == 0;
    hide Num, Pow, Holds, Digits, DigitOf, AreDigits, Read;
    NothingRead(s, start);
    while stop < |s| && !IsSpace(s[stop])
      invariant buf.Length == size && fresh(buf) && Read(s, start, stop, vals) &&
                Holds(buf[..], 256, length, Num(vals, 58))
      invariant stop > start ==> zeroes + length <= max
    {
      var digit := DigitOf(s[stop]);
      if digit == None {
        return false, stop, length, buf, vals;
      }
      length := TakeLetter(buf, length, s, start, stop, vals, digit.value);
      vals := vals + [digit.value];
      stop := stop + 1;
      if length + zeroes > max {
        HeldLength(buf[..], 256, length, Num(vals, 58));
        return false, stop, length, buf, vals;
      }
    }
    ok := true;
  }

  lemma NothingRead(s: seq<nat>, start: nat)
    requires start <= |s|
    ensures Read(s, start, start, [])
  {
  }

  /** One letter goes into the buffer. */
  method TakeLetter(buf: array<nat>, length: nat, s: seq<nat>, start: nat, stop: nat, ghost vals: seq<nat>,
                    d: nat) returns (length': nat)
    requires Read(s, start, stop, vals) && stop < |s| && DigitOf(s[stop]) == Some(d) &&
             Holds(buf[..], 256, length, Num(vals, 58))
    requires buf.Length == (|s| - start) * 733 / 1000 + 1 && Pow(58, |s| - start) <= Pow(256, buf.Length)
    modifies buf
    ensures Read(s, start, stop + 1, vals + [d]) && Holds(buf[..], 256, length', Num(vals + [d], 58))
  {
    hide Num, Pow, Holds, DigitOf, AreDigits;
    ReadMore(s, start, stop, vals, d);
    FitsBytes(vals, d, |s| - start);
    length' := Accumulate(buf, length, 256, 58, d, Num(vals, 58));
  }

  lemma ReadMore(s: seq<nat>, start: nat, stop: nat, vals: seq<nat>, d: nat)
    requires Read(s, start, stop, vals) && stop < |s| && DigitOf(s[stop]) == Some(d)
    ensures Read(s, start, stop + 1, vals + [d]) && Num(vals + [d], 58) == Num(vals, 58) * 58 + d
  {
  }

  lemma FitsBytes(vals: seq<nat>, d: nat, n: nat)
    requires AreDigits(vals, 58) && d < 58 && |vals| < n && Pow(58, n) <= Pow(256, n * 733 / 1000 + 1)
    ensures Num(vals, 58) * 58 + d < Pow(256, n * 733 / 1000 + 1)
  {
    var more := vals + [d];
    assert more[..|vals|] == vals;
    NumBound(more, 58);
    PowGrows(58, |more|, n);
  }

  /** Decoding succeeds exactly for letters between spaces that give no more bytes than allowed. */
  method DecodeBase58(s: seq<nat>, max: int) returns (r: Option<seq<nat>>)
    ensures r.Some? <==> 0 !in s && AllLetters(Trim(s)) && (Trim(s) == [] || |Decoded(Trim(s))| <= max)
    ensures r.Some? ==> r.value == Decoded(Trim(s))
  {
    if 0 in s {
      return None;
    }
    var a := SkipSpaces(s, 0);
    FirstIs(s, a);
    var start := a;
    hide Decoded, AllLetters, Trim, FirstWord, LastWord, Digits, Num, Holds, Read, Stuck;
    while start < |s| && s[start] == 49
      invariant a <= start <= |s| && forall k :: a <= k < start ==> s[k] == 49
      invariant start > a ==> start - a <= max
    {
      start := start + 1;
      if start - a > max {
        TooManyOnes(s, a, start, max);
        return None;
      }
    }
    r := DecodeBody(s, a, start, max);
  }

  method DecodeBody(s: seq<nat>, a: nat, start: nat, max: int) returns (r: Option<seq<nat>>)
    requires a <= start <= |s| && OnesUpTo(s, a, start) && (start > a ==> start - a <= max)
    ensures r.Some? <==> AllLetters(Trim(s)) && (Trim(s) == [] || |Decoded(Trim(s))| <= max)
    ensures r.Some? ==> r.value == Decoded(Trim(s))
  {
    hide *;
    var ok, stop, length, buf;
    ghost var vals;
    ok, stop, length, buf, vals := ReadDigits(s, start, start - a, max);
    if !ok {
      StuckFails(s, a, start, stop, vals, max);
      return None;
    }
    ReadRange(s, start, stop, vals);
    var end := SkipSpaces(s, stop);
    if end < |s| {
      InnerSpace(s, a, start, stop, vals, end);
      return None;
    }
    HeldDigits(buf[..], 256, length, Num(vals, 58));
    HeldRange(buf[..], 256, length, Num(vals, 58));
    Accepted(s, a, start, stop, vals, max);
    return Some(Repeat(0, start - a) + buf[buf.Length - length..]);
  }

  lemma HeldRange(buf: seq<nat>, b: nat, length: nat, n: nat)
    requires b >= 2 && Holds(buf, b, length, n)
    ensures length <= |buf| && |Digits(n, b)| == length
  {
    HeldLength(buf, b, length, n);
  }

  /** A text read to its end is accepted. */
  lemma Accepted(s: seq<nat>, a: nat, start: nat, stop: nat, vals: seq<nat>, max: int)
    requires OnesUpTo(s, a, start) && Read(s, start, stop, vals) && forall k :: stop <= k < |s| ==> IsSpace(s[k])
    requires (start > a ==> start - a <= max) && (stop > start ==> start - a + |Digits(Num(vals, 58), 256)| <= max)
    ensures AllLetters(Trim(s)) && (Trim(s) == [] || |Decoded(Trim(s))| <= max)
    ensures Decoded(Trim(s)) == Repeat(0, start - a) + Digits(Num(vals, 58), 256)
  {
    ReadRange(s, start, stop, vals);
    NothingHeld();
    hide Decoded, AllLetters, Trim, FirstWord, LastWord, Digits, Num, Read, IsSpace;
    WholeToken(s, a, start, stop, vals);
  }

  lemma ReadRange(s: seq<nat>, start: nat, stop: nat, vals: seq<nat>)
    requires Read(s, start, stop, vals)
    ensures start <= stop <= |s|
  {
  }

  lemma NothingHeld()
    ensures Digits(Num([], 58), 256) == []
  {
  }

  lemma FirstIs(s: seq<nat>, a: nat)
    requires a <= |s| && (forall k :: 0 <= k < a ==> IsSpace(s[k])) && (a < |s| ==> !IsSpace(s[a]))
    ensures FirstWord(s) == a
  {
  }

  /** `z` ones at the front of the trimmed text. */
  lemma OnesInside(s: seq<nat>, a: nat, start: nat)
    requires a == FirstWord(s) && a <= start <= |s| && forall k :: a <= k < start ==> s[k] == 49
    ensures start - a <= |Trim(s)| && forall k :: 0 <= k < start - a ==> Trim(s)[k] == 49
    ensures start > a ==> Leading(Trim(s), 49) >= start - a
  {
    if start > a {
      WordInside(s, start - 1);
      var t := Trim(s);
      assert forall k :: 0 <= k < start - a ==> t[k] == s[a + k];
    }
  }

  lemma TooManyOnes(s: seq<nat>, a: nat, start: nat, max: int)
    requires a == FirstWord(s) && a < start <= |s| && (forall k :: a <= k < start ==> s[k] == 49) && start - a > max
    ensures Trim(s) != [] && (AllLetters(Trim(s)) ==> |Decoded(Trim(s))| > max)
  {
    OnesInside(s, a, start);
    hide Digits, Num;
  }

  /** The first word begins at `a`, with its ones up to `start`. */
  ghost predicate OnesUpTo(s: seq<nat>, a: nat, start: nat) {
    && a == FirstWord(s) && a <= start <= |s| && (forall k :: a <= k < start ==> s[k] == 49)
    && (start < |s| ==> s[start] != 49)
  }

  lemma OnesAreLeading(s: seq<nat>, a: nat, start: nat)
    requires OnesUpTo(s, a, start)
    ensures Leading(Trim(s), 49) == start - a
  {
    OnesInside(s, a, start);
    LeadingIs(Trim(s), 49, start - a);
  }

  lemma StuckFails(s: seq<nat>, a: nat, start: nat, stop: nat, vals: seq<nat>, max: int)
    requires OnesUpTo(s, a, start) && Stuck(s, start, stop, vals, start - a, max)
    ensures Trim(s) != [] && (AllLetters(Trim(s)) ==> |Decoded(Trim(s))| > max)
  {
    hide Digits, Num, LastWord, FirstWord;
    if stop < |s| && !IsSpace(s[stop]) && DigitOf(s[stop]) == None {
      WordInside(s, stop);
    } else {
      TooLong(s, a, start, stop, vals, max);
    }
  }

  lemma TooLong(s: seq<nat>, a: nat, start: nat, stop: nat, vals: seq<nat>, max: int)
    requires OnesUpTo(s, a, start) && start < stop && Read(s, start, stop, vals) &&
             start - a + |Digits(Num(vals, 58), 256)| > max
    ensures Trim(s) != [] && (AllLetters(Trim(s)) ==> |Decoded(Trim(s))| > max)
  {
    ReadRange(s, start, stop, vals);
    assert a <= start;
    hide *;
    LastRead(s, start, stop, vals);
    WordInside(s, stop - 1);
    OnesAreLeading(s, a, start);
    if AllLetters(Trim(s)) {
      BodyPrefix(s, a, start, stop, vals);
      LongerBody(Trim(s), start - a, vals);
    }
  }

  lemma LongerBody(t: seq<nat>, z: nat, vals: seq<nat>)
    requires AllLetters(t) && z == Leading(t, 49) && |vals| <= |t| - z && DigitsOf(t[z..])[..|vals|] == vals
    ensures |Decoded(t)| >= z + |Digits(Num(vals, 58), 256)|
  {
    hide Digits, Num, DigitOf, Leading, DigitsOf;
    var body := DigitsOf(t[z..]);
    NumPrefix(body, |vals|, 58);
    DigitsGrow(Num(vals, 58), Num(body, 58), 256);
  }

  lemma LastRead(s: seq<nat>, start: nat, stop: nat, vals: seq<nat>)
    requires start < stop && Read(s, start, stop, vals)
    ensures !IsSpace(s[stop - 1])
  {
    LetterDigit(s[stop - 1], 0);
    assert DigitOf(s[start + (|vals| - 1)]) == Some(vals[|vals| - 1]);
  }

  lemma BodyPrefix(s: seq<nat>, a: nat, start: nat, stop: nat, vals: seq<nat>)
    requires OnesUpTo(s, a, start) && start < stop <= LastWord(s) && Read(s, start, stop, vals) && AllLetters(Trim(s))
    ensures |vals| <= |Trim(s)[start - a..]| && DigitsOf(Trim(s)[start - a..])[..|vals|] == vals
  {
    var body := Trim(s)[start - a..];
    hide DigitOf, FirstWord, LastWord;
    forall k | 0 <= k < |vals|
      ensures DigitsOf(body)[k] == vals[k]
    {
      assert body[k] == s[start + k];
      assert DigitOf(s[start + k]) == Some(vals[k]);
    }
  }

  lemma {:induction false} NumPrefix(ds: seq<nat>, i: nat, b: nat)
    requires i <= |ds| && b >= 1
    ensures Num(ds[..i], b) <= Num(ds, b)
  {
    if i == |ds| {
      assert ds[..i] == ds;
    } else {
      var n := |ds| - 1;
      NumPrefix(ds[..n], i, b);
      assert ds[..n][..i] == ds[..i];
      MulMonotone(1, b, Num(ds[..n], b));
    }
  }

  lemma InnerSpace(s: seq<nat>, a: nat, start: nat, stop: nat, vals: seq<nat>, end: nat)
    requires OnesUpTo(s, a, start) && Read(s, start, stop, vals) && stop <= end < |s| && IsSpace(s[stop]) &&
             !IsSpace(s[end])
    ensures !AllLetters(Trim(s))
  {
    WordInside(s, end);
    LetterDigit(s[stop], 0);
    assert Trim(s)[stop - a] == s[stop];
  }

  lemma WholeToken(s: seq<nat>, a: nat, start: nat, stop: nat, vals: seq<nat>)
    requires OnesUpTo(s, a, start) && Read(s, start, stop, vals) && forall k :: stop <= k < |s| ==> IsSpace(s[k])
    ensures AllLetters(Trim(s)) && Decoded(Trim(s)) == Repeat(0, start - a) + Digits(Num(vals, 58), 256)
    ensures (Trim(s) == [] <==> stop == a) && (stop == start ==> vals == [])
  {
    hide Digits, Num, Leading, Trim, FirstWord, AllLetters, DigitsOf, IsSpace, DigitOf, AreDigits;
    TrimIs(s, a, stop, start, vals);
    OnesAreLeading(s, a, start);
    TokenLetters(s, a, start, stop, vals);
  }

  lemma TokenLetters(s: seq<nat>, a: nat, start: nat, stop: nat, vals: seq<nat>)
    requires OnesUpTo(s, a, start) && Read(s, start, stop, vals)
    ensures AllLetters(s[a..stop]) && DigitsOf(s[a..stop][start - a..]) == vals
  {
    var t, z := s[a..stop], start - a;
    LetterDigit(49, 0);
    hide FirstWord, DigitOf, IsSpace, AreDigits;
    forall k | 0 <= k < |t|
      ensures DigitOf(t[k]).Some? && (k >= z ==> DigitOf(t[k]) == Some(vals[k - z]))
    {
      TokenLetter(s, a, start, stop, vals, a + k);
    }
  }

  lemma TokenLetter(s: seq<nat>, a: nat, start: nat, stop: nat, vals: seq<nat>, k: nat)
    requires OnesUpTo(s, a, start) && Read(s, start, stop, vals) && a <= k < stop
    ensures if k < start then s[k] == 49 else DigitOf(s[k]) == Some(vals[k - start])
  {
    hide FirstWord, DigitOf, IsSpace, AreDigits;
    if k >= start {
      assert s[k] == s[start + (k - start)];
    }
  }

  lemma TrimIs(s: seq<nat>, a: nat, stop: nat, start: nat, vals: seq<nat>)
    requires OnesUpTo(s, a, start) && Read(s, start, stop, vals) && forall k :: stop <= k < |s| ==> IsSpace(s[k])
    ensures Trim(s) == s[a..stop]
  {
    if stop == a {
      return;
    }
    if stop > start {
      LastRead(s, start, stop, vals);
    }
    WordInside(s, stop - 1);
    assert LastWord(s) == stop;
  }

  // ---------------------------------------------------------------------------------------------
  // Round trips and checksums
  // ---------------------------------------------------------------------------------------------

  lemma LettersStand(t: seq<nat>)
    requires AllLetters(t)
    ensures Trim(t) == t && 0 !in t
  {
  }

  /** Decoding an encoded byte string gives it back exactly when it is within the limit. */
  method RoundTrip(bytes: seq<Byte>, max: int) returns (r: Option<seq<nat>>)
    ensures r == if bytes == [] || |bytes| <= max then Some(bytes) else None
  {
    var s := EncodeBase58(bytes);
    DecodeEncoded(bytes);
    LettersStand(s);
    EmptyOnly(bytes);
    hide *;
    r := DecodeBase58(s, max);
  }

  lemma EmptyOnly(bytes: seq<Byte>)
    ensures Encoded(bytes) == [] <==> bytes == []
  {
    var z := Leading(bytes, 0);
    DigitsWrite(Num(bytes[z..], 256), 58);
    if z == 0 && bytes != [] {
      assert bytes[0..] == bytes;
      NumPositive(bytes, 256);
    }
  }

  /** Text that decodes is what its bytes encode to, but for the spaces around it. */
  method RoundTripText(s: seq<nat>, max: int) returns (r: Option<seq<nat>>)
    ensures r.Some? ==> r.value == Trim(s)
  {
    var bytes := DecodeBase58(s, max);
    if bytes == None {
      return None;
    }
    EncodeDecoded(Trim(s));
    BytesOf(bytes.value);
    var t := EncodeBase58(bytes.value);
    r := Some(t);
  }

  lemma BytesOf(ds: seq<nat>)
    requires AreDigits(ds, 256)
    ensures forall i :: 0 <= i < |ds| ==> ds[i] < 256
  {
  }

  /** Four bytes of a hash. */
  type Hash4 = seq<Byte> -> seq<Byte>

  ghost predicate FourBytes(h: Hash4) { forall v :: |h(v)| == 4 }

  method EncodeBase58Check(bytes: seq<Byte>, h: Hash4) returns (r: seq<nat>)
    ensures r == Encoded(bytes + h(bytes))
  {
    r := EncodeBase58(bytes + h(bytes));
  }

  /** The byte limit with room for the checksum, kept within 32 bits. */
  function Limit(max: int): int { if max > 0x7fff_ffff - 4 then 0x7fff_ffff else max + 4 }

  /** The payload of text that decodes to bytes ending in their own checksum. */
  method DecodeBase58Check(s: seq<nat>, max: int, h: Hash4) returns (r: Option<seq<Byte>>)
    requires FourBytes(h)
    ensures r.Some? ==>
              0 !in s && AllLetters(Trim(s)) && Decoded(Trim(s)) == r.value + h(r.value) && |r.value| + 4 <= Limit(max)
    ensures r == None ==>
              || 0 in s || !AllLetters(Trim(s)) || |Decoded(Trim(s))| > Limit(max)
              || forall v: seq<Byte> :: Decoded(Trim(s)) != v + h(v)
  {
    var d := DecodeBase58(s, Limit(max));
    if d == None || |d.value| < 4 {
      return None;
    }
    EncodeDecoded(Trim(s));
    BytesOf(d.value);
    NotEmpty(s);
    hide Trim, AllLetters, Decoded, Encoded;
    var bytes: seq<Byte> := d.value;
    var n := |bytes| - 4;
    if h(bytes[..n]) != bytes[n..] {
      forall v: seq<Byte>
        ensures bytes != v + h(v)
      {
        SplitUnique(v, h(v), bytes);
      }
      return None;
    }
    assert bytes == bytes[..n] + bytes[n..];
    return Some(bytes[..n]);
  }

  /** Bytes encoded with their checksum come back exactly when they are within the limit. */
  method RoundTripCheck(bytes: seq<Byte>, max: int, h: Hash4) returns (r: Option<seq<Byte>>)
    requires FourBytes(h)
    ensures r == if |bytes| + 4 <= Limit(max) then Some(bytes) else None
  {
    var s := EncodeBase58Check(bytes, h);
    ghost var all := bytes + h(bytes);
    DecodeEncoded(all);
    LettersStand(s);
    hide Trim, AllLetters, Decoded, Encoded, Limit;
    r := DecodeBase58Check(s, max, h);
    if r.Some? {
      SplitUnique(r.value, h(r.value), all);
      SplitUnique(bytes, h(bytes), all);
    }
  }

  /** Text accepted with its checksum is what its payload encodes to, but for the spaces around it. */
  method RoundTripCheckText(s: seq<nat>, max: int, h: Hash4) returns (r: Option<seq<nat>>)
    requires FourBytes(h)
    ensures r.Some? ==> r.value == Trim(s)
  {
    hide Trim, AllLetters, Decoded, Encoded, Limit;
    var payload := DecodeBase58Check(s, max, h);
    if payload == None {
      return None;
    }
    EncodeDecoded(Trim(s));
    var t := EncodeBase58Check(payload.value, h);
    r := Some(t);
  }

  lemma SplitUnique(v: seq<Byte>, w: seq<Byte>, bytes: seq<Byte>)
    requires |w| <= |bytes|
    ensures v + w == bytes ==> v == bytes[..|bytes| - |w|] && w == bytes[|bytes| - |w|..]
  {
  }

  lemma NotEmpty(s: seq<nat>)
    requires AllLetters(Trim(s))
    ensures Trim(s) == [] ==> Decoded(Trim(s)) == []
  {
  }
}
