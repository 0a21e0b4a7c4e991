/** The compact target encoding (one size byte, a sign bit, a 23-bit mantissa) and the work of a block. */
module Compact {
  import opened Arith

  const WIDTH := 8

  function Size(c: Limb): nat { c / 0x100_0000 }

  function Mantissa(c: Limb): nat { c % 0x80_0000 }

  predicate Sign(c: Limb) { (c / 0x80_0000) % 2 == 1 }

  function Distance(a: nat, b: nat): nat { if a <= b then b - a else a - b }

  lemma NatTimes(a: nat, b: nat)
    ensures a * b >= 0
  {
  }

  /** The whole part of mantissa times 256 to the size minus three. */
  function Magnitude(size: nat, mantissa: nat): nat {
    DivBound(mantissa, Pow2(8 * Distance(size, 3)));
    NatTimes(mantissa, Pow2(8 * Distance(size, 3)));
    if size <= 3 then mantissa / Pow2(8 * (3 - size)) else mantissa * Pow2(8 * (size - 3))
  }

  /** The whole part of `x` divided by 256 to the size minus three. */
  function Scaled(x: nat, size: nat): nat {
    DivBound(x, Pow2(8 * Distance(size, 3)));
    NatTimes(x, Pow2(8 * Distance(size, 3)));
    if size <= 3 then x * Pow2(8 * (3 - size)) else x / Pow2(8 * (size - 3))
  }

  /** The normal form of `x`: the size at which its leading bytes make a 16- to 23-bit mantissa. */
  ghost predicate Encodes(x: nat, size: nat, mantissa: nat) {
    if x == 0 then size == 0 && mantissa == 0 else 0x8000 <= mantissa < 0x80_0000 && mantissa == Scaled(x, size)
  }

  // ---------------------------------------------------------------------------------------------
  // SetCompact
  // ---------------------------------------------------------------------------------------------

  lemma PowerScales(x: nat, a: nat, b: nat)
    ensures x * Pow2(a) >= Pow2(a + b) <==> x >= Pow2(b)
  {
    Pow2Add(b, a);
    hide Pow2;
    if x >= Pow2(b) {
      MulMonotone(Pow2(b), x, Pow2(a));
    } else {
      MulMonotone(x + 1, Pow2(b), Pow2(a));
      assert (x + 1) * Pow2(a) == x * Pow2(a) + Pow2(a);
    }
  }

  /** The overflow test on sizes and mantissas is the comparison with two to the 256. */
  lemma OverflowRule(size: nat, word: nat)
    requires word < 0x80_0000 && size > 3
    ensures word != 0 && (size > 34 || (word > 0xff && size > 33) || (word > 0xffff && size > 32))
            <==> Magnitude(size, word) >= Pow2(256)
  {
    hide Pow2;
    if size > 34 {
      OverflowFar(size - 3, word);
    } else if size > 32 {
      Pow2Values();
      PowerScales(word, 8 * (size - 3), 280 - 8 * size);
    } else {
      OverflowNear(size - 3, word);
    }
  }

  lemma OverflowFar(e: nat, word: nat)
    requires e >= 32
    ensures word != 0 <==> word * Pow2(8 * e) >= Pow2(256)
  {
    hide Pow2;
    Pow2Monotone(256, 8 * e);
    if word == 0 {
      ZeroTimes(Pow2(8 * e));
    } else {
      MulMonotone(1, word, Pow2(8 * e));
    }
  }

  lemma OverflowNear(e: nat, word: nat)
    requires e <= 29 && word < 0x80_0000
    ensures word * Pow2(8 * e) < Pow2(256)
  {
    hide Pow2;
    Pow2Values();
    PowerScales(word, 8 * e, 256 - 8 * e);
    Pow2Monotone(23, 256 - 8 * e);
  }

  lemma ZeroTimes(p: int)
    ensures 0 * p == 0
  {
  }

  lemma SmallNeverOverflows(size: nat, word: nat)
    requires word < 0x80_0000 && size <= 3
    ensures Magnitude(size, word) <= word < Pow2(256) && word < BASE * BASE
  {
    Pow2Values();
    Pow2Monotone(32, 256);
    hide Pow2;
    DivBound(word, Pow2(8 * (3 - size)));
  }

  /** A shift that sends the mantissa to zero clears it, and only then is the number zero. */
  lemma MagnitudeZero(size: nat, word: nat)
    requires size > 3
    ensures Magnitude(size, word) == 0 <==> word == 0
  {
  }

  method SetCompact(pn: array<Limb>, c: Limb) returns (negative: bool, overflow: bool)
    requires pn.Length == WIDTH
    modifies pn
    ensures Value(pn[..]) == Magnitude(Size(c), Mantissa(c)) % Pow2(256)
    ensures overflow <==> Magnitude(Size(c), Mantissa(c)) >= Pow2(256)
    ensures negative <==> Sign(c) && Magnitude(Size(c), Mantissa(c)) != 0
  {
    hide Value, Pow2;
    var size, word := c / 0x100_0000, c % 0x80_0000;
    if size <= 3 {
      SmallNeverOverflows(size, word);
      word := word / Pow2(8 * (3 - size));
      ModSmall(word, Pow2(256));
      SetU64(pn, word);
    } else {
      OverflowRule(size, word);
      MagnitudeZero(size, word);
      SetU64(pn, word);
      ShiftLeft(pn, 8 * (size - 3));
    }
    negative := word != 0 && (c / 0x80_0000) % 2 == 1;
    overflow := word != 0 && (size > 34 || (word > 0xff && size > 33) || (word > 0xffff && size > 32));
  }

  // ---------------------------------------------------------------------------------------------
  // GetCompact
  // ---------------------------------------------------------------------------------------------

  /** Or with a single clear bit is addition. */
  lemma {:induction false} OrBit(c: nat, n: nat)
    requires (c / Pow2(n)) % 2 == 0
    ensures Or(c, Pow2(n)) == c + Pow2(n)
  {
    if n == 0 {
      OrZero(c / 2);
    } else {
      var p := Pow2(n - 1);
      DivMod(c, 2 * p);
      HalfQuotient(c, p);
      OrBit(c / 2, n - 1);
      OrZero(Pow2(n));
    }
  }

  lemma HalfQuotient(c: nat, p: nat)
    requires p >= 1
    ensures (c / 2) / p == c / (2 * p)
  {
    DivMod(c, 2 * p);
    var q, r := c / (2 * p), c % (2 * p);
    assert c == 2 * (q * p) + r;
    DivUnique(c / 2, p, q, r / 2);
  }

  /** A number of `bits` significant bits cut to its leading three bytes is a full 24-bit word. */
  lemma LeadingBytes(x: nat, bits: nat, size: nat)
    requires IsBitLength(x, bits) && bits > 0 && size == (bits + 7) / 8
    ensures 0x1_0000 <= Scaled(x, size) < 0x100_0000
  {
    Pow2Values();
    hide Pow2;
    if size <= 3 {
      var e := 8 * (3 - size);
      Pow2Add(bits - 1, e);
      Pow2Add(bits, e);
      Pow2Monotone(16, bits - 1 + e);
      Pow2Monotone(bits + e, 24);
      MulMonotone(Pow2(bits - 1), x, Pow2(e));
      MulMonotone(x + 1, Pow2(bits), Pow2(e));
      assert (x + 1) * Pow2(e) == x * Pow2(e) + Pow2(e);
    } else {
      var e := 8 * (size - 3);
      Pow2Monotone(16 + e, bits - 1);
      Pow2Monotone(bits, 24 + e);
      Pow2Add(16, e);
      Pow2Add(24, e);
      QuotientBound(x, Pow2(e), Pow2(24));
      DivAtLeast(x, Pow2(e), Pow2(16));
    }
  }

  lemma DivAtLeast(x: nat, d: nat, m: nat)
    requires d >= 1 && m * d <= x
    ensures m <= x / d
  {
    DivMod(x, d);
    if x / d < m {
      MulMonotone(x / d + 1, m, d);
    }
  }

  /** Dropping one more byte raises the size by one. */
  lemma ScaledNext(x: nat, size: nat)
    ensures Scaled(x, size + 1) == Scaled(x, size) / 256
  {
    Pow2Values();
    assert Pow2(0) == 1;
    hide Pow2;
    if size < 3 {
      var e := 8 * (2 - size);
      Pow2Add(8, e);
      ByteUp(x, Pow2(e));
    } else {
      Pow2Add(8, 8 * (size - 3));
      DivTwice(x, Pow2(8 * (size - 3)), 256);
    }
  }

  lemma ByteUp(x: nat, p: nat)
    ensures (x * (256 * p)) / 256 == x * p
  {
    assert x * (256 * p) == (x * p) * 256;
    DivUnique(x * (256 * p), 256, x * p, 0);
  }

  method GetCompact(pn: array<Limb>, negative: bool) returns (c: Limb)
    requires pn.Length == WIDTH
    ensures Encodes(Value(pn[..]), Size(c), Mantissa(c))
    ensures Sign(c) <==> negative && Value(pn[..]) != 0
  {
    hide Value, Pow2, IsBitLength, Scaled, Encodes, Size, Mantissa, Sign;
    ghost var x := Value(pn[..]);
    var bits := Bits(pn);
    var size := (bits + 7) / 8;
    var word := LeadingWord(pn, bits, size);
    if (word / 0x80_0000) % 2 == 1 {
      ScaledNext(x, size);
      word := word / 256;
      size := size + 1;
    }
    assert word < 0x80_0000;
    assert size < 256;
    assert x == 0 ==> word == 0 && size == 0;
    assert Encodes(x, size, word) by { EncodesIntro(x, size, word); }
    c := Pack(size, word, negative);
  }

  lemma EncodesIntro(x: nat, size: nat, word: nat)
    requires if x == 0 then size == 0 && word == 0 else 0x8000 <= word < 0x80_0000 && word == Scaled(x, size)
    ensures Encodes(x, size, word)
  {
  }

  /** The three leading bytes, as a word. */
  method LeadingWord(pn: array<Limb>, bits: nat, size: nat) returns (word: nat)
    requires pn.Length == WIDTH && IsBitLength(Value(pn[..]), bits) && bits <= 256 && size == (bits + 7) / 8
    ensures word == Scaled(Value(pn[..]), size)
    ensures if Value(pn[..]) == 0 then word == 0 && bits == 0 else 0x1_0000 <= word < 0x100_0000
  {
    ZeroHasNoBits(Value(pn[..]), bits);
    if bits == 0 {
      ZeroTimes(Pow2(24));
    } else {
      LeadingBytes(Value(pn[..]), bits, size);
    }
    ghost var x := Value(pn[..]);
    if size <= 3 {
      SmallValue(x, bits);
      hide Value, Pow2, IsBitLength;
      word := GetLow64(pn);
      ModSmall(x, BASE * BASE);
      word := (word * Pow2(8 * (3 - size))) % BASE;
      ModSmall(word, BASE);
      ModSmall(Scaled(x, size), BASE);
    } else {
      hide Value, Pow2, IsBitLength;
      var bn := new Limb[WIDTH];
      Assign(bn, pn);
      ShiftRight(bn, 8 * (size - 3));
      word := GetLow64(bn);
      ModSmall(Scaled(x, size), BASE * BASE);
      word := word % BASE;
      ModSmall(Scaled(x, size), BASE);
    }
  }

  lemma SmallValue(x: nat, bits: nat)
    requires IsBitLength(x, bits) && bits <= 24
    ensures x < BASE * BASE
  {
    Pow2Values();
    Pow2Monotone(bits, 24);
  }

  /** Size byte, sign bit and mantissa put together with or. */
  method Pack(size: nat, word: nat, negative: bool) returns (c: Limb)
    requires word < 0x80_0000 && size < 256
    ensures Size(c) == size && Mantissa(c) == word && (Sign(c) <==> negative && word != 0)
  {
    Pow2Values();
    hide Pow2, Or, Size, Mantissa, Sign;
    ModOfMultiple(0, size, 0x100_0000);
    OrDisjoint(word, size * 0x100_0000, 24);
    var r := Or(word, size * 0x100_0000);
    Packed(size, word, 0);
    Packed(size, word, 1);
    if negative && r % 0x80_0000 != 0 {
      OrBit(r, 23);
      r := Or(r, 0x80_0000);
    }
    c := r;
  }

  lemma Packed(size: nat, word: nat, bit: nat)
    requires word < 0x80_0000 && size < 256 && bit < 2
    ensures var c := size * 0x100_0000 + bit * 0x80_0000 + word;
            && c < BASE && Size(c) == size && Mantissa(c) == word && (Sign(c) <==> bit == 1)
            && c % 0x80_0000 == word && (c / 0x80_0000) % 2 == bit
  {
  }

  // ---------------------------------------------------------------------------------------------
  // What the encoding keeps
  // ---------------------------------------------------------------------------------------------

  /** The encoding of a number is unique. */
  lemma EncodingUnique(x: nat, s: nat, m: nat, s': nat, m': nat)
    requires Encodes(x, s, m) && Encodes(x, s', m')
    ensures s == s' && m == m'
  {
    if x > 0 && s < s' {
      ScaledFar(x, s, s');
    } else if x > 0 && s' < s {
      ScaledFar(x, s', s);
    }
  }

  lemma {:induction false} ScaledFar(x: nat, s: nat, t: nat)
    requires s < t
    ensures Scaled(x, t) <= Scaled(x, s) / 256
    decreases t
  {
    hide Scaled;
    ScaledNext(x, t - 1);
    if s < t - 1 {
      ScaledFar(x, s, t - 1);
    }
  }

  /** Decoding the encoding of `x` clears its lowest 8 * (size - 3) bits, and none of a small number. */
  lemma RoundTrip(x: nat, size: nat, mantissa: nat)
    requires Encodes(x, size, mantissa)
    ensures Magnitude(size, mantissa) == if size <= 3 then x else x - x % Pow2(8 * (size - 3))
    ensures (x - Magnitude(size, mantissa)) * 0x8000 <= x
  {
    hide Pow2;
    if x == 0 {
      ModSmall(0, Pow2(24));
      DivUnique(0, Pow2(24), 0, 0);
    } else if size <= 3 {
      DivUnique(mantissa, Pow2(8 * (3 - size)), x, 0);
    } else {
      var p := Pow2(8 * (size - 3));
      DivMod(x, p);
      MulMonotone(0x8000, mantissa, p);
    }
  }

  lemma DivMonotone(x: nat, y: nat, d: nat)
    requires x <= y && d >= 1
    ensures x / d <= y / d
  {
    DivMod(x, d);
    DivAtLeast(y, d, x / d);
  }

  lemma ScaledMonotone(x: nat, y: nat, size: nat)
    requires x <= y
    ensures Scaled(x, size) <= Scaled(y, size)
  {
    hide Pow2;
    var p := Pow2(8 * Distance(size, 3));
    DivMonotone(x, y, p);
    MulMonotone(x, y, p);
  }

  lemma MagnitudeMonotone(size: nat, m: nat, n: nat)
    requires m <= n
    ensures Magnitude(size, m) <= Magnitude(size, n)
  {
    hide Pow2;
    var p := Pow2(8 * Distance(size, 3));
    DivMonotone(m, n, p);
    MulMonotone(m, n, p);
  }

  lemma BelowMantissa(x: nat, size: nat, n: nat)
    requires size > 3 && Scaled(x, size) < n
    ensures x < Magnitude(size, n)
  {
    hide Pow2;
    var p := Pow2(8 * (size - 3));
    DivMod(x, p);
    MulMonotone(x / p + 1, n, p);
    assert (x / p + 1) * p == (x / p) * p + p;
  }

  /** A larger number never gets a smaller encoding. */
  lemma Monotone(x: nat, s: nat, m: nat, y: nat, t: nat, n: nat)
    requires x <= y && Encodes(x, s, m) && Encodes(y, t, n)
    ensures Magnitude(s, m) <= Magnitude(t, n)
    ensures s * 0x100_0000 + m <= t * 0x100_0000 + n
  {
    hide Magnitude, Scaled, Pow2;
    RoundTrip(x, s, m);
    RoundTrip(y, t, n);
    if x == 0 {
      return;
    }
    ScaledMonotone(x, y, t);
    if t < s {
      ScaledFar(x, t, s);
    } else if s == t {
      MagnitudeMonotone(s, m, n);
    } else {
      ScaledFar(x, s, t);
      if t > 3 {
        BelowMantissa(x, t, n);
      }
    }
  }

  /** A zero word, or a normal mantissa without a byte below the point. */
  ghost predicate Canonical(size: nat, mantissa: nat) {
    || (size == 0 && mantissa == 0)
    || (size > 0 && mantissa >= 0x8000 && (size < 3 ==> mantissa % Pow2(8 * (3 - size)) == 0))
  }

  /** Encoding gives back a compact word exactly when its mantissa is normal and has no byte below the point. */
  lemma CanonicalIff(size: nat, mantissa: nat)
    requires mantissa < 0x80_0000
    ensures Encodes(Magnitude(size, mantissa), size, mantissa)
            <==> Canonical(size, mantissa)
  {
    Pow2Values();
    assert Pow2(0) == 1;
    hide Pow2;
    var p, x := Pow2(8 * Distance(size, 3)), Magnitude(size, mantissa);
    DivMod(mantissa, p);
    if size == 0 {
      DivUnique(mantissa, p, 0, mantissa);
    } else if size > 3 {
      MagnitudeZero(size, mantissa);
      DivUnique(mantissa * p, p, mantissa, 0);
    } else if size == 3 {
      DivUnique(mantissa, 1, mantissa, 0);
    }
  }

  /** An encoding is canonical, so encoding what it decodes to gives it again. */
  lemma Idempotent(x: nat, size: nat, mantissa: nat)
    requires Encodes(x, size, mantissa)
    ensures mantissa < 0x80_0000 && Encodes(Magnitude(size, mantissa), size, mantissa)
    ensures Magnitude(size, mantissa) == 0 <==> x == 0
  {
    CanonicalIff(size, mantissa);
    RoundTrip(x, size, mantissa);
    if x != 0 {
      Pow2Values();
      hide Pow2;
      if size < 3 {
        ProductMod(x, Pow2(8 * (3 - size)));
      }
    }
  }

  lemma ProductMod(x: nat, p: nat)
    requires p >= 1
    ensures (x * p) % p == 0
  {
    ModOfMultiple(0, x, p);
  }

  /** A word is its three fields. */
  lemma WordParts(c: Limb, d: Limb)
    requires Size(c) == Size(d) && Mantissa(c) == Mantissa(d) && (Sign(c) <==> Sign(d))
    ensures c == d
  {
  }

  /** Encode, decode, encode: the second word is the first, nothing overflows, the sign survives unless the
    * number is zero, and the number is the one cut off after its leading bytes. */
  method Reencode(pn: array<Limb>, negative: bool) returns (c: Limb, d: Limb, sign: bool, overflow: bool)
    requires pn.Length == WIDTH
    modifies pn
    ensures d == c && !overflow && (sign <==> negative && old(Value(pn[..])) != 0)
    ensures Value(pn[..]) == Magnitude(Size(c), Mantissa(c))
    ensures Value(pn[..]) == old(Value(pn[..])) - if Size(c) <= 3 then 0
            else old(Value(pn[..])) % Pow2(8 * (Size(c) - 3))
  {
    hide Value, Pow2, Magnitude, Encodes, Size, Mantissa, Sign;
    ghost var x := Value(pn[..]);
    ValueBound(pn[..]);
    c := GetCompact(pn, negative);
    RoundTrip(x, Size(c), Mantissa(c));
    Idempotent(x, Size(c), Mantissa(c));
    sign, overflow := SetCompact(pn, c);
    ModSmall(Magnitude(Size(c), Mantissa(c)), Pow2(256));
    d := GetCompact(pn, sign);
    EncodingUnique(Value(pn[..]), Size(c), Mantissa(c), Size(d), Mantissa(d));
    WordParts(c, d);
  }

  /** Decode, encode: a word without overflow comes back exactly when it is canonical and no minus sign stands
    * on a zero. */
  method Decoded(c: Limb) returns (d: Limb, overflow: bool)
    ensures overflow <==> Magnitude(Size(c), Mantissa(c)) >= Pow2(256)
    ensures !overflow ==> (d == c <==>
              Canonical(Size(c), Mantissa(c)) && (Sign(c) ==> Magnitude(Size(c), Mantissa(c)) != 0))
  {
    hide Value, Pow2, Magnitude, Encodes, Size, Mantissa, Sign, Canonical;
    var pn := new Limb[WIDTH];
    var sign;
    sign, overflow := SetCompact(pn, c);
    d := GetCompact(pn, sign);
    if !overflow {
      ghost var x := Magnitude(Size(c), Mantissa(c));
      ModSmall(x, Pow2(256));
      MantissaBound(c);
      CanonicalIff(Size(c), Mantissa(c));
      if Canonical(Size(c), Mantissa(c)) {
        EncodingUnique(x, Size(c), Mantissa(c), Size(d), Mantissa(d));
      }
      if Size(c) == Size(d) && Mantissa(c) == Mantissa(d) && (Sign(c) <==> Sign(d)) {
        WordParts(c, d);
      }
    }
  }

  lemma MantissaBound(c: Limb)
    ensures Mantissa(c) < 0x80_0000
  {
  }

  // ---------------------------------------------------------------------------------------------
  // The work of a block
  // ---------------------------------------------------------------------------------------------

  ghost predicate UsableTarget(c: Limb) {
    var m := Magnitude(Size(c), Mantissa(c));
    0 < m < Pow2(256) && !Sign(c)
  }

  /** A target leaves room for the successor: a compact word never says two to the 256 minus one. */
  lemma TargetHasSuccessor(c: Limb)
    requires Magnitude(Size(c), Mantissa(c)) < Pow2(256)
    ensures Magnitude(Size(c), Mantissa(c)) + 1 < Pow2(256)
  {
    var size, m := Size(c), Mantissa(c);
    hide Pow2;
    if size <= 3 {
      SmallNeverOverflows(size, m);
      Pow2Values();
      Pow2Monotone(32, 256);
    } else {
      EvenProduct(m, 8 * (size - 3));
      EvenProduct(1, 256);
    }
  }

  lemma EvenProduct(m: nat, e: nat)
    requires e > 0
    ensures (m * Pow2(e)) % 2 == 0
  {
    assert m * Pow2(e) == 2 * (m * Pow2(e - 1));
  }

  lemma WorkFormula(t: nat, m: nat)
    requires t + 1 <= m
    ensures (m - 1 - t) / (t + 1) + 1 == m / (t + 1)
  {
    DivMod(m - 1 - t, t + 1);
    var q, r := (m - 1 - t) / (t + 1), (m - 1 - t) % (t + 1);
    assert (q + 1) * (t + 1) == q * (t + 1) + (t + 1);
    DivUnique(m, t + 1, q + 1, r);
  }

  /** Work is positive, fits, and never grows with the target. */
  lemma WorkAntitone(t: nat, u: nat, m: nat)
    requires 0 < t <= u < m && m >= 2
    ensures 1 <= m / (u + 1) <= m / (t + 1) < m
  {
    QuotientAntitone(m, t + 1, u + 1);
    DivAtLeast(m, u + 1, 1);
    MulMonotone(2, t + 1, m);
    QuotientBound(m, t + 1, m);
  }

  lemma QuotientAntitone(m: nat, d: nat, e: nat)
    requires 1 <= d <= e
    ensures m / e <= m / d
  {
    DivMod(m, e);
    DivBound(m, e);
    var q := m / e;
    MulMonotone(d, e, q);
    DivAtLeast(m, d, q);
  }

  /** The work of a block with compact target `c`. */
  method GetBlockProof(c: Limb) returns (work: array<Limb>)
    ensures fresh(work) && work.Length == WIDTH
    ensures Value(work[..]) == if UsableTarget(c) then Pow2(256) / (Magnitude(Size(c), Mantissa(c)) + 1) else 0
  {
    hide Value, Pow2, Magnitude, Size, Mantissa, Sign;
    ghost var t := Magnitude(Size(c), Mantissa(c));
    var target := new Limb[WIDTH];
    var negative, overflow := SetCompact(target, c);
    var zero := EqualTo(target, 0);
    work := new Limb[WIDTH];
    if !overflow {
      ModSmall(t, Pow2(256));
    }
    if negative || overflow || zero {
      SetU64(work, 0);
      return;
    }
    TargetHasSuccessor(c);
    WorkOf(target, work);
  }

  method WorkOf(target: array<Limb>, work: array<Limb>)
    requires target.Length == work.Length == WIDTH && target != work
    requires 0 < Value(target[..]) && Value(target[..]) + 1 < Pow2(256)
    modifies work
    ensures Value(work[..]) == Pow2(256) / (Value(target[..]) + 1)
  {
    hide Value, Pow2;
    ghost var t := Value(target[..]);
    var above := Complement(target);
    var next := new Limb[WIDTH];
    Assign(next, target);
    Increment(next);
    ModSmall(t + 1, Pow2(256));
    var ok := Div(above, next);
    WorkFormula(t, Pow2(256));
    WorkAntitone(t, t, Pow2(256));
    Increment(above);
    ModSmall(Pow2(256) / (t + 1), Pow2(256));
    Assign(work, above);
  }
}
