/** Bit strings, most significant bit first, and the buffered bit streams that pack them into bytes. */
module Bits {
  import opened Arith
  import opened Basics

  /** The `n` lowest bits of `x`. */
  function BitsOf(x: nat, n: nat): (r: seq<bool>)
    ensures |r| == n
  {
    if n == 0 then [] else BitsOf(x / 2, n - 1) + [x % 2 == 1]
  }

  function Val(b: seq<bool>): nat {
    if b == [] then 0 else 2 * Val(b[..|b| - 1]) + (if b[|b| - 1] then 1 else 0)
  }

  function ByteBits(bytes: seq<Byte>): (r: seq<bool>)
    ensures |r| == 8 * |bytes|
  {
    if bytes == [] then [] else ByteBits(bytes[..|bytes| - 1]) + BitsOf(bytes[|bytes| - 1], 8)
  }

  lemma {:induction false} ByteBitsJoin(a: seq<Byte>, b: seq<Byte>)
    ensures ByteBits(a + b) == ByteBits(a) + ByteBits(b)
    decreases b
  {
    if b == [] {
      assert a + b == a;
    } else {
      var c := b[..|b| - 1];
      ByteBitsJoin(a, c);
      assert (a + b)[..|a + b| - 1] == a + c;
    }
  }

  /** `x` without its `n` lowest bits. */
  function Shr(x: nat, n: nat): nat {
    DivBound(x, Pow2(n));
    x / Pow2(n)
  }

  lemma ShrNext(x: nat, n: nat)
    ensures Shr(x, 0) == x && Shr(x, n + 1) == Shr(x / 2, n)
  {
    DivUnique(x, 1, x, 0);
    DivTwice(x, 2, Pow2(n));
  }

  lemma {:induction false} BitsSplit(x: nat, a: nat, b: nat)
    ensures BitsOf(x, a + b) == BitsOf(Shr(x, b), a) + BitsOf(x, b)
    decreases b
  {
    hide Shr;
    if b == 0 {
      ShrNext(x, 0);
    } else {
      BitsSplit(x / 2, a, b - 1);
      ShrNext(x, b - 1);
      assert BitsOf(x, a + b) == BitsOf(x / 2, a + b - 1) + [x % 2 == 1];
    }
  }

  /** Higher bits do not matter. */
  lemma {:induction false} BitsAbove(x: nat, m: nat, n: nat)
    ensures BitsOf(x + m * Pow2(n), n) == BitsOf(x, n)
    decreases n
  {
    if n > 0 {
      var k := m * Pow2(n - 1);
      assert m * Pow2(n) == 2 * k;
      BitsAbove(x / 2, m, n - 1);
      assert (x + 2 * k) / 2 == x / 2 + k && (x + 2 * k) % 2 == x % 2;
    }
  }

  lemma BitsMod(x: nat, n: nat)
    ensures BitsOf(x % Pow2(n), n) == BitsOf(x, n)
  {
    hide Pow2;
    DivMod(x, Pow2(n));
    DivBound(x, Pow2(n));
    BitsAbove(x % Pow2(n), x / Pow2(n), n);
  }

  lemma {:induction false} ValOf(x: nat, n: nat)
    requires x < Pow2(n)
    ensures Val(BitsOf(x, n)) == x
  {
    if n > 0 {
      ValOf(x / 2, n - 1);
      assert BitsOf(x, n)[..n - 1] == BitsOf(x / 2, n - 1);
    }
  }

  lemma {:induction false} ValBound(b: seq<bool>)
    ensures Val(b) < Pow2(|b|)
  {
    if b != [] {
      ValBound(b[..|b| - 1]);
    }
  }

  lemma {:induction false} ValJoin(a: seq<bool>, b: seq<bool>)
    ensures Val(a + b) == Val(a) * Pow2(|b|) + Val(b)
    decreases b
  {
    if b == [] {
      assert a + b == a;
    } else {
      var c := b[..|b| - 1];
      ValJoin(a, c);
      assert (a + b)[..|a + b| - 1] == a + c;
      DoubleProduct(Val(a), Pow2(|c|));
    }
  }

  lemma DoubleProduct(x: nat, p: nat)
    ensures 2 * (x * p) == x * (2 * p)
  {
  }

  // ---------------------------------------------------------------------------------------------
  // Cutting a word with shifts
  // ---------------------------------------------------------------------------------------------

  lemma ModScale(x: nat, a: nat, b: nat)
    requires a >= 1 && b >= 1
    ensures a * b >= 1 && (x * a) % (a * b) == (x % b) * a
  {
    MulAtLeast(a, b);
    DivMod(x, b);
    var q, r := x / b, x % b;
    assert x * a == q * (a * b) + r * a by {
      assert (q * b + r) * a == (q * b) * a + r * a;
      assert (q * b) * a == q * (a * b);
    }
    MulLess(r, b, a);
    DivUnique(x * a, a * b, q, r * a);
  }

  lemma DivCancel(x: nat, a: nat, b: nat)
    requires a >= 1 && b >= 1
    ensures a * b >= 1 && (x * a) / (a * b) == x / b
  {
    MulAtLeast(a, b);
    DivMod(x, b);
    var q, r := x / b, x % b;
    assert x * a == q * (a * b) + r * a by {
      assert (q * b + r) * a == (q * b) * a + r * a;
      assert (q * b) * a == q * (a * b);
    }
    MulLess(r, b, a);
    DivUnique(x * a, a * b, q, r * a);
  }

  /** A `width`-bit word shifted left until only its `left` lowest bits remain. */
  function Aligned(x: nat, width: nat, left: nat): nat
    requires left <= width
  {
    (x * Pow2(width - left)) % Pow2(width)
  }

  lemma AlignedLow(x: nat, width: nat, left: nat)
    requires left <= width
    ensures Aligned(x, width, left) == (x % Pow2(left)) * Pow2(width - left)
  {
    Pow2Add(width - left, left);
    hide Pow2;
    ModScale(x, Pow2(width - left), Pow2(left));
  }

  /** The `t` highest of the `left` lowest bits of `x`, by shifting a `width`-bit word left and right. */
  function TopBits(x: nat, width: nat, left: nat, t: nat): nat
    requires t <= left <= width
  {
    Shr(Aligned(x, width, left), width - t)
  }

  lemma TopBitsLow(x: nat, width: nat, left: nat, t: nat)
    requires t <= left <= width
    ensures TopBits(x, width, left, t) == Shr(x % Pow2(left), left - t) < Pow2(t)
  {
    hide Pow2, Aligned;
    AlignedLow(x, width, left);
    Pow2Add(width - left, left - t);
    Pow2Add(t, left - t);
    CutLow(Aligned(x, width, left), Pow2(width - t), x, Pow2(left), Pow2(width - left), Pow2(left - t), Pow2(t));
  }

  lemma CutLow(aligned: nat, w: nat, x: nat, p: nat, a: nat, b: nat, c: nat)
    requires a >= 1 && b >= 1 && p == c * b && p >= 1 && aligned == (x % p) * a && w == a * b
    ensures w >= 1 && aligned / w == (x % p) / b < c
  {
    CutTop(x % p, a, b, c);
  }

  lemma CutTop(low: nat, a: nat, b: nat, c: nat)
    requires a >= 1 && b >= 1 && low < c * b
    ensures a * b >= 1 && (low * a) / (a * b) == low / b < c
  {
    DivCancel(low, a, b);
    QuotientBound(low, b, c);
  }

  lemma TopBitsOf(x: nat, width: nat, left: nat, t: nat)
    requires t <= left <= width
    ensures TopBits(x, width, left, t) < Pow2(t)
    ensures BitsOf(x, left) == BitsOf(TopBits(x, width, left, t), t) + BitsOf(x, left - t)
  {
    hide *;
    TopBitsLow(x, width, left, t);
    BitsSplit(x % Pow2(left), t, left - t);
    BitsSplit(x, t, left - t);
    BitsMod(x, left);
    assert BitsOf(x, left)[t..] == BitsOf(x, left - t);
  }

  // ---------------------------------------------------------------------------------------------
  // Writing
  // ---------------------------------------------------------------------------------------------

  /** The bits collected in a partly filled byte: its `offset` highest. */
  ghost predicate Partial(buffer: Byte, offset: nat, acc: nat) {
    offset <= 8 && acc < Pow2(offset) && buffer == acc * Pow2(8 - offset)
  }

  /** The piece of the word written next, aligned with the free bits of the byte. */
  function Chunk(data: nat, left: nat, offset: nat): nat
    requires left <= 64 && offset <= 8
  {
    Shr(Aligned(data, 64, left), 56 + offset)
  }

  lemma DivExact(x: nat, a: nat, b: nat)
    requires b >= 1
    ensures (x * (a * b)) / b == x * a
  {
    MulAssoc(x, a, b);
    DivUnique(x * (a * b), b, x * a, 0);
  }

  lemma ChunkIsPiece(data: nat, left: nat, offset: nat, t: nat)
    requires 0 < left <= 64 && offset < 8 && t == Min(8 - offset, left)
    ensures Chunk(data, left, offset) == TopBits(data, 64, left, t) * Pow2(8 - offset - t)
  {
    assert Pow2(0) == 1;
    hide Pow2, Aligned;
    if t < 8 - offset {
      // all that is left fits: the piece is the low bits, shifted up to the free bits
      AlignedLow(data, 64, left);
      TopBitsLow(data, 64, left, t);
      ShrNext(data % Pow2(left), 0);
      Pow2Add(8 - offset - t, 56 + offset);
      DivExact(data % Pow2(left), Pow2(8 - offset - t), Pow2(56 + offset));
    }
  }

  /** Or-ing in the next chunk extends the collected bits by the next bits of the word. */
  lemma PartialNext(buffer: Byte, offset: nat, acc: nat, data: nat, left: nat, t: nat)
    requires Partial(buffer, offset, acc) && 0 < left <= 64 && offset < 8 && t == Min(8 - offset, left)
    ensures var p := TopBits(data, 64, left, t);
            && Or(buffer, Chunk(data, left, offset)) < 256
            && Partial(Or(buffer, Chunk(data, left, offset)), offset + t, acc * Pow2(t) + p)
            && BitsOf(acc * Pow2(t) + p, offset + t) == BitsOf(acc, offset) + BitsOf(p, t)
  {
    assert t <= left && offset + t <= 8;
    hide *;
    var p := TopBits(data, 64, left, t);
    ChunkIsPiece(data, left, offset, t);
    TopBitsOf(data, 64, left, t);
    PartialOr(buffer, offset, acc, p, t);
    AppendBits(acc, offset, p, t);
  }

  lemma AppendBits(acc: nat, n: nat, p: nat, t: nat)
    requires p < Pow2(t)
    ensures BitsOf(acc * Pow2(t) + p, n + t) == BitsOf(acc, n) + BitsOf(p, t)
  {
    hide Pow2, BitsOf;
    NatSum(acc, Pow2(t), p);
    BitsSplit(acc * Pow2(t) + p, n, t);
    DivUnique(acc * Pow2(t) + p, Pow2(t), acc, p);
    BitsAbove(p, acc, t);
  }

  lemma NatSum(a: nat, b: nat, c: nat)
    ensures a * b + c >= 0
  {
  }

  lemma PartialOr(buffer: Byte, offset: nat, acc: nat, p: nat, t: nat)
    requires Partial(buffer, offset, acc) && offset + t <= 8 && p < Pow2(t)
    ensures var b := Or(buffer, p * Pow2(8 - offset - t)); b < 256 && Partial(b, offset + t, acc * Pow2(t) + p)
  {
    assert Pow2(8) == 256;
    hide Pow2, Or;
    var e := 8 - offset - t;
    Pow2Add(t, e);
    Pow2Add(offset, t);
    Pow2Add(offset + t, e);
    PartialArith(acc, p, Pow2(offset), Pow2(t), Pow2(e));
    MultipleMod(buffer, acc, Pow2(8 - offset));
    OrDisjoint(p * Pow2(e), buffer, 8 - offset);
  }

  lemma MultipleMod(x: nat, k: nat, d: nat)
    requires x == k * d && d >= 1
    ensures x % d == 0
  {
    ModOfMultiple(0, k, d);
    ModSmall(0, d);
  }

  lemma PartialArith(acc: nat, p: nat, m: nat, u: nat, e: nat)
    requires acc < m && p < u && (m * u) * e == 256 && e >= 1
    ensures 0 <= p * e < u * e
    ensures acc * (u * e) + p * e == (acc * u + p) * e < 256 && acc * u + p < m * u
  {
    MulLess(p, u, e);
    AccumulateAlgebra(acc, p, u, e);
    AccumulateBound(acc, p, m, u);
    MulLess(acc * u + p, m * u, e);
  }

  lemma AccumulateAlgebra(acc: nat, p: nat, u: nat, e: nat)
    ensures acc * (u * e) + p * e == (acc * u + p) * e
  {
  }

  lemma AccumulateBound(acc: nat, p: nat, m: nat, u: nat)
    requires acc < m && p < u
    ensures 0 <= acc * u + p < m * u
  {
    MulLess(acc, m, u);
  }

  lemma PartialNone()
    ensures Partial(0, 0, 0)
  {
  }

  lemma FlushedBits(bytes: seq<Byte>, buffer: Byte, offset: nat, acc: nat)
    requires offset <= 8 && Partial(buffer, offset, acc)
    ensures ByteBits(bytes + [buffer]) == ByteBits(bytes) + BitsOf(acc, offset) + BitsOf(0, 8 - offset)
  {
    AppendBits(acc, offset, 0, 8 - offset);
    hide Pow2, BitsOf;
    assert (bytes + [buffer])[..|bytes|] == bytes;
  }

  class BitWriter {
    var bytes: seq<Byte>
    var buffer: Byte
    var offset: nat
    /** The bits collected in the buffer, as a number. */
    ghost var acc: nat

    ghost predicate Valid()
      reads this
    {
      offset < 8 && Partial(buffer, offset, acc)
    }

    /** Everything written so far. */
    ghost function Written(): seq<bool>
      reads this
    {
      ByteBits(bytes) + BitsOf(acc, offset)
    }

    constructor (start: seq<Byte>)
      ensures Valid() && Written() == ByteBits(start) && bytes == start && offset == 0
    {
      bytes := start;
      buffer := 0;
      offset := 0;
      acc := 0;
    }

    method Write(data: nat, nbits: int) returns (ok: bool)
      requires Valid()
      modifies this
      ensures Valid() && (ok <==> 0 <= nbits <= 64)
      ensures Written() == if ok then old(Written()) + BitsOf(data, nbits) else old(Written())
    {
      if nbits < 0 || nbits > 64 {
        return false;
      }
      var left := nbits;
      hide BitsOf, ByteBits, Partial;
      while left > 0
        invariant Valid() && 0 <= left <= nbits
        invariant Written() + BitsOf(data, left) == old(Written()) + BitsOf(data, nbits)
      {
        left := WriteSome(data, left);
      }
      return true;
    }

    /** One turn of the loop: fill the buffer with what fits. */
    method WriteSome(data: nat, left: nat) returns (left': nat)
      requires Valid() && 0 < left <= 64
      modifies this
      ensures Valid() && left' < left
      ensures Written() + BitsOf(data, left') == old(Written()) + BitsOf(data, left)
    {
      hide BitsOf, ByteBits, Partial, Or, Chunk, TopBits, Pow2;
      var bits := Min(8 - offset, left);
      PartialNext(buffer, offset, acc, data, left, bits);
      TopBitsOf(data, 64, left, bits);
      ghost var p := TopBits(data, 64, left, bits);
      buffer := Or(buffer, Chunk(data, left, offset));
      acc := acc * Pow2(bits) + p;
      offset := offset + bits;
      left' := left - bits;
      assert Written() == old(Written()) + BitsOf(p, bits);
      if offset == 8 {
        Flush();
      }
    }

    /** Close the current byte, filling it up with zeros. */
    method Flush()
      requires offset <= 8 && Partial(buffer, offset, acc)
      modifies this
      ensures Valid() && offset == 0
      ensures Written() == ByteBits(bytes) == old(Written()) +
              BitsOf(0, if old(offset) == 0 then 0 else 8 - old(offset))
      ensures old(bytes) <= bytes
    {
      if offset == 0 {
        return;
      }
      FlushedBits(bytes, buffer, offset, acc);
      NoBits(0);
      PartialNone();
      hide *;
      bytes := bytes + [buffer];
      buffer := 0;
      offset := 0;
      acc := 0;
    }
  }

  // ---------------------------------------------------------------------------------------------
  // Reading
  // ---------------------------------------------------------------------------------------------

  lemma ByteBitsFirst(data: seq<Byte>, pos: nat)
    requires pos < |data|
    ensures ByteBits(data[pos..]) == BitsOf(data[pos], 8) + ByteBits(data[pos + 1..])
  {
    ByteBitsJoin([data[pos]], data[pos + 1..]);
    assert data[pos..] == [data[pos]] + data[pos + 1..];
    assert ByteBits([data[pos]]) == ByteBits([]) + BitsOf(data[pos], 8);
  }

  lemma ShiftIn(read: seq<bool>, p: nat, t: nat)
    requires p < Pow2(t)
    ensures Or(Val(read) * Pow2(t), p) == Val(read + BitsOf(p, t))
  {
    hide Pow2, Or, Val;
    ValJoin(read, BitsOf(p, t));
    ValOf(p, t);
    ModOfMultiple(0, Val(read), Pow2(t));
    ModSmall(0, Pow2(t));
    NatSum(Val(read), Pow2(t), 0);
    OrDisjoint(p, Val(read) * Pow2(t), t);
  }

  class BitReader {
    const data: seq<Byte>
    var pos: nat
    var buffer: Byte
    var offset: nat

    ghost predicate Valid()
      reads this
    {
      pos <= |data| && 0 < offset <= 8
    }

    /** The bits not yet returned. */
    ghost function Remaining(): seq<bool>
      requires offset <= 8 && pos <= |data|
      reads this
    {
      BitsOf(buffer, 8 - offset) + ByteBits(data[pos..])
    }

    constructor (bytes: seq<Byte>)
      ensures Valid() && Remaining() == ByteBits(bytes) && data == bytes
    {
      data := bytes;
      pos := 0;
      buffer := 0;
      offset := 8;
      new;
      assert data[0..] == data;
    }

    /** Fails exactly when the width is out of range or too few bits remain. */
    method Read(nbits: int) returns (ok: bool, value: nat)
      requires Valid()
      modifies this
      ensures Valid() && (ok <==> 0 <= nbits <= 64 && nbits <= |old(Remaining())|)
      ensures ok ==> value == Val(old(Remaining())[..nbits]) && Remaining() == old(Remaining())[nbits..]
    {
      value := 0;
      if nbits < 0 || nbits > 64 {
        return false, 0;
      }
      var left := nbits;
      ghost var all, read := Remaining(), [];
      assert Val(read) == 0;
      hide BitsOf, ByteBits, Val;
      while left > 0
        invariant Valid() && 0 <= left <= nbits
        invariant all == read + Remaining() && |read| == nbits - left && value == Val(read)
      {
        if offset == 8 && pos == |data| {
          NothingLeft();
          return false, 0;
        }
        ghost var piece;
        left, value, piece := ReadSome(left, value, read);
        read := read + piece;
      }
      assert all[..nbits] == read;
      return true, value;
    }

    lemma NothingLeft()
      requires offset == 8 && pos == |data|
      ensures Remaining() == []
    {
    }

    method ReadSome(left: nat, value: nat, ghost read: seq<bool>) returns (left': nat, value': nat,
                                                                           ghost piece: seq<bool>)
      requires Valid() && left > 0 && !(offset == 8 && pos == |data|) && value == Val(read)
      modifies this
      ensures Valid() && left' < left && |piece| == left - left' && value' == Val(read + piece)
      ensures old(Remaining()) == piece + Remaining()
    {
      hide BitsOf, ByteBits, TopBits, Pow2, Val, Or;
      if offset == 8 {
        NextByte();
      }
      var bits := Min(8 - offset, left);
      TopBitsOf(buffer, 8, 8 - offset, bits);
      value' := TopBits(buffer, 8, 8 - offset, bits);
      piece := BitsOf(value', bits);
      ShiftIn(read, value', bits);
      value' := Or(value * Pow2(bits), value');
      offset := offset + bits;
      left' := left - bits;
    }

    method NextByte()
      requires offset == 8 && pos < |data|
      modifies this
      ensures offset == 0 && pos <= |data| && Remaining() == old(Remaining())
    {
      ByteBitsFirst(data, pos);
      NoBits(buffer);
      hide BitsOf, ByteBits;
      buffer := data[pos];
      pos := pos + 1;
      offset := 0;
    }
  }

  lemma NoBits(x: nat)
    ensures BitsOf(x, 0) == []
  {
  }
}
