/** Golomb-coded sets: compact block filters that a client can test without false negatives. */
module Gcs {
  import opened Arith
  import opened Basics
  import opened Bits

  type Element = seq<Byte>

  type Word64 = x: int | 0 <= x < 0x1_0000_0000_0000_0000 witness 0

  const MAX_SIZE := 0x0200_0000

  // ---------------------------------------------------------------------------------------------
  // Mapping a hash into a range
  // ---------------------------------------------------------------------------------------------

  lemma ProductBound(x: nat, y: nat, m: nat)
    requires x < m && y < m
    ensures 0 <= x * y <= (m - 1) * (m - 1)
  {
    MulMonotone(x, m - 1, y);
    MulMonotone(y, m - 1, m - 1);
  }

  lemma SplitProduct(a: nat, b: nat, c: nat, d: nat, m: nat)
    ensures (a * m + b) * (c * m + d) == (a * c) * (m * m) + (a * d + b * c) * m + b * d
  {
  }

  /** The piecewise 32-bit multiplication: the high word of the product, with no intermediate overflow. */
  method MapIntoRange(x: Word64, n: Word64) returns (r: Word64)
    ensures r == (x * n) / TWO64
  {
    var xHi, xLo, nHi, nLo := x / BASE, x % BASE, n / BASE, n % BASE;
    ProductBound(xHi, nHi, BASE);
    ProductBound(xHi, nLo, BASE);
    ProductBound(xLo, nHi, BASE);
    ProductBound(xLo, nLo, BASE);
    var ac: Word64, ad: Word64, bc: Word64, bd: Word64 := xHi * nHi, xHi * nLo, xLo * nHi, xLo * nLo;
    SplitProduct(xHi, xLo, nHi, nLo, BASE);
    HighWord(x * n, ac, ad, bc, bd);
    var mid34: Word64 := bd / BASE + bc % BASE + ad % BASE;
    r := ac + bc / BASE + ad / BASE + mid34 / BASE;
  }

  lemma HighWord(product: int, ac: Word64, ad: Word64, bc: Word64, bd: Word64)
    requires product == ac * (BASE * BASE) + (ad + bc) * BASE + bd && 0 <= product < TWO64 * TWO64
    ensures var mid := bd / BASE + bc % BASE + ad % BASE;
            var high := ac + bc / BASE + ad / BASE + mid / BASE;
            mid < TWO64 && 0 <= high < TWO64 && high == product / TWO64
  {
  }

  // ---------------------------------------------------------------------------------------------
  // Golomb-Rice codes
  // ---------------------------------------------------------------------------------------------

  function Ones(n: nat): (r: seq<bool>)
    ensures |r| == n && forall i :: 0 <= i < n ==> r[i]
  {
    seq(n, i => true)
  }

  /** The code of `x`: the quotient by two to the `P` in unary, a zero, and the remainder in `P` bits. */
  function Code(P: nat, x: nat): seq<bool> { Ones(Shr(x, P)) + [false] + BitsOf(x, P) }

  function Codes(P: nat, xs: seq<nat>): seq<bool> {
    if xs == [] then [] else Code(P, xs[0]) + Codes(P, xs[1..])
  }

  function LeadingOnes(b: seq<bool>): (q: nat)
    ensures q <= |b|
  {
    if b == [] || !b[0] then 0 else 1 + LeadingOnes(b[1..])
  }

  /** The number at the front of `b` and the bits after it; none when the bits run out. */
  function DecodeOne(b: seq<bool>, P: nat): Option<(nat, seq<bool>)> {
    var q := LeadingOnes(b);
    if |b| < q + 1 + P then None
    else Some((((q * Pow2(P)) % TWO64 + Val(b[q + 1..q + 1 + P])) % TWO64, b[q + 1 + P..]))
  }

  function DecodeMany(b: seq<bool>, P: nat, n: nat): Option<(seq<nat>, seq<bool>)> {
    if n == 0 then Some(([], b))
    else match DecodeOne(b, P)
      case None => None
      case Some(one) =>
        match DecodeMany(one.1, P, n - 1)
        case None => None
        case Some(more) => Some(([one.0] + more.0, more.1))
  }

  lemma {:induction false} LeadingOnesOf(n: nat, rest: seq<bool>)
    requires rest != [] && !rest[0]
    ensures LeadingOnes(Ones(n) + rest) == n
  {
    if n == 0 {
      assert Ones(0) + rest == rest;
    } else {
      LeadingOnesOf(n - 1, rest);
      assert (Ones(n) + rest)[1..] == Ones(n - 1) + rest;
    }
  }

  /** Decoding undoes encoding, whatever bits follow. */
  lemma DecodeCode(P: nat, x: Word64, rest: seq<bool>)
    ensures DecodeOne(Code(P, x) + rest, P) == Some((x, rest))
  {
    var q, b := Shr(x, P), Code(P, x) + rest;
    hide BitsOf, Val, Pow2;
    assert b == Ones(q) + ([false] + BitsOf(x, P) + rest);
    LeadingOnesOf(q, [false] + BitsOf(x, P) + rest);
    assert b[q + 1..q + 1 + P] == BitsOf(x, P) && b[q + 1 + P..] == rest;
    QuotientAndRest(P, x);
  }

  lemma QuotientAndRest(P: nat, x: Word64)
    ensures ((Shr(x, P) * Pow2(P)) % TWO64 + Val(BitsOf(x, P))) % TWO64 == x
  {
    hide BitsOf, Val, Pow2;
    BitsMod(x, P);
    ValOf(x % Pow2(P), P);
    DivMod(x, Pow2(P));
    NatSum(Shr(x, P), Pow2(P), 0);
    ModSmall(Shr(x, P) * Pow2(P), TWO64);
    ModSmall(x, TWO64);
  }

  ghost predicate AllWords(xs: seq<nat>) { forall i :: 0 <= i < |xs| ==> xs[i] < TWO64 }

  /** A whole list of codes decodes to the list and leaves exactly what follows. */
  lemma {:induction false} DecodeCodes(P: nat, xs: seq<nat>, rest: seq<bool>)
    requires AllWords(xs)
    ensures DecodeMany(Codes(P, xs) + rest, P, |xs|) == Some((xs, rest))
  {
    hide Code, DecodeOne;
    if xs == [] {
      assert Codes(P, xs) + rest == rest;
    } else {
      DecodeCodes(P, xs[1..], rest);
      DecodeCode(P, xs[0], Codes(P, xs[1..]) + rest);
      assert Codes(P, xs) + rest == Code(P, xs[0]) + (Codes(P, xs[1..]) + rest);
      assert [xs[0]] + xs[1..] == xs;
    }
  }

  lemma {:induction false} CodesAppend(P: nat, xs: seq<nat>, x: nat)
    ensures Codes(P, xs + [x]) == Codes(P, xs) + Code(P, x)
  {
    hide Code;
    if xs == [] {
      assert xs + [x] == [x] && [x][1..] == [];
    } else {
      CodesAppend(P, xs[1..], x);
      assert (xs + [x])[1..] == xs[1..] + [x];
    }
  }

  lemma {:induction false} AllOnes(x: nat, n: nat)
    requires x + 1 == Pow2(n)
    ensures BitsOf(x, n) == Ones(n)
  {
    if n > 0 {
      AllOnes(x / 2, n - 1);
    }
  }

  lemma OnesOfWord(n: nat)
    requires n <= 64
    ensures BitsOf(TWO64 - 1, n) == Ones(n)
  {
    Pow2Values();
    Pow2Add(32, 32);
    AllOnes(TWO64 - 1, 64);
    BitsSplit(TWO64 - 1, 64 - n, n);
    assert BitsOf(TWO64 - 1, 64)[64 - n..] == BitsOf(TWO64 - 1, n);
  }

  method GolombRiceEncode(w: BitWriter, P: nat, x: Word64)
    requires w.Valid() && P < 64
    modifies w
    ensures w.Valid() && w.Written() == old(w.Written()) + Code(P, x)
  {
    hide BitsOf, Pow2, Shr, BitWriter.Written, BitWriter.Valid;
    var q := Shr(x, P);
    ghost var done := 0;
    assert old(w.Written()) + Ones(0) == old(w.Written());
    while q > 0
      invariant w.Valid() && done + q == Shr(x, P)
      invariant w.Written() == old(w.Written()) + Ones(done)
    {
      var nbits := if q <= 64 then q else 64;
      OnesOfWord(nbits);
      var ok := w.Write(TWO64 - 1, nbits);
      assert Ones(done) + Ones(nbits) == Ones(done + nbits);
      q, done := q - nbits, done + nbits;
    }
    var ok := w.Write(0, 1);
    ZeroBit();
    ok := w.Write(x, P);
  }

  lemma ZeroBit()
    ensures BitsOf(0, 1) == [false]
  {
  }

  method GolombRiceDecode(r: BitReader, P: nat) returns (ok: bool, x: Word64)
    requires r.Valid() && P < 64
    modifies r
    ensures r.Valid() && (ok <==> DecodeOne(old(r.Remaining()), P).Some?)
    ensures ok ==> DecodeOne(old(r.Remaining()), P) == Some((x, r.Remaining()))
  {
    ghost var all := r.Remaining();
    hide Val, Pow2, BitReader.Remaining, LeadingOnes;
    x := 0;
    var got, q := ReadUnary(r);
    if !got {
      return false, 0;
    }
    SplitRest(all, q, P);
    var rest;
    got, rest := r.Read(P);
    if !got {
      return false, 0;
    }
    return true, ((q * Pow2(P)) % TWO64 + rest) % TWO64;
  }

  lemma SplitRest(all: seq<bool>, q: nat, P: nat)
    requires q < |all|
    ensures |all| >= q + 1 + P ==>
            all[q + 1..][..P] == all[q + 1..q + 1 + P] && all[q + 1..][P..] == all[q + 1 + P..]
  {
  }

  /** The unary part of a code: ones up to the first zero. */
  method ReadUnary(r: BitReader) returns (ok: bool, q: nat)
    requires r.Valid()
    modifies r
    ensures r.Valid() && (ok <==> LeadingOnes(old(r.Remaining())) < |old(r.Remaining())|)
    ensures ok ==> q == LeadingOnes(old(r.Remaining())) && r.Remaining() == old(r.Remaining())[q + 1..]
  {
    ghost var all := r.Remaining();
    hide Val, BitReader.Remaining, LeadingOnes;
    q := 0;
    assert all[0..] == all;
    while true
      invariant r.Valid() && q <= |all| && r.Remaining() == all[q..]
      invariant LeadingOnes(all) == q + LeadingOnes(all[q..])
      decreases |all| - q
    {
      LeadingOnesStep(all, q);
      var got, bit := r.Read(1);
      if !got {
        return false, 0;
      }
      OneBitValue(all[q..][..1]);
      if bit != 1 {
        return true, q;
      }
      q := q + 1;
    }
  }

  lemma LeadingOnesStep(all: seq<bool>, q: nat)
    requires q <= |all|
    ensures LeadingOnes(all[q..]) == if q < |all| && all[q] then 1 + LeadingOnes(all[q + 1..]) else 0
  {
  }

  lemma OneBitValue(b: seq<bool>)
    requires |b| == 1
    ensures Val(b) == if b[0] then 1 else 0
  {
  }

  // ---------------------------------------------------------------------------------------------
  // The element count
  // ---------------------------------------------------------------------------------------------

  function LittleEndian(n: nat, k: nat): (r: seq<Byte>)
    ensures |r| == k
  {
    if k == 0 then [] else [n % 256] + LittleEndian(n / 256, k - 1)
  }

  function FromLittleEndian(b: seq<Byte>): nat {
    if b == [] then 0 else b[0] + 256 * FromLittleEndian(b[1..])
  }

  lemma {:induction false} LittleEndianRoundTrip(n: nat, k: nat)
    requires n < Pow2(8 * k)
    ensures FromLittleEndian(LittleEndian(n, k)) == n
  {
    if k > 0 {
      Pow2Add(8, 8 * (k - 1));
      assert Pow2(8) == 256;
      hide Pow2;
      LittleEndianRoundTrip(n / 256, k - 1);
      var b := LittleEndian(n, k);
      assert b[1..] == LittleEndian(n / 256, k - 1);
    }
  }

  function WriteCompactSize(n: nat): seq<Byte> {
    if n < 253 then [n]
    else if n <= 0xffff then [253] + LittleEndian(n, 2)
    else if n <= 0xffff_ffff then [254] + LittleEndian(n, 4)
    else [255] + LittleEndian(n, 8)
  }

  datatype Count = Count(n: nat, width: nat)

  /** The count and the number of bytes it took; none for a short, non-canonical or oversized one. */
  function ReadCompactSize(b: seq<Byte>): (r: Option<Count>)
    ensures r.Some? ==> r.value.width <= |b| && r.value.n <= MAX_SIZE
  {
    if b == [] then None
    else
      var width, least := if b[0] < 253 then 0 else if b[0] == 253 then 2 else if b[0] == 254 then 4 else 8,
        if b[0] < 253 then 0 else if b[0] == 253 then 253 else if b[0] == 254 then 0x1_0000 else 0x1_0000_0000;
      if |b| < 1 + width then None
      else
        var n := if width == 0 then b[0] else FromLittleEndian(b[1..1 + width]);
        if n < least || n > MAX_SIZE then None else Some(Count(n, 1 + width))
  }

  /** A count comes back exactly when it is within the size limit of the reader. */
  lemma CompactSizeRoundTrip(n: nat, rest: seq<Byte>)
    requires n < TWO64
    ensures ReadCompactSize(WriteCompactSize(n) + rest) == if n <= MAX_SIZE then Some(Count(n, |WriteCompactSize(n)|))
            else None
  {
    Pow2Values();
    Pow2Add(32, 32);
    var b := WriteCompactSize(n) + rest;
    var k := |WriteCompactSize(n)| - 1;
    if k > 0 {
      LittleEndianRoundTrip(n, k);
      assert b[1..1 + k] == LittleEndian(n, k);
    }
  }

  // ---------------------------------------------------------------------------------------------
  // Filters
  // ---------------------------------------------------------------------------------------------

  /** The hash stands for SipHash under the filter's keys. */
  datatype Params = Params(hash: Element -> Word64, P: nat, M: nat)

  datatype Filter = Filter(params: Params, N: nat, F: nat, encoded: seq<Byte>)

  ghost predicate Legal(p: Params) { p.P < 64 && p.M <= 0xffff_ffff }

  function HashToRange(f: Filter, e: Element): Word64
    requires f.F < TWO64
  {
    MapBound(f.params.hash(e), f.F);
    (f.params.hash(e) * f.F) / TWO64
  }

  lemma MapBound(x: Word64, n: Word64)
    ensures 0 <= (x * n) / TWO64 < TWO64 && (n > 0 ==> (x * n) / TWO64 < n)
  {
    ProductBound(x, n, TWO64);
    if n > 0 {
      MulLess(x, TWO64, n);
    }
  }

  ghost predicate Sorted(s: seq<nat>) { forall i, j :: 0 <= i < j < |s| ==> s[i] <= s[j] }

  /** Running sums from `start`. */
  function Sums(ds: seq<nat>, start: nat): (r: seq<nat>)
    ensures |r| == |ds|
  {
    if ds == [] then [] else [start + ds[0]] + Sums(ds[1..], start + ds[0])
  }

  /** Running sums in 64 bits. */
  function WordSums(ds: seq<nat>, start: nat): (r: seq<nat>)
    ensures |r| == |ds|
  {
    if ds == [] then [] else [(start + ds[0]) % TWO64] + WordSums(ds[1..], (start + ds[0]) % TWO64)
  }

  lemma {:induction false} SumsAreWords(ds: seq<nat>, start: nat)
    requires AllWords(Sums(ds, start))
    ensures WordSums(ds, start) == Sums(ds, start)
  {
    if ds != [] {
      var s := Sums(ds, start);
      assert s[0] < TWO64;
      assert s[1..] == Sums(ds[1..], start + ds[0]);
      SumsAreWords(ds[1..], start + ds[0]);
    }
  }

  lemma {:induction false} WordSumsWords(ds: seq<nat>, start: nat)
    ensures AllWords(WordSums(ds, start))
  {
    if ds != [] {
      WordSumsWords(ds[1..], (start + ds[0]) % TWO64);
    }
  }

  /** The part of the encoding after the count. */
  function Payload(f: Filter): seq<Byte> {
    var k := |WriteCompactSize(f.N)|;
    if k <= |f.encoded| then f.encoded[k..] else []
  }

  /** `f` as the building constructor leaves it for the sorted hashes `vals`. */
  ghost predicate Built(f: Filter, vals: seq<nat>) {
    && Legal(f.params) && f.N == |vals| < BASE && f.F == f.N * f.params.M
    && Sorted(vals) && AllWords(vals)
    && WriteCompactSize(f.N) <= f.encoded
    && exists ds, pad :: PayloadOf(f, vals, ds, pad)
  }

  ghost predicate PayloadOf(f: Filter, vals: seq<nat>, ds: seq<nat>, pad: nat) {
    && pad < 8 && |ds| == |vals| && Sums(ds, 0) == vals
    && ByteBits(Payload(f)) == Codes(f.params.P, ds) + BitsOf(0, pad)
  }

  /** What the decoding constructor accepts: a readable count, that many codes, and less than a byte after them. */
  ghost predicate Accepts(P: nat, encoded: seq<Byte>) {
    match ReadCompactSize(encoded)
    case None => false
    case Some(count) =>
      match DecodeMany(ByteBits(encoded[count.width..]), P, count.n)
      case None => false
      case Some(got) => |got.1| < 8
  }

  /** `f` holds the values `vals`: the 64-bit sums of the numbers decoded from its encoding. */
  ghost predicate Holds(f: Filter, vals: seq<nat>) {
    && Legal(f.params) && AllWords(vals)
    && match ReadCompactSize(f.encoded)
       case None => false
       case Some(count) =>
         && f.N == count.n && f.F == f.N * f.params.M
         && match DecodeMany(ByteBits(f.encoded[count.width..]), f.params.P, count.n)
            case None => false
            case Some(got) => WordSums(got.0, 0) == vals
  }

  /** Whatever the decoding constructor accepts holds some values. */
  lemma LoadedHolds(params: Params, encoded: seq<Byte>)
    requires Legal(params) && Accepts(params.P, encoded)
    ensures var n := ReadCompactSize(encoded).value.n;
            Holds(Filter(params, n, n * params.M, encoded), StoredIn(params.P, encoded))
  {
    hide ReadCompactSize, DecodeMany, ByteBits;
    WordSumsWords(DecodeMany(ByteBits(encoded[ReadCompactSize(encoded).value.width..]), params.P,
                             ReadCompactSize(encoded).value.n).value.0, 0);
  }

  /** The values an accepted encoding stands for. */
  ghost function StoredIn(P: nat, encoded: seq<Byte>): seq<nat>
    requires Accepts(P, encoded)
  {
    var count := ReadCompactSize(encoded).value;
    WordSums(DecodeMany(ByteBits(encoded[count.width..]), P, count.n).value.0, 0)
  }

  lemma {:induction false} SumsBound(ds: seq<nat>, start: nat)
    requires AllWords(Sums(ds, start))
    ensures AllWords(ds)
  {
    if ds != [] {
      var s := Sums(ds, start);
      assert s[0] < TWO64;
      assert forall i :: 0 <= i < |ds| - 1 ==> s[1..][i] == s[i + 1];
      assert Sums(ds[1..], start + ds[0]) == s[1..];
      SumsBound(ds[1..], start + ds[0]);
      assert forall i :: 0 < i < |ds| ==> ds[i] == ds[1..][i - 1];
    }
  }

  /** A built filter passes the decoding constructor, and holds its hashes, exactly when its count is within the
    * limit of the count reader. */
  lemma BuiltIsAccepted(f: Filter, vals: seq<nat>)
    requires Built(f, vals)
    ensures Accepts(f.params.P, f.encoded) <==> f.N <= MAX_SIZE
    ensures f.N <= MAX_SIZE ==> Holds(f, vals)
    ensures f.N > MAX_SIZE ==> ReadCompactSize(f.encoded) == None
  {
    var ds, pad :| PayloadOf(f, vals, ds, pad);
    var head := WriteCompactSize(f.N);
    assert f.encoded == head + f.encoded[|head|..];
    CompactSizeRoundTrip(f.N, f.encoded[|head|..]);
    SumsBound(ds, 0);
    SumsAreWords(ds, 0);
    DecodeCodes(f.params.P, ds, BitsOf(0, pad));
    hide BitsOf, ByteBits, Codes, DecodeMany, WriteCompactSize, ReadCompactSize, Sums, WordSums;
  }

  // ---------------------------------------------------------------------------------------------
  // Building and loading
  // ---------------------------------------------------------------------------------------------

  /** Insertion into an ascending sequence. */
  function Inserted(s: seq<nat>, x: nat): seq<nat> {
    if s == [] || x <= s[0] then [x] + s else [s[0]] + Inserted(s[1..], x)
  }

  lemma {:induction false} InsertedSame(s: seq<nat>, x: nat)
    ensures multiset(Inserted(s, x)) == multiset(s) + multiset{x}
  {
    if s != [] && x > s[0] {
      InsertedSame(s[1..], x);
      assert s == [s[0]] + s[1..];
    }
  }

  ghost predicate Floor(s: seq<nat>, low: nat) { forall i :: 0 <= i < |s| ==> low <= s[i] }

  lemma {:induction false} InsertedSorted(s: seq<nat>, x: nat, low: nat)
    requires Sorted(s) && Floor(s, low) && low <= x
    ensures Sorted(Inserted(s, x)) && Floor(Inserted(s, x), low)
  {
    if s != [] && x > s[0] {
      InsertedSorted(s[1..], x, s[0]);
    }
  }

  /** The hashes of the elements in order. */
  function Hashes(f: Filter, elements: seq<Element>): (r: seq<nat>)
    requires f.F < TWO64
    ensures |r| == |elements| && AllWords(r) && forall i :: 0 <= i < |r| ==> r[i] == HashToRange(f, elements[i])
  {
    seq(|elements|, i requires 0 <= i < |elements| => HashToRange(f, elements[i]))
  }

  /** The hashes in ascending order, each as often as it occurs. */
  method BuildHashedSet(f: Filter, elements: seq<Element>) returns (r: seq<nat>)
    requires f.F < TWO64
    ensures Sorted(r) && AllWords(r) && multiset(r) == multiset(Hashes(f, elements))
  {
    r := [];
    ghost var hs := Hashes(f, elements);
    hide Sorted, Floor, Inserted, HashToRange;
    assert hs[..0] == [];
    EmptySorted();
    for i := 0 to |elements|
      invariant Sorted(r) && Floor(r, 0) && multiset(r) == multiset(hs[..i])
    {
      var h := MapIntoRange(f.params.hash(elements[i]), f.F);
      HashIs(f, elements[i]);
      InsertedSorted(r, h, 0);
      InsertedSame(r, h);
      assert hs[..i + 1] == hs[..i] + [hs[i]];
      r := Inserted(r, h);
    }
    assert hs[..|elements|] == hs;
    SameWords(r, hs);
  }

  lemma EmptySorted()
    ensures Sorted([]) && Floor([], 0)
  {
  }

  lemma HashIs(f: Filter, e: Element)
    requires f.F < TWO64
    ensures HashToRange(f, e) == (f.params.hash(e) * f.F) / TWO64
  {
  }

  lemma SameWords(r: seq<nat>, hs: seq<nat>)
    requires multiset(r) == multiset(hs) && AllWords(hs)
    ensures AllWords(r)
  {
    forall k | 0 <= k < |r|
      ensures r[k] < TWO64
    {
      assert r[k] in multiset(r);
      assert r[k] in hs;
    }
  }

  datatype Result = Ok(filter: Filter) | Failed

  lemma RangeFits(n: nat, m: nat)
    requires n < BASE && m < BASE
    ensures 0 <= n * m < TWO64
  {
    ProductBound(n, m, BASE);
  }

  /** The filter of a set of elements. */
  method Build(params: Params, elements: seq<Element>) returns (r: Result, ghost vals: seq<nat>)
    requires Legal(params)
    ensures r.Ok? <==> |elements| < BASE
    ensures r.Ok? ==> r.filter.params == params && Built(r.filter, vals)
    ensures r.Ok? ==> r.filter.F < TWO64 && multiset(vals) == multiset(Hashes(r.filter, elements))
  {
    vals := [];
    if |elements| >= BASE {
      return Failed, [];
    }
    RangeFits(|elements|, params.M);
    var f := Filter(params, |elements|, |elements| * params.M, WriteCompactSize(|elements|));
    if elements == [] {
      assert Payload(f) == [];
      NoBits(0);
      assert PayloadOf(f, [], [], 0);
      return Ok(f), [];
    }
    var sorted := BuildHashedSet(f, elements);
    SameLength(sorted, Hashes(f, elements));
    ghost var ds, pad;
    var payload;
    payload, ds, pad := EncodeDeltas(params.P, sorted);
    var g := f.(encoded := f.encoded + payload);
    assert Payload(g) == payload;
    assert PayloadOf(g, sorted, ds, pad);
    assert Hashes(g, elements) == Hashes(f, elements);
    return Ok(g), sorted;
  }

  lemma SameLength(a: seq<nat>, b: seq<nat>)
    requires multiset(a) == multiset(b)
    ensures |a| == |b|
  {
    assert |multiset(a)| == |a| && |multiset(b)| == |b|;
  }

  /** The codes of the differences between neighbours, padded to whole bytes. */
  method EncodeDeltas(P: nat, vals: seq<nat>) returns (payload: seq<Byte>, ghost ds: seq<nat>, ghost pad: nat)
    requires P < 64 && Sorted(vals) && AllWords(vals)
    ensures pad < 8 && |ds| == |vals| && Sums(ds, 0) == vals
    ensures ByteBits(payload) == Codes(P, ds) + BitsOf(0, pad)
  {
    hide *;
    var w := new BitWriter([]);
    ds := WriteDeltas(w, P, vals);
    PartialBound(w);
    pad := if w.offset == 0 then 0 else 8 - w.offset;
    w.Flush();
    payload := w.bytes;
  }

  method WriteDeltas(w: BitWriter, P: nat, vals: seq<nat>) returns (ghost ds: seq<nat>)
    requires w.Valid() && w.Written() == ByteBits([]) && P < 64 && Sorted(vals) && AllWords(vals)
    modifies w
    ensures w.Valid() && |ds| == |vals| && Sums(ds, 0) == vals && w.Written() == Codes(P, ds)
  {
    var last := 0;
    ds := [];
    hide BitsOf, Pow2, BitWriter.Valid, BitWriter.Written, Code, Codes, Sums;
    NothingCoded(P);
    for i := 0 to |vals|
      invariant w.Valid() && |ds| == i && Sums(ds, 0) == vals[..i]
      invariant last == if i == 0 then 0 else vals[i - 1]
      invariant w.Written() == Codes(P, ds)
    {
      var delta := vals[i] - last;
      GolombRiceEncode(w, P, delta);
      CodesAppend(P, ds, delta);
      SumsAppend(ds, 0, delta);
      ds := ds + [delta];
      last := vals[i];
    }
    assert vals[..|vals|] == vals;
  }

  lemma NothingCoded(P: nat)
    ensures Codes(P, []) == ByteBits([]) && Sums([], 0) == []
  {
  }

  lemma PartialBound(w: BitWriter)
    requires w.Valid()
    ensures w.offset < 8 && Partial(w.buffer, w.offset, w.acc)
  {
  }

  lemma {:induction false} SumsAppend(ds: seq<nat>, start: nat, d: nat)
    ensures Sums(ds + [d], start) == Sums(ds, start) + [(if ds == [] then start else Sums(ds, start)[|ds| - 1]) + d]
  {
    SumsStep(ds + [d], start);
    if ds == [] {
      assert ds + [d] == [d];
    } else {
      SumsStep(ds, start);
      hide Sums;
      SumsAppend(ds[1..], start + ds[0], d);
      assert (ds + [d])[1..] == ds[1..] + [d];
    }
  }

  lemma SumsStep(ds: seq<nat>, start: nat)
    requires ds != []
    ensures Sums(ds, start) == [start + ds[0]] + Sums(ds[1..], start + ds[0])
  {
  }

  /** Decoding `n` numbers from `b` comes to the same end as decoding `k` more from `rest`. */
  ghost predicate SameEnd(b: seq<bool>, n: nat, rest: seq<bool>, k: nat, P: nat) {
    var whole, more := DecodeMany(b, P, n), DecodeMany(rest, P, k);
    (whole.Some? <==> more.Some?) && (whole.Some? ==> whole.value.1 == more.value.1)
  }

  lemma SameEndStart(b: seq<bool>, P: nat, n: nat)
    ensures SameEnd(b, n, b, n, P)
  {
  }

  lemma SameEndStep(b: seq<bool>, n: nat, rest: seq<bool>, k: nat, P: nat)
    requires SameEnd(b, n, rest, k, P) && k > 0
    ensures match DecodeOne(rest, P)
            case None => DecodeMany(b, P, n).None?
            case Some(one) => SameEnd(b, n, one.1, k - 1, P)
  {
  }

  lemma SameEndDone(b: seq<bool>, n: nat, rest: seq<bool>, P: nat)
    requires SameEnd(b, n, rest, 0, P)
    ensures DecodeMany(b, P, n).Some? && DecodeMany(b, P, n).value.1 == rest
  {
  }

  lemma AcceptsIff(P: nat, encoded: seq<Byte>, count: Count)
    requires ReadCompactSize(encoded) == Some(count)
    ensures Accepts(P, encoded)
            <==> DecodeMany(ByteBits(encoded[count.width..]), P, count.n).Some?
                 && |DecodeMany(ByteBits(encoded[count.width..]), P, count.n).value.1| < 8
  {
  }

  lemma NotAccepted(P: nat, encoded: seq<Byte>)
    requires ReadCompactSize(encoded) == None
    ensures !Accepts(P, encoded)
  {
  }

  /** The filter of an encoding received from elsewhere. */
  method Load(params: Params, encoded: seq<Byte>) returns (r: Result)
    requires Legal(params)
    ensures r.Ok? <==> Accepts(params.P, encoded)
    ensures r.Ok? ==> var n := ReadCompactSize(encoded).value.n; r.filter == Filter(params, n, n * params.M, encoded)
    ensures r.Ok? ==> Holds(r.filter, StoredIn(params.P, encoded))
  {
    hide ByteBits, BitsOf, ReadCompactSize, DecodeMany, BitReader.Remaining, Holds, StoredIn, Accepts, WordSums;
    var count := ReadCompactSize(encoded);
    if count == None {
      NotAccepted(params.P, encoded);
      return Failed;
    }
    AcceptsIff(params.P, encoded, count.value);
    var n, width := count.value.n, count.value.width;
    var reader := new BitReader(encoded[width..]);
    var ok := DecodeAll(reader, params.P, n);
    if !ok {
      return Failed;
    }
    UnreadBits(reader);
    if reader.pos != |reader.data| {
      return Failed;
    }
    LoadedHolds(params, encoded);
    return Ok(Filter(params, n, n * params.M, encoded));
  }

  /** Decode `n` numbers for the sake of the check alone. */
  method DecodeAll(reader: BitReader, P: nat, n: nat) returns (ok: bool)
    requires reader.Valid() && P < 64
    modifies reader
    ensures reader.Valid() && (ok <==> DecodeMany(old(reader.Remaining()), P, n).Some?)
    ensures ok ==> reader.Remaining() == DecodeMany(old(reader.Remaining()), P, n).value.1
  {
    hide DecodeOne, DecodeMany, SameEnd, BitReader.Remaining;
    ghost var all := reader.Remaining();
    SameEndStart(all, P, n);
    for i := 0 to n
      invariant reader.Valid() && SameEnd(all, n, reader.Remaining(), n - i, P)
    {
      SameEndStep(all, n, reader.Remaining(), n - i, P);
      var got, x := GolombRiceDecode(reader, P);
      if !got {
        return false;
      }
    }
    SameEndDone(all, n, reader.Remaining(), P);
    return true;
  }

  /** The byte stream is used up exactly when less than a byte of bits remains. */
  lemma UnreadBits(r: BitReader)
    requires r.Valid()
    ensures r.pos == |r.data| <==> |r.Remaining()| < 8
  {
  }

  // ---------------------------------------------------------------------------------------------
  // Matching
  // ---------------------------------------------------------------------------------------------

  ghost predicate Constructed(f: Filter, vals: seq<nat>) { Built(f, vals) || Holds(f, vals) }

  /** The scan gets to see `q`: it is stored, and before any larger value. */
  ghost predicate Reached(vals: seq<nat>, q: nat) {
    exists i :: 0 <= i < |vals| && vals[i] == q && Below(vals, i, q)
  }

  ghost predicate Below(vals: seq<nat>, n: nat, q: nat)
    requires n <= |vals|
  {
    forall j :: 0 <= j < n ==> vals[j] < q
  }

  /** In ascending values everything stored is reached. */
  lemma SortedReached(vals: seq<nat>, q: nat)
    requires Sorted(vals)
    ensures Reached(vals, q) <==> q in vals
  {
    if q in vals {
      var i := FirstOf(vals, q);
      assert Below(vals, i, q);
    }
  }

  function FirstOf(vals: seq<nat>, q: nat): (i: nat)
    requires q in vals
    ensures i < |vals| && vals[i] == q && forall j :: 0 <= j < i ==> vals[j] != q
  {
    if vals[0] == q then 0 else 1 + FirstOf(vals[1..], q)
  }

  /** Merge scan of the stored values against sorted queries; only an oversized count makes it fail. The stored
    * values of a loaded filter need not ascend, because their sums may wrap around: then some are not reached. */
  method MatchInternal(f: Filter, queries: seq<nat>, ghost vals: seq<nat>) returns (ok: bool, found: bool)
    requires Constructed(f, vals) && Sorted(queries)
    ensures ok <==> f.N <= MAX_SIZE
    ensures ok ==> (found <==> exists q :: q in queries && Reached(vals, q))
  {
    if Built(f, vals) {
      BuiltIsAccepted(f, vals);
    }
    var count := ReadCompactSize(f.encoded);
    if count == None {
      return false, false;
    }
    assert count.value.n == f.N;
    found := Scan(f, queries, count.value.width, vals);
    return true, found;
  }

  /** The queries before `index` are settled: none of them is reached. */
  ghost predicate Passed(queries: seq<nat>, index: nat, vals: seq<nat>) {
    index <= |queries| && forall k :: 0 <= k < index ==> !Reached(vals, queries[k])
  }

  /** The queries from `index` on lie beyond the first `i` stored values. */
  ghost predicate Beyond(queries: seq<nat>, index: nat, vals: seq<nat>, i: nat) {
    i <= |vals| && forall k :: index <= k < |queries| ==> Below(vals, i, queries[k])
  }

  /** The bits ahead code the stored values from number `i` on, counted up from `value`. */
  ghost predicate Ahead(rest: seq<bool>, P: nat, value: nat, vals: seq<nat>, i: nat) {
    i <= |vals| && AllWords(vals)
    && match DecodeMany(rest, P, |vals| - i)
       case None => false
       case Some(got) => WordSums(got.0, value) == vals[i..]
  }

  lemma AheadStep(rest: seq<bool>, P: nat, value: nat, vals: seq<nat>, i: nat)
    requires Ahead(rest, P, value, vals, i) && i < |vals|
    ensures match DecodeOne(rest, P)
            case None => false
            case Some(one) => (value + one.0) % TWO64 == vals[i] && Ahead(one.1, P, vals[i], vals, i + 1)
  {
    var ds := DecodeMany(rest, P, |vals| - i).value.0;
    assert vals[i..][0] == vals[i] && vals[i..][1..] == vals[i + 1..];
    var one := DecodeOne(rest, P).value;
    assert ds[0] == one.0 && ds[1..] == DecodeMany(one.1, P, |vals| - i - 1).value.0;
  }

  lemma ScanStart(bits: seq<bool>, P: nat, vals: seq<nat>, queries: seq<nat>)
    requires AllWords(vals) && DecodeMany(bits, P, |vals|).Some? &&
             WordSums(DecodeMany(bits, P, |vals|).value.0, 0) == vals
    ensures Ahead(bits, P, 0, vals, 0) && Passed(queries, 0, vals) && Beyond(queries, 0, vals, 0)
  {
  }

  lemma AllPassed(queries: seq<nat>, index: nat, vals: seq<nat>, i: nat)
    requires Passed(queries, index, vals) && Beyond(queries, index, vals, i) && (index == |queries| || i == |vals|)
    ensures !exists q :: q in queries && Reached(vals, q)
  {
    forall k | 0 <= k < |queries|
      ensures !Reached(vals, queries[k])
    {
      if k >= index {
        assert Below(vals, |vals|, queries[k]);
      }
    }
  }

  method Scan(f: Filter, queries: seq<nat>, width: nat, ghost vals: seq<nat>) returns (found: bool)
    requires Holds(f, vals) && Sorted(queries) && ReadCompactSize(f.encoded) == Some(Count(f.N, width))
    ensures found <==> exists q :: q in queries && Reached(vals, q)
  {
    var reader := new BitReader(f.encoded[width..]);
    hide ByteBits, BitsOf, ReadCompactSize, BitReader.Remaining, DecodeMany, WordSums, Reached;
    ghost var bits := reader.Remaining();
    DecodedLength(bits, f.params.P, f.N);
    ScanStart(bits, f.params.P, vals, queries);
    found := ScanLoop(reader, f.params.P, f.N, queries, vals);
  }

  method ScanLoop(reader: BitReader, P: nat, n: nat, queries: seq<nat>, ghost vals: seq<nat>) returns (found: bool)
    requires reader.Valid() && P < 64 && |vals| == n && Sorted(queries)
    requires Ahead(reader.Remaining(), P, 0, vals, 0) && Passed(queries, 0, vals) && Beyond(queries, 0, vals, 0)
    modifies reader
    ensures found <==> exists q :: q in queries && Reached(vals, q)
  {
    hide DecodeOne, BitReader.Remaining, Ahead, Sorted, Passed, Beyond, Reached;
    var value: Word64, index: nat := 0, 0;
    for i := 0 to n
      invariant reader.Valid() && Ahead(reader.Remaining(), P, value, vals, i)
      invariant Passed(queries, index, vals) && Beyond(queries, index, vals, i)
    {
      AheadStep(reader.Remaining(), P, value, vals, i);
      var ok, delta := GolombRiceDecode(reader, P);
      value := (value + delta) % TWO64;
      var hit;
      index, hit := Advance(queries, index, value, vals, i);
      if hit {
        assert value in queries;
        return true;
      }
      if index == |queries| {
        AllPassed(queries, index, vals, i + 1);
        return false;
      }
    }
    AllPassed(queries, index, vals, n);
    return false;
  }

  /** The inner loop: skip the queries below `value`. */
  method Advance(queries: seq<nat>, start: nat, value: nat, ghost vals: seq<nat>, ghost i: nat) returns (index: nat,
    hit: bool)
    requires Sorted(queries) && i < |vals| && value == vals[i]
    requires Passed(queries, start, vals) && Beyond(queries, start, vals, i)
    ensures hit ==> index < |queries| && queries[index] == value && Reached(vals, value)
    ensures !hit ==> Passed(queries, index, vals) && Beyond(queries, index, vals, i + 1)
  {
    index := start;
    hide Reached;
    while index < |queries| && queries[index] <= value
      invariant Passed(queries, index, vals) && Beyond(queries, index, vals, i)
    {
      Decided(queries[index], vals, i);
      if queries[index] == value {
        return index, true;
      }
      index := index + 1;
    }
    return index, false;
  }

  /** A query above all values so far is reached now, or never if the next value is larger. */
  lemma Decided(q: nat, vals: seq<nat>, i: nat)
    requires i < |vals| && q <= vals[i] && Below(vals, i, q)
    ensures Reached(vals, q) <==> q == vals[i]
  {
    if Reached(vals, q) {
      var k :| 0 <= k < |vals| && vals[k] == q && Below(vals, k, q);
      assert k <= i;
    }
  }

  lemma {:induction false} DecodedLength(b: seq<bool>, P: nat, n: nat)
    ensures DecodeMany(b, P, n).Some? ==> |DecodeMany(b, P, n).value.0| == n
    decreases n
  {
    hide DecodeOne;
    if n > 0 && DecodeOne(b, P).Some? {
      DecodedLength(DecodeOne(b, P).value.1, P, n - 1);
    }
  }

  /** One element: found exactly when its hash is reached. */
  method Match(f: Filter, e: Element, ghost vals: seq<nat>) returns (ok: bool, found: bool)
    requires Constructed(f, vals)
    ensures f.F < TWO64 && (ok <==> f.N <= MAX_SIZE)
    ensures ok ==> (found <==> Reached(vals, HashToRange(f, e)))
  {
    RangeOf(f, vals);
    hide Reached, Constructed;
    var query := MapIntoRange(f.params.hash(e), f.F);
    ok, found := MatchInternal(f, [query], vals);
    assert forall q :: q in [query] <==> q == query;
  }

  /** Several elements: found exactly when the hash of one of them is reached. */
  method MatchAny(f: Filter, elements: seq<Element>, ghost vals: seq<nat>) returns (ok: bool, found: bool)
    requires Constructed(f, vals)
    ensures f.F < TWO64 && (ok <==> f.N <= MAX_SIZE)
    ensures ok ==> (found <==> exists i :: 0 <= i < |elements| && Reached(vals, HashToRange(f, elements[i])))
  {
    RangeOf(f, vals);
    hide Reached, Constructed;
    var queries := BuildHashedSet(f, elements);
    ok, found := MatchInternal(f, queries, vals);
    ghost var hs := Hashes(f, elements);
    SameElements(queries, hs);
    assert forall i :: 0 <= i < |elements| ==> hs[i] in hs;
  }

  lemma SameElements(a: seq<nat>, b: seq<nat>)
    requires multiset(a) == multiset(b)
    ensures forall x :: x in a <==> x in b
  {
    assert forall x :: x in a <==> x in multiset(a);
    assert forall x :: x in b <==> x in multiset(b);
  }

  lemma RangeOf(f: Filter, vals: seq<nat>)
    requires Constructed(f, vals)
    ensures f.F < TWO64
  {
    RangeFits(f.N, f.params.M);
  }

  // ---------------------------------------------------------------------------------------------
  // From elements to answers
  // ---------------------------------------------------------------------------------------------

  /** The elements include one with the same hash as `e`. */
  ghost predicate Collides(f: Filter, elements: seq<Element>, e: Element)
    requires f.F < TWO64
  {
    exists i :: 0 <= i < |elements| && HashToRange(f, elements[i]) == HashToRange(f, e)
  }

  lemma ReachedIff(f: Filter, elements: seq<Element>, vals: seq<nat>, e: Element)
    requires f.F < TWO64 && Sorted(vals) && multiset(vals) == multiset(Hashes(f, elements))
    ensures Reached(vals, HashToRange(f, e)) <==> Collides(f, elements, e)
    ensures e in elements ==> Collides(f, elements, e)
  {
    var hs, h := Hashes(f, elements), HashToRange(f, e);
    SortedReached(vals, h);
    SameElements(vals, hs);
    hide HashToRange, Reached;
    assert forall i :: 0 <= i < |hs| ==> hs[i] == HashToRange(f, elements[i]);
  }

  /** Building and matching: an element of the set is always found, another one only if its hash collides. A set
    * beyond the limit of the count reader is built, but no match on its filter succeeds. */
  method BuildAndMatch(params: Params, elements: seq<Element>, e: Element) returns (built: Result, ok: bool,
    found: bool)
    requires Legal(params)
    ensures built.Ok? <==> |elements| < BASE
    ensures built.Ok? ==> built.filter.F < TWO64 && (ok <==> |elements| <= MAX_SIZE)
    ensures ok ==> built.Ok? && (found <==> Collides(built.filter, elements, e)) && (e in elements ==> found)
  {
    ghost var vals;
    built, vals := Build(params, elements);
    ok, found := false, false;
    if built.Ok? {
      BuiltSize(built.filter, vals, elements);
      ReachedIff(built.filter, elements, vals, e);
      hide *;
      ok, found := Match(built.filter, e, vals);
    }
  }

  lemma BuiltSize(f: Filter, vals: seq<nat>, elements: seq<Element>)
    requires Built(f, vals) && f.F < TWO64 && multiset(vals) == multiset(Hashes(f, elements))
    ensures f.N == |elements| && Constructed(f, vals) && Sorted(vals)
  {
    SameLength(vals, Hashes(f, elements));
  }

  /** The same when the filter is sent to another node: it is accepted within the limit, and answers alike. */
  method SendAndMatch(params: Params, elements: seq<Element>, e: Element) returns (ok: bool, found: bool,
    ghost f: Filter)
    requires Legal(params) && |elements| < BASE
    ensures f.params == params && f.F < TWO64 && (ok <==> |elements| <= MAX_SIZE)
    ensures ok ==> (found <==> Collides(f, elements, e)) && (e in elements ==> found)
  {
    var built;
    ghost var vals;
    built, vals := Build(params, elements);
    f := built.filter;
    BuiltSize(f, vals, elements);
    BuiltIsAccepted(f, vals);
    ReachedIff(f, elements, vals, e);
    hide ReadCompactSize, DecodeMany, ByteBits, Built, Sorted, Reached, Collides, WordSums, Sums;
    var loaded := Load(params, built.filter.encoded);
    if loaded.Failed? {
      return false, false, f;
    }
    ok, found := Match(loaded.filter, e, vals);
  }

  /** The codes of any two numbers, padded to whole bytes. */
  method EncodeTwo(P: nat, x: Word64, y: Word64) returns (payload: seq<Byte>, ghost pad: nat)
    requires P < 64
    ensures pad < 8 && ByteBits(payload) == Codes(P, [x, y]) + BitsOf(0, pad)
  {
    NothingCoded(P);
    CodesAppend(P, [], x);
    CodesAppend(P, [x], y);
    assert [] + [x] == [x] && [x] + [y] == [x, y];
    hide *;
    var w := new BitWriter([]);
    GolombRiceEncode(w, P, x);
    GolombRiceEncode(w, P, y);
    PartialBound(w);
    pad := if w.offset == 0 then 0 else 8 - w.offset;
    w.Flush();
    payload := w.bytes;
  }

  /** An encoding of any numbers is accepted, and holds their 64-bit sums. */
  lemma EncodedIsAccepted(P: nat, payload: seq<Byte>, ds: seq<nat>, pad: nat)
    requires AllWords(ds) && |ds| <= MAX_SIZE && pad < 8 && ByteBits(payload) == Codes(P, ds) + BitsOf(0, pad)
    ensures var encoded := WriteCompactSize(|ds|) + payload;
            Accepts(P, encoded) && ReadCompactSize(encoded).value.n == |ds| && StoredIn(P, encoded) == WordSums(ds, 0)
  {
    var head := WriteCompactSize(|ds|);
    assert (head + payload)[|head|..] == payload;
    CompactSizeRoundTrip(|ds|, payload);
    DecodeCodes(P, ds, BitsOf(0, pad));
    hide BitsOf, ByteBits, Codes, DecodeMany, WriteCompactSize, ReadCompactSize, WordSums;
  }

  /** A filter made elsewhere whose sums wrap around: its second value is stored, but a match for it fails. */
  method WrappedFilter(params: Params, e: Element) returns (r: Result, ok: bool, found: bool, ghost vals: seq<nat>)
    requires params.P == 63 && params.M <= 0xffff_ffff
    ensures r.Ok? && r.filter.params == params && Holds(r.filter, vals) && vals == [TWO64 / 2 + 5, 5]
    ensures ok && r.filter.F < TWO64 && (HashToRange(r.filter, e) == 5 ==> !found)
  {
    ghost var ds := [TWO64 / 2 + 5, TWO64 / 2];
    vals := [TWO64 / 2 + 5, 5];
    WrappedSums(ds, vals);
    hide Codes, ByteBits, BitsOf, ReadCompactSize, WriteCompactSize, Accepts, StoredIn, WordSums, Holds, Reached;
    var payload;
    ghost var pad;
    payload, pad := EncodeTwo(63, TWO64 / 2 + 5, TWO64 / 2);
    EncodedIsAccepted(63, payload, ds, pad);
    r := Load(params, WriteCompactSize(2) + payload);
    RangeOf(r.filter, vals);
    ok, found := Match(r.filter, e, vals);
  }

  lemma WrappedSums(ds: seq<nat>, vals: seq<nat>)
    requires ds == [TWO64 / 2 + 5, TWO64 / 2] && vals == [TWO64 / 2 + 5, 5]
    ensures AllWords(ds) && WordSums(ds, 0) == vals && !Reached(vals, 5)
  {
    assert WordSums(ds[1..], TWO64 / 2 + 5) == [5] + WordSums([], 5);
    assert vals[0] > 5;
  }
}
