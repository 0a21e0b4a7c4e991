/** The field GF(32), polynomials over it, and the Bech32 checksum as a remainder (section "Checksum" of BIP 173). */
module Bech32Field {
  import opened Bech32

  // ---------------------------------------------------------------------------------------------
  // The field
  // ---------------------------------------------------------------------------------------------

  function Add(a: Value, b: Value): Value { a ^ b }

  /** Multiplication by the element a, modulo a^5 + a^3 + 1. */
  function Double(a: Value): Value { (a << 1) ^ ((0 - (a >> 4)) & 9) }

  /** The product in GF(32): the sum of the doublings of `b` that the bits of `a` select. */
  function Times(a: Value, b: Value): Value {
    ((0 - (a & 1)) & b)
    ^ ((0 - ((a >> 1) & 1)) & Double(b))
    ^ ((0 - ((a >> 2) & 1)) & Double(Double(b)))
    ^ ((0 - ((a >> 3) & 1)) & Double(Double(Double(b))))
    ^ ((0 - (a >> 4)) & Double(Double(Double(Double(b)))))
  }

  lemma TimesOne(a: Value)
    ensures Times(a, 1) == a
  {
  }

  lemma ZeroTimes(a: Value)
    ensures Times(0, a) == 0
  {
  }

  lemma TimesCommutes(a: Value, b: Value)
    ensures Times(a, b) == Times(b, a)
  {
  }

  /** Only zero annihilates. */
  lemma NoZeroDivisors(a: Value, b: Value)
    requires Times(a, b) == 0
    ensures a == 0 || b == 0
  {
  }

  // --- the product as a sum -----------------------------------------------------------------------

  /** Coefficient `n` of an element, and an element or zero by a coefficient. */
  function Coef(a: Value, n: nat): Value
    requires n < 5
  {
    if n == 0 then a & 1 else if n == 1 then (a >> 1) & 1 else if n == 2 then (a >> 2) & 1
      else if n == 3 then (a >> 3) & 1 else a >> 4
  }

  function Pick5(bit: Value, a: Value): Value { (0 - bit) & a }

  function Sum5(p: Value, q: Value, r: Value, s: Value, t: Value): Value { Add(Add(Add(Add(p, q), r), s), t) }

  function Double2(b: Value): Value { Double(Double(b)) }

  function Double3(b: Value): Value { Double(Double2(b)) }

  function Double4(b: Value): Value { Double(Double3(b)) }

  lemma TimesIs(a: Value, b: Value)
    ensures Times(a, b) == Sum5(Pick5(Coef(a, 0), b), Pick5(Coef(a, 1), Double(b)), Pick5(Coef(a, 2), Double2(b)),
                                Pick5(Coef(a, 3), Double3(b)), Pick5(Coef(a, 4), Double4(b)))
  {
    hide Sum5, Pick5, Coef, Add, Double;
    SelectIs(a, b, Double(b), Double2(b), Double3(b), Double4(b));
  }

  lemma SelectIs(a: Value, b: Value, b1: Value, b2: Value, b3: Value, b4: Value)
    ensures ((0 - (a & 1)) & b) ^ ((0 - ((a >> 1) & 1)) & b1) ^ ((0 - ((a >> 2) & 1)) & b2)
            ^ ((0 - ((a >> 3) & 1)) & b3) ^ ((0 - (a >> 4)) & b4)
            == Sum5(Pick5(Coef(a, 0), b), Pick5(Coef(a, 1), b1), Pick5(Coef(a, 2), b2), Pick5(Coef(a, 3), b3),
                    Pick5(Coef(a, 4), b4))
  {
  }

  lemma DoubleAdds(b: Value, c: Value)
    ensures Double(Add(b, c)) == Add(Double(b), Double(c))
  {
  }

  lemma PickAdds(x: Value, b: Value, c: Value)
    ensures Pick5(x, Add(b, c)) == Add(Pick5(x, b), Pick5(x, c))
  {
  }

  lemma AddSwap(p: Value, q: Value, r: Value, s: Value)
    ensures Add(Add(p, q), Add(r, s)) == Add(Add(p, r), Add(q, s))
  {
  }

  lemma SumAdds(p: Value, q: Value, r: Value, s: Value, t: Value, p': Value, q': Value, r': Value, s': Value, t': Value)
    ensures Sum5(Add(p, p'), Add(q, q'), Add(r, r'), Add(s, s'), Add(t, t')) ==
            Add(Sum5(p, q, r, s, t), Sum5(p', q', r', s', t'))
  {
    hide Add;
    AddSwap(p, p', q, q');
    AddSwap(Add(p, q), Add(p', q'), r, r');
    AddSwap(Add(Add(p, q), r), Add(Add(p', q'), r'), s, s');
    AddSwap(Add(Add(Add(p, q), r), s), Add(Add(Add(p', q'), r'), s'), t, t');
  }

  /** The product distributes over the sum. */
  lemma TimesAdds(a: Value, b: Value, c: Value)
    ensures Times(a, Add(b, c)) == Add(Times(a, b), Times(a, c))
  {
    hide Add, Double, Times, Sum5, Pick5, Coef;
    TimesIs(a, b);
    TimesIs(a, c);
    TimesIs(a, Add(b, c));
    DoubleAdds(b, c);
    DoubleAdds(Double(b), Double(c));
    DoubleAdds(Double2(b), Double2(c));
    DoubleAdds(Double3(b), Double3(c));
    PickAdds(Coef(a, 0), b, c);
    PickAdds(Coef(a, 1), Double(b), Double(c));
    PickAdds(Coef(a, 2), Double2(b), Double2(c));
    PickAdds(Coef(a, 3), Double3(b), Double3(c));
    PickAdds(Coef(a, 4), Double4(b), Double4(c));
    SumAdds(Pick5(Coef(a, 0), b), Pick5(Coef(a, 1), Double(b)), Pick5(Coef(a, 2), Double2(b)),
            Pick5(Coef(a, 3), Double3(b)),
            Pick5(Coef(a, 4), Double4(b)), Pick5(Coef(a, 0), c), Pick5(Coef(a, 1), Double(c)),
              Pick5(Coef(a, 2), Double2(c)),
            Pick5(Coef(a, 3), Double3(c)), Pick5(Coef(a, 4), Double4(c)));
  }

  lemma AddTimes(p: Value, q: Value, c: Value)
    ensures Times(Add(p, q), c) == Add(Times(p, c), Times(q, c))
  {
    hide Times, Add;
    TimesCommutes(Add(p, q), c);
    TimesCommutes(p, c);
    TimesCommutes(q, c);
    TimesAdds(c, p, q);
  }

  lemma TimesDouble(a: Value, b: Value)
    ensures Times(a, Double(b)) == Double(Times(a, b))
  {
  }

  lemma DoubleTimes(b: Value, c: Value)
    ensures Times(Double(b), c) == Double(Times(b, c))
  {
    hide Times, Double;
    TimesCommutes(Double(b), c);
    TimesCommutes(b, c);
    TimesDouble(c, b);
  }

  lemma PickTimes(x: Value, b: Value, c: Value)
    requires x == 0 || x == 1
    ensures Times(Pick5(x, b), c) == Pick5(x, Times(b, c))
  {
    ZeroTimes(c);
    if x == 0 {
      assert Pick5(0, b) == 0 && Pick5(0, Times(b, c)) == 0;
    } else {
      PickOne(b);
      PickOne(Times(b, c));
    }
    hide Times, Pick5;
  }

  lemma PickOne(b: Value)
    ensures Pick5(1, b) == b
  {
  }

  lemma CoefBit(a: Value, n: nat)
    requires n < 5
    ensures Coef(a, n) == 0 || Coef(a, n) == 1
  {
  }

  lemma SumTimes(p: Value, q: Value, r: Value, s: Value, t: Value, c: Value)
    ensures Times(Sum5(p, q, r, s, t), c) == Sum5(Times(p, c), Times(q, c), Times(r, c), Times(s, c), Times(t, c))
  {
    hide Times, Add;
    AddTimes(p, q, c);
    AddTimes(Add(p, q), r, c);
    AddTimes(Add(Add(p, q), r), s, c);
    AddTimes(Add(Add(Add(p, q), r), s), t, c);
  }

  lemma PickedTimes(a: Value, n: nat, b: Value, c: Value)
    requires n < 5
    ensures Times(Pick5(Coef(a, n), b), c) == Pick5(Coef(a, n), Times(b, c))
  {
    hide Times, Pick5, Coef;
    CoefBit(a, n);
    PickTimes(Coef(a, n), b, c);
  }

  lemma TimesAssociates(a: Value, b: Value, c: Value)
    ensures Times(Times(a, b), c) == Times(a, Times(b, c))
  {
    hide Add, Double, Times, Sum5, Pick5, Coef;
    TimesIs(a, b);
    TimesIs(a, Times(b, c));
    SumTimes(Pick5(Coef(a, 0), b), Pick5(Coef(a, 1), Double(b)), Pick5(Coef(a, 2), Double2(b)),
             Pick5(Coef(a, 3), Double3(b)),
             Pick5(Coef(a, 4), Double4(b)), c);
    PickedTimes(a, 0, b, c);
    PickedTimes(a, 1, Double(b), c);
    PickedTimes(a, 2, Double2(b), c);
    PickedTimes(a, 3, Double3(b), c);
    PickedTimes(a, 4, Double4(b), c);
    DoubleTimes(b, c);
    DoubleTimes(Double(b), c);
    DoubleTimes(Double2(b), c);
    DoubleTimes(Double3(b), c);
  }

  // ---------------------------------------------------------------------------------------------
  // One step of the checksum over the field
  // ---------------------------------------------------------------------------------------------

  /** The generator without its leading one: x^6 modulo the generator. */
  function K(i: nat): Value
    requires i < 6
  {
    if i == 0 then 29 else if i == 1 then 22 else if i == 2 then 20 else if i == 3 then 21 else if i == 4 then 29
      else 18
  }

  /** The five constants of the loop are the generator's tail times 1, 2, 4, 8 and 16. */
  lemma Constants(i: nat)
    requires i < 6
    ensures Group(0x3b6a57b2, i) == K(i) && Group(0x26508e6d, i) == Double(K(i)) &&
            Group(0x1ea119fa, i) == Double2(K(i))
    ensures Group(0x3d4233dd, i) == Double3(K(i)) && Group(0x2a1462b3, i) == Double4(K(i))
  {
  }

  lemma GroupXor(a: bv32, b: bv32, i: nat)
    requires i < 6
    ensures Group(Xor(a, b), i) == Add(Group(a, i), Group(b, i))
  {
    XorIs(a, b);
    hide Xor, Group, Add;
    if i == 0 {
      GroupXor0(a, b, Xor(a, b));
    } else if i == 1 {
      GroupXor1(a, b, Xor(a, b));
    } else if i == 2 {
      GroupXor2(a, b, Xor(a, b));
    } else if i == 3 {
      GroupXor3(a, b, Xor(a, b));
    } else if i == 4 {
      GroupXor4(a, b, Xor(a, b));
    } else {
      GroupXor5(a, b, Xor(a, b));
    }
  }

  lemma GroupXor0(a: bv32, b: bv32, c: bv32)
    requires c == a ^ b
    ensures Group(c, 0) == Add(Group(a, 0), Group(b, 0))
  {
  }

  lemma GroupXor1(a: bv32, b: bv32, c: bv32)
    requires c == a ^ b
    ensures Group(c, 1) == Add(Group(a, 1), Group(b, 1))
  {
  }

  lemma GroupXor2(a: bv32, b: bv32, c: bv32)
    requires c == a ^ b
    ensures Group(c, 2) == Add(Group(a, 2), Group(b, 2))
  {
  }

  lemma GroupXor3(a: bv32, b: bv32, c: bv32)
    requires c == a ^ b
    ensures Group(c, 3) == Add(Group(a, 3), Group(b, 3))
  {
  }

  lemma GroupXor4(a: bv32, b: bv32, c: bv32)
    requires c == a ^ b
    ensures Group(c, 4) == Add(Group(a, 4), Group(b, 4))
  {
  }

  lemma GroupXor5(a: bv32, b: bv32, c: bv32)
    requires c == a ^ b
    ensures Group(c, 5) == Add(Group(a, 5), Group(b, 5))
  {
  }

  /** The term for one bit of the leading coefficient. */
  lemma GroupPick(c: bv32, n: nat, k: bv32, i: nat)
    requires n < 5 && i < 6
    ensures var bit := [Bit(c, 25), Bit(c, 26), Bit(c, 27), Bit(c, 28), Bit(c, 29)][n];
            Group(Pick(bit, k), i) == Pick5(Coef(Group(c, 0), n), Group(k, i))
  {
    LeadBits(c);
    GroupZero(i);
    PickOne(Group(k, i));
    PickNone(Group(k, i));
    CoefBit(Group(c, 0), n);
    hide Bit, Coef, Group, Pick5;
  }

  lemma GroupZero(i: nat)
    requires i < 6
    ensures Group(0, i) == 0
  {
  }

  lemma PickNone(b: Value)
    ensures Pick5(0, b) == 0
  {
  }

  lemma LeadBits(c: bv32)
    ensures (Bit(c, 25) <==> Coef(Group(c, 0), 0) == 1) && (Bit(c, 26) <==> Coef(Group(c, 0), 1) == 1)
    ensures (Bit(c, 27) <==> Coef(Group(c, 0), 2) == 1) && (Bit(c, 28) <==> Coef(Group(c, 0), 3) == 1)
    ensures Bit(c, 29) <==> Coef(Group(c, 0), 4) == 1
  {
  }

  lemma GroupTop(c: bv32, i: nat)
    requires i < 6
    ensures Group(Top(c), i) == Times(Group(c, 0), K(i))
  {
    hide Group, Xor, Pick, Bit, Coef, Pick5, Add, Double, K, Times;
    Constants(i);
    TimesIs(Group(c, 0), K(i));
    var k0, k1, k2, k3, k4 := Pick(Bit(c, 25), 0x3b6a57b2), Pick(Bit(c, 26), 0x26508e6d), Pick(Bit(c, 27), 0x1ea119fa),
      Pick(Bit(c, 28), 0x3d4233dd), Pick(Bit(c, 29), 0x2a1462b3);
    GroupXor(k0, k1, i);
    GroupXor(Xor(k0, k1), k2, i);
    GroupXor(Xor(Xor(k0, k1), k2), k3, i);
    GroupXor(Xor(Xor(Xor(k0, k1), k2), k3), k4, i);
    GroupPick(c, 0, 0x3b6a57b2, i);
    GroupPick(c, 1, 0x26508e6d, i);
    GroupPick(c, 2, 0x1ea119fa, i);
    GroupPick(c, 3, 0x3d4233dd, i);
    GroupPick(c, 4, 0x2a1462b3, i);
  }

  lemma GroupLow(c: bv32, v: Value, i: nat)
    requires i < 6
    ensures Group(Low(c), i) == if i < 5 then Group(c, i + 1) else 0
    ensures Group(v as bv32, i) == if i < 5 then 0 else v
  {
  }

  lemma AddZeros(a: Value, b: Value)
    ensures Add(Add(a, b), 0) == Add(a, b) && Add(Add(0, b), a) == Add(a, b)
  {
  }

  /** c times x plus v, less the multiple of the generator that cancels the leading coefficient. */
  lemma GroupStep(c: bv32, v: Value, i: nat)
    requires i < 6
    ensures Group(Step(c, v), i) == Add(if i < 5 then Group(c, i + 1) else v, Times(Group(c, 0), K(i)))
  {
    hide Group, Xor, Low, Top, Add, Times, K;
    GroupXor(Shift(c), v as bv32, i);
    GroupXor(Low(c), Top(c), i);
    GroupTop(c, i);
    GroupLow(c, v, i);
    AddZeros(if i < 5 then Group(c, i + 1) else v, Times(Group(c, 0), K(i)));
  }

  // ---------------------------------------------------------------------------------------------
  // Polynomials and division by the generator
  // ---------------------------------------------------------------------------------------------

  /** The generator, as coefficients with the leading one first. */
  const GENERATOR: seq<Value> := [1, 29, 22, 20, 21, 29, 18]

  function Scale(a: Value, p: seq<Value>): (r: seq<Value>)
    ensures |r| == |p| && forall i :: 0 <= i < |r| ==> r[i] == Times(a, p[i])
  {
    seq(|p|, i requires 0 <= i < |p| => Times(a, p[i]))
  }

  /** The sum of two polynomials written with equally many coefficients. */
  function Plus(p: seq<Value>, q: seq<Value>): (r: seq<Value>)
    requires |p| == |q|
    ensures |r| == |p| && forall i :: 0 <= i < |r| ==> r[i] == Add(p[i], q[i])
  {
    seq(|p|, i requires 0 <= i < |p| => Add(p[i], q[i]))
  }

  /** The product of a polynomial with the generator: q(x) x + a times the generator is one more row of the scheme. */
  function Product(q: seq<Value>): (r: seq<Value>)
    ensures |r| == |q| + 6
  {
    if q == [] then Zeros(6)
    else
      var n := |q| - 1;
      Plus(Product(q[..n]) + [0], Zeros(n) + Scale(q[n], GENERATOR))
  }

  /** Dividing `p` by the generator gives the quotient `q` and the remainder `r`. */
  ghost predicate Divides(p: seq<Value>, q: seq<Value>, r: seq<Value>) {
    |p| == |q| + 6 && |r| == 6 && p == Plus(Product(q), Zeros(|q|) + r)
  }

  lemma AddZero(a: Value)
    ensures Add(a, 0) == a && Add(0, a) == a
  {
  }

  lemma AddGroups(a: Value, b: Value, c: Value)
    ensures Add(Add(a, b), c) == Add(a, Add(b, c))
  {
  }

  lemma AddTwice(a: Value, b: Value)
    ensures Add(a, Add(b, a)) == b
  {
  }

  lemma SameSum(x: Value, a: Value, b: Value)
    requires Add(x, a) == Add(x, b)
    ensures a == b
  {
    AddTwice(x, a);
    AddTwice(x, b);
  }

  /** One step cancels the leading coefficient. */
  lemma StepPoly(c: bv32, v: Value)
    ensures Groups(c) + [v] == Plus(Scale(Group(c, 0), GENERATOR), [0] + Groups(Step(c, v)))
  {
    hide Group, Step, Times, Add, Groups, K;
    var p, s, t := Groups(c) + [v], Scale(Group(c, 0), GENERATOR), [0] + Groups(Step(c, v));
    forall j | 0 <= j < 7
      ensures p[j] == Add(s[j], t[j])
    {
      if j == 0 {
        TimesOne(Group(c, 0));
        AddZero(Group(c, 0));
      } else {
        GeneratorTail(j - 1);
        GroupStep(c, v, j - 1);
        AddTwice(Times(Group(c, 0), K(j - 1)), p[j]);
      }
    }
  }

  lemma GeneratorTail(i: nat)
    requires i < 6
    ensures GENERATOR[i + 1] == K(i)
  {
  }

  /** One more value is one more coefficient of the quotient. */
  lemma DivideNext(p: seq<Value>, q: seq<Value>, c: bv32, v: Value)
    requires Divides(p, q, Groups(c))
    ensures Divides(p + [v], q + [Group(c, 0)], Groups(Step(c, v)))
  {
    hide Group, Step, Groups, Product, Scale, Add;
    var a := Group(c, 0);
    StepPoly(c, v);
    ProductNext(q, a);
    RowAdded(p, Product(q), Groups(c), v, Scale(a, GENERATOR), Groups(Step(c, v)), |q|);
  }

  lemma RowAdded(p: seq<Value>, product: seq<Value>, g: seq<Value>, v: Value, row: seq<Value>, r: seq<Value>, n: nat)
    requires |product| == n + 6 && |g| == |r| == 6 && |row| == 7
    requires p == Plus(product, Zeros(n) + g) && g + [v] == Plus(row, [0] + r)
    ensures p + [v] == Plus(Plus(product + [0], Zeros(n) + row), Zeros(n + 1) + r)
  {
    hide Add;
    var left, rows, s, t := p + [v], product + [0], Zeros(n) + row, Zeros(n + 1) + r;
    forall i | 0 <= i < n + 7
      ensures left[i] == Add(Add(rows[i], s[i]), t[i])
    {
      AddGroups(rows[i], s[i], t[i]);
      if i < n {
        AddZero(0);
      } else {
        assert (g + [v])[i - n] == Add(row[i - n], ([0] + r)[i - n]);
        assert t[i] == ([0] + r)[i - n];
        AddZero(v);
      }
    }
  }

  lemma ProductNext(q: seq<Value>, a: Value)
    ensures Product(q + [a]) == Plus(Product(q) + [0], Zeros(|q|) + Scale(a, GENERATOR))
  {
    assert (q + [a])[..|q|] == q;
  }

  lemma {:induction false} Division(c: bv32, vs: seq<Value>) returns (q: seq<Value>)
    ensures Divides(Groups(c) + vs, q, Groups(Poly(c, vs)))
  {
    hide Divides, Groups, Group, Step;
    if vs == [] {
      q := [];
      NoQuotient(Groups(c));
      assert Groups(c) + vs == Groups(c);
    } else {
      var n := |vs| - 1;
      var d := Poly(c, vs[..n]);
      q := Division(c, vs[..n]);
      DivideNext(Groups(c) + vs[..n], q, d, vs[n]);
      assert Groups(c) + vs == (Groups(c) + vs[..n]) + [vs[n]];
      q := q + [Group(d, 0)];
    }
  }

  lemma NoQuotient(r: seq<Value>)
    requires |r| == 6
    ensures Divides(r, [], r)
  {
    hide Add;
    forall i | 0 <= i < 6
      ensures Add(0, r[i]) == r[i]
    {
      AddZero(r[i]);
    }
    assert Plus(Zeros(6), Zeros(0) + r) == r;
  }

  /** The generator is monic, so the leading coefficients of a product determine the factor. */
  lemma {:induction false} FactorUnique(q: seq<Value>, t: seq<Value>)
    requires |q| == |t| && forall i :: 0 <= i < |q| ==> Product(q)[i] == Product(t)[i]
    ensures q == t
  {
    hide Product;
    if q != [] {
      var n := |q| - 1;
      forall i | 0 <= i < n
        ensures Product(q[..n])[i] == Product(t[..n])[i]
      {
        EarlierRows(q, i);
        EarlierRows(t, i);
      }
      FactorUnique(q[..n], t[..n]);
      LeadingTerm(q);
      LeadingTerm(t);
      SameSum((Product(q[..n]) + [0])[n], q[n], t[n]);
      assert q == q[..n] + [q[n]] && t == t[..n] + [t[n]];
    }
  }

  lemma EarlierRows(q: seq<Value>, i: nat)
    requires i < |q| - 1
    ensures Product(q)[i] == Product(q[..|q| - 1])[i]
  {
    hide Add, Times;
    AddZero(Product(q[..|q| - 1])[i]);
  }

  lemma LeadingTerm(q: seq<Value>)
    requires q != []
    ensures var n := |q| - 1; Product(q)[n] == Add((Product(q[..n]) + [0])[n], q[n])
  {
    hide Add, Times;
    TimesOne(q[|q| - 1]);
  }

  /** Quotient and remainder are unique. */
  lemma DivisionUnique(p: seq<Value>, q: seq<Value>, r: seq<Value>, t: seq<Value>, s: seq<Value>)
    requires Divides(p, q, r) && Divides(p, t, s)
    ensures q == t && r == s
  {
    hide Product, Add;
    var n := |q|;
    forall i | 0 <= i < n
      ensures Product(q)[i] == Product(t)[i]
    {
      AddZero(Product(q)[i]);
      AddZero(Product(t)[i]);
    }
    FactorUnique(q, t);
    forall j | 0 <= j < 6
      ensures r[j] == s[j]
    {
      assert p[n + j] == Add(Product(q)[n + j], (Zeros(n) + r)[n + j]);
      assert p[n + j] == Add(Product(t)[n + j], (Zeros(n) + s)[n + j]);
      SameSum(Product(q)[n + j], r[j], s[j]);
    }
  }

  /** The checksum state is the remainder: with the coefficients of `c` in front, the values divided by the
    * generator leave exactly its six groups. The source starts from one, the implicit leading coefficient. */
  lemma PolyIsRemainder(c: bv32, vs: seq<Value>, r: seq<Value>)
    ensures (exists q :: Divides(Groups(c) + vs, q, r)) <==> r == Groups(Poly(c, vs))
  {
    var q := Division(c, vs);
    hide Divides, Groups, Poly;
    if t :| Divides(Groups(c) + vs, t, r) {
      DivisionUnique(Groups(c) + vs, q, Groups(Poly(c, vs)), t, r);
    }
  }

  lemma ImplicitOne()
    ensures Groups(1) == [0, 0, 0, 0, 0, 1]
  {
  }

  /** A string of values checks out exactly when, after an implicit one, it leaves the remainder one. */
  method RemainderOf(vs: seq<Value>) returns (c: bv32)
    ensures exists q :: Divides([0, 0, 0, 0, 0, 1] + vs, q, Groups(c))
    ensures c < 0x4000_0000 && (c == 1 <==> exists q :: Divides([0, 0, 0, 0, 0, 1] + vs, q, [0, 0, 0, 0, 0, 1]))
  {
    hide Poly, Groups, Divides;
    c := PolyMod(vs);
    ImplicitOne();
    PolyBound(1, vs);
    PolyIsRemainder(1, vs, Groups(c));
    PolyIsRemainder(1, vs, Groups(1));
    if Groups(c) == Groups(1) {
      PackGroups(c);
      PackGroups(1);
    }
  }
}
