/** Nestable overlay transactions on an ordered key-value store, and their two-way merge iterator. */
module DbTransaction {
  import opened Basics

  type Key = seq<nat>

  type Value = seq<nat>

  /** An entry of an ordered map; an ordered set has entries with the empty value. */
  datatype Entry = Entry(key: Key, value: Value)

  // ---------------------------------------------------------------------------------------------
  // The order of keys
  // ---------------------------------------------------------------------------------------------

  /** Lexicographic comparison of byte strings. */
  predicate Less(a: Key, b: Key) {
    b != [] && (a == [] || a[0] < b[0] || (a[0] == b[0] && Less(a[1..], b[1..])))
  }

  lemma {:induction false} LessIrreflexive(a: Key)
    ensures !Less(a, a)
  {
    if a != [] {
      LessIrreflexive(a[1..]);
    }
  }

  lemma {:induction false} LessTransitive(a: Key, b: Key, c: Key)
    requires Less(a, b) && Less(b, c)
    ensures Less(a, c)
  {
    if a != [] && a[0] == b[0] && b[0] == c[0] {
      LessTransitive(a[1..], b[1..], c[1..]);
    }
  }

  lemma {:induction false} LessTotal(a: Key, b: Key)
    ensures Less(a, b) || a == b || Less(b, a)
  {
    if a != [] && b != [] && a[0] == b[0] {
      LessTotal(a[1..], b[1..]);
      assert a == [a[0]] + a[1..] && b == [b[0]] + b[1..];
    }
  }

  /** Below or equal, and nothing in between. */
  lemma Ordered(a: Key, b: Key, c: Key)
    ensures !Less(a, b) && !Less(b, c) ==> !Less(a, c)
    ensures Less(a, b) && !Less(c, b) ==> Less(a, c)
    ensures !Less(b, a) && Less(b, c) ==> Less(a, c)
    ensures Less(a, b) ==> !Less(b, a)
    ensures !Less(a, b) && !Less(b, a) ==> a == b
  {
    LessIrreflexive(a);
    LessTotal(a, b);
    LessTotal(b, c);
    LessTotal(a, c);
    if Less(a, b) && Less(b, a) {
      LessTransitive(a, b, a);
    }
    if Less(a, b) && Less(b, c) {
      LessTransitive(a, b, c);
    }
    if Less(a, c) && Less(c, b) {
      LessTransitive(a, c, b);
    }
    if Less(b, a) && Less(a, c) {
      LessTransitive(b, a, c);
    }
  }

  // ---------------------------------------------------------------------------------------------
  // Ordered maps
  // ---------------------------------------------------------------------------------------------

  ghost predicate Ascending(m: seq<Entry>) {
    forall i, j :: 0 <= i < j < |m| ==> Less(m[i].key, m[j].key)
  }

  /** The first position whose key is not below `k`. */
  function LowerBound(m: seq<Entry>, k: Key): (i: nat)
    ensures i <= |m| && (forall j :: 0 <= j < i ==> Less(m[j].key, k)) && (i < |m| ==> !Less(m[i].key, k))
  {
    if m == [] || !Less(m[0].key, k) then 0 else 1 + LowerBound(m[1..], k)
  }

  predicate Has(m: seq<Entry>, k: Key) {
    var i := LowerBound(m, k);
    i < |m| && m[i].key == k
  }

  function Lookup(m: seq<Entry>, k: Key): Option<Value> {
    if Has(m, k) then Some(m[LowerBound(m, k)].value) else None
  }

  function Put(m: seq<Entry>, k: Key, v: Value): seq<Entry> {
    var i := LowerBound(m, k);
    if Has(m, k) then m[i := Entry(k, v)] else m[..i] + [Entry(k, v)] + m[i..]
  }

  function Remove(m: seq<Entry>, k: Key): seq<Entry> {
    var i := LowerBound(m, k);
    if Has(m, k) then m[..i] + m[i + 1..] else m
  }

  /** A key is found exactly where it is. */
  lemma FoundAt(m: seq<Entry>, i: nat)
    requires Ascending(m) && i < |m|
    ensures Has(m, m[i].key) && Lookup(m, m[i].key) == Some(m[i].value) && LowerBound(m, m[i].key) == i
  {
    var k := m[i].key;
    var j := LowerBound(m, k);
    LessIrreflexive(k);
  }

  lemma Absent(m: seq<Entry>, k: Key)
    requires forall i :: 0 <= i < |m| ==> m[i].key != k
    ensures !Has(m, k) && Lookup(m, k) == None
  {
  }

  lemma PutAscending(m: seq<Entry>, k: Key, v: Value)
    requires Ascending(m)
    ensures Ascending(Put(m, k, v))
  {
    var i, p := LowerBound(m, k), Put(m, k, v);
    if !Has(m, k) {
      forall j | i <= j < |m|
        ensures Less(k, m[j].key)
      {
        Ordered(m[i].key, k, m[j].key);
        if j > i {
          Ordered(k, m[i].key, m[j].key);
        }
      }
    }
  }

  lemma RemoveAscending(m: seq<Entry>, k: Key)
    requires Ascending(m)
    ensures Ascending(Remove(m, k))
  {
  }

  lemma PutLookup(m: seq<Entry>, k: Key, v: Value, x: Key)
    requires Ascending(m)
    ensures Lookup(Put(m, k, v), x) == if x == k then Some(v) else Lookup(m, x)
  {
    PutAscending(m, k, v);
    if x == k {
      var i, p := LowerBound(m, k), Put(m, k, v);
      assert p[i] == Entry(k, v);
      FoundAt(p, i);
    } else if Has(m, x) {
      PutFinds(m, k, v, x);
    } else {
      PutMisses(m, k, v, x);
    }
  }

  lemma PutFinds(m: seq<Entry>, k: Key, v: Value, x: Key)
    requires Ascending(m) && Ascending(Put(m, k, v)) && x != k && Has(m, x)
    ensures Lookup(Put(m, k, v), x) == Lookup(m, x)
  {
    var i, p, j := LowerBound(m, k), Put(m, k, v), LowerBound(m, x);
    var j' := if Has(m, k) || j < i then j else j + 1;
    assert p[j'] == m[j];
    FoundAt(p, j');
  }

  lemma PutMisses(m: seq<Entry>, k: Key, v: Value, x: Key)
    requires Ascending(m) && x != k && !Has(m, x)
    ensures Lookup(Put(m, k, v), x) == Lookup(m, x)
  {
    var i, p := LowerBound(m, k), Put(m, k, v);
    forall j | 0 <= j < |p|
      ensures p[j].key != x
    {
      if p[j].key == x {
        var j' := if Has(m, k) || j < i then j else j - 1;
        FoundAt(m, j');
      }
    }
    Absent(p, x);
  }

  lemma RemoveLookup(m: seq<Entry>, k: Key, x: Key)
    requires Ascending(m)
    ensures Lookup(Remove(m, k), x) == if x == k then None else Lookup(m, x)
  {
    RemoveAscending(m, k);
    var i, p := LowerBound(m, k), Remove(m, k);
    if x != k && Has(m, x) {
      var j := LowerBound(m, x);
      var j' := if !Has(m, k) || j < i then j else j - 1;
      assert p[j'] == m[j];
      FoundAt(p, j');
    } else {
      forall j | 0 <= j < |p|
        ensures p[j].key != x
      {
        if p[j].key == x {
          FoundAt(m, if !Has(m, k) || j < i then j else j + 1);
        }
      }
      Absent(p, x);
    }
  }

  // ---------------------------------------------------------------------------------------------
  // Memory accounting
  // ---------------------------------------------------------------------------------------------

  function Usage(m: seq<Entry>): int {
    if m == [] then 0 else |m[0].key| + |m[0].value| + Usage(m[1..])
  }

  lemma {:induction false} UsageJoin(a: seq<Entry>, b: seq<Entry>)
    ensures Usage(a + b) == Usage(a) + Usage(b)
  {
    if a == [] {
      assert a + b == b;
    } else {
      UsageJoin(a[1..], b);
      assert (a + b)[1..] == a[1..] + b;
    }
  }

  lemma UsageAround(a: seq<Entry>, e: Entry, b: seq<Entry>)
    ensures Usage(a + [e] + b) == Usage(a + b) + |e.key| + |e.value|
  {
    UsageJoin(a + [e], b);
    UsageJoin(a, [e]);
    UsageJoin(a, b);
  }

  /** What an entry under `k` costs. */
  function Cost(m: seq<Entry>, k: Key): int {
    if Has(m, k) then |k| + |m[LowerBound(m, k)].value| else 0
  }

  lemma PutUsage(m: seq<Entry>, k: Key, v: Value)
    ensures Usage(Put(m, k, v)) == Usage(m) - Cost(m, k) + |k| + |v|
    ensures Usage(Remove(m, k)) == Usage(m) - Cost(m, k)
  {
    hide Usage, LowerBound;
    var i := LowerBound(m, k);
    if Has(m, k) {
      SplitAt(m, i);
      UsageAround(m[..i], m[i], m[i + 1..]);
      UsageAround(m[..i], Entry(k, v), m[i + 1..]);
      assert Put(m, k, v) == m[..i] + [Entry(k, v)] + m[i + 1..];
    } else {
      UsageAround(m[..i], Entry(k, v), m[i..]);
      assert m == m[..i] + m[i..];
    }
  }

  lemma SplitAt(m: seq<Entry>, i: nat)
    requires i < |m|
    ensures m == m[..i] + [m[i]] + m[i + 1..]
  {
  }

  // ---------------------------------------------------------------------------------------------
  // Transactions
  // ---------------------------------------------------------------------------------------------

  ghost predicate Disjoint(writes: seq<Entry>, deletes: seq<Entry>) {
    forall k :: Has(writes, k) ==> !Has(deletes, k)
  }

  ghost predicate NoValues(m: seq<Entry>) { forall j :: 0 <= j < |m| ==> m[j].value == [] }

  /** Writes and deletes are disjoint, and the usage of a transaction is exactly what they hold. */
  ghost predicate LayerOk(base: bool, writes: seq<Entry>, deletes: seq<Entry>, usage: int) {
    && Ascending(writes) && Ascending(deletes) && Disjoint(writes, deletes) && NoValues(deletes)
    && (if base then deletes == [] else usage == Usage(writes) + Usage(deletes))
  }

  /** What one layer says about a key: deleted, written, or nothing. */
  datatype Own = Gone | Here(value: Value) | Below

  function OwnOf(writes: seq<Entry>, deletes: seq<Entry>, k: Key): Own {
    if Has(deletes, k) then Gone else if Has(writes, k) then Here(Lookup(writes, k).value) else Below
  }

  lemma NoValuesKept(m: seq<Entry>, k: Key)
    requires NoValues(m)
    ensures NoValues(Remove(m, k)) && NoValues(Put(m, k, [])) && Cost(m, k) == if Has(m, k) then |k| else 0
  {
    var i := LowerBound(m, k);
    hide LowerBound;
  }

  lemma HasPut(m: seq<Entry>, k: Key, v: Value, x: Key)
    requires Ascending(m)
    ensures Has(Put(m, k, v), x) <==> x == k || Has(m, x)
    ensures Has(Remove(m, k), x) <==> x != k && Has(m, x)
    ensures Has(Put(m, k, v), x) ==> Lookup(Put(m, k, v), x).value == if x == k then v else Lookup(m, x).value
    ensures Has(Remove(m, k), x) ==> Lookup(Remove(m, k), x) == Lookup(m, x)
  {
    PutLookup(m, k, v, x);
    RemoveLookup(m, k, x);
    hide LowerBound, Put, Remove;
  }

  lemma WriteLayer(base: bool, writes: seq<Entry>, deletes: seq<Entry>, usage: int, k: Key, v: Value)
    requires LayerOk(base, writes, deletes, usage)
    ensures LayerOk(base, Put(writes, k, v), Remove(deletes, k), usage - Cost(deletes, k) - Cost(writes, k) + |k| + |v|)
    ensures forall x :: OwnOf(Put(writes, k, v), Remove(deletes, k), x) == if x == k then Here(v)
            else OwnOf(writes, deletes, x)
  {
    PutAscending(writes, k, v);
    RemoveAscending(deletes, k);
    PutUsage(writes, k, v);
    PutUsage(deletes, k, []);
    NoValuesKept(deletes, k);
    if base {
      assert Remove(deletes, k) == [];
    }
    hide Ascending, NoValues, LowerBound, Has, Lookup, Put, Remove, Cost, Usage;
    forall x
      ensures OwnOf(Put(writes, k, v), Remove(deletes, k), x) == if x == k then Here(v) else OwnOf(writes, deletes, x)
      ensures Has(Put(writes, k, v), x) ==> !Has(Remove(deletes, k), x)
    {
      HasPut(writes, k, v, x);
      HasPut(deletes, k, [], x);
    }
  }

  lemma EraseLayer(writes: seq<Entry>, deletes: seq<Entry>, usage: int, k: Key)
    requires LayerOk(false, writes, deletes, usage)
    ensures LayerOk(false, Remove(writes, k), Put(deletes, k, []), usage - Cost(writes, k) - Cost(deletes, k) + |k|)
    ensures forall x :: OwnOf(Remove(writes, k), Put(deletes, k, []), x) == if x == k then Gone
            else OwnOf(writes, deletes, x)
  {
    PutAscending(deletes, k, []);
    RemoveAscending(writes, k);
    PutUsage(writes, k, []);
    PutUsage(deletes, k, []);
    NoValuesKept(deletes, k);
    hide Ascending, NoValues, LowerBound, Has, Lookup, Put, Remove, Cost, Usage;
    forall x
      ensures OwnOf(Remove(writes, k), Put(deletes, k, []), x) == if x == k then Gone else OwnOf(writes, deletes, x)
      ensures Has(Remove(writes, k), x) ==> !Has(Put(deletes, k, []), x)
    {
      HasPut(writes, k, [], x);
      HasPut(deletes, k, [], x);
    }
  }

  lemma EraseBase(writes: seq<Entry>, deletes: seq<Entry>, usage: int, k: Key)
    requires LayerOk(true, writes, deletes, usage)
    ensures LayerOk(true, Remove(writes, k), deletes, usage)
    ensures forall x :: OwnOf(Remove(writes, k), deletes, x) == if x == k then Below else OwnOf(writes, deletes, x)
  {
    RemoveAscending(writes, k);
    forall x
      ensures OwnOf(Remove(writes, k), deletes, x) == if x == k then Below else OwnOf(writes, deletes, x)
    {
      HasPut(writes, k, [], x);
    }
  }

  lemma Costs(writes: seq<Entry>, deletes: seq<Entry>, k: Key)
    requires NoValues(deletes)
    ensures Has(deletes, k) ==> Put(deletes, k, []) == deletes && Cost(deletes, k) == |k|
    ensures !Has(deletes, k) ==> Remove(deletes, k) == deletes && Cost(deletes, k) == 0
    ensures !Has(writes, k) ==> Remove(writes, k) == writes && Cost(writes, k) == 0
  {
  }

  /** Whether `k` is among the first `n` keys. */
  ghost predicate Among(m: seq<Entry>, n: nat, k: Key)
    requires n <= |m|
  {
    exists j :: 0 <= j < n && m[j].key == k
  }

  lemma AmongAll(m: seq<Entry>, k: Key)
    requires Ascending(m)
    ensures Among(m, |m|, k) <==> Has(m, k)
  {
    if j :| 0 <= j < |m| && m[j].key == k {
      FoundAt(m, j);
    }
  }

  /** The store itself when it has no parent, else a transaction over it or over another transaction. */
  class Store {
    const parent: Store?
    const depth: nat
    var writes: seq<Entry>
    var deletes: seq<Entry>
    var memoryUsage: int
    ghost const Repr: set<Store>

    ghost predicate Valid()
      reads Repr
      decreases depth
    {
      && this in Repr && LayerOk(parent == null, writes, deletes, memoryUsage)
      && (parent != null ==> parent.depth < depth && parent.Repr < Repr && this !in parent.Repr && parent.Valid())
    }

    /** The parent's content, overridden by the writes and without the deletes. */
    ghost function Visible(k: Key): Option<Value>
      requires Valid()
      reads Repr
      decreases depth
    {
      match OwnOf(writes, deletes, k)
      case Gone => None
      case Here(v) => Some(v)
      case Below => if parent == null then None else parent.Visible(k)
    }

    /** The database. */
    constructor Database()
      ensures Valid() && fresh(Repr) && parent == null && forall k :: Visible(k) == None
    {
      parent, depth, writes, deletes, memoryUsage := null, 0, [], [], 0;
      Repr := {this};
    }

    /** An empty transaction. */
    constructor Begin(over: Store)
      requires over.Valid()
      ensures Valid() && fresh(Repr - over.Repr) && parent == over && writes == [] && deletes == []
      ensures forall k :: Visible(k) == over.Visible(k)
    {
      parent, depth, writes, deletes, memoryUsage := over, over.depth + 1, [], [], 0;
      Repr := {this} + over.Repr;
    }

    method Write(k: Key, v: Value)
      requires Valid()
      modifies this
      ensures Valid() && forall x :: Visible(x) == if x == k then Some(v) else old(Visible(x))
    {
      WriteLayer(parent == null, writes, deletes, memoryUsage, k, v);
      Costs(writes, deletes, k);
      hide *;
      var usage, remaining := memoryUsage, deletes;
      if Has(deletes, k) {
        remaining := Remove(deletes, k);
        usage := usage - |k|;
      }
      if Has(writes, k) {
        usage := usage - Cost(writes, k);
      }
      usage := usage + |k| + |v|;
      Install(Put(writes, k, v), remaining, usage, k, Here(v));
    }

    method Erase(k: Key)
      requires Valid()
      modifies this
      ensures Valid() && forall x :: Visible(x) == if x == k then None else old(Visible(x))
    {
      if parent == null {
        EraseBase(writes, deletes, memoryUsage, k);
        hide *;
        Install(Remove(writes, k), deletes, memoryUsage, k, Below);
        return;
      }
      EraseLayer(writes, deletes, memoryUsage, k);
      Costs(writes, deletes, k);
      hide *;
      var usage, remaining, erased := memoryUsage, writes, deletes;
      if Has(writes, k) {
        usage := usage - Cost(writes, k);
        remaining := Remove(writes, k);
      }
      if !Has(deletes, k) {
        erased := Put(deletes, k, []);
        usage := usage + |k|;
      }
      Install(remaining, erased, usage, k, Gone);
    }

    /** Replace the layer by one that differs in what it says about `k`. */
    method Install(w: seq<Entry>, d: seq<Entry>, u: int, k: Key, ghost own: Own)
      requires Valid() && LayerOk(parent == null, w, d, u)
      requires forall x :: OwnOf(w, d, x) == if x == k then own else OwnOf(writes, deletes, x)
      requires own == Below ==> parent == null
      modifies this
      ensures Valid() && forall x :: Visible(x) == if x == k then (if own.Here? then Some(own.value) else None)
              else old(Visible(x))
    {
      hide LayerOk, OwnOf;
      writes, deletes, memoryUsage := w, d, u;
    }

    method Read(k: Key) returns (r: Option<Value>)
      requires Valid()
      ensures r == Visible(k)
      decreases depth
    {
      if Has(deletes, k) {
        return None;
      }
      if Has(writes, k) {
        return Lookup(writes, k);
      }
      if parent == null {
        return None;
      }
      r := parent.Read(k);
    }

    method Exists(k: Key) returns (r: bool)
      requires Valid()
      ensures r <==> Visible(k).Some?
      decreases depth
    {
      if Has(deletes, k) {
        return false;
      }
      if Has(writes, k) {
        return true;
      }
      if parent == null {
        return false;
      }
      r := parent.Exists(k);
    }

    /** Forget the writes and deletes of a transaction. */
    method Clear()
      requires parent != null && parent.Valid() && this !in parent.Repr && this in Repr && parent.Repr < Repr &&
               parent.depth < depth
      modifies this
      ensures Valid() && writes == [] && deletes == [] && memoryUsage == 0
      ensures forall x :: Visible(x) == parent.Visible(x)
      ensures forall x :: parent.Visible(x) == old(parent.Visible(x))
    {
      writes := [];
      deletes := [];
      memoryUsage := 0;
    }

    /** The accounted usage is never negative, so it is always reported as it is. */
    method GetMemoryUsage() returns (r: int)
      requires Valid() && parent != null
      ensures r == Usage(writes) + Usage(deletes) >= 0
    {
      UsageNotNegative(writes);
      UsageNotNegative(deletes);
      r := if memoryUsage < 0 then 0 else memoryUsage;
    }

    /** Commit hands everything to the parent: what the parent shows afterwards is what the transaction showed. */
    method Commit()
      requires Valid() && parent != null
      modifies this, parent
      ensures Valid() && writes == [] && deletes == [] && memoryUsage == 0
      ensures forall x :: parent.Visible(x) == old(Visible(x))
      ensures forall x :: Visible(x) == old(Visible(x))
    {
      EraseAll();
      label erased:
      WriteAll();
      forall x
        ensures parent.Visible(x) == old(Visible(x))
      {
        AmongAll(deletes, x);
        AmongAll(writes, x);
      }
      Clear();
    }

    method EraseAll()
      requires Valid() && parent != null
      modifies parent
      ensures Valid()
      ensures forall x :: parent.Visible(x) == if Among(deletes, |deletes|, x) then None else old(parent.Visible(x))
    {
      hide LayerOk, OwnOf;
      for i := 0 to |deletes|
        invariant parent.Valid()
        invariant forall x :: parent.Visible(x) == if Among(deletes, i, x) then None else old(parent.Visible(x))
      {
        parent.Erase(deletes[i].key);
      }
    }

    method WriteAll()
      requires Valid() && parent != null
      modifies parent
      ensures Valid()
      ensures forall x :: parent.Visible(x) == if Among(writes, |writes|, x) then Lookup(writes, x)
              else old(parent.Visible(x))
    {
      assert Ascending(writes);
      hide LayerOk, OwnOf, Lookup;
      for i := 0 to |writes|
        invariant parent.Valid()
        invariant forall x :: parent.Visible(x) == if Among(writes, i, x) then Lookup(writes, x)
                  else old(parent.Visible(x))
      {
        FoundAt(writes, i);
        parent.Write(writes[i].key, writes[i].value);
      }
    }
  }

  lemma {:induction false} UsageNotNegative(m: seq<Entry>)
    ensures Usage(m) >= 0
  {
    if m != [] {
      UsageNotNegative(m[1..]);
    }
  }

  // ---------------------------------------------------------------------------------------------
  // Merging ascending keys
  // ---------------------------------------------------------------------------------------------

  ghost predicate KeysAscend(ks: seq<Key>) {
    forall i, j :: 0 <= i < j < |ks| ==> Less(ks[i], ks[j])
  }

  ghost function KeysFrom(m: seq<Entry>, pos: nat): (r: seq<Key>)
    requires pos <= |m|
    ensures |r| == |m| - pos && forall i :: 0 <= i < |r| ==> r[i] == m[pos + i].key
  {
    seq(|m| - pos, i requires 0 <= i < |m| - pos => m[pos + i].key)
  }

  predicate Kept(k: Key, writes: seq<Entry>, deletes: seq<Entry>) { !Has(deletes, k) && !Has(writes, k) }

  /** The parent's keys that the layer leaves alone. */
  ghost function KeptKeys(ks: seq<Key>, writes: seq<Entry>, deletes: seq<Entry>): seq<Key> {
    if ks == [] then []
    else if Kept(ks[0], writes, deletes) then [ks[0]] + KeptKeys(ks[1..], writes, deletes)
    else KeptKeys(ks[1..], writes, deletes)
  }

  ghost function Merge(a: seq<Key>, b: seq<Key>): seq<Key>
    decreases |a| + |b|
  {
    if a == [] then b
    else if b == [] then a
    else if Less(b[0], a[0]) then [b[0]] + Merge(a, b[1..])
    else [a[0]] + Merge(a[1..], b)
  }

  lemma {:induction false} KeptMembers(ks: seq<Key>, writes: seq<Entry>, deletes: seq<Entry>, k: Key)
    ensures k in KeptKeys(ks, writes, deletes) <==> k in ks && Kept(k, writes, deletes)
  {
    hide Kept;
    if ks != [] {
      KeptMembers(ks[1..], writes, deletes, k);
      assert ks == [ks[0]] + ks[1..];
    }
  }

  lemma {:induction false} KeptAscend(ks: seq<Key>, writes: seq<Entry>, deletes: seq<Entry>)
    requires KeysAscend(ks)
    ensures KeysAscend(KeptKeys(ks, writes, deletes))
  {
    hide Kept;
    if ks != [] {
      var rest := KeptKeys(ks[1..], writes, deletes);
      KeptAscend(ks[1..], writes, deletes);
      forall i | 0 <= i < |rest|
        ensures Less(ks[0], rest[i])
      {
        KeptMembers(ks[1..], writes, deletes, rest[i]);
        var j :| 0 <= j < |ks[1..]| && ks[1..][j] == rest[i];
        assert Less(ks[0], ks[j + 1]);
      }
    }
  }

  lemma {:induction false} MergeMembers(a: seq<Key>, b: seq<Key>, k: Key)
    ensures k in Merge(a, b) <==> k in a || k in b
    decreases |a| + |b|
  {
    if a != [] && b != [] {
      if Less(b[0], a[0]) {
        MergeMembers(a, b[1..], k);
        assert b == [b[0]] + b[1..];
      } else {
        MergeMembers(a[1..], b, k);
        assert a == [a[0]] + a[1..];
      }
    }
  }

  ghost predicate Above(ks: seq<Key>, k: Key) { forall i :: 0 <= i < |ks| ==> Less(k, ks[i]) }

  lemma MergeAbove(a: seq<Key>, b: seq<Key>, k: Key)
    requires Above(a, k) && Above(b, k)
    ensures Above(Merge(a, b), k)
  {
  }

  lemma {:induction false} MergeAscend(a: seq<Key>, b: seq<Key>)
    requires KeysAscend(a) && KeysAscend(b) && forall k :: k in a ==> k !in b
    ensures KeysAscend(Merge(a, b))
    decreases |a| + |b|
  {
    if a != [] && b != [] {
      if Less(b[0], a[0]) {
        MergeAscend(a, b[1..]);
        AboveFirst(a, b[0]);
        MergeAbove(a, b[1..], b[0]);
      } else {
        MergeAscend(a[1..], b);
        Ordered(b[0], a[0], a[0]);
        assert a[0] in a && b[0] in b;
        AboveFirst(b, a[0]);
        MergeAbove(a[1..], b, a[0]);
      }
    }
  }

  lemma AboveFirst(ks: seq<Key>, k: Key)
    requires KeysAscend(ks) && ks != [] && Less(k, ks[0])
    ensures Above(ks, k)
  {
    forall i | 0 <= i < |ks|
      ensures Less(k, ks[i])
    {
      if i > 0 {
        LessTransitive(k, ks[0], ks[i]);
      }
    }
  }

  /** The keys from `from` on of everything visible, in order. */
  ghost predicate Walks(ks: seq<Key>, store: Store, from: Key)
    requires store.Valid()
    reads store.Repr
  {
    KeysAscend(ks) && forall k :: k in ks <==> !Less(k, from) && store.Visible(k).Some?
  }

  ghost predicate WalksOwn(ks: seq<Key>, m: seq<Entry>, from: Key) {
    KeysAscend(ks) && forall k :: k in ks <==> !Less(k, from) && Has(m, k)
  }

  lemma KeptStep(ks: seq<Key>, writes: seq<Entry>, deletes: seq<Entry>)
    ensures ks != [] && !Kept(ks[0], writes, deletes) ==>
            KeptKeys(ks, writes, deletes) == KeptKeys(ks[1..], writes, deletes)
  {
  }

  lemma LowerBoundWalks(m: seq<Entry>, from: Key)
    requires Ascending(m)
    ensures WalksOwn(KeysFrom(m, LowerBound(m, from)), m, from)
  {
    hide LowerBound, Less, Has, KeysFrom;
    var p := LowerBound(m, from);
    var ks := KeysFrom(m, p);
    forall k
      ensures k in ks <==> !Less(k, from) && Has(m, k)
    {
      if k in ks {
        var i :| 0 <= i < |ks| && ks[i] == k;
        FromIsFound(m, from, p + i);
      }
      if Has(m, k) && !Less(k, from) {
        FoundIsFrom(m, from, k);
      }
    }
  }

  lemma FromIsFound(m: seq<Entry>, from: Key, i: nat)
    requires Ascending(m) && LowerBound(m, from) <= i < |m|
    ensures Has(m, m[i].key) && !Less(m[i].key, from)
  {
    FoundAt(m, i);
    var p := LowerBound(m, from);
    if i > p && Less(m[i].key, from) {
      LessTransitive(m[p].key, m[i].key, from);
    }
  }

  lemma FoundIsFrom(m: seq<Entry>, from: Key, k: Key)
    requires Has(m, k) && !Less(k, from)
    ensures k in KeysFrom(m, LowerBound(m, from))
  {
    var p, j := LowerBound(m, from), LowerBound(m, k);
    hide LowerBound, Less;
    assert j >= p;
    hide KeysFrom;
    assert KeysFrom(m, p)[j - p] == k;
  }

  lemma BaseWalks(store: Store, ks: seq<Key>, from: Key)
    requires store.Valid() && store.parent == null && WalksOwn(ks, store.writes, from)
    ensures Walks(ks, store, from)
  {
  }

  /** The merge of the kept parent keys with the own ones walks through the whole view. */
  lemma MergeWalks(store: Store, parentKeys: seq<Key>, ownKeys: seq<Key>, from: Key)
    requires store.Valid() && store.parent != null
    requires Walks(parentKeys, store.parent, from) && WalksOwn(ownKeys, store.writes, from)
    ensures Walks(Merge(KeptKeys(parentKeys, store.writes, store.deletes), ownKeys), store, from)
  {
    var kept := KeptKeys(parentKeys, store.writes, store.deletes);
    KeptAscend(parentKeys, store.writes, store.deletes);
    hide Less, Merge, KeptKeys, Has, KeysAscend;
    forall k
      ensures k in Merge(kept, ownKeys) <==> !Less(k, from) && store.Visible(k).Some?
      ensures k in kept ==> k !in ownKeys
    {
      KeptMembers(parentKeys, store.writes, store.deletes, k);
      MergeMembers(kept, ownKeys, k);
    }
    MergeAscend(kept, ownKeys);
  }

  // ---------------------------------------------------------------------------------------------
  // The iterator
  // ---------------------------------------------------------------------------------------------

  class Cursor {
    const store: Store
    const parentIt: Cursor?
    var pos: nat
    var parentKey: Key
    var curIsParent: bool
    ghost const Repr: set<Cursor>

    /** The two positions are within bounds, on this level and below. */
    ghost predicate Ok()
      reads Repr, store.Repr
      decreases store.depth, 0
    {
      && this in Repr && store.Valid() && pos <= |store.writes|
      && (parentIt == null <==> store.parent == null)
      && (parentIt != null ==>
            && parentIt.store == store.parent && parentIt.store.depth < store.depth && parentIt.Repr < Repr &&
              this !in parentIt.Repr
            && parentIt.Ok() && parentIt.Settled())
    }

    /** The keys still to come. */
    ghost function Rest(): seq<Key>
      requires Ok()
      reads Repr, store.Repr
      decreases store.depth, 1
    {
      if parentIt == null then KeysFrom(store.writes, pos)
      else Merge(KeptKeys(parentIt.Rest(), store.writes, store.deletes), KeysFrom(store.writes, pos))
    }

    /** The parent cursor stands on a key this layer keeps, and the smaller of the two keys is the current one. */
    ghost predicate Settled()
      requires Ok()
      reads Repr, store.Repr
      decreases store.depth, 3
    {
      parentIt != null ==>
        && Skipped()
        && (parentIt.Rest() != [] || pos < |store.writes| ==>
              (curIsParent <==>
                  parentIt.Rest() != [] && (pos < |store.writes| ==> !Less(store.writes[pos].key, parentKey))))
    }

    ghost predicate Skipped()
      requires Ok() && parentIt != null
      reads Repr, store.Repr
      decreases store.depth, 2
    {
      parentIt.Rest() != [] ==> parentKey == parentIt.Rest()[0] && Kept(parentKey, store.writes, store.deletes)
    }

    constructor (s: Store)
      requires s.Valid()
      ensures Ok() && Settled() && Rest() == [] && store == s && fresh(Repr)
      decreases s.depth
    {
      store := s;
      pos := |s.writes|;
      parentKey := [];
      curIsParent := false;
      if s.parent == null {
        parentIt := null;
        Repr := {this};
      } else {
        var p := new Cursor(s.parent);
        parentIt := p;
        Repr := {this} + p.Repr;
      }
    }

    method IsValid() returns (r: bool)
      requires Ok() && Settled()
      ensures r <==> Rest() != []
      decreases store.depth
    {
      r := pos < |store.writes|;
      if !r && parentIt != null {
        r := parentIt.IsValid();
        HeadKept(this);
      }
    }

    /** The current key is the first of those to come. */
    method GetKey() returns (k: Key)
      requires Ok() && Settled()
      ensures k == if Rest() == [] then [] else Rest()[0]
      decreases store.depth
    {
      var valid := IsValid();
      if !valid {
        return [];
      }
      if parentIt == null {
        return store.writes[pos].key;
      }
      MergeHead(this);
      return if curIsParent then parentKey else store.writes[pos].key;
    }

    method GetValue() returns (r: Option<Value>)
      requires Ok() && Settled()
      ensures r == if Rest() == [] then None else store.Visible(Rest()[0])
    {
      hide Merge, KeptKeys, Kept, KeysFrom, Less, Has;
      var valid := IsValid();
      if !valid {
        return None;
      }
      var k := GetKey();
      r := store.Read(k);
    }

    method DecideCur()
      requires Ok() && parentIt != null && Skipped()
      modifies this`curIsParent
      ensures Ok() && Settled() && Rest() == old(Rest())
    {
      hide Store.Valid, LayerOk, Less, Has, Merge, KeptKeys, Kept, KeysFrom;
      var parentValid := parentIt.IsValid();
      if pos < |store.writes| && !parentValid {
        curIsParent := false;
      } else if pos == |store.writes| && parentValid {
        curIsParent := true;
      } else if pos < |store.writes| && parentValid {
        curIsParent := !Less(store.writes[pos].key, parentKey);
      }
    }

    /** Pass over the parent keys that this layer deletes or overwrites. */
    method SkipDeletedAndOverwritten()
      requires Ok() && parentIt != null
      modifies Repr
      ensures Ok() && Skipped() && pos == old(pos)
      ensures KeptKeys(parentIt.Rest(), store.writes, store.deletes) ==
              old(KeptKeys(parentIt.Rest(), store.writes, store.deletes))
      decreases store.depth, 1
    {
      hide KeptKeys, Merge, Kept, KeysFrom, Store.Valid, LayerOk;
      var done := false;
      while !done
        invariant Ok() && pos == old(pos) && (done ==> Skipped())
        invariant KeptKeys(parentIt.Rest(), store.writes, store.deletes) ==
                  old(KeptKeys(parentIt.Rest(), store.writes, store.deletes))
        decreases |parentIt.Rest()|, !done
      {
        done := SkipOne();
      }
    }

    method SkipOne() returns (done: bool)
      requires Ok() && parentIt != null
      modifies Repr
      ensures Ok() && pos == old(pos) && (done ==> Skipped()) && |parentIt.Rest()| <= old(|parentIt.Rest()|)
      ensures !done ==> |parentIt.Rest()| < old(|parentIt.Rest()|)
      ensures KeptKeys(parentIt.Rest(), store.writes, store.deletes) ==
              old(KeptKeys(parentIt.Rest(), store.writes, store.deletes))
      decreases store.depth, 0
    {
      hide Store.Valid, LayerOk, Less, Merge, KeysFrom, Has, KeptKeys, Kept;
      var valid := parentIt.IsValid();
      if !valid {
        return true;
      }
      KeptStep(parentIt.Rest(), store.writes, store.deletes);
      PeekParent();
      if Kept(parentKey, store.writes, store.deletes) {
        return true;
      }
      parentIt.Next();
      return false;
    }

    method PeekParent()
      requires Ok() && parentIt != null && parentIt.Rest() != []
      modifies this`parentKey
      ensures Ok() && parentIt.Rest() == old(parentIt.Rest()) && parentKey == parentIt.Rest()[0]
    {
      hide Store.Valid, LayerOk, Less, Merge, KeysFrom, Has, KeptKeys, Kept;
      parentKey := parentIt.GetKey();
    }

    /** Exactly one key is passed. */
    method Next()
      requires Ok() && Settled()
      modifies Repr
      ensures Ok() && Settled() && Rest() == if old(Rest()) == [] then [] else old(Rest())[1..]
      decreases store.depth, 3
    {
      hide Store.Valid, LayerOk, Less, Has;
      var valid := IsValid();
      if !valid {
        return;
      }
      if parentIt == null {
        pos := pos + 1;
        return;
      }
      ghost var rest := Rest();
      MergeHead(this);
      if curIsParent {
        NextParent(rest[1..]);
      } else {
        NextOwn(rest[1..]);
      }
      hide *;
      DecideCur();
    }

    method NextOwn(ghost rest: seq<Key>)
      requires Ok() && Settled() && parentIt != null && pos < |store.writes|
      requires rest == Merge(KeptKeys(parentIt.Rest(), store.writes, store.deletes), KeysFrom(store.writes, pos + 1))
      modifies Repr
      ensures Ok() && Skipped() && Rest() == rest
    {
      hide KeptKeys, Merge, Kept, KeysFrom, Store.Valid, LayerOk, Less, Has;
      pos := pos + 1;
    }

    method NextParent(ghost rest: seq<Key>)
      requires Ok() && Settled() && parentIt != null && parentIt.Rest() != []
      requires rest == Merge(KeptKeys(parentIt.Rest()[1..], store.writes, store.deletes), KeysFrom(store.writes, pos))
      modifies Repr
      ensures Ok() && Skipped() && Rest() == rest
      decreases store.depth, 2
    {
      hide KeptKeys, Merge, Kept, KeysFrom;
      parentIt.Next();
      SkipDeletedAndOverwritten();
    }

    /** Both positions are at `from`: find the first key to show. */
    method Settle(ghost from: Key)
      requires Ok() && parentIt != null
      requires Walks(parentIt.Rest(), parentIt.store, from) && WalksOwn(KeysFrom(store.writes, pos), store.writes, from)
      modifies Repr
      ensures Ok() && Settled() && Walks(Rest(), store, from)
      decreases store.depth, 4
    {
      hide KeptKeys, Merge, Kept, KeysFrom, Less, Has, LowerBound, LayerOk, Walks, WalksOwn;
      MergeWalks(store, parentIt.Rest(), KeysFrom(store.writes, pos), from);
      SkipDeletedAndOverwritten();
      DecideCur();
    }

    /** Afterwards every visible key is to come, in order: the empty key is the least. */
    method SeekToFirst()
      requires Ok()
      modifies Repr
      ensures Ok() && Settled() && Walks(Rest(), store, [])
      decreases store.depth
    {
      LowerBoundWalks(store.writes, []);
      assert LowerBound(store.writes, []) == 0;
      pos := 0;
      hide KeptKeys, Merge, Kept, KeysFrom, Less, Has, LowerBound, LayerOk, Walks, WalksOwn;
      if parentIt == null {
        BaseWalks(store, KeysFrom(store.writes, pos), []);
      } else {
        parentIt.SeekToFirst();
        Settle([]);
      }
    }

    /** Afterwards the keys to come are exactly the visible ones from `key` on, in order. */
    method Seek(key: Key)
      requires Ok()
      modifies Repr
      ensures Ok() && Settled() && Walks(Rest(), store, key)
      decreases store.depth
    {
      LowerBoundWalks(store.writes, key);
      pos := LowerBound(store.writes, key);
      hide KeptKeys, Merge, Kept, KeysFrom, Less, Has, LowerBound, LayerOk, Walks, WalksOwn;
      if parentIt == null {
        BaseWalks(store, KeysFrom(store.writes, pos), key);
      } else {
        parentIt.Seek(key);
        Settle(key);
      }
    }
  }

  /** A whole pass of the iterator: every visible key from `from` on, once, in order, with its value. */
  method Collect(store: Store, from: Key) returns (keys: seq<Key>, values: seq<Option<Value>>)
    requires store.Valid()
    ensures Walks(keys, store, from) && |values| == |keys|
    ensures forall i :: 0 <= i < |keys| ==> values[i] == store.Visible(keys[i]) && values[i].Some?
  {
    var c := new Cursor(store);
    c.Seek(from);
    hide *;
    keys, values := Drain(c);
    WalkVisible(keys, store, from);
  }

  lemma WalkVisible(keys: seq<Key>, store: Store, from: Key)
    requires store.Valid() && Walks(keys, store, from)
    ensures forall i :: 0 <= i < |keys| ==> store.Visible(keys[i]).Some?
  {
  }

  method Drain(c: Cursor) returns (keys: seq<Key>, values: seq<Option<Value>>)
    requires c.Ok() && c.Settled() && c.store.Valid()
    modifies c.Repr
    ensures c.store.Valid() && keys == old(c.Rest()) && |values| == |keys|
    ensures forall i :: 0 <= i < |keys| ==> values[i] == c.store.Visible(keys[i])
  {
    hide *;
    keys, values := [], [];
    while true
      invariant c.Ok() && c.Settled() && c.store.Valid()
      invariant old(c.Rest()) == keys + c.Rest() && |values| == |keys|
      invariant forall i :: 0 <= i < |keys| ==> values[i] == c.store.Visible(keys[i])
      decreases |c.Rest()|
    {
      var valid := c.IsValid();
      if !valid {
        break;
      }
      var k, v := TakeOne(c);
      keys, values := keys + [k], values + [v];
    }
  }

  method TakeOne(c: Cursor) returns (k: Key, v: Option<Value>)
    requires c.Ok() && c.Settled() && c.Rest() != [] && c.store.Valid()
    modifies c.Repr
    ensures c.Ok() && c.Settled() && c.store.Valid() && old(c.Rest()) == [k] + c.Rest() && v == c.store.Visible(k)
    ensures forall x :: c.store.Visible(x) == old(c.store.Visible(x))
  {
    hide *;
    k := c.GetKey();
    v := c.GetValue();
    c.Next();
  }

  lemma HeadKept(c: Cursor)
    requires c.Ok() && c.Settled() && c.parentIt != null
    ensures c.parentIt.Rest() == [] <==> KeptKeys(c.parentIt.Rest(), c.store.writes, c.store.deletes) == []
    ensures c.parentIt.Rest() != [] ==>
              KeptKeys(c.parentIt.Rest(), c.store.writes, c.store.deletes)
              == [c.parentKey] + KeptKeys(c.parentIt.Rest()[1..], c.store.writes, c.store.deletes)
  {
  }

  /** What the choice between the two cursors means for the keys to come. */
  lemma MergeHead(c: Cursor)
    requires c.Ok() && c.Settled() && c.parentIt != null && c.Rest() != []
    ensures c.curIsParent ==>
              && c.parentIt.Rest() != []
              && c.Rest() == [c.parentKey] + Merge(KeptKeys(c.parentIt.Rest()[1..], c.store.writes, c.store.deletes),
                                                   KeysFrom(c.store.writes, c.pos))
    ensures !c.curIsParent ==>
              && c.pos < |c.store.writes|
              && c.Rest() == [c.store.writes[c.pos].key]
                             + Merge(KeptKeys(c.parentIt.Rest(), c.store.writes, c.store.deletes),
                                     KeysFrom(c.store.writes, c.pos + 1))
  {
    HeadKept(c);
    var own := KeysFrom(c.store.writes, c.pos);
    if c.pos < |c.store.writes| {
      assert own == [c.store.writes[c.pos].key] + KeysFrom(c.store.writes, c.pos + 1);
    }
  }
}
