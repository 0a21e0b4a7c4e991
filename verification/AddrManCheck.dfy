/** The consistency check of the address manager, as the code that walks all structures and returns a number,
  * and what it accepts. */
module AddrManCheck {
  import opened AddrMan
  import opened Basics

  // ---------------------------------------------------------------------------------------------
  // The entries
  // ---------------------------------------------------------------------------------------------

  /** What looking up an address in the index yields; a missing one is entered with the value 0. */
  function Indexed(mapAddr: map<Service, int>, addr: Service): int {
    if addr in mapAddr then mapAddr[addr] else 0
  }

  /** An entry that passes the tests made on it alone. */
  ghost predicate EntryOk(info: Info, n: int, mapAddr: map<Service, int>, vRandom: seq<int>) {
    && (if info.fInTried then info.nLastSuccess != 0 && info.nRefCount == 0
        else 1 <= info.nRefCount <= NEW_BUCKETS_PER_ADDRESS)
    && Indexed(mapAddr, info.addr) == n
    && 0 <= info.nRandomPos < |vRandom| && vRandom[info.nRandomPos] == n
    && info.nLastTry >= 0 && info.nLastSuccess >= 0
  }

  ghost predicate EntriesOk(m: InfoMap, mapAddr: map<Service, int>, vRandom: seq<int>) {
    forall n :: n in m ==> EntryOk(m[n], n, mapAddr, vRandom)
  }

  /** The index with some addresses of entries entered as 0. */
  ghost predicate ZerosAdded(m: InfoMap, was: map<Service, int>, now: map<Service, int>) {
    && (forall a :: a in was ==> a in now && now[a] == was[a])
    && (forall a :: a in now && a !in was ==> now[a] == 0 && exists n :: n in m && m[n].addr == a)
  }

  /** A list of all ids, each once. */
  ghost predicate Lists(order: seq<int>, m: InfoMap) {
    && (forall k :: 0 <= k < |order| ==> order[k] in m)
    && (forall id :: id in m ==> id in order)
    && (forall j, k :: 0 <= j < k < |order| ==> order[j] != order[k])
  }

  ghost predicate Gathered(m: InfoMap, order: seq<int>, k: nat, setTried: set<int>, mapNew: map<int, int>)
    requires k <= |order|
  {
    && (forall id :: id in setTried <==> id in order[..k] && id in m && m[id].fInTried)
    && (forall id :: id in mapNew <==> id in order[..k] && id in m && !m[id].fInTried)
    && (forall id :: id in mapNew ==> id in m && mapNew[id] == m[id].nRefCount)
  }

  lemma GatheredNext(m: InfoMap, order: seq<int>, k: nat, setTried: set<int>, mapNew: map<int, int>)
    requires k < |order| && order[k] in m && Gathered(m, order, k, setTried, mapNew)
    ensures var n := order[k];
            if m[n].fInTried then Gathered(m, order, k + 1, setTried + {n}, mapNew)
            else Gathered(m, order, k + 1, setTried, mapNew[n := m[n].nRefCount])
  {
    assert order[..k + 1] == order[..k] + [order[k]];
  }

  /** The loop over all entries, in any order. */
  method CheckEntries(am: AddrManager, order: seq<int>) returns (code: int, setTried: set<int>, mapNew: map<int, int>)
    requires Lists(order, am.mapInfo)
    modifies am`mapAddr
    ensures ZerosAdded(am.mapInfo, old(am.mapAddr), am.mapAddr)
    ensures code == 0 <==> EntriesOk(am.mapInfo, old(am.mapAddr), am.vRandom)
    ensures code == 0 ==> Gathered(am.mapInfo, order, |order|, setTried, mapNew)
  {
    setTried, mapNew := {}, map[];
    hide ZerosAdded, EntryOk, Gathered;
    NoneGathered(am.mapInfo, order, am.mapAddr);
    for k := 0 to |order|
      invariant ZerosAdded(am.mapInfo, old(am.mapAddr), am.mapAddr) && Gathered(am.mapInfo, order, k, setTried, mapNew)
      invariant forall j :: 0 <= j < k ==> EntryOk(am.mapInfo[order[j]], order[j], old(am.mapAddr), am.vRandom)
    {
      var n := order[k];
      GatheredNext(am.mapInfo, order, k, setTried, mapNew);
      code := CheckEntry(am, n, am.mapInfo[n], old(am.mapAddr));
      if code != 0 {
        return;
      }
      if am.mapInfo[n].fInTried {
        setTried := setTried + {n};
      } else {
        mapNew := mapNew[n := am.mapInfo[n].nRefCount];
      }
    }
    code := 0;
  }

  lemma NoneGathered(m: InfoMap, order: seq<int>, mapAddr: map<Service, int>)
    ensures Gathered(m, order, 0, {}, map[]) && ZerosAdded(m, mapAddr, mapAddr)
  {
  }

  /** The tests on one entry, in the order of the code. */
  method CheckEntry(am: AddrManager, n: int, info: Info, ghost was: map<Service, int>) returns (code: int)
    requires n in am.mapInfo && am.mapInfo[n] == info && ZerosAdded(am.mapInfo, was, am.mapAddr)
    modifies am`mapAddr
    ensures ZerosAdded(am.mapInfo, was, am.mapAddr)
    ensures code == 0 <==> EntryOk(info, n, was, am.vRandom)
    ensures code in {0, -1, -2, -3, -4, -5, -14, -6, -8}
    ensures code == -1 ==> info.fInTried && info.nLastSuccess == 0
    ensures code == -2 ==> info.fInTried && info.nRefCount != 0
    ensures code == -4 ==> !info.fInTried && info.nRefCount == 0
    ensures code == -5 ==> Indexed(was, info.addr) != n
  {
    if info.fInTried {
      if info.nLastSuccess == 0 {
        return -1;
      }
      if info.nRefCount != 0 {
        return -2;
      }
    } else {
      if info.nRefCount < 0 || info.nRefCount > NEW_BUCKETS_PER_ADDRESS {
        return -3;
      }
      if info.nRefCount == 0 {
        return -4;
      }
    }
    if info.addr !in am.mapAddr {
      am.mapAddr := am.mapAddr[info.addr := 0];
    }
    if am.mapAddr[info.addr] != n {
      return -5;
    }
    if info.nRandomPos < 0 || info.nRandomPos >= |am.vRandom| || am.vRandom[info.nRandomPos] != n {
      return -14;
    }
    if info.nLastTry < 0 {
      return -6;
    }
    if info.nLastSuccess < 0 {
      return -8;
    }
    return 0;
  }

  // ---------------------------------------------------------------------------------------------
  // The tried table
  // ---------------------------------------------------------------------------------------------

  ghost predicate TriedSlotOk(env: Env, m: InfoMap, v: seq<int>, i: int)
    requires 0 <= i < |v|
  {
    v[i] == -1 || (v[i] in m && m[v[i]].fInTried && i == TriedSlot(env, m[v[i]].addr))
  }

  /** After `n` good slots the ids not yet seen are left. */
  ghost predicate TriedLeftOver(env: Env, m: InfoMap, v: seq<int>, n: nat, left: set<int>)
    requires n <= |v|
  {
    && (forall i :: 0 <= i < n ==> TriedSlotOk(env, m, v, i))
    && (forall id :: id in left <==> id in TriedIds(m) && (id == -1 || id !in v[..n]))
  }

  lemma TriedLeftNone(env: Env, m: InfoMap, v: seq<int>)
    ensures TriedLeftOver(env, m, v, 0, TriedIds(m))
  {
  }

  lemma TriedLeftNext(env: Env, m: InfoMap, v: seq<int>, n: nat, left: set<int>)
    requires n < |v| && TriedLeftOver(env, m, v, n, left)
    ensures v[n] == -1 ==> TriedLeftOver(env, m, v, n + 1, left)
    ensures v[n] != -1 && v[n] !in left ==> !TriedSlotOk(env, m, v, n)
    ensures v[n] != -1 && v[n] in left ==>
              v[n] in m && (TriedSlotOk(env, m, v, n) <==> n == TriedSlot(env, m[v[n]].addr))
              && (TriedSlotOk(env, m, v, n) ==> TriedLeftOver(env, m, v, n + 1, left - {v[n]}))
  {
    hide TriedSlot;
    assert v[..n + 1] == v[..n] + [v[n]];
    if v[n] != -1 && v[n] !in left && v[n] in TriedIds(m) {
      var j :| 0 <= j < n && v[j] == v[n];
      assert TriedSlotOk(env, m, v, j);
    }
  }

  lemma SlotParts(n: nat, i: nat, b: int, p: int)
    requires i < BUCKET_SIZE && 0 <= p < BUCKET_SIZE
    ensures Slot(n, i) == Slot(b, p) <==> n == b && i == p
    ensures Slot(n, i) / BUCKET_SIZE == n
  {
  }

  /** The loops over the tried table. */
  method CheckTried(am: AddrManager, setTried: set<int>) returns (code: int, left: set<int>)
    requires |am.vvTried| == TRIED_BUCKET_COUNT * BUCKET_SIZE && setTried == TriedIds(am.mapInfo)
    ensures code == 0 <==> forall i :: 0 <= i < |am.vvTried| ==> TriedSlotOk(am.env, am.mapInfo, am.vvTried, i)
    ensures code == 0 ==> TriedLeftOver(am.env, am.mapInfo, am.vvTried, |am.vvTried|, left)
  {
    left := setTried;
    TriedLeftNone(am.env, am.mapInfo, am.vvTried);
    hide TriedLeftOver, TriedSlotOk, TriedIds;
    for n := 0 to TRIED_BUCKET_COUNT
      invariant TriedLeftOver(am.env, am.mapInfo, am.vvTried, Slot(n, 0), left)
    {
      for i := 0 to BUCKET_SIZE
        invariant TriedLeftOver(am.env, am.mapInfo, am.vvTried, Slot(n, i), left)
      {
        var x := am.vvTried[Slot(n, i)];
        TriedLeftNext(am.env, am.mapInfo, am.vvTried, Slot(n, i), left);
        if x != -1 {
          if x !in left {
            return -11, left;
          }
          var addr := am.mapInfo[x].addr;
          SlotParts(n, i, am.env.triedBucket(addr), am.env.position(addr, false, am.env.triedBucket(addr)));
          if am.env.triedBucket(addr) != n {
            return -17, left;
          }
          if am.env.position(addr, false, n) != i {
            return -18, left;
          }
          left := left - {x};
        }
      }
    }
    AllSlotsOk(am.env, am.mapInfo, am.vvTried, left);
    code := 0;
  }

  lemma AllSlotsOk(env: Env, m: InfoMap, v: seq<int>, left: set<int>)
    requires TriedLeftOver(env, m, v, |v|, left)
    ensures forall i :: 0 <= i < |v| ==> TriedSlotOk(env, m, v, i)
  {
  }

  // ---------------------------------------------------------------------------------------------
  // The new table
  // ---------------------------------------------------------------------------------------------

  ghost predicate NewSlotOk(env: Env, m: InfoMap, v: seq<int>, i: int)
    requires 0 <= i < |v|
  {
    || v[i] == -1
    || (&& v[i] in m && !m[v[i]].fInTried
        && i == NewSlot(env, m[v[i]].addr, (i / BUCKET_SIZE) % NEW_BUCKET_COUNT))
  }

  /** After `n` good slots each new id has as many references left as it has not been seen. */
  ghost predicate NewLeftOver(env: Env, m: InfoMap, v: seq<int>, n: nat, left: map<int, int>)
    requires n <= |v|
  {
    && (forall i :: 0 <= i < n ==> NewSlotOk(env, m, v, i))
    && (forall id :: id in NewIds(m) ==> |SlotsOf(v[..n], id)| <= m[id].nRefCount)
    && (forall id :: id in left <==> id in NewIds(m) && |SlotsOf(v[..n], id)| < m[id].nRefCount)
    && (forall id :: id in left ==> id in m && left[id] == m[id].nRefCount - |SlotsOf(v[..n], id)|)
  }

  lemma SlotsPrefix(v: seq<int>, n: nat, id: int)
    requires n < |v|
    ensures |SlotsOf(v[..n + 1], id)| == |SlotsOf(v[..n], id)| + if v[n] == id then 1 else 0
  {
    var s, t := SlotsOf(v[..n], id), SlotsOf(v[..n + 1], id);
    assert t == if v[n] == id then s + {n} else s;
  }

  lemma NewLeftNone(env: Env, m: InfoMap, v: seq<int>, left: map<int, int>)
    requires left.Keys == NewIds(m) && forall id :: id in left ==>
             id in m && left[id] == m[id].nRefCount && m[id].nRefCount >= 1
    ensures NewLeftOver(env, m, v, 0, left)
  {
    assert forall id :: SlotsOf(v[..0], id) == {};
  }

  lemma NewLeftEmptySlot(env: Env, m: InfoMap, v: seq<int>, n: nat, left: map<int, int>)
    requires n < |v| && NewLeftOver(env, m, v, n, left) && v[n] == -1 && -1 !in m
    ensures NewLeftOver(env, m, v, n + 1, left)
  {
    hide NewSlot, SlotsOf;
    forall id | id in NewIds(m)
      ensures |SlotsOf(v[..n + 1], id)| == |SlotsOf(v[..n], id)|
    {
      SlotsPrefix(v, n, id);
    }
  }

  /** The map after one reference of `x` was counted. */
  function Counted(left: map<int, int>, x: int): map<int, int>
    requires x in left
  {
    if left[x] - 1 == 0 then left - {x} else left[x := left[x] - 1]
  }

  lemma NewLeftNext(env: Env, m: InfoMap, v: seq<int>, n: nat, left: map<int, int>)
    requires n < |v| && NewLeftOver(env, m, v, n, left) && v[n] in left && NewSlotOk(env, m, v, n)
    ensures NewLeftOver(env, m, v, n + 1, Counted(left, v[n]))
  {
    hide NewSlotOk, SlotsOf;
    forall id | id in NewIds(m)
      ensures |SlotsOf(v[..n + 1], id)| == |SlotsOf(v[..n], id)| + if v[n] == id then 1 else 0
    {
      SlotsPrefix(v, n, id);
    }
  }

  /** An id that may not be in this slot is out of place or referenced too often. */
  lemma NewLeftFails(env: Env, m: InfoMap, v: seq<int>, n: nat, left: map<int, int>)
    requires n < |v| && NewLeftOver(env, m, v, n, left) && v[n] != -1 && v[n] !in left
    ensures !NewSlotOk(env, m, v, n) || (v[n] in m && |SlotsOf(v, v[n])| > m[v[n]].nRefCount)
  {
    hide NewSlot, SlotsOf;
    if v[n] in NewIds(m) {
      SlotsPrefix(v, n, v[n]);
      SlotsMore(v, n + 1, v[n]);
    }
  }

  lemma SlotsMore(v: seq<int>, n: nat, id: int)
    requires n <= |v|
    ensures |SlotsOf(v[..n], id)| <= |SlotsOf(v, id)|
  {
    SubsetSize(SlotsOf(v[..n], id), SlotsOf(v, id));
  }

  lemma {:induction false} SubsetSize(a: set<int>, b: set<int>)
    requires a <= b
    ensures |a| <= |b|
  {
    assert b == a + (b - a);
  }

  ghost predicate NewTableOk(env: Env, m: InfoMap, v: seq<int>) {
    && (forall i :: 0 <= i < |v| ==> NewSlotOk(env, m, v, i))
    && (forall id :: id in NewIds(m) ==> |SlotsOf(v, id)| == m[id].nRefCount)
  }

  lemma NewLeftAll(env: Env, m: InfoMap, v: seq<int>, left: map<int, int>)
    requires NewLeftOver(env, m, v, |v|, left)
    ensures left == map[] <==> NewTableOk(env, m, v)
  {
    hide NewSlotOk, SlotsOf;
    assert v[..|v|] == v;
    if left == map[] {
      forall id | id in NewIds(m)
        ensures |SlotsOf(v, id)| == m[id].nRefCount
      {
        assert id !in left;
      }
    }
    if NewTableOk(env, m, v) {
      assert forall id :: id !in left;
    }
  }

  /** The loops over the new table; `left` is empty exactly if all references were found. */
  method CheckNew(am: AddrManager, mapNew: map<int, int>) returns (code: int, left: map<int, int>)
    requires |am.vvNew| == NEW_BUCKET_COUNT * BUCKET_SIZE && -1 !in am.mapInfo
    requires NewLeftOver(am.env, am.mapInfo, am.vvNew, 0, mapNew)
    ensures code == 0 && left == map[] <==> NewTableOk(am.env, am.mapInfo, am.vvNew)
  {
    left := mapNew;
    hide NewLeftOver, NewIds, SlotsOf;
    for n := 0 to NEW_BUCKET_COUNT
      invariant NewLeftOver(am.env, am.mapInfo, am.vvNew, Slot(n, 0), left)
    {
      for i := 0 to BUCKET_SIZE
        invariant NewLeftOver(am.env, am.mapInfo, am.vvNew, Slot(n, i), left)
      {
        var x := am.vvNew[Slot(n, i)];
        if x != -1 {
          if x !in left {
            NewLeftFails(am.env, am.mapInfo, am.vvNew, Slot(n, i), left);
            NotOkThen(am.env, am.mapInfo, am.vvNew, Slot(n, i));
            return -12, left;
          }
          LeftIn(am.env, am.mapInfo, am.vvNew, Slot(n, i), left, x);
          var addr := am.mapInfo[x].addr;
          SlotParts(n, i, n, am.env.position(addr, true, n));
          if am.env.position(addr, true, n) != i {
            NotOkThen(am.env, am.mapInfo, am.vvNew, Slot(n, i));
            return -19, left;
          }
          NewLeftNext(am.env, am.mapInfo, am.vvNew, Slot(n, i), left);
          left := Counted(left, x);
        } else {
          NewLeftEmptySlot(am.env, am.mapInfo, am.vvNew, Slot(n, i), left);
        }
      }
    }
    NewLeftAll(am.env, am.mapInfo, am.vvNew, left);
    code := 0;
  }

  lemma LeftIn(env: Env, m: InfoMap, v: seq<int>, n: nat, left: map<int, int>, x: int)
    requires n <= |v| && NewLeftOver(env, m, v, n, left) && x in left
    ensures x in m && !m[x].fInTried
  {
  }

  lemma NotOkThen(env: Env, m: InfoMap, v: seq<int>, n: nat)
    requires n < |v| && v[n] != -1
    requires !NewSlotOk(env, m, v, n) || (v[n] in m && |SlotsOf(v, v[n])| > m[v[n]].nRefCount)
    ensures !NewTableOk(env, m, v)
  {
    if NewSlotOk(env, m, v, n) {
      assert v[n] in NewIds(m);
    }
  }

  // ---------------------------------------------------------------------------------------------
  // The whole check
  // ---------------------------------------------------------------------------------------------

  /** What the check accepts. */
  ghost predicate Passes(am: AddrManager, mapAddr: map<Service, int>, keyIsNull: bool)
    reads am
  {
    && |am.vRandom| == am.nTried + am.nNew
    && EntriesOk(am.mapInfo, mapAddr, am.vRandom)
    && |TriedIds(am.mapInfo)| == am.nTried && |NewIds(am.mapInfo)| == am.nNew
    && (forall i :: 0 <= i < |am.vvTried| ==> TriedSlotOk(am.env, am.mapInfo, am.vvTried, i))
    && NewTableOk(am.env, am.mapInfo, am.vvNew)
    && (forall id :: id in TriedIds(am.mapInfo) ==> id in am.vvTried)
    && !keyIsNull
  }

  /** Check_. Looking up a missing address enters it, so the index may change even here. */
  method Check(am: AddrManager, order: seq<int>, keyIsNull: bool) returns (code: int)
    requires |am.vvTried| == TRIED_BUCKET_COUNT * BUCKET_SIZE && |am.vvNew| == NEW_BUCKET_COUNT * BUCKET_SIZE
    requires Lists(order, am.mapInfo) && -1 !in am.mapInfo
    modifies am`mapAddr
    ensures ZerosAdded(am.mapInfo, old(am.mapAddr), am.mapAddr)
    ensures code == 0 <==> Passes(am, old(am.mapAddr), keyIsNull)
  {
    hide EntriesOk, ZerosAdded, TriedSlotOk, NewTableOk, TriedLeftOver, NewLeftOver, TriedIds, NewIds, Gathered;
    NoneGathered(am.mapInfo, order, am.mapAddr);
    if |am.vRandom| != am.nTried + am.nNew {
      return -7;
    }
    var setTried, mapNew, left, refs;
    code, setTried, mapNew := CheckEntries(am, order);
    if code != 0 {
      return;
    }
    AllGathered(am.mapInfo, order, setTried, mapNew, old(am.mapAddr), am.vRandom);
    if |setTried| != am.nTried {
      return -9;
    }
    if |mapNew| != am.nNew {
      return -10;
    }
    code, left := CheckTried(am, setTried);
    if code != 0 {
      return;
    }
    NewLeftNone(am.env, am.mapInfo, am.vvNew, mapNew);
    NothingLeftIff(am.env, am.mapInfo, am.vvTried, left);
    code, refs := CheckNew(am, mapNew);
    if code != 0 {
      return;
    }
    if left != {} {
      return -13;
    }
    if refs != map[] {
      return -15;
    }
    if keyIsNull {
      return -16;
    }
    return 0;
  }

  lemma AllGathered(m: InfoMap, order: seq<int>, setTried: set<int>, mapNew: map<int, int>, mapAddr: map<Service, int>,
                    vRandom: seq<int>)
    requires Lists(order, m) && Gathered(m, order, |order|, setTried, mapNew) && EntriesOk(m, mapAddr, vRandom)
    ensures setTried == TriedIds(m) && mapNew.Keys == NewIds(m) && |mapNew| == |NewIds(m)|
    ensures forall id :: id in mapNew ==> id in m && mapNew[id] == m[id].nRefCount && m[id].nRefCount >= 1
  {
    assert order[..|order|] == order;
    assert forall id :: id in setTried <==> id in TriedIds(m);
    assert forall id :: id in mapNew.Keys <==> id in NewIds(m);
    assert |mapNew| == |mapNew.Keys|;
  }

  lemma NothingLeftIff(env: Env, m: InfoMap, v: seq<int>, left: set<int>)
    requires TriedLeftOver(env, m, v, |v|, left) && -1 !in m
    ensures left == {} <==> forall id :: id in TriedIds(m) ==> id in v
  {
    assert v[..|v|] == v;
    hide TriedSlotOk;
    assert forall id :: id in left <==> id in TriedIds(m) && id !in v;
    if forall id :: id in TriedIds(m) ==> id in v {
      assert forall id :: id in left <==> id in {};
    }
  }

  // ---------------------------------------------------------------------------------------------
  // What passing means
  // ---------------------------------------------------------------------------------------------

  /** A consistent manager passes exactly when its key is not null and every entry, but for one with the id 0,
    * has a full address that is its key: the check looks up full addresses, so with ports not told apart it
    * fails on a port. */
  lemma ConsistentPasses(am: AddrManager, keyIsNull: bool)
    requires am.Consistent() && TimesOk(am.mapInfo)
    ensures Passes(am, am.mapAddr, keyIsNull)
            <==> !keyIsNull && forall id :: id in am.mapInfo ==>
              id == 0 || Key(am.env, am.mapInfo[id].addr) == am.mapInfo[id].addr
  {
    TablesPass(am);
    CountsAdd(am.mapInfo, am.vRandom);
    hide RandomOk, NewOk, TriedOk, NewTableOk, TriedSlotOk, NewIds, TriedIds;
    forall id | id in am.mapInfo
      ensures EntryOk(am.mapInfo[id], id, am.mapAddr, am.vRandom)
              <==> id == 0 || Key(am.env, am.mapInfo[id].addr) == am.mapInfo[id].addr
    {
      EntryPasses(am, id);
    }
  }

  lemma EntryPasses(am: AddrManager, id: int)
    requires am.Consistent() && TimesOk(am.mapInfo) && id in am.mapInfo
    ensures EntryOk(am.mapInfo[id], id, am.mapAddr, am.vRandom)
            <==> id == 0 || Key(am.env, am.mapInfo[id].addr) == am.mapInfo[id].addr
  {
    hide TriedOk, NewIds, TriedIds;
    if am.mapInfo[id].fInTried {
      assert SlotsOf(am.vvNew, id) == {};
    }
    IndexedIff(am.env, am.mapInfo, am.mapAddr, id);
  }

  lemma IndexedIff(env: Env, m: InfoMap, mapAddr: map<Service, int>, id: int)
    requires AddrOk(env, m, mapAddr) && id in m
    ensures Indexed(mapAddr, m[id].addr) == id <==> id == 0 || Key(env, m[id].addr) == m[id].addr
  {
    var addr := m[id].addr;
    if addr in mapAddr {
      assert Key(env, m[mapAddr[addr]].addr) == addr;
    }
  }

  lemma TablesPass(am: AddrManager)
    requires am.Consistent()
    ensures forall i :: 0 <= i < |am.vvTried| ==> TriedSlotOk(am.env, am.mapInfo, am.vvTried, i)
    ensures NewTableOk(am.env, am.mapInfo, am.vvNew)
    ensures forall id :: id in TriedIds(am.mapInfo) ==> id in am.vvTried
  {
    hide RandomOk, AddrOk, TriedSlot;
    forall id | id in TriedIds(am.mapInfo)
      ensures id in am.vvTried
    {
      assert am.vvTried[TriedSlot(am.env, am.mapInfo[id].addr)] == id;
    }
  }

  ghost function Elems(v: seq<int>): set<int> { set x | x in v }

  lemma ElemsNext(v: seq<int>, x: int)
    ensures Elems(v + [x]) == Elems(v) + {x}
  {
    assert forall y :: y in Elems(v + [x]) <==> y in Elems(v) + {x};
  }

  lemma {:induction false} ElemsAtMost(v: seq<int>)
    ensures |Elems(v)| <= |v|
  {
    if v != [] {
      var w := v[..|v| - 1];
      ElemsAtMost(w);
      ElemsNext(w, v[|v| - 1]);
      assert v == w + [v[|v| - 1]];
    }
  }

  lemma CountsAdd(m: InfoMap, vRandom: seq<int>)
    requires RandomOk(m, vRandom)
    ensures |vRandom| == |m| == |NewIds(m)| + |TriedIds(m)|
  {
    TwoKinds(m);
    PlacesCount(m, vRandom, |vRandom|);
    assert vRandom[..|vRandom|] == vRandom;
    forall id | id in m
      ensures id in vRandom
    {
      assert vRandom[m[id].nRandomPos] == id;
    }
    assert forall id :: id in m.Keys <==> id in Elems(vRandom);
    assert m.Keys == Elems(vRandom);
  }

  lemma TwoKinds(m: InfoMap)
    ensures |m| == |NewIds(m)| + |TriedIds(m)|
  {
    assert forall id :: id in m.Keys <==> id in NewIds(m) + TriedIds(m);
    assert m.Keys == NewIds(m) + TriedIds(m);
  }

  lemma {:induction false} PlacesCount(m: InfoMap, vRandom: seq<int>, n: nat)
    requires n <= |vRandom| && forall i :: 0 <= i < |vRandom| ==> vRandom[i] in m && m[vRandom[i]].nRandomPos == i
    ensures |Elems(vRandom[..n])| == n
  {
    hide Elems;
    if n == 0 {
      assert vRandom[..n] == [];
      ElemsAtMost([]);
    } else {
      PlacesCount(m, vRandom, n - 1);
      NewPlace(m, vRandom, n - 1);
    }
  }

  lemma NewPlace(m: InfoMap, vRandom: seq<int>, n: nat)
    requires n < |vRandom| && forall i :: 0 <= i < |vRandom| ==> vRandom[i] in m && m[vRandom[i]].nRandomPos == i
    ensures |Elems(vRandom[..n + 1])| == |Elems(vRandom[..n])| + 1
  {
    var w, x := vRandom[..n], vRandom[n];
    forall i | 0 <= i < n
      ensures w[i] != x
    {
      assert m[vRandom[i]].nRandomPos == i;
    }
    assert x !in Elems(w);
    ElemsNext(w, x);
    assert vRandom[..n + 1] == w + [x];
  }

  /** Conversely, with ids in range and the index right, a manager that passes is consistent, and so are its times. */
  lemma PassingIsConsistent(am: AddrManager, keyIsNull: bool)
    requires |am.vvTried| == TRIED_BUCKET_COUNT * BUCKET_SIZE && |am.vvNew| == NEW_BUCKET_COUNT * BUCKET_SIZE
    requires IdsOk(am.mapInfo, am.nIdCount) && AddrOk(am.env, am.mapInfo, am.mapAddr) &&
             Passes(am, am.mapAddr, keyIsNull)
    ensures am.Consistent() && TimesOk(am.mapInfo)
  {
    RandomFollows(am.mapInfo, am.mapAddr, am.vRandom);
    NewFollows(am.env, am.mapInfo, am.mapAddr, am.vRandom, am.vvNew);
    TriedFollows(am.env, am.mapInfo, am.vvTried);
    hide AddrOk, RandomOk, NewOk, TriedOk, NewTableOk, TriedSlotOk, NewIds, TriedIds;
  }

  /** Every entry has a place of its own and there are as many places as entries, so no place is left over. */
  lemma RandomFollows(m: InfoMap, mapAddr: map<Service, int>, vRandom: seq<int>)
    requires EntriesOk(m, mapAddr, vRandom) && |vRandom| == |TriedIds(m)| + |NewIds(m)|
    ensures RandomOk(m, vRandom)
  {
    TwoKinds(m);
    forall id | id in m
      ensures 0 <= m[id].nRandomPos < |vRandom| && vRandom[m[id].nRandomPos] == id
    {
      assert EntryOk(m[id], id, mapAddr, vRandom);
    }
    hide EntriesOk, NewIds, TriedIds;
    forall i | 0 <= i < |vRandom|
      ensures vRandom[i] in m && m[vRandom[i]].nRandomPos == i
    {
      PlaceTaken(m, vRandom, i);
    }
  }

  lemma PlaceTaken(m: InfoMap, vRandom: seq<int>, i: nat)
    requires i < |vRandom| == |m|
    requires forall id :: id in m ==> 0 <= m[id].nRandomPos < |vRandom| && vRandom[m[id].nRandomPos] == id
    ensures vRandom[i] in m && m[vRandom[i]].nRandomPos == i
  {
    var others := vRandom[..i] + vRandom[i + 1..];
    ElemsAtMost(others);
    if !(vRandom[i] in m && m[vRandom[i]].nRandomPos == i) {
      forall id | id in m
        ensures id in others
      {
        var p := m[id].nRandomPos;
        assert others[if p < i then p else p - 1] == id;
      }
      SubsetSize(m.Keys, Elems(others));
    }
  }

  lemma NewFollows(env: Env, m: InfoMap, mapAddr: map<Service, int>, vRandom: seq<int>, v: seq<int>)
    requires EntriesOk(m, mapAddr, vRandom) && NewTableOk(env, m, v) && |v| == NEW_BUCKET_COUNT * BUCKET_SIZE
    requires forall id :: id in m ==> id >= 0
    ensures NewOk(env, m, v) && Referenced(m, {})
  {
    hide NewSlot;
    forall i | 0 <= i < |v| && v[i] != -1
      ensures v[i] in m && !m[v[i]].fInTried && i == NewSlot(env, m[v[i]].addr, i / BUCKET_SIZE)
    {
      assert NewSlotOk(env, m, v, i);
    }
    forall id | id in m
      ensures m[id].nRefCount == |SlotsOf(v, id)|
    {
      assert EntryOk(m[id], id, mapAddr, vRandom);
      if m[id].fInTried {
        assert SlotsOf(v, id) == {};
      }
    }
  }

  lemma TriedFollows(env: Env, m: InfoMap, v: seq<int>)
    requires |v| == TRIED_BUCKET_COUNT * BUCKET_SIZE && -1 !in m
    requires forall i :: 0 <= i < |v| ==> TriedSlotOk(env, m, v, i)
    requires forall id :: id in TriedIds(m) ==> id in v
    ensures TriedOk(env, m, v)
  {
    hide TriedSlot;
    forall i | 0 <= i < |v| && v[i] != -1
      ensures v[i] in m && m[v[i]].fInTried && i == TriedSlot(env, m[v[i]].addr)
    {
      assert TriedSlotOk(env, m, v, i);
    }
    forall id | id in m && m[id].fInTried
      ensures v[TriedSlot(env, m[id].addr)] == id
    {
      assert id in TriedIds(m);
      var i :| 0 <= i < |v| && v[i] == id;
      assert TriedSlotOk(env, m, v, i);
    }
  }
}
