/** The address manager: one set of addresses kept in six redundant structures. The predicates below
  * are the consistency check of the source, split by structure; the lemmas say which update keeps
  * which part, and the methods of `AddrManager` are the operations. */
module AddrMan {
  import opened Basics

  const TRIED_BUCKET_COUNT := 256
  const NEW_BUCKET_COUNT := 1024
  const BUCKET_SIZE := 64
  const NEW_BUCKETS_PER_ADDRESS := 8
  const HORIZON_DAYS := 30
  const RETRIES := 3
  const MAX_FAILURES := 10
  const MIN_FAIL_DAYS := 7
  const REPLACEMENT_HOURS := 4
  const GETADDR_MAX_PCT := 23
  const GETADDR_MAX := 2500
  const SET_TRIED_COLLISION_SIZE := 10
  const TEST_WINDOW := 40 * 60

  type TriedBucket = b: int | 0 <= b < 256 witness 0
  type NewBucket = b: int | 0 <= b < 1024 witness 0
  type Position = p: int | 0 <= p < 64 witness 0

  type NetAddr = nat
  datatype Service = Service(ip: NetAddr, port: nat)

  /** An address as a peer announces it. */
  datatype Address = Address(service: Service, nServices: bv64, nTime: nat)

  datatype Info = Info(
    addr: Service, nServices: bv64, nTime: nat, source: NetAddr,
    nLastTry: int, nLastCountAttempt: int, nLastSuccess: int, nAttempts: int,
    nRefCount: int, fInTried: bool, nRandomPos: int)

  /** Keyed hashing of addresses to buckets and positions, for one secret key and one AS map, and the
    * address classification used by the manager. */
  datatype Env = Env(
    triedBucket: Service -> TriedBucket,
    newBucket: (Service, NetAddr) -> NewBucket,
    position: (Service, bool, int) -> Position,
    routable: Service -> bool,
    valid: Service -> bool,
    discriminatePorts: bool)

  function Key(env: Env, s: Service): Service {
    if env.discriminatePorts then s else Service(s.ip, 0)
  }

  function Slot(bucket: int, pos: int): int { bucket * BUCKET_SIZE + pos }

  function NewSlot(env: Env, s: Service, bucket: NewBucket): (r: int)
    ensures 0 <= r < NEW_BUCKET_COUNT * BUCKET_SIZE && r / BUCKET_SIZE == bucket
  {
    Slot(bucket, env.position(s, true, bucket))
  }

  function Rotated(n: int, nRnd: nat): NewBucket { (n + nRnd) % NEW_BUCKET_COUNT }

  lemma RotatedOnto(b: NewBucket, nRnd: nat)
    ensures exists k :: 0 <= k < NEW_BUCKET_COUNT && Rotated(k, nRnd) == b
  {
    assert Rotated((b - nRnd) % NEW_BUCKET_COUNT, nRnd) == b;
  }

  function TriedSlot(env: Env, s: Service): (r: int)
    ensures 0 <= r < TRIED_BUCKET_COUNT * BUCKET_SIZE
  {
    var b := env.triedBucket(s);
    Slot(b, env.position(s, false, b))
  }

  function U32(x: int): nat { x % 0x1_0000_0000 }

  predicate IsTerrible(i: Info, now: int) {
    if i.nLastTry != 0 && i.nLastTry >= now - 60 then false
    else
      || i.nTime > now + 10 * 60
      || i.nTime == 0
      || now - i.nTime > HORIZON_DAYS * 24 * 60 * 60
      || (i.nLastSuccess == 0 && i.nAttempts >= RETRIES)
      || (now - i.nLastSuccess > MIN_FAIL_DAYS * 24 * 60 * 60 && i.nAttempts >= MAX_FAILURES)
  }

  type InfoMap = map<int, Info>

  // ---------------------------------------------------------------------------------------------
  // Consistency, structure by structure
  // ---------------------------------------------------------------------------------------------

  /** vRandom is a permutation of the ids and nRandomPos is its inverse. */
  ghost predicate RandomOk(m: InfoMap, vRandom: seq<int>) {
    && (forall i :: 0 <= i < |vRandom| ==> vRandom[i] in m && m[vRandom[i]].nRandomPos == i)
    && (forall id :: id in m ==> 0 <= m[id].nRandomPos < |vRandom| && vRandom[m[id].nRandomPos] == id)
  }

  /** mapAddr is the index of the entries by (port-normalised) address. */
  ghost predicate AddrOk(env: Env, m: InfoMap, mapAddr: map<Service, int>) {
    && (forall id :: id in m ==> Key(env, m[id].addr) in mapAddr && mapAddr[Key(env, m[id].addr)] == id)
    && (forall k :: k in mapAddr ==> mapAddr[k] in m && Key(env, m[mapAddr[k]].addr) == k)
  }

  ghost function SlotsOf(v: seq<int>, id: int): set<int> {
    set i | 0 <= i < |v| && v[i] == id
  }

  /** New slots hold entries that are not tried, at the position their bucket gives them, and every
    * reference count is the number of slots. */
  ghost predicate NewOk(env: Env, m: InfoMap, vvNew: seq<int>) {
    && |vvNew| == NEW_BUCKET_COUNT * BUCKET_SIZE
    && (forall i :: 0 <= i < |vvNew| && vvNew[i] != -1 ==>
          && vvNew[i] in m && !m[vvNew[i]].fInTried
          && i == NewSlot(env, m[vvNew[i]].addr, i / BUCKET_SIZE))
    && (forall id :: id in m ==> id >= 0 && m[id].nRefCount == |SlotsOf(vvNew, id)|)
  }

  /** Tried entries are exactly those in the tried table, each in its one computed slot. */
  ghost predicate TriedOk(env: Env, m: InfoMap, vvTried: seq<int>) {
    && |vvTried| == TRIED_BUCKET_COUNT * BUCKET_SIZE
    && (forall i :: 0 <= i < |vvTried| && vvTried[i] != -1 ==>
          vvTried[i] in m && m[vvTried[i]].fInTried && i == TriedSlot(env, m[vvTried[i]].addr))
    && (forall id :: id in m && m[id].fInTried ==> vvTried[TriedSlot(env, m[id].addr)] == id)
  }

  ghost predicate IdsOk(m: InfoMap, nIdCount: int) {
    nIdCount >= 0 && forall id :: id in m ==> 0 <= id < nIdCount
  }

  /** Every entry that is not tried, but for those in `loose`, is referenced; none too often. */
  ghost predicate Referenced(m: InfoMap, loose: set<int>) {
    forall id :: id in m ==>
      m[id].nRefCount <= NEW_BUCKETS_PER_ADDRESS
      && (!m[id].fInTried && id !in loose ==> 1 <= m[id].nRefCount)
  }

  ghost predicate TimesOk(m: InfoMap) {
    forall id :: id in m ==>
      m[id].nLastTry >= 0 && m[id].nLastSuccess >= 0 && (m[id].fInTried ==> m[id].nLastSuccess != 0)
  }

  ghost function NewIds(m: InfoMap): set<int> { set id | id in m && !m[id].fInTried }

  ghost function TriedIds(m: InfoMap): set<int> { set id | id in m && m[id].fInTried }

  /** At most ten candidates wait for a tried slot, and as long as a candidate exists its slot is taken. */
  ghost predicate CollisionsOk(env: Env, m: InfoMap, vvTried: seq<int>, pending: set<int>, nIdCount: int)
    requires |vvTried| == TRIED_BUCKET_COUNT * BUCKET_SIZE
  {
    && |pending| <= SET_TRIED_COLLISION_SIZE
    && (forall id :: id in pending ==> 0 <= id < nIdCount)
    && (forall id :: id in pending && id in m ==> vvTried[TriedSlot(env, m[id].addr)] != -1)
  }

  // ---------------------------------------------------------------------------------------------
  // Updates that keep a part
  // ---------------------------------------------------------------------------------------------

  /** Changing an entry but not its place in vRandom. */
  lemma EntryChanged(m: InfoMap, vRandom: seq<int>, id: int, info: Info)
    requires RandomOk(m, vRandom) && id in m && info.nRandomPos == m[id].nRandomPos
    ensures RandomOk(m[id := info], vRandom)
  {
  }

  /** Changing an entry but not its address. */
  lemma IndexUnchanged(env: Env, m: InfoMap, mapAddr: map<Service, int>, id: int, info: Info)
    requires AddrOk(env, m, mapAddr) && id in m && info.addr == m[id].addr
    ensures AddrOk(env, m[id := info], mapAddr)
  {
    var m' := m[id := info];
    forall k | k in mapAddr ensures mapAddr[k] in m' && Key(env, m'[mapAddr[k]].addr) == k {}
  }

  /** Changing an entry but not its address, its references and its table. */
  lemma StatsChanged(env: Env, m: InfoMap, vvNew: seq<int>, vvTried: seq<int>, id: int, info: Info)
    requires NewOk(env, m, vvNew) && TriedOk(env, m, vvTried) && id in m
    requires info.addr == m[id].addr && info.nRefCount == m[id].nRefCount && info.fInTried == m[id].fInTried
    ensures NewOk(env, m[id := info], vvNew) && TriedOk(env, m[id := info], vvTried)
  {
  }

  lemma ReferencesChanged(env: Env, m: InfoMap, vvTried: seq<int>, id: int, info: Info)
    requires TriedOk(env, m, vvTried) && id in m
    requires info.addr == m[id].addr && info.fInTried == m[id].fInTried
    ensures TriedOk(env, m[id := info], vvTried)
  {
  }

  ghost predicate SameButPos(m: InfoMap, m': InfoMap) {
    && m.Keys == m'.Keys
    && forall id :: id in m ==> m'[id] == m[id].(nRandomPos := m'[id].nRandomPos)
  }

  /** The place in vRandom matters to no other structure. */
  lemma PosIrrelevant(env: Env, m: InfoMap, m': InfoMap, vvNew: seq<int>, vvTried: seq<int>)
    requires SameButPos(m, m') && NewOk(env, m, vvNew) && TriedOk(env, m, vvTried)
    ensures NewOk(env, m', vvNew) && TriedOk(env, m', vvTried)
  {
  }

  lemma IdsRemoved(m: InfoMap, id: int, m': InfoMap, nIdCount: int)
    requires IdsOk(m, nIdCount) && SameButPos(m - {id}, m')
    ensures IdsOk(m', nIdCount)
  {
  }

  lemma IndexPosIrrelevant(env: Env, m: InfoMap, m': InfoMap, mapAddr: map<Service, int>)
    requires SameButPos(m, m') && AddrOk(env, m, mapAddr)
    ensures AddrOk(env, m', mapAddr)
  {
  }

  lemma SlotsUpdate(v: seq<int>, i: int, x: int, id: int)
    requires 0 <= i < |v|
    ensures |SlotsOf(v[i := x], id)| == |SlotsOf(v, id)| - (if v[i] == id then 1 else 0) + (if x == id then 1 else 0)
  {
    var s, t := SlotsOf(v, id), SlotsOf(v[i := x], id);
    assert i in s <==> v[i] == id;
    assert t == if x == id then (s - {i}) + {i} else s - {i};
    hide SlotsOf;
    assert i !in s ==> s - {i} == s;
  }

  /** Emptying a slot of the new table takes one reference from its entry, which has one to give. */
  lemma SlotEmptied(env: Env, m: InfoMap, vvNew: seq<int>, i: int)
    requires NewOk(env, m, vvNew) && 0 <= i < |vvNew| && vvNew[i] != -1
    ensures var id := vvNew[i];
            && m[id].nRefCount > 0
            && NewOk(env, m[id := m[id].(nRefCount := m[id].nRefCount - 1)], vvNew[i := -1])
  {
    var id := vvNew[i];
    var m' := m[id := m[id].(nRefCount := m[id].nRefCount - 1)];
    assert i in SlotsOf(vvNew, id);
    forall k | k in m' ensures m'[k].nRefCount == |SlotsOf(vvNew[i := -1], k)| {
      SlotsUpdate(vvNew, i, -1, k);
    }
  }

  lemma SlotFilled(env: Env, m: InfoMap, vvNew: seq<int>, i: int, id: int)
    requires NewOk(env, m, vvNew) && 0 <= i < |vvNew| && vvNew[i] == -1
    requires id in m && !m[id].fInTried && i == NewSlot(env, m[id].addr, i / BUCKET_SIZE)
    ensures NewOk(env, m[id := m[id].(nRefCount := m[id].nRefCount + 1)], vvNew[i := id])
  {
    var m' := m[id := m[id].(nRefCount := m[id].nRefCount + 1)];
    forall k | k in m' ensures m'[k].nRefCount == |SlotsOf(vvNew[i := id], k)| {
      SlotsUpdate(vvNew, i, id, k);
    }
  }

  /** An entry without references sits in no slot, so it can go. */
  lemma EntryRemoved(env: Env, m: InfoMap, vvNew: seq<int>, vvTried: seq<int>, id: int)
    requires NewOk(env, m, vvNew) && TriedOk(env, m, vvTried)
    requires id in m && !m[id].fInTried && m[id].nRefCount == 0
    ensures NewOk(env, m - {id}, vvNew) && TriedOk(env, m - {id}, vvTried)
  {
    assert SlotsOf(vvNew, id) == {};
    assert forall i :: 0 <= i < |vvNew| && vvNew[i] == id ==> i in SlotsOf(vvNew, id);
  }

  lemma IndexHit(env: Env, m: InfoMap, mapAddr: map<Service, int>, addr: Service)
    requires AddrOk(env, m, mapAddr) && env.discriminatePorts
    ensures addr in mapAddr ==> exists id :: id in m && m[id].addr == addr
  {
    if addr in mapAddr {
      var id := mapAddr[addr];
      assert id in m && m[id].addr == addr;
    }
  }

  lemma IndexRemoved(env: Env, m: InfoMap, mapAddr: map<Service, int>, id: int)
    requires AddrOk(env, m, mapAddr) && id in m
    ensures AddrOk(env, m - {id}, mapAddr - {Key(env, m[id].addr)})
  {
  }

  lemma EntryCreated(env: Env, m: InfoMap, vRandom: seq<int>, vvNew: seq<int>, vvTried: seq<int>, id: int, info: Info)
    requires RandomOk(m, vRandom) && NewOk(env, m, vvNew) && TriedOk(env, m, vvTried)
    requires id !in m && id >= 0 && info.nRefCount == 0 && !info.fInTried && info.nRandomPos == |vRandom|
    ensures RandomOk(m[id := info], vRandom + [id])
    ensures NewOk(env, m[id := info], vvNew) && TriedOk(env, m[id := info], vvTried)
  {
    assert SlotsOf(vvNew, id) == {};
  }

  lemma IndexCreated(env: Env, m: InfoMap, mapAddr: map<Service, int>, id: int, info: Info)
    requires AddrOk(env, m, mapAddr) && id !in m && Key(env, info.addr) !in mapAddr
    ensures AddrOk(env, m[id := info], mapAddr[Key(env, info.addr) := id])
  {
    var m' := m[id := info];
    forall k | k in m' ensures Key(env, m'[k].addr) in mapAddr[Key(env, info.addr) := id] {}
  }

  function Swapped(v: seq<int>, a: int, b: int): seq<int>
    requires 0 <= a < |v| && 0 <= b < |v|
  {
    v[a := v[b]][b := v[a]]
  }

  lemma RandomSwapped(m: InfoMap, v: seq<int>, a: int, b: int)
    requires RandomOk(m, v) && 0 <= a < |v| && 0 <= b < |v| && a != b
    ensures var m' := m[v[a] := m[v[a]].(nRandomPos := b)];
            v[b] in m' && RandomOk(m'[v[b] := m'[v[b]].(nRandomPos := a)], Swapped(v, a, b))
  {
    assert v[a] != v[b] by {
      assert m[v[a]].nRandomPos == a && m[v[b]].nRandomPos == b;
    }
  }

  lemma RandomPopped(m: InfoMap, v: seq<int>)
    requires RandomOk(m, v) && |v| > 0
    ensures RandomOk(m - {v[|v| - 1]}, v[..|v| - 1])
  {
    var last := v[|v| - 1];
    forall i | 0 <= i < |v| - 1 ensures v[i] != last {
      assert m[v[i]].nRandomPos == i;
    }
  }

  lemma TriedLeft(env: Env, m: InfoMap, vvNew: seq<int>, vvTried: seq<int>, i: int)
    requires NewOk(env, m, vvNew) && TriedOk(env, m, vvTried) && 0 <= i < |vvTried| && vvTried[i] != -1
    ensures var e := vvTried[i];
            var m' := m[e := m[e].(fInTried := false)];
            NewOk(env, m', vvNew) && TriedOk(env, m', vvTried[i := -1]) && m[e].nRefCount == 0
  {
    var e := vvTried[i];
    assert SlotsOf(vvNew, e) == {};
    var m' := m[e := m[e].(fInTried := false)];
    forall k | k in m' && m'[k].fInTried ensures vvTried[i := -1][TriedSlot(env, m'[k].addr)] == k {
      assert vvTried[TriedSlot(env, m[k].addr)] == k;
    }
  }

  lemma TriedEntered(env: Env, m: InfoMap, vvNew: seq<int>, vvTried: seq<int>, id: int)
    requires NewOk(env, m, vvNew) && TriedOk(env, m, vvTried)
    requires id in m && !m[id].fInTried && m[id].nRefCount == 0 && vvTried[TriedSlot(env, m[id].addr)] == -1
    ensures var m' := m[id := m[id].(fInTried := true)];
            NewOk(env, m', vvNew) && TriedOk(env, m', vvTried[TriedSlot(env, m[id].addr) := id])
  {
    var m' := m[id := m[id].(fInTried := true)];
    var i := TriedSlot(env, m[id].addr);
    assert SlotsOf(vvNew, id) == {};
    assert forall j :: 0 <= j < |vvNew| && vvNew[j] == id ==> j in SlotsOf(vvNew, id);
    forall k | k in m' && m'[k].fInTried ensures vvTried[i := id][TriedSlot(env, m'[k].addr)] == k {
      if k != id {
        assert vvTried[TriedSlot(env, m[k].addr)] == k;
      }
    }
  }

  ghost function Without(v: seq<int>, id: int): (r: seq<int>)
    ensures |r| == |v| && forall i :: 0 <= i < |v| ==> r[i] == if v[i] == id then -1 else v[i]
  {
    seq(|v|, i requires 0 <= i < |v| => if v[i] == id then -1 else v[i])
  }

  predicate LastReference(m: InfoMap, d: int) { d in m && d != -1 && m[d].nRefCount == 1 }

  /** The manager after one reference to `d` was dropped (-1: none). */
  ghost function Unreferenced(m: InfoMap, d: int): InfoMap
    requires d != -1 ==> d in m
  {
    if d == -1 then m
    else if m[d].nRefCount == 1 then m - {d}
    else m[d := m[d].(nRefCount := m[d].nRefCount - 1)]
  }

  /** The entry `e` leaves tried, one reference to `d` is dropped, `e` gets one. */
  lemma EvictionComposed(m: InfoMap, e: int, d: int, m2: InfoMap)
    requires e in m && m[e].nRefCount == 0 && d != e && (d != -1 ==> d in m)
    requires SameButPos(Unreferenced(m[e := m[e].(fInTried := false)], d), m2)
    ensures e in m2 && m2[e].addr == m[e].addr && !m2[e].fInTried
    ensures SameButPos(Unreferenced(m, d)[e := m[e].(fInTried := false, nRefCount := 1)],
                       m2[e := m2[e].(nRefCount := m2[e].nRefCount + 1)])
  {
    var a := Unreferenced(m, d)[e := m[e].(fInTried := false, nRefCount := 1)];
    var b := m2[e := m2[e].(nRefCount := m2[e].nRefCount + 1)];
    assert a.Keys == b.Keys;
    forall k | k in a ensures b[k] == a[k].(nRandomPos := b[k].nRandomPos) {
      if k != e {
        assert b[k] == m2[k] && a[k] == Unreferenced(m, d)[k];
      }
    }
  }

  /** The entries after `id` moved to tried: `e` (-1: none) came back from there and took a new slot
    * from `d` (-1: none). */
  ghost function Promoted(m: InfoMap, id: int, e: int, d: int): InfoMap
    requires id in m && (e != -1 ==> e in m && e != id && (d != -1 ==> d in m && d != id && d != e))
  {
    var m1 := m[id := m[id].(nRefCount := 0)];
    var m2 := if e == -1 then m1 else Unreferenced(m1, d)[e := m[e].(fInTried := false, nRefCount := 1)];
    m2[id := m2[id].(fInTried := true)]
  }

  /** An entry moves up, and at most one other entry disappears: the counters stay exact. */
  lemma PromotedCounts(m: InfoMap, id: int, e: int, d: int)
    requires id in m && !m[id].fInTried
    requires e != -1 ==> e in m && m[e].fInTried && (d != -1 ==> d in m && d != id && !m[d].fInTried)
    ensures var m' := Promoted(m, id, e, d);
            && |TriedIds(m')| == |TriedIds(m)| + (if e == -1 then 1 else 0)
            && |NewIds(m')| == |NewIds(m)| - (if e == -1 then 1 else if LastReference(m, d) then 1 else 0)
  {
    var m1 := m[id := m[id].(nRefCount := 0)];
    CountPut(m, id, m1[id]);
    var m2 := m1;
    if e != -1 {
      var m3 := Unreferenced(m1, d);
      if LastReference(m1, d) { CountRemove(m1, d); } else if d != -1 { CountPut(m1, d, m3[d]); }
      CountPut(m3, e, m[e].(fInTried := false, nRefCount := 1));
      m2 := m3[e := m[e].(fInTried := false, nRefCount := 1)];
    }
    CountPut(m2, id, m2[id].(fInTried := true));
  }

  lemma CountPut(m: InfoMap, id: int, info: Info)
    ensures var m' := m[id := info];
            && |NewIds(m')| == |NewIds(m)| - (if id in m && !m[id].fInTried then 1 else 0) +
              (if info.fInTried then 0 else 1)
            && |TriedIds(m')| == |TriedIds(m)| - (if id in m && m[id].fInTried then 1 else 0) +
              (if info.fInTried then 1 else 0)
  {
    var m' := m[id := info];
    assert NewIds(m') - {id} == NewIds(m) - {id} && TriedIds(m') - {id} == TriedIds(m) - {id};
    WithoutOne(NewIds(m'), id);
    WithoutOne(NewIds(m), id);
    WithoutOne(TriedIds(m'), id);
    WithoutOne(TriedIds(m), id);
  }

  lemma CountRemove(m: InfoMap, id: int)
    requires id in m
    ensures |NewIds(m - {id})| == |NewIds(m)| - (if m[id].fInTried then 0 else 1)
    ensures |TriedIds(m - {id})| == |TriedIds(m)| - (if m[id].fInTried then 1 else 0)
  {
    assert NewIds(m - {id}) == NewIds(m) - {id} && TriedIds(m - {id}) == TriedIds(m) - {id};
    WithoutOne(NewIds(m), id);
    WithoutOne(TriedIds(m), id);
  }

  /** An empty manager: consistent but for candidates left over. */
  lemma EmptyTables(env: Env, vvNew: seq<int>, vvTried: seq<int>, pending: set<int>)
    requires |vvNew| == NEW_BUCKET_COUNT * BUCKET_SIZE && |vvTried| == TRIED_BUCKET_COUNT * BUCKET_SIZE
    requires forall i :: 0 <= i < |vvNew| ==> vvNew[i] == -1
    requires forall i :: 0 <= i < |vvTried| ==> vvTried[i] == -1
    ensures RandomOk(map[], []) && AddrOk(env, map[], map[]) && NewOk(env, map[], vvNew) && TriedOk(env, map[], vvTried)
    ensures Referenced(map[], {}) && NewIds(map[]) == {} && TriedIds(map[]) == {}
    ensures |pending| <= SET_TRIED_COLLISION_SIZE ==>
              (CollisionsOk(env, map[], vvTried, pending, 0) <==> forall id :: id !in pending)
  {
  }

  lemma WithoutOne(s: set<int>, x: int)
    ensures |s - {x}| == |s| - (if x in s then 1 else 0)
  {
    if x !in s { assert s - {x} == s; }
  }

  lemma PromotedReferenced(m: InfoMap, id: int, e: int, d: int)
    requires Referenced(m, {}) && id in m && !m[id].fInTried
    requires e != -1 ==> e in m && m[e].fInTried && (d != -1 ==> d in m && d != id && !m[d].fInTried)
    ensures Referenced(Promoted(m, id, e, d), {})
  {
  }

  lemma PromotedCollisions(env: Env, m: InfoMap, id: int, e: int, d: int, m': InfoMap, vvTried: seq<int>,
                           pending: set<int>, n: int)
    requires |vvTried| == TRIED_BUCKET_COUNT * BUCKET_SIZE && CollisionsOk(env, m, vvTried, pending, n)
    requires id in m && id >= 0 && (e != -1 ==> e in m && e != id && (d != -1 ==> d in m && d != id && d != e))
    requires SameButPos(Promoted(m, id, e, d), m')
    ensures CollisionsOk(env, m', vvTried[TriedSlot(env, m[id].addr) := id], pending, n)
  {
    forall k | k in m' ensures k in m && m'[k].addr == m[k].addr {
      assert k in Promoted(m, id, e, d);
    }
    CollisionsKept(env, m, m', vvTried, vvTried[TriedSlot(env, m[id].addr) := id], pending, n, n);
  }

  lemma PromotedTimes(m: InfoMap, id: int, e: int, d: int)
    requires id in m && (e != -1 ==> e in m && e != id && (d != -1 ==> d in m && d != id && d != e))
    requires TimesOk(m) && m[id].nLastSuccess != 0
    ensures TimesOk(Promoted(m, id, e, d))
  {
  }

  lemma SameButPosFacts(m: InfoMap, m': InfoMap)
    requires SameButPos(m, m')
    ensures NewIds(m') == NewIds(m) && TriedIds(m') == TriedIds(m)
    ensures Referenced(m, {}) ==> Referenced(m', {})
    ensures TimesOk(m) ==> TimesOk(m')
  {
    assert forall id :: id in NewIds(m') <==> id in NewIds(m);
    assert forall id :: id in TriedIds(m') <==> id in TriedIds(m);
  }

  lemma SameButPosReflexive(m: InfoMap)
    ensures SameButPos(m, m)
  {
  }

  lemma MarkComposed(m: InfoMap, m': InfoMap, id: int)
    requires SameButPos(m, m') && id in m
    ensures id in m' && m'[id].addr == m[id].addr && m'[id].nRefCount == m[id].nRefCount &&
            m'[id].fInTried == m[id].fInTried
    ensures SameButPos(m[id := m[id].(fInTried := true)], m'[id := m'[id].(fInTried := true)])
  {
    var a, b := m[id := m[id].(fInTried := true)], m'[id := m'[id].(fInTried := true)];
    assert a.Keys == b.Keys;
    forall k | k in a ensures b[k] == a[k].(nRandomPos := b[k].nRandomPos) {}
  }

  /** The entries after `id` took a new slot from `d` (-1: none). */
  ghost function Placed(m: InfoMap, id: int, d: int): InfoMap
    requires id in m && d != id && (d != -1 ==> d in m)
  {
    Unreferenced(m, d)[id := m[id].(nRefCount := m[id].nRefCount + 1)]
  }

  lemma PlacedFacts(m: InfoMap, id: int, d: int)
    requires id in m && !m[id].fInTried && d != id && (d != -1 ==> d in m && !m[d].fInTried)
    requires Referenced(m, {id}) && 0 <= m[id].nRefCount < NEW_BUCKETS_PER_ADDRESS
    ensures Referenced(Placed(m, id, d), {})
    ensures |TriedIds(Placed(m, id, d))| == |TriedIds(m)|
    ensures |NewIds(Placed(m, id, d))| == |NewIds(m)| - (if LastReference(m, d) then 1 else 0)
  {
    var m3 := Unreferenced(m, d);
    if LastReference(m, d) { CountRemove(m, d); } else if d != -1 { CountPut(m, d, m3[d]); }
    CountPut(m3, id, m[id].(nRefCount := m[id].nRefCount + 1));
  }

  lemma PlacedCollisions(env: Env, m: InfoMap, id: int, d: int, m': InfoMap, vvTried: seq<int>, pending: set<int>,
                         n: int)
    requires |vvTried| == TRIED_BUCKET_COUNT * BUCKET_SIZE && CollisionsOk(env, m, vvTried, pending, n)
    requires id in m && d != id && (d != -1 ==> d in m) && SameButPos(Placed(m, id, d), m')
    ensures CollisionsOk(env, m', vvTried, pending, n)
  {
    forall k | k in m' ensures k in m && m'[k].addr == m[k].addr {
      assert k in Placed(m, id, d);
    }
    CollisionsKept(env, m, m', vvTried, vvTried, pending, n, n);
  }

  lemma PlacedComposed(m: InfoMap, m': InfoMap, id: int)
    requires SameButPos(m, m') && id in m
    ensures id in m' && m'[id].addr == m[id].addr && m'[id].fInTried == m[id].fInTried
    ensures SameButPos(m[id := m[id].(nRefCount := m[id].nRefCount + 1)],
                       m'[id := m'[id].(nRefCount := m'[id].nRefCount + 1)])
  {
    var a := m[id := m[id].(nRefCount := m[id].nRefCount + 1)];
    var b := m'[id := m'[id].(nRefCount := m'[id].nRefCount + 1)];
    assert a.Keys == b.Keys;
    forall k | k in a ensures b[k] == a[k].(nRandomPos := b[k].nRandomPos) {}
  }

  /** Tried slots that stay taken and addresses that stay put keep the candidates waiting rightly. */
  lemma CollisionsKept(
    env: Env, m: InfoMap, m': InfoMap, vvTried: seq<int>, vvTried': seq<int>, pending: set<int>, n: int, n': int)
    requires |vvTried| == |vvTried'| == TRIED_BUCKET_COUNT * BUCKET_SIZE
    requires CollisionsOk(env, m, vvTried, pending, n) && n <= n'
    requires forall id :: id in m' && id < n ==> id in m && m'[id].addr == m[id].addr
    requires forall i :: 0 <= i < |vvTried| && vvTried[i] != -1 ==> vvTried'[i] != -1
    ensures CollisionsOk(env, m', vvTried', pending, n')
  {
  }

  lemma EnteredFacts(m: InfoMap, id: int, info: Info)
    requires id !in m && Referenced(m, {}) && !info.fInTried && info.nRefCount == 0
    ensures Referenced(m[id := info], {id})
    ensures |NewIds(m[id := info])| == |NewIds(m)| + 1 && |TriedIds(m[id := info])| == |TriedIds(m)|
  {
    CountPut(m, id, info);
  }

  /** Only statistics differ. */
  ghost predicate SameEntry(a: Info, b: Info) {
    a.addr == b.addr && a.source == b.source && a.nRefCount == b.nRefCount && a.fInTried == b.fInTried &&
      a.nRandomPos == b.nRandomPos
  }

  lemma StatsFacts(m: InfoMap, id: int, info: Info)
    requires id in m && SameEntry(m[id], info)
    ensures NewIds(m[id := info]) == NewIds(m) && TriedIds(m[id := info]) == TriedIds(m)
    ensures Referenced(m, {}) ==> Referenced(m[id := info], {})
  {
    var m' := m[id := info];
    assert forall k :: k in NewIds(m') <==> k in NewIds(m);
    assert forall k :: k in TriedIds(m') <==> k in TriedIds(m);
  }

  // ---------------------------------------------------------------------------------------------
  // The manager
  // ---------------------------------------------------------------------------------------------

  class AddrManager {
    var env: Env
    var nIdCount: int
    var mapInfo: InfoMap
    var mapAddr: map<Service, int>
    var vRandom: seq<int>
    var nTried: int
    var vvTried: seq<int>
    var nNew: int
    var vvNew: seq<int>
    var nLastGood: int
    var triedCollisions: set<int>

    /** The tables, the reference counts and vRandom agree with the entries. */
    ghost predicate Tables()
      reads this
    {
      && |vvNew| == NEW_BUCKET_COUNT * BUCKET_SIZE && |vvTried| == TRIED_BUCKET_COUNT * BUCKET_SIZE
      && RandomOk(mapInfo, vRandom)
      && NewOk(env, mapInfo, vvNew)
      && TriedOk(env, mapInfo, vvTried)
      && IdsOk(mapInfo, nIdCount)
    }

    /** So does the index by address. */
    ghost predicate Linked()
      reads this
    {
      Tables() && AddrOk(env, mapInfo, mapAddr)
    }

    /** What the consistency check of the source verifies, but for the times. */
    ghost predicate Consistent()
      reads this
    {
      && Linked()
      && Referenced(mapInfo, {})
      && nNew == |NewIds(mapInfo)| && nTried == |TriedIds(mapInfo)|
    }

    /** The candidates wait for taken slots. */
    ghost predicate Awaited()
      reads this
    {
      |vvTried| == TRIED_BUCKET_COUNT * BUCKET_SIZE && CollisionsOk(env, mapInfo, vvTried, triedCollisions, nIdCount)
    }

    ghost predicate Valid()
      reads this
    {
      Consistent() && Awaited()
    }

    constructor (envIn: Env)
      ensures Valid() && mapInfo == map[] && triedCollisions == {} && TimesOk(mapInfo) && env == envIn && nIdCount == 0
    {
      env := envIn;
      nIdCount, mapInfo, mapAddr, vRandom := 0, map[], map[], [];
      nTried, nNew, nLastGood, triedCollisions := 0, 0, 1, {};
      vvTried := seq(TRIED_BUCKET_COUNT * BUCKET_SIZE, _ => -1);
      vvNew := seq(NEW_BUCKET_COUNT * BUCKET_SIZE, _ => -1);
    }

    ghost function Found(addr: Service): Option<int>
      reads this
    {
      if Key(env, addr) in mapAddr && mapAddr[Key(env, addr)] in mapInfo then Some(mapAddr[Key(env, addr)]) else None
    }

    /** Find: under the index, the one entry with this address, if there is one. */
    method Find(addr: Service) returns (r: Option<int>)
      ensures r == Found(addr)
      ensures Linked() && r.Some? ==> r.value in mapInfo && Key(env, mapInfo[r.value].addr) == Key(env, addr)
      ensures Linked() ==> forall id :: id in mapInfo && Key(env, mapInfo[id].addr) == Key(env, addr) ==> r == Some(id)
    {
      var addr2 := Key(env, addr);
      if addr2 !in mapAddr {
        return None;
      }
      if mapAddr[addr2] in mapInfo {
        return Some(mapAddr[addr2]);
      }
      return None;
    }

    method Create(addr: Address, source: NetAddr) returns (id: int)
      requires Linked() && Key(env, addr.service) !in mapAddr
      modifies this`nIdCount, this`mapInfo, this`mapAddr, this`vRandom
      ensures Linked()
      ensures id == old(nIdCount) && nIdCount == id + 1 && id !in old(mapInfo)
      ensures mapInfo == old(mapInfo)[id :=
                Info(addr.service, addr.nServices, addr.nTime, source, 0, 0, 0, 0, 0, false, |old(vRandom)|)]
      ensures mapAddr == old(mapAddr)[Key(env, addr.service) := id]
    {
      id := nIdCount;
      nIdCount := nIdCount + 1;
      var info := Info(addr.service, addr.nServices, addr.nTime, source, 0, 0, 0, 0, 0, false, |vRandom|);
      EntryCreated(env, mapInfo, vRandom, vvNew, vvTried, id, info);
      IndexCreated(env, mapInfo, mapAddr, id, info);
      mapInfo := mapInfo[id := info];
      mapAddr := mapAddr[Key(env, addr.service) := id];
      vRandom := vRandom + [id];
    }

    /** Swaps two places of vRandom. */
    method SwapRandom(a: int, b: int)
      requires RandomOk(mapInfo, vRandom) && 0 <= a < |vRandom| && 0 <= b < |vRandom|
      modifies this`mapInfo, this`vRandom
      ensures RandomOk(mapInfo, vRandom) && vRandom == Swapped(old(vRandom), a, b)
      ensures SameButPos(old(mapInfo), mapInfo)
    {
      if a == b {
        return;
      }
      RandomSwapped(mapInfo, vRandom, a, b);
      var id1, id2 := vRandom[a], vRandom[b];
      mapInfo := mapInfo[id1 := mapInfo[id1].(nRandomPos := b)];
      mapInfo := mapInfo[id2 := mapInfo[id2].(nRandomPos := a)];
      vRandom := vRandom[a := id2];
      vRandom := vRandom[b := id1];
    }

    /** Removes an entry that is in no table. */
    method Delete(id: int)
      requires Tables() && id in mapInfo && !mapInfo[id].fInTried && mapInfo[id].nRefCount == 0
      modifies this`mapInfo, this`mapAddr, this`vRandom, this`nNew
      ensures Tables() && (old(Linked()) ==> Linked())
      ensures SameButPos(old(mapInfo) - {id}, mapInfo) && nNew == old(nNew) - 1
      ensures mapAddr == old(mapAddr) - {Key(env, old(mapInfo)[id].addr)}
    {
      hide AddrOk, NewOk, TriedOk, RandomOk, SameButPos;
      var addr := Key(env, mapInfo[id].addr);
      ghost var m := mapInfo;
      PopRandom(id);
      EntryRemoved(env, m, vvNew, vvTried, id);
      PosIrrelevant(env, m - {id}, mapInfo, vvNew, vvTried);
      IdsRemoved(m, id, mapInfo, nIdCount);
      if old(Linked()) {
        IndexRemoved(env, m, mapAddr, id);
        IndexPosIrrelevant(env, m - {id}, mapInfo, mapAddr - {addr});
      }
      mapAddr := mapAddr - {addr};
      nNew := nNew - 1;
    }

    /** Swaps an entry to the end of vRandom and takes it off there. */
    method PopRandom(id: int)
      requires RandomOk(mapInfo, vRandom) && id in mapInfo
      modifies this`mapInfo, this`vRandom
      ensures RandomOk(mapInfo, vRandom) && SameButPos(old(mapInfo) - {id}, mapInfo)
    {
      SwapRandom(mapInfo[id].nRandomPos, |vRandom| - 1);
      assert vRandom[|vRandom| - 1] == id;
      RandomPopped(mapInfo, vRandom);
      vRandom := vRandom[..|vRandom| - 1];
      mapInfo := mapInfo - {id};
    }

    /** Empties a slot of the new table; an entry that loses its last reference is deleted. */
    method ClearNew(i: int)
      requires Linked() && 0 <= i < |vvNew|
      modifies this`mapInfo, this`mapAddr, this`vRandom, this`nNew, this`vvNew
      ensures Linked() && vvNew == old(vvNew)[i := -1]
      ensures old(vvNew)[i] != -1 ==> old(vvNew)[i] in old(mapInfo) && !old(mapInfo)[old(vvNew)[i]].fInTried
      ensures SameButPos(Unreferenced(old(mapInfo), old(vvNew)[i]), mapInfo)
      ensures nNew == old(nNew) - (if LastReference(old(mapInfo), old(vvNew)[i]) then 1 else 0)
    {
      if vvNew[i] != -1 {
        var id := vvNew[i];
        DropReference(i);
        if mapInfo[id].nRefCount == 0 {
          Delete(id);
        }
      }
    }

    method DropReference(i: int)
      requires Linked() && 0 <= i < |vvNew| && vvNew[i] != -1
      modifies this`mapInfo, this`vvNew
      ensures Linked() && vvNew == old(vvNew)[i := -1]
      ensures var id := old(vvNew)[i];
              && old(mapInfo)[id].nRefCount > 0
              && mapInfo == old(mapInfo)[id := old(mapInfo)[id].(nRefCount := old(mapInfo)[id].nRefCount - 1)]
    {
      var id := vvNew[i];
      SlotEmptied(env, mapInfo, vvNew, i);
      var info := mapInfo[id].(nRefCount := mapInfo[id].nRefCount - 1);
      EntryChanged(mapInfo, vRandom, id, info);
      IndexUnchanged(env, mapInfo, mapAddr, id, info);
      ReferencesChanged(env, mapInfo, vvTried, id, info);
      mapInfo := mapInfo[id := info];
      vvNew := vvNew[i := -1];
    }

    /** Takes an entry out of every new bucket. */
    method RemoveFromNew(id: int)
      requires Linked() && id in mapInfo
      modifies this`mapInfo, this`vvNew
      ensures Linked() && vvNew == Without(old(vvNew), id)
      ensures mapInfo == old(mapInfo)[id := old(mapInfo)[id].(nRefCount := 0)]
    {
      for bucket := 0 to NEW_BUCKET_COUNT
        invariant Linked() && id in mapInfo
        invariant mapInfo == old(mapInfo)[id := old(mapInfo)[id].(nRefCount := mapInfo[id].nRefCount)]
        invariant |vvNew| == |old(vvNew)|
        invariant forall i :: 0 <= i < |vvNew| ==>
                    vvNew[i] == if old(vvNew)[i] == id && i / BUCKET_SIZE < bucket then -1 else old(vvNew)[i]
      {
        var i := NewSlot(env, mapInfo[id].addr, bucket);
        assert forall j :: 0 <= j < |vvNew| && j / BUCKET_SIZE == bucket && vvNew[j] == id ==> j == i;
        if vvNew[i] == id {
          DropReference(i);
        }
      }
      assert vvNew == Without(old(vvNew), id);
      assert SlotsOf(vvNew, id) == {};
    }

    /** Makes room in the tried table: its occupant goes back to the new table, deleting whatever
      * loses its last reference there. */
    method EvictTried(i: int)
      requires Linked() && 0 <= i < |vvTried| && vvTried[i] != -1
      modifies this`mapInfo, this`mapAddr, this`vRandom, this`nNew, this`vvNew, this`nTried, this`vvTried
      ensures Linked() && vvTried == old(vvTried)[i := -1] && nTried == old(nTried) - 1
      ensures var e := old(vvTried)[i];
              var j := NewSlot(env, old(mapInfo)[e].addr, env.newBucket(old(mapInfo)[e].addr, old(mapInfo)[e].source));
              var d := old(vvNew)[j];
              && vvNew == old(vvNew)[j := e]
              && e in old(mapInfo) && old(mapInfo)[e].fInTried
              && d != e && (d != -1 ==> d in old(mapInfo) && !old(mapInfo)[d].fInTried)
              && SameButPos(Unreferenced(old(mapInfo), d)[e := old(mapInfo)[e].(fInTried := false, nRefCount := 1)],
                            mapInfo)
              && nNew == old(nNew) + 1 - (if LastReference(old(mapInfo), d) then 1 else 0)
    {
      hide RandomOk, AddrOk, NewOk, TriedOk, SameButPos, Unreferenced;
      var e := vvTried[i];
      UnmarkTried(i);
      var info := mapInfo[e];
      var j := NewSlot(env, info.addr, env.newBucket(info.addr, info.source));
      ghost var d := vvNew[j];
      ClearNew(j);
      EvictionComposed(old(mapInfo), e, d, mapInfo);
      AddReference(j, e);
      nNew := nNew + 1;
    }

    method UnmarkTried(i: int)
      requires Linked() && 0 <= i < |vvTried| && vvTried[i] != -1
      modifies this`mapInfo, this`nTried, this`vvTried
      ensures Linked() && vvTried == old(vvTried)[i := -1] && nTried == old(nTried) - 1
      ensures var e := old(vvTried)[i];
              && mapInfo == old(mapInfo)[e := old(mapInfo)[e].(fInTried := false)]
              && e in old(mapInfo) && old(mapInfo)[e].fInTried && old(mapInfo)[e].nRefCount == 0 && e !in vvNew
    {
      var e := vvTried[i];
      TriedLeft(env, mapInfo, vvNew, vvTried, i);
      EntryChanged(mapInfo, vRandom, e, mapInfo[e].(fInTried := false));
      IndexUnchanged(env, mapInfo, mapAddr, e, mapInfo[e].(fInTried := false));
      mapInfo := mapInfo[e := mapInfo[e].(fInTried := false)];
      vvTried := vvTried[i := -1];
      nTried := nTried - 1;
    }

    method AddReference(j: int, id: int)
      requires Tables() && 0 <= j < |vvNew| && vvNew[j] == -1
      requires id in mapInfo && !mapInfo[id].fInTried && j == NewSlot(env, mapInfo[id].addr, j / BUCKET_SIZE)
      modifies this`mapInfo, this`vvNew
      ensures Tables() && (old(Linked()) ==> Linked()) && vvNew == old(vvNew)[j := id]
      ensures mapInfo == old(mapInfo)[id := old(mapInfo)[id].(nRefCount := old(mapInfo)[id].nRefCount + 1)]
    {
      var info := mapInfo[id].(nRefCount := mapInfo[id].nRefCount + 1);
      SlotFilled(env, mapInfo, vvNew, j, id);
      EntryChanged(mapInfo, vRandom, id, info);
      if old(Linked()) {
        IndexUnchanged(env, mapInfo, mapAddr, id, info);
      }
      ReferencesChanged(env, mapInfo, vvTried, id, info);
      mapInfo := mapInfo[id := info];
      vvNew := vvNew[j := id];
    }

    method MarkTried(id: int)
      requires Linked() && id in mapInfo && !mapInfo[id].fInTried && mapInfo[id].nRefCount == 0
      requires vvTried[TriedSlot(env, mapInfo[id].addr)] == -1
      modifies this`mapInfo, this`vvTried, this`nTried
      ensures Linked() && vvTried == old(vvTried)[TriedSlot(env, old(mapInfo)[id].addr) := id]
      ensures mapInfo == old(mapInfo)[id := old(mapInfo)[id].(fInTried := true)]
      ensures nTried == old(nTried) + 1
    {
      TriedEntered(env, mapInfo, vvNew, vvTried, id);
      EntryChanged(mapInfo, vRandom, id, mapInfo[id].(fInTried := true));
      IndexUnchanged(env, mapInfo, mapAddr, id, mapInfo[id].(fInTried := true));
      vvTried := vvTried[TriedSlot(env, mapInfo[id].addr) := id];
      nTried := nTried + 1;
      mapInfo := mapInfo[id := mapInfo[id].(fInTried := true)];
    }

    /** The slot the occupant of tried slot `i` would return to. */
    ghost function ReturnSlot(i: int): int
      requires Linked() && 0 <= i < |vvTried| && vvTried[i] != -1
      reads this
    {
      var info := mapInfo[vvTried[i]];
      NewSlot(env, info.addr, env.newBucket(info.addr, info.source))
    }

    /** Who loses a new slot when `id` is promoted: the entry, other than `id`, at the slot to which the
      * evicted occupant returns. */
    ghost function Displaced(id: int): int
      requires Linked() && id in mapInfo
      reads this
    {
      var i := TriedSlot(env, mapInfo[id].addr);
      if vvTried[i] == -1 then -1 else Without(vvNew, id)[ReturnSlot(i)]
    }

    /** Moves an entry from the new table to the tried table. */
    method MakeTried(id: int)
      requires Linked() && id in mapInfo && !mapInfo[id].fInTried
      modifies this`mapInfo, this`mapAddr, this`vRandom, this`nNew, this`vvNew, this`nTried, this`vvTried
      ensures Linked()
      ensures var i := TriedSlot(env, old(mapInfo)[id].addr);
              var e, d := old(vvTried)[i], old(Displaced(id));
              && (e != -1 ==> e in old(mapInfo) && old(mapInfo)[e].fInTried)
              && (d != -1 ==> d in old(mapInfo) && !old(mapInfo)[d].fInTried && d != id)
              && vvTried == old(vvTried)[i := id]
              && vvNew == (if e == -1 then Without(old(vvNew), id)
                else Without(old(vvNew), id)[old(ReturnSlot(i)) := e])
              && SameButPos(Promoted(old(mapInfo), id, e, d), mapInfo)
              && nTried == old(nTried) + (if e == -1 then 1 else 0)
              && nNew == old(nNew) - (if e == -1 then 1 else if LastReference(old(mapInfo), d) then 1 else 0)
    {
      hide RandomOk, AddrOk, NewOk, TriedOk, SameButPos;
      var i := TriedSlot(env, mapInfo[id].addr);
      RemoveFromNew(id);
      nNew := nNew - 1;
      ghost var m := mapInfo;
      SameButPosReflexive(m);
      if vvTried[i] != -1 {
        EvictTried(i);
      }
      ghost var e, d := old(vvTried)[i], old(Displaced(id));
      assert SameButPos(if e == -1 then m else Unreferenced(m, d)[e := m[e].(fInTried := false, nRefCount := 1)],
                        mapInfo);
      MarkComposed(if e == -1 then m else Unreferenced(m, d)[e := m[e].(fInTried := false, nRefCount := 1)], mapInfo,
                   id);
      MarkTried(id);
    }

    /** Replaces the statistics of an entry. */
    method SetStats(id: int, info: Info)
      requires Linked() && id in mapInfo && SameEntry(mapInfo[id], info)
      modifies this`mapInfo
      ensures Linked() && mapInfo == old(mapInfo)[id := info]
      ensures (old(Consistent()) ==> Consistent()) && (old(Awaited()) ==> Awaited())
    {
      EntryChanged(mapInfo, vRandom, id, info);
      IndexUnchanged(env, mapInfo, mapAddr, id, info);
      StatsChanged(env, mapInfo, vvNew, vvTried, id, info);
      StatsFacts(mapInfo, id, info);
      mapInfo := mapInfo[id := info];
    }

    /** Looks for a bucket of the new table that holds `id`, starting anywhere. */
    method FindNewBucket(id: int, nRnd: nat) returns (nUBucket: int)
      requires Linked() && id in mapInfo
      ensures nUBucket == -1 <==> mapInfo[id].nRefCount == 0
      ensures nUBucket != -1 ==>
                0 <= nUBucket < NEW_BUCKET_COUNT && vvNew[NewSlot(env, mapInfo[id].addr, nUBucket)] == id
    {
      hide RandomOk, AddrOk, TriedOk;
      nUBucket := -1;
      for n := 0 to NEW_BUCKET_COUNT
        invariant nUBucket == -1
        invariant forall k :: 0 <= k < n ==> vvNew[NewSlot(env, mapInfo[id].addr, Rotated(k, nRnd))] != id
      {
        var nB := Rotated(n, nRnd);
        if vvNew[NewSlot(env, mapInfo[id].addr, nB)] == id {
          nUBucket := nB;
          assert NewSlot(env, mapInfo[id].addr, nB) in SlotsOf(vvNew, id);
          return;
        }
      }
      forall i | 0 <= i < |vvNew| ensures vvNew[i] != id {
        var b := i / BUCKET_SIZE;
        RotatedOnto(b, nRnd);
        assert vvNew[NewSlot(env, mapInfo[id].addr, b)] != id;
      }
      assert SlotsOf(vvNew, id) == {};
    }

    /** Attempt_: a connection was tried. */
    method Attempt(addr: Service, fCountFailure: bool, nTime: int)
      requires Valid()
      modifies this`mapInfo
      ensures Valid() && Stable(old(mapInfo), nIdCount, mapInfo) &&
              (nTime >= 0 && TimesOk(old(mapInfo)) ==> TimesOk(mapInfo))
      ensures mapInfo == if old(Exact(addr)).None? then old(mapInfo) else
                var info := old(mapInfo)[old(Exact(addr)).value];
                var counts := fCountFailure && info.nLastCountAttempt < nLastGood;
                old(mapInfo)[old(Exact(addr)).value := info.(
                  nLastTry := nTime,
                  nLastCountAttempt := if counts then nTime else info.nLastCountAttempt,
                  nAttempts := info.nAttempts + if counts then 1 else 0)]
    {
      hide RandomOk, AddrOk, NewOk, TriedOk, Referenced, NewIds, TriedIds, CollisionsOk, TimesOk;
      var found := Find(addr);
      if found.None? || mapInfo[found.value].addr != addr {
        return;
      }
      var info := mapInfo[found.value].(nLastTry := nTime);
      if fCountFailure && info.nLastCountAttempt < nLastGood {
        info := info.(nLastCountAttempt := nTime, nAttempts := info.nAttempts + 1);
      }
      AttemptTimes(mapInfo, found.value, info);
      SetStats(found.value, info);
    }

    /** Connected_: the peer is connected now. */
    method Connected(addr: Service, nTime: int)
      requires Valid()
      modifies this`mapInfo
      ensures Valid() && Stable(old(mapInfo), nIdCount, mapInfo) && (TimesOk(old(mapInfo)) ==> TimesOk(mapInfo))
      ensures mapInfo == if old(Exact(addr)).Some? && nTime - old(mapInfo)[old(Exact(addr)).value].nTime > 20 * 60
                         then Seen(old(mapInfo), old(Exact(addr)).value, nTime)
                         else old(mapInfo)
    {
      hide RandomOk, AddrOk, NewOk, TriedOk, Referenced, NewIds, TriedIds, CollisionsOk, TimesOk;
      var found := Find(addr);
      if found.None? || mapInfo[found.value].addr != addr {
        return;
      }
      if nTime - mapInfo[found.value].nTime > 20 * 60 {
        RefreshedTimes(mapInfo, found.value, mapInfo[found.value].(nTime := U32(nTime)));
        SetStats(found.value, mapInfo[found.value].(nTime := U32(nTime)));
      }
    }

    /** MakeTried inside a consistent manager. */
    method Promote(id: int)
      requires Valid() && id in mapInfo && !mapInfo[id].fInTried
      modifies this`mapInfo, this`mapAddr, this`vRandom, this`nNew, this`vvNew, this`nTried, this`vvTried
      ensures Valid()
      ensures var i := TriedSlot(env, old(mapInfo)[id].addr);
              var e, d := old(vvTried)[i], old(Displaced(id));
              && (e != -1 ==> e in old(mapInfo) && old(mapInfo)[e].fInTried)
              && (d != -1 ==> d in old(mapInfo) && !old(mapInfo)[d].fInTried && d != id)
              && vvTried == old(vvTried)[i := id]
              && SameButPos(Promoted(old(mapInfo), id, e, d), mapInfo)
    {
      hide RandomOk, AddrOk, NewOk, TriedOk, Referenced, SameButPos, Promoted, CollisionsOk, NewIds, TriedIds;
      MakeTried(id);
      ghost var e, d := old(vvTried)[TriedSlot(env, old(mapInfo)[id].addr)], old(Displaced(id));
      PromotedCounts(old(mapInfo), id, e, d);
      PromotedReferenced(old(mapInfo), id, e, d);
      SameButPosFacts(Promoted(old(mapInfo), id, e, d), mapInfo);
      PromotedCollisions(env, old(mapInfo), id, e, d, mapInfo, old(vvTried), triedCollisions, nIdCount);
    }

    /** The entry for exactly this address and port, if any. */
    ghost function Exact(addr: Service): Option<int>
      reads this
    {
      if Found(addr).Some? && mapInfo[Found(addr).value].addr == addr then Found(addr) else None
    }

    lemma ExactOf(id: int)
      requires Linked() && id in mapInfo
      ensures Exact(mapInfo[id].addr) == Some(id)
    {
    }

    lemma NotFound(addr: Service)
      requires Linked() && env.discriminatePorts && forall id :: id in mapInfo ==> mapInfo[id].addr != addr
      ensures Found(addr).None?
    {
      IndexHit(env, mapInfo, mapAddr, addr);
    }

    /** Good_: a successful connection. The entry moves to tried unless that would evict and the caller
      * wants the occupant tested first; then it becomes a candidate if there is room. */
    method Good(addr: Service, testBeforeEvict: bool, nTime: int, nRnd: nat)
      requires Valid()
      modifies this`nLastGood, this`mapInfo, this`mapAddr, this`vRandom, this`nNew, this`vvNew, this`nTried,
               this`vvTried, this`triedCollisions
      ensures Valid() && nLastGood == nTime
      ensures Stable(old(mapInfo), nIdCount, mapInfo) && TriedKept(old(vvTried), vvTried)
      ensures nTime > 0 && TimesOk(old(mapInfo)) ==> TimesOk(mapInfo)
      ensures old(Exact(addr)).None? ==>
                mapInfo == old(mapInfo) && vvTried == old(vvTried) && vvNew == old(vvNew) &&
                  triedCollisions == old(triedCollisions)
      ensures old(Exact(addr)).Some? ==>
                var id := old(Exact(addr)).value;
                var m := GoodStats(old(mapInfo), id, nTime);
                var i := TriedSlot(env, addr);
                var e := old(vvTried)[i];
                if old(mapInfo)[id].fInTried || (testBeforeEvict && e != -1) then
                  && mapInfo == m && vvTried == old(vvTried) && vvNew == old(vvNew)
                  && triedCollisions == (if old(mapInfo)[id].fInTried ||
                    |old(triedCollisions)| >= SET_TRIED_COLLISION_SIZE
                                         then old(triedCollisions) else old(triedCollisions) + {id})
                else
                  var d := old(Displaced(id));
                  && (e != -1 ==> e in m && e != id && (d != -1 ==> d in m && d != id && d != e))
                  && vvTried == old(vvTried)[i := id] && triedCollisions == old(triedCollisions)
                  && SameButPos(Promoted(m, id, e, d), mapInfo)
    {
      hide RandomOk, AddrOk, NewOk, TriedOk, SameButPos, Promoted, CollisionsOk, NewIds, TriedIds, TimesOk, Referenced;
      nLastGood := nTime;
      var found := Find(addr);
      if found.None? || mapInfo[found.value].addr != addr {
        return;
      }
      GoodEntry(found.value, testBeforeEvict, nTime, nRnd);
    }

    /** The part of Good_ after the entry was found. */
    method GoodEntry(id: int, testBeforeEvict: bool, nTime: int, nRnd: nat)
      requires Valid() && id in mapInfo
      modifies this`mapInfo, this`mapAddr, this`vRandom, this`nNew, this`vvNew, this`nTried, this`vvTried,
               this`triedCollisions
      ensures Valid()
      ensures Stable(old(mapInfo), nIdCount, mapInfo) && TriedKept(old(vvTried), vvTried)
      ensures nTime > 0 && TimesOk(old(mapInfo)) ==> TimesOk(mapInfo)
      ensures var m := GoodStats(old(mapInfo), id, nTime);
              var i := TriedSlot(env, old(mapInfo)[id].addr);
              var e := old(vvTried)[i];
              if old(mapInfo)[id].fInTried || (testBeforeEvict && e != -1) then
                && mapInfo == m && vvTried == old(vvTried) && vvNew == old(vvNew)
                && triedCollisions == (if old(mapInfo)[id].fInTried ||
                  |old(triedCollisions)| >= SET_TRIED_COLLISION_SIZE
                                       then old(triedCollisions) else old(triedCollisions) + {id})
              else
                var d := old(Displaced(id));
                && (e != -1 ==> e in m && e != id && (d != -1 ==> d in m && d != id && d != e))
                && vvTried == old(vvTried)[i := id] && triedCollisions == old(triedCollisions)
                && SameButPos(Promoted(m, id, e, d), mapInfo)
    {
      hide RandomOk, AddrOk, NewOk, TriedOk, SameButPos, Promoted, CollisionsOk, NewIds, TriedIds, TimesOk;
      var info := mapInfo[id].(nLastSuccess := nTime, nLastTry := nTime, nAttempts := 0);
      ghost var d := Displaced(id);
      GoodStatsTimes(mapInfo, id, nTime);
      SetStats(id, info);
      if mapInfo[id].fInTried {
        return;
      }
      // Every entry that is not tried has a reference, so the source's bail-out is never taken.
      var nUBucket := FindNewBucket(id, nRnd);
      assert nUBucket != -1;
      var i := TriedSlot(env, mapInfo[id].addr);
      if testBeforeEvict && vvTried[i] != -1 {
        AddCandidate(id);
      } else {
        assert Displaced(id) == d;
        ghost var m := mapInfo;
        PromoteWithTimes(id);
        PromotedStable(m, id, old(vvTried)[i], d, nIdCount, mapInfo);
      }
    }

    method AddCandidate(id: int)
      requires Valid() && id in mapInfo && vvTried[TriedSlot(env, mapInfo[id].addr)] != -1
      modifies this`triedCollisions
      ensures Valid()
      ensures triedCollisions == if |old(triedCollisions)| >= SET_TRIED_COLLISION_SIZE then old(triedCollisions)
                                 else old(triedCollisions) + {id}
    {
      if |triedCollisions| < SET_TRIED_COLLISION_SIZE {
        triedCollisions := triedCollisions + {id};
      }
    }

    method PromoteWithTimes(id: int)
      requires Valid() && id in mapInfo && !mapInfo[id].fInTried
      modifies this`mapInfo, this`mapAddr, this`vRandom, this`nNew, this`vvNew, this`nTried, this`vvTried
      ensures Valid()
      ensures var i := TriedSlot(env, old(mapInfo)[id].addr);
              var e, d := old(vvTried)[i], old(Displaced(id));
              && (e != -1 ==> e in old(mapInfo) && e != id && (d != -1 ==> d in old(mapInfo) && d != id && d != e))
              && vvTried == old(vvTried)[i := id]
              && SameButPos(Promoted(old(mapInfo), id, e, d), mapInfo)
      ensures TimesOk(old(mapInfo)) && old(mapInfo)[id].nLastSuccess != 0 ==> TimesOk(mapInfo)
    {
      hide RandomOk, AddrOk, NewOk, TriedOk, Referenced, SameButPos, Promoted, CollisionsOk, NewIds, TriedIds, TimesOk;
      Promote(id);
      ghost var e, d := old(vvTried)[TriedSlot(env, old(mapInfo)[id].addr)], old(Displaced(id));
      SameButPosFacts(Promoted(old(mapInfo), id, e, d), mapInfo);
      if TimesOk(old(mapInfo)) && old(mapInfo)[id].nLastSuccess != 0 {
        PromotedTimes(old(mapInfo), id, e, d);
      }
    }

    /** Is there room at new slot `i` for an entry without references? */
    ghost predicate Room(i: int, now: int)
      requires Linked() && 0 <= i < |vvNew|
      reads this
    {
      vvNew[i] == -1 || IsTerrible(mapInfo[vvNew[i]], now) || mapInfo[vvNew[i]].nRefCount > 1
    }

    /** Add_: an address heard of. True means it was unknown, not that it was kept: a new entry stays
      * only if its slot has room. The tried table is never touched. */
    method Add(addr: Address, source: NetAddr, nTimePenalty: int, now: int, lucky: bool) returns (fNew: bool)
      requires Consistent()
      modifies this`nIdCount, this`mapInfo, this`mapAddr, this`vRandom, this`nNew, this`vvNew
      ensures Consistent() && (old(Awaited()) ==> Awaited()) && nIdCount == old(nIdCount) + (if fNew then 1 else 0)
      ensures Stable(old(mapInfo), old(nIdCount), mapInfo)
      ensures TimesOk(old(mapInfo)) ==> TimesOk(mapInfo)
      ensures fNew <==> env.routable(addr.service) && old(Found(addr.service)).None?
      ensures !env.routable(addr.service) ==> mapInfo == old(mapInfo) && vvNew == old(vvNew)
      ensures fNew ==>
                var i := NewSlot(env, addr.service, env.newBucket(addr.service, source));
                var id, d := old(nIdCount), old(vvNew)[i];
                var info := NewInfo(addr, source, PenaltyFor(addr, source, nTimePenalty));
                if old(Room(i, now)) then
                  && d != id && (d != -1 ==> d in old(mapInfo))
                  && vvNew == old(vvNew)[i := id]
                  && SameButPos(Placed(old(mapInfo)[id := info], id, d), mapInfo)
                else
                  vvNew == old(vvNew) && SameButPos(old(mapInfo), mapInfo)
      ensures !fNew && env.routable(addr.service) ==>
                var id := old(Found(addr.service)).value;
                var m := old(mapInfo)[id := Refreshed(old(mapInfo)[id], addr, PenaltyFor(addr, source, nTimePenalty),
                                                      now)];
                var i := NewSlot(env, m[id].addr, env.newBucket(m[id].addr, source));
                var d := old(vvNew)[i];
                if Renewed(m, id, addr, lucky) && d != id && (d != -1 ==> d in m && IsTerrible(m[d], now)) then
                  vvNew == old(vvNew)[i := id] && SameButPos(Placed(m, id, d), mapInfo)
                else
                  mapInfo == m && vvNew == old(vvNew)
    {
      hide RandomOk, AddrOk, NewOk, TriedOk, SameButPos, CollisionsOk, NewIds, TriedIds, TimesOk, Referenced, Placed,
        Refreshed, IsTerrible, Renewed;
      if !env.routable(addr.service) {
        return false;
      }
      var found := Find(addr.service);
      var penalty := PenaltyFor(addr, source, nTimePenalty);
      if found.Some? {
        AddKnown(found.value, addr, source, penalty, now, lucky);
        return false;
      }
      AddUnknown(addr, source, penalty, now);
      return true;
    }

    /** Consistent, but `id` may be without references. */
    ghost predicate AlmostValid(id: int)
      reads this
    {
      && Linked()
      && id in mapInfo && !mapInfo[id].fInTried && mapInfo[id].nRefCount < NEW_BUCKETS_PER_ADDRESS
      && Referenced(mapInfo, {id})
      && nNew == |NewIds(mapInfo)| && nTried == |TriedIds(mapInfo)|
    }

    /** The last part of Add_: takes the slot if it may, and gives up an entry left without references. */
    method PlaceInNew(id: int, i: int, now: int)
      requires AlmostValid(id) && 0 <= i < |vvNew| && i == NewSlot(env, mapInfo[id].addr, i / BUCKET_SIZE)
      modifies this`mapInfo, this`mapAddr, this`vRandom, this`nNew, this`vvNew
      ensures Consistent() && (old(Awaited()) ==> Awaited())
      ensures var d, refs := old(vvNew)[i], old(mapInfo)[id].nRefCount;
              && (d != -1 ==> d in old(mapInfo))
              && (d == id ==> refs > 0 && mapInfo == old(mapInfo) && vvNew == old(vvNew))
              && (d != id ==>
                    if d == -1 || IsTerrible(old(mapInfo)[d], now) || (old(mapInfo)[d].nRefCount > 1 && refs == 0) then
                      vvNew == old(vvNew)[i := id] && SameButPos(Placed(old(mapInfo), id, d), mapInfo)
                    else
                      vvNew == old(vvNew) && (if refs == 0 then SameButPos(old(mapInfo) - {id}, mapInfo)
                        else mapInfo == old(mapInfo)))
    {
      hide RandomOk, AddrOk, TriedOk, SameButPos, CollisionsOk, NewIds, TriedIds, IsTerrible, Placed, Referenced;
      RefsOf(mapInfo, id, i);
      if vvNew[i] != id {
        var fInsert := vvNew[i] == -1;
        if !fInsert {
          var existing := mapInfo[vvNew[i]];
          if IsTerrible(existing, now) || (existing.nRefCount > 1 && mapInfo[id].nRefCount == 0) {
            fInsert := true;
          }
        }
        if fInsert {
          Take(id, i);
        } else if mapInfo[id].nRefCount == 0 {
          GiveUp(id);
        }
      }
    }

    lemma RefsOf(m: InfoMap, id: int, i: int)
      requires Linked() && m == mapInfo && id in m && 0 <= i < |vvNew|
      ensures m[id].nRefCount >= 0 && (vvNew[i] == id ==> m[id].nRefCount >= 1)
      ensures vvNew[i] != -1 ==> vvNew[i] in m && !m[vvNew[i]].fInTried
      ensures Referenced(m, {id}) && m[id].nRefCount >= 1 ==> Referenced(m, {})
    {
      if vvNew[i] == id {
        assert i in SlotsOf(vvNew, id);
      }
    }

    method Take(id: int, i: int)
      requires AlmostValid(id) && 0 <= i < |vvNew| && i == NewSlot(env, mapInfo[id].addr, i / BUCKET_SIZE) &&
               vvNew[i] != id
      modifies this`mapInfo, this`mapAddr, this`vRandom, this`nNew, this`vvNew
      ensures Consistent() && (old(Awaited()) ==> Awaited()) && vvNew == old(vvNew)[i := id]
      ensures old(vvNew)[i] != -1 ==> old(vvNew)[i] in old(mapInfo)
      ensures SameButPos(Placed(old(mapInfo), id, old(vvNew)[i]), mapInfo)
    {
      hide RandomOk, AddrOk, NewOk, TriedOk, SameButPos, CollisionsOk, NewIds, TriedIds, Referenced;
      ghost var m, d := mapInfo, vvNew[i];
      RefsOf(m, id, i);
      ClearNew(i);
      assert id in Unreferenced(m, d) && Unreferenced(m, d)[id] == m[id];
      PlacedComposed(Unreferenced(m, d), mapInfo, id);
      AddReference(i, id);
      PlacedFacts(m, id, d);
      SameButPosFacts(Placed(m, id, d), mapInfo);
      if old(Awaited()) {
        PlacedCollisions(env, m, id, d, mapInfo, vvTried, triedCollisions, nIdCount);
      }
    }

    method GiveUp(id: int)
      requires AlmostValid(id) && mapInfo[id].nRefCount == 0
      modifies this`mapInfo, this`mapAddr, this`vRandom, this`nNew
      ensures Consistent() && (old(Awaited()) ==> Awaited()) && SameButPos(old(mapInfo) - {id}, mapInfo)
    {
      hide RandomOk, AddrOk, NewOk, TriedOk, CollisionsOk, NewIds, TriedIds;
      ghost var m := mapInfo;
      CountRemove(m, id);
      Delete(id);
      assert Referenced(m - {id}, {});
      SameButPosFacts(m - {id}, mapInfo);
      if old(Awaited()) {
        CollisionsKept(env, m, mapInfo, vvTried, vvTried, triedCollisions, nIdCount, nIdCount);
      }
    }

    method AddUnknown(addr: Address, source: NetAddr, penalty: int, now: int)
      requires Consistent() && Found(addr.service).None?
      modifies this`nIdCount, this`mapInfo, this`mapAddr, this`vRandom, this`nNew, this`vvNew
      ensures Consistent() && (old(Awaited()) ==> Awaited()) && nIdCount == old(nIdCount) + 1
      ensures Stable(old(mapInfo), old(nIdCount), mapInfo)
      ensures TimesOk(old(mapInfo)) ==> TimesOk(mapInfo)
      ensures var i := NewSlot(env, addr.service, env.newBucket(addr.service, source));
              var id, d := old(nIdCount), old(vvNew)[i];
              if old(Room(i, now)) then
                && d != id && (d != -1 ==> d in old(mapInfo))
                && vvNew == old(vvNew)[i := id]
                && SameButPos(Placed(old(mapInfo)[id := NewInfo(addr, source, penalty)], id, d), mapInfo)
              else
                vvNew == old(vvNew) && SameButPos(old(mapInfo), mapInfo)
    {
      hide RandomOk, TriedOk, SameButPos, CollisionsOk, NewIds, TriedIds, IsTerrible, Placed, Referenced, TimesOk;
      var i := NewSlot(env, addr.service, env.newBucket(addr.service, source));
      ghost var m, d := mapInfo, vvNew[i];
      var id := Enter(addr, source, penalty);
      assert m[id := mapInfo[id]] - {id} == m;
      assert d != id;
      PlaceInNew(id, i, now);
      NewInfoPlaced(m, id, m[id := NewInfo(addr, source, penalty).(nRandomPos := |old(vRandom)|)][id], d, mapInfo);
      UnknownStable(m, id, NewInfo(addr, source, penalty), d, mapInfo);
      if TimesOk(m) {
        UnknownTimes(m, id, NewInfo(addr, source, penalty), d, mapInfo);
      }
    }

    /** Create, with the time penalty applied and the counter raised. */
    method Enter(addr: Address, source: NetAddr, penalty: int) returns (id: int)
      requires Consistent() && Found(addr.service).None?
      modifies this`nIdCount, this`mapInfo, this`mapAddr, this`vRandom, this`nNew
      ensures AlmostValid(id) && (old(Awaited()) ==> Awaited())
      ensures id == old(nIdCount) && nIdCount == id + 1 && id !in old(mapInfo)
      ensures mapInfo == old(mapInfo)[id := NewInfo(addr, source, penalty).(nRandomPos := |old(vRandom)|)]
    {
      hide RandomOk, NewOk, TriedOk, NewIds, TriedIds, CollisionsOk, Referenced;
      assert Key(env, addr.service) !in mapAddr;
      hide AddrOk;
      id := Create(addr, source);
      var nTime := U32(Max(0, mapInfo[id].nTime - penalty));
      SetStats(id, mapInfo[id].(nTime := nTime));
      ghost var info := NewInfo(addr, source, penalty).(nRandomPos := |old(vRandom)|);
      assert mapInfo == old(mapInfo)[id := info];
      EnteredFacts(old(mapInfo), id, info);
      if old(Awaited()) {
        CollisionsKept(env, old(mapInfo), mapInfo, vvTried, vvTried, triedCollisions, id, nIdCount);
      }
      nNew := nNew + 1;
    }

    method AddKnown(id: int, addr: Address, source: NetAddr, penalty: int, now: int, lucky: bool)
      requires Consistent() && id in mapInfo
      modifies this`mapInfo, this`mapAddr, this`vRandom, this`nNew, this`vvNew
      ensures Consistent() && (old(Awaited()) ==> Awaited())
      ensures Stable(old(mapInfo), nIdCount, mapInfo)
      ensures TimesOk(old(mapInfo)) ==> TimesOk(mapInfo)
      ensures var m := old(mapInfo)[id := Refreshed(old(mapInfo)[id], addr, penalty, now)];
              var i := NewSlot(env, m[id].addr, env.newBucket(m[id].addr, source));
              var d := old(vvNew)[i];
              if Renewed(m, id, addr, lucky) && d != id && (d != -1 ==> d in m && IsTerrible(m[d], now)) then
                vvNew == old(vvNew)[i := id] && SameButPos(Placed(m, id, d), mapInfo)
              else
                mapInfo == m && vvNew == old(vvNew)
    {
      hide RandomOk, AddrOk, NewOk, TriedOk, SameButPos, CollisionsOk, NewIds, TriedIds, IsTerrible, Placed, TimesOk;
      var info := Refreshed(mapInfo[id], addr, penalty, now);
      RefreshedTimes(mapInfo, id, info);
      SetStats(id, info);
      ghost var m := mapInfo;
      if addr.nTime == 0 || (mapInfo[id].nTime != 0 && addr.nTime <= mapInfo[id].nTime) {
        return;
      }
      if mapInfo[id].fInTried || mapInfo[id].nRefCount == NEW_BUCKETS_PER_ADDRESS {
        return;
      }
      var nFactor := 1;
      for n := 0 to mapInfo[id].nRefCount
        invariant nFactor >= 1 && (n > 0 ==> nFactor > 1)
      {
        nFactor := nFactor * 2;
      }
      if nFactor > 1 && !lucky {
        return;
      }
      var i := NewSlot(env, mapInfo[id].addr, env.newBucket(mapInfo[id].addr, source));
      ghost var d := vvNew[i];
      assert mapInfo[id].nRefCount >= 1;
      PlaceInNew(id, i, now);
      if vvNew != old(vvNew) {
        PlacedStable(m, id, d, nIdCount, mapInfo);
      }
      if TimesOk(m) && d != id {
        PlacedTimes(m, id, d, mapInfo);
      }
    }

    /** Does candidate `id` go on waiting? Its slot must be taken by an entry that has neither
      * succeeded of late nor used up its chance to be tested. */
    ghost predicate Waits(id: int, now: int)
      requires Valid()
      reads this
    {
      && id in mapInfo && env.valid(mapInfo[id].addr)
      && var i := TriedSlot(env, mapInfo[id].addr);
         && vvTried[i] != -1
         && var occupant := mapInfo[vvTried[i]];
            && now - occupant.nLastSuccess >= REPLACEMENT_HOURS * (60 * 60)
            && (if now - occupant.nLastTry < REPLACEMENT_HOURS * (60 * 60) then now - occupant.nLastTry <= 60
                else now - mapInfo[id].nLastSuccess <= TEST_WINDOW)
    }

    /** Is candidate `id` moved to tried? */
    ghost predicate Wins(id: int, now: int)
      requires Valid()
      reads this
    {
      && id in mapInfo && env.valid(mapInfo[id].addr) && !Waits(id, now)
      && var i := TriedSlot(env, mapInfo[id].addr);
         vvTried[i] != -1 && now - mapInfo[vvTried[i]].nLastSuccess >= REPLACEMENT_HOURS * (60 * 60)
    }

    /** One round of ResolveCollisions_. */
    method ResolveOne(id: int, now: int, nRnd: nat)
      requires Valid() && id in triedCollisions
      modifies this`nLastGood, this`mapInfo, this`mapAddr, this`vRandom, this`nNew, this`vvNew, this`nTried,
               this`vvTried, this`triedCollisions
      ensures Valid() && (now > 0 && TimesOk(old(mapInfo)) ==> TimesOk(mapInfo))
      ensures Stable(old(mapInfo), nIdCount, mapInfo) && TriedKept(old(vvTried), vvTried)
      ensures triedCollisions == if old(Waits(id, now)) then old(triedCollisions) else old(triedCollisions) - {id}
      ensures old(Wins(id, now)) ==> id in mapInfo && mapInfo[id].fInTried
      ensures !old(Wins(id, now)) ==> mapInfo == old(mapInfo) && vvTried == old(vvTried) && vvNew == old(vvNew)
    {
      hide RandomOk, NewOk, SameButPos, TimesOk, Referenced, NewIds, TriedIds, Promoted;
      var eraseCollision := false;
      if id !in mapInfo {
        eraseCollision := true;
      } else {
        var infoNew := mapInfo[id];
        var i := TriedSlot(env, infoNew.addr);
        if !env.valid(infoNew.addr) {
          eraseCollision := true;
        } else if vvTried[i] != -1 {
          var infoOld := mapInfo[vvTried[i]];
          if now - infoOld.nLastSuccess < REPLACEMENT_HOURS * (60 * 60) {
            eraseCollision := true;
          } else if now - infoOld.nLastTry < REPLACEMENT_HOURS * (60 * 60) {
            if now - infoOld.nLastTry > 60 {
              Replace(id, now, nRnd);
              eraseCollision := true;
            }
          } else if now - infoNew.nLastSuccess > TEST_WINDOW {
            Replace(id, now, nRnd);
            eraseCollision := true;
          }
        } else {
          // A candidate's slot is taken and tried slots are only ever replaced: it cannot be empty now.
          assert false;
        }
      }
      if eraseCollision {
        Drop(id);
      }
    }

    method Drop(id: int)
      requires Valid() && id in triedCollisions
      modifies this`triedCollisions
      ensures Valid() && triedCollisions == old(triedCollisions) - {id}
    {
      triedCollisions := triedCollisions - {id};
    }

    /** Good_ on an entry's own address, without testing the occupant first. */
    method Replace(id: int, now: int, nRnd: nat)
      requires Valid() && id in mapInfo
      modifies this`nLastGood, this`mapInfo, this`mapAddr, this`vRandom, this`nNew, this`vvNew, this`nTried,
               this`vvTried, this`triedCollisions
      ensures Valid() && (now > 0 && TimesOk(old(mapInfo)) ==> TimesOk(mapInfo))
      ensures triedCollisions == old(triedCollisions)
      ensures Stable(old(mapInfo), nIdCount, mapInfo) && TriedKept(old(vvTried), vvTried)
      ensures id in mapInfo && mapInfo[id].fInTried
    {
      hide RandomOk, NewOk, TriedOk, TimesOk, Referenced, NewIds, TriedIds, CollisionsOk;
      assert Exact(mapInfo[id].addr) == Some(id);
      Good(mapInfo[id].addr, false, now, nRnd);
    }

    /** ResolveCollisions_: no candidate is added, and the manager stays consistent. */
    method ResolveCollisions(now: int, rnd: nat -> nat)
      requires Valid()
      modifies this`nLastGood, this`mapInfo, this`mapAddr, this`vRandom, this`nNew, this`vvNew, this`nTried,
               this`vvTried, this`triedCollisions
      ensures Valid() && (now > 0 && TimesOk(old(mapInfo)) ==> TimesOk(mapInfo))
      ensures triedCollisions <= old(triedCollisions)
      ensures Stable(old(mapInfo), nIdCount, mapInfo) && TriedKept(old(vvTried), vvTried)
    {
      hide RandomOk, AddrOk, NewOk, TriedOk, TimesOk, Referenced, NewIds, TriedIds, CollisionsOk;
      for id := 0 to nIdCount
        invariant Valid() && (now > 0 && TimesOk(old(mapInfo)) ==> TimesOk(mapInfo))
        invariant triedCollisions <= old(triedCollisions)
        invariant Stable(old(mapInfo), nIdCount, mapInfo) && TriedKept(old(vvTried), vvTried)
      {
        if id in triedCollisions {
          ResolveOne(id, now, rnd(id));
        }
      }
    }

    /** SelectTriedCollision_: the occupant some candidate would evict. A candidate that still exists
      * always has one: the tried slot read is never -1. */
    method SelectTriedCollision(idNew: int) returns (r: Option<Info>)
      requires Valid() && (triedCollisions != {} ==> idNew in triedCollisions)
      modifies this`triedCollisions
      ensures Valid()
      ensures r.Some? <==> idNew in old(triedCollisions) && idNew in mapInfo
      ensures r.Some? ==> triedCollisions == old(triedCollisions) && Evicts(idNew, r.value)
      ensures r.None? ==> triedCollisions == old(triedCollisions) - {idNew}
    {
      hide RandomOk, AddrOk, NewOk, Referenced, NewIds, TriedIds;
      if triedCollisions == {} {
        return None;
      }
      if idNew !in mapInfo {
        Drop(idNew);
        return None;
      }
      var idOld := vvTried[TriedSlot(env, mapInfo[idNew].addr)];
      assert idOld != -1;
      return Some(mapInfo[idOld]);
    }

    ghost predicate Evicts(id: int, occupant: Info)
      requires Linked()
      reads this
    {
      && id in mapInfo
      && var i := TriedSlot(env, mapInfo[id].addr);
         vvTried[i] != -1 && occupant == mapInfo[vvTried[i]] && occupant.fInTried
    }

    /** Clear: everything goes but the candidates, so the manager is consistent afterwards exactly when
      * there were none. */
    method Clear(envIn: Env)
      modifies this
      ensures triedCollisions == old(triedCollisions) && env == envIn && nIdCount == 0
      ensures mapInfo == map[] && mapAddr == map[] && vRandom == [] && Consistent() && nNew == nTried == 0
      ensures forall i :: 0 <= i < |vvNew| ==> vvNew[i] == -1
      ensures forall i :: 0 <= i < |vvTried| ==> vvTried[i] == -1
      ensures |triedCollisions| <= SET_TRIED_COLLISION_SIZE ==>
                (Valid() <==> forall id :: id !in old(triedCollisions))
    {
      hide RandomOk, AddrOk, NewOk, TriedOk, Referenced, NewIds, TriedIds;
      env := envIn;
      vRandom, mapInfo, mapAddr := [], map[], map[];
      nIdCount, nTried, nNew, nLastGood := 0, 0, 0, 1;
      vvTried := seq(TRIED_BUCKET_COUNT * BUCKET_SIZE, _ => -1);
      vvNew := seq(NEW_BUCKET_COUNT * BUCKET_SIZE, _ => -1);
      EmptyTables(env, vvNew, vvTried, triedCollisions);
    }

    /** GetAddr_: a random sample of addresses worth passing on; vRandom is only permuted. */
    method GetAddr(now: int, rnd: nat -> nat) returns (vAddr: seq<Address>)
      requires Valid()
      modifies this`mapInfo, this`vRandom
      ensures Valid() && SameButPos(old(mapInfo), mapInfo)
      ensures |vAddr| <= GETADDR_MAX && 100 * |vAddr| <= GETADDR_MAX_PCT * |vRandom| && |vRandom| == |old(vRandom)|
      ensures forall k :: 0 <= k < |vAddr| ==> SampleOf(mapInfo, now, vAddr[k])
      ensures forall j, k :: 0 <= j < k < |vAddr| ==> vAddr[j].service != vAddr[k].service
    {
      hide NewOk, TriedOk, AddrOk, RandomOk, Referenced, NewIds, TriedIds, CollisionsOk, SameButPos, SampleOf, Picked;
      SameButPosReflexive(mapInfo);
      var nNodes := GETADDR_MAX_PCT * |vRandom| / 100;
      if nNodes > GETADDR_MAX {
        nNodes := GETADDR_MAX;
      }
      vAddr := [];
      ghost var picks: seq<int> := [];
      var n := 0;
      NothingPicked(mapInfo, vRandom, now);
      while n < |vRandom| && |vAddr| < nNodes
        invariant 0 <= n <= |vRandom| == |old(vRandom)| && |vAddr| <= nNodes
        invariant RandomOk(mapInfo, vRandom) && SameButPos(old(mapInfo), mapInfo)
        invariant Picked(mapInfo, vRandom, picks, n, vAddr, now)
      {
        var nRndPos := rnd(n) % (|vRandom| - n) + n;
        ghost var m := mapInfo;
        vAddr, picks := PickOne(n, nRndPos, vAddr, picks, now);
        SameButPosEuclid(old(mapInfo), m, mapInfo);
        n := n + 1;
      }
      PermutedStaysValid();
      SampleDistinct(picks, n, vAddr, now);
    }

    /** One round of GetAddr_: the entry swapped to place `n` is taken if it is worth passing on. */
    method PickOne(n: nat, nRndPos: nat, vAddr0: seq<Address>, ghost picks0: seq<int>, now: int)
      returns (vAddr: seq<Address>, ghost picks: seq<int>)
      requires RandomOk(mapInfo, vRandom) && n <= nRndPos < |vRandom| &&
               Picked(mapInfo, vRandom, picks0, n, vAddr0, now)
      modifies this`mapInfo, this`vRandom
      ensures RandomOk(mapInfo, vRandom) && SameButPos(old(mapInfo), mapInfo) && |vRandom| == |old(vRandom)|
      ensures Picked(mapInfo, vRandom, picks, n + 1, vAddr, now) && |vAddr| <= |vAddr0| + 1
    {
      hide IsTerrible, SameButPos, Picked, RandomOk;
      vAddr, picks := vAddr0, picks0;
      SwapRandom(n, nRndPos);
      RandomIn(mapInfo, vRandom, n);
      PickedKept(old(mapInfo), old(vRandom), picks, n, vAddr, now, mapInfo, vRandom);
      var ai := mapInfo[vRandom[n]];
      if !IsTerrible(ai, now) {
        PickedMore(mapInfo, vRandom, picks, n, vAddr, now);
        vAddr := vAddr + [AddressOf(ai)];
        picks := picks + [n];
      }
    }

    twostate lemma PermutedStaysValid()
      requires old(Valid()) && RandomOk(mapInfo, vRandom) && SameButPos(old(mapInfo), mapInfo)
      requires unchanged(this`env, this`nIdCount, this`mapAddr, this`nTried, this`vvTried, this`nNew, this`vvNew,
                         this`triedCollisions)
      ensures Valid()
    {
      hide NewOk, TriedOk, AddrOk;
      PosIrrelevant(env, old(mapInfo), mapInfo, vvNew, vvTried);
      IndexPosIrrelevant(env, old(mapInfo), mapInfo, mapAddr);
      SameButPosFacts(old(mapInfo), mapInfo);
      CollisionsKept(env, old(mapInfo), mapInfo, vvTried, vvTried, triedCollisions, nIdCount, nIdCount);
    }

    lemma SampleDistinct(picks: seq<int>, n: nat, vAddr: seq<Address>, now: int)
      requires RandomOk(mapInfo, vRandom) && AddrOk(env, mapInfo, mapAddr) && n <= |vRandom|
      requires Picked(mapInfo, vRandom, picks, n, vAddr, now)
      ensures forall k :: 0 <= k < |vAddr| ==> SampleOf(mapInfo, now, vAddr[k])
      ensures forall j, k :: 0 <= j < k < |vAddr| ==> vAddr[j].service != vAddr[k].service
    {
      forall k | 0 <= k < |vAddr| ensures SampleOf(mapInfo, now, vAddr[k]) {
        assert Sampled(mapInfo, vRandom[picks[k]], now, vAddr[k]);
      }
    }
  }

  function AddressOf(i: Info): Address { Address(i.addr, i.nServices, i.nTime) }

  ghost predicate Sampled(m: InfoMap, id: int, now: int, a: Address) {
    id in m && !IsTerrible(m[id], now) && a == AddressOf(m[id])
  }

  /** Some entry worth passing on has this address. */
  ghost predicate SampleOf(m: InfoMap, now: int, a: Address) {
    exists id :: Sampled(m, id, now, a)
  }

  /** The sample so far: entries at rising places below `n`. */
  ghost predicate Picked(m: InfoMap, vRandom: seq<int>, picks: seq<int>, n: int, vAddr: seq<Address>, now: int) {
    && |picks| == |vAddr|
    && (forall k :: 0 <= k < |picks| ==>
        0 <= picks[k] < n && n <= |vRandom| && Sampled(m, vRandom[picks[k]], now, vAddr[k]))
    && (forall j, k :: 0 <= j < k < |picks| ==> picks[j] < picks[k])
  }

  lemma NothingPicked(m: InfoMap, vRandom: seq<int>, now: int)
    ensures Picked(m, vRandom, [], 0, [], now)
  {
  }

  lemma RandomIn(m: InfoMap, vRandom: seq<int>, i: nat)
    requires RandomOk(m, vRandom) && i < |vRandom|
    ensures vRandom[i] in m
  {
  }

  /** A swap of later places leaves the sample as it is. */
  lemma PickedKept(m: InfoMap, v: seq<int>, picks: seq<int>, n: int, vAddr: seq<Address>, now: int, m': InfoMap,
                   v': seq<int>)
    requires Picked(m, v, picks, n, vAddr, now) && SameButPos(m, m') && |v'| == |v| && 0 <= n < |v|
    requires forall i :: 0 <= i < n ==> v'[i] == v[i]
    ensures Picked(m', v', picks, n + 1, vAddr, now) && forall k :: 0 <= k < |picks| ==> picks[k] < n
  {
    forall k | 0 <= k < |picks|
      ensures 0 <= picks[k] < n + 1 && Sampled(m', v'[picks[k]], now, vAddr[k])
    {
      SampledKept(m, m', v[picks[k]], now, vAddr[k]);
    }
  }

  lemma SampledKept(m: InfoMap, m': InfoMap, id: int, now: int, a: Address)
    requires Sampled(m, id, now, a) && SameButPos(m, m')
    ensures Sampled(m', id, now, a)
  {
  }

  lemma PickedMore(m: InfoMap, vRandom: seq<int>, picks: seq<int>, n: nat, vAddr: seq<Address>, now: int)
    requires n < |vRandom| && vRandom[n] in m && !IsTerrible(m[vRandom[n]], now)
    requires Picked(m, vRandom, picks, n + 1, vAddr, now) && forall k :: 0 <= k < |picks| ==> picks[k] < n
    ensures Picked(m, vRandom, picks + [n], n + 1, vAddr + [AddressOf(m[vRandom[n]])], now)
  {
    hide IsTerrible;
  }

  /** A source announcing itself is not penalised. */
  function PenaltyFor(addr: Address, source: NetAddr, nTimePenalty: int): int {
    if addr.service.ip == source then 0 else nTimePenalty
  }

  function NewInfo(addr: Address, source: NetAddr, penalty: int): Info {
    Info(addr.service, addr.nServices, U32(Max(0, addr.nTime - penalty)), source, 0, 0, 0, 0, 0, false, -1)
  }

  /** A known entry may get one more reference: the announcement is news, the entry is not tried and not
    * referenced often enough, and it had luck in the draw that gets harder with every reference. */
  predicate Renewed(m: InfoMap, id: int, addr: Address, lucky: bool)
    requires id in m
  {
    && addr.nTime != 0 && (m[id].nTime == 0 || addr.nTime > m[id].nTime)
    && !m[id].fInTried && m[id].nRefCount != NEW_BUCKETS_PER_ADDRESS && lucky
  }

  /** The statistics of a known entry after it was announced again. */
  function Refreshed(info: Info, addr: Address, penalty: int, now: int): Info {
    var interval := if now - addr.nTime < 24 * 60 * 60 then 60 * 60 else 24 * 60 * 60;
    var nTime := if addr.nTime != 0 && (info.nTime == 0 || info.nTime < addr.nTime - interval - penalty)
                 then U32(Max(0, addr.nTime - penalty)) else info.nTime;
    info.(nTime := nTime, nServices := info.nServices | addr.nServices)
  }

  lemma RefreshedTimes(m: InfoMap, id: int, info: Info)
    requires id in m && SameEntry(m[id], info) && info.nLastTry == m[id].nLastTry &&
             info.nLastSuccess == m[id].nLastSuccess
    ensures TimesOk(m) ==> TimesOk(m[id := info])
  {
  }

  lemma PlacedTimes(m: InfoMap, id: int, d: int, m': InfoMap)
    requires id in m && d != id && (d != -1 ==> d in m) && TimesOk(m)
    ensures SameButPos(Placed(m, id, d), m') ==> TimesOk(m')
  {
    assert TimesOk(Placed(m, id, d));
  }

  /** A place in vRandom more or less in a new entry changes nothing. */
  lemma NewInfoPlaced(m: InfoMap, id: int, info: Info, d: int, m': InfoMap)
    requires id !in m && d != id && (d != -1 ==> d in m)
    ensures SameButPos(Placed(m[id := info], id, d), m')
            <==> SameButPos(Placed(m[id := info.(nRandomPos := -1)], id, d), m')
  {
    var a, b := Placed(m[id := info], id, d), Placed(m[id := info.(nRandomPos := -1)], id, d);
    assert a.Keys == b.Keys;
    forall k | k in a ensures b[k] == a[k].(nRandomPos := b[k].nRandomPos) {
      if k != id { assert a[k] == Unreferenced(m[id := info], d)[k]; }
    }
    SameButPosEuclid(a, b, m');
  }

  lemma SameButPosEuclid(a: InfoMap, b: InfoMap, c: InfoMap)
    requires SameButPos(a, b)
    ensures SameButPos(a, c) <==> SameButPos(b, c)
  {
    if SameButPos(a, c) {
      forall k | k in b ensures c[k] == b[k].(nRandomPos := c[k].nRandomPos) { assert k in a; }
    }
    if SameButPos(b, c) {
      forall k | k in a ensures c[k] == a[k].(nRandomPos := c[k].nRandomPos) { assert k in b; }
    }
  }

  lemma UnknownStable(m: InfoMap, id: int, info: Info, d: int, m': InfoMap)
    requires id !in m && d != id && (d != -1 ==> d in m)
    requires SameButPos(Placed(m[id := info], id, d), m') || SameButPos(m, m')
    ensures Stable(m, id, m')
  {
    if SameButPos(Placed(m[id := info], id, d), m') {
      PlacedStable(m[id := info], id, d, id, m');
    }
  }

  lemma UnknownTimes(m: InfoMap, id: int, info: Info, d: int, m': InfoMap)
    requires id !in m && d != id && (d != -1 ==> d in m) && TimesOk(m)
    requires info.nLastTry >= 0 && info.nLastSuccess >= 0 && !info.fInTried
    ensures SameButPos(Placed(m[id := info], id, d), m') ==> TimesOk(m')
    ensures SameButPos(m, m') ==> TimesOk(m')
  {
    PlacedTimes(m[id := info], id, d, m');
  }

  /** No id changes hands: an old id either still names the same address or is gone. */
  ghost predicate Stable(m: InfoMap, nIdCount: int, m': InfoMap) {
    forall id :: id in m' && id < nIdCount ==> id in m && m'[id].addr == m[id].addr
  }

  /** Tried slots are never emptied. */
  ghost predicate TriedKept(v: seq<int>, v': seq<int>) {
    |v| == |v'| && forall i :: 0 <= i < |v| && v[i] != -1 ==> v'[i] != -1
  }

  lemma PromotedStable(m: InfoMap, id: int, e: int, d: int, n: int, m': InfoMap)
    requires id in m && (e != -1 ==> e in m && e != id && (d != -1 ==> d in m && d != id && d != e))
    requires SameButPos(Promoted(m, id, e, d), m')
    ensures Stable(m, n, m') && id in m' && m'[id].fInTried
  {
    forall k | k in m' ensures k in m && m'[k].addr == m[k].addr {
      assert k in Promoted(m, id, e, d);
    }
  }

  lemma PlacedStable(m: InfoMap, id: int, d: int, n: int, m': InfoMap)
    requires id in m && d != id && (d != -1 ==> d in m) && SameButPos(Placed(m, id, d), m')
    ensures Stable(m, n, m')
  {
    forall k | k in m' ensures k in m && m'[k].addr == m[k].addr {
      assert k in Placed(m, id, d);
    }
  }

  lemma AttemptTimes(m: InfoMap, id: int, info: Info)
    requires id in m && info.nLastSuccess == m[id].nLastSuccess && info.fInTried == m[id].fInTried
    ensures info.nLastTry >= 0 && TimesOk(m) ==> TimesOk(m[id := info])
  {
  }

  lemma GoodStatsTimes(m: InfoMap, id: int, nTime: int)
    requires id in m
    ensures nTime > 0 && TimesOk(m) ==> TimesOk(GoodStats(m, id, nTime))
  {
  }

  function Seen(m: InfoMap, id: int, nTime: int): InfoMap
    requires id in m
  {
    m[id := m[id].(nTime := U32(nTime))]
  }

  function GoodStats(m: InfoMap, id: int, nTime: int): InfoMap
    requires id in m
  {
    m[id := m[id].(nLastSuccess := nTime, nLastTry := nTime, nAttempts := 0)]
  }

  // ---------------------------------------------------------------------------------------------
  // Whole runs
  // ---------------------------------------------------------------------------------------------

  datatype Op =
    | AddOp(address: Address, source: NetAddr, penalty: int, now: int, lucky: bool)
    | GoodOp(service: Service, testBeforeEvict: bool, now: int, nRnd: nat)
    | AttemptOp(service: Service, countFailure: bool, now: int)
    | ConnectedOp(service: Service, now: int)
    | GetAddrOp(now: int, rnd: nat -> nat)
    | ResolveOp(now: int, rnd: nat -> nat)

  /** Every sequence of operations with positive times keeps the whole consistency check true, never
    * reuses an id and never empties a tried slot. */
  method Run(am: AddrManager, ops: seq<Op>)
    requires am.Valid() && TimesOk(am.mapInfo)
    requires forall k :: 0 <= k < |ops| ==> ops[k].now > 0
    modifies am
    ensures am.Valid() && TimesOk(am.mapInfo)
    ensures old(am.nIdCount) <= am.nIdCount && Stable(old(am.mapInfo), old(am.nIdCount), am.mapInfo)
    ensures TriedKept(old(am.vvTried), am.vvTried)
  {
    hide RandomOk, AddrOk, NewOk, TriedOk, Referenced, NewIds, TriedIds, CollisionsOk, TimesOk, Promoted, Placed;
    for k := 0 to |ops|
      invariant am.Valid() && TimesOk(am.mapInfo)
      invariant old(am.nIdCount) <= am.nIdCount && Stable(old(am.mapInfo), old(am.nIdCount), am.mapInfo)
      invariant TriedKept(old(am.vvTried), am.vvTried)
    {
      Step(am, ops[k]);
    }
  }

  method Step(am: AddrManager, op: Op)
    requires am.Valid() && TimesOk(am.mapInfo) && op.now > 0
    modifies am
    ensures am.Valid() && TimesOk(am.mapInfo)
    ensures old(am.nIdCount) <= am.nIdCount && Stable(old(am.mapInfo), old(am.nIdCount), am.mapInfo)
    ensures TriedKept(old(am.vvTried), am.vvTried)
  {
    hide RandomOk, AddrOk, NewOk, TriedOk, Referenced, NewIds, TriedIds, CollisionsOk, TimesOk, Promoted, Placed;
    match op {
      case AddOp(address, source, penalty, now, lucky) =>
        var fNew := am.Add(address, source, penalty, now, lucky);
      case GoodOp(service, testBeforeEvict, now, nRnd) =>
        am.Good(service, testBeforeEvict, now, nRnd);
      case AttemptOp(service, countFailure, now) =>
        am.Attempt(service, countFailure, now);
      case ConnectedOp(service, now) =>
        am.Connected(service, now);
      case GetAddrOp(now, rnd) =>
        var vAddr := am.GetAddr(now, rnd);
        SameButPosFacts(old(am.mapInfo), am.mapInfo);
      case ResolveOp(now, rnd) =>
        am.ResolveCollisions(now, rnd);
    }
  }

  // ---------------------------------------------------------------------------------------------
  // Candidates across a Clear
  // ---------------------------------------------------------------------------------------------

  /** Why keeping the candidates matters: ids start over, so a candidate left from before names the first entry added
    * after a Clear. Everything that the consistency check looks at is right then, but the tried slot of that entry is
    * empty, and SelectTriedCollision_ would look up the id -1. */
  method StaleCandidate(am: AddrManager, envIn: Env, addr: Address, source: NetAddr, penalty: int, now: int,
                        lucky: bool)
    requires am.Valid() && 0 in am.triedCollisions && envIn.routable(addr.service)
    modifies am
    ensures am.mapInfo == map[0 := NewInfo(addr, source, PenaltyFor(addr, source, penalty)).(nRefCount := 1,
              nRandomPos := 0)]
    ensures am.Consistent() && TimesOk(am.mapInfo) && am.nNew == 1 && am.nTried == 0
    ensures 0 in am.triedCollisions && !am.Awaited()
    ensures am.vvTried[TriedSlot(envIn, am.mapInfo[0].addr)] == -1
  {
    hide NewOk, AddrOk, TriedOk, RandomOk, Referenced, NewIds, TriedIds, CollisionsOk, TimesOk, IsTerrible, Placed,
      SameButPos;
    am.Clear(envIn);
    var fNew := am.Add(addr, source, penalty, now, lucky);
    FirstEntry(am.mapInfo, NewInfo(addr, source, PenaltyFor(addr, source, penalty)), am.vRandom);
    StaleFacts(envIn, am.mapInfo, am.vvTried, am.triedCollisions, am.nIdCount);
  }

  lemma FirstEntry(m: InfoMap, info: Info, vRandom: seq<int>)
    requires SameButPos(Placed(map[0 := info], 0, -1), m) && RandomOk(m, vRandom)
    requires info.nRefCount == 0 && !info.fInTried && info.nLastTry == 0 == info.nLastSuccess
    ensures m == map[0 := info.(nRefCount := 1, nRandomPos := 0)] && TimesOk(m)
    ensures NewIds(m) == {0} && TriedIds(m) == {}
  {
    assert m.Keys == {0};
    assert |vRandom| > 0 && vRandom[0] in m;
  }

  lemma StaleFacts(env: Env, m: InfoMap, vvTried: seq<int>, pending: set<int>, nIdCount: int)
    requires |vvTried| == TRIED_BUCKET_COUNT * BUCKET_SIZE && forall i :: 0 <= i < |vvTried| ==> vvTried[i] == -1
    requires 0 in pending && 0 in m
    ensures !CollisionsOk(env, m, vvTried, pending, nIdCount) && vvTried[TriedSlot(env, m[0].addr)] == -1
  {
  }

  function BucketByIp(s: Service, source: NetAddr): NewBucket { s.ip % NEW_BUCKET_COUNT }

  /** An environment in which all addresses share one tried slot, but not their new slots. */
  function OneTriedSlot(): Env {
    Env((s: Service) => 0, BucketByIp, (s: Service, isNew: bool, b: int) => 0, (s: Service) => true,
        (s: Service) => true, true)
  }

  /** Such a state is reached from an empty manager: two addresses that share a tried slot are added, the second is
    * promoted, and the first becomes a candidate for its slot. */
  method ReachCandidate(now: nat) returns (am: AddrManager)
    requires now > 0
    ensures fresh(am) && am.Valid() && TimesOk(am.mapInfo) && am.triedCollisions == {0} && 0 in am.mapInfo
    ensures am.env == OneTriedSlot()
  {
    TheirSlots();
    hide NewOk, AddrOk, TriedOk, RandomOk, Referenced, NewIds, TriedIds, CollisionsOk, TimesOk, OneTriedSlot, TriedSlot;
    am := AddTwo(now);
    GoodFree(am, 1, now);
    GoodTaken(am, 0, now);
  }

  method AddTwo(now: nat) returns (am: AddrManager)
    ensures fresh(am) && am.Valid() && TimesOk(am.mapInfo) && am.triedCollisions == {} && am.env == OneTriedSlot()
    ensures am.mapInfo.Keys == {0, 1} && am.mapInfo[0].addr == Service(1, 1) && am.mapInfo[1].addr == Service(2, 1)
    ensures !am.mapInfo[0].fInTried && !am.mapInfo[1].fInTried && forall i :: 0 <= i < |am.vvTried| ==>
            am.vvTried[i] == -1
  {
    var first, second := Service(1, 1), Service(2, 1);
    am := new AddrManager(OneTriedSlot());
    AllSlotsEmpty(am.env, am.mapInfo, am.vvNew, am.vvTried);
    TheirSlots();
    hide NewOk, AddrOk, TriedOk, RandomOk, Referenced, NewIds, TriedIds, CollisionsOk, TimesOk, IsTerrible, Promoted,
      SameButPos;
    hide OneTriedSlot, NewSlot, TriedSlot, BucketByIp;
    AddFree(am, Address(first, 0, now), now);
    AddFree(am, Address(second, 0, now), now);
  }

  /** A success of an entry whose tried slot is free. */
  method GoodFree(am: AddrManager, id: int, now: nat)
    requires am.Valid() && TimesOk(am.mapInfo) && now > 0 && id in am.mapInfo && !am.mapInfo[id].fInTried
    requires am.vvTried[TriedSlot(am.env, am.mapInfo[id].addr)] == -1
    modifies am
    ensures am.Valid() && TimesOk(am.mapInfo) && am.env == old(am.env) && am.triedCollisions == old(am.triedCollisions)
    ensures am.vvTried == old(am.vvTried)[TriedSlot(am.env, old(am.mapInfo)[id].addr) := id] &&
            am.mapInfo.Keys == old(am.mapInfo).Keys
    ensures forall k :: k in am.mapInfo ==> am.mapInfo[k].addr == old(am.mapInfo)[k].addr
    ensures forall k :: k in am.mapInfo && k != id ==> am.mapInfo[k].fInTried == old(am.mapInfo)[k].fInTried
  {
    hide NewOk, AddrOk, TriedOk, RandomOk, Referenced, NewIds, TriedIds, CollisionsOk, TimesOk, Promoted, SameButPos;
    am.ExactOf(id);
    ghost var m := GoodStats(am.mapInfo, id, now);
    am.Good(am.mapInfo[id].addr, true, now, 0);
    PromotedEntries(m, id, am.mapInfo);
  }

  lemma TheirSlots()
    ensures NewSlot(OneTriedSlot(), Service(1, 1), BucketByIp(Service(1, 1), 9)) == 64
    ensures NewSlot(OneTriedSlot(), Service(2, 1), BucketByIp(Service(2, 1), 9)) == 128
    ensures TriedSlot(OneTriedSlot(), Service(1, 1)) == TriedSlot(OneTriedSlot(), Service(2, 1)) == 0
  {
  }

  /** Adding an address that is unknown, to a slot that is free. */
  method AddFree(am: AddrManager, addr: Address, now: nat)
    requires am.Valid() && TimesOk(am.mapInfo) && am.env == OneTriedSlot() &&
             NewSlot(am.env, addr.service, BucketByIp(addr.service, 9)) < |am.vvNew|
    requires forall id :: id in am.mapInfo ==> am.mapInfo[id].addr != addr.service
    requires am.vvNew[NewSlot(am.env, addr.service, BucketByIp(addr.service, 9))] == -1
    modifies am`nIdCount, am`mapInfo, am`mapAddr, am`vRandom, am`nNew, am`vvNew
    ensures am.Valid() && TimesOk(am.mapInfo) && am.nIdCount == old(am.nIdCount) + 1
    ensures am.vvNew == old(am.vvNew)[NewSlot(am.env, addr.service, BucketByIp(addr.service, 9)) := old(am.nIdCount)]
    ensures am.mapInfo.Keys == old(am.mapInfo).Keys + {old(am.nIdCount)}
    ensures am.mapInfo[old(am.nIdCount)].addr == addr.service && !am.mapInfo[old(am.nIdCount)].fInTried
    ensures forall id :: id in old(am.mapInfo) ==> am.mapInfo[id].addr == old(am.mapInfo)[id].addr
  {
    hide NewOk, AddrOk, TriedOk, RandomOk, Referenced, NewIds, TriedIds, CollisionsOk, TimesOk, IsTerrible, Placed,
      SameButPos;
    am.NotFound(addr.service);
    var fNew := am.Add(addr, 9, 0, now, false);
    PlacedEntries(old(am.mapInfo), old(am.nIdCount), NewInfo(addr, 9, 0), am.mapInfo);
  }

  /** A success of an entry whose tried slot is taken. */
  method GoodTaken(am: AddrManager, id: int, now: nat)
    requires am.Valid() && TimesOk(am.mapInfo) && now > 0 && id in am.mapInfo && !am.mapInfo[id].fInTried
    requires am.vvTried[TriedSlot(am.env, am.mapInfo[id].addr)] != -1 && am.triedCollisions == {}
    modifies am
    ensures am.Valid() && TimesOk(am.mapInfo) && am.env == old(am.env) && am.triedCollisions == {id} && id in am.mapInfo
  {
    hide NewOk, AddrOk, TriedOk, RandomOk, Referenced, NewIds, TriedIds, CollisionsOk, TimesOk, Promoted, SameButPos;
    am.ExactOf(id);
    am.Good(am.mapInfo[id].addr, true, now, 0);
  }

  lemma PlacedEntries(m: InfoMap, id: int, info: Info, m': InfoMap)
    requires id !in m && id != -1 && SameButPos(Placed(m[id := info], id, -1), m')
    ensures m'.Keys == m.Keys + {id} && m'[id].addr == info.addr && m'[id].fInTried == info.fInTried
    ensures forall k :: k in m ==> m'[k].addr == m[k].addr
  {
    assert m'.Keys == Placed(m[id := info], id, -1).Keys;
  }

  lemma PromotedEntries(m: InfoMap, id: int, m': InfoMap)
    requires id in m && id != -1 && SameButPos(Promoted(m, id, -1, -1), m')
    ensures m'.Keys == m.Keys
    ensures forall k :: k in m ==> m'[k].addr == m[k].addr && (k != id ==> m'[k].fInTried == m[k].fInTried)
  {
    assert m'.Keys == Promoted(m, id, -1, -1).Keys;
  }

  lemma AllSlotsEmpty(env: Env, m: InfoMap, vvNew: seq<int>, vvTried: seq<int>)
    requires m == map[] && NewOk(env, m, vvNew) && TriedOk(env, m, vvTried)
    ensures forall i :: 0 <= i < |vvNew| ==> vvNew[i] == -1
    ensures forall i :: 0 <= i < |vvTried| ==> vvTried[i] == -1
  {
  }
}
