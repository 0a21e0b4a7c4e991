/** Saving and loading the address manager. Only the persistent part of each entry and the bucket
  * contents are written; everything else is rebuilt, under new ids. */
module AddrManStore {
  import opened AddrMan
  import opened Basics

  const MAXIMUM_SUPPORTED_FORMAT := 3
  const BIT30 := 0x4000_0000

  /** The persistent part of an entry. */
  datatype Record = Record(addr: Service, nServices: bv64, nTime: nat, source: NetAddr, nLastSuccess: int,
                           nAttempts: int)

  /** A stream, already split into its fields. */
  datatype Stream = Stream(
    format: nat, keySize: nat, nKey: nat, nNew: int, nTried: int, nUBuckets: int,
    newEntries: seq<Record>, triedEntries: seq<Record>, buckets: seq<seq<int>>, asmapChecksum: nat)

  function RecordOf(i: Info): Record {
    Record(i.addr, i.nServices, i.nTime, i.source, i.nLastSuccess, i.nAttempts)
  }

  function Loaded(r: Record): Info {
    Info(r.addr, r.nServices, r.nTime, r.source, 0, 0, r.nLastSuccess, r.nAttempts, 0, false, -1)
  }

  /** Exclusive or with bit 30 of a 32-bit integer. */
  function Xor30(x: int): int {
    if (x / BIT30) % 2 == 0 then x + BIT30 else x - BIT30
  }

  // ---------------------------------------------------------------------------------------------
  // Writing
  // ---------------------------------------------------------------------------------------------

  predicate Chosen(i: Info, tried: bool) {
    if tried then i.fInTried else i.nRefCount != 0
  }

  /** The ids below `n` that are written to one of the two lists, in the order they are written. */
  function Order(m: InfoMap, n: nat, tried: bool): seq<int> {
    if n == 0 then []
    else Order(m, n - 1, tried) + (if n - 1 in m && Chosen(m[n - 1], tried) then [n - 1] else [])
  }

  function Rank(m: InfoMap, id: int): int {
    if id < 0 then -1 else |Order(m, id, false)|
  }

  function Records(m: InfoMap, order: seq<int>): seq<Record>
    requires forall k :: 0 <= k < |order| ==> order[k] in m
  {
    seq(|order|, k requires 0 <= k < |order| => RecordOf(m[order[k]]))
  }

  lemma {:induction false} OrderMembers(m: InfoMap, n: nat, tried: bool)
    ensures forall k :: 0 <= k < |Order(m, n, tried)| ==> 0 <= Order(m, n, tried)[k] < n
    ensures forall k :: 0 <= k < |Order(m, n, tried)| ==>
              Order(m, n, tried)[k] in m && Chosen(m[Order(m, n, tried)[k]], tried)
  {
    if n > 0 {
      OrderMembers(m, n - 1, tried);
    }
  }

  /** Each chosen id stands at the place given by the number of chosen ids below it. */
  lemma {:induction false} OrderRank(m: InfoMap, n: nat, tried: bool, id: int)
    requires 0 <= id < n && id in m && Chosen(m[id], tried)
    ensures |Order(m, id, tried)| < |Order(m, n, tried)| && Order(m, n, tried)[|Order(m, id, tried)|] == id
  {
    if id < n - 1 {
      OrderRank(m, n - 1, tried, id);
    }
  }

  ghost function ChosenIds(m: InfoMap, n: nat, tried: bool): set<int> {
    set id | 0 <= id < n && id in m && Chosen(m[id], tried)
  }

  lemma {:induction false} OrderCount(m: InfoMap, n: nat, tried: bool)
    ensures |Order(m, n, tried)| == |ChosenIds(m, n, tried)|
  {
    if n > 0 {
      OrderCount(m, n - 1, tried);
      var before, after := ChosenIds(m, n - 1, tried), ChosenIds(m, n, tried);
      if n - 1 in m && Chosen(m[n - 1], tried) {
        assert after == before + {n - 1};
      } else {
        assert after == before;
      }
    } else {
      assert ChosenIds(m, n, tried) == {};
    }
  }

  lemma RecordsGrow(m: InfoMap, order: seq<int>, id: int)
    requires id in m && forall k :: 0 <= k < |order| ==> order[k] in m
    ensures Records(m, order + [id]) == Records(m, order) + [RecordOf(m[id])]
  {
  }

  function BucketList(m: InfoMap, v: seq<int>, bucket: nat, i: nat): seq<int>
    requires bucket * BUCKET_SIZE + i <= |v|
  {
    if i == 0 then []
    else
      var x := v[bucket * BUCKET_SIZE + i - 1];
      BucketList(m, v, bucket, i - 1) + (if x != -1 then [Rank(m, x)] else [])
  }

  function BucketLists(m: InfoMap, v: seq<int>, n: nat): seq<seq<int>>
    requires n * BUCKET_SIZE <= |v|
  {
    if n == 0 then [] else BucketLists(m, v, n - 1) + [BucketList(m, v, n - 1, BUCKET_SIZE)]
  }

  /** What a consistent manager writes. */
  ghost function Saved(am: AddrManager, nKey: nat, checksum: nat): Stream
    requires am.Valid()
    reads am
  {
    OrderMembers(am.mapInfo, am.nIdCount, false);
    OrderMembers(am.mapInfo, am.nIdCount, true);
    Stream(3, 32, nKey, am.nNew, am.nTried, NEW_BUCKET_COUNT + BIT30,
           Records(am.mapInfo, Order(am.mapInfo, am.nIdCount, false)),
           Records(am.mapInfo, Order(am.mapInfo, am.nIdCount, true)),
           BucketLists(am.mapInfo, am.vvNew, NEW_BUCKET_COUNT), checksum)
  }

  /** In a consistent manager the two lists are as long as the counters say. */
  lemma OrderLengths(am: AddrManager)
    requires am.Valid()
    ensures |Order(am.mapInfo, am.nIdCount, false)| == am.nNew
    ensures |Order(am.mapInfo, am.nIdCount, true)| == am.nTried
  {
    OrderCount(am.mapInfo, am.nIdCount, false);
    OrderCount(am.mapInfo, am.nIdCount, true);
    TriedHaveNoReferences(am);
    assert ChosenIds(am.mapInfo, am.nIdCount, false) == NewIds(am.mapInfo);
    assert ChosenIds(am.mapInfo, am.nIdCount, true) == TriedIds(am.mapInfo);
  }

  lemma TriedHaveNoReferences(am: AddrManager)
    requires am.Valid()
    ensures forall id :: id in am.mapInfo ==> (am.mapInfo[id].nRefCount != 0 <==> !am.mapInfo[id].fInTried)
  {
    forall id | id in am.mapInfo && am.mapInfo[id].fInTried ensures am.mapInfo[id].nRefCount == 0 {
      assert SlotsOf(am.vvNew, id) == {};
    }
  }

  method Serialize(am: AddrManager, nKey: nat, checksum: nat) returns (s: Stream)
    requires am.Valid()
    ensures s == Saved(am, nKey, checksum)
  {
    OrderLengths(am);
    var newEntries, unkIds := WriteEntries(am.mapInfo, am.nIdCount, false, am.nNew);
    var triedEntries, _ := WriteEntries(am.mapInfo, am.nIdCount, true, am.nTried);
    var buckets := WriteBuckets(am.mapInfo, am.vvNew, unkIds);
    s := Stream(3, 32, nKey, am.nNew, am.nTried, Xor30(NEW_BUCKET_COUNT), newEntries, triedEntries, buckets, checksum);
  }

  /** One of the two entry loops; its assertion that the counter is not exceeded holds. */
  method WriteEntries(m: InfoMap, n: nat, tried: bool, count: int) returns (entries: seq<Record>, unkIds: map<int, int>)
    requires count == |Order(m, n, tried)|
    ensures forall k :: 0 <= k < |Order(m, n, tried)| ==> Order(m, n, tried)[k] in m
    ensures entries == Records(m, Order(m, n, tried))
    ensures forall id :: 0 <= id < n && id in m ==> id in unkIds && unkIds[id] == |Order(m, id, tried)|
  {
    entries, unkIds := [], map[];
    var nIds := 0;
    for id := 0 to n
      invariant forall k :: 0 <= k < |Order(m, id, tried)| ==> Order(m, id, tried)[k] in m
      invariant entries == Records(m, Order(m, id, tried)) && nIds == |entries|
      invariant forall k :: 0 <= k < id && k in m ==> k in unkIds && unkIds[k] == |Order(m, k, tried)|
    {
      if id in m {
        unkIds := unkIds[id := nIds];
        if Chosen(m[id], tried) {
          OrderRank(m, n, tried, id);
          assert nIds != count;
          RecordsGrow(m, Order(m, id, tried), id);
          entries := entries + [RecordOf(m[id])];
          nIds := nIds + 1;
        }
      }
    }
  }

  method WriteBuckets(m: InfoMap, v: seq<int>, unkIds: map<int, int>) returns (buckets: seq<seq<int>>)
    requires |v| == NEW_BUCKET_COUNT * BUCKET_SIZE
    requires forall i :: 0 <= i < |v| && v[i] != -1 ==> v[i] in unkIds && unkIds[v[i]] == Rank(m, v[i])
    ensures buckets == BucketLists(m, v, NEW_BUCKET_COUNT)
  {
    buckets := [];
    for bucket := 0 to NEW_BUCKET_COUNT
      invariant buckets == BucketLists(m, v, bucket)
    {
      var items := [];
      for i := 0 to BUCKET_SIZE
        invariant items == BucketList(m, v, bucket, i)
      {
        var x := v[Slot(bucket, i)];
        if x != -1 {
          items := items + [unkIds[x]];
        }
      }
      buckets := buckets + [items];
    }
  }

  // ---------------------------------------------------------------------------------------------
  // Reading
  // ---------------------------------------------------------------------------------------------

  /** The streams that are accepted; the others make Unserialize throw. */
  predicate Accepted(s: Stream) {
    && s.format <= MAXIMUM_SUPPORTED_FORMAT && s.keySize == 32
    && 0 <= s.nNew <= NEW_BUCKET_COUNT * BUCKET_SIZE && 0 <= s.nTried <= TRIED_BUCKET_COUNT * BUCKET_SIZE
  }

  function BucketCount(s: Stream): int {
    if s.format >= 1 then Xor30(s.nUBuckets) else s.nUBuckets
  }

  /** The field lists are as long as the header announces. */
  ghost predicate WellShaped(s: Stream) {
    Accepted(s) ==>
      && |s.newEntries| == s.nNew && |s.triedEntries| == s.nTried
      && |s.buckets| == Max(0, BucketCount(s))
  }

  ghost predicate DistinctAddrs(records: seq<Record>) {
    forall j, k :: 0 <= j < k < |records| ==> records[j].addr != records[k].addr
  }

  /** The first entries of a loaded manager, by number. */
  ghost predicate LoadedAs(m: InfoMap, records: seq<Record>) {
    && (forall n :: 0 <= n < |records| ==> n in m && m[n] == Loaded(records[n]).(nRandomPos := n))
    && (forall id :: id in m ==> 0 <= id < |records|)
  }

  ghost function AddrSet(records: seq<Record>): set<Service> {
    set k | 0 <= k < |records| :: records[k].addr
  }

  lemma AddrSetGrows(records: seq<Record>, r: Record)
    ensures AddrSet(records + [r]) == AddrSet(records) + {r.addr}
  {
    var all := records + [r];
    assert forall k :: 0 <= k < |records| ==> all[k] == records[k];
    assert all[|records|] == r;
  }

  lemma DistinctIsNew(records: seq<Record>, n: nat)
    requires n < |records| && DistinctAddrs(records)
    ensures records[n].addr !in AddrSet(records[..n])
  {
  }

  /** Indexed by full address, whatever the manager's own rule for ports is. */
  ghost predicate FullIndex(am: AddrManager)
    reads am
  {
    AddrOk(am.env.(discriminatePorts := true), am.mapInfo, am.mapAddr)
  }

  ghost predicate Unplaced(v: seq<int>) {
    forall i :: 0 <= i < |v| ==> v[i] == -1
  }

  method LoadNew(am: AddrManager, records: seq<Record>)
    requires am.Tables() && FullIndex(am) && am.mapInfo == map[] && am.mapAddr == map[] && am.vRandom == [] &&
             am.nIdCount == 0
    modifies am`mapInfo, am`mapAddr, am`vRandom, am`nIdCount
    ensures am.Tables() && LoadedAs(am.mapInfo, records) && am.nIdCount == |records| == |am.vRandom|
    ensures DistinctAddrs(records) ==> FullIndex(am)
    ensures am.mapAddr.Keys <= AddrSet(records)
    ensures |NewIds(am.mapInfo)| == |records| && TriedIds(am.mapInfo) == {}
  {
    hide NewIds, TriedIds, NewOk, TriedOk, RandomOk, AddrOk, AddrSet, DistinctAddrs;
    EmptyCounts();
    for n := 0 to |records|
      invariant am.nIdCount == n == |am.vRandom| && am.Tables() && LoadedAs(am.mapInfo, records[..n])
      invariant DistinctAddrs(records) ==> FullIndex(am)
      invariant am.mapAddr.Keys <= AddrSet(records[..n])
      invariant |NewIds(am.mapInfo)| == n && |TriedIds(am.mapInfo)| == 0
    {
      assert records[..n + 1] == records[..n] + [records[n]];
      AddrSetGrows(records[..n], records[n]);
      if DistinctAddrs(records) {
        DistinctIsNew(records, n);
      }
      LoadOne(am, records[n]);
    }
    assert records[..|records|] == records;
    EmptyCardinality(TriedIds(am.mapInfo));
  }

  lemma EmptyCounts()
    ensures NewIds(map[]) == {} && TriedIds(map[]) == {}
  {
  }

  lemma EmptyCardinality(s: set<int>)
    requires |s| == 0
    ensures s == {}
  {
  }

  method LoadOne(am: AddrManager, r: Record)
    requires am.Tables()
    modifies am`mapInfo, am`mapAddr, am`vRandom, am`nIdCount
    ensures am.Tables() && am.nIdCount == old(am.nIdCount) + 1 && am.vRandom == old(am.vRandom) + [old(am.nIdCount)]
    ensures am.mapInfo == old(am.mapInfo)[old(am.nIdCount) := Loaded(r).(nRandomPos := |old(am.vRandom)|)]
    ensures am.mapAddr == old(am.mapAddr)[r.addr := old(am.nIdCount)]
    ensures old(FullIndex(am)) && r.addr !in old(am.mapAddr) ==> FullIndex(am)
    ensures |NewIds(am.mapInfo)| == old(|NewIds(am.mapInfo)|) + 1 &&
            |TriedIds(am.mapInfo)| == old(|TriedIds(am.mapInfo)|)
  {
    hide NewOk, TriedOk, AddrOk, RandomOk, NewIds, TriedIds;
    var n := am.nIdCount;
    var info := Loaded(r).(nRandomPos := |am.vRandom|);
    EntryCreated(am.env, am.mapInfo, am.vRandom, am.vvNew, am.vvTried, n, info);
    if FullIndex(am) && r.addr !in am.mapAddr {
      IndexCreated(am.env.(discriminatePorts := true), am.mapInfo, am.mapAddr, n, info);
    }
    CountPut(am.mapInfo, n, info);
    am.mapInfo := am.mapInfo[n := info];
    am.mapAddr := am.mapAddr[r.addr := n];
    am.vRandom := am.vRandom + [n];
    am.nIdCount := n + 1;
  }

  /** No two tried records claim the same slot. */
  ghost predicate TriedDistinct(env: Env, records: seq<Record>) {
    forall j, k :: 0 <= j < k < |records| ==> TriedSlot(env, records[j].addr) != TriedSlot(env, records[k].addr)
  }

  ghost predicate TriedAt(env: Env, m: InfoMap, vvTried: seq<int>, r: Record, id: int)
    requires |vvTried| == TRIED_BUCKET_COUNT * BUCKET_SIZE
  {
    && id in m && m[id] == Loaded(r).(fInTried := true, nRandomPos := id)
    && vvTried[TriedSlot(env, r.addr)] == id
  }

  /** The tried part of a loaded manager when none of the first `n` records was lost: they have the
    * ids from `base` on, sit in their slots, and nothing else is in the table. */
  ghost predicate TriedExactly(env: Env, m: InfoMap, vvTried: seq<int>, base: int, records: seq<Record>, n: nat)
    requires |vvTried| == TRIED_BUCKET_COUNT * BUCKET_SIZE && n <= |records|
  {
    && (forall k :: 0 <= k < n ==> TriedAt(env, m, vvTried, records[k], base + k))
    && NothingElse(env, vvTried, base, records, n)
    && (forall id :: id in m ==> id < base + n)
  }

  ghost predicate NothingElse(env: Env, vvTried: seq<int>, base: int, records: seq<Record>, n: nat)
    requires n <= |records|
  {
    forall i :: 0 <= i < |vvTried| && vvTried[i] != -1 ==>
      base <= vvTried[i] < base + n && i == TriedSlot(env, records[vvTried[i] - base].addr)
  }

  lemma NothingElseNext(env: Env, vvTried: seq<int>, base: int, records: seq<Record>, n: nat)
    requires n < |records| && NothingElse(env, vvTried, base, records, n) &&
             |vvTried| == TRIED_BUCKET_COUNT * BUCKET_SIZE
    ensures NothingElse(env, vvTried[TriedSlot(env, records[n].addr) := base + n], base, records, n + 1)
  {
    var v := vvTried[TriedSlot(env, records[n].addr) := base + n];
    hide TriedSlot;
    forall i | 0 <= i < |v| && v[i] != -1
      ensures base <= v[i] < base + n + 1 && i == TriedSlot(env, records[v[i] - base].addr)
    {
      assert v[i] == base + n || v[i] == vvTried[i];
    }
  }

  /** The first of `n` records that claims tried slot `i`, or -1. */
  function Winner(env: Env, records: seq<Record>, n: nat, i: int): (w: int)
    requires n <= |records|
    ensures w == -1 || (0 <= w < n && TriedSlot(env, records[w].addr) == i)
    ensures forall k :: 0 <= k < (if w == -1 then n else w) ==> TriedSlot(env, records[k].addr) != i
  {
    if n == 0 then -1
    else
      var w := Winner(env, records, n - 1, i);
      if w != -1 then w else if TriedSlot(env, records[n - 1].addr) == i then n - 1 else -1
  }

  /** Slot `i` holds the record that claimed it first, if any did. */
  ghost predicate WonSlot(env: Env, m: InfoMap, vvTried: seq<int>, records: seq<Record>, n: nat, i: int)
    requires n <= |records| && 0 <= i < |vvTried|
  {
    var w := Winner(env, records, n, i);
    && (w == -1 <==> vvTried[i] == -1)
    && (w != -1 ==> vvTried[i] in m && RecordOf(m[vvTried[i]]) == records[w] && m[vvTried[i]].fInTried)
  }

  ghost predicate TriedWon(env: Env, m: InfoMap, vvTried: seq<int>, records: seq<Record>, n: nat)
    requires n <= |records|
  {
    forall i :: 0 <= i < |vvTried| ==> WonSlot(env, m, vvTried, records, n, i)
  }

  lemma WonNone(env: Env, m: InfoMap, vvTried: seq<int>, records: seq<Record>)
    requires Unplaced(vvTried)
    ensures TriedWon(env, m, vvTried, records, 0)
  {
  }

  /** A later claim changes nothing; a claim to a free slot wins it. */
  lemma WonNext(env: Env, m: InfoMap, vvTried: seq<int>, records: seq<Record>, n: nat, id: int, info: Info)
    requires n < |records| && |vvTried| == TRIED_BUCKET_COUNT * BUCKET_SIZE && TriedWon(env, m, vvTried, records, n)
    requires id !in m && id != -1 && RecordOf(info) == records[n] && info.fInTried
    ensures var i := TriedSlot(env, records[n].addr);
            if vvTried[i] != -1 then TriedWon(env, m, vvTried, records, n + 1)
            else TriedWon(env, m[id := info], vvTried[i := id], records, n + 1)
  {
    var i := TriedSlot(env, records[n].addr);
    hide TriedSlot, RecordOf;
    var taken, next := vvTried[i] != -1, n + 1;
    var m', v' := if taken then m else m[id := info], if taken then vvTried else vvTried[i := id];
    forall j | 0 <= j < |v'|
      ensures WonSlot(env, m', v', records, next, j)
    {
      assert WonSlot(env, m, vvTried, records, n, j);
    }
  }

  method LoadTriedOne(am: AddrManager, r: Record) returns (lost: bool)
    requires am.Tables()
    modifies am`mapInfo, am`mapAddr, am`vRandom, am`nIdCount, am`vvTried
    ensures am.Tables() && (lost <==> old(am.vvTried)[TriedSlot(am.env, r.addr)] != -1)
    ensures lost ==> am.mapInfo == old(am.mapInfo) && am.mapAddr == old(am.mapAddr) && am.vRandom == old(am.vRandom)
                     && am.nIdCount == old(am.nIdCount) && am.vvTried == old(am.vvTried)
    ensures !lost ==>
              && am.nIdCount == old(am.nIdCount) + 1 && |am.vRandom| == |old(am.vRandom)| + 1
              && am.mapInfo == old(am.mapInfo)[old(am.nIdCount) := Loaded(r).(fInTried := true,
                nRandomPos := |old(am.vRandom)|)]
              && am.mapAddr == old(am.mapAddr)[r.addr := old(am.nIdCount)]
              && am.vvTried == old(am.vvTried)[TriedSlot(am.env, r.addr) := old(am.nIdCount)]
    ensures old(FullIndex(am)) && r.addr !in old(am.mapAddr) ==> FullIndex(am)
    ensures |NewIds(am.mapInfo)| == old(|NewIds(am.mapInfo)|)
    ensures |TriedIds(am.mapInfo)| == old(|TriedIds(am.mapInfo)|) + (if lost then 0 else 1)
  {
    hide NewOk, TriedOk, AddrOk, RandomOk, NewIds, TriedIds;
    var i := TriedSlot(am.env, r.addr);
    if am.vvTried[i] != -1 {
      return true;
    }
    var id := am.nIdCount;
    LoadOne(am, r);
    var info := am.mapInfo[id].(fInTried := true);
    TriedEntered(am.env, am.mapInfo, am.vvNew, am.vvTried, id);
    EntryChanged(am.mapInfo, am.vRandom, id, info);
    if FullIndex(am) {
      IndexUnchanged(am.env.(discriminatePorts := true), am.mapInfo, am.mapAddr, id, info);
    }
    CountPut(am.mapInfo, id, info);
    am.mapInfo := am.mapInfo[id := info];
    am.vvTried := am.vvTried[i := id];
    return false;
  }

  lemma TriedAtKept(env: Env, m: InfoMap, vvTried: seq<int>, r: Record, id: int, j: int, info: Info, i: int)
    requires |vvTried| == TRIED_BUCKET_COUNT * BUCKET_SIZE && 0 <= i < |vvTried|
    requires TriedAt(env, m, vvTried, r, id) && j != id && TriedSlot(env, r.addr) != i
    ensures TriedAt(env, m[j := info], vvTried[i := j], r, id)
  {
  }

  lemma TriedStep(env: Env, m: InfoMap, vvTried: seq<int>, base: int, records: seq<Record>, n: nat)
    requires |vvTried| == TRIED_BUCKET_COUNT * BUCKET_SIZE && n < |records| && TriedDistinct(env, records)
    requires base >= 0 && TriedExactly(env, m, vvTried, base, records, n)
    ensures vvTried[TriedSlot(env, records[n].addr)] == -1
    ensures TriedExactly(env, m[base + n := Loaded(records[n]).(fInTried := true, nRandomPos := base + n)],
                         vvTried[TriedSlot(env, records[n].addr) := base + n], base, records, n + 1)
  {
    var i, id := TriedSlot(env, records[n].addr), base + n;
    var info := Loaded(records[n]).(fInTried := true, nRandomPos := id);
    SlotStillFree(env, m, vvTried, base, records, n);
    NothingElseNext(env, vvTried, base, records, n);
    hide TriedSlot, TriedDistinct, NothingElse;
    forall k | 0 <= k < n
      ensures TriedAt(env, m[id := info], vvTried[i := id], records[k], base + k)
    {
      ClaimsDiffer(env, records, k, n);
      TriedAtKept(env, m, vvTried, records[k], base + k, id, info, i);
    }
  }

  lemma ClaimsDiffer(env: Env, records: seq<Record>, j: nat, k: nat)
    requires TriedDistinct(env, records) && j < k < |records|
    ensures TriedSlot(env, records[j].addr) != TriedSlot(env, records[k].addr)
  {
  }

  lemma SlotStillFree(env: Env, m: InfoMap, vvTried: seq<int>, base: int, records: seq<Record>, n: nat)
    requires |vvTried| == TRIED_BUCKET_COUNT * BUCKET_SIZE && n < |records| && TriedDistinct(env, records)
    requires base >= 0 && TriedExactly(env, m, vvTried, base, records, n)
    ensures vvTried[TriedSlot(env, records[n].addr)] == -1
  {
    hide TriedSlot;
  }

  method LoadTried(am: AddrManager, records: seq<Record>, ghost loaded: seq<Record>) returns (nLost: int)
    requires am.Tables() && LoadedAs(am.mapInfo, loaded) && am.nIdCount == |loaded| == |am.vRandom| &&
             Unplaced(am.vvTried)
    requires |NewIds(am.mapInfo)| == |loaded| && |TriedIds(am.mapInfo)| == 0 && am.mapAddr.Keys <= AddrSet(loaded)
    modifies am`mapInfo, am`mapAddr, am`vRandom, am`nIdCount, am`vvTried
    ensures am.Tables() && StartsAs(am.mapInfo, loaded)
    ensures |NewIds(am.mapInfo)| == |loaded| && |TriedIds(am.mapInfo)| == |records| - nLost
    ensures old(FullIndex(am)) && DistinctAddrs(loaded + records) ==> FullIndex(am)
    ensures TriedWon(am.env, am.mapInfo, am.vvTried, records, |records|)
    ensures TriedDistinct(am.env, records) ==>
              nLost == 0 && TriedExactly(am.env, am.mapInfo, am.vvTried, |loaded|, records, |records|)
  {
    hide NewIds, TriedIds, NewOk, TriedOk, RandomOk, AddrOk, AddrSet, DistinctAddrs, TriedDistinct, TriedExactly,
      TriedWon;
    nLost := 0;
    ghost var base, all := |loaded|, loaded + records;
    assert all[..base] == loaded;
    NothingTried(am.env, am.mapInfo, am.vvTried, loaded, records);
    WonNone(am.env, am.mapInfo, am.vvTried, records);
    for n := 0 to |records|
      invariant am.Tables() && am.nIdCount == |am.vRandom| == base + n - nLost && StartsAs(am.mapInfo, loaded)
      invariant |NewIds(am.mapInfo)| == base && |TriedIds(am.mapInfo)| == n - nLost
      invariant am.mapAddr.Keys <= AddrSet(all[..base + n])
      invariant old(FullIndex(am)) && DistinctAddrs(all) ==> FullIndex(am)
      invariant TriedWon(am.env, am.mapInfo, am.vvTried, records, n)
      invariant TriedDistinct(am.env, records) ==>
                  nLost == 0 && TriedExactly(am.env, am.mapInfo, am.vvTried, base, records, n)
    {
      assert all[..base + n + 1] == all[..base + n] + [records[n]];
      AddrSetGrows(all[..base + n], records[n]);
      if DistinctAddrs(all) {
        DistinctIsNew(all, base + n);
      }
      if TriedDistinct(am.env, records) {
        TriedStep(am.env, am.mapInfo, am.vvTried, base, records, n);
      }
      WonNext(am.env, am.mapInfo, am.vvTried, records, n, am.nIdCount,
              Loaded(records[n]).(fInTried := true, nRandomPos := |am.vRandom|));
      var lost := LoadTriedOne(am, records[n]);
      if lost {
        nLost := nLost + 1;
      }
    }
  }

  /** The first entries are the loaded new records; all later ones are tried. */
  ghost predicate StartsAs(m: InfoMap, loaded: seq<Record>) {
    && (forall n :: 0 <= n < |loaded| ==> n in m && m[n] == Loaded(loaded[n]).(nRandomPos := n))
    && (forall id :: id in m && id >= |loaded| ==> m[id].fInTried && m[id].nLastTry == 0 == m[id].nLastCountAttempt)
  }

  lemma NothingTried(env: Env, m: InfoMap, vvTried: seq<int>, loaded: seq<Record>, records: seq<Record>)
    requires |vvTried| == TRIED_BUCKET_COUNT * BUCKET_SIZE && Unplaced(vvTried) && LoadedAs(m, loaded)
    ensures TriedExactly(env, m, vvTried, |loaded|, records, 0) && StartsAs(m, loaded)
  {
  }

  // --- bucket contents ----------------------------------------------------------------------------

  /** The usable (bucket, entry) pairs of one bucket. */
  function Usable(bucket: int, items: seq<int>, nNew: int): seq<(int, int)> {
    if items == [] then []
    else
      var x := items[|items| - 1];
      Usable(bucket, items[..|items| - 1], nNew) + (if 0 <= x < nNew then [(bucket, x)] else [])
  }

  function UsableAll(buckets: seq<seq<int>>, nNew: int): seq<(int, int)> {
    if buckets == [] then []
    else
      var b := |buckets| - 1;
      UsableAll(buckets[..b], nNew) + Usable(b, buckets[b], nNew)
  }

  lemma {:induction false} UsableRange(buckets: seq<seq<int>>, nNew: int)
    ensures forall k :: 0 <= k < |UsableAll(buckets, nNew)| ==>
              0 <= UsableAll(buckets, nNew)[k].0 < |buckets| && 0 <= UsableAll(buckets, nNew)[k].1 < nNew
  {
    if buckets != [] {
      var b := |buckets| - 1;
      UsableRange(buckets[..b], nNew);
      UsableRangeOne(b, buckets[b], nNew);
    }
  }

  lemma {:induction false} UsableRangeOne(bucket: int, items: seq<int>, nNew: int)
    ensures forall k :: 0 <= k < |Usable(bucket, items, nNew)| ==>
              Usable(bucket, items, nNew)[k].0 == bucket && 0 <= Usable(bucket, items, nNew)[k].1 < nNew
  {
    if items != [] {
      UsableRangeOne(bucket, items[..|items| - 1], nNew);
    }
  }

  method ReadBuckets(buckets: seq<seq<int>>, nNew: int) returns (entries: seq<(int, int)>)
    ensures entries == UsableAll(buckets, nNew)
  {
    entries := [];
    for bucket := 0 to |buckets|
      invariant entries == UsableAll(buckets[..bucket], nNew)
    {
      ghost var before := entries;
      var items := buckets[bucket];
      for n := 0 to |items|
        invariant entries == before + Usable(bucket, items[..n], nNew)
      {
        assert items[..n + 1][..n] == items[..n];
        var x := items[n];
        if 0 <= x < nNew {
          entries := entries + [(bucket, x)];
        }
      }
      assert items[..|items|] == items && buckets[..bucket + 1][..bucket] == buckets[..bucket];
    }
    assert buckets[..|buckets|] == buckets;
  }

  ghost predicate SameButRefs(m: InfoMap, m': InfoMap) {
    && m.Keys == m'.Keys
    && forall id :: id in m ==> m'[id] == m[id].(nRefCount := m'[id].nRefCount)
  }

  ghost predicate AtMostEight(m: InfoMap) {
    forall id :: id in m ==> m[id].nRefCount <= NEW_BUCKETS_PER_ADDRESS
  }

  /** The slot a saved (bucket, entry) pair gets: its own one if the buckets are restored and it is free, else
    * the entry's primary slot if that is free; -1 if there is none, or if the entry has its eight references
    * already. */
  function SlotFor(env: Env, v: seq<int>, bucket: int, x: int, r: Record, refs: int, restore: bool): (i: int)
    requires |v| == NEW_BUCKET_COUNT * BUCKET_SIZE && (restore ==> 0 <= bucket < NEW_BUCKET_COUNT)
    ensures i != -1 ==> 0 <= i < |v| && v[i] == -1 && i == NewSlot(env, r.addr, i / BUCKET_SIZE)
  {
    var primary := NewSlot(env, r.addr, env.newBucket(r.addr, r.source));
    if refs >= NEW_BUCKETS_PER_ADDRESS then -1
    else if restore && v[NewSlot(env, r.addr, bucket)] == -1 then NewSlot(env, r.addr, bucket)
    else if v[primary] == -1 then primary
    else -1
  }

  /** Gives one saved (bucket, entry) pair its slot. */
  method PlaceOne(am: AddrManager, bucket: int, x: int, restore: bool)
    requires am.Tables() && x in am.mapInfo && !am.mapInfo[x].fInTried && AtMostEight(am.mapInfo)
    requires restore ==> 0 <= bucket < NEW_BUCKET_COUNT
    modifies am`mapInfo, am`vvNew
    ensures am.Tables() && AtMostEight(am.mapInfo)
    ensures var info := old(am.mapInfo)[x];
            var i := SlotFor(am.env, old(am.vvNew), bucket, x, RecordOf(info), info.nRefCount, restore);
            if i == -1 then am.mapInfo == old(am.mapInfo) && am.vvNew == old(am.vvNew)
            else
              && am.vvNew == old(am.vvNew)[i := x]
              && am.mapInfo == old(am.mapInfo)[x := info.(nRefCount := info.nRefCount + 1)]
  {
    hide NewOk, TriedOk, RandomOk;
    if am.mapInfo[x].nRefCount >= NEW_BUCKETS_PER_ADDRESS {
      return;
    }
    var info := am.mapInfo[x];
    if restore && am.vvNew[NewSlot(am.env, info.addr, bucket)] == -1 {
      am.AddReference(NewSlot(am.env, info.addr, bucket), x);
    } else {
      var j := NewSlot(am.env, info.addr, am.env.newBucket(info.addr, info.source));
      if am.vvNew[j] == -1 {
        am.AddReference(j, x);
      }
    }
  }

  /** The new table when the first `n` saved pairs have been given their slots, one after the other. */
  ghost function TableOf(env: Env, records: seq<Record>, entries: seq<(int, int)>, restore: bool, n: nat): (v: seq<int>)
    requires n <= |entries| && PairsIn(records, entries, restore)
    ensures |v| == NEW_BUCKET_COUNT * BUCKET_SIZE
  {
    if n == 0 then seq(NEW_BUCKET_COUNT * BUCKET_SIZE, _ => -1)
    else NextTable(env, records, TableOf(env, records, entries, restore, n - 1), entries[n - 1], restore)
  }

  ghost function NextTable(env: Env, records: seq<Record>, v: seq<int>, e: (int, int), restore: bool): (w: seq<int>)
    requires |v| == NEW_BUCKET_COUNT * BUCKET_SIZE && 0 <= e.1 < |records| && (restore ==> 0 <= e.0 < NEW_BUCKET_COUNT)
    ensures |w| == |v|
  {
    var i := SlotFor(env, v, e.0, e.1, records[e.1], |SlotsOf(v, e.1)|, restore);
    if i == -1 then v else v[i := e.1]
  }

  ghost predicate PairsIn(records: seq<Record>, entries: seq<(int, int)>, restore: bool) {
    forall k :: 0 <= k < |entries| ==>
        0 <= entries[k].1 < |records| && (restore ==> 0 <= entries[k].0 < NEW_BUCKET_COUNT)
  }

  /** The pairs stand for distinct slots `slots`, together the table `target`. */
  ghost predicate Clean(env: Env, records: seq<Record>, entries: seq<(int, int)>, slots: seq<int>, target: seq<int>) {
    && |target| == NEW_BUCKET_COUNT * BUCKET_SIZE && |slots| == |entries|
    && (forall k :: 0 <= k < |entries| ==>
          && 0 <= slots[k] < |target| && 0 <= entries[k].1 < |records| && 0 <= entries[k].0 < NEW_BUCKET_COUNT
          && slots[k] == NewSlot(env, records[entries[k].1].addr, entries[k].0) && target[slots[k]] == entries[k].1)
    && (forall j, k :: 0 <= j < k < |slots| ==> slots[j] < slots[k])
    && (forall i :: 0 <= i < |target| && target[i] != -1 ==> i in slots && 0 <= target[i] < |records|)
    && (forall x :: 0 <= x < |records| ==> 1 <= |SlotsOf(target, x)| <= NEW_BUCKETS_PER_ADDRESS)
  }

  /** The table when the first `n` pairs are placed. */
  ghost predicate PlacedSoFar(v: seq<int>, slots: seq<int>, target: seq<int>, n: nat)
    requires |v| == |target| && n <= |slots|
  {
    && (forall i :: 0 <= i < |v| && v[i] != -1 ==> v[i] == target[i] && i in slots[..n])
    && (forall k :: 0 <= k < n && 0 <= slots[k] < |v| ==> v[slots[k]] == target[slots[k]])
  }

  /** The next pair finds its slot free and its entry not yet full. */
  lemma NextPairFits(
    env: Env, records: seq<Record>, entries: seq<(int, int)>, slots: seq<int>, target: seq<int>, v: seq<int>, n: nat)
    requires Clean(env, records, entries, slots, target) && n < |entries| && |v| == |target| &&
             PlacedSoFar(v, slots, target, n)
    ensures 0 <= entries[n].1 < |records| && 0 <= entries[n].0 < NEW_BUCKET_COUNT
    ensures PlacedSoFar(NextTable(env, records, v, entries[n], true), slots, target, n + 1)
  {
    var x, i := entries[n].1, slots[n];
    assert i !in slots[..n];
    var s, t := SlotsOf(v, x), SlotsOf(target, x);
    assert s <= t - {i} && i in t;
    CardinalityMonotone(s, t - {i});
    assert slots[..n + 1] == slots[..n] + [i];
  }

  lemma {:induction false} CardinalityMonotone(a: set<int>, b: set<int>)
    requires a <= b
    ensures |a| <= |b|
  {
    assert b == a + (b - a);
    assert |b| == |a| + |b - a|;
  }

  lemma AllPlaced(v: seq<int>, slots: seq<int>, target: seq<int>)
    requires |v| == |target| && PlacedSoFar(v, slots, target, |slots|)
    requires forall i :: 0 <= i < |target| && target[i] != -1 ==> i in slots
    ensures v == target
  {
  }

  method PlaceEntries(am: AddrManager, entries: seq<(int, int)>, restore: bool, ghost records: seq<Record>)
    requires am.Tables() && AtMostEight(am.mapInfo) && Unplaced(am.vvNew) && StartsAs(am.mapInfo, records)
    requires PairsIn(records, entries, restore)
    modifies am`mapInfo, am`vvNew
    ensures am.Tables() && SameButRefs(old(am.mapInfo), am.mapInfo) && AtMostEight(am.mapInfo)
    ensures am.vvNew == TableOf(am.env, records, entries, restore, |entries|)
  {
    hide TriedOk, RandomOk, NewOk, AtMostEight, SlotFor, StartsAs, TableOf;
    ghost var m0 := am.mapInfo;
    NoPairs(am.env, records, entries, restore, am.vvNew);
    SameRefs(m0);
    for n := 0 to |entries|
      invariant am.Tables() && SameButRefs(m0, am.mapInfo) && AtMostEight(am.mapInfo)
      invariant am.vvNew == TableOf(am.env, records, entries, restore, n)
    {
      var x := entries[n].1;
      ghost var m, v := am.mapInfo, am.vvNew;
      StartRecord(m0, m, records, x);
      RefsAreSlots(am, x);
      NextPair(am.env, records, entries, restore, n);
      PlaceOne(am, entries[n].0, x, restore);
      OneMoreRef(m0, m, am.mapInfo, x);
    }
  }

  lemma NoPairs(env: Env, records: seq<Record>, entries: seq<(int, int)>, restore: bool, v: seq<int>)
    requires PairsIn(records, entries, restore) && |v| == NEW_BUCKET_COUNT * BUCKET_SIZE && Unplaced(v)
    ensures TableOf(env, records, entries, restore, 0) == v
  {
  }

  lemma NextPair(env: Env, records: seq<Record>, entries: seq<(int, int)>, restore: bool, n: nat)
    requires n < |entries| && PairsIn(records, entries, restore)
    ensures TableOf(env, records, entries, restore, n + 1)
            == NextTable(env, records, TableOf(env, records, entries, restore, n), entries[n], restore)
  {
  }

  lemma SameRefs(m: InfoMap)
    ensures SameButRefs(m, m)
  {
  }

  lemma StartRecord(m0: InfoMap, m: InfoMap, records: seq<Record>, x: int)
    requires StartsAs(m0, records) && SameButRefs(m0, m) && 0 <= x < |records|
    ensures x in m && !m[x].fInTried && RecordOf(m[x]) == records[x]
  {
  }

  lemma OneMoreRef(m0: InfoMap, m: InfoMap, m': InfoMap, x: int)
    requires SameButRefs(m0, m) && x in m && (m' == m || m' == m[x := m[x].(nRefCount := m[x].nRefCount + 1)])
    ensures SameButRefs(m0, m')
  {
  }

  /** When the pairs stand for the slots of a table they give back that table. */
  lemma {:induction false} CleanTable(
    env: Env, records: seq<Record>, entries: seq<(int, int)>, slots: seq<int>, target: seq<int>, n: nat)
    requires n <= |entries| && PairsIn(records, entries, true) && Clean(env, records, entries, slots, target)
    requires |target| == NEW_BUCKET_COUNT * BUCKET_SIZE && |slots| == |entries|
    ensures PlacedSoFar(TableOf(env, records, entries, true, n), slots, target, n)
  {
    hide *;
    if n == 0 {
      NonePlaced(env, records, entries, slots, target);
    } else {
      CleanTable(env, records, entries, slots, target, n - 1);
      CleanNext(env, records, entries, slots, target, n - 1);
    }
  }

  lemma CleanNext(env: Env, records: seq<Record>, entries: seq<(int, int)>, slots: seq<int>, target: seq<int>, n: nat)
    requires n < |entries| && PairsIn(records, entries, true) && Clean(env, records, entries, slots, target)
    requires |target| == NEW_BUCKET_COUNT * BUCKET_SIZE && |slots| == |entries|
    requires PlacedSoFar(TableOf(env, records, entries, true, n), slots, target, n)
    ensures PlacedSoFar(TableOf(env, records, entries, true, n + 1), slots, target, n + 1)
  {
    NextPair(env, records, entries, true, n);
    NextPairFits(env, records, entries, slots, target, TableOf(env, records, entries, true, n), n);
    hide *;
  }

  lemma NonePlaced(env: Env, records: seq<Record>, entries: seq<(int, int)>, slots: seq<int>, target: seq<int>)
    requires PairsIn(records, entries, true) && Clean(env, records, entries, slots, target)
    ensures PlacedSoFar(TableOf(env, records, entries, true, 0), slots, target, 0)
  {
  }

  lemma RefsAreSlots(am: AddrManager, x: int)
    requires am.Tables() && x in am.mapInfo
    ensures x >= 0 && am.mapInfo[x].nRefCount == |SlotsOf(am.vvNew, x)|
  {
  }

  // --- pruning ------------------------------------------------------------------------------------

  ghost predicate Prunable(i: Info) { !i.fInTried && i.nRefCount == 0 }

  ghost predicate NonePrunable(m: InfoMap, n: int) {
    forall id :: id in m && id < n ==> !Prunable(m[id])
  }

  ghost predicate Exact(am: AddrManager)
    reads am
  {
    am.nNew == |NewIds(am.mapInfo)| && am.nTried == |TriedIds(am.mapInfo)|
  }

  /** The entries that are tried or referenced, of those with an id below `n`, and all others. */
  ghost function Kept(m: InfoMap, n: int): InfoMap { map id | id in m && (id < n ==> !Prunable(m[id])) :: m[id] }

  /** Deletes exactly the new entries that found no slot; the others keep all but their place in vRandom. */
  method Prune(am: AddrManager)
    requires am.Tables() && AtMostEight(am.mapInfo) && Exact(am)
    modifies am`mapInfo, am`mapAddr, am`vRandom, am`nNew
    ensures am.Tables() && Referenced(am.mapInfo, {}) && Exact(am)
    ensures old(am.Linked()) ==> am.Linked()
    ensures SameButPos(Kept(old(am.mapInfo), am.nIdCount), am.mapInfo)
    ensures am.mapAddr == old(am.mapAddr) - PrunedKeys(am.env, old(am.mapInfo), am.nIdCount)
    ensures NonePrunable(old(am.mapInfo), am.nIdCount) ==>
              am.mapInfo == old(am.mapInfo) && am.mapAddr == old(am.mapAddr) && am.nNew == old(am.nNew)
  {
    hide NewOk, TriedOk, RandomOk, AddrOk, NewIds, TriedIds, SameButPos, Kept, PrunedKeys;
    KeptAll(am.mapInfo);
    NoneKeysPruned(am.env, am.mapInfo, am.mapAddr);
    for id := 0 to am.nIdCount
      invariant am.Tables() && AtMostEight(am.mapInfo) && Exact(am) && NonePrunable(am.mapInfo, id)
      invariant old(am.Linked()) ==> am.Linked()
      invariant SameButPos(Kept(old(am.mapInfo), id), am.mapInfo)
      invariant am.mapAddr == old(am.mapAddr) - PrunedKeys(am.env, old(am.mapInfo), id)
      invariant NonePrunable(old(am.mapInfo), am.nIdCount) ==>
                  am.mapInfo == old(am.mapInfo) && am.mapAddr == old(am.mapAddr) && am.nNew == old(am.nNew)
    {
      ghost var m := am.mapInfo;
      KeptNext(old(am.mapInfo), id, m);
      PrunedNext(am.env, old(am.mapInfo), id, m, am.mapAddr, old(am.mapAddr));
      if id in am.mapInfo && !am.mapInfo[id].fInTried && am.mapInfo[id].nRefCount == 0 {
        PruneOne(am, id);
        SameButPosChain(Kept(old(am.mapInfo), id + 1), m - {id}, am.mapInfo);
      }
    }
    RefsNonNegative(am);
  }

  /** The keys that go with the pruned entries. */
  ghost function PrunedKeys(env: Env, m: InfoMap, n: int): set<Service> {
    set id | id in m && id < n && Prunable(m[id]) :: Key(env, m[id].addr)
  }

  lemma NoneKeysPruned(env: Env, m: InfoMap, mapAddr: map<Service, int>)
    requires forall id :: id in m ==> id >= 0
    ensures mapAddr == mapAddr - PrunedKeys(env, m, 0)
  {
    assert PrunedKeys(env, m, 0) == {};
  }

  lemma PrunedNext(env: Env, m0: InfoMap, id: int, m: InfoMap, mapAddr: map<Service, int>, mapAddr0: map<Service, int>)
    requires SameButPos(Kept(m0, id), m) && mapAddr == mapAddr0 - PrunedKeys(env, m0, id)
    ensures (if id in m && Prunable(m[id]) then mapAddr - {Key(env, m[id].addr)} else mapAddr)
            == mapAddr0 - PrunedKeys(env, m0, id + 1)
  {
    var was, now := PrunedKeys(env, m0, id), PrunedKeys(env, m0, id + 1);
    assert id in m <==> id in m0;
    if id in m && Prunable(m[id]) {
      assert m[id].addr == m0[id].addr && Prunable(m0[id]);
      assert now == was + {Key(env, m[id].addr)};
    } else {
      assert now == was;
    }
  }

  /** After the pruning the index is right exactly when ports are told apart or are all zero: it was built with full
    * addresses, while an entry is looked up, and deleted, by its key. */
  lemma IndexAfter(env: Env, m: InfoMap, mapAddr: map<Service, int>, n: int, m': InfoMap)
    requires AddrOk(env.(discriminatePorts := true), m, mapAddr) && SameButPos(Kept(m, n), m')
    requires forall id :: id in m ==> id < n
    ensures AddrOk(env, m', mapAddr - PrunedKeys(env, m, n))
            <==> env.discriminatePorts || forall id :: id in m ==> m[id].addr.port == 0
  {
    if env.discriminatePorts || forall id :: id in m ==> m[id].addr.port == 0 {
      IndexKept(env, m, mapAddr, n, m');
    } else {
      var id :| id in m && m[id].addr.port != 0;
      IndexStale(env, m, mapAddr, n, m', id);
    }
  }

  lemma IndexKept(env: Env, m: InfoMap, mapAddr: map<Service, int>, n: int, m': InfoMap)
    requires AddrOk(env.(discriminatePorts := true), m, mapAddr) && SameButPos(Kept(m, n), m')
    requires forall id :: id in m ==> id < n
    requires env.discriminatePorts || forall id :: id in m ==> m[id].addr.port == 0
    ensures AddrOk(env, m', mapAddr - PrunedKeys(env, m, n))
  {
    IndexRule(env, m, mapAddr);
    var now := mapAddr - PrunedKeys(env, m, n);
    forall id | id in m'
      ensures Key(env, m'[id].addr) in now && now[Key(env, m'[id].addr)] == id
    {
      assert id in Kept(m, n) && m'[id].addr == m[id].addr;
    }
    forall k | k in now
      ensures now[k] in m' && Key(env, m'[now[k]].addr) == k
    {
      assert now[k] in m && Key(env, m[now[k]].addr) == k;
      assert now[k] in Kept(m, n);
    }
  }

  lemma IndexStale(env: Env, m: InfoMap, mapAddr: map<Service, int>, n: int, m': InfoMap, id: int)
    requires AddrOk(env.(discriminatePorts := true), m, mapAddr) && SameButPos(Kept(m, n), m')
    requires !env.discriminatePorts && id in m && m[id].addr.port != 0
    ensures !AddrOk(env, m', mapAddr - PrunedKeys(env, m, n))
  {
    var full, a, now := env.(discriminatePorts := true), m[id].addr, mapAddr - PrunedKeys(env, m, n);
    assert Key(full, a) == a;
    assert a in now;
    assert now[a] in m' ==> Key(env, m'[now[a]].addr) != a;
  }

  lemma KeptAll(m: InfoMap)
    requires forall id :: id in m ==> id >= 0
    ensures SameButPos(Kept(m, 0), m)
  {
  }

  lemma KeptNext(m0: InfoMap, id: int, m: InfoMap)
    requires SameButPos(Kept(m0, id), m)
    ensures SameButPos(Kept(m0, id + 1), if id in m && Prunable(m[id]) then m - {id} else m)
  {
  }

  lemma SameButPosChain(a: InfoMap, b: InfoMap, c: InfoMap)
    requires SameButPos(a, b) && SameButPos(b, c)
    ensures SameButPos(a, c)
  {
    SameButPosEuclid(a, b, c);
  }

  method PruneOne(am: AddrManager, id: int)
    requires am.Tables() && AtMostEight(am.mapInfo) && Exact(am) && NonePrunable(am.mapInfo, id)
    requires id in am.mapInfo && Prunable(am.mapInfo[id])
    modifies am`mapInfo, am`mapAddr, am`vRandom, am`nNew
    ensures am.Tables() && AtMostEight(am.mapInfo) && Exact(am) && NonePrunable(am.mapInfo, id + 1)
    ensures old(am.Linked()) ==> am.Linked()
    ensures SameButPos(old(am.mapInfo) - {id}, am.mapInfo)
    ensures am.mapAddr == old(am.mapAddr) - {Key(am.env, old(am.mapInfo)[id].addr)}
  {
    hide NewOk, TriedOk, RandomOk, AddrOk, NewIds, TriedIds;
    ghost var m := am.mapInfo;
    CountRemove(m, id);
    am.Delete(id);
    SameButPosFacts(m - {id}, am.mapInfo);
  }

  lemma RefsNonNegative(am: AddrManager)
    requires am.Tables() && AtMostEight(am.mapInfo) && NonePrunable(am.mapInfo, am.nIdCount)
    ensures Referenced(am.mapInfo, {})
  {
  }

  // --- the whole ----------------------------------------------------------------------------------

  ghost predicate Restores(s: Stream, checksum: nat) {
    BucketCount(s) == NEW_BUCKET_COUNT && (if s.format >= 2 then s.asmapChecksum else 0) == checksum
  }

  ghost predicate TriedBack(am: AddrManager, r: Record, id: int)
    reads am
    requires |am.vvTried| == TRIED_BUCKET_COUNT * BUCKET_SIZE
  {
    && id in am.mapInfo && RecordOf(am.mapInfo[id]) == r && am.mapInfo[id].fInTried
    && am.vvTried[TriedSlot(am.env, r.addr)] == id
  }

  /** Everything found its place again. */
  ghost predicate Reloaded(am: AddrManager, s: Stream, target: seq<int>)
    reads am
    requires |am.vvTried| == TRIED_BUCKET_COUNT * BUCKET_SIZE
  {
    && am.vvNew == target
    && (forall n :: 0 <= n < |s.newEntries| ==>
          n in am.mapInfo && RecordOf(am.mapInfo[n]) == s.newEntries[n] && !am.mapInfo[n].fInTried)
    && (forall k :: 0 <= k < |s.triedEntries| ==> TriedBack(am, s.triedEntries[k], |s.newEntries| + k))
    && (forall i :: 0 <= i < |am.vvTried| && am.vvTried[i] != -1 ==>
          |s.newEntries| <= am.vvTried[i] < |s.newEntries| + |s.triedEntries|
          && i == TriedSlot(am.env, s.triedEntries[am.vvTried[i] - |s.newEntries|].addr))
    && am.nNew == s.nNew && am.nTried == s.nTried
  }

  /** A stream whose bucket contents are the table `target`, occupied at `slots`, in which every new
    * entry has a place, and whose tried entries do not collide. */
  ghost predicate Lossless(s: Stream, env: Env, slots: seq<int>, target: seq<int>) {
    TriedDistinct(env, s.triedEntries) && Clean(env, s.newEntries, UsableAll(s.buckets, s.nNew), slots, target)
  }

  /** What any accepted stream is loaded as: the new entries that found a slot, with their data, under their
    * places in the stream; in every tried slot the first record that claims it; and nothing else. */
  ghost predicate LoadedData(am: AddrManager, s: Stream, checksum: nat)
    reads am
    requires WellShaped(s) && Accepted(s)
  {
    && am.vvNew == LoadedTable(s, am.env, checksum)
    && (forall id :: id in am.mapInfo && id < |s.newEntries| ==>
          id >= 0 && RecordOf(am.mapInfo[id]) == s.newEntries[id] && !am.mapInfo[id].fInTried)
    && (forall id :: 0 <= id < |s.newEntries| ==> (id in am.mapInfo <==> id in am.vvNew))
    && (forall id :: id in am.mapInfo && id >= |s.newEntries| ==> am.mapInfo[id].fInTried && id in am.vvTried)
    && (forall id :: id in am.mapInfo ==> am.mapInfo[id].nLastTry == 0 == am.mapInfo[id].nLastCountAttempt)
    && TriedWon(am.env, am.mapInfo, am.vvTried, s.triedEntries, |s.triedEntries|)
  }

  /** Unserialize. Whatever an accepted stream holds, the tables, counts and vRandom come out consistent, and the
    * entries are as `LoadedData` says. For distinct addresses the index is right exactly when ports are told apart or
    * no loaded address has one. A lossless stream comes back as it was saved. */
  method Unserialize(am: AddrManager, s: Stream, hashing: nat -> Env, checksum: nat, ghost slots: seq<int>,
                     ghost target: seq<int>)
    returns (ok: bool)
    requires WellShaped(s)
    modifies am
    ensures ok <==> Accepted(s)
    ensures ok ==> am.env == hashing(s.nKey) && am.Tables() && Referenced(am.mapInfo, {}) && Exact(am)
    ensures ok ==> LoadedData(am, s, checksum)
    ensures am.triedCollisions == old(am.triedCollisions)
    ensures ok && DistinctAddrs(s.newEntries + s.triedEntries) ==>
              (am.Linked() <==> am.env.discriminatePorts || PortsZero(s, am.env))
    ensures ok && Restores(s, checksum) && Lossless(s, am.env, slots, target) ==>
              && Reloaded(am, s, target)
              && (DistinctAddrs(s.newEntries + s.triedEntries) ==> FullIndex(am))
  {
    hide NewOk, TriedOk, RandomOk, AddrOk, NewIds, TriedIds, Referenced, Lossless, Reloaded, DistinctAddrs,
      TriedExactly;
    hide PrunedKeys, PortsZero, AddrSet, Loaded, TriedDistinct, TriedWon, Kept, LoadedData, LoadedTable, SameButRefs, SameButPos;
    am.Clear(hashing(s.nKey));
    if s.format > MAXIMUM_SUPPORTED_FORMAT || s.keySize != 32 {
      return false;
    }
    if !(0 <= s.nNew <= NEW_BUCKET_COUNT * BUCKET_SIZE) || !(0 <= s.nTried <= TRIED_BUCKET_COUNT * BUCKET_SIZE) {
      return false;
    }
    EmptyIndex(am.env.(discriminatePorts := true));
    LoadEntries(am, s);
    ghost var m := am.mapInfo;
    RestoreBuckets(am, s, checksum);
    ghost var m1 := am.mapInfo;
    ghost var lossless := Restores(s, checksum) && Lossless(s, am.env, slots, target);
    if lossless {
      LosslessTried(s, am.env, slots, target);
      LosslessTable(s, am.env, checksum, slots, target);
      LosslessKeeps(am, s, slots, target, m);
    }
    ghost var index := am.mapAddr;
    Prune(am);
    if lossless {
      LosslessKeeps(am, s, slots, target, m);
    }
    if DistinctAddrs(s.newEntries + s.triedEntries) {
      IndexAfter(am.env, m1, index, am.nIdCount, am.mapInfo);
      LoadedPorts(s, am.env, m, m1, am.vvTried);
    }
    DataLoaded(am, s, checksum, m, m1);
    return true;
  }

  /** No port among the new records, and among the tried records that got a slot. */
  ghost predicate PortsZero(s: Stream, env: Env) {
    && (forall n :: 0 <= n < |s.newEntries| ==> s.newEntries[n].addr.port == 0)
    && (forall k :: 0 <= k < |s.triedEntries| && Won(s, env, k) ==> s.triedEntries[k].addr.port == 0)
  }

  ghost predicate Won(s: Stream, env: Env, k: nat)
    requires k < |s.triedEntries|
  {
    Winner(env, s.triedEntries, |s.triedEntries|, TriedSlot(env, s.triedEntries[k].addr)) == k
  }

  lemma LoadedPorts(s: Stream, env: Env, m: InfoMap, m1: InfoMap, vvTried: seq<int>)
    requires StartsAs(m, s.newEntries) && SameButRefs(m, m1) && TriedOk(env, m1, vvTried)
    requires TriedWon(env, m, vvTried, s.triedEntries, |s.triedEntries|) && forall id :: id in m ==> id >= 0
    ensures (forall id :: id in m1 ==> m1[id].addr.port == 0) <==> PortsZero(s, env)
  {
    var records, n := s.triedEntries, |s.triedEntries|;
    hide TriedSlot;
    if PortsZero(s, env) {
      forall id | id in m1
        ensures m1[id].addr.port == 0
      {
        if id >= |s.newEntries| {
          var i := TriedSlot(env, m1[id].addr);
          assert vvTried[i] == id;
          assert WonSlot(env, m, vvTried, records, n, i);
          assert Won(s, env, Winner(env, records, n, i));
        }
      }
    }
    if forall id :: id in m1 ==> m1[id].addr.port == 0 {
      forall k | 0 <= k < n && Won(s, env, k)
        ensures records[k].addr.port == 0
      {
        var i := TriedSlot(env, records[k].addr);
        assert 0 <= i < |vvTried|;
        assert WonSlot(env, m, vvTried, records, n, i);
        assert vvTried[i] in m1;
      }
      forall id | 0 <= id < |s.newEntries|
        ensures s.newEntries[id].addr.port == 0
      {
        assert id in m1;
      }
    }
  }

  lemma DataLoaded(am: AddrManager, s: Stream, checksum: nat, m: InfoMap, m1: InfoMap)
    requires WellShaped(s) && Accepted(s) && am.Tables() && Referenced(am.mapInfo, {})
    requires am.vvNew == LoadedTable(s, am.env, checksum)
    requires StartsAs(m, s.newEntries) && TriedWon(am.env, m, am.vvTried, s.triedEntries, |s.triedEntries|)
    requires SameButRefs(m, m1) && SameButPos(Kept(m1, am.nIdCount), am.mapInfo)
    ensures LoadedData(am, s, checksum)
  {
    SameData(m, m1, am.nIdCount, am.mapInfo);
    hide LoadedTable, RandomOk, NewOk, TriedWon, SameButRefs, SameButPos, Kept, Referenced;
    Occupants(am, s.newEntries, m);
    WonKept(am.env, m, am.mapInfo, am.vvTried, s.triedEntries, |s.triedEntries|);
    StartData(m, s.newEntries, am.mapInfo);
    hide SameFacts, StartsAs;
    forall id | id in am.mapInfo && id >= |s.newEntries|
      ensures id in am.vvTried
    {
      assert am.vvTried[TriedSlot(am.env, am.mapInfo[id].addr)] == id;
    }
  }

  /** The entries of `m2` are entries of `m`, with their data. */
  ghost predicate SameFacts(m: InfoMap, m2: InfoMap) {
    forall id :: id in m2 ==>
      && id in m && RecordOf(m2[id]) == RecordOf(m[id]) && m2[id].fInTried == m[id].fInTried
      && m2[id].nLastTry == m[id].nLastTry && m2[id].nLastCountAttempt == m[id].nLastCountAttempt
  }

  lemma SameData(m: InfoMap, m1: InfoMap, n: int, m2: InfoMap)
    requires SameButRefs(m, m1) && SameButPos(Kept(m1, n), m2)
    ensures SameFacts(m, m2)
  {
  }

  lemma StartData(m: InfoMap, records: seq<Record>, m2: InfoMap)
    requires StartsAs(m, records) && SameFacts(m, m2) && forall id :: id in m2 ==> id >= 0
    ensures forall id :: id in m2 && id < |records| ==> RecordOf(m2[id]) == records[id] && !m2[id].fInTried
    ensures forall id :: id in m2 && id >= |records| ==> m2[id].fInTried
    ensures forall id :: id in m2 ==> m2[id].nLastTry == 0 == m2[id].nLastCountAttempt
  {
  }

  lemma Occupants(am: AddrManager, records: seq<Record>, m: InfoMap)
    requires am.Tables() && Referenced(am.mapInfo, {}) && StartsAs(m, records) && SameFacts(m, am.mapInfo)
    ensures forall id :: 0 <= id < |records| ==> (id in am.mapInfo <==> id in am.vvNew)
  {
    hide RandomOk, TriedOk;
    forall id | 0 <= id < |records| && id in am.mapInfo
      ensures id in am.vvNew
    {
      assert SlotsOf(am.vvNew, id) != {};
    }
  }

  lemma WonKept(env: Env, m: InfoMap, m2: InfoMap, vvTried: seq<int>, records: seq<Record>, n: nat)
    requires n <= |records| && TriedWon(env, m, vvTried, records, n) && TriedOk(env, m2, vvTried)
    requires SameFacts(m, m2)
    ensures TriedWon(env, m2, vvTried, records, n)
  {
    hide RecordOf;
    forall i | 0 <= i < |vvTried|
      ensures WonSlot(env, m2, vvTried, records, n, i)
    {
      assert WonSlot(env, m, vvTried, records, n, i);
    }
  }

  lemma EmptyIndex(env: Env)
    ensures AddrOk(env, map[], map[])
  {
  }

  /** Reads all entries; the counters are then those of the entries read. */
  method LoadEntries(am: AddrManager, s: Stream)
    requires WellShaped(s) && Accepted(s)
    requires am.Tables() && FullIndex(am) && am.mapInfo == map[] && am.mapAddr == map[] && am.vRandom == [] &&
             am.nIdCount == 0
    requires Unplaced(am.vvNew) && Unplaced(am.vvTried)
    modifies am`mapInfo, am`mapAddr, am`vRandom, am`nIdCount, am`vvTried, am`nNew, am`nTried
    ensures am.Tables() && StartsAs(am.mapInfo, s.newEntries) && Exact(am) && am.nNew == s.nNew
    ensures DistinctAddrs(s.newEntries + s.triedEntries) ==> FullIndex(am)
    ensures TriedWon(am.env, am.mapInfo, am.vvTried, s.triedEntries, |s.triedEntries|)
    ensures TriedDistinct(am.env, s.triedEntries) ==>
              && am.nTried == s.nTried
              && TriedExactly(am.env, am.mapInfo, am.vvTried, |s.newEntries|, s.triedEntries, |s.triedEntries|)
  {
    hide NewOk, TriedOk, RandomOk, AddrOk, NewIds, TriedIds, DistinctAddrs, TriedExactly, AddrSet, Loaded,
      TriedDistinct, TriedWon;
    DistinctPrefix(s.newEntries, s.triedEntries);
    LoadNew(am, s.newEntries);
    EmptyCounts();
    var nLost := LoadTried(am, s.triedEntries, s.newEntries);
    am.nNew := s.nNew;
    am.nTried := s.nTried - nLost;
  }

  lemma DistinctPrefix(a: seq<Record>, b: seq<Record>)
    ensures DistinctAddrs(a + b) ==> DistinctAddrs(a)
  {
    if DistinctAddrs(a + b) {
      forall j, k | 0 <= j < k < |a| ensures a[j].addr != a[k].addr {
        assert (a + b)[j] == a[j] && (a + b)[k] == a[k];
      }
    }
  }

  /** The bucket part of Unserialize: only reference counts and the new table change. */
  method RestoreBuckets(am: AddrManager, s: Stream, checksum: nat)
    requires WellShaped(s) && Accepted(s)
    requires am.Tables() && StartsAs(am.mapInfo, s.newEntries) && Exact(am) && Unplaced(am.vvNew)
    modifies am`mapInfo, am`vvNew
    ensures am.Tables() && SameButRefs(old(am.mapInfo), am.mapInfo) && AtMostEight(am.mapInfo) && Exact(am)
    ensures old(FullIndex(am)) ==> FullIndex(am)
    ensures am.vvNew == LoadedTable(s, am.env, checksum)
  {
    hide TriedOk, RandomOk, AddrOk, NewIds, TriedIds, StartsAs, TableOf;
    var entries := ReadBuckets(s.buckets, s.nNew);
    var restore := BucketCount(s) == NEW_BUCKET_COUNT && (if s.format >= 2 then s.asmapChecksum else 0) == checksum;
    UsableRange(s.buckets, s.nNew);
    NoReferences(am, s.newEntries);
    hide NewOk;
    ghost var m := am.mapInfo;
    PlaceEntries(am, entries, restore, s.newEntries);
    RefsIrrelevant(am.env.(discriminatePorts := true), m, am.mapInfo, am.mapAddr);
  }

  /** The new table an accepted stream is loaded with. */
  ghost function LoadedTable(s: Stream, env: Env, checksum: nat): (v: seq<int>)
    requires WellShaped(s) && Accepted(s)
    ensures |v| == NEW_BUCKET_COUNT * BUCKET_SIZE
  {
    UsableRange(s.buckets, s.nNew);
    var entries := UsableAll(s.buckets, s.nNew);
    TableOf(env, s.newEntries, entries, Restores(s, checksum), |entries|)
  }

  lemma LosslessTable(s: Stream, env: Env, checksum: nat, slots: seq<int>, target: seq<int>)
    requires WellShaped(s) && Accepted(s) && Restores(s, checksum) && Lossless(s, env, slots, target)
    ensures LoadedTable(s, env, checksum) == target
  {
    hide TableOf, PlacedSoFar, TriedDistinct;
    UsableRange(s.buckets, s.nNew);
    var entries := UsableAll(s.buckets, s.nNew);
    CleanTable(env, s.newEntries, entries, slots, target, |entries|);
    AllPlaced(TableOf(env, s.newEntries, entries, true, |entries|), slots, target);
  }

  lemma NoReferences(am: AddrManager, loaded: seq<Record>)
    requires am.Tables() && StartsAs(am.mapInfo, loaded) && Unplaced(am.vvNew)
    ensures AtMostEight(am.mapInfo)
    ensures forall n :: 0 <= n < |loaded| ==> n in am.mapInfo && !am.mapInfo[n].fInTried
  {
  }

  lemma RefsIrrelevant(env: Env, m: InfoMap, m': InfoMap, mapAddr: map<Service, int>)
    requires SameButRefs(m, m')
    ensures AddrOk(env, m, mapAddr) ==> AddrOk(env, m', mapAddr)
    ensures NewIds(m') == NewIds(m) && TriedIds(m') == TriedIds(m)
  {
    assert forall id :: id in NewIds(m') <==> id in NewIds(m);
    assert forall id :: id in TriedIds(m') <==> id in TriedIds(m);
  }

  lemma LosslessTried(s: Stream, env: Env, slots: seq<int>, target: seq<int>)
    requires Lossless(s, env, slots, target)
    ensures TriedDistinct(env, s.triedEntries)
  {
  }

  /** Nothing is lost: the entries are the saved ones and none will be pruned. */
  lemma LosslessKeeps(am: AddrManager, s: Stream, slots: seq<int>, target: seq<int>, m: InfoMap)
    requires am.Tables() && Lossless(s, am.env, slots, target) && am.vvNew == target
    requires StartsAs(m, s.newEntries) && SameButRefs(m, am.mapInfo) && am.nNew == s.nNew && am.nTried == s.nTried
    requires TriedExactly(am.env, m, am.vvTried, |s.newEntries|, s.triedEntries, |s.triedEntries|)
    ensures NonePrunable(am.mapInfo, am.nIdCount) && Reloaded(am, s, target)
  {
    forall id | id in am.mapInfo ensures !Prunable(am.mapInfo[id]) {
      assert id in m;
      if id < |s.newEntries| {
        assert am.mapInfo[id].nRefCount == |SlotsOf(target, id)|;
      }
    }
    forall k | 0 <= k < |s.triedEntries| ensures TriedBack(am, s.triedEntries[k], |s.newEntries| + k) {
      assert TriedAt(am.env, m, am.vvTried, s.triedEntries[k], |s.newEntries| + k);
    }
  }

  /** An index by full address is the manager's index exactly when no address differs from its key:
    * ports are told apart, or all ports are zero. */
  lemma IndexRule(env: Env, m: InfoMap, mapAddr: map<Service, int>)
    ensures AddrOk(env.(discriminatePorts := true), m, mapAddr) ==>
              (AddrOk(env, m, mapAddr) <==> env.discriminatePorts || forall id :: id in m ==> m[id].addr.port == 0)
  {
    var full := env.(discriminatePorts := true);
    if AddrOk(full, m, mapAddr) {
      if AddrOk(env, m, mapAddr) && !env.discriminatePorts {
        forall id | id in m ensures m[id].addr.port == 0 {
          assert Key(full, m[id].addr) == m[id].addr;
          assert Key(env, m[id].addr) in mapAddr;
          assert m[mapAddr[Key(env, m[id].addr)]].addr == Key(env, m[id].addr);
        }
      }
      if env.discriminatePorts || forall id :: id in m ==> m[id].addr.port == 0 {
        forall id | id in m ensures Key(env, m[id].addr) == m[id].addr {
          assert Key(full, m[id].addr) == m[id].addr;
        }
      }
    }
  }

  // ---------------------------------------------------------------------------------------------
  // The round trip
  // ---------------------------------------------------------------------------------------------

  lemma {:induction false} OrderIncreasing(m: InfoMap, n: nat, tried: bool)
    ensures forall j, k :: 0 <= j < k < |Order(m, n, tried)| ==> Order(m, n, tried)[j] < Order(m, n, tried)[k]
  {
    if n > 0 {
      OrderIncreasing(m, n - 1, tried);
      OrderMembers(m, n - 1, tried);
    }
  }

  /** Place and id determine each other. */
  lemma OrderInverse(m: InfoMap, n: nat, tried: bool, k: nat)
    requires k < |Order(m, n, tried)|
    ensures var id := Order(m, n, tried)[k];
              0 <= id < n && id in m && Chosen(m[id], tried) && |Order(m, id, tried)| == k
  {
  }

  /** The id under which entry `id` comes back. */
  ghost function NewId(m: InfoMap, n: nat, id: int): int {
    if id !in m || id < 0 then -1
    else if m[id].fInTried then |Order(m, n, false)| + |Order(m, id, true)|
    else |Order(m, id, false)|
  }

  ghost function RenamedTable(m: InfoMap, v: seq<int>): (r: seq<int>)
    ensures |r| == |v| && forall i :: 0 <= i < |v| ==> r[i] == Rank(m, v[i])
  {
    seq(|v|, i requires 0 <= i < |v| => Rank(m, v[i]))
  }

  /** The occupied slots below `n`. */
  function Occupied(v: seq<int>, n: nat): (r: seq<int>)
    requires n <= |v|
    ensures forall k :: 0 <= k < |r| ==> 0 <= r[k] < n && v[r[k]] != -1
    ensures forall j, k :: 0 <= j < k < |r| ==> r[j] < r[k]
    ensures forall i :: 0 <= i < n && v[i] != -1 ==> i in r
  {
    if n == 0 then [] else Occupied(v, n - 1) + (if v[n - 1] != -1 then [n - 1] else [])
  }

  /** The (bucket, place) pairs of the occupied slots below `n`. */
  ghost function Pairs(m: InfoMap, v: seq<int>, n: nat): seq<(int, int)>
    requires n <= |v|
  {
    if n == 0 then []
    else Pairs(m, v, n - 1) + (if v[n - 1] != -1 then [((n - 1) / BUCKET_SIZE, Rank(m, v[n - 1]))] else [])
  }

  ghost predicate PairsMatch(m: InfoMap, v: seq<int>, pairs: seq<(int, int)>, occ: seq<int>) {
    |pairs| == |occ|
    && forall k :: 0 <= k < |occ| ==> 0 <= occ[k] < |v| && pairs[k] == (occ[k] / BUCKET_SIZE, Rank(m, v[occ[k]]))
  }

  lemma MatchNext(m: InfoMap, v: seq<int>, pairs: seq<(int, int)>, occ: seq<int>, n: nat)
    requires n < |v| && PairsMatch(m, v, pairs, occ)
    ensures PairsMatch(m, v, pairs + [(n / BUCKET_SIZE, Rank(m, v[n]))], occ + [n])
    ensures pairs + [] == pairs && occ + [] == occ
  {
    hide Rank;
  }

  lemma {:induction false} PairsAreOccupied(m: InfoMap, v: seq<int>, n: nat)
    requires n <= |v|
    ensures PairsMatch(m, v, Pairs(m, v, n), Occupied(v, n))
  {
    hide *;
    if n == 0 {
      PairsNone(m, v);
    } else {
      PairsAreOccupied(m, v, n - 1);
      PairsNext(m, v, n - 1);
      MatchNext(m, v, Pairs(m, v, n - 1), Occupied(v, n - 1), n - 1);
    }
  }

  lemma PairsNone(m: InfoMap, v: seq<int>)
    ensures PairsMatch(m, v, Pairs(m, v, 0), Occupied(v, 0))
  {
  }

  lemma PairsNext(m: InfoMap, v: seq<int>, n: nat)
    requires n < |v|
    ensures Occupied(v, n + 1) == Occupied(v, n) + if v[n] != -1 then [n] else []
    ensures Pairs(m, v, n + 1) == Pairs(m, v, n) + if v[n] != -1 then [(n / BUCKET_SIZE, Rank(m, v[n]))] else []
  {
  }

  lemma UsableGrows(bucket: int, items: seq<int>, x: int, nNew: int)
    requires 0 <= x < nNew
    ensures Usable(bucket, items + [x], nNew) == Usable(bucket, items, nNew) + [(bucket, x)]
  {
  }

  lemma UsableAllGrows(buckets: seq<seq<int>>, items: seq<int>, nNew: int)
    ensures UsableAll(buckets + [items], nNew) == UsableAll(buckets, nNew) + Usable(|buckets|, items, nNew)
  {
  }

  /** The pairs read back from one bucket are those of its occupied slots. */
  lemma {:induction false} BucketReadsBack(m: InfoMap, v: seq<int>, nNew: int, bucket: nat, i: nat)
    requires bucket * BUCKET_SIZE + i <= |v| && i <= BUCKET_SIZE
    requires forall j :: 0 <= j < |v| && v[j] != -1 ==> 0 <= Rank(m, v[j]) < nNew
    ensures Pairs(m, v, bucket * BUCKET_SIZE) + Usable(bucket, BucketList(m, v, bucket, i), nNew)
            == Pairs(m, v, bucket * BUCKET_SIZE + i)
  {
    hide Pairs, Usable, BucketList, Rank;
    if i == 0 {
      NoSlotsYet(m, v, nNew, bucket);
    } else {
      BucketReadsBack(m, v, nNew, bucket, i - 1);
      OneMoreSlot(m, v, nNew, bucket, i - 1, Pairs(m, v, bucket * BUCKET_SIZE));
    }
  }

  lemma NoSlotsYet(m: InfoMap, v: seq<int>, nNew: int, bucket: nat)
    requires bucket * BUCKET_SIZE <= |v|
    ensures Pairs(m, v, bucket * BUCKET_SIZE) + Usable(bucket, BucketList(m, v, bucket, 0), nNew)
            == Pairs(m, v, bucket * BUCKET_SIZE)
  {
    assert BucketList(m, v, bucket, 0) == [];
    assert Usable(bucket, [], nNew) == [];
  }

  lemma OneMoreSlot(m: InfoMap, v: seq<int>, nNew: int, bucket: nat, i: nat, a: seq<(int, int)>)
    requires bucket * BUCKET_SIZE + i < |v| && i < BUCKET_SIZE
    requires v[bucket * BUCKET_SIZE + i] != -1 ==> 0 <= Rank(m, v[bucket * BUCKET_SIZE + i]) < nNew
    requires a + Usable(bucket, BucketList(m, v, bucket, i), nNew) == Pairs(m, v, bucket * BUCKET_SIZE + i)
    ensures a + Usable(bucket, BucketList(m, v, bucket, i + 1), nNew) == Pairs(m, v, bucket * BUCKET_SIZE + i + 1)
  {
    hide Rank, Usable;
    var x, before := v[bucket * BUCKET_SIZE + i], BucketList(m, v, bucket, i);
    if x != -1 {
      UsableGrows(bucket, before, Rank(m, x), nNew);
      var p := [(bucket, Rank(m, x))];
      assert a + (Usable(bucket, before, nNew) + p) == (a + Usable(bucket, before, nNew)) + p;
    } else {
      assert BucketList(m, v, bucket, i + 1) == before;
    }
  }

  lemma {:induction false} BucketsReadBack(m: InfoMap, v: seq<int>, nNew: int, n: nat)
    requires n * BUCKET_SIZE <= |v|
    requires forall j :: 0 <= j < |v| && v[j] != -1 ==> 0 <= Rank(m, v[j]) < nNew
    ensures |BucketLists(m, v, n)| == n
    ensures UsableAll(BucketLists(m, v, n), nNew) == Pairs(m, v, n * BUCKET_SIZE)
  {
    hide Pairs, UsableAll, BucketLists, Rank;
    if n == 0 {
      NoBucketsYet(m, v, nNew);
    } else {
      BucketsReadBack(m, v, nNew, n - 1);
      OneMoreBucket(m, v, nNew, n - 1);
    }
  }

  lemma NoBucketsYet(m: InfoMap, v: seq<int>, nNew: int)
    ensures BucketLists(m, v, 0) == [] && UsableAll([], nNew) == Pairs(m, v, 0)
  {
  }

  lemma OneMoreBucket(m: InfoMap, v: seq<int>, nNew: int, n: nat)
    requires (n + 1) * BUCKET_SIZE <= |v|
    requires forall j :: 0 <= j < |v| && v[j] != -1 ==> 0 <= Rank(m, v[j]) < nNew
    requires |BucketLists(m, v, n)| == n && UsableAll(BucketLists(m, v, n), nNew) == Pairs(m, v, n * BUCKET_SIZE)
    ensures |BucketLists(m, v, n + 1)| == n + 1
    ensures UsableAll(BucketLists(m, v, n + 1), nNew) == Pairs(m, v, (n + 1) * BUCKET_SIZE)
  {
    hide Rank, BucketList, Usable, Pairs, UsableAll;
    BucketReadsBack(m, v, nNew, n, BUCKET_SIZE);
    UsableAllGrows(BucketLists(m, v, n), BucketList(m, v, n, BUCKET_SIZE), nNew);
  }

  lemma {:induction false} DistinctElements(v: seq<int>)
    ensures |set x | x in v| <= |v|
  {
    if v != [] {
      var w, x := v[..|v| - 1], v[|v| - 1];
      DistinctElements(w);
      assert (set y | y in v) == (set y | y in w) + {x};
    }
  }

  /** The counters fit the tables, so a saved manager is accepted. */
  lemma CountersFit(am: AddrManager)
    requires am.Valid()
    ensures 0 <= am.nNew <= NEW_BUCKET_COUNT * BUCKET_SIZE && 0 <= am.nTried <= TRIED_BUCKET_COUNT * BUCKET_SIZE
  {
    forall id | id in NewIds(am.mapInfo) ensures id in am.vvNew {
      assert SlotsOf(am.vvNew, id) != {};
    }
    forall id | id in TriedIds(am.mapInfo) ensures id in am.vvTried {
      assert am.vvTried[TriedSlot(am.env, am.mapInfo[id].addr)] == id;
    }
    DistinctElements(am.vvNew);
    DistinctElements(am.vvTried);
    CardinalityMonotone(NewIds(am.mapInfo), set x | x in am.vvNew);
    CardinalityMonotone(TriedIds(am.mapInfo), set x | x in am.vvTried);
  }

  /** A slot of the renamed table holds place `x` exactly when the table holds the x-th new entry. */
  lemma RenamedSlots(am: AddrManager, x: nat)
    requires am.Valid() && x < |Order(am.mapInfo, am.nIdCount, false)|
    ensures SlotsOf(RenamedTable(am.mapInfo, am.vvNew), x) ==
            SlotsOf(am.vvNew, Order(am.mapInfo, am.nIdCount, false)[x])
  {
    var m, v, n := am.mapInfo, am.vvNew, am.nIdCount;
    OrderInverse(m, n, false, x);
    TriedHaveNoReferences(am);
    forall i | 0 <= i < |v| ensures Rank(m, v[i]) == x <==> v[i] == Order(m, n, false)[x] {
      if v[i] != -1 {
        OrderRank(m, n, false, v[i]);
      }
    }
  }

  lemma RanksInRange(am: AddrManager)
    requires am.Valid()
    ensures forall i :: 0 <= i < |am.vvNew| && am.vvNew[i] != -1 ==>
              var id := am.vvNew[i];
              && 0 <= Rank(am.mapInfo, id) < am.nNew
              && am.nNew == |Order(am.mapInfo, am.nIdCount, false)|
              && Order(am.mapInfo, am.nIdCount, false)[Rank(am.mapInfo, id)] == id
  {
    OrderLengths(am);
    TriedHaveNoReferences(am);
    forall i | 0 <= i < |am.vvNew| && am.vvNew[i] != -1
      ensures var id := am.vvNew[i];
              0 <= Rank(am.mapInfo, id) < am.nNew && Order(am.mapInfo, am.nIdCount, false)[Rank(am.mapInfo, id)] == id
    {
      OrderRank(am.mapInfo, am.nIdCount, false, am.vvNew[i]);
    }
  }

  lemma SavedAddrsDistinct(am: AddrManager, nKey: nat, checksum: nat)
    requires am.Valid()
    ensures var s := Saved(am, nKey, checksum);
            DistinctAddrs(s.newEntries + s.triedEntries) && TriedDistinct(am.env, s.triedEntries)
  {
    var m, n := am.mapInfo, am.nIdCount;
    var s := Saved(am, nKey, checksum);
    var a, b := Order(m, n, false), Order(m, n, true);
    OrderMembers(m, n, false);
    OrderMembers(m, n, true);
    OrderIncreasing(m, n, false);
    OrderIncreasing(m, n, true);
    TriedHaveNoReferences(am);
    var all, ids := s.newEntries + s.triedEntries, a + b;
    forall j, k | 0 <= j < k < |all| ensures all[j].addr != all[k].addr {
      assert all[j] == RecordOf(m[ids[j]]) && all[k] == RecordOf(m[ids[k]]);
      assert ids[j] != ids[k];
      assert am.mapAddr[Key(am.env, m[ids[j]].addr)] == ids[j] && am.mapAddr[Key(am.env, m[ids[k]].addr)] == ids[k];
    }
    forall j, k | 0 <= j < k < |s.triedEntries|
      ensures TriedSlot(am.env, s.triedEntries[j].addr) != TriedSlot(am.env, s.triedEntries[k].addr)
    {
      assert am.vvTried[TriedSlot(am.env, m[b[j]].addr)] == b[j] && am.vvTried[TriedSlot(am.env, m[b[k]].addr)] == b[k];
    }
  }

  lemma SavedIsAccepted(am: AddrManager, nKey: nat, checksum: nat)
    requires am.Valid()
    ensures var s := Saved(am, nKey, checksum); Accepted(s) && WellShaped(s) && Restores(s, checksum)
  {
    hide RandomOk, AddrOk, NewOk, TriedOk, CollisionsOk, BucketLists, Order, Rank;
    CountersFit(am);
    OrderLengths(am);
    RanksInRange(am);
    BucketsReadBack(am.mapInfo, am.vvNew, am.nNew, NEW_BUCKET_COUNT);
  }

  /** The pairs a saved manager is read back with. */
  lemma SavedPairs(am: AddrManager, nKey: nat, checksum: nat)
    requires am.Valid()
    ensures var s, occ := Saved(am, nKey, checksum), Occupied(am.vvNew, |am.vvNew|);
            var entries := UsableAll(s.buckets, s.nNew);
            && |entries| == |occ|
            && forall k :: 0 <= k < |occ| ==> entries[k] == (occ[k] / BUCKET_SIZE, Rank(am.mapInfo, am.vvNew[occ[k]]))
  {
    hide RandomOk, AddrOk, NewOk, TriedOk, CollisionsOk, BucketLists, Order, Rank, UsableAll, Pairs, Occupied;
    RanksInRange(am);
    BucketsReadBack(am.mapInfo, am.vvNew, am.nNew, NEW_BUCKET_COUNT);
    PairsAreOccupied(am.mapInfo, am.vvNew, |am.vvNew|);
  }

  /** What a consistent manager saves is lossless. */
  lemma SavedIsLossless(am: AddrManager, nKey: nat, checksum: nat)
    requires am.Valid()
    ensures Lossless(Saved(am, nKey, checksum), am.env, Occupied(am.vvNew, |am.vvNew|),
                     RenamedTable(am.mapInfo, am.vvNew))
  {
    hide RandomOk, AddrOk, NewOk, TriedOk, DistinctAddrs, CollisionsOk, TriedDistinct, BucketLists, Order, Rank,
      UsableAll, Occupied, RenamedTable;
    var s := Saved(am, nKey, checksum);
    var target := RenamedTable(am.mapInfo, am.vvNew);
    SavedAddrsDistinct(am, nKey, checksum);
    SavedPairs(am, nKey, checksum);
    SavedPlaces(am, nKey, checksum);
    RanksInRange(am);
    assert forall i :: 0 <= i < |target| && am.vvNew[i] == -1 ==> target[i] == -1 by { NoRank(am.mapInfo); }
    forall x | 0 <= x < |s.newEntries| ensures 1 <= |SlotsOf(target, x)| <= NEW_BUCKETS_PER_ADDRESS {
      SavedReferences(am, x);
    }
  }

  lemma NoRank(m: InfoMap)
    ensures Rank(m, -1) == -1
  {
  }

  lemma SavedReferences(am: AddrManager, x: nat)
    requires am.Valid() && x < |Order(am.mapInfo, am.nIdCount, false)|
    ensures 1 <= |SlotsOf(RenamedTable(am.mapInfo, am.vvNew), x)| <= NEW_BUCKETS_PER_ADDRESS
  {
    RenamedSlots(am, x);
    OrderInverse(am.mapInfo, am.nIdCount, false, x);
    TriedHaveNoReferences(am);
  }

  /** Every occupied slot is the one its saved entry computes for its bucket. */
  lemma SavedPlaces(am: AddrManager, nKey: nat, checksum: nat)
    requires am.Valid()
    ensures var s := Saved(am, nKey, checksum);
            forall i :: 0 <= i < |am.vvNew| && am.vvNew[i] != -1 ==>
              var x := Rank(am.mapInfo, am.vvNew[i]);
              0 <= x < |s.newEntries| && i == NewSlot(am.env, s.newEntries[x].addr, i / BUCKET_SIZE)
  {
    hide RandomOk, AddrOk, TriedOk, CollisionsOk, Order;
    RanksInRange(am);
  }

  /** Entry `id` comes back with its data, its table and its number of references. */
  ghost predicate ComesBack(m: InfoMap, n: nat, id: int, m': InfoMap)
    requires id in m
  {
    var id' := NewId(m, n, id);
    && id' in m' && RecordOf(m'[id']) == RecordOf(m[id])
    && m'[id'].fInTried == m[id].fInTried && m'[id'].nRefCount == m[id].nRefCount
  }

  /** Entry `id'` stems from a saved one. */
  ghost predicate ComesFrom(m: InfoMap, n: nat, id': int) {
    exists id :: id in m && NewId(m, n, id) == id'
  }

  /** Saving and loading with the same key and AS map: under new ids, one for each, the same entries in the same
    * slots of both tables, the same counts, nothing lost and nothing else there. Lookup by address works again
    * exactly when ports are told apart or are all zero; without candidates the loaded manager is then
    * consistent altogether. */
  method RoundTrip(am: AddrManager, loaded: AddrManager, nKey: nat, hashing: nat -> Env, checksum: nat)
    requires am.Valid() && am.env == hashing(nKey) && am != loaded
    modifies loaded
    ensures loaded.Tables() && loaded.nNew == am.nNew && loaded.nTried == am.nTried && Exact(loaded)
    ensures Referenced(loaded.mapInfo, {}) && loaded.triedCollisions == old(loaded.triedCollisions) &&
            loaded.env == am.env
    ensures forall i :: 0 <= i < |am.vvNew| ==> loaded.vvNew[i] == NewId(am.mapInfo, am.nIdCount, am.vvNew[i])
    ensures forall i :: 0 <= i < |am.vvTried| ==> loaded.vvTried[i] == NewId(am.mapInfo, am.nIdCount, am.vvTried[i])
    ensures forall id :: id in am.mapInfo ==> ComesBack(am.mapInfo, am.nIdCount, id, loaded.mapInfo)
    ensures forall id' :: id' in loaded.mapInfo ==> ComesFrom(am.mapInfo, am.nIdCount, id')
    ensures forall j, k :: j in am.mapInfo && k in am.mapInfo && j != k ==>
              NewId(am.mapInfo, am.nIdCount, j) != NewId(am.mapInfo, am.nIdCount, k)
    ensures TimesOk(am.mapInfo) ==> TimesOk(loaded.mapInfo)
    ensures loaded.Linked() <==> am.env.discriminatePorts || forall id :: id in loaded.mapInfo ==>
            loaded.mapInfo[id].addr.port == 0
    ensures loaded.Linked() && loaded.triedCollisions == {} ==> loaded.Valid()
  {
    hide RandomOk, AddrOk, NewOk, TriedOk, CollisionsOk, Lossless, DistinctAddrs, Reloaded, Order, Rank, NewIds,
      TriedIds,
      BucketLists, Occupied, RenamedTable, NewId, Accepted, WellShaped, Restores, LoadedData, ComesBack, ComesFrom,
        TimesOk;
    var s := Serialize(am, nKey, checksum);
    SavedIsAccepted(am, nKey, checksum);
    SavedIsLossless(am, nKey, checksum);
    SavedAddrsDistinct(am, nKey, checksum);
    ghost var target := RenamedTable(am.mapInfo, am.vvNew);
    var ok := Unserialize(loaded, s, hashing, checksum, Occupied(am.vvNew, |am.vvNew|), target);
    IndexRule(loaded.env, loaded.mapInfo, loaded.mapAddr);
    ReloadedEntries(am, loaded, nKey, checksum);
    ReloadedAll(am, loaded, nKey, checksum);
    NewIdsDiffer(am);
    NoCandidates(loaded);
  }

  /** So a manager that was saved and loaded can be used like any other. */
  method RunAfterLoad(am: AddrManager, loaded: AddrManager, nKey: nat, hashing: nat -> Env, checksum: nat, ops: seq<Op>)
    requires am.Valid() && TimesOk(am.mapInfo) && am.env == hashing(nKey) && am != loaded
    requires am.env.discriminatePorts && loaded.triedCollisions == {}
    requires forall k :: 0 <= k < |ops| ==> ops[k].now > 0
    modifies loaded
    ensures loaded.Valid() && TimesOk(loaded.mapInfo)
  {
    hide *;
    RoundTrip(am, loaded, nKey, hashing, checksum);
    Run(loaded, ops);
  }

  lemma NoCandidates(am: AddrManager)
    requires am.Tables()
    ensures am.triedCollisions == {} ==> am.Awaited()
  {
    hide RandomOk, NewOk, TriedOk;
  }

  lemma NewIdsDiffer(am: AddrManager)
    requires am.Valid()
    ensures forall j, k :: j in am.mapInfo && k in am.mapInfo && j != k ==>
              NewId(am.mapInfo, am.nIdCount, j) != NewId(am.mapInfo, am.nIdCount, k)
  {
    hide RandomOk, AddrOk, NewOk, TriedOk, CollisionsOk, Order;
    TriedHaveNoReferences(am);
    forall j, k | j in am.mapInfo && k in am.mapInfo && j != k
      ensures NewId(am.mapInfo, am.nIdCount, j) != NewId(am.mapInfo, am.nIdCount, k)
    {
      OrderRank(am.mapInfo, am.nIdCount, am.mapInfo[j].fInTried, j);
      OrderRank(am.mapInfo, am.nIdCount, am.mapInfo[k].fInTried, k);
    }
  }

  /** Every loaded entry stems from a saved one, so what holds of the saved data holds of the loaded. */
  lemma ReloadedAll(am: AddrManager, loaded: AddrManager, nKey: nat, checksum: nat)
    requires am.Valid() && loaded.Tables() && loaded.env == am.env
    requires WellShaped(Saved(am, nKey, checksum)) && Accepted(Saved(am, nKey, checksum))
    requires LoadedData(loaded, Saved(am, nKey, checksum), checksum)
    requires forall i :: 0 <= i < |am.vvTried| ==> loaded.vvTried[i] == NewId(am.mapInfo, am.nIdCount, am.vvTried[i])
    requires forall id :: id in am.mapInfo ==> ComesBack(am.mapInfo, am.nIdCount, id, loaded.mapInfo)
    ensures forall id' :: id' in loaded.mapInfo ==> ComesFrom(am.mapInfo, am.nIdCount, id')
    ensures TimesOk(am.mapInfo) ==> TimesOk(loaded.mapInfo)
  {
    hide RandomOk, AddrOk, NewOk, TriedOk, CollisionsOk, Order, LoadedTable, TriedWon, ComesBack, ComesFrom,
      BucketLists;
    forall id' | id' in loaded.mapInfo
      ensures ComesFrom(am.mapInfo, am.nIdCount, id')
    {
      if id' < |Order(am.mapInfo, am.nIdCount, false)| {
        NewComesFrom(am, id');
      } else {
        TriedComesFrom(am, loaded.vvTried, id');
      }
    }
    TimesComeBack(am.mapInfo, am.nIdCount, loaded.mapInfo);
  }

  lemma NewComesFrom(am: AddrManager, id': nat)
    requires am.Valid() && id' < |Order(am.mapInfo, am.nIdCount, false)|
    ensures ComesFrom(am.mapInfo, am.nIdCount, id')
  {
    hide RandomOk, AddrOk, NewOk, TriedOk, CollisionsOk, Order;
    TriedHaveNoReferences(am);
    OrderInverse(am.mapInfo, am.nIdCount, false, id');
    assert NewId(am.mapInfo, am.nIdCount, Order(am.mapInfo, am.nIdCount, false)[id']) == id';
  }

  lemma TriedComesFrom(am: AddrManager, vvTried: seq<int>, id': int)
    requires am.Valid() && id' in vvTried && id' != -1 && |vvTried| == |am.vvTried|
    requires forall i :: 0 <= i < |am.vvTried| ==> vvTried[i] == NewId(am.mapInfo, am.nIdCount, am.vvTried[i])
    ensures ComesFrom(am.mapInfo, am.nIdCount, id')
  {
    hide RandomOk, AddrOk, NewOk, TriedOk, CollisionsOk, Order;
    var i :| 0 <= i < |vvTried| && vvTried[i] == id';
    assert NewId(am.mapInfo, am.nIdCount, am.vvTried[i]) == id';
  }

  lemma TimesComeBack(m: InfoMap, n: nat, m': InfoMap)
    requires forall id :: id in m ==> ComesBack(m, n, id, m')
    requires forall id' :: id' in m' ==> ComesFrom(m, n, id') && m'[id'].nLastTry == 0
    ensures TimesOk(m) ==> TimesOk(m')
  {
    hide NewId;
    if TimesOk(m) {
      forall id' | id' in m'
        ensures m'[id'].nLastSuccess >= 0 && (m'[id'].fInTried ==> m'[id'].nLastSuccess != 0)
      {
        var id :| id in m && NewId(m, n, id) == id';
        assert ComesBack(m, n, id, m');
      }
    }
  }

  lemma ReloadedEntries(am: AddrManager, loaded: AddrManager, nKey: nat, checksum: nat)
    requires am.Valid() && loaded.Tables() && loaded.env == am.env
    requires Reloaded(loaded, Saved(am, nKey, checksum), RenamedTable(am.mapInfo, am.vvNew))
    ensures loaded.nNew == am.nNew && loaded.nTried == am.nTried
    ensures forall i :: 0 <= i < |am.vvNew| ==> loaded.vvNew[i] == NewId(am.mapInfo, am.nIdCount, am.vvNew[i])
    ensures forall i :: 0 <= i < |am.vvTried| ==> loaded.vvTried[i] == NewId(am.mapInfo, am.nIdCount, am.vvTried[i])
    ensures forall id :: id in am.mapInfo ==> ComesBack(am.mapInfo, am.nIdCount, id, loaded.mapInfo)
  {
    forall id | id in am.mapInfo
      ensures ComesBack(am.mapInfo, am.nIdCount, id, loaded.mapInfo)
    {
      ReloadedEntry(am, loaded, nKey, checksum, id);
    }
    forall i | 0 <= i < |am.vvTried| ensures loaded.vvTried[i] == NewId(am.mapInfo, am.nIdCount, am.vvTried[i]) {
      ReloadedTriedSlot(am, loaded, nKey, checksum, i);
    }
  }

  lemma ReloadedEntry(am: AddrManager, loaded: AddrManager, nKey: nat, checksum: nat, id: int)
    requires am.Valid() && loaded.Tables() && loaded.env == am.env && id in am.mapInfo
    requires Reloaded(loaded, Saved(am, nKey, checksum), RenamedTable(am.mapInfo, am.vvNew))
    ensures ComesBack(am.mapInfo, am.nIdCount, id, loaded.mapInfo)
    ensures am.mapInfo[id].fInTried ==>
              loaded.vvTried[TriedSlot(am.env, am.mapInfo[id].addr)] == NewId(am.mapInfo, am.nIdCount, id)
  {
    hide RandomOk, AddrOk, NewOk, TriedOk, CollisionsOk, Order, BucketLists;
    var m, s, tried := am.mapInfo, Saved(am, nKey, checksum), am.mapInfo[id].fInTried;
    TriedHaveNoReferences(am);
    OrderRank(m, am.nIdCount, tried, id);
    assert (if tried then s.triedEntries else s.newEntries)[|Order(m, id, tried)|] == RecordOf(m[id]);
    assert tried ==> TriedBack(loaded, s.triedEntries[|Order(m, id, tried)|], |s.newEntries| + |Order(m, id, tried)|);
    if tried {
      NoSlots(loaded, NewId(m, am.nIdCount, id));
    } else {
      RenamedSlots(am, |Order(m, id, false)|);
      RefsAreSlots(am, id);
      RefsAreSlots(loaded, |Order(m, id, false)|);
    }
  }

  lemma NoSlots(am: AddrManager, id: int)
    requires am.Tables() && id in am.mapInfo && am.mapInfo[id].fInTried
    ensures am.mapInfo[id].nRefCount == 0
  {
    hide RandomOk, TriedOk;
    assert SlotsOf(am.vvNew, id) == {};
  }

  lemma ReloadedTriedSlot(am: AddrManager, loaded: AddrManager, nKey: nat, checksum: nat, i: int)
    requires am.Valid() && loaded.Tables() && loaded.env == am.env && 0 <= i < |am.vvTried|
    requires Reloaded(loaded, Saved(am, nKey, checksum), RenamedTable(am.mapInfo, am.vvNew))
    ensures loaded.vvTried[i] == NewId(am.mapInfo, am.nIdCount, am.vvTried[i])
  {
    var s := Saved(am, nKey, checksum);
    if am.vvTried[i] != -1 {
      ReloadedEntry(am, loaded, nKey, checksum, am.vvTried[i]);
    } else if loaded.vvTried[i] != -1 {
      var k := loaded.vvTried[i] - |s.newEntries|;
      OrderInverse(am.mapInfo, am.nIdCount, true, k);
    }
  }
}
