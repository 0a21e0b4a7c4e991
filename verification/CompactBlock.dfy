/** Compact blocks: rebuilding a block from short transaction ids, prefilled transactions and local pools. */
module CompactBlock {
  import opened Basics

  /** A transaction; `empty` says that it has neither inputs nor outputs. */
  datatype Tx = Tx(id: nat, body: nat, empty: bool)

  datatype Prefilled = Prefilled(index: nat, tx: Tx)

  /** The header stands for itself (zero is the null header), `sid` for the salted short-id function. */
  datatype Message = Message(header: nat, sid: nat -> nat, shortIds: seq<nat>, prefilled: seq<Prefilled>)

  datatype Status = OK | Invalid | Failed | CheckBlockFailed

  function TxCount(m: Message): nat { |m.shortIds| + |m.prefilled| }

  // ---------------------------------------------------------------------------------------------
  // Slots
  // ---------------------------------------------------------------------------------------------

  /** How many of the first `n` slots are open. */
  function Open(a: seq<Option<Tx>>, n: nat): (c: nat)
    requires n <= |a|
    ensures c <= n
  {
    if n == 0 then 0 else Open(a, n - 1) + if a[n - 1] == None then 1 else 0
  }

  /** Slot `j` is open slot number `i`. */
  ghost predicate OpenSlot(a: seq<Option<Tx>>, i: nat, j: nat) {
    j < |a| && a[j] == None && Open(a, j) == i
  }

  lemma {:induction false} OpenMonotone(a: seq<Option<Tx>>, j: nat, k: nat)
    requires j <= k <= |a|
    ensures Open(a, j) <= Open(a, k)
  {
    if j < k {
      OpenMonotone(a, j, k - 1);
    }
  }

  lemma OpenSlotUnique(a: seq<Option<Tx>>, i: nat, j: nat, k: nat)
    requires OpenSlot(a, i, j) && OpenSlot(a, i, k)
    ensures j == k
  {
    if j < k {
      OpenMonotone(a, j + 1, k);
    } else if k < j {
      OpenMonotone(a, k + 1, j);
    }
  }

  /** Open slot number `i`. */
  ghost function Unserved(a: seq<Option<Tx>>, i: nat): (j: nat)
    requires i < Open(a, |a|)
    ensures OpenSlot(a, i, j)
  {
    UnservedFrom(a, i, |a|)
  }

  ghost function UnservedFrom(a: seq<Option<Tx>>, i: nat, n: nat): (j: nat)
    requires n <= |a| && i < Open(a, n)
    ensures OpenSlot(a, i, j)
  {
    if i < Open(a, n - 1) then UnservedFrom(a, i, n - 1) else n - 1
  }

  /** The slots with the first `n` moved out. */
  ghost function Emptied(a: seq<Option<Tx>>, n: nat): (r: seq<Option<Tx>>)
    requires n <= |a|
    ensures |r| == |a|
  {
    seq(n, i => None) + a[n..]
  }

  lemma EmptiedNext(a: seq<Option<Tx>>, n: nat)
    requires n < |a|
    ensures Emptied(a, n)[n] == a[n] && Emptied(a, n + 1) == Emptied(a, n)[n := None]
    ensures a[n] == None ==> Emptied(a, n + 1) == Emptied(a, n)
  {
  }

  lemma {:induction false} OpenEmptied(a: seq<Option<Tx>>, n: nat, k: nat)
    requires n <= |a| && k <= |a|
    ensures Open(Emptied(a, n), k) == Open(a, k) + if k <= n then k - Open(a, k) else n - Open(a, n)
  {
    if k > 0 {
      OpenEmptied(a, n, k - 1);
    }
  }

  lemma {:induction false} AllOpenIff(a: seq<Option<Tx>>, n: nat)
    requires n <= |a|
    ensures Open(a, n) == n <==> forall j :: 0 <= j < n ==> a[j] == None
  {
    if n > 0 {
      AllOpenIff(a, n - 1);
    }
  }

  lemma {:induction false} OpenUpdate(a: seq<Option<Tx>>, n: nat, p: nat, tx: Tx)
    requires n <= |a| && p < |a| && a[p] == None
    ensures Open(a[p := Some(tx)], n) == Open(a, n) - if p < n then 1 else 0
  {
    if n > 0 {
      OpenUpdate(a, n - 1, p, tx);
    }
  }

  lemma {:induction false} AllOpen(a: seq<Option<Tx>>, n: nat)
    requires n <= |a| && forall j :: 0 <= j < n ==> a[j] == None
    ensures Open(a, n) == n
  {
    if n > 0 {
      AllOpen(a, n - 1);
    }
  }

  // ---------------------------------------------------------------------------------------------
  // Prefilled transactions
  // ---------------------------------------------------------------------------------------------

  /** The slot of prefilled transaction `i`: indexes count from the slot after the previous one. */
  function Position(ps: seq<Prefilled>, i: nat): nat
    requires i < |ps|
  {
    (if i == 0 then 0 else Position(ps, i - 1) + 1) + ps[i].index
  }

  /** The first `n` prefilled transactions pass the checks. */
  ghost predicate PrefillOk(m: Message, n: nat)
    requires n <= |m.prefilled|
  {
    forall i :: 0 <= i < n ==>
                !m.prefilled[i].tx.empty && Position(m.prefilled, i) <= 0xffff &&
                  Position(m.prefilled, i) <= |m.shortIds| + i
  }

  /** The slots with the first `n` prefilled transactions in place. */
  ghost function Placed(m: Message, n: nat): (a: seq<Option<Tx>>)
    requires n <= |m.prefilled| && PrefillOk(m, n)
    ensures |a| == TxCount(m)
  {
    if n == 0 then seq(TxCount(m), i => None)
    else Placed(m, n - 1)[Position(m.prefilled, n - 1) := Some(m.prefilled[n - 1].tx)]
  }

  lemma {:induction false} PlacedOpen(m: Message, n: nat)
    requires n <= |m.prefilled| && PrefillOk(m, n)
    ensures Open(Placed(m, n), TxCount(m)) == TxCount(m) - n
    ensures forall j :: (if n == 0 then 0 else Position(m.prefilled, n - 1) + 1) <= j < TxCount(m) ==>
            Placed(m, n)[j] == None
  {
    if n == 0 {
      AllOpen(Placed(m, 0), TxCount(m));
    } else {
      PlacedOpen(m, n - 1);
      OpenUpdate(Placed(m, n - 1), TxCount(m), Position(m.prefilled, n - 1), m.prefilled[n - 1].tx);
    }
  }

  // ---------------------------------------------------------------------------------------------
  // The partial block
  // ---------------------------------------------------------------------------------------------

  class PartialBlock {
    var header: nat
    var available: seq<Option<Tx>>
    var prefilledCount: nat
    var poolCount: int

    constructor ()
      ensures header == 0 && available == [] && poolCount == 0
    {
      header, available, prefilledCount, poolCount := 0, [], 0, 0;
    }

    /** Put the prefilled transactions in place; false when the message is malformed. */
    method Prefill(m: Message) returns (ok: bool)
      requires |available| == TxCount(m) && forall j :: 0 <= j < |available| ==> available[j] == None
      modifies this`available
      ensures ok <==> PrefillOk(m, |m.prefilled|)
      ensures ok ==> available == Placed(m, |m.prefilled|)
    {
      var last: int := -1;
      for i := 0 to |m.prefilled|
        invariant PrefillOk(m, i) && available == Placed(m, i)
        invariant last == if i == 0 then -1 else Position(m.prefilled, i - 1)
      {
        if m.prefilled[i].tx.empty {
          return false;
        }
        last := last + m.prefilled[i].index + 1;
        assert last == Position(m.prefilled, i);
        if last > 0xffff {
          return false;
        }
        if last > |m.shortIds| + i {
          return false;
        }
        available := available[last := Some(m.prefilled[i].tx)];
      }
      return true;
    }

    /** Map every short id to its slot: the i-th id belongs to the i-th open slot. `bucket` tells the hash
      * table's bucket of an id; the table is made large enough never to be rehashed. */
    method MapShortIds(m: Message, bucket: nat -> nat) returns (ok: bool, slots: map<nat, nat>)
      requires |available| == TxCount(m) && Open(available, |available|) == |m.shortIds|
      ensures ok <==> Distinct(m.shortIds, |m.shortIds|) && BucketsFit(m.shortIds, bucket)
      ensures ok ==> Located(slots, m.shortIds, available) && |slots| == |m.shortIds|
    {
      slots := map[];
      var offset := 0;
      hide Open, OpenSlot, Mapped, BucketsFit, Bucket;
      MappedNone(m.shortIds, available);
      FitNone(m.shortIds, bucket);
      for i := 0 to |m.shortIds|
        invariant BucketsFit(m.shortIds[..i], bucket)
        invariant i + offset <= |available| && Open(available, i + offset) == i &&
                  Mapped(slots, m.shortIds, i, available)
      {
        while available[i + offset] != None
          invariant i + offset < |available| && Open(available, i + offset) == i
          decreases |available| - offset
        {
          OpenNext(available, i + offset);
          offset := offset + 1;
        }
        OpenNext(available, i + offset);
        MappedStep(slots, m.shortIds, i, available, i + offset);
        slots := slots[m.shortIds[i] := i + offset];
        KeysAreIds(slots, m.shortIds, i + 1, available);
        FitNext(m.shortIds, i, bucket);
        if |Bucket(slots.Keys, bucket, bucket(m.shortIds[i]))| > BUCKET_LIMIT {
          return false, slots;
        }
      }
      assert m.shortIds[..|m.shortIds|] == m.shortIds;
      MappedCount(slots, m.shortIds, available);
      ok := |slots| == |m.shortIds|;
    }

    /** InitData: fill what can be filled from the message, the mempool and the extra transactions. */
    method InitData(m: Message, pool: seq<(nat, Tx)>, extra: seq<(nat, Tx)>, maxTx: nat, bucket: nat -> nat)
      returns (status: Status, ghost slots: map<nat, nat>, ghost have: seq<bool>)
      requires header == 0 && available == [] && poolCount == 0 && TxCount(m) <= 0xffff
      requires forall i :: 0 <= i < |pool| ==> pool[i].0 == pool[i].1.id
      requires forall i :: 0 <= i < |extra| ==> extra[i].0 == extra[i].1.id
      modifies this
      ensures status == Invalid <==>
                m.header == 0 || TxCount(m) == 0 || TxCount(m) > maxTx || !PrefillOk(m, |m.prefilled|)
      ensures status == OK <==>
              && m.header != 0 && 0 < TxCount(m) <= maxTx && PrefillOk(m, |m.prefilled|)
              && Distinct(m.shortIds, |m.shortIds|) && BucketsFit(m.shortIds, bucket)
      ensures status == OK ==>
              && header == m.header && prefilledCount == |m.prefilled|
              && Located(slots, m.shortIds, Placed(m, |m.prefilled|))
              && Scanned(Placed(m, |m.prefilled|), available, have, poolCount, slots, m.sid, Known(pool, extra))
      ensures status == OK && Clean(m.sid, slots, Known(pool, extra)) && NoRepeats(pool) ==>
              AllFound(available, slots, m.sid, pool) && AllFound(available, slots, m.sid, extra)
      ensures status in {OK, Invalid, Failed}
    {
      slots, have := map[], [];
      if m.header == 0 || (|m.shortIds| == 0 && |m.prefilled| == 0) {
        return Invalid, slots, have;
      }
      if |m.shortIds| + |m.prefilled| > maxTx {
        return Invalid, slots, have;
      }
      header := m.header;
      available := seq(TxCount(m), i => None);
      var ok := Prefill(m);
      if !ok {
        return Invalid, slots, have;
      }
      prefilledCount := |m.prefilled|;
      PlacedOpen(m, |m.prefilled|);
      hide *;
      ok, slots, have := MatchPools(m, pool, extra, bucket);
      return if ok then OK else Failed, slots, have;
    }

    /** The second half of InitData: the table of short ids and the two scans. */
    method MatchPools(m: Message, pool: seq<(nat, Tx)>, extra: seq<(nat, Tx)>, bucket: nat -> nat)
      returns (ok: bool, ghost slots: map<nat, nat>, ghost have: seq<bool>)
      requires poolCount == 0 && |available| == TxCount(m) && Open(available, |available|) == |m.shortIds|
      requires forall i :: 0 <= i < |pool| ==> pool[i].0 == pool[i].1.id
      requires forall i :: 0 <= i < |extra| ==> extra[i].0 == extra[i].1.id
      modifies this`available, this`poolCount
      ensures ok <==> Distinct(m.shortIds, |m.shortIds|) && BucketsFit(m.shortIds, bucket)
      ensures ok ==>
              && Located(slots, m.shortIds, old(available))
              && Scanned(old(available), available, have, poolCount, slots, m.sid, Known(pool, extra))
      ensures ok && Clean(m.sid, slots, Known(pool, extra)) && NoRepeats(pool) ==>
              AllFound(available, slots, m.sid, pool) && AllFound(available, slots, m.sid, extra)
    {
      ghost var a := available;
      hide *;
      var table;
      ok, table := MapShortIds(m, bucket);
      slots, have := table, [];
      if !ok {
        return;
      }
      LocatedOpen(table, m.shortIds, a);
      var found := seq(|available|, i => false);
      ScannedNone(a, found, table, m.sid);
      ghost var before;
      found := ScanPool(m, table, pool, found, a);
      before := found;
      KnownWide(a, available, found, poolCount, table, m.sid, pool, extra);
      found := ScanExtra(m, table, extra, found, a, Known(pool, extra));
      NothingLeft(available, before, found, table, m.sid, pool, extra);
      have := found;
    }

    predicate IsTxAvailable(index: nat)
      requires index < |available|
      reads this
    {
      available[index] != None
    }

    /** FillBlock: the slots in order, the open ones taken from `missing`. `valid` and `corrupt` are the verdict of the
      * block check. */
    method FillBlock(missing: seq<Tx>, valid: bool, corrupt: bool) returns (status: Status, vtx: seq<Tx>)
      requires header != 0
      modifies this`header, this`available
      ensures status == Invalid <==> |missing| != old(Open(available, |available|))
      ensures |missing| >= old(Open(available, |available|)) ==> header == 0 && available == []
      ensures |missing| < old(Open(available, |available|)) ==>
              && header == old(header)
              && available == Emptied(old(available), Unserved(old(available), |missing|))
      ensures |missing| == old(Open(available, |available|)) ==>
              && status == (if valid then OK else if corrupt then Failed else CheckBlockFailed)
              && vtx == Filled(old(available), missing, old(|available|))
    {
      vtx := [];
      var offset := 0;
      ghost var a := available;
      FillNone(a, missing);
      hide Open, OpenSlot, Emptied, Filled, Unserved;
      for i := 0 to |available|
        invariant |available| == |a| && offset == Open(a, i) <= |missing|
        invariant vtx == Filled(a, missing, i)
        invariant available == Emptied(a, i) && header == old(header)
      {
        OpenNext(a, i);
        OpenMonotone(a, i + 1, |a|);
        EmptiedNext(a, i);
        FilledNext(a, missing, i);
        if available[i] == None {
          if |missing| <= offset {
            OpenSlotUnique(a, offset, i, Unserved(a, offset));
            return Invalid, vtx;
          }
          vtx := vtx + [missing[offset]];
          offset := offset + 1;
        } else {
          vtx := vtx + [available[i].value];
          available := available[i := None];
        }
      }
      header := 0;
      available := [];
      if |missing| != offset {
        return Invalid, vtx;
      }
      return if valid then OK else if corrupt then Failed else CheckBlockFailed, vtx;
    }

    /** Look through the mempool; a second match for a slot empties it again. */
    method ScanPool(m: Message, slots: map<nat, nat>, pool: seq<(nat, Tx)>, have0: seq<bool>, ghost a: seq<Option<Tx>>)
      returns (have: seq<bool>)
      requires Scanned(a, available, have0, poolCount, slots, m.sid, {}) && SlotsOpen(a, slots) &&
               AllKept(available, have0)
      requires |slots| == Open(a, |a|)
      requires forall i :: 0 <= i < |pool| ==> pool[i].0 == pool[i].1.id
      modifies this`available, this`poolCount
      ensures Scanned(a, available, have, poolCount, slots, m.sid, Txs(pool, |pool|))
      ensures Offered(have, slots, m.sid, pool, |pool|)
      ensures Clean(m.sid, slots, Txs(pool, |pool|)) && NoRepeats(pool) ==> AllKept(available, have)
    {
      have := have0;
      hide Scanned, Clean, NoRepeats, AllKept, Txs, Offered;
      NoneSeen(pool, have, slots, m.sid);
      for i := 0 to |pool|
        invariant Scanned(a, available, have, poolCount, slots, m.sid, Txs(pool, i)) &&
                  Offered(have, slots, m.sid, pool, i)
        invariant Clean(m.sid, slots, Txs(pool, |pool|)) && NoRepeats(pool) ==> AllKept(available, have)
      {
        SeenNext(a, available, have, poolCount, slots, m.sid, pool, i);
        var id := m.sid(pool[i].0);
        ghost var was := have;
        if id in slots {
          NoSecondMatch(a, available, have, poolCount, slots, m.sid, pool, i);
          have := Offer(m, slots, id, pool[i].1, have, false, a, Txs(pool, i + 1));
        }
        OfferedNext(was, have, slots, m.sid, pool, i);
        if poolCount == |slots| {
          SeenAll(a, available, have, poolCount, slots, m.sid, pool, i + 1);
          FullHave(a, available, have, poolCount, slots, m.sid, Txs(pool, i + 1), pool);
          return;
        }
      }
    }

    /** The extra transactions: a second match with the same hash does no harm. */
    method ScanExtra(m: Message, slots: map<nat, nat>, extra: seq<(nat, Tx)>, have0: seq<bool>,
                     ghost a: seq<Option<Tx>>, ghost known: set<Tx>)
      returns (have: seq<bool>)
      requires Scanned(a, available, have0, poolCount, slots, m.sid, known) && SlotsOpen(a, slots) &&
               |slots| == Open(a, |a|)
      requires forall i :: 0 <= i < |extra| ==> extra[i].0 == extra[i].1.id && extra[i].1 in known
      modifies this`available, this`poolCount
      ensures Scanned(a, available, have, poolCount, slots, m.sid, known)
      ensures forall j :: 0 <= j < |have0| && have0[j] ==> j < |have| && have[j]
      ensures Offered(have, slots, m.sid, extra, |extra|)
      ensures Clean(m.sid, slots, known) && AllKept(old(available), have0) ==> AllKept(available, have)
    {
      have := have0;
      hide Scanned, Clean, AllKept, Txs, Offered;
      NoneSeen(extra, have, slots, m.sid);
      for i := 0 to |extra|
        invariant Scanned(a, available, have, poolCount, slots, m.sid, known) && Offered(have, slots, m.sid, extra, i)
        invariant forall j :: 0 <= j < |have0| && have0[j] ==> j < |have| && have[j]
        invariant Clean(m.sid, slots, known) && AllKept(old(available), have0) ==> AllKept(available, have)
      {
        var id := m.sid(extra[i].0);
        ghost var was := have;
        if id in slots {
          SameMatch(a, available, have, poolCount, slots, m.sid, known, extra[i].1);
          have := Offer(m, slots, id, extra[i].1, have, true, a, known);
        }
        OfferedNext(was, have, slots, m.sid, extra, i);
        if poolCount == |slots| {
          FullHave(a, available, have, poolCount, slots, m.sid, known, extra);
          return;
        }
      }
    }

    /** A candidate for a slot: taken if it is the first, else the slot is emptied for good. */
    method Offer(m: Message, slots: map<nat, nat>, id: nat, tx: Tx, have0: seq<bool>, sameIsFine: bool,
                 ghost a: seq<Option<Tx>>, ghost known: set<Tx>)
      returns (have: seq<bool>)
      requires Scanned(a, available, have0, poolCount, slots, m.sid, known) && SlotsOpen(a, slots)
      requires id == m.sid(tx.id) && id in slots && tx in known
      modifies this`available, this`poolCount
      ensures Scanned(a, available, have, poolCount, slots, m.sid, known)
      ensures slots[id] < |have0| && have == have0[slots[id] := true]
      ensures AllKept(old(available), have0) && (!have0[slots[id]] ||
                (sameIsFine && HoldsId(old(available), slots[id], tx.id)))
              ==> AllKept(available, have)
    {
      have := have0;
      var j := slots[id];
      if !have[j] {
        FillKeeps(a, available, have, poolCount, slots, m.sid, known, tx);
        hide Scanned;
        available := available[j := Some(tx)];
        have := have[j := true];
        poolCount := poolCount + 1;
      } else if available[j] != None && !(sameIsFine && available[j].value.id == tx.id) {
        DropKeeps(a, available, have, poolCount, slots, m.sid, known, j);
        hide Scanned;
        available := available[j := None];
        poolCount := poolCount - 1;
      }
    }
  }

  ghost predicate Distinct(s: seq<nat>, n: nat)
    requires n <= |s|
  {
    forall i, j :: 0 <= i < j < n ==> s[i] != s[j]
  }

  lemma OpenNext(a: seq<Option<Tx>>, j: nat)
    requires j < |a|
    ensures Open(a, j + 1) == Open(a, j) + if a[j] == None then 1 else 0
    ensures a[j] == None ==> OpenSlot(a, Open(a, j), j)
    ensures Open(a, j) <= Open(a, |a|)
  {
    OpenMonotone(a, j, |a|);
  }

  const BUCKET_LIMIT := 12

  /** The keys in bucket number `b`. */
  function Bucket(keys: set<nat>, bucket: nat -> nat, b: nat): set<nat> { set k | k in keys && bucket(k) == b }

  ghost function IdSet(ids: seq<nat>): set<nat> { set k | k in ids }

  /** No bucket of the whole table is over the limit. */
  ghost predicate BucketsFit(ids: seq<nat>, bucket: nat -> nat) {
    forall b :: |Bucket(IdSet(ids), bucket, b)| <= BUCKET_LIMIT
  }

  lemma FitNone(ids: seq<nat>, bucket: nat -> nat)
    ensures BucketsFit(ids[..0], bucket)
  {
    forall b ensures Bucket(IdSet(ids[..0]), bucket, b) == {} {}
  }

  lemma KeysAreIds(slots: map<nat, nat>, ids: seq<nat>, n: nat, a: seq<Option<Tx>>)
    requires n <= |ids| && Mapped(slots, ids, n, a)
    ensures slots.Keys == IdSet(ids[..n])
  {
  }

  /** One more id only fills its own bucket, and an overfull bucket stays so. */
  lemma FitNext(ids: seq<nat>, i: nat, bucket: nat -> nat)
    requires i < |ids| && BucketsFit(ids[..i], bucket)
    ensures var full := |Bucket(IdSet(ids[..i + 1]), bucket, bucket(ids[i]))| > BUCKET_LIMIT;
            (full ==> !BucketsFit(ids, bucket)) && (!full ==> BucketsFit(ids[..i + 1], bucket))
  {
    var was, now, all := IdSet(ids[..i]), IdSet(ids[..i + 1]), IdSet(ids);
    var own := bucket(ids[i]);
    assert ids[..i + 1] == ids[..i] + [ids[i]];
    SubsetCount(Bucket(now, bucket, own), Bucket(all, bucket, own));
    forall b | b != own
      ensures Bucket(now, bucket, b) == Bucket(was, bucket, b)
    {
    }
  }

  lemma {:induction false} SubsetCount(s: set<nat>, t: set<nat>)
    requires s <= t
    ensures |s| <= |t|
  {
    if x :| x in s {
      SubsetCount(s - {x}, t - {x});
    }
  }

  ghost predicate KeysMapped(slots: map<nat, nat>, ids: seq<nat>, n: nat)
    requires n <= |ids|
  {
    forall k :: k in slots <==> k in ids[..n]
  }

  ghost predicate CountMapped(slots: map<nat, nat>, ids: seq<nat>, n: nat)
    requires n <= |ids|
  {
    |slots| <= n && (|slots| == n <==> Distinct(ids, n))
  }

  ghost predicate SlotsMapped(slots: map<nat, nat>, ids: seq<nat>, n: nat, a: seq<Option<Tx>>)
    requires n <= |ids|
  {
    forall i :: 0 <= i < n ==> ids[i] in slots && OpenSlot(a, i, slots[ids[i]])
  }

  /** The table after `n` short ids: complete exactly when they are distinct. */
  ghost predicate Mapped(slots: map<nat, nat>, ids: seq<nat>, n: nat, a: seq<Option<Tx>>)
    requires n <= |ids|
  {
    KeysMapped(slots, ids, n) && CountMapped(slots, ids, n) && (Distinct(ids, n) ==> SlotsMapped(slots, ids, n, a))
  }

  lemma MappedNone(ids: seq<nat>, a: seq<Option<Tx>>)
    ensures Mapped(map[], ids, 0, a)
  {
  }

  lemma DistinctNext(slots: map<nat, nat>, ids: seq<nat>, n: nat)
    requires n < |ids| && KeysMapped(slots, ids, n)
    ensures Distinct(ids, n + 1) <==> Distinct(ids, n) && ids[n] !in slots
  {
  }

  lemma MappedStep(slots: map<nat, nat>, ids: seq<nat>, n: nat, a: seq<Option<Tx>>, j: nat)
    requires n < |ids| && Mapped(slots, ids, n, a) && OpenSlot(a, n, j)
    ensures Mapped(slots[ids[n] := j], ids, n + 1, a)
  {
    DistinctNext(slots, ids, n);
    assert KeysMapped(slots[ids[n] := j], ids, n + 1) by {
      assert ids[..n + 1] == ids[..n] + [ids[n]];
    }
    hide Distinct, OpenSlot, KeysMapped;
    CountNext(slots, ids[n], j);
    assert Distinct(ids, n + 1) ==> SlotsMapped(slots[ids[n] := j], ids, n + 1, a);
  }

  lemma CountNext(slots: map<nat, nat>, k: nat, j: nat)
    ensures |slots[k := j]| == |slots| + if k in slots then 0 else 1
  {
  }

  lemma MappedCount(slots: map<nat, nat>, ids: seq<nat>, a: seq<Option<Tx>>)
    requires Mapped(slots, ids, |ids|, a)
    ensures |slots| == |ids| <==> Distinct(ids, |ids|)
    ensures |slots| == |ids| ==> Located(slots, ids, a)
  {
  }

  /** The i-th short id is mapped to the i-th open slot, and nothing else is mapped. */
  ghost predicate Located(slots: map<nat, nat>, ids: seq<nat>, a: seq<Option<Tx>>) {
    (forall k :: k in slots <==> k in ids) && SlotsMapped(slots, ids, |ids|, a)
  }

  // ---------------------------------------------------------------------------------------------
  // Scanning the pools
  // ---------------------------------------------------------------------------------------------

  ghost predicate Matches(tx: Tx, j: nat, slots: map<nat, nat>, sid: nat -> nat) {
    sid(tx.id) in slots && slots[sid(tx.id)] == j
  }

  /** What every step of the scans keeps: prefilled slots are untouched, a filled slot holds a known transaction with
    * the slot's short id, and `count` is the number of filled slots. */
  ghost predicate Scanned(a: seq<Option<Tx>>, now: seq<Option<Tx>>, have: seq<bool>, count: int, slots: map<nat, nat>,
                          sid: nat -> nat, known: set<Tx>) {
    && |a| == |now| == |have| && count == Open(a, |a|) - Open(now, |now|)
    && (forall j :: 0 <= j < |a| && a[j] != None ==> now[j] == a[j])
    && (forall j :: 0 <= j < |a| && a[j] == None && now[j] != None ==>
          have[j] && Matches(now[j].value, j, slots, sid) && now[j].value in known)
  }

  ghost predicate SlotsOpen(a: seq<Option<Tx>>, slots: map<nat, nat>) {
    forall k :: k in slots ==> slots[k] < |a| && a[slots[k]] == None
  }

  lemma LocatedOpen(slots: map<nat, nat>, ids: seq<nat>, a: seq<Option<Tx>>)
    requires Located(slots, ids, a)
    ensures SlotsOpen(a, slots)
  {
  }

  lemma FillKeeps(a: seq<Option<Tx>>, now: seq<Option<Tx>>, have: seq<bool>, count: int, slots: map<nat, nat>,
                  sid: nat -> nat, known: set<Tx>, tx: Tx)
    requires Scanned(a, now, have, count, slots, sid, known) && SlotsOpen(a, slots) && tx in known
    requires sid(tx.id) in slots && !have[slots[sid(tx.id)]]
    ensures var j := slots[sid(tx.id)]; Scanned(a, now[j := Some(tx)], have[j := true], count + 1, slots, sid, known)
  {
    var j := slots[sid(tx.id)];
    OpenUpdate(now, |now|, j, tx);
    hide Open;
  }

  lemma DropKeeps(a: seq<Option<Tx>>, now: seq<Option<Tx>>, have: seq<bool>, count: int, slots: map<nat, nat>,
                  sid: nat -> nat, known: set<Tx>, j: nat)
    requires Scanned(a, now, have, count, slots, sid, known) && j < |a| && a[j] == None && now[j] != None
    ensures Scanned(a, now[j := None], have, count - 1, slots, sid, known)
  {
    var next := now[j := None];
    assert next[j := now[j]] == now;
    OpenUpdate(next, |next|, j, now[j].value);
    hide Open;
  }

  // --- what the scans find -------------------------------------------------------------------------

  ghost function Txs(pool: seq<(nat, Tx)>, n: nat): set<Tx>
    requires n <= |pool|
  {
    set i | 0 <= i < n :: pool[i].1
  }

  ghost predicate NoRepeats(pool: seq<(nat, Tx)>) { forall i, j :: 0 <= i < j < |pool| ==> pool[i].1 != pool[j].1 }

  /** No slot that got a transaction has lost it again. */
  ghost predicate AllKept(now: seq<Option<Tx>>, have: seq<bool>) {
    |now| == |have| && forall j :: 0 <= j < |have| && have[j] ==> now[j] != None
  }

  ghost predicate HoldsId(now: seq<Option<Tx>>, j: nat, id: nat) { j < |now| && now[j] != None &&
    now[j].value.id == id }

  /** Every one of the first `n` transactions that matches a slot has been offered to it. */
  ghost predicate Offered(have: seq<bool>, slots: map<nat, nat>, sid: nat -> nat, pool: seq<(nat, Tx)>, n: nat)
    requires n <= |pool|
  {
    forall i :: 0 <= i < n && sid(pool[i].0) in slots ==> slots[sid(pool[i].0)] < |have| && have[slots[sid(pool[i].0)]]
  }

  /** Different short ids have different slots, and different transactions different short ids. */
  ghost predicate Clean(sid: nat -> nat, slots: map<nat, nat>, txs: set<Tx>) {
    Injective(sid, txs) && forall k, l :: k in slots && l in slots && slots[k] == slots[l] ==> k == l
  }

  lemma NoneSeen(pool: seq<(nat, Tx)>, have: seq<bool>, slots: map<nat, nat>, sid: nat -> nat)
    ensures Txs(pool, 0) == {} && Offered(have, slots, sid, pool, 0)
  {
  }

  lemma SeenNext(a: seq<Option<Tx>>, now: seq<Option<Tx>>, have: seq<bool>, count: int, slots: map<nat, nat>,
                 sid: nat -> nat, pool: seq<(nat, Tx)>, i: nat)
    requires i < |pool| && Scanned(a, now, have, count, slots, sid, Txs(pool, i))
    ensures Scanned(a, now, have, count, slots, sid, Txs(pool, i + 1)) && pool[i].1 in Txs(pool, i + 1)
  {
  }

  lemma SeenAll(a: seq<Option<Tx>>, now: seq<Option<Tx>>, have: seq<bool>, count: int, slots: map<nat, nat>,
                sid: nat -> nat, pool: seq<(nat, Tx)>, i: nat)
    requires i <= |pool| && Scanned(a, now, have, count, slots, sid, Txs(pool, i))
    ensures Scanned(a, now, have, count, slots, sid, Txs(pool, |pool|))
  {
  }

  /** In a pool without repeats no slot is matched twice. */
  lemma NoSecondMatch(a: seq<Option<Tx>>, now: seq<Option<Tx>>, have: seq<bool>, count: int, slots: map<nat, nat>,
                      sid: nat -> nat, pool: seq<(nat, Tx)>, i: nat)
    requires i < |pool| && Scanned(a, now, have, count, slots, sid, Txs(pool, i)) && SlotsOpen(a, slots)
    requires sid(pool[i].1.id) in slots
    ensures Clean(sid, slots, Txs(pool, |pool|)) && NoRepeats(pool) && AllKept(now, have) ==>
            !have[slots[sid(pool[i].1.id)]]
  {
  }

  lemma SameMatch(a: seq<Option<Tx>>, now: seq<Option<Tx>>, have: seq<bool>, count: int, slots: map<nat, nat>,
                  sid: nat -> nat, known: set<Tx>, tx: Tx)
    requires Scanned(a, now, have, count, slots, sid, known) && SlotsOpen(a, slots) && tx in known &&
             sid(tx.id) in slots
    ensures Clean(sid, slots, known) && AllKept(now, have) && have[slots[sid(tx.id)]] ==>
            HoldsId(now, slots[sid(tx.id)], tx.id)
  {
  }

  lemma {:induction false} NoneOpen(a: seq<Option<Tx>>, n: nat)
    requires n <= |a| && Open(a, n) == 0
    ensures forall j :: 0 <= j < n ==> a[j] != None
  {
    if n > 0 {
      NoneOpen(a, n - 1);
    }
  }

  /** When the early exit is taken every slot has its transaction. */
  lemma FullHave(a: seq<Option<Tx>>, now: seq<Option<Tx>>, have: seq<bool>, count: int, slots: map<nat, nat>,
                 sid: nat -> nat, known: set<Tx>, pool: seq<(nat, Tx)>)
    requires Scanned(a, now, have, count, slots, sid, known) && SlotsOpen(a, slots) && count == Open(a, |a|)
    ensures Offered(have, slots, sid, pool, |pool|)
  {
    NoneOpen(now, |now|);
    hide Open;
  }

  lemma OfferedNext(was: seq<bool>, have: seq<bool>, slots: map<nat, nat>, sid: nat -> nat, pool: seq<(nat, Tx)>,
                    i: nat)
    requires i < |pool| && Offered(was, slots, sid, pool, i)
    requires var id := sid(pool[i].0); if id in slots then slots[id] < |was| && have == was[slots[id] := true]
             else have == was
    ensures Offered(have, slots, sid, pool, i + 1)
  {
  }

  /** A message and a block agree: the prefilled transactions and the short ids are those of the block. */
  ghost predicate Describes(m: Message, block: seq<Tx>) {
    && |block| == TxCount(m) && PrefillOk(m, |m.prefilled|)
    && forall j :: 0 <= j < |block| ==>
         match Placed(m, |m.prefilled|)[j]
         case Some(tx) => tx == block[j]
         case None => var i := Open(Placed(m, |m.prefilled|), j);
             i < |m.shortIds| && m.shortIds[i] == m.sid(block[j].id)
  }

  /** No two different transactions share a short id. */
  ghost predicate Injective(sid: nat -> nat, txs: set<Tx>) {
    forall s, t :: s in txs && t in txs && sid(s.id) == sid(t.id) ==> s == t
  }

  /** Without a short-id collision every slot is open or holds the block's own transaction. */
  lemma OnlyOwn(m: Message, block: seq<Tx>, now: seq<Option<Tx>>, have: seq<bool>, count: int, slots: map<nat, nat>,
                known: set<Tx>)
    requires Describes(m, block) && Located(slots, m.shortIds, Placed(m, |m.prefilled|))
    requires Scanned(Placed(m, |m.prefilled|), now, have, count, slots, m.sid, known)
    requires Injective(m.sid, known + set t | t in block)
    ensures forall j :: 0 <= j < |now| && now[j] != None ==> now[j] == Some(block[j])
  {
    var a := Placed(m, |m.prefilled|);
    hide Open, Placed, PrefillOk;
    forall j | 0 <= j < |now| && now[j] != None
      ensures now[j] == Some(block[j])
    {
      if a[j] == None {
        var tx := now[j].value;
        var k := m.sid(tx.id);
        var i :| 0 <= i < |m.shortIds| && m.shortIds[i] == k;
        assert OpenSlot(a, i, slots[m.shortIds[i]]);
        assert block[j] in block;
      }
    }
  }

  ghost function Known(pool: seq<(nat, Tx)>, extra: seq<(nat, Tx)>): set<Tx> {
    Txs(pool, |pool|) + Txs(extra, |extra|)
  }

  lemma ScannedNone(a: seq<Option<Tx>>, have: seq<bool>, slots: map<nat, nat>, sid: nat -> nat)
    requires |have| == |a| && forall j :: 0 <= j < |have| ==> !have[j]
    ensures Scanned(a, a, have, 0, slots, sid, {}) && AllKept(a, have)
  {
  }

  lemma KnownWide(a: seq<Option<Tx>>, now: seq<Option<Tx>>, have: seq<bool>, count: int, slots: map<nat, nat>,
                  sid: nat -> nat, pool: seq<(nat, Tx)>, extra: seq<(nat, Tx)>)
    requires Scanned(a, now, have, count, slots, sid, Txs(pool, |pool|))
    ensures Scanned(a, now, have, count, slots, sid, Known(pool, extra))
    ensures Clean(sid, slots, Known(pool, extra)) ==> Clean(sid, slots, Txs(pool, |pool|))
    ensures forall i :: 0 <= i < |extra| ==> extra[i].1 in Known(pool, extra)
  {
  }

  /** Every transaction that matches a slot is in it. */
  ghost predicate AllFound(now: seq<Option<Tx>>, slots: map<nat, nat>, sid: nat -> nat, pool: seq<(nat, Tx)>) {
    forall i :: 0 <= i < |pool| && sid(pool[i].0) in slots ==>
      slots[sid(pool[i].0)] < |now| && now[slots[sid(pool[i].0)]] != None
  }

  lemma NothingLeft(now: seq<Option<Tx>>, before: seq<bool>, have: seq<bool>, slots: map<nat, nat>, sid: nat -> nat,
                    pool: seq<(nat, Tx)>, extra: seq<(nat, Tx)>)
    requires Offered(before, slots, sid, pool, |pool|) && Offered(have, slots, sid, extra, |extra|)
    requires forall j :: 0 <= j < |before| && before[j] ==> j < |have| && have[j]
    ensures AllKept(now, have) ==> AllFound(now, slots, sid, pool) && AllFound(now, slots, sid, extra)
  {
  }

  // ---------------------------------------------------------------------------------------------
  // Reconstruction
  // ---------------------------------------------------------------------------------------------

  /** The first `n` transactions: the available ones, and the missing ones for the open slots in order. */
  ghost function Filled(a: seq<Option<Tx>>, missing: seq<Tx>, n: nat): (r: seq<Tx>)
    requires n <= |a| && Open(a, n) <= |missing|
    ensures |r| == n
  {
    if n == 0 then []
    else Filled(a, missing, n - 1) + [if a[n - 1] == None then missing[Open(a, n - 1)] else a[n - 1].value]
  }

  lemma FillNone(a: seq<Option<Tx>>, missing: seq<Tx>)
    ensures Open(a, 0) == 0 && Filled(a, missing, 0) == [] && Emptied(a, 0) == a
  {
  }

  lemma FilledNext(a: seq<Option<Tx>>, missing: seq<Tx>, n: nat)
    requires n < |a| && Open(a, n) <= |missing|
    ensures a[n] != None ==>
            Open(a, n + 1) <= |missing| && Filled(a, missing, n + 1) == Filled(a, missing, n) + [a[n].value]
    ensures a[n] == None && Open(a, n) < |missing| ==>
            Open(a, n + 1) <= |missing| && Filled(a, missing, n + 1) == Filled(a, missing, n) + [missing[Open(a, n)]]
  {
  }

  /** The transactions a peer has to send: those of the open slots, in order. */
  ghost function Missing(a: seq<Option<Tx>>, block: seq<Tx>, n: nat): (r: seq<Tx>)
    requires n <= |a| == |block|
    ensures |r| == Open(a, n)
  {
    if n == 0 then [] else Missing(a, block, n - 1) + if a[n - 1] == None then [block[n - 1]] else []
  }

  lemma {:induction false} MissingPrefix(a: seq<Option<Tx>>, block: seq<Tx>, n: nat, k: nat)
    requires n <= k <= |a| == |block|
    ensures Missing(a, block, n) <= Missing(a, block, k)
  {
    if n < k {
      MissingPrefix(a, block, n, k - 1);
    }
  }

  /** The slots together with what is missing give back the block. */
  lemma {:induction false} FillRestores(a: seq<Option<Tx>>, block: seq<Tx>, n: nat)
    requires n <= |a| == |block|
    requires forall j :: 0 <= j < |a| && a[j] != None ==> a[j] == Some(block[j])
    ensures Open(a, n) <= Open(a, |a|) && Filled(a, Missing(a, block, |a|), n) == block[..n]
  {
    OpenMonotone(a, n, |a|);
    if n > 0 {
      FillRestores(a, block, n - 1);
      MissingPrefix(a, block, n, |a|);
      if a[n - 1] == None {
        assert Missing(a, block, n)[Open(a, n - 1)] == block[n - 1];
      }
    }
  }

  /** The short ids of all transactions but the first. */
  function ShortIds(sid: nat -> nat, block: seq<Tx>): seq<nat>
    requires |block| > 0
  {
    seq<nat>(|block| - 1, i requires 0 <= i < |block| - 1 => sid(block[i + 1].id))
  }

  /** The message that announces a block: the first transaction prefilled, short ids for the rest. */
  method Announce(header: nat, sid: nat -> nat, block: seq<Tx>) returns (m: Message)
    requires |block| > 0
    ensures m.header == header && m.sid == sid && m.prefilled == [Prefilled(0, block[0])]
    ensures |m.shortIds| == |block| - 1 && forall i :: 0 < i < |block| ==> m.shortIds[i - 1] == sid(block[i].id)
  {
    var ids := [];
    for i := 1 to |block|
      invariant |ids| == i - 1 && forall k :: 0 < k < i ==> ids[k - 1] == sid(block[k].id)
    {
      ids := ids + [sid(block[i].id)];
    }
    m := Message(header, sid, ids, [Prefilled(0, block[0])]);
  }

  lemma AnnounceDescribes(m: Message, block: seq<Tx>)
    requires |block| > 0 && !block[0].empty && m.prefilled == [Prefilled(0, block[0])]
    requires |m.shortIds| == |block| - 1 && forall i :: 0 < i < |block| ==> m.shortIds[i - 1] == m.sid(block[i].id)
    ensures Describes(m, block) && PrefillOk(m, |m.prefilled|)
  {
    assert Position(m.prefilled, 0) == 0;
    assert PrefillOk(m, 1);
    var a := Placed(m, 1);
    assert a == Placed(m, 0)[0 := Some(block[0])];
    forall j | 0 <= j < |block|
      ensures match a[j] case Some(tx) => tx == block[j] case None => var i := Open(a, j);
                i < |m.shortIds| && m.shortIds[i] == m.sid(block[j].id)
    {
      if j > 0 {
        OpenAfterFirst(a, j);
      }
    }
  }

  /** Short ids repeat exactly when transactions do. */
  lemma DistinctIds(m: Message, block: seq<Tx>, known: set<Tx>)
    requires |m.shortIds| == |block| - 1 && forall i :: 0 < i < |block| ==> m.shortIds[i - 1] == m.sid(block[i].id)
    requires Injective(m.sid, known + set t | t in block)
    ensures Distinct(m.shortIds, |m.shortIds|) <==> AllDifferent(block)
  {
    if Distinct(m.shortIds, |m.shortIds|) {
      forall i, j | 0 < i < j < |block|
        ensures block[i] != block[j]
      {
        assert m.shortIds[i - 1] != m.shortIds[j - 1];
      }
    } else {
      var i, j :| 0 <= i < j < |m.shortIds| && m.shortIds[i] == m.shortIds[j];
      assert m.shortIds[i] == m.sid(block[i + 1].id) && m.shortIds[j] == m.sid(block[j + 1].id);
      assert block[i + 1] in block && block[j + 1] in block;
    }
  }

  /** No transaction after the first occurs twice. */
  ghost predicate AllDifferent(block: seq<Tx>) { forall i, j :: 0 < i < j < |block| ==> block[i] != block[j] }

  lemma {:induction false} OpenAfterFirst(a: seq<Option<Tx>>, n: nat)
    requires 0 < n <= |a| && a[0] != None && forall j :: 0 < j < n ==> a[j] == None
    ensures Open(a, n) == n - 1
  {
    if n > 1 {
      OpenAfterFirst(a, n - 1);
    }
  }

  /** End to end: an announced block comes out whole, whatever the pools hold, when no short ids collide. */
  method Relay(header: nat, sid: nat -> nat, block: seq<Tx>, pool: seq<(nat, Tx)>, extra: seq<(nat, Tx)>, maxTx: nat,
               bucket: nat -> nat)
    returns (status: Status, vtx: seq<Tx>)
    requires header != 0 && 0 < |block| <= 0xffff && |block| <= maxTx && !block[0].empty
    requires forall i :: 0 <= i < |pool| ==> pool[i].0 == pool[i].1.id
    requires forall i :: 0 <= i < |extra| ==> extra[i].0 == extra[i].1.id
    requires Injective(sid, Known(pool, extra) + set t | t in block)
    ensures status == OK ==> vtx == block
    ensures status == OK <==>
            AllDifferent(block) && BucketsFit(ShortIds(sid, block), bucket)
  {
    var m := Announce(header, sid, block);
    AnnounceDescribes(m, block);
    DistinctIds(m, block, Known(pool, extra));
    assert m.shortIds == ShortIds(sid, block);
    hide Located, Scanned, Placed, PrefillOk, Distinct, Injective, Describes, Known, AllDifferent, BucketsFit;
    var p := new PartialBlock();
    ghost var slots, have;
    status, slots, have := p.InitData(m, pool, extra, maxTx, bucket);
    vtx := [];
    if status == OK {
      OnlyOwn(m, block, p.available, have, p.poolCount, slots, Known(pool, extra));
      SlotCount(m, p.available, have, p.poolCount, slots, Known(pool, extra));
      status, vtx := Complete(p, block);
    }
  }

  lemma SlotCount(m: Message, now: seq<Option<Tx>>, have: seq<bool>, count: int, slots: map<nat, nat>, known: set<Tx>)
    requires PrefillOk(m, |m.prefilled|) && Scanned(Placed(m, |m.prefilled|), now, have, count, slots, m.sid, known)
    ensures |now| == TxCount(m)
  {
  }

  /** Ask for what is open and fill the block. */
  method Complete(p: PartialBlock, block: seq<Tx>) returns (status: Status, vtx: seq<Tx>)
    requires p.header != 0 && |p.available| == |block|
    requires forall j :: 0 <= j < |p.available| && p.available[j] != None ==> p.available[j] == Some(block[j])
    modifies p
    ensures status == OK && vtx == block
  {
    var missing := Request(p, block);
    FillRestores(p.available, block, |block|);
    assert block[..|block|] == block;
    status, vtx := p.FillBlock(missing, true, false);
  }

  /** After a call with too few transactions the object is not spent, yet a second call with as many as were missing at
    * first is accepted only if no transaction stood before the first slot left unserved. */
  method Retry(p: PartialBlock, few: seq<Tx>, missing: seq<Tx>) returns (first: Status, second: Status)
    requires p.header != 0 && |few| < Open(p.available, |p.available|) == |missing|
    modifies p
    ensures first == Invalid
    ensures second == OK <==> forall j :: 0 <= j < Unserved(old(p.available), |few|) ==> old(p.available)[j] == None
    ensures second in {OK, Invalid}
  {
    ghost var a := p.available;
    ghost var stop := Unserved(a, |few|);
    OpenEmptied(a, stop, |a|);
    AllOpenIff(a, stop);
    hide Open, OpenSlot, Emptied, Filled, Unserved;
    var block;
    first, block := p.FillBlock(few, true, false);
    second, block := p.FillBlock(missing, true, false);
  }

  /** An announced block has its first transaction from the start, so no such second call is ever accepted. */
  method RetryAnnounced(p: PartialBlock, few: seq<Tx>, missing: seq<Tx>) returns (first: Status, second: Status)
    requires p.header != 0 && |few| < Open(p.available, |p.available|) == |missing| && p.available[0] != None
    modifies p
    ensures first == second == Invalid
  {
    first, second := Retry(p, few, missing);
  }

  /** The smallest case: one transaction prefilled, one missing, and an empty first answer. */
  method RetrySmallest(coinbase: Tx, other: Tx, sid: nat -> nat, bucket: nat -> nat) returns (first: Status,
    second: Status)
    requires !coinbase.empty
    ensures first == second == Invalid
  {
    var p := new PartialBlock();
    var m := Message(1, sid, [sid(other.id)], [Prefilled(0, coinbase)]);
    AnnounceDescribes(m, [coinbase, other]);
    OneIdFits(m.shortIds, bucket);
    var ready;
    ghost var slots, have;
    ready, slots, have := p.InitData(m, [], [], 2, bucket);
    NothingKnown(m, coinbase, p.available, have, p.poolCount, slots);
    first, second := RetryAnnounced(p, [], [other]);
  }

  lemma OneIdFits(ids: seq<nat>, bucket: nat -> nat)
    requires |ids| == 1
    ensures BucketsFit(ids, bucket) && Distinct(ids, 1)
  {
    forall b ensures |Bucket(IdSet(ids), bucket, b)| <= BUCKET_LIMIT {
      SubsetCount(Bucket(IdSet(ids), bucket, b), {ids[0]});
    }
  }

  lemma NothingKnown(m: Message, coinbase: Tx, now: seq<Option<Tx>>, have: seq<bool>, count: int, slots: map<nat, nat>)
    requires |m.shortIds| == 1 && m.prefilled == [Prefilled(0, coinbase)] && PrefillOk(m, 1)
    requires Scanned(Placed(m, 1), now, have, count, slots, m.sid, Known([], []))
    ensures now == [Some(coinbase), None] && Open(now, |now|) == 1
  {
    assert Position(m.prefilled, 0) == 0;
    assert Placed(m, 1) == Placed(m, 0)[0 := Some(coinbase)];
    assert now == [Some(coinbase), None];
    assert Open(now, 1) == 0;
  }

  /** What the announcing side sends for the slots reported as open. */
  method Request(p: PartialBlock, block: seq<Tx>) returns (missing: seq<Tx>)
    requires |p.available| == |block|
    ensures missing == Missing(p.available, block, |block|)
  {
    missing := [];
    for i := 0 to |block|
      invariant missing == Missing(p.available, block, i)
    {
      if !p.IsTxAvailable(i) {
        missing := missing + [block[i]];
      }
    }
  }

  // ---------------------------------------------------------------------------------------------
  // Differential indexes
  // ---------------------------------------------------------------------------------------------

  /** The formatter of a list of indexes: each is sent as its distance from the one after the previous. */
  class DifferenceFormatter {
    var shift: nat

    constructor ()
      ensures shift == 0
    {
      shift := 0;
    }

    method Ser(v: nat) returns (ok: bool, n: nat)
      requires v < TWO64
      modifies this
      ensures ok <==> old(shift) <= v < TWO64 - 1
      ensures ok ==> n == v - old(shift) && shift == v + 1
    {
      if v < shift || v >= TWO64 - 1 {
        return false, 0;
      }
      n := v - shift;
      shift := v + 1;
      ok := true;
    }

    /** Read back one index of a type with largest value `max`, in 64-bit arithmetic. */
    method Unser(n: nat, max: nat) returns (ok: bool, v: nat)
      requires n < TWO64 && shift < TWO64 && max < TWO64
      modifies this
      ensures ok <==> old(shift) + n <= max && old(shift) + n < TWO64 - 1
      ensures ok ==> v == old(shift) + n && shift == v + 1 < TWO64
    {
      shift := (shift + n) % TWO64;
      if shift < n || shift >= TWO64 - 1 || shift > max {
        return false, 0;
      }
      v := shift;
      shift := shift + 1;
      ok := true;
    }
  }

  ghost predicate Climbing(vs: seq<nat>, n: nat)
    requires n <= |vs|
  {
    (forall i :: 0 <= i < n ==> vs[i] < TWO64 - 1) && forall i, j :: 0 <= i < j < n ==> vs[i] < vs[j]
  }

  /** The indexes that a list of distances stands for. */
  ghost function Undiff(ns: seq<nat>, shift: nat): (r: seq<nat>)
    ensures |r| == |ns|
  {
    if ns == [] then [] else [shift + ns[0]] + Undiff(ns[1..], shift + ns[0] + 1)
  }

  lemma {:induction false} UndiffAppend(ns: seq<nat>, shift: nat, n: nat)
    ensures Undiff(ns + [n], shift) == Undiff(ns, shift) +
            [(if ns == [] then shift else Undiff(ns, shift)[|ns| - 1] + 1) + n]
  {
    if ns == [] {
      assert ns + [n] == [n];
    } else {
      UndiffAppend(ns[1..], shift + ns[0] + 1, n);
      assert (ns + [n])[1..] == ns[1..] + [n];
    }
  }

  /** Sending succeeds exactly for strictly climbing lists, and the distances stand for the list. */
  method SendIndexes(vs: seq<nat>) returns (ok: bool, ns: seq<nat>)
    requires forall i :: 0 <= i < |vs| ==> vs[i] < TWO64
    ensures ok <==> Climbing(vs, |vs|)
    ensures ok ==> Undiff(ns, 0) == vs
  {
    var f := new DifferenceFormatter();
    ns := [];
    hide Undiff;
    assert Undiff([], 0) == [];
    for i := 0 to |vs|
      invariant f.shift == if i == 0 then 0 else vs[i - 1] + 1
      invariant Climbing(vs, i) && |ns| == i && Undiff(ns, 0) == vs[..i]
    {
      var good, n := f.Ser(vs[i]);
      if !good {
        return false, [];
      }
      UndiffAppend(ns, 0, n);
      ns := ns + [n];
    }
    assert vs[..|vs|] == vs;
    ok := true;
  }

  /** Receiving gives exactly the list the distances stand for, unless it leaves the index type. */
  method ReceiveIndexes(ns: seq<nat>, max: nat) returns (ok: bool, vs: seq<nat>)
    requires max < TWO64 - 1 && forall i :: 0 <= i < |ns| ==> ns[i] < TWO64
    ensures ok <==> forall i :: 0 <= i < |ns| ==> Undiff(ns, 0)[i] <= max
    ensures ok ==> vs == Undiff(ns, 0)
  {
    var f := new DifferenceFormatter();
    vs := [];
    ghost var all := Undiff(ns, 0);
    hide Undiff;
    for i := 0 to |ns|
      invariant vs == all[..i] && forall k :: 0 <= k < i ==> all[k] <= max
      invariant f.shift == if i == 0 then 0 else all[i - 1] + 1
    {
      UndiffAt(ns, i);
      var good, v := f.Unser(ns[i], max);
      if !good {
        return false, [];
      }
      vs := vs + [v];
    }
    assert all[..|ns|] == all;
    ok := true;
  }

  lemma UndiffAt(ns: seq<nat>, i: nat)
    requires i < |ns|
    ensures Undiff(ns, 0)[i] == (if i == 0 then 0 else Undiff(ns, 0)[i - 1] + 1) + ns[i]
  {
    hide Undiff;
    UndiffAppend(ns[..i], 0, ns[i]);
    UndiffPrefix(ns, 0, i);
    UndiffPrefix(ns, 0, i + 1);
    assert ns[..i + 1] == ns[..i] + [ns[i]];
    assert Undiff(ns, 0)[..i + 1][i] == Undiff(ns, 0)[i];
  }

  lemma {:induction false} UndiffPrefix(ns: seq<nat>, shift: nat, n: nat)
    requires n <= |ns|
    ensures Undiff(ns[..n], shift) == Undiff(ns, shift)[..n]
  {
    if n > 0 {
      UndiffPrefix(ns[1..], shift + ns[0] + 1, n - 1);
      assert ns[..n][1..] == ns[1..][..n - 1];
    }
  }
}
