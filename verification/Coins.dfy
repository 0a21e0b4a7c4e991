/** The stack of write-back caches over the unspent-output database. A cache entry carries the DIRTY
  * and FRESH flags; the reference is one plain map from outpoint to unspent coin, `Visible`. */
module Coins {
  import opened Basics

  type Script = seq<bv8>

  const OP_RETURN: bv8 := 0x6a
  const MAX_SCRIPT_SIZE := 10000

  datatype OutPoint = OutPoint(hash: nat, n: nat)

  /** A coin; a null output (value -1) means spent. */
  datatype Coin = Coin(nValue: int, scriptPubKey: Script, fCoinBase: bool, fCoinStake: bool, nHeight: nat) {
    predicate IsSpent() { nValue == -1 }
  }

  const EMPTY := Coin(-1, [], false, false, 0)

  predicate IsUnspendable(s: Script) {
    (|s| > 0 && s[0] == OP_RETURN) || |s| > MAX_SCRIPT_SIZE
  }

  datatype Entry = Entry(coin: Coin, isDirty: bool, isFresh: bool)

  type Cache = map<OutPoint, Entry>
  type UtxoMap = map<OutPoint, Coin>

  function Lookup<V>(m: map<OutPoint, V>, o: OutPoint): Option<V> {
    if o in m then Some(m[o]) else None
  }

  // ---------------------------------------------------------------------------------------------
  // One layer over the view below it
  // ---------------------------------------------------------------------------------------------

  /** The coin one layer shows: its own entry if it has one, else what the parent shows. */
  ghost function Shown(parent: Option<Coin>, own: Option<Entry>): Option<Coin> {
    if own.None? then parent
    else if own.value.coin.IsSpent() then None
    else Some(own.value.coin)
  }

  ghost function Overlay(parent: UtxoMap, cache: Cache): (v: UtxoMap)
    ensures forall o {:trigger Lookup(v, o)} :: Lookup(v, o) == Shown(Lookup(parent, o), Lookup(cache, o))
  {
    map o | o in parent.Keys + cache.Keys && Shown(Lookup(parent, o), Lookup(cache, o)).Some?
      :: Shown(Lookup(parent, o), Lookup(cache, o)).value
  }

  /** Two maps that look up alike are equal. */
  lemma SameLookups<V>(a: map<OutPoint, V>, b: map<OutPoint, V>)
    requires forall o :: Lookup(a, o) == Lookup(b, o)
    ensures a == b
  {
    forall o ensures o in a <==> o in b {
      assert Lookup(a, o) == Lookup(b, o);
    }
    forall o | o in a ensures a[o] == b[o] {
      assert Lookup(a, o) == Lookup(b, o);
    }
  }

  /** The five combinations of spent, FRESH and DIRTY that the header declares valid. */
  ghost predicate Documented(e: Entry) {
    || (!e.coin.IsSpent() && e.isFresh && e.isDirty)
    || (!e.coin.IsSpent() && !e.isFresh && e.isDirty)
    || (!e.coin.IsSpent() && !e.isFresh && !e.isDirty)
    || (e.coin.IsSpent() && e.isFresh && !e.isDirty)
    || (e.coin.IsSpent() && !e.isFresh && e.isDirty)
  }

  /** What the flags promise about the parent. */
  ghost predicate EntryOk(parent: Option<Coin>, e: Entry) {
    && Documented(e)
    && (e.isFresh ==> parent == None)
    && (!e.isDirty ==> parent == Shown(None, Some(e)))
  }

  ghost predicate LayerInv(parent: UtxoMap, cache: Cache) {
    forall o :: o in cache ==> EntryOk(Lookup(parent, o), cache[o])
  }

  ghost predicate AllUnspent(v: UtxoMap) {
    forall o :: o in v ==> !v[o].IsSpent()
  }

  // --- adding -----------------------------------------------------------------------------------

  datatype AddResult = Done | AttemptedOverwrite

  /** The guard of AddCoin's throw. */
  predicate Overwrites(cache: Cache, o: OutPoint, possibleOverwrite: bool) {
    !possibleOverwrite && o in cache && !cache[o].coin.IsSpent()
  }

  function Added(cache: Cache, o: OutPoint, coin: Coin, possibleOverwrite: bool): Cache {
    var was := if o in cache then cache[o] else Entry(EMPTY, false, false);
    cache[o := Entry(coin, true, was.isFresh || (!possibleOverwrite && !was.isDirty))]
  }

  lemma AddPuts(parent: UtxoMap, cache: Cache, o: OutPoint, coin: Coin, possibleOverwrite: bool)
    requires !coin.IsSpent()
    ensures Overlay(parent, Added(cache, o, coin, possibleOverwrite)) == Overlay(parent, cache)[o := coin]
  {
  }

  /** AddCoin keeps the flags truthful exactly when its caller keeps its side: unless an overwrite is
    * declared possible, a coin not yet cached must not be unspent below. */
  lemma AddKeepsLayerIff(parent: UtxoMap, cache: Cache, o: OutPoint, coin: Coin, possibleOverwrite: bool)
    requires !coin.IsSpent() && LayerInv(parent, cache) && !Overwrites(cache, o, possibleOverwrite)
    ensures LayerInv(parent, Added(cache, o, coin, possibleOverwrite))
            <==> (possibleOverwrite || o in cache || o !in parent)
  {
    var a := Added(cache, o, coin, possibleOverwrite);
    assert o in a;
    if possibleOverwrite || o in cache || o !in parent {
      forall p | p in a ensures EntryOk(Lookup(parent, p), a[p]) {
        if p != o { assert p in cache; }
      }
    } else {
      assert !EntryOk(Lookup(parent, o), a[o]);
    }
  }

  // --- spending ---------------------------------------------------------------------------------

  function Spent(cache: Cache, o: OutPoint): Cache
    requires o in cache
  {
    if cache[o].isFresh then cache - {o} else cache[o := Entry(EMPTY, true, false)]
  }

  lemma SpendRemoves(parent: UtxoMap, cache: Cache, o: OutPoint)
    requires LayerInv(parent, cache) && o in cache
    ensures Overlay(parent, Spent(cache, o)) == Overlay(parent, cache) - {o}
    ensures LayerInv(parent, Spent(cache, o))
  {
  }

  /** Breaking AddCoin's condition breaks consensus: a coin that is unspent below, added again without
    * declaring the overwrite and then spent, is still shown as unspent. */
  lemma MisappliedFreshResurrects(o: OutPoint, coin: Coin)
    requires !coin.IsSpent()
    ensures var parent := map[o := coin];
            var added := Added(map[], o, coin, false);
            && !Overwrites(map[], o, false)
            && Overlay(parent, added) == parent
            && Lookup(Overlay(parent, Spent(added, o)), o) == Some(coin)
  {
  }

  // --- fetching and uncaching -------------------------------------------------------------------

  lemma FetchKeeps(parent: UtxoMap, cache: Cache, o: OutPoint)
    requires LayerInv(parent, cache) && AllUnspent(parent) && o !in cache && o in parent
    ensures LayerInv(parent, cache[o := Entry(parent[o], false, false)])
    ensures Overlay(parent, cache[o := Entry(parent[o], false, false)]) == Overlay(parent, cache)
  {
  }

  lemma UncacheKeeps(parent: UtxoMap, cache: Cache, o: OutPoint)
    requires LayerInv(parent, cache) && o in cache && !cache[o].isDirty && !cache[o].isFresh
    ensures LayerInv(parent, cache - {o})
    ensures Overlay(parent, cache - {o}) == Overlay(parent, cache)
  {
  }

  // --- writing a child's entries into its parent --------------------------------------------------

  /** The guard of the "FRESH flag misapplied" throw. */
  predicate Misapplied(us: Option<Entry>, them: Entry) {
    them.isDirty && them.isFresh && us.Some? && !us.value.coin.IsSpent()
  }

  /** The parent's entry after one child entry was written into it. */
  function Merge(us: Option<Entry>, them: Entry): Option<Entry> {
    if !them.isDirty then us
    else if us.None? then
      if them.isFresh && them.coin.IsSpent() then None else Some(Entry(them.coin, true, them.isFresh))
    else
      if us.value.isFresh && them.coin.IsSpent() then None else Some(Entry(them.coin, true, us.value.isFresh))
  }

  function MergeAt(us: Option<Entry>, them: Option<Entry>): Option<Entry> {
    if them.None? then us else Merge(us, them.value)
  }

  ghost function Merged(cache: Cache, child: Cache): (r: Cache)
    ensures forall o {:trigger Lookup(r, o)} :: Lookup(r, o) == MergeAt(Lookup(cache, o), Lookup(child, o))
  {
    map o | o in cache.Keys + child.Keys && MergeAt(Lookup(cache, o), Lookup(child, o)).Some?
      :: MergeAt(Lookup(cache, o), Lookup(child, o)).value
  }

  /** The parent's cache when the outpoints in `todo` are still to be merged. */
  ghost predicate MergedBut(was: Cache, child: Cache, todo: set<OutPoint>, now: Cache) {
    && (forall o {:trigger Lookup(now, o)} :: Lookup(now, o) ==
         (if o in child && o !in todo then Merge(Lookup(was, o), child[o]) else Lookup(was, o)))
    && (forall o :: o in child && o !in todo ==> !Misapplied(Lookup(was, o), child[o]))
  }

  lemma MergedButStep(was: Cache, child: Cache, todo: set<OutPoint>, now: Cache, o: OutPoint, now': Cache)
    requires MergedBut(was, child, todo, now) && o in todo && o in child
    requires !Misapplied(Lookup(now, o), child[o])
    requires forall p {:trigger Lookup(now', p)} :: Lookup(now', p) ==
               (if p == o then Merge(Lookup(now, o), child[o]) else Lookup(now, p))
    ensures MergedBut(was, child, todo - {o}, now')
  {
  }

  lemma MergedButNone(was: Cache, child: Cache, now: Cache)
    requires MergedBut(was, child, {}, now)
    ensures now == Merged(was, child) && NoneMisapplied(was, child)
  {
    forall o ensures Lookup(now, o) == Lookup(Merged(was, child), o) {}
    SameLookups(now, Merged(was, child));
  }

  /** One outpoint of a flush: no throw, the grandparent sees truthful flags, and the merged entry
    * shows what the child showed. */
  lemma MergeEntry(grand: Option<Coin>, us: Option<Entry>, them: Entry)
    requires us.Some? ==> EntryOk(grand, us.value)
    requires EntryOk(Shown(grand, us), them)
    ensures !Misapplied(us, them)
    ensures Merge(us, them).Some? ==> EntryOk(grand, Merge(us, them).value)
    ensures Shown(grand, Merge(us, them)) == Shown(Shown(grand, us), Some(them))
  {
  }

  ghost predicate NoneMisapplied(cache: Cache, child: Cache) {
    forall o :: o in child ==> !Misapplied(Lookup(cache, o), child[o])
  }

  /** Flushing a truthful child into a truthful parent never throws, keeps the parent truthful and
    * makes the parent show what the child showed. */
  lemma FlushLaw(grand: UtxoMap, cache: Cache, child: Cache)
    requires LayerInv(grand, cache) && LayerInv(Overlay(grand, cache), child)
    ensures NoneMisapplied(cache, child)
    ensures LayerInv(grand, Merged(cache, child))
    ensures Overlay(grand, Merged(cache, child)) == Overlay(Overlay(grand, cache), child)
  {
    var r := Merged(cache, child);
    forall o
      ensures o in child ==> !Misapplied(Lookup(cache, o), child[o])
      ensures o in r ==> EntryOk(Lookup(grand, o), r[o])
      ensures Lookup(Overlay(grand, r), o) == Lookup(Overlay(Overlay(grand, cache), child), o)
    {
      assert Lookup(r, o) == MergeAt(Lookup(cache, o), Lookup(child, o));
      if o in child {
        MergeEntry(Lookup(grand, o), Lookup(cache, o), child[o]);
      }
    }
    SameLookups(Overlay(grand, r), Overlay(Overlay(grand, cache), child));
  }

  /** A child that was emptied shows its parent. */
  lemma EmptyCacheShowsParent(parent: UtxoMap)
    ensures Overlay(parent, map[]) == parent
  {
  }

  /** The database writes the dirty entries; for a truthful child that is the child's view. */
  ghost function WrittenDb(db: UtxoMap, child: Cache): (r: UtxoMap)
    ensures forall o {:trigger Lookup(r, o)} :: Lookup(r, o) == if o in child &&
            child[o].isDirty then Shown(None, Some(child[o])) else Lookup(db, o)
  {
    map o | o in db.Keys + child.Keys && (if o in child && child[o].isDirty then !child[o].coin.IsSpent() else o in db)
      :: if o in child && child[o].isDirty then child[o].coin else db[o]
  }

  lemma DbFlushLaw(db: UtxoMap, child: Cache)
    requires LayerInv(db, child)
    ensures WrittenDb(db, child) == Overlay(db, child)
  {
  }

  // ---------------------------------------------------------------------------------------------
  // Memory accounting
  // ---------------------------------------------------------------------------------------------

  ghost function Usage(usage: Script -> nat, cache: Cache): nat {
    if cache == map[] then 0
    else
      var o :| o in cache;
      usage(cache[o].coin.scriptPubKey) + Usage(usage, cache - {o})
  }

  lemma {:induction false} UsageRemove(usage: Script -> nat, cache: Cache, o: OutPoint)
    requires o in cache
    ensures Usage(usage, cache) == usage(cache[o].coin.scriptPubKey) + Usage(usage, cache - {o})
    decreases |cache|
  {
    var p :| p in cache && Usage(usage, cache) == usage(cache[p].coin.scriptPubKey) + Usage(usage, cache - {p});
    if p != o {
      UsageRemove(usage, cache - {p}, o);
      UsageRemove(usage, cache - {o}, p);
      assert cache - {p} - {o} == cache - {o} - {p};
    }
  }

  lemma UsagePut(usage: Script -> nat, cache: Cache, o: OutPoint, e: Entry)
    ensures Usage(usage, cache[o := e])
            == Usage(usage, cache) - (if o in cache then usage(cache[o].coin.scriptPubKey) else 0) +
              usage(e.coin.scriptPubKey)
  {
    UsageRemove(usage, cache[o := e], o);
    if o in cache {
      UsageRemove(usage, cache, o);
      assert cache[o := e] - {o} == cache - {o};
    } else {
      assert cache[o := e] - {o} == cache;
    }
  }

  // ---------------------------------------------------------------------------------------------
  // The views
  // ---------------------------------------------------------------------------------------------

  /** A view: the database when `base` is null, else a cache over `base`. */
  class CoinsView {
    const base: CoinsView?
    var db: UtxoMap
    var cacheCoins: Cache
    var cachedCoinsUsage: int
    const usage: Script -> nat
    ghost const Repr: set<CoinsView>

    /** The caches are truthful all the way down to the database. */
    ghost predicate Valid()
      reads this, Repr
      decreases Repr, 0
    {
      && this in Repr
      && usage([]) == 0
      && cachedCoinsUsage == Usage(usage, cacheCoins)
      && (base == null ==> AllUnspent(db) && cacheCoins == map[])
      && (base != null ==>
            && base in Repr && base.Repr < Repr && this !in base.Repr
            && base.Valid()
            && LayerInv(base.Visible(), cacheCoins))
    }

    /** The unspent outputs this view stands for. */
    ghost function Visible(): (v: UtxoMap)
      requires Valid()
      reads this, Repr
      ensures AllUnspent(v)
      decreases Repr, 1
    {
      if base == null then db
      else
        var v := Overlay(base.Visible(), cacheCoins);
        assert AllUnspent(v) by {
          forall o | o in v ensures !v[o].IsSpent() {
            assert Lookup(v, o) == Shown(Lookup(base.Visible(), o), Lookup(cacheCoins, o));
          }
        }
        v
    }

    /** The views below this one, nearest first. */
    ghost function Below(): (r: seq<UtxoMap>)
      requires Valid()
      reads this, Repr
      ensures base != null ==> |r| >= 1
      decreases Repr, 1
    {
      if base == null then [] else base.Levels()
    }

    ghost function Levels(): (r: seq<UtxoMap>)
      requires Valid()
      reads this, Repr
      ensures |r| >= if base == null then 1 else 2
      decreases Repr, 2
    {
      [Visible()] + Below()
    }

    lemma TwoLevels()
      requires Valid() && base != null
      ensures Levels() == [Visible(), base.Visible()] + base.Below()
    {
      assert base.Levels() == [base.Visible()] + base.Below();
    }

    constructor Database(usageIn: Script -> nat, coins: UtxoMap)
      requires usageIn([]) == 0 && AllUnspent(coins)
      ensures Valid() && fresh(Repr) && Visible() == coins
    {
      base, db, cacheCoins, cachedCoinsUsage := null, coins, map[], 0;
      usage := usageIn;
      Repr := {this};
    }

    constructor Over(baseIn: CoinsView)
      requires baseIn.Valid()
      ensures Valid() && fresh(Repr - baseIn.Repr) && base == baseIn && cacheCoins == map[]
      ensures Visible() == baseIn.Visible()
    {
      base, db, cacheCoins, cachedCoinsUsage := baseIn, map[], map[], 0;
      usage := baseIn.usage;
      Repr := {this} + baseIn.Repr;
      new;
      EmptyCacheShowsParent(baseIn.Visible());
    }

    /** True only for an unspent coin, which is returned; caches on the way may be filled. */
    method GetCoin(o: OutPoint) returns (found: bool, coin: Coin)
      requires Valid()
      modifies Repr
      ensures Valid()
      ensures Visible() == old(Visible()) && Below() == old(Below())
      ensures found <==> o in Visible()
      ensures found ==> coin == Visible()[o]
      decreases Repr, 1
    {
      if base == null {
        if o in db {
          return true, db[o];
        }
        return false, EMPTY;
      }
      var cached := FetchCoin(o);
      assert Lookup(Visible(), o) == Shown(Lookup(base.Visible(), o), Lookup(cacheCoins, o));
      if cached {
        coin := cacheCoins[o].coin;
        found := !coin.IsSpent();
      } else {
        found, coin := false, EMPTY;
      }
    }

    method FetchCoin(o: OutPoint) returns (found: bool)
      requires Valid() && base != null
      modifies Repr
      ensures Valid()
      ensures Visible() == old(Visible()) && Below() == old(Below())
      ensures found <==> o in cacheCoins
      ensures found <==> o in old(cacheCoins) || o in Visible()
      ensures cacheCoins == old(cacheCoins)
              || (o !in old(cacheCoins) && o in Visible() &&
                cacheCoins == old(cacheCoins)[o := Entry(Visible()[o], false, false)])
      decreases Repr, 0
    {
      if o in cacheCoins {
        return true;
      }
      assert Lookup(Visible(), o) == Lookup(base.Visible(), o);
      var have, tmp := base.GetCoin(o);
      if !have {
        return false;
      }
      Remember(o, tmp);
      found := true;
    }

    /** Caches a coin just read from the parent. */
    method Remember(o: OutPoint, tmp: Coin)
      requires Valid() && base != null && o !in cacheCoins && Lookup(base.Visible(), o) == Some(tmp)
      modifies this`cacheCoins, this`cachedCoinsUsage
      ensures Valid() && Visible() == old(Visible()) && Below() == old(Below())
      ensures cacheCoins == old(cacheCoins)[o := Entry(tmp, false, false)]
    {
      // The flags are zero unless the parent handed over a spent coin, which GetCoin never does.
      var e := Entry(tmp, false, tmp.IsSpent());
      FetchKeeps(base.Visible(), cacheCoins, o);
      UsagePut(usage, cacheCoins, o, e);
      cacheCoins := cacheCoins[o := e];
      cachedCoinsUsage := cachedCoinsUsage + usage(tmp.scriptPubKey);
      OwnCacheReplaced();
    }

    /** A cache whose own entries changed, truthfully, over an untouched base. */
    twostate lemma OwnCacheReplaced()
      requires old(Valid()) && base != null
      requires forall v :: v in base.Repr ==> unchanged(v)
      requires cachedCoinsUsage == Usage(usage, cacheCoins)
      requires LayerInv(old(base.Visible()), cacheCoins)
      ensures Valid() && Visible() == Overlay(old(base.Visible()), cacheCoins) && Below() == old(Below())
    {
      assert base.Valid() && base.Visible() == old(base.Visible()) && base.Levels() == old(base.Levels());
    }

    /** Adds a coin. When the caller keeps its side of the bargain the view becomes the old one with
      * the coin put in; see AddKeepsLayerIff for what happens otherwise. A refused overwrite has already taken the
      * coin's memory out of the account. */
    method AddCoin(o: OutPoint, coin: Coin, possibleOverwrite: bool) returns (r: AddResult)
      requires Valid() && base != null && !coin.IsSpent()
      modifies this`cacheCoins, this`cachedCoinsUsage
      ensures r.AttemptedOverwrite? <==>
                !IsUnspendable(coin.scriptPubKey) && Overwrites(old(cacheCoins), o, possibleOverwrite)
      ensures r.AttemptedOverwrite? || IsUnspendable(coin.scriptPubKey) ==> cacheCoins == old(cacheCoins)
      ensures IsUnspendable(coin.scriptPubKey) ==> Valid() && Visible() == old(Visible()) && Below() == old(Below())
      ensures r.Done? && !IsUnspendable(coin.scriptPubKey) ==>
                && cacheCoins == Added(old(cacheCoins), o, coin, possibleOverwrite)
                && cachedCoinsUsage == Usage(usage, cacheCoins)
      ensures r.AttemptedOverwrite? ==>
                && o in cacheCoins && cachedCoinsUsage == old(cachedCoinsUsage) - usage(cacheCoins[o].coin.scriptPubKey)
                && (Valid() <==> usage(cacheCoins[o].coin.scriptPubKey) == 0)
      ensures possibleOverwrite || o !in old(Visible()) ==> r.Done?
      ensures !IsUnspendable(coin.scriptPubKey) && (possibleOverwrite || o !in old(Visible())) ==>
                Valid() && Visible() == old(Visible())[o := coin] && Below() == old(Below())
    {
      if IsUnspendable(coin.scriptPubKey) {
        return Done;
      }
      assert Lookup(Visible(), o) == Shown(Lookup(base.Visible(), o), Lookup(cacheCoins, o));
      var inserted := o !in cacheCoins;
      var was := if inserted then Entry(EMPTY, false, false) else cacheCoins[o];
      var isFresh := false;
      if !possibleOverwrite {
        if !was.coin.IsSpent() {
          cachedCoinsUsage := cachedCoinsUsage - if inserted then 0 else usage(was.coin.scriptPubKey);
          return AttemptedOverwrite;
        }
        isFresh := !was.isDirty;
      }
      StoreAdded(o, Entry(coin, true, was.isFresh || isFresh), possibleOverwrite);
      return Done;
    }

    /** The writing half of AddCoin. */
    method StoreAdded(o: OutPoint, e: Entry, ghost possibleOverwrite: bool)
      requires Valid() && base != null && !e.coin.IsSpent()
      requires !Overwrites(cacheCoins, o, possibleOverwrite)
      requires cacheCoins[o := e] == Added(cacheCoins, o, e.coin, possibleOverwrite)
      modifies this`cacheCoins, this`cachedCoinsUsage
      ensures cacheCoins == old(cacheCoins)[o := e]
      ensures cachedCoinsUsage == Usage(usage, cacheCoins)
      ensures possibleOverwrite || o !in old(Visible()) ==>
                Valid() && Visible() == old(Visible())[o := e.coin] && Below() == old(Below())
    {
      ghost var below, v := base.Visible(), Visible();
      UsagePut(usage, cacheCoins, o, e);
      AddKeepsLayerIff(below, cacheCoins, o, e.coin, possibleOverwrite);
      AddPuts(below, cacheCoins, o, e.coin, possibleOverwrite);
      assert Lookup(v, o) == Shown(Lookup(below, o), Lookup(cacheCoins, o));
      if o in cacheCoins {
        cachedCoinsUsage := cachedCoinsUsage - usage(cacheCoins[o].coin.scriptPubKey);
      }
      cacheCoins := cacheCoins[o := e];
      cachedCoinsUsage := cachedCoinsUsage + usage(e.coin.scriptPubKey);
      if possibleOverwrite || o !in v {
        OwnCacheReplaced();
      }
    }

    /** Spends a coin: the view loses the outpoint. The result is true also for a coin that was already
      * spent but is still cached. */
    method SpendCoin(o: OutPoint) returns (ok: bool, moved: Coin)
      requires Valid() && base != null
      modifies Repr
      ensures Valid()
      ensures Visible() == old(Visible()) - {o} && Below() == old(Below())
      ensures ok <==> o in old(cacheCoins) || o in old(Visible())
      ensures o in old(Visible()) ==> moved == old(Visible())[o]
      ensures o !in old(Visible()) ==> moved.IsSpent()
    {
      moved := EMPTY;
      ok := FetchCoin(o);
      assert Lookup(Visible(), o) == Shown(Lookup(base.Visible(), o), Lookup(cacheCoins, o));
      if ok {
        moved := cacheCoins[o].coin;
        EraseOrClear(o);
      } else {
        assert Visible() - {o} == Visible();
      }
    }

    /** The writing half of SpendCoin. */
    method EraseOrClear(o: OutPoint)
      requires Valid() && base != null && o in cacheCoins
      modifies this`cacheCoins, this`cachedCoinsUsage
      ensures Valid() && Visible() == old(Visible()) - {o} && Below() == old(Below())
      ensures cacheCoins == Spent(old(cacheCoins), o)
    {
      SpendRemoves(base.Visible(), cacheCoins, o);
      cachedCoinsUsage := cachedCoinsUsage - usage(cacheCoins[o].coin.scriptPubKey);
      if cacheCoins[o].isFresh {
        UsageRemove(usage, cacheCoins, o);
        cacheCoins := cacheCoins - {o};
      } else {
        UsagePut(usage, cacheCoins, o, Entry(EMPTY, true, false));
        cacheCoins := cacheCoins[o := Entry(EMPTY, true, cacheCoins[o].isFresh)];
      }
      OwnCacheReplaced();
    }

    method HaveCoin(o: OutPoint) returns (have: bool)
      requires Valid()
      modifies Repr
      ensures Valid()
      ensures Visible() == old(Visible()) && Below() == old(Below())
      ensures have <==> o in Visible()
    {
      var coin;
      have, coin := GetCoin(o);
    }

    method Uncache(o: OutPoint)
      requires Valid() && base != null
      modifies this`cacheCoins, this`cachedCoinsUsage
      ensures Valid() && Visible() == old(Visible()) && Below() == old(Below())
      ensures cacheCoins == if o in old(cacheCoins) && !old(cacheCoins)[o].isDirty && !old(cacheCoins)[o].isFresh
                            then old(cacheCoins) - {o} else old(cacheCoins)
    {
      if o in cacheCoins && !cacheCoins[o].isDirty && !cacheCoins[o].isFresh {
        UncacheKeeps(base.Visible(), cacheCoins, o);
        UsageRemove(usage, cacheCoins, o);
        cachedCoinsUsage := cachedCoinsUsage - usage(cacheCoins[o].coin.scriptPubKey);
        cacheCoins := cacheCoins - {o};
        OwnCacheReplaced();
      }
    }

    /** Writes a child's entries into this view, in whatever order the child's table yields them. A
      * truthful child is never refused. */
    method BatchWrite(mapCoins: Cache) returns (ok: bool)
      requires Valid()
      modifies this`db, this`cacheCoins, this`cachedCoinsUsage
      ensures base != null ==> (ok <==> NoneMisapplied(old(cacheCoins), mapCoins))
      ensures LayerInv(old(Visible()), mapCoins) ==>
                ok && Valid() && Visible() == Overlay(old(Visible()), mapCoins) && Below() == old(Below())
    {
      if base == null {
        DatabaseWrite(mapCoins);
        return true;
      }
      ok := MergeAll(mapCoins);
      if LayerInv(old(Visible()), mapCoins) {
        FlushLaw(old(base.Visible()), old(cacheCoins), mapCoins);
        OwnCacheReplaced();
      }
    }

    method DatabaseWrite(mapCoins: Cache)
      requires Valid() && base == null
      modifies this`db
      ensures LayerInv(old(Visible()), mapCoins) ==> Valid() && Visible() == Overlay(old(Visible()), mapCoins)
    {
      WriteAll(mapCoins);
      if LayerInv(old(db), mapCoins) {
        DbFlushLaw(old(db), mapCoins);
      }
    }

    method WriteAll(mapCoins: Cache)
      modifies this`db
      ensures db == WrittenDb(old(db), mapCoins)
    {
      var todo := mapCoins;
      while todo != map[]
        invariant forall o :: o in todo ==> o in mapCoins && todo[o] == mapCoins[o]
        invariant forall o {:trigger Lookup(db, o)} :: Lookup(db, o) ==
                    if o in mapCoins && o !in todo && mapCoins[o].isDirty then Shown(None, Some(mapCoins[o]))
                      else Lookup(old(db), o)
        decreases |todo|
      {
        var o :| o in todo;
        WriteOne(o, todo[o]);
        todo := todo - {o};
      }
      SameLookups(db, WrittenDb(old(db), mapCoins));
    }

    method WriteOne(o: OutPoint, e: Entry)
      modifies this`db
      ensures forall p {:trigger Lookup(db, p)} :: Lookup(db, p) ==
                (if p == o && e.isDirty then Shown(None, Some(e)) else Lookup(old(db), p))
    {
      if e.isDirty {
        if e.coin.IsSpent() {
          db := db - {o};
        } else {
          db := db[o := e.coin];
        }
      }
    }

    method MergeAll(mapCoins: Cache) returns (ok: bool)
      requires cachedCoinsUsage == Usage(usage, cacheCoins)
      modifies this`cacheCoins, this`cachedCoinsUsage
      ensures ok <==> NoneMisapplied(old(cacheCoins), mapCoins)
      ensures ok ==> cacheCoins == Merged(old(cacheCoins), mapCoins) && cachedCoinsUsage == Usage(usage, cacheCoins)
    {
      var todo := mapCoins.Keys;
      while todo != {}
        invariant todo <= mapCoins.Keys
        invariant MergedBut(old(cacheCoins), mapCoins, todo, cacheCoins)
        invariant cachedCoinsUsage == Usage(usage, cacheCoins)
        decreases |todo|
      {
        var o :| o in todo;
        ghost var now := cacheCoins;
        assert Lookup(now, o) == Lookup(old(cacheCoins), o);
        var one := MergeOne(o, mapCoins[o]);
        if !one {
          return false;
        }
        MergedButStep(old(cacheCoins), mapCoins, todo, now, o, cacheCoins);
        todo := todo - {o};
      }
      MergedButNone(old(cacheCoins), mapCoins, cacheCoins);
      return true;
    }

    /** One round of BatchWrite's loop; false stands for the throw. */
    method MergeOne(o: OutPoint, e: Entry) returns (ok: bool)
      requires cachedCoinsUsage == Usage(usage, cacheCoins)
      modifies this`cacheCoins, this`cachedCoinsUsage
      ensures ok <==> !Misapplied(Lookup(old(cacheCoins), o), e)
      ensures ok ==> cachedCoinsUsage == Usage(usage, cacheCoins)
      ensures ok ==> forall p {:trigger Lookup(cacheCoins, p)} :: Lookup(cacheCoins, p) ==
                       (if p == o then Merge(Lookup(old(cacheCoins), o), e) else Lookup(old(cacheCoins), p))
    {
      if !e.isDirty {
        return true;
      }
      if o !in cacheCoins {
        if !(e.isFresh && e.coin.IsSpent()) {
          UsagePut(usage, cacheCoins, o, Entry(e.coin, true, e.isFresh));
          cacheCoins := cacheCoins[o := Entry(e.coin, true, e.isFresh)];
          cachedCoinsUsage := cachedCoinsUsage + usage(e.coin.scriptPubKey);
        }
        return true;
      }
      var us := cacheCoins[o];
      if e.isFresh && !us.coin.IsSpent() {
        return false;
      }
      cachedCoinsUsage := cachedCoinsUsage - usage(us.coin.scriptPubKey);
      if us.isFresh && e.coin.IsSpent() {
        UsageRemove(usage, cacheCoins, o);
        cacheCoins := cacheCoins - {o};
      } else {
        UsagePut(usage, cacheCoins, o, Entry(e.coin, true, us.isFresh));
        cacheCoins := cacheCoins[o := Entry(e.coin, true, us.isFresh)];
        cachedCoinsUsage := cachedCoinsUsage + usage(e.coin.scriptPubKey);
      }
      return true;
    }

    /** The clearing half of Flush: `base` is in order, only this cache is stale. */
    method Clear()
      requires base != null && this in Repr && usage([]) == 0
      requires base in Repr && base.Repr < Repr && this !in base.Repr && base.Valid()
      modifies this`cacheCoins, this`cachedCoinsUsage
      ensures Valid() && Visible() == old(base.Visible()) && Below() == old(base.Levels())
      ensures cacheCoins == map[]
    {
      ghost var v, l := base.Visible(), base.Levels();
      EmptyCacheShowsParent(v);
      cacheCoins := map[];
      cachedCoinsUsage := 0;
      assert base.Valid() && base.Visible() == v && base.Levels() == l;
    }

    /** Pushes the changes down: the base now shows what this view shows, which is unchanged. */
    method Flush() returns (ok: bool)
      requires Valid() && base != null
      modifies Repr
      ensures ok && Valid()
      ensures Levels() == old(Levels())[1 := old(Levels())[0]]
      ensures cacheCoins == map[]
    {
      TwoLevels();
      ok := PushDown();
      Clear();
      TwoLevels();
    }

    /** The first half of a flush: the base has taken over what this view shows. */
    method PushDown() returns (ok: bool)
      requires Valid() && base != null
      modifies base`db, base`cacheCoins, base`cachedCoinsUsage
      ensures ok && this in Repr && usage([]) == 0
      ensures base in Repr && base.Repr < Repr && this !in base.Repr && base.Valid()
      ensures base.Visible() == old(Visible()) && base.Below() == old(base.Below())
    {
      hide Overlay, LayerInv, NoneMisapplied;
      ok := base.BatchWrite(cacheCoins);
    }
  }

  // ---------------------------------------------------------------------------------------------
  // Whole runs
  // ---------------------------------------------------------------------------------------------

  datatype TxOut = TxOut(nValue: int, scriptPubKey: Script)

  datatype Tx = Tx(txid: nat, vout: seq<TxOut>, isCoinBase: bool, isCoinStake: bool)

  function CoinOf(tx: Tx, nHeight: nat, i: nat): Coin
    requires i < |tx.vout|
  {
    Coin(tx.vout[i].nValue, tx.vout[i].scriptPubKey, tx.isCoinBase, tx.isCoinStake, nHeight)
  }

  /** The map with the first `n` outputs of a transaction put in, unspendable ones left out. */
  ghost function OutputsPut(v: UtxoMap, tx: Tx, nHeight: nat, n: nat): UtxoMap
    requires n <= |tx.vout|
  {
    if n == 0 then v
    else
      var w := OutputsPut(v, tx, nHeight, n - 1);
      if IsUnspendable(tx.vout[n - 1].scriptPubKey) then w
      else w[OutPoint(tx.txid, n - 1) := CoinOf(tx, nHeight, n - 1)]
  }

  lemma {:induction false} LaterOutputsUntouched(v: UtxoMap, tx: Tx, nHeight: nat, n: nat, i: nat)
    requires n <= i < |tx.vout|
    ensures Lookup(OutputsPut(v, tx, nHeight, n), OutPoint(tx.txid, i)) == Lookup(v, OutPoint(tx.txid, i))
  {
    if n > 0 {
      LaterOutputsUntouched(v, tx, nHeight, n - 1, i);
    }
  }

  /** Puts all outputs of a transaction. Without the check only a coinbase may overwrite. */
  method AddCoins(cache: CoinsView, tx: Tx, nHeight: nat, check: bool) returns (r: AddResult)
    requires cache.Valid() && cache.base != null
    requires forall i :: 0 <= i < |tx.vout| ==> tx.vout[i].nValue != -1
    requires check || tx.isCoinBase
             || forall i :: 0 <= i < |tx.vout| ==> OutPoint(tx.txid, i) !in cache.Visible()
    modifies cache.Repr
    ensures r.Done? && cache.Valid()
    ensures cache.Visible() == OutputsPut(old(cache.Visible()), tx, nHeight, |tx.vout|)
    ensures cache.Below() == old(cache.Below())
  {
    for i := 0 to |tx.vout|
      invariant cache.Valid()
      invariant cache.Visible() == OutputsPut(old(cache.Visible()), tx, nHeight, i)
      invariant cache.Below() == old(cache.Below())
    {
      LaterOutputsUntouched(old(cache.Visible()), tx, nHeight, i, i);
      AddOutput(cache, tx, nHeight, check, i);
    }
    return Done;
  }

  method AddOutput(cache: CoinsView, tx: Tx, nHeight: nat, check: bool, i: nat)
    requires cache.Valid() && cache.base != null
    requires i < |tx.vout| && tx.vout[i].nValue != -1
    requires check || tx.isCoinBase || OutPoint(tx.txid, i) !in cache.Visible()
    modifies cache.Repr
    ensures cache.Valid() && cache.Below() == old(cache.Below())
    ensures cache.Visible() == if IsUnspendable(tx.vout[i].scriptPubKey) then old(cache.Visible())
                               else old(cache.Visible())[OutPoint(tx.txid, i) := CoinOf(tx, nHeight, i)]
  {
    var overwrite := tx.isCoinBase;
    if check {
      overwrite := cache.HaveCoin(OutPoint(tx.txid, i));
    }
    var r := cache.AddCoin(OutPoint(tx.txid, i), CoinOf(tx, nHeight, i), overwrite);
    assert r.Done?;
  }

  /** What a caller may do to a cache. `Nested` stacks a new cache on top, works on it, and then
    * flushes it down or throws it away. */
  datatype Op =
    | Add(o: OutPoint, coin: Coin, possibleOverwrite: bool)
    | Spend(o: OutPoint)
    | Have(o: OutPoint)
    | Uncache(o: OutPoint)
    | Flush
    | Nested(ops: seq<Op>, commit: bool)

  /** The same run on a stack of plain maps: no flags, no caches. */
  ghost function Plain(levels: seq<UtxoMap>, op: Op): (r: seq<UtxoMap>)
    requires |levels| >= 2
    ensures |r| == |levels|
    decreases op, 0
  {
    match op
    case Add(o, coin, _) => if IsUnspendable(coin.scriptPubKey) then levels else levels[0 := levels[0][o := coin]]
    case Spend(o) => levels[0 := levels[0] - {o}]
    case Have(_) => levels
    case Uncache(_) => levels
    case Flush => levels[1 := levels[0]]
    case Nested(ops, commit) =>
      var inner := PlainAll([levels[0]] + levels, ops);
      (if commit then inner[1 := inner[0]] else inner)[1..]
  }

  ghost function PlainAll(levels: seq<UtxoMap>, ops: seq<Op>): (r: seq<UtxoMap>)
    requires |levels| >= 2
    ensures |r| == |levels|
    decreases ops
  {
    if ops == [] then levels
    else PlainAll(Plain(levels, ops[0]), ops[1..])
  }

  /** The caller's duty, read off the plain maps: an undeclared overwrite never happens. */
  ghost predicate Lawful(levels: seq<UtxoMap>, op: Op)
    requires |levels| >= 2
    decreases op, 0
  {
    match op
    case Add(o, coin, possibleOverwrite) => !coin.IsSpent() && (possibleOverwrite || o !in levels[0])
    case Nested(ops, _) => LawfulAll([levels[0]] + levels, ops)
    case _ => true
  }

  ghost predicate LawfulAll(levels: seq<UtxoMap>, ops: seq<Op>)
    requires |levels| >= 2
    decreases ops
  {
    ops == [] || (Lawful(levels, ops[0]) && LawfulAll(Plain(levels, ops[0]), ops[1..]))
  }

  method Step(top: CoinsView, op: Op)
    requires top.Valid() && top.base != null && Lawful(top.Levels(), op)
    modifies top.Repr
    ensures top.Valid()
    ensures top.Levels() == Plain(old(top.Levels()), op)
    decreases op, 0
  {
    match op {
      case Add(o, coin, possibleOverwrite) =>
        StepAdd(top, o, coin, possibleOverwrite);
      case Spend(o) =>
        var ok, moved := top.SpendCoin(o);
      case Have(o) =>
        var have := top.HaveCoin(o);
      case Uncache(o) =>
        top.Uncache(o);
      case Flush =>
        var ok := top.Flush();
      case Nested(ops, commit) =>
        RunNested(top, ops, commit);
    }
  }

  method StepAdd(top: CoinsView, o: OutPoint, coin: Coin, possibleOverwrite: bool)
    requires top.Valid() && top.base != null && !coin.IsSpent() && (possibleOverwrite || o !in top.Visible())
    modifies top
    ensures top.Valid() && top.Below() == old(top.Below())
    ensures top.Visible() == if IsUnspendable(coin.scriptPubKey) then old(top.Visible())
            else old(top.Visible())[o := coin]
  {
    var r := top.AddCoin(o, coin, possibleOverwrite);
  }

  method RunNested(top: CoinsView, ops: seq<Op>, commit: bool)
    requires top.Valid() && top.base != null && LawfulAll([top.Visible()] + top.Levels(), ops)
    modifies top.Repr
    ensures top.Valid()
    ensures var inner := PlainAll([old(top.Visible())] + old(top.Levels()), ops);
            top.Levels() == (if commit then inner[1 := inner[0]] else inner)[1..]
    decreases ops, 1
  {
    ghost var start := [top.Visible()] + top.Levels();
    var child := new CoinsView.Over(top);
    assert child.Levels() == start;
    Run(child, ops);
    if commit {
      var ok := child.Flush();
    }
    assert top.Levels() == child.Below();
  }

  /** Every lawful run over every stack of caches shows what the same run shows on plain maps. */
  method Run(top: CoinsView, ops: seq<Op>)
    requires top.Valid() && top.base != null && LawfulAll(top.Levels(), ops)
    modifies top.Repr
    ensures top.Valid()
    ensures top.Levels() == PlainAll(old(top.Levels()), ops)
    decreases ops, 0
  {
    if ops != [] {
      Step(top, ops[0]);
      Run(top, ops[1..]);
    }
  }
}
