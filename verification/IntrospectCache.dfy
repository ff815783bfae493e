/** The token introspection cache: bounded, first in first out, with a time to live, holding only
    whitelisted claims.  Keys are token digests; every section reads the clock once. */
module IntrospectCache {
  import opened Basics

  type Key = string

  datatype Claims = Claims(sub: string, exp: Option<nat>, iat: Option<nat>, role: Option<string>, extra: map<string,
      string>)

  datatype Config = Config(ttl: nat, capacity: nat, whitelist: seq<string>)

  datatype Entry = Entry(claims: Claims, cachedAt: nat)

  /** The map and the insertion queue, as a value. */
  datatype Cache = Cache(entries: map<Key, Entry>, order: seq<Key>)

  function FilterClaims(claims: Claims, whitelist: seq<string>): Claims {
    if "*" in whitelist then claims
    else claims.(extra := map k | k in claims.extra && k in whitelist :: claims.extra[k])
  }

  /** Filtering keeps the structured claims, invents nothing and is idempotent. */
  lemma FilterKeepsOnlyWhitelisted(claims: Claims, whitelist: seq<string>)
    ensures var f := FilterClaims(claims, whitelist);
            && f.(extra := claims.extra) == claims
            && (forall k :: k in f.extra <==> k in claims.extra && (k in whitelist || "*" in whitelist))
            && (forall k | k in f.extra :: f.extra[k] == claims.extra[k])
            && FilterClaims(f, whitelist) == f
  {
    var f := FilterClaims(claims, whitelist);
    assert FilterClaims(f, whitelist).extra == f.extra;
  }

  predicate Fresh(e: Entry, ttl: nat, now: nat) {
    now - e.cachedAt < ttl
  }

  /** What a lookup answers. */
  function Found(c: Cache, key: Key, ttl: nat, now: nat): Option<Claims> {
    if ttl > 0 && key in c.entries && Fresh(c.entries[key], ttl, now) then Some(c.entries[key].claims) else None
  }

  function Retained(order: seq<Key>, keys: set<Key>): seq<Key> {
    if order == [] then []
    else if order[|order| - 1] in keys then Retained(order[..|order| - 1], keys) + [order[|order| - 1]]
    else Retained(order[..|order| - 1], keys)
  }

  function Purged(c: Cache, ttl: nat, now: nat): Cache {
    var kept := map k | k in c.entries && Fresh(c.entries[k], ttl, now) :: c.entries[k];
    Cache(kept, Retained(c.order, kept.Keys))
  }

  function Max(a: nat, b: nat): nat {
    if a < b then b else a
  }

  predicate NearlyFull(c: Cache, capacity: nat) {
    |c.entries| >= Max(capacity * 9 / 10, 1)
  }

  function Without(entries: map<Key, Entry>, key: Key): map<Key, Entry> {
    map k | k in entries && k != key :: entries[k]
  }

  function MakeRoom(c: Cache, capacity: nat): Cache {
    if |c.entries| >= capacity && c.order != [] then Cache(Without(c.entries, c.order[0]), c.order[1..]) else c
  }

  function Enqueued(c: Cache, key: Key, capacity: nat): Cache {
    if key in c.entries then c
    else
      var room := MakeRoom(c, capacity);
      room.(order := room.order + [key])
  }

  function Cleaned(c: Cache, cfg: Config, now: nat): Cache {
    if NearlyFull(c, cfg.capacity) then Purged(c, cfg.ttl, now) else c
  }

  /** The write section. */
  function Stored(c: Cache, key: Key, claims: Claims, cfg: Config, now: nat): Cache {
    if cfg.ttl == 0 then c
    else
      var q := Enqueued(Cleaned(c, cfg, now), key, cfg.capacity);
      q.(entries := q.entries[key := Entry(FilterClaims(claims, cfg.whitelist), now)])
  }

  // ---- the class ----------------------------------------------------------------------------------------

  class Introspection {
    var entries: map<Key, Entry>
    var order: seq<Key>

    constructor ()
      ensures View() == Cache(map[], [])
    {
      entries := map[];
      order := [];
    }

    function View(): Cache
      reads this
    {
      Cache(entries, order)
    }

    method PurgeExpired(ttl: nat, now: nat)
      modifies this
      ensures View() == Purged(old(View()), ttl, now)
    {
      entries := map k | k in entries && Fresh(entries[k], ttl, now) :: entries[k];
      var kept: seq<Key> := [];
      for i := 0 to |order|
        invariant kept == Retained(order[..i], entries.Keys)
      {
        assert order[..i + 1][..i] == order[..i];
        if order[i] in entries {
          kept := kept + [order[i]];
        }
      }
      assert order[..|order|] == order;
      order := kept;
    }

    method Lookup(key: Key, ttl: nat, now: nat) returns (r: Option<Claims>)
      ensures r == Found(View(), key, ttl, now)
    {
      if ttl > 0 && key in entries && now - entries[key].cachedAt < ttl {
        return Some(entries[key].claims);
      }
      return None;
    }

    method Store(key: Key, claims: Claims, cfg: Config, now: nat)
      modifies this
      ensures View() == Stored(old(View()), key, claims, cfg, now)
    {
      if cfg.ttl > 0 {
        if |entries| >= Max(cfg.capacity * 9 / 10, 1) {
          PurgeExpired(cfg.ttl, now);
        }
        if key !in entries {
          if |entries| >= cfg.capacity && order != [] {
            entries := Without(entries, order[0]);
            order := order[1..];
          }
          order := order + [key];
        }
        entries := entries[key := Entry(FilterClaims(claims, cfg.whitelist), now)];
      }
    }
  }

  // ---- the queue mirrors the map --------------------------------------------------------------------------

  predicate NoDuplicates(order: seq<Key>) {
    forall i, j | 0 <= i < j < |order| :: order[i] != order[j]
  }

  ghost predicate Consistent(c: Cache, capacity: nat) {
    && NoDuplicates(c.order)
    && (forall k :: k in c.order <==> k in c.entries)
    && |c.entries| <= capacity
  }

  lemma {:induction false} QueueLength(c: Cache)
    requires NoDuplicates(c.order) && forall k :: k in c.order <==> k in c.entries
    ensures |c.order| == |c.entries|
  {
    QueueCount(c.order);
    assert c.entries.Keys == set k | k in c.order;
  }

  lemma {:induction false} QueueCount(order: seq<Key>)
    requires NoDuplicates(order)
    ensures |order| == |set k | k in order|
    decreases |order|
  {
    if order != [] {
      var init, last := order[..|order| - 1], order[|order| - 1];
      QueueCount(init);
      assert (set k | k in order) == (set k | k in init) + {last};
    }
  }

  lemma {:induction false} RetainedKeepsOrder(order: seq<Key>, keys: set<Key>)
    requires NoDuplicates(order)
    ensures NoDuplicates(Retained(order, keys))
    ensures forall k :: k in Retained(order, keys) <==> k in order && k in keys
    decreases |order|
  {
    if order != [] {
      var init, last := order[..|order| - 1], order[|order| - 1];
      RetainedKeepsOrder(init, keys);
      assert order == init + [last];
    }
  }

  lemma PurgeKeepsConsistent(c: Cache, capacity: nat, ttl: nat, now: nat)
    requires Consistent(c, capacity)
    ensures Consistent(Purged(c, ttl, now), capacity)
  {
    var p := Purged(c, ttl, now);
    RetainedKeepsOrder(c.order, p.entries.Keys);
    SubmapIsSmaller(p.entries, c.entries);
  }

  lemma SubmapIsSmaller(m: map<Key, Entry>, n: map<Key, Entry>)
    requires m.Keys <= n.Keys
    ensures |m| <= |n|
  {
    SubsetIsSmaller(m.Keys, n.Keys);
  }

  lemma {:induction false} SubsetIsSmaller(a: set<Key>, b: set<Key>)
    requires a <= b
    ensures |a| <= |b|
  {
    if a != {} {
      var x :| x in a;
      SubsetIsSmaller(a - {x}, b - {x});
    }
  }

  lemma MakeRoomKeepsConsistent(c: Cache, capacity: nat)
    requires Consistent(c, capacity) && capacity >= 1
    ensures Consistent(MakeRoom(c, capacity), capacity) && |MakeRoom(c, capacity).entries| < capacity
  {
    QueueLength(c);
    var r := MakeRoom(c, capacity);
    if |c.entries| >= capacity {
      TailMembers(c.order);
      assert c.entries.Keys == r.entries.Keys + {c.order[0]};
    }
  }

  lemma TailMembers(order: seq<Key>)
    requires order != [] && NoDuplicates(order)
    ensures NoDuplicates(order[1..])
    ensures forall k :: k in order[1..] <==> k in order && k != order[0]
  {
    assert order == [order[0]] + order[1..];
  }

  /** Every write keeps the queue free of duplicates and equal to the key set, and the size within
      the capacity. */
  lemma StoreKeepsConsistent(c: Cache, key: Key, claims: Claims, cfg: Config, now: nat)
    requires Consistent(c, cfg.capacity) && cfg.capacity >= 1
    ensures Consistent(Stored(c, key, claims, cfg, now), cfg.capacity)
  {
    hide FilterClaims;
    PurgeKeepsConsistent(c, cfg.capacity, cfg.ttl, now);
    var clean := Cleaned(c, cfg, now);
    MakeRoomKeepsConsistent(clean, cfg.capacity);
    var room := MakeRoom(clean, cfg.capacity);
    var s := Stored(c, key, claims, cfg, now);
    if cfg.ttl > 0 {
      hide Purged, MakeRoom;
      if key in clean.entries {
        assert s.entries.Keys == clean.entries.Keys;
      } else {
        EnqueueKeepsConsistent(room, key, s, cfg.capacity);
      }
    }
  }

  lemma EnqueueKeepsConsistent(room: Cache, key: Key, s: Cache, capacity: nat)
    requires Consistent(room, capacity) && |room.entries| < capacity && key !in room.entries
    requires s.order == room.order + [key] && key in s.entries && s.entries == room.entries[key := s.entries[key]]
    ensures Consistent(s, capacity)
  {
    assert s.entries.Keys == room.entries.Keys + {key};
  }

  // ---- hits -------------------------------------------------------------------------------------------------

  /** Purging never turns a later hit into a miss, nor a miss into a hit. */
  lemma PurgeKeepsHits(c: Cache, ttl: nat, now: nat, key: Key, later: nat)
    requires now <= later
    ensures Found(Purged(c, ttl, now), key, ttl, later) == Found(c, key, ttl, later)
  {
  }

  /** When a write scans: from nine tenths of the capacity on, and never an empty cache.  Then only fresh
      entries stay, and all of them; before, everything stays. */
  lemma ScansOnlyWhenNearlyFull(c: Cache, cfg: Config, now: nat)
    ensures var clean := Cleaned(c, cfg, now);
            if c.entries != map[] && 9 * cfg.capacity < 10 * (|c.entries| + 1) then
              forall k :: k in clean.entries <==> k in c.entries && now - c.entries[k].cachedAt < cfg.ttl
            else clean == c
  {
    assert c.entries != map[] <==> |c.entries| >= 1;
    assert |c.entries| >= cfg.capacity * 9 / 10 <==> 9 * cfg.capacity < 10 * (|c.entries| + 1);
  }

  /** The key a write pushes out, if any. */
  function Evicted(c: Cache, key: Key, cfg: Config, now: nat): Option<Key> {
    var clean := Cleaned(c, cfg, now);
    if cfg.ttl > 0 && key !in clean.entries && |clean.entries| >= cfg.capacity && clean.order != []
        then Some(clean.order[0])
    else None
  }

  /** A write answers its own key and leaves every other lookup as it was, except that of the key it
      evicts. */
  lemma StoreKeepsOtherHits(c: Cache, key: Key, claims: Claims, cfg: Config, now: nat, k: Key, later: nat)
    requires now <= later
    ensures var s := Stored(c, key, claims, cfg, now);
            if k == key && cfg.ttl > 0 then
              Found(s, k, cfg.ttl, later) == if later - now < cfg.ttl
                  then Some(FilterClaims(claims, cfg.whitelist)) else None
            else Evicted(c, key, cfg, now) != Some(k) ==> Found(s, k, cfg.ttl, later) == Found(c, k, cfg.ttl, later)
  {
    hide FilterClaims, NearlyFull, Retained;
    PurgeKeepsHits(c, cfg.ttl, now, k, later);
  }

  /** Live entries are evicted only as a last resort: when a write evicts, the cache holds a full
      capacity of entries that have not expired. */
  lemma EvictionOnlyWhenAllFresh(c: Cache, key: Key, cfg: Config, now: nat)
    requires cfg.capacity >= 1 && Evicted(c, key, cfg, now).Some?
    ensures var clean := Cleaned(c, cfg, now);
            && |clean.entries| >= cfg.capacity
            && (forall k | k in clean.entries ::
                k in c.entries && c.entries[k] == clean.entries[k] && Fresh(c.entries[k], cfg.ttl, now))
  {
    assert cfg.capacity * 9 / 10 <= cfg.capacity;
  }

  // ---- whole runs -------------------------------------------------------------------------------------------

  datatype WriteEvent = WriteEvent(key: Key, claims: Claims, at: nat)

  /** The cache after a sequence of writes; lookups change nothing. */
  function After(cfg: Config, events: seq<WriteEvent>): Cache {
    if events == [] then Cache(map[], [])
    else
      var e := events[|events| - 1];
      Stored(After(cfg, events[..|events| - 1]), e.key, e.claims, cfg, e.at)
  }

  /** The latest write of a key. */
  function Latest(events: seq<WriteEvent>, key: Key): Option<WriteEvent> {
    if events == [] then None
    else if events[|events| - 1].key == key then Some(events[|events| - 1])
    else Latest(events[..|events| - 1], key)
  }

  lemma {:induction false} RunIsConsistent(cfg: Config, events: seq<WriteEvent>)
    requires cfg.capacity >= 1
    ensures Consistent(After(cfg, events), cfg.capacity)
    decreases |events|
  {
    if events != [] {
      var e := events[|events| - 1];
      RunIsConsistent(cfg, events[..|events| - 1]);
      StoreKeepsConsistent(After(cfg, events[..|events| - 1]), e.key, e.claims, cfg, e.at);
    }
  }

  lemma {:induction false} EntriesAreLatest(cfg: Config, events: seq<WriteEvent>, k: Key)
    ensures k in After(cfg, events).entries ==>
              && Latest(events, k).Some?
              && After(cfg, events).entries[k] ==
                 Entry(FilterClaims(Latest(events, k).value.claims, cfg.whitelist), Latest(events, k).value.at)
    ensures cfg.ttl == 0 ==> After(cfg, events).entries == map[]
    decreases |events|
  {
    if events != [] {
      EntriesAreLatest(cfg, events[..|events| - 1], k);
      hide FilterClaims, Retained, NearlyFull;
    }
  }

  /** Over any sequence of writes a hit returns the whitelisted claims of the latest write of that
      key, and that write is younger than the time to live. */
  lemma HitIsLatestAndFresh(cfg: Config, events: seq<WriteEvent>, k: Key, now: nat)
    requires Found(After(cfg, events), k, cfg.ttl, now).Some?
    ensures Latest(events, k).Some?
    ensures Found(After(cfg, events), k, cfg.ttl, now).value ==
              FilterClaims(Latest(events, k).value.claims, cfg.whitelist)
    ensures now - Latest(events, k).value.at < cfg.ttl
  {
    EntriesAreLatest(cfg, events, k);
  }

  // ---- first in, first out ------------------------------------------------------------------------------------

  /** When each present key entered the queue, as the number of the write that put it there. */
  function EnteredAt(cfg: Config, events: seq<WriteEvent>): map<Key, nat> {
    if events == [] then map[]
    else
      var init, e := events[..|events| - 1], events[|events| - 1];
      var before, since := After(cfg, init), EnteredAt(cfg, init);
      if cfg.ttl > 0 && e.key !in Cleaned(before, cfg, e.at).entries then since[e.key := |init|] else since
  }

  ghost predicate SortedBy(order: seq<Key>, since: map<Key, nat>, bound: nat) {
    && (forall k | k in order :: k in since && since[k] < bound)
    && (forall i, j | 0 <= i < j < |order| :: since[order[i]] < since[order[j]])
  }

  lemma {:induction false} RetainedIsSorted(order: seq<Key>, keys: set<Key>, since: map<Key, nat>, bound: nat)
    requires SortedBy(order, since, bound)
    ensures SortedBy(Retained(order, keys), since, bound)
    ensures forall k | k in Retained(order, keys) :: k in order
    decreases |order|
  {
    if order != [] {
      var init, last := order[..|order| - 1], order[|order| - 1];
      assert order == init + [last];
      RetainedIsSorted(init, keys, since, bound);
      var r := Retained(init, keys);
      forall i | 0 <= i < |r|
        ensures since[r[i]] < since[last]
      {
        assert r[i] in init;
        var j :| 0 <= j < |init| && init[j] == r[i];
        assert order[j] == r[i] && order[|order| - 1] == last;
      }
    }
  }

  lemma {:induction false} QueueIsChronological(cfg: Config, events: seq<WriteEvent>)
    requires cfg.capacity >= 1
    ensures SortedBy(After(cfg, events).order, EnteredAt(cfg, events), |events|)
    decreases |events|
  {
    if events != [] {
      var init, e := events[..|events| - 1], events[|events| - 1];
      QueueIsChronological(cfg, init);
      RunIsConsistent(cfg, init);
      WriteKeepsChronology(cfg, After(cfg, init), EnteredAt(cfg, init), |init|, e);
    }
  }

  lemma WriteKeepsChronology(cfg: Config, c: Cache, since: map<Key, nat>, n: nat, e: WriteEvent)
    requires cfg.capacity >= 1 && Consistent(c, cfg.capacity) && SortedBy(c.order, since, n)
    ensures var clean := Cleaned(c, cfg, e.at);
            SortedBy(Stored(c, e.key, e.claims, cfg, e.at).order,
                     if cfg.ttl > 0 && e.key !in clean.entries then since[e.key := n] else since, n + 1)
  {
    var clean := Cleaned(c, cfg, e.at);
    PurgeKeepsConsistent(c, cfg.capacity, cfg.ttl, e.at);
    RetainedIsSorted(c.order, Purged(c, cfg.ttl, e.at).entries.Keys, since, n);
    assert SortedBy(clean.order, since, n) && Consistent(clean, cfg.capacity);
    hide Cleaned, FilterClaims, Purged, Retained, Consistent;
    if cfg.ttl > 0 && e.key !in clean.entries {
      assert e.key !in clean.order by { MembersAreKeys(clean, cfg.capacity); }
      RoomIsSorted(clean, cfg.capacity, since, n);
      hide MakeRoom, SortedBy;
      AppendIsSorted(MakeRoom(clean, cfg.capacity).order, since, n, e.key);
    }
  }

  lemma MembersAreKeys(c: Cache, capacity: nat)
    requires Consistent(c, capacity)
    ensures forall k :: k in c.order <==> k in c.entries
  {
  }

  lemma RoomIsSorted(c: Cache, capacity: nat, since: map<Key, nat>, n: nat)
    requires SortedBy(c.order, since, n)
    ensures SortedBy(MakeRoom(c, capacity).order, since, n)
    ensures forall k | k in MakeRoom(c, capacity).order :: k in c.order
  {
    assert c.order != [] ==> forall k | k in c.order[1..] :: k in c.order;
  }

  lemma AppendIsSorted(order: seq<Key>, since: map<Key, nat>, n: nat, key: Key)
    requires SortedBy(order, since, n) && key !in order
    ensures SortedBy(order + [key], since[key := n], n + 1)
  {
    forall i, j | 0 <= i < j < |order + [key]|
      ensures since[key := n][(order + [key])[i]] < since[key := n][(order + [key])[j]]
    {
      assert order[i] in order;
      if j < |order| {
        assert order[j] in order;
      }
    }
  }

  /** The evicted key is the one that entered the queue earliest of all present. */
  lemma EvictionIsFirstIn(cfg: Config, events: seq<WriteEvent>, e: WriteEvent, k: Key)
    requires cfg.capacity >= 1 && Evicted(After(cfg, events), e.key, cfg, e.at).Some?
    requires k in Cleaned(After(cfg, events), cfg, e.at).entries
    ensures var out := Evicted(After(cfg, events), e.key, cfg, e.at).value;
            var since := EnteredAt(cfg, events);
            out in since && k in since && (k == out || since[out] < since[k])
  {
    var c := After(cfg, events);
    var since := EnteredAt(cfg, events);
    RunIsConsistent(cfg, events);
    QueueIsChronological(cfg, events);
    PurgeKeepsConsistent(c, cfg.capacity, cfg.ttl, e.at);
    RetainedIsSorted(c.order, Purged(c, cfg.ttl, e.at).entries.Keys, since, |events|);
    var clean := Cleaned(c, cfg, e.at);
    assert SortedBy(clean.order, since, |events|) && Consistent(clean, cfg.capacity);
    hide Cleaned, After, EnteredAt;
    var i :| 0 <= i < |clean.order| && clean.order[i] == k;
  }
}
