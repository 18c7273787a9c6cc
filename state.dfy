/**
 * The per-session queue selector of mymail/state.py. A `ReviewState` keeps
 * a shuffled queue of candidate keys, the key it is working on, that record
 * and the token of its lease. It turns "give me a record" into "a record
 * this session holds a lease on" by calling the lease manager in a loop
 * bounded by an attempt counter.
 *
 * The two listings `ensure_loaded` reads are passed in as a `Load`, with
 * `None` for a listing that raised. What the store does on each attempt of
 * `current_record` is passed in as a `plan`.
 */
module State {
  import opened Wrappers
  import opened Text
  import opened Entrada

  /** A row of `list_pending_meta`: the key fields and the lock fields as listed. */
  datatype Meta = Meta(pk: string, rk: string, lockOwner: string, lockUntil: Option<int>)

  /** A row is queued only when both key fields are non-blank. */
  predicate Usable(m: Meta)
  {
    Strip(m.pk) != "" && Strip(m.rk) != ""
  }

  function KeyOf(m: Meta): EntradaKey
  {
    EntradaKey(Strip(m.pk), Strip(m.rk))
  }

  /** `ensure_loaded`'s free test. Unlike the acquire test, it strips the owner first. */
  predicate MetaIsFree(m: Meta, now: int)
  {
    Strip(m.lockOwner) == "" || m.lockUntil.None? || m.lockUntil.value <= now
  }

  /** `all_keys`: the keys of the usable rows, in listing order. */
  function AllKeys(metas: seq<Meta>): (r: seq<EntradaKey>)
    ensures |r| <= |metas|
    ensures forall k :: k in r ==> k.partitionKey != "" && k.rowKey != ""
  {
    if metas == [] then []
    else
      var m := metas[|metas| - 1];
      AllKeys(metas[..|metas| - 1]) + if Usable(m) then [KeyOf(m)] else []
  }

  /** `available`: the keys of the usable rows that are free at `now`, in listing order. */
  function FreeKeys(metas: seq<Meta>, now: int): (r: seq<EntradaKey>)
    ensures |r| <= |metas|
  {
    if metas == [] then []
    else
      var m := metas[|metas| - 1];
      FreeKeys(metas[..|metas| - 1], now) + if Usable(m) && MetaIsFree(m, now) then [KeyOf(m)] else []
  }

  /** Every free key is also among all keys, as often. */
  lemma {:induction false} FreeKeysAmongAll(metas: seq<Meta>, now: int)
    ensures multiset(FreeKeys(metas, now)) <= multiset(AllKeys(metas))
  {
    if metas != [] {
      FreeKeysAmongAll(metas[..|metas| - 1], now);
    }
  }

  /** A usable row that is free contributes its key to the free keys. */
  lemma {:induction false} FreeRowListed(metas: seq<Meta>, now: int, i: int)
    requires 0 <= i < |metas| && Usable(metas[i]) && MetaIsFree(metas[i], now)
    ensures KeyOf(metas[i]) in FreeKeys(metas, now)
  {
    var init := metas[..|metas| - 1];
    if i < |metas| - 1 {
      assert init[i] == metas[i];
      FreeRowListed(init, now, i);
    }
  }

  /** A usable row contributes its key to all keys. */
  lemma {:induction false} UsableRowListed(metas: seq<Meta>, i: int)
    requires 0 <= i < |metas| && Usable(metas[i])
    ensures KeyOf(metas[i]) in AllKeys(metas)
  {
    var init := metas[..|metas| - 1];
    if i < |metas| - 1 {
      assert init[i] == metas[i];
      UsableRowListed(init, i);
    }
  }

  /** One more listed row extends both listings by at most its own key. */
  lemma ListingStep(metas: seq<Meta>, i: nat, now: int)
    requires i < |metas|
    ensures var m := metas[i];
      && AllKeys(metas[..i + 1]) == AllKeys(metas[..i]) + (if Usable(m) then [KeyOf(m)] else [])
      && FreeKeys(metas[..i + 1], now) == FreeKeys(metas[..i], now) + (if Usable(m) && MetaIsFree(m, now) then [KeyOf(m)] else [])
  {
    assert metas[..i + 1][..i] == metas[..i];
  }

  /** The loop of `ensure_loaded` over the listed rows. */
  method Partition(metas: seq<Meta>, now: int) returns (available: seq<EntradaKey>, allKeys: seq<EntradaKey>)
    ensures available == FreeKeys(metas, now)
    ensures allKeys == AllKeys(metas)
  {
    available, allKeys := [], [];
    var i := 0;
    while i < |metas|
      invariant 0 <= i <= |metas|
      invariant available == FreeKeys(metas[..i], now)
      invariant allKeys == AllKeys(metas[..i])
    {
      var m := metas[i];
      ListingStep(metas, i, now);
      if Usable(m) {
        var k := KeyOf(m);
        allKeys := allKeys + [k];
        if MetaIsFree(m, now) {
          available := available + [k];
        }
      }
      i := i + 1;
    }
    assert metas[..i] == metas;
  }

  /** The two listings `ensure_loaded` reads, `None` when the call raised, and the time it reads them. */
  datatype Load = Load(metas: Option<seq<Meta>>, listed: Option<seq<EntradaKey>>, now: int)

  /**
   * The keys a reload queues: the free keys if any, else all keys, else the
   * second listing; `None` when that was needed and raised.
   */
  function LoadedKeys(load: Load): Option<seq<EntradaKey>>
  {
    var metas := load.metas.GetOr([]);
    var keys := if FreeKeys(metas, load.now) != [] then FreeKeys(metas, load.now) else AllKeys(metas);
    if keys != [] then Some(keys) else load.listed
  }

  /** Free keys are preferred: one usable free row makes the reload queue exactly the free keys. */
  lemma FreeKeysPreferred(load: Load, i: int)
    requires load.metas.Some? && 0 <= i < |load.metas.value|
    requires Usable(load.metas.value[i]) && MetaIsFree(load.metas.value[i], load.now)
    ensures LoadedKeys(load) == Some(FreeKeys(load.metas.value, load.now))
  {
    FreeRowListed(load.metas.value, load.now, i);
  }

  /** With no usable free row but some usable row, the reload queues all usable keys. */
  lemma AllKeysFallback(load: Load, i: int)
    requires load.metas.Some? && 0 <= i < |load.metas.value| && Usable(load.metas.value[i])
    requires forall j :: 0 <= j < |load.metas.value| && Usable(load.metas.value[j]) ==> !MetaIsFree(load.metas.value[j], load.now)
    ensures LoadedKeys(load) == Some(AllKeys(load.metas.value))
  {
    var metas := load.metas.value;
    UsableRowListed(metas, i);
    var free := FreeKeys(metas, load.now);
    if free != [] {
      var j := FreeKeysHaveFreeRow(metas, load.now, free[0]);
      assert false;
    }
    assert AllKeys(metas) != [];
  }

  /** Each free key comes from a usable row that is free; `j` is that row. */
  lemma {:induction false} FreeKeysHaveFreeRow(metas: seq<Meta>, now: int, k: EntradaKey) returns (j: int)
    requires k in FreeKeys(metas, now)
    ensures 0 <= j < |metas| && Usable(metas[j]) && MetaIsFree(metas[j], now) && KeyOf(metas[j]) == k
  {
    var init := metas[..|metas| - 1];
    if k in FreeKeys(init, now) {
      j := FreeKeysHaveFreeRow(init, now, k);
      assert metas[j] == init[j];
    } else {
      j := |metas| - 1;
    }
  }

  /** `random.shuffle`: some permutation of the keys. */
  method Shuffle(keys: seq<EntradaKey>) returns (r: seq<EntradaKey>)
    ensures multiset(r) == multiset(keys)
  {
    assert multiset(keys) == multiset(keys);
    r :| multiset(r) == multiset(keys);
  }

  /** `[k for k in queue if k != key]`. */
  function Without(queue: seq<EntradaKey>, key: EntradaKey): (r: seq<EntradaKey>)
    ensures key !in r
    ensures forall k :: k in r <==> k in queue && k != key
    ensures |r| <= |queue|
  {
    if queue == [] then []
    else (if queue[0] == key then [] else [queue[0]]) + Without(queue[1..], key)
  }

  /** What the outcome containers receive: a discarded record or a review result. */
  datatype Outcome =
    | Descarte(user: string, record: map<string, string>)
    | Resultado(user: string, record: map<string, string>, status: string, koMymReason: string,
                reviewerNote: string, internalNote: string, multitematica: bool)

  /** The `descartes` and `resultados` containers, as one append-only list of outcomes. */
  class Archive {
    var rows: seq<Outcome>

    constructor ()
      ensures rows == []
    {
      rows := [];
    }

    /** `write_descarte` / `write_resultado`: `false` when the create raised. */
    method Write(o: Outcome, fails: bool) returns (ok: bool)
      modifies this
      ensures ok == !fails
      ensures rows == if ok then old(rows) + [o] else old(rows)
    {
      ok := !fails;
      if ok {
        rows := rows + [o];
      }
    }
  }

  /**
   * What `_drop_current` leaves after an archive write: the last call on the
   * store deletes `taken`, none before it since `before` does, the record is
   * gone whenever the delete did not raise, and only that raise or a record
   * already gone gives `Err`.
   */
  ghost predicate ArchivedThenDeleted(before: seq<Call>, after: seq<Call>, items: map<EntradaKey, Entity>,
                          taken: Option<EntradaKey>, r: Result<(), string>, deleteFails: bool)
  {
    && taken.Some?
    && |before| < |after| && after[|after| - 1] == DeleteCall(taken.value)
    && before <= after[..|after| - 1] && NoDeletes(after[|before|..|after| - 1])
    && (!deleteFails ==> taken.value !in items)
    && (r.Ok? ==> taken.value !in items)
    && (deleteFails ==> r == Err("delete_record"))
    && (r.Err? ==> r == Err("delete_record"))
  }

  /** A log that grew without deletes, then by one delete. */
  lemma DroppedAfter(before: seq<Call>, mid: seq<Call>, after: seq<Call>, key: EntradaKey)
    requires before <= mid && NoDeletes(mid[|before|..]) && after == mid + [DeleteCall(key)]
    ensures |before| < |after| && after[|after| - 1] == DeleteCall(key)
    ensures before <= after[..|after| - 1] && NoDeletes(after[|before|..|after| - 1])
  {
    assert after[..|after| - 1] == mid;
    assert after[|before|..|after| - 1] == mid[|before|..];
  }

  /** How one attempt of `current_record` ends. */
  datatype AttemptEnd = Found | Dropped | Reloaded | Exhausted

  /** What the store does during one attempt of `current_record`. */
  datatype Attempt = Attempt(
    now: int,                     // the time of this attempt
    sweepFails: bool,             // the query of `clear_expired_locks` raised
    sweep: EntradaKey -> Env,     // the store during that sweep's write-backs
    reload: Load,                 // the listings of the forced reload
    token: string,                // the `uuid4().hex` of this attempt's acquire
    acquire: Env,                 // the store during the acquire
    fetchFails: bool,             // `get_record` raised
    release: Env)                 // the store during the release after a failed fetch

  const TooManyAttempts := "No se pudo seleccionar un correo (demasiados intentos adquiriendo lock)."

  /**
   * What `select_specific` promises about the store, from `before` to `after`,
   * for a state whose current key was `cur` under token `tok`: only `key` and
   * `cur` can change; undisturbed, a record that can be taken and read is
   * selected, a lease taken for a record that cannot be read is given back,
   * and the lease on the record given up is released.
   */
  ghost predicate SelectedInStore(before: map<EntradaKey, Entity>, after: map<EntradaKey, Entity>,
                                  cur: Option<EntradaKey>, tok: string, key: EntradaKey, owner: string, now: int,
                                  ok: bool, releaseEnv: Env, acquireEnv: Env, fetchFails: bool, undoEnv: Env)
  {
    && after.Keys <= before.Keys
    && after - ({key} + KeySet(cur)) == before - ({key} + KeySet(cur))
    && (CanTake(before, cur, tok, key, owner, now, releaseEnv) && acquireEnv == Calm && !fetchFails ==> ok)
    && (!ok && CanTake(before, cur, tok, key, owner, now, releaseEnv) && acquireEnv == Calm && undoEnv == Calm ==>
          key in after && after[key].lock == NoLock)
    && (Releases(before, cur, tok, key, owner, releaseEnv) ==> cur.value in after && after[cur.value].lock == NoLock)
  }

  /** With no current key, the token is not looked at. */
  lemma SelectedFromIdle(before: map<EntradaKey, Entity>, after: map<EntradaKey, Entity>, tok: string, tok': string,
                         key: EntradaKey, owner: string, now: int,
                         ok: bool, releaseEnv: Env, acquireEnv: Env, fetchFails: bool, undoEnv: Env)
    requires SelectedInStore(before, after, None, tok, key, owner, now, ok, releaseEnv, acquireEnv, fetchFails, undoEnv)
    ensures SelectedInStore(before, after, None, tok', key, owner, now, ok, releaseEnv, acquireEnv, fetchFails, undoEnv)
  {
  }

  /** The key held in an option, as a set. */
  function KeySet(k: Option<EntradaKey>): (r: set<EntradaKey>)
    ensures forall x :: x in r <==> k == Some(x)
  {
    if k.Some? then {k.value} else {}
  }

  /** Two steps that each change only their own keys change only the keys of either. */
  lemma FrameChain(a: map<EntradaKey, Entity>, b: map<EntradaKey, Entity>, c: map<EntradaKey, Entity>,
                   x: set<EntradaKey>, y: set<EntradaKey>)
    requires a - x == b - x && b - y == c - y
    ensures a - (x + y) == c - (x + y)
  {
    forall k | k in a - (x + y)
      ensures k in c - (x + y) && (a - (x + y))[k] == (c - (x + y))[k]
    {
      assert k in a - x && k in b - y;
    }
    forall k | k in c - (x + y)
      ensures k in a - (x + y)
    {
      assert k in c - y && k in b - x;
    }
  }

  /**
   * Undisturbed, `select_specific` can lease `key` from a state whose current
   * key is `cur` under token `tok`: the record is free and not the one about
   * to be released, or it is that one, still held under this owner and token,
   * so the release frees it.
   */
  ghost predicate CanTake(items: map<EntradaKey, Entity>, cur: Option<EntradaKey>, tok: string,
                          key: EntradaKey, owner: string, now: int, releaseEnv: Env)
  {
    && !IsBlank(owner) && key in items
    && ((IsFree(items[key].lock, now) && (cur != Some(key) || tok == ""))
        || (cur == Some(key) && tok != "" && releaseEnv == Calm && Matches(items[key].lock, owner, tok)))
  }

  /** Undisturbed, `select_specific` gives back the lease on the current key `cur`, which is not `key`. */
  ghost predicate Releases(items: map<EntradaKey, Entity>, cur: Option<EntradaKey>, tok: string,
                           key: EntradaKey, owner: string, releaseEnv: Env)
  {
    && releaseEnv == Calm && !IsBlank(owner) && cur.Some? && cur.value != key && tok != ""
    && cur.value in items && Matches(items[cur.value].lock, owner, tok)
  }

  /** A release of `cur`'s lease, then a lease on `key`: only those two records change. */
  lemma SwitchedFrame(given: map<EntradaKey, Entity>, kept: map<EntradaKey, Entity>, after: map<EntradaKey, Entity>,
                      cur: Option<EntradaKey>, key: EntradaKey)
    requires kept.Keys <= given.Keys && kept - KeySet(cur) == given - KeySet(cur)
    requires after.Keys <= kept.Keys && after - {key} == kept - {key}
    ensures after.Keys <= given.Keys
    ensures after - ({key} + KeySet(cur)) == given - ({key} + KeySet(cur))
  {
    FrameChain(given, kept, after, KeySet(cur), {key});
    assert {key} + KeySet(cur) == KeySet(cur) + {key};
  }

  /** A released record other than `key` stays released while only `key`'s record changes. */
  lemma StaysReleased(kept: map<EntradaKey, Entity>, after: map<EntradaKey, Entity>, k: EntradaKey, key: EntradaKey)
    requires k != key && k in kept && kept[k].lock == NoLock && after - {key} == kept - {key}
    ensures k in after && after[k].lock == NoLock
  {
    assert k in kept - {key};
  }

  /** The session holds the lease of `key` with this token in the store. */
  ghost predicate Holds(items: map<EntradaKey, Entity>, key: EntradaKey, owner: string, token: string)
  {
    key in items && items[key].lock.owner == Strip(owner) && items[key].lock.token == token
  }

  /** A reload that finds nothing: every listing answers, but no key is queued. */
  predicate EmptyReload(load: Load)
  {
    LoadedKeys(load) == Some([])
  }

  /** The listing step of `ensure_loaded`: free keys, else all keys, else the second listing. */
  method ReloadKeys(load: Load) returns (keys: Option<seq<EntradaKey>>)
    ensures keys == LoadedKeys(load)
  {
    var metas := if load.metas.Some? then load.metas.value else [];
    var candidates: seq<EntradaKey> := [];
    if metas != [] {
      var available, allKeys := Partition(metas, load.now);
      candidates := if available != [] then available else allKeys;
    } else {
      assert FreeKeys(metas, load.now) == [] && AllKeys(metas) == [];
    }
    if candidates == [] {
      return load.listed;
    }
    return Some(candidates);
  }

  /** `try_acquire_lock` as `current_record` uses it: true when the lease on `key` is now held under `token`. */
  method AcquireLease(store: Store, key: EntradaKey, owner: string, token: string, now: int, env: Env)
    returns (ok: bool)
    requires store.Valid() && IsToken(token)
    modifies store
    ensures store.Valid()
    ensures old(store.log) <= store.log && NoDeletes(store.log[|old(store.log)|..])
    ensures store.items.Keys <= old(store.items).Keys && store.items - {key} == old(store.items) - {key}
    ensures IsBlank(owner) ==> !ok
    ensures ok ==>
      && Holds(store.items, key, owner, token) && key in old(store.items)
      && store.items[key].payload == old(store.items)[key].payload
    // undisturbed, a free record is always leased
    ensures env == Calm && !IsBlank(owner) && key in old(store.items) && IsFree(old(store.items)[key].lock, now) ==> ok
  {
    ghost var before := store.log;
    var acquired := store.TryAcquireLock(key, owner, token, LockTtlSeconds, now, env);
    LeaseCallsNoDeletes(store.log[|before|..], key);
    ok := acquired.Some?;
  }

  /**
   * The store half of `select_specific`: take the lease on `key`, then fetch
   * its record; a failed fetch gives the lease back.
   */
  method LeaseRecord(store: Store, key: EntradaKey, owner: string, token: string, now: int,
                     acquireEnv: Env, fetchFails: bool, undoEnv: Env)
    returns (r: Option<map<string, string>>)
    requires store.Valid() && IsToken(token)
    modifies store
    ensures store.Valid()
    ensures store.items.Keys <= old(store.items).Keys && store.items - {key} == old(store.items) - {key}
    ensures IsBlank(owner) ==> r.None?
    ensures r.Some? ==>
      && Holds(store.items, key, owner, token) && key in old(store.items)
      && r.value == store.items[key].payload && r.value == old(store.items)[key].payload
    // undisturbed, a free record that can be read is always taken
    ensures acquireEnv == Calm && !fetchFails && !IsBlank(owner) && key in old(store.items) &&
            IsFree(old(store.items)[key].lock, now) ==>
      r.Some?
    // undisturbed, the lease taken for a record that cannot be read is given back
    ensures r.None? && acquireEnv == Calm && undoEnv == Calm && !IsBlank(owner) && key in old(store.items) &&
            IsFree(old(store.items)[key].lock, now) ==>
      key in store.items && store.items[key].lock == NoLock
  {
    var acquired := AcquireLease(store, key, owner, token, now, acquireEnv);
    if !acquired {
      return None;
    }
    r := store.GetRecord(key, fetchFails);
    if r.None? {
      GiveBack(store, key, owner, token, undoEnv);
    }
  }

  /** `release_lock` on a lease this session holds: undisturbed, it is cleared. */
  method GiveBack(store: Store, key: EntradaKey, owner: string, token: string, env: Env)
    requires store.Valid() && IsToken(token) && !IsBlank(owner) && Holds(store.items, key, owner, token)
    modifies store
    ensures store.Valid()
    ensures store.items.Keys <= old(store.items).Keys && store.items - {key} == old(store.items) - {key}
    ensures env == Calm ==> key in store.items && store.items[key].lock == NoLock
  {
    TokenStripped(token);
    assert Matches(store.items[key].lock, owner, token);
    var _ := store.ReleaseLock(key, owner, token, env);
  }

  class ReviewState {
    var queue: seq<EntradaKey>
    var currentKey: Option<EntradaKey>
    var current: map<string, string>
    var lockToken: string
    var excelMissing: bool
    var refreshedOnce: bool

    constructor ()
      ensures queue == [] && currentKey.None? && current == map[] && lockToken == ""
      ensures !excelMissing && !refreshedOnce && ReloadFlags()
    {
      queue := [];
      currentKey := None;
      current := map[];
      lockToken := "";
      excelMissing := false;
      refreshedOnce := false;
    }

    /**
     * `_refreshed_once` stays set only after a forced reload whose listing
     * raised: a reload that succeeds clears it again.
     */
    predicate ReloadFlags()
      reads this`refreshedOnce, this`excelMissing
    {
      refreshedOnce ==> excelMissing
    }

    /** Nothing queued, nothing current and the listing did not fail: a plain `ensure_loaded` reloads. */
    predicate Idle()
      reads this
    {
      queue == [] && currentKey.None? && !excelMissing
    }

    /** The key an attempt of `current_record` works on: the current one, else the last queued. */
    function Candidate(): Option<EntradaKey>
      reads this`currentKey, this`queue
    {
      if currentKey.Some? then currentKey else if queue != [] then Some(queue[|queue| - 1]) else None
    }

    /** The token the candidate's lease is held under, `""` when the candidate is taken fresh from the queue. */
    function CandidateToken(): string
      reads this`currentKey, this`lockToken
    {
      if currentKey.Some? then lockToken else ""
    }

    /** `pending_count`: the queued keys plus the current one. */
    function PendingCount(): (n: nat)
      reads this
      ensures n >= |queue|
      ensures n == |queue| <==> currentKey.None?
      ensures currentKey.Some? ==> n == |queue| + 1
    {
      |queue| + if currentKey.Some? then 1 else 0
    }

    /** `ensure_loaded`: refills the queue when forced or idle. */
    method EnsureLoaded(force: bool, load: Load)
      modifies this
      ensures !force && !old(Idle()) ==> unchanged(this)
      ensures (force || old(Idle())) && LoadedKeys(load).None? ==>
        && excelMissing && queue == [] && currentKey.None? && current == map[]
        && lockToken == old(lockToken) && refreshedOnce == old(refreshedOnce)
      ensures (force || old(Idle())) && LoadedKeys(load).Some? ==>
        && !excelMissing && multiset(queue) == multiset(LoadedKeys(load).value)
        && currentKey.None? && current == map[] && lockToken == "" && !refreshedOnce
      ensures old(ReloadFlags()) || force || old(Idle()) ==> ReloadFlags()
    {
      if !force && (queue != [] || currentKey.Some? || excelMissing) {
        return;
      }
      var keys := ReloadKeys(load);
      if keys.None? {
        excelMissing := true;
        queue := [];
        currentKey := None;
        current := map[];
        return;
      }
      excelMissing := false;
      currentKey := None;
      current := map[];
      lockToken := "";
      refreshedOnce := false;
      queue := Shuffle(keys.value);
    }

    /** `ensure_loaded()` without `force`: a state that is not idle is left as it is. */
    method LoadIfIdle(load: Load)
      modifies this
      ensures !old(Idle()) ==> unchanged(this)
      ensures old(Idle()) ==> currentKey.None? && current == map[]
      ensures old(Idle()) && LoadedKeys(load).Some? ==> multiset(queue) == multiset(LoadedKeys(load).value)
      ensures old(ReloadFlags()) ==> ReloadFlags()
    {
      EnsureLoaded(false, load);
    }

    /** `_next_key`: pops the last queued key. */
    method NextKey() returns (k: Option<EntradaKey>)
      modifies this`queue
      ensures old(queue) == [] ==> k.None? && queue == []
      ensures old(queue) != [] ==> k == Some(old(queue)[|old(queue)| - 1]) && queue + [k.value] == old(queue)
      ensures queue <= old(queue)
    {
      if queue == [] {
        return None;
      }
      k := Some(queue[|queue| - 1]);
      queue := queue[..|queue| - 1];
    }

    /** `release_current_lock`: releases the lease and forgets the token; key and record stay. */
    method ReleaseCurrentLock(owner: string, store: Store, env: Env)
      requires store.Valid()
      modifies this`lockToken, store
      ensures store.Valid()
      ensures IsBlank(owner) || currentKey.None? || old(lockToken) == "" ==>
        lockToken == old(lockToken) && unchanged(store)
      ensures !(IsBlank(owner) || currentKey.None? || old(lockToken) == "") ==>
        && lockToken == ""
        && store.items.Keys <= old(store.items).Keys
        && store.items - {currentKey.value} == old(store.items) - {currentKey.value}
        && old(store.log) <= store.log && store.log[|old(store.log)|..] <= LeaseCalls(currentKey.value)
        && (env == Calm && currentKey.value in old(store.items) && Matches(old(store.items)[currentKey.value].lock, owner, old(lockToken))
            ==> currentKey.value in store.items && store.items[currentKey.value].lock == NoLock)
    {
      if Strip(owner) == "" || currentKey.None? || lockToken == "" {
        return;
      }
      var released := store.ReleaseLock(currentKey.value, owner, lockToken, env);
      lockToken := "";
    }

    /** `abandon_current`: forgets key, record and token; the queue is left as it is. */
    method AbandonCurrent()
      modifies this`currentKey, this`current, this`lockToken
      ensures currentKey.None? && current == map[] && lockToken == ""
    {
      currentKey := None;
      current := map[];
      lockToken := "";
    }

    /**
     * `_drop_current`: deletes the current record. Key, record and token are
     * cleared even when the delete raises; `ok` is `false` when it raised.
     */
    method DropCurrent(store: Store, deleteFails: bool) returns (ok: bool)
      modifies this`currentKey, this`current, this`lockToken, store
      ensures old(currentKey).None? ==> ok && unchanged(this) && unchanged(store)
      ensures old(currentKey).Some? ==>
        && currentKey.None? && current == map[] && lockToken == ""
        && (ok <==> !deleteFails && old(currentKey).value in old(store.items))
        && store.items == (if ok then old(store.items) - {old(currentKey).value} else old(store.items))
        && store.clock == old(store.clock)
        && store.log == old(store.log) + [DeleteCall(old(currentKey).value)]
    {
      if currentKey.None? {
        return true;
      }
      ok := store.DeleteRecord(currentKey.value, deleteFails);
      currentKey := None;
      current := map[];
      lockToken := "";
    }

    /**
     * `select_specific`: makes `key` current under a new lease. A key already
     * held, with its record, is kept as it is.
     */
    method SelectSpecific(key: EntradaKey, owner: string, load: Load, token: string, now: int, store: Store,
                          releaseEnv: Env, acquireEnv: Env, fetchFails: bool, undoEnv: Env)
      returns (ok: bool)
      requires store.Valid() && IsToken(token)
      modifies this, store
      ensures store.Valid()
      ensures IsBlank(owner) ==> !ok && unchanged(this) && unchanged(store)
      ensures !IsBlank(owner) && !old(Idle()) && old(currentKey) == Some(key) && old(lockToken) != "" && old(current) != map[] ==>
        ok && unchanged(this) && unchanged(store)
      ensures ok ==> currentKey == Some(key) && lockToken != ""
      ensures ok && !(old(currentKey) == Some(key) && old(lockToken) != "" && old(current) != map[]) ==>
        && lockToken == token
        && Holds(store.items, key, owner, token)
        && current == store.items[key].payload
        && key !in queue
        && (!old(Idle()) ==> queue == Without(old(queue), key))
      ensures !ok && !old(Idle()) ==> queue == old(queue) && currentKey == old(currentKey) && current == old(current)
      ensures old(ReloadFlags()) ==> ReloadFlags()
      ensures SelectedInStore(old(store.items), store.items, old(currentKey), old(lockToken), key, owner, now,
                              ok, releaseEnv, acquireEnv, fetchFails, undoEnv)
    {
      if Strip(owner) == "" {
        return false;
      }
      ok := LoadAndSelect(key, owner, load, token, now, store, releaseEnv, acquireEnv, fetchFails, undoEnv);
    }

    /** `select_specific` past its owner check: `ensure_loaded`, then keep or switch. */
    method LoadAndSelect(key: EntradaKey, owner: string, load: Load, token: string, now: int, store: Store,
                         releaseEnv: Env, acquireEnv: Env, fetchFails: bool, undoEnv: Env)
      returns (ok: bool)
      requires store.Valid() && IsToken(token) && !IsBlank(owner)
      modifies this, store
      ensures store.Valid()
      ensures !old(Idle()) && old(currentKey) == Some(key) && old(lockToken) != "" && old(current) != map[] ==>
        ok && unchanged(this) && unchanged(store)
      ensures ok ==> currentKey == Some(key) && lockToken != ""
      ensures ok && !(old(currentKey) == Some(key) && old(lockToken) != "" && old(current) != map[]) ==>
        && lockToken == token
        && Holds(store.items, key, owner, token)
        && current == store.items[key].payload
        && key !in queue
        && (!old(Idle()) ==> queue == Without(old(queue), key))
      ensures !ok && !old(Idle()) ==> queue == old(queue) && currentKey == old(currentKey) && current == old(current)
      ensures old(ReloadFlags()) ==> ReloadFlags()
      ensures SelectedInStore(old(store.items), store.items, old(currentKey), old(lockToken), key, owner, now,
                              ok, releaseEnv, acquireEnv, fetchFails, undoEnv)
    {
      LoadIfIdle(load);
      ghost var flags := (refreshedOnce, excelMissing);
      ok := KeepOrSwitch(key, owner, token, now, store, releaseEnv, acquireEnv, fetchFails, undoEnv,
                         old(currentKey), old(lockToken));
      assert (refreshedOnce, excelMissing) == flags;
    }

    /** `select_specific` once loaded: a key already held with its record is kept, else the state switches to it. */
    method KeepOrSwitch(key: EntradaKey, owner: string, token: string, now: int, store: Store,
                        releaseEnv: Env, acquireEnv: Env, fetchFails: bool, undoEnv: Env,
                        ghost cur: Option<EntradaKey>, ghost tok: string)
      returns (ok: bool)
      requires store.Valid() && IsToken(token)
      // the key and token `select_specific` started with: these, or none when it reloaded from idle
      requires (cur, tok) == (currentKey, lockToken) || (cur.None? && currentKey.None?)
      modifies this`queue, this`currentKey, this`current, this`lockToken, store
      ensures store.Valid()
      ensures old(currentKey) == Some(key) && old(lockToken) != "" && old(current) != map[] ==>
        ok && unchanged(this) && unchanged(store)
      ensures ok ==> currentKey == Some(key) && lockToken != ""
      ensures ok && !(old(currentKey) == Some(key) && old(lockToken) != "" && old(current) != map[]) ==>
        && lockToken == token && queue == Without(old(queue), key)
        && Holds(store.items, key, owner, token) && current == store.items[key].payload
      ensures !ok ==> queue == old(queue) && currentKey == old(currentKey) && current == old(current)
      ensures SelectedInStore(old(store.items), store.items, cur, tok, key, owner, now,
                              ok, releaseEnv, acquireEnv, fetchFails, undoEnv)
    {
      if currentKey == Some(key) && lockToken != "" && current != map[] {
        return true;
      }
      ok := SwitchTo(key, owner, token, now, store, releaseEnv, acquireEnv, fetchFails, undoEnv);
      if cur.None? {
        // a reload from idle leaves no current key and only the token may differ
        SelectedFromIdle(old(store.items), store.items, old(lockToken), tok, key, owner, now,
                         ok, releaseEnv, acquireEnv, fetchFails, undoEnv);
      }
    }

    /** The end of `select_specific`: `key` becomes current with its record and token, and leaves the queue. */
    method Install(key: EntradaKey, record: map<string, string>, token: string)
      modifies this`queue, this`currentKey, this`current, this`lockToken
      ensures queue == Without(old(queue), key) && currentKey == Some(key) && current == record && lockToken == token
    {
      queue := Without(queue, key);
      currentKey := Some(key);
      current := record;
      lockToken := token;
    }

    /** The store calls of `select_specific`'s switch: release the current lease, then lease and fetch `key`. */
    method LeaseInstead(key: EntradaKey, owner: string, token: string, now: int, store: Store,
                        releaseEnv: Env, acquireEnv: Env, fetchFails: bool, undoEnv: Env)
      returns (record: Option<map<string, string>>)
      requires store.Valid() && IsToken(token)
      modifies this`lockToken, store
      ensures store.Valid()
      ensures lockToken == if !IsBlank(owner) && currentKey.Some? then "" else old(lockToken)
      ensures record.Some? ==> Holds(store.items, key, owner, token) && record.value == store.items[key].payload
      ensures store.items.Keys <= old(store.items).Keys
      ensures store.items - ({key} + KeySet(currentKey)) == old(store.items) - ({key} + KeySet(currentKey))
      ensures CanTake(old(store.items), old(currentKey), old(lockToken), key, owner, now, releaseEnv) &&
              acquireEnv == Calm && !fetchFails ==>
        record.Some?
      ensures record.None? && CanTake(old(store.items), old(currentKey), old(lockToken), key, owner, now, releaseEnv) &&
              acquireEnv == Calm && undoEnv == Calm ==>
        key in store.items && store.items[key].lock == NoLock
      ensures Releases(old(store.items), old(currentKey), old(lockToken), key, owner, releaseEnv) ==>
        currentKey.value in store.items && store.items[currentKey.value].lock == NoLock
    {
      ghost var given := store.items;
      GiveUpCurrent(key, owner, now, store, releaseEnv);
      ghost var kept := store.items;
      record := LeaseRecord(store, key, owner, token, now, acquireEnv, fetchFails, undoEnv);
      SwitchedFrame(given, kept, store.items, currentKey, key);
      if Releases(given, currentKey, old(lockToken), key, owner, releaseEnv) {
        StaysReleased(kept, store.items, currentKey.value, key);
      }
    }

    /** The release that opens `select_specific`'s switch, as seen by the key to be leased next. */
    method GiveUpCurrent(key: EntradaKey, owner: string, now: int, store: Store, releaseEnv: Env)
      requires store.Valid()
      modifies this`lockToken, store
      ensures store.Valid()
      ensures lockToken == if !IsBlank(owner) && currentKey.Some? then "" else old(lockToken)
      ensures store.items.Keys <= old(store.items).Keys
      ensures store.items - KeySet(currentKey) == old(store.items) - KeySet(currentKey)
      ensures CanTake(old(store.items), old(currentKey), old(lockToken), key, owner, now, releaseEnv) ==>
        !IsBlank(owner) && key in store.items && IsFree(store.items[key].lock, now)
      ensures Releases(old(store.items), old(currentKey), old(lockToken), key, owner, releaseEnv) ==>
        currentKey.value in store.items && store.items[currentKey.value].lock == NoLock
    {
      ghost var before := store.items;
      ReleaseCurrentLock(owner, store, releaseEnv);
      if !IsBlank(owner) && key in before {
        if currentKey == Some(key) && old(lockToken) != "" {
          // the key asked for is the one just released
          ReleasedIsFree(owner, lockToken, now);
        } else if currentKey.Some? && old(lockToken) != "" {
          assert key in before - {currentKey.value};
        }
      }
    }

    /**
     * The second half of `select_specific`: give back the current lease, take
     * the one on `key` and make `key` current, out of the queue.
     */
    method SwitchTo(key: EntradaKey, owner: string, token: string, now: int, store: Store,
                    releaseEnv: Env, acquireEnv: Env, fetchFails: bool, undoEnv: Env)
      returns (ok: bool)
      requires store.Valid() && IsToken(token)
      modifies this`queue, this`currentKey, this`current, this`lockToken, store
      ensures store.Valid()
      ensures ok ==>
        && currentKey == Some(key) && lockToken == token && lockToken != ""
        && Holds(store.items, key, owner, token)
        && current == store.items[key].payload
        && queue == Without(old(queue), key)
      ensures !ok ==> queue == old(queue) && currentKey == old(currentKey) && current == old(current)
      ensures !ok ==> lockToken == if !IsBlank(owner) && old(currentKey).Some? then "" else old(lockToken)
      // only the record asked for and the one given up can change
      ensures store.items.Keys <= old(store.items).Keys
      ensures store.items - ({key} + KeySet(old(currentKey))) == old(store.items) - ({key} + KeySet(old(currentKey)))
      // undisturbed, a record that can be taken and read is always made current
      ensures CanTake(old(store.items), old(currentKey), old(lockToken), key, owner, now, releaseEnv) &&
              acquireEnv == Calm && !fetchFails ==>
        ok
      // undisturbed, a lease taken for a record that cannot be read is given back
      ensures !ok && CanTake(old(store.items), old(currentKey), old(lockToken), key, owner, now, releaseEnv) &&
              acquireEnv == Calm && undoEnv == Calm ==>
        key in store.items && store.items[key].lock == NoLock
      // the lease on the record given up is released
      ensures Releases(old(store.items), old(currentKey), old(lockToken), key, owner, releaseEnv) ==>
        old(currentKey).value in store.items && store.items[old(currentKey).value].lock == NoLock
    {
      var record := LeaseInstead(key, owner, token, now, store, releaseEnv, acquireEnv, fetchFails, undoEnv);
      if record.None? {
        return false;
      }
      Install(key, record.value, token);
      ok := true;
    }

    /**
     * `current_record`: the current record, first taking the next queued key
     * and its lease when needed. A candidate whose acquire fails is dropped.
     * A candidate whose fetch fails is released, then dropped. An empty queue
     * triggers one sweep and one forced reload. Only the attempt counter
     * bounds the loop, because a reload clears `refreshedOnce` again.
     * `reloaded` says whether a forced reload happened.
     */
    method CurrentRecord(owner: string, store: Store, plan: nat -> Attempt)
      returns (r: Result<map<string, string>, string>, ghost reloaded: bool)
      requires store.Valid() && ReloadFlags()
      requires forall i :: IsToken(plan(i).token)
      modifies this, store
      ensures store.Valid() && ReloadFlags()
      ensures old(store.log) <= store.log && NoDeletes(store.log[|old(store.log)|..])
      ensures store.items.Keys <= old(store.items).Keys
      ensures r.Err? ==> r.error == TooManyAttempts
      ensures r.Ok? ==> r.value == current
      ensures r.Ok? && r.value != map[] ==> currentKey.Some? && lockToken != ""
      ensures r == Ok(map[]) ==>
        (currentKey.None? && queue == [] && refreshedOnce && excelMissing) || (currentKey.Some? && lockToken != "")
      // a record handed out under a lease taken in this call is held in the store
      ensures r.Ok? && r.value != map[] && (old(currentKey).None? || old(lockToken) == "") ==>
        Holds(store.items, currentKey.value, owner, lockToken)
      ensures r.Ok? && r.value != map[] && old(currentKey).None? ==>
        currentKey.value in store.items && current == store.items[currentKey.value].payload
      // without a reload, candidates are only ever taken off the queue
      ensures !reloaded ==> queue <= old(queue)
      ensures reloaded ==> !old(refreshedOnce)
      // nothing to find: the loop spins until the counter runs out
      ensures (!old(refreshedOnce) && old(currentKey).None? && old(queue) == [] &&
               forall i :: EmptyReload(plan(i).reload)) ==> r.Err?
    {
      ghost var spinning := !refreshedOnce && currentKey.None? && queue == [] && (forall i :: EmptyReload(plan(i).reload));
      reloaded := false;
      var attempts := 0;
      while true
        invariant store.Valid() && ReloadFlags()
        invariant store.items.Keys <= old(store.items).Keys
        invariant 0 <= attempts <= 250
        invariant old(store.log) <= store.log && NoDeletes(store.log[|old(store.log)|..])
        invariant attempts == 0 ==>
          currentKey == old(currentKey) && lockToken == old(lockToken) && current == old(current)
        invariant attempts > 0 ==> currentKey.None? && current == map[]
        invariant !reloaded ==> queue <= old(queue) && refreshedOnce == old(refreshedOnce)
        invariant reloaded ==> !old(refreshedOnce)
        invariant spinning ==> currentKey.None? && queue == [] && !refreshedOnce
        invariant spinning ==> forall i :: EmptyReload(plan(i).reload)
        decreases 250 - attempts
      {
        attempts := attempts + 1;
        if attempts > 250 {
          return Err(TooManyAttempts), reloaded;
        }
        ghost var before := store.log;
        var end;
        ghost var cand;
        end, cand := TryCandidate(owner, store, plan(attempts));
        NoDeletesChain(old(store.log), before, store.log);
        match end {
          case Found => return Ok(current), reloaded;
          case Exhausted => return Ok(map[]), reloaded;
          case Reloaded => reloaded := true;
          case Dropped =>
        }
      }
    }

    /**
     * One attempt of `current_record`: take the next queued key when there is
     * no current one, then its lease, then its record.
     */
    method TryCandidate(owner: string, store: Store, step: Attempt) returns (end: AttemptEnd, ghost cand: EntradaKey)
      requires store.Valid() && IsToken(step.token) && ReloadFlags()
      modifies this, store
      ensures store.Valid() && ReloadFlags()
      ensures old(store.log) <= store.log && NoDeletes(store.log[|old(store.log)|..])
      ensures end != Reloaded ==> queue <= old(queue) && refreshedOnce == old(refreshedOnce)
      ensures end == Reloaded <==> !old(refreshedOnce) && old(currentKey).None? && old(queue) == []
      ensures end == Reloaded ==> currentKey.None? && current == map[]
      ensures end == Reloaded && EmptyReload(step.reload) ==> queue == [] && !refreshedOnce
      ensures end == Exhausted ==> currentKey.None? && current == map[] && queue == [] && refreshedOnce && excelMissing
      ensures end == Dropped ==> currentKey.None? && current == map[] && lockToken == ""
      ensures end == Found ==> currentKey.Some? && lockToken != ""
      ensures end == Found && (old(currentKey).None? || old(lockToken) == "") ==>
        Holds(store.items, currentKey.value, owner, lockToken)
      ensures end == Found && old(currentKey).None? ==>
        currentKey.value in store.items && current == store.items[currentKey.value].payload
      // only the candidate's record can change, and a dropped candidate's lease is given back
      ensures end == Found || end == Dropped ==> old(Candidate()) == Some(cand)
      ensures end == Exhausted ==> store.items == old(store.items)
      ensures store.items.Keys <= old(store.items).Keys
      ensures end == Found || end == Dropped ==> store.items - {cand} == old(store.items) - {cand}
      ensures end == Dropped && old(CandidateToken()) != "" && step.release == Calm && cand in old(store.items) &&
              Matches(old(store.items)[cand].lock, owner, old(CandidateToken())) ==>
        cand in store.items && store.items[cand].lock == NoLock
      ensures end == Dropped && old(CandidateToken()) == "" && step.acquire == Calm && step.release == Calm &&
              !IsBlank(owner) && cand in old(store.items) && IsFree(old(store.items)[cand].lock, step.now) ==>
        cand in store.items && store.items[cand].lock == NoLock
    {
      cand := EntradaKey("", "");  // named only when there is a candidate
      if currentKey.None? {
        currentKey := NextKey();
        current := map[];
        lockToken := "";
      }
      if currentKey.None? {
        end := NoCandidate(store, step);
        return;
      }
      cand := currentKey.value;
      var found := LeaseAndFetch(owner, store, step);
      end := if found then Found else Dropped;
    }

    /** The rest of an attempt on a current key: its lease when there is no token, then its record when there is none. */
    method LeaseAndFetch(owner: string, store: Store, step: Attempt) returns (found: bool)
      requires store.Valid() && IsToken(step.token) && currentKey.Some?
      modifies this`currentKey, this`current, this`lockToken, store
      ensures store.Valid()
      ensures old(store.log) <= store.log && NoDeletes(store.log[|old(store.log)|..])
      ensures !found ==> currentKey.None? && current == map[] && lockToken == ""
      ensures found ==> currentKey.Some? && lockToken != ""
      ensures found && old(lockToken) == "" ==> Holds(store.items, currentKey.value, owner, lockToken)
      ensures found && old(current) == map[] ==>
        currentKey.value in store.items && current == store.items[currentKey.value].payload
      ensures store.items.Keys <= old(store.items).Keys
      ensures store.items - {old(currentKey).value} == old(store.items) - {old(currentKey).value}
      // a dropped candidate's lease is given back: the one it held, or the one taken here
      ensures !found && old(lockToken) != "" && step.release == Calm && old(currentKey).value in old(store.items) &&
              Matches(old(store.items)[old(currentKey).value].lock, owner, old(lockToken)) ==>
        old(currentKey).value in store.items && store.items[old(currentKey).value].lock == NoLock
      ensures !found && old(lockToken) == "" && step.acquire == Calm && step.release == Calm && !IsBlank(owner) &&
              old(currentKey).value in old(store.items) && IsFree(old(store.items)[old(currentKey).value].lock, step.now) ==>
        old(currentKey).value in store.items && store.items[old(currentKey).value].lock == NoLock
    {
      ghost var k := currentKey.value;
      if lockToken == "" {
        AcquireCurrent(owner, store, step);
        if currentKey.None? {
          return false;
        }
        TokenStripped(lockToken);
        assert Matches(store.items[k].lock, owner, lockToken);
      }
      ghost var before := store.log;
      found := FetchIfMissing(owner, store, step);
      NoDeletesChain(old(store.log), before, store.log);
    }

    /** The fetch half of an attempt: a candidate without a record reads it, and is dropped when the read fails. */
    method FetchIfMissing(owner: string, store: Store, step: Attempt) returns (found: bool)
      requires store.Valid() && currentKey.Some?
      modifies this`currentKey, this`current, this`lockToken, store
      ensures store.Valid()
      ensures old(store.log) <= store.log && NoDeletes(store.log[|old(store.log)|..])
      ensures store.items.Keys <= old(store.items).Keys
      ensures store.items - {old(currentKey).value} == old(store.items) - {old(currentKey).value}
      ensures !found ==> currentKey.None? && current == map[] && lockToken == ""
      ensures found ==> currentKey == old(currentKey) && lockToken == old(lockToken) && store.items == old(store.items)
      ensures found && old(current) != map[] ==> current == old(current)
      ensures found && old(current) == map[] ==>
        currentKey.value in store.items && current == store.items[currentKey.value].payload
      ensures !found && step.release == Calm && old(currentKey).value in old(store.items) &&
              Matches(old(store.items)[old(currentKey).value].lock, owner, old(lockToken)) ==>
        old(currentKey).value in store.items && store.items[old(currentKey).value].lock == NoLock
    {
      if current == map[] {
        FetchCurrent(owner, store, step);
        found := currentKey.Some?;
      } else {
        assert store.log[|store.log|..] == [];
        found := true;
      }
    }

    /** An attempt with nothing queued: the one sweep and reload, or, once that has happened, the end of the search. */
    method NoCandidate(store: Store, step: Attempt) returns (end: AttemptEnd)
      requires store.Valid() && ReloadFlags() && currentKey.None? && current == map[] && queue == []
      modifies this, store
      ensures store.Valid() && ReloadFlags()
      ensures old(store.log) <= store.log && NoDeletes(store.log[|old(store.log)|..])
      ensures store.items.Keys <= old(store.items).Keys
      ensures end == Reloaded <==> !old(refreshedOnce)
      ensures end == Reloaded || end == Exhausted
      ensures currentKey.None? && current == map[]
      ensures end == Reloaded && EmptyReload(step.reload) ==> queue == [] && !refreshedOnce
      ensures end == Exhausted ==> unchanged(this) && unchanged(store) && excelMissing
    {
      if !refreshedOnce {
        SweepAndReload(store, step);
        return Reloaded;
      }
      assert store.log[|store.log|..] == [];
      return Exhausted;
    }

    /** The empty-queue step of `current_record`: one sweep of expired leases, then a forced reload. */
    method SweepAndReload(store: Store, step: Attempt)
      requires store.Valid()
      modifies this, store
      ensures store.Valid()
      ensures old(store.log) <= store.log && NoDeletes(store.log[|old(store.log)|..])
      ensures store.items.Keys <= old(store.items).Keys
      ensures currentKey.None? && current == map[]
      ensures EmptyReload(step.reload) ==> queue == [] && !refreshedOnce
      ensures ReloadFlags()
    {
      refreshedOnce := true;
      var cleared;
      ghost var swept;
      cleared, swept := store.ClearExpiredLocks(DefaultPartition, step.now, step.sweepFails, step.sweep);
      EnsureLoaded(true, step.reload);
    }

    /** The lease step of `current_record`: a candidate whose acquire fails is dropped. */
    method AcquireCurrent(owner: string, store: Store, step: Attempt)
      requires store.Valid() && IsToken(step.token)
      requires currentKey.Some? && lockToken == ""
      modifies this`currentKey, this`current, this`lockToken, store
      ensures store.Valid()
      ensures old(store.log) <= store.log && NoDeletes(store.log[|old(store.log)|..])
      ensures store.items.Keys <= old(store.items).Keys
      ensures store.items - {old(currentKey).value} == old(store.items) - {old(currentKey).value}
      ensures currentKey.None? ==> current == map[] && lockToken == ""
      ensures currentKey.Some? ==>
        && currentKey == old(currentKey) && current == old(current) && lockToken == step.token
        && Holds(store.items, currentKey.value, owner, lockToken)
        && currentKey.value in old(store.items)
        && store.items[currentKey.value].payload == old(store.items)[currentKey.value].payload
      ensures IsBlank(owner) ==> currentKey.None?
      // undisturbed, a free record is always leased
      ensures step.acquire == Calm && !IsBlank(owner) && old(currentKey).value in old(store.items) &&
              IsFree(old(store.items)[old(currentKey).value].lock, step.now) ==>
        currentKey.Some?
    {
      var ok := AcquireLease(store, currentKey.value, owner, step.token, step.now, step.acquire);
      if !ok {
        currentKey := None;
        current := map[];
        lockToken := "";
        return;
      }
      lockToken := step.token;
    }

    /** The fetch step of `current_record`: a candidate whose fetch fails is released, then dropped. */
    method FetchCurrent(owner: string, store: Store, step: Attempt)
      requires store.Valid()
      requires currentKey.Some? && current == map[]
      modifies this`currentKey, this`current, this`lockToken, store
      ensures store.Valid()
      ensures old(store.log) <= store.log && NoDeletes(store.log[|old(store.log)|..])
      ensures store.items.Keys <= old(store.items).Keys
      ensures store.items - {old(currentKey).value} == old(store.items) - {old(currentKey).value}
      ensures currentKey.None? <==> step.fetchFails || old(currentKey).value !in old(store.items)
      ensures currentKey.None? ==> current == map[] && lockToken == ""
      ensures currentKey.Some? ==>
        && currentKey == old(currentKey) && lockToken == old(lockToken) && store.items == old(store.items)
        && currentKey.value in store.items && current == store.items[currentKey.value].payload
      // the lease of a dropped candidate is given back
      ensures currentKey.None? && step.release == Calm && old(currentKey).value in old(store.items) &&
              Matches(old(store.items)[old(currentKey).value].lock, owner, old(lockToken)) ==>
        old(currentKey).value in store.items && store.items[old(currentKey).value].lock == NoLock
    {
      var record := store.GetRecord(currentKey.value, step.fetchFails);
      if record.None? {
        ghost var before := store.log;
        ReleaseCurrentLock(owner, store, step.release);
        if store.log != before {
          LeaseCallsNoDeletes(store.log[|before|..], currentKey.value);
        }
        NoDeletesChain(old(store.log), before, store.log);
        currentKey := None;
        current := map[];
        lockToken := "";
        return;
      }
      current := record.value;
    }

    /**
     * The tail of `skip_current` and `submit_current`: writes `row`, then
     * `_drop_current`. `failure` names the write that raised.
     */
    method ArchiveThenDrop(row: Outcome, failure: string, store: Store, archive: Archive,
                           archiveFails: bool, deleteFails: bool)
      returns (r: Result<(), string>)
      requires currentKey.Some?
      modifies this`currentKey, this`current, this`lockToken, store, archive
      ensures archiveFails ==>
        r == Err(failure) && archive.rows == old(archive.rows) && unchanged(this) && unchanged(store)
      ensures !archiveFails ==>
        && archive.rows == old(archive.rows) + [row]
        && currentKey.None? && current == map[] && lockToken == ""
        && store.clock == old(store.clock)
        && store.log == old(store.log) + [DeleteCall(old(currentKey).value)]
        && (r.Ok? <==> !deleteFails && old(currentKey).value in old(store.items))
        && store.items == (if r.Ok? then old(store.items) - {old(currentKey).value} else old(store.items))
        && (r.Err? ==> r == Err("delete_record"))
    {
      var written := archive.Write(row, archiveFails);
      if !written {
        return Err(failure);
      }
      var dropped := DropCurrent(store, deleteFails);
      r := if dropped then Ok(()) else Err("delete_record");
    }

    /**
     * `skip_current`: archives the current record as discarded, then deletes
     * it. `Err` is a raise: from `current_record`, the archive write or the
     * delete. `got` is what `current_record` returned and `taken` the key
     * whose record was archived and deleted.
     */
    method SkipCurrent(username: string, store: Store, archive: Archive, plan: nat -> Attempt,
                       archiveFails: bool, deleteFails: bool)
      returns (r: Result<(), string>, ghost got: Result<map<string, string>, string>, ghost taken: Option<EntradaKey>)
      requires store.Valid() && ReloadFlags()
      requires forall i :: IsToken(plan(i).token)
      modifies this, store, archive
      ensures store.Valid() && ReloadFlags()
      ensures archive.rows == old(archive.rows) ||
        exists record :: record != map[] && archive.rows == old(archive.rows) + [Descarte(username, record)]
      // the record is archived before it is deleted: no archive row, no delete
      ensures archive.rows == old(archive.rows) ==> old(store.log) <= store.log && NoDeletes(store.log[|old(store.log)|..])
      ensures archive.rows != old(archive.rows) ==> currentKey.None? && current == map[] && lockToken == ""
      // a raise of `current_record`, or nothing to skip
      ensures got.Err? ==> r == Err(TooManyAttempts) && archive.rows == old(archive.rows)
      ensures got == Ok(map[]) ==> r == Ok(()) && archive.rows == old(archive.rows)
      ensures (!old(refreshedOnce) && old(currentKey).None? && old(queue) == [] &&
               forall i :: EmptyReload(plan(i).reload)) ==> r == Err(TooManyAttempts)
      // a record that cannot be archived is not deleted
      ensures got.Ok? && got.value != map[] && archiveFails ==>
        r == Err("write_descarte") && archive.rows == old(archive.rows) && NoDeletes(store.log[|old(store.log)|..])
      // an archived record is deleted right after, by the last call on the store
      ensures got.Ok? && got.value != map[] && !archiveFails ==>
        && archive.rows == old(archive.rows) + [Descarte(username, got.value)]
        && ArchivedThenDeleted(old(store.log), store.log, store.items, taken, r, deleteFails)
      // a record just leased is the stored one, so the row is that record and only a raise keeps it
      ensures got.Ok? && got.value != map[] && !archiveFails && old(currentKey).None? ==>
        && (r.Ok? <==> !deleteFails)
        && (deleteFails ==> taken.value in store.items && store.items[taken.value].payload == got.value)
    {
      var record, reloaded := CurrentRecord(username, store, plan);
      got := record;
      taken := currentKey;
      if record.Err? {
        return Err(record.error), got, taken;
      }
      if record.value == map[] {
        return Ok(()), got, taken;
      }
      ghost var mid := store.log;
      r := ArchiveThenDrop(Descarte(username, record.value), "write_descarte", store, archive, archiveFails, deleteFails);
      if !archiveFails {
        DroppedAfter(old(store.log), mid, store.log, taken.value);
      }
    }

    /**
     * `submit_current`: archives the review result of the current record,
     * then deletes it; the same order and the same raises as `SkipCurrent`.
     */
    method SubmitCurrent(username: string, status: string, reviewerNote: string, internalNote: string,
                         koMymReason: string, multitematica: bool,
                         store: Store, archive: Archive, plan: nat -> Attempt, archiveFails: bool, deleteFails: bool)
      returns (r: Result<(), string>, ghost got: Result<map<string, string>, string>, ghost taken: Option<EntradaKey>)
      requires store.Valid() && ReloadFlags()
      requires forall i :: IsToken(plan(i).token)
      modifies this, store, archive
      ensures store.Valid() && ReloadFlags()
      ensures archive.rows == old(archive.rows) ||
        exists record :: record != map[] &&
          archive.rows == old(archive.rows) + [Resultado(username, record, status, koMymReason, reviewerNote, internalNote, multitematica)]
      ensures archive.rows == old(archive.rows) ==> old(store.log) <= store.log && NoDeletes(store.log[|old(store.log)|..])
      ensures archive.rows != old(archive.rows) ==> currentKey.None? && current == map[] && lockToken == ""
      ensures got.Err? ==> r == Err(TooManyAttempts) && archive.rows == old(archive.rows)
      ensures got == Ok(map[]) ==> r == Ok(()) && archive.rows == old(archive.rows)
      ensures (!old(refreshedOnce) && old(currentKey).None? && old(queue) == [] &&
               forall i :: EmptyReload(plan(i).reload)) ==> r == Err(TooManyAttempts)
      ensures got.Ok? && got.value != map[] && archiveFails ==>
        r == Err("write_resultado") && archive.rows == old(archive.rows) && NoDeletes(store.log[|old(store.log)|..])
      ensures got.Ok? && got.value != map[] && !archiveFails ==>
        && archive.rows ==
           old(archive.rows) + [Resultado(username, got.value, status, koMymReason, reviewerNote, internalNote, multitematica)]
        && ArchivedThenDeleted(old(store.log), store.log, store.items, taken, r, deleteFails)
      ensures got.Ok? && got.value != map[] && !archiveFails && old(currentKey).None? ==>
        && (r.Ok? <==> !deleteFails)
        && (deleteFails ==> taken.value in store.items && store.items[taken.value].payload == got.value)
    {
      var record, reloaded := CurrentRecord(username, store, plan);
      got := record;
      taken := currentKey;
      if record.Err? {
        return Err(record.error), got, taken;
      }
      if record.value == map[] {
        return Ok(()), got, taken;
      }
      ghost var mid := store.log;
      r := ArchiveThenDrop(Resultado(username, record.value, status, koMymReason, reviewerNote, internalNote, multitematica),
                           "write_resultado", store, archive, archiveFails, deleteFails);
      if !archiveFails {
        DroppedAfter(old(store.log), mid, store.log, taken.value);
      }
    }
  }
}
