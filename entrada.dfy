/**
 * The lease manager of mymail/entrada.py. Each pending record of the entrada
 * container carries four lock fields (`lock_owner`, `lock_token`,
 * `lock_until`, `lock_acquired_at`). Sessions coordinate only through those
 * fields, written back with a replace conditional on the record's ETag.
 *
 * The container is a `Store` object: a map from key to record plus the ETag
 * counter. Time is an integer `now` in seconds. A timestamp field that is
 * empty or does not parse is `None`.
 *
 * Each lease operation takes an `Env`. It says which remote calls raise and
 * what other sessions write between our calls.
 */
module Entrada {
  import opened Wrappers
  import opened Text

  const DefaultPartition := "active"
  const LockTtlSeconds := 600

  /** `EntradaKey`: the partition key and the id of one pending record. */
  datatype EntradaKey = EntradaKey(partitionKey: string, rowKey: string)

  /** The four lock fields of a record. */
  datatype Lock = Lock(owner: string, token: string, until: Option<int>, acquiredAt: Option<int>)

  /** The lock fields of a record nobody holds: all four are "". */
  const NoLock := Lock("", "", None, None)

  /** A stored record: its lock, the rest of its fields (opaque) and its ETag. */
  datatype Entity = Entity(lock: Lock, payload: map<string, string>, etag: nat)

  /** `_lock_until`: the expiry of a lease taken at `now`, at least one second later. */
  function LockUntil(now: int, ttl: int): (r: int)
    ensures r > now
    ensures ttl >= 1 ==> r == now + ttl
    ensures ttl < 1 ==> r == now + 1
  {
    now + Max(1, ttl)
  }

  /** The acquire test: no owner, no readable expiry, or an expiry already reached. */
  predicate IsFree(l: Lock, now: int)
  {
    l.owner == "" || l.until.None? || l.until.value <= now
  }

  /** The lock names this owner and token, both non-blank once stripped; expiry is not looked at. */
  predicate Matches(l: Lock, owner: string, token: string)
  {
    Strip(owner) != "" && Strip(token) != "" && l.owner == Strip(owner) && l.token == Strip(token)
  }

  /** `validate_lock`'s test on a record it read: a matching lock that expires strictly after `now`. */
  predicate Validates(l: Lock, owner: string, token: string, now: int)
  {
    Matches(l, owner, token) && l.until.Some? && l.until.value > now
  }

  /** The shape of `uuid.uuid4().hex`: 32 lower-case hexadecimal digits. */
  predicate IsToken(t: string)
  {
    |t| == 32 && forall i :: 0 <= i < |t| ==> ('0' <= t[i] <= '9') || ('a' <= t[i] <= 'f')
  }

  /** The lock `try_acquire_lock` writes for `owner`. */
  function Acquired(owner: string, token: string, ttl: int, now: int): Lock
  {
    Lock(Strip(owner), token, Some(LockUntil(now, ttl)), Some(now))
  }

  /** The lock `refresh_lock` writes back: only the expiry changes. */
  function Refreshed(l: Lock, ttl: int, now: int): Lock
  {
    l.(until := Some(LockUntil(now, ttl)))
  }

  /**
   * A fresh lease validates for its holder exactly until its expiry, and
   * until then nobody can acquire it: exclusion rests on `IsFree`.
   */
  lemma {:induction false} FreshLease(owner: string, token: string, ttl: int, now: int, t: int)
    requires !IsBlank(owner) && IsToken(token)
    ensures Validates(Acquired(owner, token, ttl, now), owner, token, t) <==> t < LockUntil(now, ttl)
    ensures !IsFree(Acquired(owner, token, ttl, now), t) <==> t < LockUntil(now, ttl)
  {
    assert !IsSpace(token[0]) && !IsSpace(token[|token| - 1]);
    StripTrimmed(token);
    var l := Acquired(owner, token, ttl, now);
    assert l.owner == Strip(owner) && l.token == Strip(token);
  }

  /** A token of the `uuid4().hex` shape is its own strip. */
  lemma TokenStripped(token: string)
    requires IsToken(token)
    ensures Strip(token) == token && token != ""
  {
    assert !IsSpace(token[0]) && !IsSpace(token[|token| - 1]);
    StripTrimmed(token);
  }

  /** A lease that validates blocks every acquire, whoever asks. */
  lemma ValidLeaseIsTaken(l: Lock, owner: string, token: string, now: int)
    requires Validates(l, owner, token, now)
    ensures !IsFree(l, now)
  {
  }

  /** A refreshed lease validates until `now + max(1, ttl)`, whatever its old expiry was. */
  lemma RefreshedLease(l: Lock, owner: string, token: string, ttl: int, now: int, t: int)
    requires Validates(l, owner, token, now)
    ensures Validates(Refreshed(l, ttl, now), owner, token, t) <==> t < LockUntil(now, ttl)
    ensures l.until.value > LockUntil(now, ttl) ==> Refreshed(l, ttl, now).until.value < l.until.value
  {
  }

  /** A released record is free and no longer matches any owner and token. */
  lemma ReleasedIsFree(owner: string, token: string, now: int)
    ensures IsFree(NoLock, now)
    ensures !Matches(NoLock, owner, token)
  {
  }

  /** The remote calls our side makes, in order. */
  datatype Call = ReadCall(key: EntradaKey) | CondReplaceCall(key: EntradaKey) | ReplaceCall(key: EntradaKey)
                | QueryCall | DeleteCall(key: EntradaKey)

  /** The most a lease operation does to one record: read, conditional replace, one re-read, one replace. */
  function LeaseCalls(key: EntradaKey): seq<Call>
  {
    [ReadCall(key), CondReplaceCall(key), ReadCall(key), ReplaceCall(key)]
  }

  /** None of these calls deletes a record. */
  predicate NoDeletes(calls: seq<Call>)
  {
    forall i :: 0 <= i < |calls| ==> !calls[i].DeleteCall?
  }

  /** Calls made one after the other, neither part deleting, delete nothing together. */
  lemma NoDeletesChain(l0: seq<Call>, l1: seq<Call>, l2: seq<Call>)
    requires l0 <= l1 <= l2 && NoDeletes(l1[|l0|..]) && NoDeletes(l2[|l1|..])
    ensures l0 <= l2 && NoDeletes(l2[|l0|..])
  {
    forall i | 0 <= i < |l2[|l0|..]| ensures !l2[|l0|..][i].DeleteCall? {
      if |l0| + i < |l1| {
        assert l2[|l0|..][i] == l1[|l0|..][i];
      } else {
        assert l2[|l0|..][i] == l2[|l1|..][|l0| + i - |l1|];
      }
    }
  }

  /** A read followed by a write-back stays within the calls of one lease operation. */
  lemma {:induction false} ReadThenWriteBack(before: seq<Call>, read: seq<Call>, after: seq<Call>, key: EntradaKey)
    requires read == before + [ReadCall(key)]
    requires after == read + [CondReplaceCall(key)]
          || after == read + [CondReplaceCall(key), ReadCall(key)]
          || after == read + [CondReplaceCall(key), ReadCall(key), ReplaceCall(key)]
    ensures before <= after && after[|before|..] <= LeaseCalls(key)
  {
    var tail := after[|before|..];
    assert tail == after[|read| - 1..];
    assert tail[0] == ReadCall(key);
    assert tail[1..] == after[|read|..];
  }

  /** A lease operation deletes nothing. */
  lemma LeaseCallsNoDeletes(calls: seq<Call>, key: EntradaKey)
    requires calls <= LeaseCalls(key)
    ensures NoDeletes(calls)
  {
  }

  /** What another session does to the record in the meantime: nothing, writes its lock fields, or deletes it. */
  datatype Rival = Quiet | Writes(lock: Lock) | Deletes

  /**
   * The store's behaviour during one lease operation on one record:
   * `readFails`, `condFails`, `rereadFails` and `writeFails` say which of our
   * calls raise (timeouts, throttling), `rival` is what lands before our
   * conditional replace and `rival2` what lands between our re-read and our
   * unconditional replace.
   */
  datatype Env = Env(readFails: bool, rival: Rival, condFails: bool, rereadFails: bool, rival2: Rival, writeFails: bool)

  /** No call raises and nobody else writes. */
  const Calm := Env(false, Quiet, false, false, Quiet, false)

  /**
   * The lost update of the fallback path. The conditional replace raised
   * without anyone having written. The re-read still sees the record free.
   * Then another session takes the lease before our unconditional replace.
   */
  predicate LostUpdate(items: map<EntradaKey, Entity>, key: EntradaKey, owner: string, now: int, env: Env)
  {
    && !IsBlank(owner) && key in items && IsFree(items[key].lock, now)
    && !env.readFails && env.rival == Quiet && env.condFails
    && !env.rereadFails && env.rival2.Writes? && !env.writeFails
  }

  /** A lease whose expiry is readable and still ahead: the only kind the sweep leaves alone. */
  predicate Unexpired(l: Lock, now: int)
  {
    l.until.Some? && l.until.value > now
  }

  /** The records the sweep's query returns: this partition, a non-empty owner. */
  function Locked(items: map<EntradaKey, Entity>, partition: string): (r: set<EntradaKey>)
    ensures forall k :: k in r <==> k in items && k.partitionKey == partition && items[k].lock.owner != ""
  {
    set k | k in items && k.partitionKey == partition && items[k].lock.owner != ""
  }

  /** The records `clear_expired_locks` sets out to clear: locked, and expired or without a readable expiry. */
  function Expired(items: map<EntradaKey, Entity>, partition: string, now: int): (r: set<EntradaKey>)
    ensures forall k :: k in r <==> k in Locked(items, partition) && !Unexpired(items[k].lock, now)
  {
    set k | k in Locked(items, partition) && !Unexpired(items[k].lock, now)
  }

  /** No key occurs twice among the rows. */
  predicate DistinctKeys(rows: seq<(EntradaKey, Entity)>)
  {
    forall i, j :: 0 <= i < j < |rows| ==> rows[i].0 != rows[j].0
  }

  /** The rows are a snapshot of exactly the records in `keys`, each once. */
  predicate Enumerates(rows: seq<(EntradaKey, Entity)>, items: map<EntradaKey, Entity>, keys: set<EntradaKey>)
  {
    && DistinctKeys(rows)
    && (forall i :: 0 <= i < |rows| ==> rows[i].0 in keys && rows[i].0 in items && rows[i].1 == items[rows[i].0])
    && (forall k :: k in keys ==> exists i :: 0 <= i < |rows| && rows[i].0 == k)
  }

  /** The keys of the rows whose lock is expired or has no readable expiry. */
  function ExpiredKeys(rows: seq<(EntradaKey, Entity)>, now: int): set<EntradaKey>
  {
    if rows == [] then {}
    else
      var last := rows[|rows| - 1];
      ExpiredKeys(rows[..|rows| - 1], now) + if Unexpired(last.1.lock, now) then {} else {last.0}
  }

  lemma {:induction false} ExpiredKeysMembers(rows: seq<(EntradaKey, Entity)>, now: int)
    ensures forall k :: k in ExpiredKeys(rows, now) <==>
      exists i :: 0 <= i < |rows| && rows[i].0 == k && !Unexpired(rows[i].1.lock, now)
  {
    if rows != [] {
      var init := rows[..|rows| - 1];
      ExpiredKeysMembers(init, now);
      forall k ensures k in ExpiredKeys(rows, now) <==>
        exists i :: 0 <= i < |rows| && rows[i].0 == k && !Unexpired(rows[i].1.lock, now)
      {
        if k in ExpiredKeys(init, now) {
          var i :| 0 <= i < |init| && init[i].0 == k && !Unexpired(init[i].1.lock, now);
          assert rows[i] == init[i];
        }
        if exists i :: 0 <= i < |rows| && rows[i].0 == k && !Unexpired(rows[i].1.lock, now) {
          var i :| 0 <= i < |rows| && rows[i].0 == k && !Unexpired(rows[i].1.lock, now);
          if i < |rows| - 1 {
            assert init[i] == rows[i];
          }
        }
      }
    }
  }

  /** How many rows have a lock expired or without a readable expiry. */
  function CountExpired(rows: seq<(EntradaKey, Entity)>, now: int): nat
  {
    if rows == [] then 0
    else CountExpired(rows[..|rows| - 1], now) + if Unexpired(rows[|rows| - 1].1.lock, now) then 0 else 1
  }

  /** With distinct keys, counting rows and counting keys agree. */
  lemma {:induction false} CountExpiredKeys(rows: seq<(EntradaKey, Entity)>, now: int)
    requires DistinctKeys(rows)
    ensures CountExpired(rows, now) == |ExpiredKeys(rows, now)|
  {
    if rows != [] {
      var init := rows[..|rows| - 1];
      assert DistinctKeys(init);
      CountExpiredKeys(init, now);
      var last := rows[|rows| - 1];
      ExpiredKeysMembers(init, now);
      assert last.0 !in ExpiredKeys(init, now);
    }
  }

  /** A subset is no larger than its superset. */
  lemma {:induction false} SubsetCard(a: set<EntradaKey>, b: set<EntradaKey>)
    requires a <= b
    ensures |a| <= |b|
    decreases b
  {
    if a != {} {
      var x :| x in a;
      SubsetCard(a - {x}, b - {x});
    }
  }

  /** Extending the rows seen by one adds that row's key and count when its lock is expired. */
  lemma ExpiredPrefix(rows: seq<(EntradaKey, Entity)>, i: int, now: int)
    requires 0 <= i < |rows|
    ensures ExpiredKeys(rows[..i + 1], now) ==
      ExpiredKeys(rows[..i], now) + if Unexpired(rows[i].1.lock, now) then {} else {rows[i].0}
    ensures CountExpired(rows[..i + 1], now) ==
      CountExpired(rows[..i], now) + if Unexpired(rows[i].1.lock, now) then 0 else 1
  {
    assert rows[..i + 1][..i] == rows[..i];
  }

  /** A snapshot of the locked records has exactly the expired ones as its expired keys. */
  lemma ExpiredKeysOfSnapshot(rows: seq<(EntradaKey, Entity)>, items: map<EntradaKey, Entity>, partition: string, now: int)
    requires Enumerates(rows, items, Locked(items, partition))
    ensures ExpiredKeys(rows, now) == Expired(items, partition, now)
  {
    ExpiredKeysMembers(rows, now);
    forall k | k in Expired(items, partition, now) ensures k in ExpiredKeys(rows, now) {
      var i :| 0 <= i < |rows| && rows[i].0 == k;
    }
  }

  /** Every record outside `keys` is as it was in `orig`. */
  ghost predicate UntouchedIn(items: map<EntradaKey, Entity>, orig: map<EntradaKey, Entity>, keys: set<EntradaKey>)
  {
    forall k :: k in orig && k !in keys ==> k in items && items[k] == orig[k]
  }

  /** Every record in `keys` is unlocked and keeps its payload from `orig`. */
  ghost predicate ClearedIn(items: map<EntradaKey, Entity>, orig: map<EntradaKey, Entity>, keys: set<EntradaKey>)
  {
    forall k :: k in keys ==> k in items && k in orig && items[k].lock == NoLock && items[k].payload == orig[k].payload
  }

  /** The two maps agree on every key but `key`. */
  ghost predicate SameElsewhere(a: map<EntradaKey, Entity>, b: map<EntradaKey, Entity>, key: EntradaKey)
  {
    forall k :: k != key ==> (k in a <==> k in b) && (k in a ==> a[k] == b[k])
  }

  lemma SameOutsideKey(a: map<EntradaKey, Entity>, b: map<EntradaKey, Entity>, key: EntradaKey)
    requires a - {key} == b - {key}
    ensures SameElsewhere(a, b, key)
  {
    forall k | k != key ensures (k in a <==> k in b) && (k in a ==> a[k] == b[k]) {
      assert k in a <==> k in a - {key};
      assert k in b <==> k in b - {key};
      if k in a {
        assert a[k] == (a - {key})[k];
      }
    }
  }

  /** One pass of the sweep keeps both of its frame facts: the row's key joins `touched` when it was expired, and `swept` when its lease was cleared. */
  lemma SweepStep(before: map<EntradaKey, Entity>, after: map<EntradaKey, Entity>, orig: map<EntradaKey, Entity>,
                  touched: set<EntradaKey>, swept: set<EntradaKey>, key: EntradaKey, ent: Entity, now: int, ok: bool)
    requires SameElsewhere(after, before, key) && key !in touched && swept <= touched && key in orig && orig[key] == ent
    requires UntouchedIn(before, orig, touched) && ClearedIn(before, orig, swept)
    requires Unexpired(ent.lock, now) ==> after == before && !ok
    requires ok ==> key in after && after[key].lock == NoLock && after[key].payload == ent.payload
    ensures var next := if Unexpired(ent.lock, now) then touched else touched + {key};
      && UntouchedIn(after, orig, next)
      && ClearedIn(after, orig, if ok then swept + {key} else swept)
      && (if ok then swept + {key} else swept) <= next
  {
  }

  /** The sweep's progress: records outside `touched` are as they were, and `swept`, part of `touched`, is cleared. */
  ghost predicate SweptSoFar(items: map<EntradaKey, Entity>, orig: map<EntradaKey, Entity>,
                             touched: set<EntradaKey>, swept: set<EntradaKey>)
  {
    UntouchedIn(items, orig, touched) && swept <= touched && ClearedIn(items, orig, swept)
  }

  /** The entrada container. */
  class Store {
    var items: map<EntradaKey, Entity>
    /** The next ETag the store hands out: every write gets a new one. */
    var clock: nat
    /** The remote calls our side made, oldest first. */
    ghost var log: seq<Call>

    /** Every stored ETag was handed out before, so any new write changes a record's ETag. */
    ghost predicate Valid()
      reads this
    {
      forall k :: k in items ==> items[k].etag < clock
    }

    constructor (initial: map<EntradaKey, Entity>, nextEtag: nat)
      requires forall k :: k in initial ==> initial[k].etag < nextEtag
      ensures Valid()
      ensures items == initial && clock == nextEtag && log == []
    {
      items := initial;
      clock := nextEtag;
      log := [];
    }

    /** `read_item`: the record, or `None` when it is missing or the call raised. */
    method Read(key: EntradaKey, fails: bool) returns (r: Option<Entity>)
      modifies this`log
      ensures r.Some? <==> !fails && key in items
      ensures r.Some? ==> r.value == items[key]
      ensures log == old(log) + [ReadCall(key)]
    {
      log := log + [ReadCall(key)];
      if fails || key !in items {
        r := None;
      } else {
        r := Some(items[key]);
      }
    }

    /** `replace_item` with `IfNotModified`: it writes only if the ETag read is still current. */
    method ReplaceIfMatch(key: EntradaKey, body: Entity, fails: bool) returns (ok: bool)
      requires Valid()
      modifies this
      ensures Valid()
      ensures ok <==> !fails && key in old(items) && old(items)[key].etag == body.etag
      ensures items == if ok then old(items)[key := body.(etag := old(clock))] else old(items)
      ensures clock == if ok then old(clock) + 1 else old(clock)
      ensures log == old(log) + [CondReplaceCall(key)]
    {
      log := log + [CondReplaceCall(key)];
      ok := !fails && key in items && items[key].etag == body.etag;
      if ok {
        items := items[key := body.(etag := clock)];
        clock := clock + 1;
      }
    }

    /** `replace_item` without condition: it overwrites whatever is stored. */
    method Replace(key: EntradaKey, body: Entity, fails: bool) returns (ok: bool)
      requires Valid()
      modifies this
      ensures Valid()
      ensures ok <==> !fails && key in old(items)
      ensures items == if ok then old(items)[key := body.(etag := old(clock))] else old(items)
      ensures clock == if ok then old(clock) + 1 else old(clock)
      ensures log == old(log) + [ReplaceCall(key)]
    {
      log := log + [ReplaceCall(key)];
      ok := !fails && key in items;
      if ok {
        items := items[key := body.(etag := clock)];
        clock := clock + 1;
      }
    }

    /** Another session's write to one record; it is not one of our calls. */
    method Interfere(key: EntradaKey, rival: Rival)
      requires Valid()
      modifies this
      ensures Valid()
      ensures log == old(log)
      ensures rival.Quiet? ==> items == old(items) && clock == old(clock)
      ensures rival.Writes? ==> items == if key in old(items)
        then old(items)[key := old(items)[key].(lock := rival.lock, etag := old(clock))] else old(items)
      ensures rival.Deletes? ==> items == old(items) - {key}
      ensures old(clock) <= clock
    {
      match rival
      case Quiet =>
      case Writes(l) =>
        if key in items {
          items := items[key := items[key].(lock := l, etag := clock)];
          clock := clock + 1;
        }
      case Deletes =>
        items := items - {key};
    }

    /** `get_record`: the record's fields, or `None` when the read raised. */
    method GetRecord(key: EntradaKey, fails: bool) returns (r: Option<map<string, string>>)
      modifies this`log
      ensures r.Some? <==> !fails && key in items
      ensures r.Some? ==> r.value == items[key].payload
      ensures log == old(log) + [ReadCall(key)]
    {
      var e := Read(key, fails);
      r := if e.Some? then Some(e.value.payload) else None;
    }

    /** `delete_record`: `false` when the call raised (a missing record raises too). */
    method DeleteRecord(key: EntradaKey, fails: bool) returns (ok: bool)
      modifies this
      ensures ok <==> !fails && key in old(items)
      ensures items == if ok then old(items) - {key} else old(items)
      ensures clock == old(clock)
      ensures log == old(log) + [DeleteCall(key)]
    {
      log := log + [DeleteCall(key)];
      ok := !fails && key in items;
      if ok {
        items := items - {key};
      }
    }

    /**
     * The write-back shared by the lease operations. A conditional replace of
     * `read` with its lock rewritten by `update` comes first. If that raised,
     * the record is read once more and rechecked with `recheck`. If it passes,
     * it is written back UNCONDITIONALLY with its lock rewritten by `update`.
     * `base` is the lock the write that landed was computed from.
     */
    method WriteBack(key: EntradaKey, read: Entity, recheck: Lock -> bool, update: Lock -> Lock, env: Env)
      returns (ok: bool, base: Lock)
      requires Valid() && key in items && items[key] == read && recheck(read.lock)
      modifies this
      ensures Valid()
      ensures items.Keys <= old(items).Keys && items - {key} == old(items) - {key}
      ensures log == old(log) + [CondReplaceCall(key)]
           || log == old(log) + [CondReplaceCall(key), ReadCall(key)]
           || log == old(log) + [CondReplaceCall(key), ReadCall(key), ReplaceCall(key)]
      ensures ok ==> key in items && items[key].lock == update(base) && items[key].payload == read.payload && recheck(base)
      ensures env.rival.Quiet? && !env.condFails ==>
        ok && base == read.lock && items == old(items)[key := read.(lock := update(read.lock), etag := old(clock))]
      ensures env.rival.Writes? && !recheck(env.rival.lock) ==> !ok && key in items && items[key].lock == env.rival.lock
      ensures env.rival.Quiet? && env.condFails && !env.rereadFails && env.rival2.Writes? && !env.writeFails ==> ok
    {
      base := read.lock;
      Interfere(key, env.rival);
      ok := ReplaceIfMatch(key, read.(lock := update(read.lock)), env.condFails);
      if !ok {
        ok, base := Fallback(key, read.payload, recheck, update, env);
      }
    }

    /** The fallback of a write-back: one re-read, a recheck, then an unconditional replace. */
    method Fallback(key: EntradaKey, payload: map<string, string>, recheck: Lock -> bool, update: Lock -> Lock, env: Env)
      returns (ok: bool, base: Lock)
      requires Valid() && (key in items ==> items[key].payload == payload)
      modifies this
      ensures Valid()
      ensures items.Keys <= old(items).Keys && items - {key} == old(items) - {key}
      ensures log == old(log) + [ReadCall(key)] || log == old(log) + [ReadCall(key), ReplaceCall(key)]
      ensures ok ==> key in items && items[key].lock == update(base) && items[key].payload == payload && recheck(base)
      ensures key in old(items) && !recheck(old(items)[key].lock) ==> !ok && items == old(items)
      ensures !env.rereadFails && key in old(items) && recheck(old(items)[key].lock) && env.rival2.Writes? && !env.writeFails ==> ok
    {
      var again := Read(key, env.rereadFails);
      if again.None? || !recheck(again.value.lock) {
        return false, NoLock;
      }
      base := again.value.lock;
      Interfere(key, env.rival2);
      ok := Replace(key, again.value.(lock := update(base)), env.writeFails);
    }

    /**
     * `try_acquire_lock`: `Some((token, until))` when this session now holds
     * the record. `token` is the fresh `uuid4().hex`.
     */
    method TryAcquireLock(key: EntradaKey, owner: string, token: string, ttl: int, now: int, env: Env)
      returns (r: Option<(string, int)>)
      requires Valid() && IsToken(token)
      modifies this
      ensures Valid()
      // only this record can change, and no record appears
      ensures items.Keys <= old(items).Keys && items - {key} == old(items) - {key}
      // at most one read, one conditional replace, one re-read and one more replace, no loop
      ensures old(log) <= log && log[|old(log)|..] <= LeaseCalls(key)
      ensures IsBlank(owner) ==> r.None? && items == old(items) && log == old(log)
      ensures !IsBlank(owner) && (env.readFails || key !in old(items)) ==>
        r.None? && items == old(items) && log == old(log) + [ReadCall(key)]
      ensures !IsBlank(owner) && !env.readFails && key in old(items) && !IsFree(old(items)[key].lock, now) ==>
        r.None? && items == old(items) && log == old(log) + [ReadCall(key)]
      ensures r.Some? ==>
        && r.value == (token, LockUntil(now, ttl))
        && key in old(items) && key in items
        && items[key].lock == Acquired(owner, token, ttl, now)
        && items[key].payload == old(items)[key].payload
      ensures env == Calm ==>
        (r.Some? <==> !IsBlank(owner) && key in old(items) && IsFree(old(items)[key].lock, now))
      ensures env == Calm && r.Some? ==>
        items == old(items)[key := Entity(Acquired(owner, token, ttl, now), old(items)[key].payload, old(clock))]
      // a session that took the lease before our conditional replace keeps it
      ensures !IsBlank(owner) && !env.readFails && key in old(items) && IsFree(old(items)[key].lock, now) &&
              env.rival.Writes? && !IsFree(env.rival.lock, now) ==>
        r.None? && key in items && items[key].lock == env.rival.lock
      // as written, the unconditional fallback overwrites a lease taken in between
      ensures LostUpdate(old(items), key, owner, now, env) ==> r.Some?
    {
      var o := Strip(owner);
      if o == "" {
        return None;
      }
      ghost var before := log;
      var ent := Read(key, env.readFails);
      if ent.None? || !IsFree(ent.value.lock, now) {
        return None;
      }
      var until := LockUntil(now, ttl);
      var mine := Lock(o, token, Some(until), Some(now));
      ghost var read := log;
      var ok, _ := WriteBack(key, ent.value, l => IsFree(l, now), _ => mine, env);
      ReadThenWriteBack(before, read, log, key);
      if !ok {
        return None;
      }
      r := Some((token, until));
    }

    /** `validate_lock`: a read only; it never writes. */
    method ValidateLock(key: EntradaKey, owner: string, token: string, now: int, readFails: bool)
      returns (ok: bool)
      modifies this`log
      ensures ok <==> !readFails && key in items && Validates(items[key].lock, owner, token, now)
      ensures log == old(log) + if IsBlank(owner) || IsBlank(token) then [] else [ReadCall(key)]
    {
      if Strip(owner) == "" || Strip(token) == "" {
        return false;
      }
      var ent := Read(key, readFails);
      ok := ent.Some? && Validates(ent.value.lock, owner, token, now);
    }

    /** `refresh_lock`: `Some(new expiry)` when the lease was still ours and is now extended. */
    method RefreshLock(key: EntradaKey, owner: string, token: string, ttl: int, now: int, env: Env)
      returns (r: Option<int>)
      requires Valid()
      modifies this
      ensures Valid()
      ensures items.Keys <= old(items).Keys && items - {key} == old(items) - {key}
      ensures old(log) <= log && log[|old(log)|..] <= LeaseCalls(key)
      ensures IsBlank(owner) || IsBlank(token) ==> r.None? && items == old(items) && log == old(log)
      ensures !(key in old(items) && !env.readFails && Validates(old(items)[key].lock, owner, token, now)) ==>
        r.None? && items == old(items)
      ensures r.Some? ==>
        && r.value == LockUntil(now, ttl)
        && key in old(items) && key in items
        && Validates(items[key].lock, owner, token, now)
        && items[key].lock.until == Some(LockUntil(now, ttl))
        && items[key].payload == old(items)[key].payload
      ensures env == Calm ==>
        (r.Some? <==> key in old(items) && Validates(old(items)[key].lock, owner, token, now))
      ensures env == Calm && r.Some? ==>
        items == old(items)[key := old(items)[key].(lock := Refreshed(old(items)[key].lock, ttl, now), etag := old(clock))]
    {
      if Strip(owner) == "" || Strip(token) == "" {
        return None;
      }
      ghost var before := log;
      var ent := Read(key, env.readFails);
      if ent.None? || !Validates(ent.value.lock, owner, token, now) {
        return None;
      }
      var newUntil := LockUntil(now, ttl);
      ghost var read := log;
      var ok, _ := WriteBack(key, ent.value, l => Validates(l, owner, token, now),
                             (l: Lock) => l.(until := Some(newUntil)), env);
      ReadThenWriteBack(before, read, log, key);
      if !ok {
        return None;
      }
      r := Some(newUntil);
    }

    /** `release_lock`: `true` when the lease's fields were cleared; an expired lease is released too. */
    method ReleaseLock(key: EntradaKey, owner: string, token: string, env: Env) returns (ok: bool)
      requires Valid()
      modifies this
      ensures Valid()
      ensures items.Keys <= old(items).Keys && items - {key} == old(items) - {key}
      ensures old(log) <= log && log[|old(log)|..] <= LeaseCalls(key)
      ensures IsBlank(owner) || IsBlank(token) ==> !ok && items == old(items) && log == old(log)
      ensures !(key in old(items) && !env.readFails && Matches(old(items)[key].lock, owner, token)) ==>
        !ok && items == old(items)
      ensures ok ==>
        key in old(items) && key in items && items[key].lock == NoLock && items[key].payload == old(items)[key].payload
      ensures env == Calm ==> (ok <==> key in old(items) && Matches(old(items)[key].lock, owner, token))
      ensures env == Calm && ok ==> items == old(items)[key := old(items)[key].(lock := NoLock, etag := old(clock))]
    {
      if Strip(owner) == "" || Strip(token) == "" {
        return false;
      }
      ghost var before := log;
      var ent := Read(key, env.readFails);
      if ent.None? || !Matches(ent.value.lock, owner, token) {
        return false;
      }
      var base;
      ghost var read := log;
      ok, base := WriteBack(key, ent.value, l => Matches(l, owner, token), _ => NoLock, env);
      ReadThenWriteBack(before, read, log, key);
    }

    /** The query of `clear_expired_locks`: a snapshot of the locked records of a partition, in no particular order. */
    method QueryLocked(partition: string, fails: bool) returns (rows: Option<seq<(EntradaKey, Entity)>>)
      modifies this`log
      ensures fails <==> rows.None?
      ensures rows.Some? ==> Enumerates(rows.value, items, Locked(items, partition))
      ensures log == old(log) + [QueryCall]
    {
      log := log + [QueryCall];
      if fails {
        return None;
      }
      var pending := Locked(items, partition);
      var out: seq<(EntradaKey, Entity)> := [];
      while pending != {}
        invariant pending <= Locked(items, partition)
        invariant DistinctKeys(out)
        invariant forall i :: 0 <= i < |out| ==>
          out[i].0 in Locked(items, partition) && out[i].0 !in pending && out[i].0 in items && out[i].1 == items[out[i].0]
        invariant forall k :: k in Locked(items, partition) ==> k in pending || exists i :: 0 <= i < |out| && out[i].0 == k
        decreases pending
      {
        var k :| k in pending;
        ghost var before := out;
        out := out + [(k, items[k])];
        pending := pending - {k};
        forall k' | k' in Locked(items, partition) && k' !in pending
          ensures exists i :: 0 <= i < |out| && out[i].0 == k'
        {
          if k' == k {
            assert out[|out| - 1].0 == k';
          } else {
            var i :| 0 <= i < |before| && before[i].0 == k';
            assert out[i].0 == k';
          }
        }
      }
      rows := Some(out);
    }

    /** One pass of the sweep's loop: an unexpired lease is skipped without a call. */
    method ClearOne(key: EntradaKey, ent: Entity, now: int, env: Env) returns (ok: bool)
      requires Valid() && key in items && items[key] == ent
      modifies this
      ensures Valid()
      ensures items.Keys <= old(items).Keys && items - {key} == old(items) - {key}
      ensures SameElsewhere(items, old(items), key)
      ensures Unexpired(ent.lock, now) ==> !ok && items == old(items)
      ensures ok ==> key in items && items[key].lock == NoLock && items[key].payload == ent.payload
      ensures env == Calm && !Unexpired(ent.lock, now) ==> ok
      ensures old(log) <= log && NoDeletes(log[|old(log)|..])
    {
      ok := false;
      ghost var start := log;
      if !Unexpired(ent.lock, now) {
        var base;
        ok, base := WriteBack(key, ent, l => !Unexpired(l, now), _ => NoLock, env);
      }
      SameOutsideKey(items, old(items), key);
      assert log == start || log[|start|..] in {[CondReplaceCall(key)], [CondReplaceCall(key), ReadCall(key)],
                                                [CondReplaceCall(key), ReadCall(key), ReplaceCall(key)]};
    }

    /**
     * `clear_expired_locks`: clears the lock of every locked record of the
     * partition whose expiry is missing or reached, and answers how many it
     * cleared. `plan` is the store's behaviour on each record's write-back.
     */
    method ClearExpiredLocks(partition: string, now: int, queryFails: bool, plan: EntradaKey -> Env)
      returns (cleared: nat, ghost swept: set<EntradaKey>)
      requires Valid()
      modifies this
      ensures Valid()
      ensures old(log) <= log && NoDeletes(log[|old(log)|..])
      ensures items.Keys <= old(items).Keys
      ensures queryFails ==> cleared == 0 && items == old(items)
      ensures cleared <= |Expired(old(items), partition, now)|
      // the count is the number of leases actually cleared, each one unlocked with its payload kept
      ensures cleared == |swept| && swept <= Expired(old(items), partition, now)
      ensures forall k :: k in swept ==>
        k in items && k in old(items) && items[k].lock == NoLock && items[k].payload == old(items)[k].payload
      // unexpired locks, unlocked records and other partitions are never touched
      ensures forall k :: k in old(items) && k !in Expired(old(items), partition, now) ==>
        k in items && items[k] == old(items)[k]
      ensures !queryFails && (forall k :: plan(k) == Calm) ==>
        && cleared == |Expired(old(items), partition, now)|
        && forall k :: k in Expired(old(items), partition, now) ==>
             k in items && items[k].lock == NoLock && items[k].payload == old(items)[k].payload
    {
      var rows := QueryLocked(partition, queryFails);
      if rows.None? {
        return 0, {};
      }
      ExpiredKeysOfSnapshot(rows.value, items, partition, now);
      CountExpiredKeys(rows.value, now);
      ghost var queried := log;
      cleared, swept := Sweep(rows.value, now, plan);
      NoDeletesChain(old(log), queried, log);
    }

    /** Row `i` of the sweep, carrying the loop's frame facts from the rows before it to the rows up to it. */
    method SweepRow(snapshot: seq<(EntradaKey, Entity)>, i: nat, now: int, env: Env, ghost orig: map<EntradaKey, Entity>,
                    ghost start: seq<Call>, ghost swept: set<EntradaKey>)
      returns (ok: bool, ghost next: set<EntradaKey>)
      requires Valid() && DistinctKeys(snapshot) && i < |snapshot| && items.Keys <= orig.Keys
      requires snapshot[i].0 in orig && orig[snapshot[i].0] == snapshot[i].1
      requires start <= log && NoDeletes(log[|start|..])
      requires SweptSoFar(items, orig, ExpiredKeys(snapshot[..i], now), swept)
      modifies this
      ensures Valid() && items.Keys <= orig.Keys
      ensures start <= log && NoDeletes(log[|start|..])
      ensures next == if ok then swept + {snapshot[i].0} else swept
      ensures |next| == |swept| + if ok then 1 else 0
      ensures SweptSoFar(items, orig, ExpiredKeys(snapshot[..i + 1], now), next)
      ensures env == Calm && swept == ExpiredKeys(snapshot[..i], now) ==> next == ExpiredKeys(snapshot[..i + 1], now)
    {
      var key, ent := snapshot[i].0, snapshot[i].1;
      ExpiredPrefix(snapshot, i, now);
      ExpiredKeysMembers(snapshot[..i], now);
      assert key !in ExpiredKeys(snapshot[..i], now);
      ghost var before, logBefore := items, log;
      ok := ClearOne(key, ent, now, env);
      SweepStep(before, items, orig, ExpiredKeys(snapshot[..i], now), swept, key, ent, now, ok);
      NoDeletesChain(start, logBefore, log);
      next := if ok then swept + {key} else swept;
    }

    /** The loop of `clear_expired_locks` over the query's snapshot. */
    method Sweep(snapshot: seq<(EntradaKey, Entity)>, now: int, plan: EntradaKey -> Env)
      returns (cleared: nat, ghost swept: set<EntradaKey>)
      requires Valid() && DistinctKeys(snapshot)
      requires forall j :: 0 <= j < |snapshot| ==> snapshot[j].0 in items && items[snapshot[j].0] == snapshot[j].1
      modifies this
      ensures Valid()
      ensures old(log) <= log && NoDeletes(log[|old(log)|..])
      ensures items.Keys <= old(items).Keys
      ensures cleared <= CountExpired(snapshot, now)
      ensures forall k :: k in old(items) && k !in ExpiredKeys(snapshot, now) ==> k in items && items[k] == old(items)[k]
      // the count is the number of leases actually cleared, each one unlocked with its payload kept
      ensures cleared == |swept| && swept <= ExpiredKeys(snapshot, now)
      ensures forall k :: k in swept ==>
        k in items && k in old(items) && items[k].lock == NoLock && items[k].payload == old(items)[k].payload
      ensures (forall k :: plan(k) == Calm) ==>
        && cleared == CountExpired(snapshot, now)
        && forall k :: k in ExpiredKeys(snapshot, now) ==>
             k in items && items[k].lock == NoLock && items[k].payload == old(items)[k].payload
    {
      ghost var calm := forall k :: plan(k) == Calm;
      swept := {};
      cleared := 0;
      var i := 0;
      while i < |snapshot|
        invariant Valid()
        invariant 0 <= i <= |snapshot|
        invariant old(log) <= log && NoDeletes(log[|old(log)|..])
        invariant items.Keys <= old(items).Keys
        invariant SweptSoFar(items, old(items), ExpiredKeys(snapshot[..i], now), swept)
        invariant cleared == |swept|
        invariant calm ==> swept == ExpiredKeys(snapshot[..i], now)
      {
        assert calm ==> plan(snapshot[i].0) == Calm;
        var ok;
        ok, swept := SweepRow(snapshot, i, now, plan(snapshot[i].0), old(items), old(log), swept);
        if ok {
          cleared := cleared + 1;
        }
        i := i + 1;
      }
      assert snapshot[..i] == snapshot;
      CountExpiredKeys(snapshot, now);
      SubsetCard(swept, ExpiredKeys(snapshot, now));
    }
  }
}
