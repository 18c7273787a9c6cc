# MYMail review queue: the record lease subsystem, in Dafny

MYMail review is a shared review queue. Many reviewer sessions pull pending
mail records from one Cosmos container ("entrada"), annotate them, archive
the outcome and delete the record. Two sessions must never work the same
record at once. The only coordination is four lock fields on each record
(`lock_owner`, `lock_token`, `lock_until`, `lock_acquired_at`), written back
with a replace that is conditional on the record's ETag.

This project models that core and proves what it promises:

- `wrappers.dfy` (`Wrappers`): `Option` and `Result`.
- `text.dfy` (`Text`): Python's `str.strip`, ASCII `lower`, `split(c, 1)`,
  string order, `"\n".join` and `split("\n")`.
- `sorting.dfy` (`Sorting`): a stable insertion sort by a key order. It stands
  in for Python's `sorted`/`list.sort`.
- `entrada.dfy` (`Entrada`): the lease manager of `mymail/entrada.py`.
  - The container is a `Store` object: a map from `EntradaKey` to a record (lock fields, opaque payload, ETag) and the next ETag to hand out.
  - A ghost log of remote calls lets contracts say how many calls an operation makes.
  - `try_acquire_lock`, `validate_lock`, `refresh_lock`, `release_lock` and `clear_expired_locks` are methods on it.
  - Each takes an `Env` that says which remote calls raise and what another session writes between our calls.
- `state.dfy` (`State`): the per-session `ReviewState` of `mymail/state.py`, as a class with the source's fields.
  - `ensure_loaded`, `pending_count`, `select_specific`, `_next_key`, `current_record` (its `while True` loop and 250-attempt counter), `release_current_lock`, `abandon_current`, `_drop_current`, `skip_current` and `submit_current`.
  - The archive of outcomes is an `Archive` object.
- `flask_text.dfy` (`FlaskText`): `normalize_multiline`, `count_by`, `_status_options` and the line parser of `_parse_internal_note` from `flask_app.py`.
- `gates.dfy` (`Gates`): the `/action` ladder and `/heartbeat` of `flask_app.py`.
  - The Flask session is a value: the handler reads it and returns the new one.
  - The store, archive and review state are the objects above.
- `revisiones.dfy` (`Revisiones`): `_split_key`, the `pk|id` review names, `save_revision`'s partition-key guard and `list_revisions`' limit.
- `tables.dfy` (`Tables`): `normalize_role`, the forced-admin rule, `create_user`, `set_user_role`, the `verify_user` ladder, `list_users` and `_list_by_day_range`'s bounds.

Time is an integer number of seconds, passed in as `now`. A timestamp
that is empty or does not parse is `None`. The lease token is a
parameter of the shape `uuid.uuid4().hex`. The shuffle is an arbitrary
permutation. The two listings `ensure_loaded` reads and the password-hash
check are parameters.

Behaviour of the code that the model keeps as written, though it may surprise:

- After an ETag conflict the code re-reads once and then writes
  **unconditionally**, rather than retrying conditionally.
  - `Entrada.Store.TryAcquireLock` states what follows: a session that takes the lease between the re-read and that write is overwritten (`LostUpdate ==> r.Some?`).
  - The same fallback is used by `refresh_lock`, `release_lock` and `clear_expired_locks`.
- A refresh sets the expiry to `now + ttl`. It is not kept monotone: `Entrada.RefreshedLease` shows it can shorten a lease.
- A missing or unparseable `lock_until` counts as free, as well as an empty owner or a past expiry.
- `current_record` hands back the cached record without re-validating its lease.
- It returns `{}` only when the queue is exhausted after the one forced reload and that reload's `list_keys` raised (`excel_missing`). A reload whose listings answer but hold no key resets `_refreshed_once`, so the next attempt reloads again. The loop then raises once the 250-attempt counter runs out.
- `_drop_current` forgets key, record and token even when the delete raises.

## Model

| member | source | states |
|---|---|---|
| Entrada.LockUntil | mymail/entrada.py:58-60 | the expiry is always strictly after `now`: `now + ttl` for a ttl of at least one second, `now + 1` otherwise |
| Entrada.FreshLease | mymail/entrada.py:196-207 | a lease just written validates for its holder exactly until its expiry, and for exactly that long the record is not free, so no other session can acquire it |
| Entrada.ValidLeaseIsTaken | mymail/entrada.py:196-200 | a lock that passes `validate_lock`'s test is never free by the acquire test (mutual exclusion) |
| Entrada.RefreshedLease | mymail/entrada.py:284-289 | a refreshed lease validates exactly until `now + ttl`; when the old expiry was later than that, the refresh shortens it |
| Entrada.ReleasedIsFree | mymail/entrada.py:343-346 | cleared lock fields are free and match no owner and token, so a second release fails |
| Entrada.Locked | mymail/entrada.py:389-391 | the sweep's query returns exactly the records of the partition with a non-empty owner |
| Entrada.Expired | mymail/entrada.py:400-403 | the records the sweep targets are exactly the locked ones whose expiry is missing or not after `now` |
| Entrada.ExpiredKeysMembers | mymail/entrada.py:400-403 | a key is swept from a snapshot exactly when some row of the snapshot has that key and a lease that is not unexpired |
| Entrada.CountExpiredKeys | mymail/entrada.py:400-438 | with distinct keys, the number of expired rows equals the number of expired keys |
| Entrada.ExpiredKeysOfSnapshot | mymail/entrada.py:386-403 | for a snapshot that enumerates the query's answer, the swept keys are exactly `Expired` of the store |
| Entrada.Store.ReplaceIfMatch | mymail/entrada.py:213-224 | the conditional replace succeeds exactly when the record exists and its ETag is the one read; it then stores the body with a fresh ETag and changes nothing else |
| Entrada.Store.GetRecord | mymail/entrada.py:154-164 | the payload is returned exactly when the read does not raise and the record exists |
| Entrada.Store.DeleteRecord | mymail/entrada.py:167-169 | the delete succeeds exactly when the record exists and the call does not raise, and then removes only that record |
| Entrada.Store.WriteBack | mymail/entrada.py:209-241 | the conditional write and its fallback touch only this record. They make at most a conditional replace, a re-read and one more replace. Unhindered, they write the update over the read lock. A rival's write that fails the recheck is kept. After a rival's write that passes, the unconditional fallback succeeds |
| Entrada.Store.Fallback | mymail/entrada.py:225-237 | the fallback re-reads once and writes unconditionally only if the recheck passes on what it re-read; a failed recheck leaves the store unchanged |
| Entrada.Store.TryAcquireLock | mymail/entrada.py:184-243 | A blank owner makes no call; a failed read or a taken record makes one read and no write. Success writes `Acquired(owner, token)` with payload unchanged and returns `(token, now + max(1, ttl))`. Undisturbed, success happens iff the record exists and is free. A rival lease taken before our replace survives. The fallback's lost update is shown. Only this record changes, and it makes at most four calls |
| Entrada.Store.ValidateLock | mymail/entrada.py:246-264 | true iff the read succeeds, the record exists, and owner and token (non-blank, stripped) match a lease expiring strictly after `now`; no write, and no call at all for a blank owner or token |
| Entrada.Store.RefreshLock | mymail/entrada.py:267-323 | Only a matching, unexpired lease is refreshed; any other call leaves the store as it was. On success only `lock_until` changes, to `now + max(1, ttl)`, which is returned. Undisturbed, it succeeds iff the lease validates |
| Entrada.Store.ReleaseLock | mymail/entrada.py:326-379 | a blank or non-matching owner or token returns false and leaves the record unchanged; a match clears all four lock fields, even for an expired lease, and keeps the payload; undisturbed, it succeeds iff owner and token match |
| Entrada.Store.QueryLocked | mymail/entrada.py:386-398 | the sweep's query returns `None` exactly when it raises, and otherwise a duplicate-free listing of the locked records of the partition |
| Entrada.Store.ClearOne | mymail/entrada.py:401-440 | an unexpired lease is skipped and nothing changes. A cleared record has `NoLock` and keeps its payload. Undisturbed, an expired lease is always cleared. Only this record changes and nothing is deleted |
| Entrada.Store.SweepRow | mymail/entrada.py:400-440 | one iteration of the sweep keeps the loop's invariant: records outside the expired rows seen so far are untouched, and a lease it clears joins the cleared set, unlocked with its payload kept; undisturbed, the cleared set stays equal to the expired rows seen |
| Entrada.Store.Sweep | mymail/entrada.py:400-441 | the count is exactly the number of leases cleared, and those are expired rows of the snapshot, each left unlocked with its payload kept. It never touches an unexpired lease, an unlocked record or a record outside the snapshot. Undisturbed, it clears every expired row and counts exactly them |
| Entrada.Store.ClearExpiredLocks | mymail/entrada.py:382-441 | a failed query returns 0 with no change. The count is exactly the number of leases cleared, each an expired lock of the partition, now unlocked with its payload kept. Unexpired leases, unlocked records and other partitions are untouched. Undisturbed, every expired lock is cleared with its payload kept and the count is exact |
| State.AllKeys | mymail/state.py:96-102 | every queued key has a non-blank partition key and row key |
| State.FreeKeysAmongAll | mymail/state.py:94-108 | every free key is also among all keys, as often |
| State.FreeRowListed | mymail/state.py:104-108 | a usable row whose lock is free puts its key among the free keys |
| State.UsableRowListed | mymail/state.py:96-102 | a usable row puts its key among all keys |
| State.FreeKeysHaveFreeRow | mymail/state.py:104-108 | each free key comes from a usable row that is free |
| State.Partition | mymail/state.py:94-108 | the listing loop builds exactly the free keys and all usable keys, in listing order |
| State.FreeKeysPreferred | mymail/state.py:110 | one usable free row makes the reload queue exactly the free keys |
| State.AllKeysFallback | mymail/state.py:110 | with no usable free row but some usable row, the reload queues all usable keys |
| State.ReloadKeys | mymail/state.py:71-120 | the keys a reload takes are free keys if any, else all keys, else the second listing, else none (the listing raised) |
| State.Shuffle | mymail/state.py:128-130 | the queue is a permutation of the keys |
| State.Without | mymail/state.py:162 | the key is removed from the queue and every other key is kept |
| State.Archive.Write | mymail/tables.py:188-251 | an archive write appends exactly the outcome row unless it raises |
| State.LeaseRecord | mymail/state.py:149-160 | a record is returned only under a lease the store now holds for this owner and token, and it is the stored payload; a blank owner gets nothing; only that record can change; undisturbed, a free record that can be read is always returned, and when the read fails the lease just taken is given back |
| State.GiveBack | mymail/state.py:156-160 | the lease taken for a record that cannot be read is released: only that record can change, and undisturbed its lock is cleared |
| State.ReviewState.GiveUpCurrent | mymail/state.py:144-147 | the release before a switch forgets the token whenever there is a current key and an owner, changes no record but the current one, leaves the key asked for takeable when it was, and clears the old lease when it matches |
| State.AcquireLease | mymail/state.py:197-204 | the acquire seen from `current_record`: success means the store now holds the lease under the given token with the payload kept; only that record can change; a blank owner never succeeds and, undisturbed, a free record always does |
| State.ReviewState.constructor | mymail/state.py:59-66 | a new state is idle: empty queue, no key, no record, no token |
| State.ReviewState.PendingCount | mymail/state.py:132-133 | the count is the queue length, plus one exactly when a key is current |
| State.ReviewState.EnsureLoaded | mymail/state.py:68-130 | Unforced on a non-idle state, nothing changes. A forced reload, or one from idle, leaves `_refreshed_once` set only with `excel_missing` set. A failed reload sets `excel_missing` and empties queue, key and record. A successful one queues a permutation of the loaded keys and clears key, record, token and `_refreshed_once` |
| State.ReviewState.LoadIfIdle | mymail/state.py:48-56 | `get_state`'s reload leaves a non-idle state unchanged and otherwise reloads |
| State.ReviewState.NextKey | mymail/state.py:168-169 | pops the last queued key, or gives none on an empty queue |
| State.ReviewState.ReleaseCurrentLock | mymail/state.py:218-225 | a no-op without owner, key or token; otherwise only the token is forgotten and only the current record's lock can change, cleared when undisturbed and matching |
| State.ReviewState.AbandonCurrent | mymail/state.py:238-241 | key, record and token are cleared and nothing else (the queue stays) |
| State.ReviewState.DropCurrent | mymail/state.py:243-252 | without a key nothing happens. Otherwise key, record and token are cleared even when the delete raises. The record is removed exactly when the delete succeeds |
| State.ReviewState.SelectSpecific | mymail/state.py:135-166 | A blank owner gets false with no change. Already holding that key with a token and a record gives true with no change. Success makes the key current under a lease the store holds, with its stored record, and takes it off the queue. When the state was not idle before the call, failure leaves queue, key and record as they were. Only the record asked for and the one given up can change. Undisturbed, a record that is free (or is the current one, held under this token) and can be read is always selected; a lease taken for a record that cannot be read is given back; and the lease on the record given up is released |
| State.ReviewState.SwitchTo | mymail/state.py:144-166 | after releasing the old lease, success leaves the new key current, leased in the store, with its record and out of the queue; failure changes neither queue nor key nor record and forgets the released token; only the two records involved can change; undisturbed, a record that can be taken and read is always made current, a lease taken for an unreadable record is given back, and the old lease is cleared |
| State.ReviewState.CurrentRecord | mymail/state.py:171-216 | The only error is `TooManyAttempts`, raised once the 250-attempt counter runs out. A non-empty record is the current one, with key and token set. A lease taken in the call is held in the store. A newly chosen record is the stored payload. `{}` comes from an exhausted queue after the one reload, with `excel_missing` set because that reload's listing raised, or from an empty cached record under a lease. No record appears in the store and `_refreshed_once` implies `excel_missing` throughout. Without a reload the queue only shrinks, and nothing is deleted. When no reload ever finds keys, it raises |
| State.ReviewState.TryCandidate | mymail/state.py:181-216 | one attempt ends in exactly one way: found (key and token set, lease held), dropped (key, record and token cleared), reloaded (only when the queue was empty and no reload had happened) or exhausted (store untouched, `excel_missing` set). Only the candidate's record can change in the store, and a dropped candidate's lease is given back when the release is undisturbed |
| State.ReviewState.LeaseAndFetch | mymail/state.py:197-216 | a candidate is leased if it has no token and fetched if it has no record; success leaves the lease held and the stored payload cached, failure drops the candidate. No other record changes and none appears. A dropped candidate's lease, held before or taken here, is given back when the store is undisturbed |
| State.ReviewState.SweepAndReload | mymail/state.py:186-194 | the empty-queue step sweeps, then force-reloads: no current key, no record appears in the store, and an empty reload leaves an empty queue with `_refreshed_once` cleared again; afterwards `_refreshed_once` implies `excel_missing` |
| State.ReviewState.NoCandidate | mymail/state.py:186-195 | with nothing queued, an attempt reloads exactly when no reload has happened yet; otherwise it ends the search with state and store untouched and `excel_missing` set |
| State.ReviewState.AcquireCurrent | mymail/state.py:197-204 | a candidate whose acquire fails is dropped and not pushed back; otherwise the token is the acquired one, the store holds the lease, and the payload is untouched. Only the candidate's record can change. A blank owner always drops the candidate; undisturbed, a free record is always leased |
| State.ReviewState.FetchCurrent | mymail/state.py:206-214 | the candidate is dropped exactly when the read raises or the record is gone. A fetched record is the stored payload and leaves the store unchanged. A dropped candidate loses record and token, only its own record can change, and its lease is given back when the release is undisturbed |
| State.ReviewState.FetchIfMissing | mymail/state.py:206-214 | a candidate with a cached record keeps it with no store call; one without reads it, and a failed read drops it and gives its lease back when undisturbed; only its own record can change |
| State.ReviewState.ArchiveThenDrop | mymail/state.py:243-259 | a failed archive write raises with its name and touches neither the state nor the store; otherwise the row is archived, key, record and token are forgotten, the one further call on the store deletes that key, and the result is `Ok` exactly when that delete removed the record |
| State.ReviewState.SkipCurrent | mymail/state.py:254-259 | a raise of `current_record` is passed on and an empty record is a no-op, neither archiving anything; a record whose `Descarte` row cannot be written is not deleted and gives `Err("write_descarte")`; otherwise exactly the row of the record `current_record` returned is archived, then the last call on the store deletes its key, the record is gone unless that delete raised, and the only other result is `Err("delete_record")`; a freshly leased record is `Ok` exactly when the delete does not raise; when no reload ever finds keys it raises |
| State.ReviewState.SubmitCurrent | mymail/state.py:261-283 | as `SkipCurrent`, with a `Resultado` row carrying the given status, notes, KO MYM reason and `multitematica` flag, and `Err("write_resultado")` when it cannot be written |
| FlaskText.ReplaceCrLf | flask_app.py:34 | replacing `\r\n` never lengthens the text or adds characters, and text without `\r` is unchanged |
| FlaskText.ReplaceCr | flask_app.py:34 | every `\r` becomes `\n` and no other character changes |
| FlaskText.CollapseNewlines | flask_app.py:35 | the result has no blank run, keeps the first character, adds no characters and leaves text without a run unchanged |
| FlaskText.QuoteOnlyIsStrip | flask_app.py:40 | the quote-only test holds exactly when the stripped line is `>` |
| FlaskText.NormalizeMultiline | flask_app.py:31-45 | the method computes `Normalized` |
| FlaskText.DropRepeatedQuotes | flask_app.py:37-44 | the loop with its `prev_quote_only` flag keeps exactly the lines of `Deduplicated` |
| FlaskText.DeduplicatedKeepsSubstantive | flask_app.py:39-44 | every line that is not quote-only is kept, in order |
| FlaskText.DeduplicatedNoRepeatedQuote | flask_app.py:39-44 | no two consecutive kept lines are both quote-only |
| FlaskText.DeduplicatedSubsequence | flask_app.py:39-44 | only input lines are kept, and when an empty line appears only at the end of the input the same holds for the output |
| FlaskText.EmptyStaysEmpty | flask_app.py:32-33 | empty input gives "" |
| FlaskText.NormalizedNoBlankRun | flask_app.py:31-45 | the output never contains `\n\n` |
| FlaskText.NormalizedNoCarriageReturn | flask_app.py:31-45 | the output never contains `\r` |
| FlaskText.NormalizedLines | flask_app.py:31-45 | the output's lines are the cleaned lines minus repeated quote-only ones: no two consecutive quote-only lines, every other line kept in order |
| FlaskText.SplitJoinedLines | flask_app.py:36-45 | splitting joined lines on `\n` gives the lines back |
| FlaskText.CountBy | flask_app.py:321-326 | every value seen appears with its number of occurrences and nothing else appears; the counts sum to the input length; pairs are ordered by descending count |
| FlaskText.Tally | flask_app.py:322-325 | the counting loop counts every value exactly, and the counts sum to the input length |
| FlaskText.Pairs | flask_app.py:326 | the pairs list each counted key once with its count and their total is the sum of the counts |
| FlaskText.TotalSorted | flask_app.py:326 | sorting by count keeps the total |
| FlaskText.MoreFrequentTotalPreorder | flask_app.py:326 | the descending-count order is total and transitive |
| FlaskText.Rank | flask_app.py:404-408 | a preferred status ranks by its position in the fixed list; every other status ranks 10000 |
| FlaskText.StatusLeTotalPreorder | flask_app.py:408 | the `(rank, status)` key order is total and transitive |
| FlaskText.Stripped | flask_app.py:405 | each status is stripped, position by position |
| FlaskText.Found | flask_app.py:405-406 | the distinct non-blank values, each once |
| FlaskText.StatusOptionsProperties | flask_app.py:403-408 | the options are exactly the non-blank stripped statuses seen, each once, sorted by the `(rank, status)` key |
| FlaskText.StrippedMembers | flask_app.py:405 | a value is among the stripped statuses exactly when some status strips to it |
| FlaskText.PreferredFirst | flask_app.py:404-408 | a preferred status is listed before any other, and preferred ones keep their fixed order |
| FlaskText.BreakPieces | flask_app.py:392 | `splitlines` gives at least one piece and no piece holds a line break |
| FlaskText.BreakPiecesJoined | flask_app.py:392 | breaking lines joined with `\n` gives the lines back |
| FlaskText.NonBlankLines | flask_app.py:392 | only non-blank lines are kept, each stripped |
| FlaskText.LinePair | flask_app.py:395-400 | a line gives a pair exactly when it holds `:` or `=`; both sides come out stripped, and a line with `:` splits at its first `:` so the key holds none |
| FlaskText.ParseLines | flask_app.py:393-401 | the loop collects exactly the pairs of the lines that hold a separator, in order |
| FlaskText.ParseInternalNote | flask_app.py:379-401 | the method computes `NoteReading`: none for blank text, the JSON branch's pairs when it applies, otherwise the line pairs or none |
| FlaskText.NoteLineParses | flask_app.py:395-397 | a `key:value` line of a stripped key without `:` and a stripped value parses back to that pair |
| FlaskText.NoteRoundTrip | flask_app.py:379-401 | a note written one `key:value` line per pair is read back as exactly those pairs when the JSON branch gives nothing; text in braces that parses as JSON is read as JSON instead |
| Gates.StatusOf | flask_app.py:604 | a missing status reads as `Pendiente`; a given one is kept |
| Gates.Precheck | flask_app.py:596-629 | A request goes on to the lease check exactly when it is authenticated, is a save or skip, is not a non-skip `Pendiente` and carries a complete lock. Any block before that is `pendiente` or `missing_lock`. An unknown action is reported only after the `Pendiente` test |
| Gates.SaveRule | flask_app.py:661-681 | a save passes exactly when a KO MYM has a non-blank detail and a status starting with KO, or DUDA or FDS, has a non-blank comment |
| Gates.SavedKoMymIsExplained | flask_app.py:661-681 | a saved KO MYM carries both its detail and a reviewer comment |
| Gates.Action | flask_app.py:595-725 | Unauthenticated, it goes to login with nothing touched. A block decided before any store call changes neither store nor archive. A lease that no longer validates drops the session's lock, abandons the state's record and writes nothing. Otherwise the comment rules apply, then the outcome is archived before the record is deleted (`Saved`) |
| Gates.Leased | flask_app.py:631-659 | the validation step: a lease that fails `validate_lock` drops the claim, abandons the record and leaves store and archive unchanged |
| Gates.Save | flask_app.py:661-721 | A missing comment blocks with nothing written. A completed save or skip archives exactly one row of the stored record, then deletes the record and drops the session lock. A failed delete leaves the row archived. No other failure writes anything |
| Gates.Commit | flask_app.py:683-711 | the record is fetched, its outcome archived, then it is deleted; completion happens exactly when all three calls succeed, and the delete happens only after the archive write |
| Gates.ResetState | mymail/state.py:38-45 | `reset_state` adds no record and changes no record other than the state's current one; without a current key, a token or an owner nothing changes; otherwise the token is forgotten and, undisturbed, the lease it names is cleared in the store |
| Gates.Code | flask_app.py:727-747 | the heartbeat answers with 200, 204, 401 or 409 only |
| Gates.Heartbeat | flask_app.py:727-747 | 401 without authentication and 204 without a complete lock, touching nothing. 409 drops the lock and its expiry from the session. A granted refresh returns `(now + 600) * 1000` ms of a lease that validates. Undisturbed, it is granted iff the lease validates. A lease that does not validate is never refreshed |
| Revisiones.SplitKey | mymail/revisiones.py:19-29 | blank input is an error. Otherwise both parts are trimmed (no leading or trailing blanks) and the id is non-empty. A partition key has no `\|` and comes from a name with one. An empty partition key leaves the stripped name as id, and a name without `\|` gives `("", stripped name)` |
| Revisiones.BlobName | mymail/revisiones.py:101 | `pk\|id` when both are non-empty, else the id |
| Revisiones.FetchedBlobName | mymail/revisiones.py:126-129 | a fetched review is named `pk\|id` when both fields are non-blank, else by the requested name |
| Revisiones.SplitKeyParts | mymail/revisiones.py:19-29 | a name holding `\|` splits at its first `\|` into the two stripped sides when both are non-blank, and otherwise gives `("", stripped name)` |
| Revisiones.SplitKeyBlobName | mymail/revisiones.py:19-29 | for a trimmed non-empty key without `\|` in pk, splitting `pk\|id` gives `(pk, id)` back |
| Revisiones.ListedNameRoundTrip | mymail/revisiones.py:98-101 | a review listed with both key fields can be split back to those (stripped) fields |
| Revisiones.RevisionLookup | mymail/revisiones.py:106-122 | blank names are errors; a name with a partition key is a point read on non-empty key parts; a name without `\|` is a query by the stripped id |
| Revisiones.SaveTarget | mymail/revisiones.py:43-46 | a save goes ahead only with a non-empty partition key and id; a name without `\|` is refused before the store is touched |
| Revisiones.SaveListedRevision | mymail/revisiones.py:43-46 | a review saved under the name it was listed with is written back to the row it came from |
| Revisiones.ListLimit | mymail/revisiones.py:77 | the page size is at least 1 and equals the requested limit unless that was below 1 |
| Tables.NormalizeRole | mymail/tables.py:47-55 | the result is always `Revisor` or `Administrador`; blank gives `Revisor`; it is `Administrador` exactly for admin, administrador or administrator in any case |
| Tables.RevisorIsNormal | mymail/tables.py:53-55 | `Revisor` normalises to itself |
| Tables.AdminIsNormal | mymail/tables.py:51-52 | `Administrador` normalises to itself |
| Tables.NormalizeRoleFixesRoles | mymail/tables.py:47-55 | both stored roles are fixed points of normalisation |
| Tables.StoredRole | mymail/tables.py:66-68 | the user named admin (any case) always gets `Administrador`; everyone else gets the normalised requested role |
| Tables.CreateUser | mymail/tables.py:58-63 | fails exactly on a blank username or an empty password |
| Tables.CreateUserWrites | mymail/tables.py:58-79 | creation adds or replaces only the stripped username's document, with the hash, the stored role and active |
| Tables.SetUserRoleAsWritten | mymail/tables.py:82-85 | fails exactly on a blank username |
| Tables.SetUserRoleAsWrittenWrites | mymail/tables.py:82-90 | as written, the upsert leaves a document holding only the role: no password hash, no active flag |
| Tables.SetUserRole | mymail/tables.py:82-85 | fails exactly on a blank username |
| Tables.SetUserRoleWrites | mymail/tables.py:82-90 | the corrected update sets only the role (forced admin included) of that user and leaves every other field and user unchanged |
| Tables.ReadUser | mymail/tables.py:137-142 | the read gives the document exactly when it does not raise and the user exists |
| Tables.Login | mymail/tables.py:144-154 | The reasons are ordered: `missing`, then `not_found`, then `inactive`, then `invalid`, which is given exactly when the stored hash is empty or does not check. Success needs a present user that is not inactive, with a non-empty hash that checks. The role returned is the normalised stored role with admin forced |
| Tables.VerifyUser | mymail/tables.py:127-154 | `missing` exactly for a blank username or empty password; `not_found` exactly when the read raises or the user is absent; `inactive` exactly for a stored false; `invalid` exactly for an active user whose hash is empty or does not check; success exactly for a non-empty hash that checks, with the normalised role and admin forced |
| Tables.DocLogsIn | mymail/tables.py:144-154 | an active document with a checking hash and a stored role logs in with that role |
| Tables.CreatedUserLogsIn | mymail/tables.py:58-79 | a user just created logs in with the password it was created with and the stored role |
| Tables.SetUserRoleAsWrittenLocksOut | mymail/tables.py:82-90 | as written, a user created and then given a role fails to log in with `invalid` |
| Tables.SetUserRoleKeepsLogin | mymail/tables.py:82-90 | with the corrected update, a user created and then given a role still logs in, with the new role |
| Tables.ToEntry | mymail/tables.py:116-118 | each listed user has a normalised role and an active flag of "1" or "0", "0" exactly when stored as false |
| Tables.ToEntries | mymail/tables.py:113-120 | one entry per row, in order |
| Tables.ByUsernameTotalPreorder | mymail/tables.py:123 | ordering by username is total and transitive |
| Tables.ListUsers | mymail/tables.py:104-124 | a failed query lists nobody; otherwise the entries are a permutation of the rows, all well formed, sorted by username |
| Tables.DayRange | mymail/tables.py:270-276 | none exactly when a bound is blank. Otherwise the two stripped days come in ascending order, swapped when start is after end |

## Left out

- Cosmos SDK calls become methods of `Store` and `Archive` whose failures are boolean parameters. `_with_timeout`'s thread pool, the per-call timeouts and `TimeoutError` are not modelled.
- The branch for a record with no `_etag` (an immediate unconditional replace) is not modelled. The store always supplies an ETag.
- `current_record`'s 25-second wall-clock budget is not modelled, only its attempt counter. Time is an integer parameter.
- ISO 8601 parsing of `lock_until` (`_parse_dt`, `parse_dt` in `ensure_loaded`) is not modelled. A timestamp is `Option<int>` seconds, `None` when empty or unparseable.
- `uuid.uuid4().hex` is not modelled: the token is a parameter of that shape. `random.shuffle` is an arbitrary permutation.
- `list_pending_meta` and `list_keys` are parameters (`Load`): snapshots that may be stale, not derived from `Store`.
- JSON decoding is not modelled. `get_record`'s payload is an opaque map. The JSON branch of `_parse_internal_note` is a parameter giving its pairs or `None`.
- Python `str.splitlines` is modelled on `\n`, `\r`, `\v`, `\f`, `\x1c`-`\x1e`, `\x85`, `\u2028` and `\u2029` as single breaks. `\r\n` counts as two breaks, which is harmless because blank lines are dropped. The final-newline difference is not modelled.
- `Text.Lower`: lower-cases ASCII only. Unicode case mapping and `norm_key`'s NFKD step are not modelled.
- `Text.Strip`: uses Python's whitespace set for `str` and no other normalisation.
- `log_click`, `elapsed_seconds` and the stored timestamps (`created_at`, `lock_acquired_at` as text) are not modelled. They do not decide any outcome.
- `reset_state`'s `_sid` check and its removal from the `_STATES` registry, `get_state`'s registry and the thread locks `_LOCK`/`_WRITE_LOCK` are not modelled. The state is one object per session.
- `refresh_current_lock` and `ensure_current_lock_valid` (mymail/state.py:227-236) are not modelled. Nothing in the modelled core calls them.
- Password hashing is not modelled: `check_password_hash` is an abstract predicate and the hash a parameter.
- `FlaskText.CountBy`: it states the counts and the descending order but not Python's stable tie order among equal counts.
- Template rendering, the Streamlit app, CSV/Excel export, blob storage, LLM prompts and the CLI scripts are not part of this model.
- `State.ReviewState.CurrentRecord`: the return of a dropped candidate's lease is stated for each attempt (`TryCandidate`, `LeaseAndFetch`, `FetchCurrent`), not across the whole loop, where a later attempt may lease the same record again after a reload.
- `State.ReviewState.SelectSpecific`: on a failure from an idle state, the queue is the one `ensure_loaded` just built; the contract does not restate that reload.
- `State.ReviewState.SkipCurrent`: the record archived is named by the ghost result `got`, what `current_record` returned, and the deleted key by the ghost `taken`. When a cached record is deleted by another session first, the delete raises; the contract says `Err("delete_record")` and the record gone, not which of the two causes it was.
- `State.ReviewState.SubmitCurrent`: the same as `SkipCurrent`.

## Findings

| source | as written | input that shows it | evidently intended | confidence | as-written member | corrected member |
|---|---|---|---|---|---|---|
| mymail/tables.py:82-90 | `set_user_role` upserts a document holding only `id`, `pk` and `role`. An upsert replaces the whole document, so the password hash is lost and `verify_user` then answers `invalid` | create user `ana` with password `pw`, then `set_user_role("ana", "Administrador")`, then `verify_user("ana", "pw")` | change the role and keep the rest of the user's document, so the user can still log in | not executed; medium (Cosmos upsert semantics) | Tables.SetUserRoleAsWritten, Tables.SetUserRoleAsWrittenLocksOut | Tables.SetUserRole, Tables.SetUserRoleKeepsLogin |
