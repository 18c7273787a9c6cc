/**
 * The two request handlers of the review page that touch leases
 * (`flask_app.py`): `/action`, which saves or skips the current record, and
 * `/heartbeat`, which keeps its lease alive. The Flask session is a value
 * the handler reads and returns; the record store, the archive of outcomes
 * and the per-session review state are the objects of `Entrada` and `State`.
 */
module Gates {
  import opened Wrappers
  import opened Text
  import opened Entrada
  import opened State

  /** The session's `_lock` entry; a missing field reads as "". */
  datatype SessionLock = SessionLock(pk: string, rk: string, token: string)

  /** The parts of the Flask session the handlers read and write. */
  datatype Session = Session(authenticated: bool, user: string, lock: Option<SessionLock>,
                             lockUntilMs: Option<int>, error: string)

  /** The posted form; a missing field reads as "". */
  datatype Form = Form(action: string, status: string, reviewerNote: string, internalNote: string,
                       koMymReason: string, multitematica: string)

  /** How `/action` ends: the `result` it logs, or the call that raised. */
  datatype Verdict =
    | ToLogin                     // not authenticated: redirect to the login page
    | Blocked(reason: string)     // a `blocked:...` result, with a message in the session
    | Completed                   // outcome archived, record deleted, state reset
    | UnknownAction               // `fail:unknown_action`
    | Raised(call: string)        // a store or archive call raised out of the handler

  const PendingReason := "blocked:pendiente"
  const MissingLockReason := "blocked:missing_lock"
  const LockLostReason := "blocked:lock_expired_or_taken"
  const MissingKoReason := "blocked:missing_ko_mym_reason"
  const MissingCommentReason := "blocked:missing_comment"

  /** The message a verdict leaves in the session's `_error`; "" leaves it as it was. */
  function Message(v: Verdict): string
  {
    match v
    case Blocked(reason) =>
      if reason == PendingReason then "Selecciona un estado final para continuar."
      else if reason == MissingLockReason then "Sesion caducada. Pulsa refrescar para cargar otro registro."
      else if reason == LockLostReason then "Sesion caducada (10 min) o registro ya procesado por otro usuario."
      else if reason == MissingKoReason then "Para KO MYM selecciona el detalle del KO."
      else "Para un KO, DUDA o FDS es obligatorio indicar un comentario de revision."
    case UnknownAction => "Accion no valida."
    case _ => ""
  }

  /** The session after a verdict that only reports an error. */
  function Flash(s: Session, v: Verdict): Session
  {
    if Message(v) == "" then s else s.(error := Message(v))
  }

  /** `request.form.get("status") or "Pendiente"`. */
  function StatusOf(form: Form): (status: string)
    ensures status != ""
    ensures form.status == "" ==> status == "Pendiente"
    ensures form.status != "" ==> status == form.status
  {
    if form.status == "" then "Pendiente" else form.status
  }

  predicate StartsWith(s: string, prefix: string)
  {
    |prefix| <= |s| && s[..|prefix|] == prefix
  }

  /** Whether the `multitematica` box was ticked. */
  predicate Multitematica(form: Form)
  {
    var v := Strip(form.multitematica);
    v == "1" || v == "on" || v == "true" || v == "True"
  }

  /** The lock the session claims: `(session.get("_lock") or {})`, missing fields as "". */
  function ClaimedLock(s: Session): SessionLock
  {
    s.lock.GetOr(SessionLock("", "", ""))
  }

  /** The lease-holding key the session claims, when it claims one at all. */
  predicate HasCompleteLock(s: Session)
  {
    ClaimedLock(s).pk != "" && ClaimedLock(s).rk != "" && ClaimedLock(s).token != ""
  }

  function ClaimedKey(s: Session): EntradaKey
  {
    EntradaKey(ClaimedLock(s).pk, ClaimedLock(s).rk)
  }

  /**
   * The part of the `/action` ladder decided before any store call: `None`
   * means a save or skip with a complete lock, which goes on to `validate_lock`.
   */
  function Precheck(s: Session, form: Form): (r: Option<Verdict>)
    ensures r.None? <==>
      s.authenticated && (form.action == "save" || form.action == "skip") &&
      !(StatusOf(form) == "Pendiente" && form.action != "skip") && HasCompleteLock(s)
    ensures r.Some? && r.value.Blocked? ==>
      r.value.reason == PendingReason || r.value.reason == MissingLockReason
    ensures r == Some(UnknownAction) ==>
      s.authenticated && form.action != "save" && form.action != "skip" && StatusOf(form) != "Pendiente"
  {
    if !s.authenticated then Some(ToLogin)
    else if StatusOf(form) == "Pendiente" && form.action != "skip" then Some(Blocked(PendingReason))
    else if form.action != "save" && form.action != "skip" then Some(UnknownAction)
    else if !HasCompleteLock(s) then Some(Blocked(MissingLockReason))
    else None
  }

  /** The comment rules of a save: a KO MYM needs its detail; a KO, DUDA or FDS needs a comment. */
  function SaveRule(form: Form): (r: Option<Verdict>)
    ensures r.Some? ==> r.value == Blocked(MissingKoReason) || r.value == Blocked(MissingCommentReason)
    ensures r.None? <==>
      !(StatusOf(form) == "KO MYM" && IsBlank(form.koMymReason)) &&
      !((StartsWith(StatusOf(form), "KO") || StatusOf(form) == "DUDA" || StatusOf(form) == "FDS") && IsBlank(form.reviewerNote))
  {
    var status := StatusOf(form);
    if status == "KO MYM" && Strip(form.koMymReason) == "" then Some(Blocked(MissingKoReason))
    else if (StartsWith(status, "KO") || status == "DUDA" || status == "FDS") && Strip(form.reviewerNote) == "" then
      Some(Blocked(MissingCommentReason))
    else None
  }

  /** A saved KO MYM carries both its detail and a reviewer comment. */
  lemma SavedKoMymIsExplained(form: Form)
    requires SaveRule(form).None? && StatusOf(form) == "KO MYM"
    ensures !IsBlank(form.koMymReason) && !IsBlank(form.reviewerNote)
  {
    KoMymIsKo();
  }

  /** "KO MYM" is one of the KO statuses. */
  lemma KoMymIsKo()
    ensures StartsWith("KO MYM", "KO")
  {
    assert "KO MYM"[..2] == "KO";
  }

  /** The outcome row a save or skip archives. */
  function OutcomeRow(form: Form, user: string, record: map<string, string>): Outcome
  {
    if form.action == "save" then
      Resultado(user, record, StatusOf(form), form.koMymReason, form.reviewerNote, form.internalNote, Multitematica(form))
    else Descarte(user, record)
  }

  /** Which store and archive calls raise during one `/action`. */
  datatype ActionFaults = ActionFaults(
    validateFails: bool,   // the read of `validate_lock`
    idReadFails: bool,     // the reads of the record id for the click log (their errors are swallowed)
    fetchFails: bool,      // `get_record` before the archive write
    writeFails: bool,      // `write_resultado` / `write_descarte`
    deleteFails: bool,     // `delete_record`
    reset: Env)            // the store during `reset_state`'s release

  /** `validate_lock` succeeds for the session's claim. */
  predicate LockHeld(items: map<EntradaKey, Entity>, s: Session, now: int, faults: ActionFaults)
  {
    !faults.validateFails && ClaimedKey(s) in items &&
    Validates(items[ClaimedKey(s)].lock, s.user, ClaimedLock(s).token, now)
  }

  /**
   * `/action`. The state is the session's `ReviewState`, which `get_state`
   * refills from `load` when it is idle.
   */
  method Action(s: Session, form: Form, st: ReviewState, store: Store, archive: Archive, now: int,
                load: Load, faults: ActionFaults)
    returns (verdict: Verdict, s': Session)
    requires store.Valid()
    modifies st, store, archive
    ensures store.Valid()
    // decided before any store call
    ensures Precheck(s, form).Some? ==>
      verdict == Precheck(s, form).value && s' == Flash(s, verdict) &&
      unchanged(store) && unchanged(archive)
    ensures !s.authenticated ==> verdict == ToLogin && s' == s && unchanged(st)
    // a lease that no longer validates: the claim is dropped and the state abandons its record
    ensures Precheck(s, form).None? && !LockHeld(old(store.items), s, now, faults) ==>
      && verdict == Blocked(LockLostReason) && s' == Flash(s, verdict).(lock := None)
      && st.currentKey.None? && st.current == map[] && st.lockToken == ""
      && store.items == old(store.items) && archive.rows == old(archive.rows)
    // the comment rules, the archive write and the delete
    ensures Precheck(s, form).None? && LockHeld(old(store.items), s, now, faults) ==>
      Saved(s, form, old(store.items), old(archive.rows), store.items, archive.rows, faults, verdict, s')
  {
    if s.authenticated {
      st.LoadIfIdle(load);
    }
    var pre := Precheck(s, form);
    if pre.Some? {
      return pre.value, Flash(s, pre.value);
    }
    verdict, s' := Leased(s, form, st, store, archive, now, faults);
  }

  /** The lease check of a save or skip whose session claims a complete lock. */
  method Leased(s: Session, form: Form, st: ReviewState, store: Store, archive: Archive, now: int, faults: ActionFaults)
    returns (verdict: Verdict, s': Session)
    requires store.Valid() && Precheck(s, form).None?
    modifies st, store, archive
    ensures store.Valid()
    ensures !LockHeld(old(store.items), s, now, faults) ==>
      && verdict == Blocked(LockLostReason) && s' == Flash(s, verdict).(lock := None)
      && st.currentKey.None? && st.current == map[] && st.lockToken == ""
      && store.items == old(store.items) && archive.rows == old(archive.rows)
    ensures LockHeld(old(store.items), s, now, faults) ==>
      Saved(s, form, old(store.items), old(archive.rows), store.items, archive.rows, faults, verdict, s')
  {
    var key := ClaimedKey(s);
    ghost var items := store.items;
    var valid := store.ValidateLock(key, s.user, ClaimedLock(s).token, now, faults.validateFails);
    var _ := store.GetRecord(key, faults.idReadFails);
    assert store.items == items && (valid <==> LockHeld(items, s, now, faults));
    if !valid {
      st.AbandonCurrent();
      verdict := Blocked(LockLostReason);
      return verdict, Flash(s, verdict).(lock := None);
    }
    verdict, s' := Save(s, form, st, store, archive, faults);
  }

  /** How a save or skip under a valid lease ends, from the store and archive before and after. */
  ghost predicate Saved(s: Session, form: Form, items: map<EntradaKey, Entity>, rows: seq<Outcome>,
                        items': map<EntradaKey, Entity>, rows': seq<Outcome>, faults: ActionFaults,
                        verdict: Verdict, s': Session)
  {
    && (form.action == "save" && SaveRule(form).Some? ==>
          verdict == SaveRule(form).value && s' == Flash(s, verdict) && items' == items && rows' == rows)
    && (verdict == Completed <==>
          (form.action == "save" ==> SaveRule(form).None?) &&
          ClaimedKey(s) in items && !faults.fetchFails && !faults.writeFails && !faults.deleteFails)
    && (verdict == Completed ==>
          && ClaimedKey(s) in items
          && rows' == rows + [OutcomeRow(form, s.user, items[ClaimedKey(s)].payload)]
          && ClaimedKey(s) !in items' && items'.Keys <= items.Keys
          && s' == s.(lock := None))
    && (verdict != Completed ==> items' == items)
    && (verdict == Raised("delete_record") ==>
          ClaimedKey(s) in items && rows' == rows + [OutcomeRow(form, s.user, items[ClaimedKey(s)].payload)])
    && (verdict != Completed && verdict != Raised("delete_record") ==> rows' == rows)
  }

  /** The comment rules, then the archive write, the delete and `reset_state`. */
  method Save(s: Session, form: Form, st: ReviewState, store: Store, archive: Archive, faults: ActionFaults)
    returns (verdict: Verdict, s': Session)
    requires store.Valid()
    modifies st, store, archive
    ensures store.Valid()
    ensures Saved(s, form, old(store.items), old(archive.rows), store.items, archive.rows, faults, verdict, s')
  {
    if form.action == "save" {
      var rule := SaveRule(form);
      if rule.Some? {
        return rule.value, Flash(s, rule.value);
      }
    }
    var key := ClaimedKey(s);
    verdict := Commit(form, s.user, key, store, archive, faults);
    if verdict == Completed {
      ResetState(st, s.user, store, faults.reset);
      s' := s.(lock := None);
    } else {
      s' := s;
    }
  }

  /** Fetch the record, archive its outcome, then delete it. */
  method Commit(form: Form, user: string, key: EntradaKey, store: Store, archive: Archive, faults: ActionFaults)
    returns (verdict: Verdict)
    requires store.Valid()
    modifies store, archive
    ensures store.Valid()
    ensures verdict == Completed <==> !faults.fetchFails && key in old(store.items) && !faults.writeFails && !faults.deleteFails
    ensures verdict != Completed ==>
      verdict == Raised("get_record") || verdict == Raised("write_resultado") ||
      verdict == Raised("write_descarte") || verdict == Raised("delete_record")
    ensures verdict == Completed || verdict == Raised("delete_record") ==>
      key in old(store.items) &&
      archive.rows == old(archive.rows) + [OutcomeRow(form, user, old(store.items)[key].payload)]
    ensures verdict != Completed && verdict != Raised("delete_record") ==> archive.rows == old(archive.rows)
    ensures store.items == if verdict == Completed then old(store.items) - {key} else old(store.items)
  {
    var record := store.GetRecord(key, faults.fetchFails);
    if record.None? {
      return Raised("get_record");
    }
    var row := OutcomeRow(form, user, record.value);
    var written := archive.Write(row, faults.writeFails);
    if !written {
      return if form.action == "save" then Raised("write_resultado") else Raised("write_descarte");
    }
    var deleted := store.DeleteRecord(key, faults.deleteFails);
    if !deleted {
      return Raised("delete_record");
    }
    verdict := Completed;
  }

  /**
   * `reset_state`: the session's state gives back its lease, if it still
   * holds one, and is forgotten by the registry.
   */
  method ResetState(st: ReviewState, user: string, store: Store, env: Env)
    requires store.Valid()
    modifies st`lockToken, store
    ensures store.Valid()
    ensures store.items.Keys <= old(store.items).Keys
    ensures st.currentKey.Some? ==> store.items - {st.currentKey.value} == old(store.items) - {st.currentKey.value}
    ensures st.currentKey.None? ==> store.items == old(store.items)
    // the token is forgotten, and undisturbed the lease it names is cleared
    ensures !IsBlank(user) && st.currentKey.Some? ==> st.lockToken == ""
    ensures IsBlank(user) || st.currentKey.None? || old(st.lockToken) == "" ==>
      st.lockToken == old(st.lockToken) && unchanged(store)
    ensures env == Calm && !IsBlank(user) && st.currentKey.Some? && old(st.lockToken) != "" &&
            st.currentKey.value in old(store.items) &&
            Matches(old(store.items)[st.currentKey.value].lock, user, old(st.lockToken)) ==>
      st.currentKey.value in store.items && store.items[st.currentKey.value].lock == NoLock
  {
    st.ReleaseCurrentLock(user, store, env);
  }

  /** The replies of `/heartbeat`. */
  datatype Reply = Unauthorized | NoContent | Conflict | LockUntilMs(ms: int)

  /** The status code of a reply; a new expiry is sent as JSON with 200. */
  function Code(r: Reply): (code: int)
    ensures code in {200, 204, 401, 409}
  {
    match r
    case Unauthorized => 401
    case NoContent => 204
    case Conflict => 409
    case LockUntilMs(_) => 200
  }

  /**
   * `/heartbeat`: refreshes the session's lease. A refused refresh drops the
   * claim and its expiry from the session; a granted one stores the new
   * expiry, in milliseconds.
   */
  method Heartbeat(s: Session, store: Store, now: int, env: Env) returns (reply: Reply, s': Session)
    requires store.Valid()
    modifies store
    ensures store.Valid()
    ensures !s.authenticated ==> reply == Unauthorized && s' == s && unchanged(store)
    ensures s.authenticated && !HasCompleteLock(s) ==> reply == NoContent && s' == s && unchanged(store)
    ensures s.authenticated && HasCompleteLock(s) ==> reply == Conflict || reply.LockUntilMs?
    ensures reply == Conflict ==> s' == s.(lock := None, lockUntilMs := None)
    ensures reply.LockUntilMs? ==>
      && reply.ms == LockUntil(now, LockTtlSeconds) * 1000 && reply.ms > now * 1000
      && s' == s.(lockUntilMs := Some(reply.ms))
      && ClaimedKey(s) in store.items
      && Validates(store.items[ClaimedKey(s)].lock, s.user, ClaimedLock(s).token, now)
    // a refresh is granted exactly for a lease that still validates, when nothing interferes
    ensures s.authenticated && HasCompleteLock(s) && env == Calm ==>
      (reply.LockUntilMs? <==>
        ClaimedKey(s) in old(store.items) &&
        Validates(old(store.items)[ClaimedKey(s)].lock, s.user, ClaimedLock(s).token, now))
    // a lease that no longer validates is never refreshed
    ensures s.authenticated && HasCompleteLock(s) &&
            !(ClaimedKey(s) in old(store.items) &&
              Validates(old(store.items)[ClaimedKey(s)].lock, s.user, ClaimedLock(s).token, now)) ==>
      reply == Conflict && store.items == old(store.items)
  {
    if !s.authenticated {
      return Unauthorized, s;
    }
    if !HasCompleteLock(s) {
      return NoContent, s;
    }
    var newUntil := store.RefreshLock(ClaimedKey(s), s.user, ClaimedLock(s).token, LockTtlSeconds, now, env);
    if newUntil.None? {
      return Conflict, s.(lock := None, lockUntilMs := None);
    }
    var ms := newUntil.value * 1000;
    return LockUntilMs(ms), s.(lockUntilMs := Some(ms));
  }
}
