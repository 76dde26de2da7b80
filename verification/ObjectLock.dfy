/**
 Object lock of src/storage/objectlock.go: the lock record of one version, which
 writes to it are accepted, and when it denies deletion. Times are unix seconds
 and come from the caller.
 */
module ObjectLock {

  const COMPLIANCE := "COMPLIANCE"
  const GOVERNANCE := "GOVERNANCE"

  datatype Lock = Lock(mode: string, retainUntil: int, legalHoldOn: bool)

  const UNLOCKED := Lock("", 0, false)

  /** The three ways to write a lock record. */
  datatype Change = Whole(lock: Lock) | Retention(mode: string, retainUntil: int) | LegalHold(on: bool)

  datatype Status = Ok | Einval | Enoent | Eperm | Eacces | Eio

  function Changed(l: Lock, c: Change): Lock {
    match c
    case Whole(lock) => lock
    case Retention(mode, until) => l.(mode := mode, retainUntil := until)
    case LegalHold(on) => l.(legalHoldOn := on)
  }

  /** The record denies deletion at `now`; retention without a mode does not count. */
  predicate LockedAt(l: Lock, now: int) {
    l.legalHoldOn || (l.mode != "" && l.retainUntil > now)
  }

  /** A bypass defeats governance retention, but no hold and no compliance. */
  predicate Denies(l: Lock, now: int, bypass: bool) {
    LockedAt(l, now) && !(bypass && l.mode == GOVERNANCE && !l.legalHoldOn)
  }

  function ValidateLockState(l: Lock): Status {
    if l.mode != "" && l.mode != COMPLIANCE && l.mode != GOVERNANCE then Einval
    else if l.mode != "" && l.retainUntil <= 0 then Einval
    else Ok
  }

  function CheckLockTighten(existing: Lock, next: Lock, bypass: bool, now: int): Status {
    if existing.retainUntil > now && existing.mode == COMPLIANCE &&
       (next.mode == GOVERNANCE || (next.mode == COMPLIANCE && next.retainUntil < existing.retainUntil)
        || (next.mode == "" && next.retainUntil == 0))
    then Eperm
    else if existing.retainUntil > now && existing.mode == GOVERNANCE && !bypass &&
        next.retainUntil < existing.retainUntil
    then Eperm
    else Ok
  }

  /** The verdict on writing `next` over `existing`. */
  function Verdict(existing: Lock, next: Lock, bypass: bool, now: int): Status {
    var s := ValidateLockState(next);
    if s != Ok then s else CheckLockTighten(existing, next, bypass, now)
  }

  /** What a lock denies: a legal hold everything, whatever the time and the bypass;
      without one, compliance retention until its deadline, governance retention
      until its deadline to those without bypass, and no mode nothing. */
  lemma {:induction false} DeniesExactly(l: Lock, now: int, bypass: bool)
    ensures l.legalHoldOn ==> Denies(l, now, bypass)
    ensures !l.legalHoldOn && l.mode == COMPLIANCE ==> (Denies(l, now, bypass) <==> now < l.retainUntil)
    ensures !l.legalHoldOn && l.mode == GOVERNANCE ==> (Denies(l, now, bypass) <==> now < l.retainUntil && !bypass)
    ensures !l.legalHoldOn && l.mode == "" ==> !Denies(l, now, bypass)
  {
    assert COMPLIANCE != GOVERNANCE && COMPLIANCE != "" && GOVERNANCE != "";
  }

  /** A well-formed record: a known mode with a deadline, or none. */
  predicate Meaningful(l: Lock) {
    l.mode == "" || ((l.mode == COMPLIANCE || l.mode == GOVERNANCE) && l.retainUntil > 0)
  }

  /** While compliance retention runs, a well-formed write is refused exactly if it turns
      it into governance, shortens it, or drops it with a zero deadline; no bypass helps. */
  lemma {:induction false} ComplianceWrites(existing: Lock, next: Lock, bypass: bool, now: int)
    requires existing.mode == COMPLIANCE && existing.retainUntil > now
    ensures Verdict(existing, next, bypass, now) ==
            if !Meaningful(next) then Einval
            else if next.mode == "" then if next.retainUntil == 0 then Eperm else Ok
            else if next.mode == GOVERNANCE || next.retainUntil < existing.retainUntil then Eperm
            else Ok
  {
    assert COMPLIANCE != GOVERNANCE && COMPLIANCE != "" && GOVERNANCE != "";
  }

  /** While governance retention runs, a well-formed write is refused exactly if it
      shortens the deadline without bypass. A legal hold plays no part in it. */
  lemma {:induction false} GovernanceWrites(existing: Lock, next: Lock, bypass: bool, now: int)
    requires existing.mode == GOVERNANCE && existing.retainUntil > now
    ensures Verdict(existing, next, bypass, now) ==
            if !Meaningful(next) then Einval
            else if next.retainUntil < existing.retainUntil && !bypass then Eperm
            else Ok
  {
    assert COMPLIANCE != GOVERNANCE && GOVERNANCE != "";
  }

  /** Without running retention every well-formed write is accepted. */
  lemma {:induction false} FreeWrites(existing: Lock, next: Lock, bypass: bool, now: int)
    requires existing.retainUntil <= now || existing.mode == ""
    ensures Verdict(existing, next, bypass, now) == if Meaningful(next) then Ok else Einval
  {
    assert COMPLIANCE != "" && GOVERNANCE != "";
  }

  /** COMPLIANCE retention at least until `deadline`. */
  predicate Holds(l: Lock, deadline: int) {
    l.mode == COMPLIANCE && l.retainUntil >= deadline
  }

  /** While compliance retention runs, an accepted write keeps it, with a deadline
      no earlier, exactly if the written record has a mode: the check refuses the
      empty mode only together with a zero deadline. */
  lemma {:induction false} ComplianceKept(existing: Lock, next: Lock, bypass: bool, now: int)
    requires existing.mode == COMPLIANCE && existing.retainUntil > now && Verdict(existing, next, bypass, now) == Ok
    ensures Holds(next, existing.retainUntil) <==> next.mode != ""
    ensures next.mode == "" ==> next.retainUntil != 0
  {}

  /** Retention of either mode at least until `deadline`. */
  predicate Guards(l: Lock, deadline: int) {
    (l.mode == COMPLIANCE || l.mode == GOVERNANCE) && l.retainUntil >= deadline
  }

  /** Without bypass the same holds of governance retention. */
  lemma {:induction false} RetentionKept(existing: Lock, next: Lock, now: int)
    requires Guards(existing, existing.retainUntil) && existing.retainUntil > now
    requires Verdict(existing, next, false, now) == Ok
    ensures Guards(next, existing.retainUntil) <==> next.mode != ""
  {
    assert COMPLIANCE != GOVERNANCE && COMPLIANCE != "" && GOVERNANCE != "";
  }

  /** The gap: an empty mode with a nonzero deadline drops compliance retention,
      and the version is no longer protected. */
  lemma {:induction false} EmptyModeUnlocks(until: int, now: int)
    requires now < until
    ensures var existing := Lock(COMPLIANCE, until, false);
      var next := Changed(existing, Retention("", 1));
      Verdict(existing, next, false, now) == Ok && !Denies(next, now, false) && Denies(existing, now, true)
  {
    var next := Changed(Lock(COMPLIANCE, until, false), Retention("", 1));
    assert next.mode != COMPLIANCE && next.mode != GOVERNANCE;
    assert COMPLIANCE != GOVERNANCE && COMPLIANCE != "";
  }
}
