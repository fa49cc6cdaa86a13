/**
 * internal/trust/trust.go, `Manager.Execute`, over the Linux backend of
 * internal/trust/platform.go.  Every file or native operation is one effect that may work,
 * fail, fail half done or when done, or be the moment the process dies.  One certificate and
 * one store are fixed; certificates are their fingerprints.
 */
module Trust {
  import opened Wrappers

  /** A file that should hold one certificate. */
  datatype Pem = Absent | Torn | Holds(fingerprint: nat)

  /** Unreadable stands for every receipt that readReceipt refuses. */
  datatype Receipt = NoReceipt | Unreadable | Pending | Installed {
    predicate Valid() { Pending? || Installed? }
  }

  /**
   * What survives the process.  `fromAnchor` and `fromOther` say on whose account the generated
   * bundle holds the certificate, `other` whether another installation provides it now.
   */
  datatype Disk = Disk(snapshot: Pem, receipt: Receipt, anchor: Pem, fromAnchor: bool, fromOther: bool, other: bool) {
    predicate InBundle() { fromAnchor || fromOther }
  }

  datatype Effect =
    | Check
    | WriteSnapshot
    | DropSnapshot
    | WriteReceipt
    | MarkInstalled
    | DropReceipt
    | WriteAnchor
    | DropAnchor
    | Rebuild

  /**
   * "During" leaves the operation half done, "After" wholly done although it reports failure or is
   * never reported: an exclusive write whose Sync or Close fails and whose cleanup fails as well.
   */
  datatype Fate = Works | Fails | Denied | FailsDuring | FailsAfter | Dies | DiesDuring | DiesAfter {
    predicate Deadly() { Dies? || DiesDuring? || DiesAfter? }
    predicate Whole() { Works? || FailsAfter? || DiesAfter? }
    predicate Touches() { Whole() || FailsDuring? || DiesDuring? }
  }

  /** Exclusive creates only what is absent; interrupted, it may leave a torn file. */
  function Created(was: Pem, f: Fate, c: nat): Pem {
    if !was.Absent? || !f.Touches() then was else if f.Whole() then Holds(c) else Torn
  }

  function Rebuilt(d: Disk, c: nat): Disk {
    d.(fromAnchor := d.anchor == Holds(c), fromOther := d.other)
  }

  /** Remove and Atomic report failure only when nothing happened. */
  predicate Happens(f: Fate) {
    f.Works? || f.DiesDuring? || f.DiesAfter?
  }

  /** Only creating and rebuilding can stop half way or report failure when done. */
  function After(d: Disk, e: Effect, f: Fate, c: nat): Disk {
    match e
    case Check => d
    case WriteSnapshot => d.(snapshot := Created(d.snapshot, f, c))
    case DropSnapshot => if Happens(f) then d.(snapshot := Absent) else d
    case WriteReceipt =>
      if !d.receipt.NoReceipt? || !f.Touches() then d
      else d.(receipt := if f.Whole() then Pending else Unreadable)
    case MarkInstalled => if Happens(f) then d.(receipt := Installed) else d
    case DropReceipt => if Happens(f) then d.(receipt := NoReceipt) else d
    case WriteAnchor => d.(anchor := Created(d.anchor, f, c))
    case DropAnchor => if Happens(f) then d.(anchor := Absent) else d
    case Rebuild => if f.Touches() then Rebuilt(d, c) else d
  }

  predicate Succeeds(d: Disk, e: Effect, f: Fate) {
    && f.Works?
    && match e
       case WriteSnapshot => d.snapshot.Absent?
       case DropSnapshot => !d.snapshot.Absent?
       case WriteReceipt => d.receipt.NoReceipt?
       case DropReceipt => !d.receipt.NoReceipt?
       case WriteAnchor => d.anchor.Absent?
       case DropAnchor => !d.anchor.Absent?
       case _ => true
  }

  // ---------------------------------------------------------------------------
  // The write-ahead invariant
  // ---------------------------------------------------------------------------

  /**
   * A valid receipt has its recovery snapshot; without one the manager's anchor is gone and the
   * bundle was rebuilt since.
   */
  ghost predicate Safe(d: Disk, c: nat) {
    if d.receipt.Valid() then d.snapshot == Holds(c) else d.anchor.Absent? && !d.fromAnchor
  }

  /** What must be on disk before an effect is tried. */
  ghost predicate Ahead(d: Disk, e: Effect, c: nat) {
    match e
    case DropSnapshot => !d.receipt.Valid()
    case WriteReceipt => d.snapshot == Holds(c)
    case MarkInstalled => d.receipt.Valid()
    case DropReceipt => d.anchor.Absent? && !d.fromAnchor
    case WriteAnchor => d.receipt.Valid()
    case _ => true
  }

  lemma EffectKeepsSafe(d: Disk, e: Effect, f: Fate, c: nat)
    requires Safe(d, c) && Ahead(d, e, c)
    ensures Safe(After(d, e, f, c), c)
  {
  }

  // ---------------------------------------------------------------------------
  // How the invariant can be lost
  // ---------------------------------------------------------------------------

  /** One operation as it went. */
  datatype Op = Op(effect: Effect, fate: Fate)

  /** The removal of the snapshot at line 219 after a receipt that is there although its creation reported failure. */
  ghost predicate Mishap(a: Op, b: Op) {
    a == Op(WriteReceipt, FailsAfter) && b.effect == DropSnapshot && Happens(b.fate)
  }

  ghost predicate Lost(log: seq<Op>) {
    exists i, j :: 0 <= i && j == i + 1 < |log| && Mishap(log[i], log[j])
  }

  ghost predicate LostLast(log: seq<Op>, op: Op) {
    log != [] && Mishap(log[|log| - 1], op)
  }

  lemma LostNext(log: seq<Op>, op: Op)
    ensures Lost(log + [op]) <==> Lost(log) || LostLast(log, op)
  {
    hide Mishap;
    var more := log + [op];
    if Lost(log) {
      var i, j :| 0 <= i && j == i + 1 < |log| && Mishap(log[i], log[j]);
      assert Mishap(more[i], more[j]);
    }
    if LostLast(log, op) {
      assert Mishap(more[|log| - 1], more[|log|]);
    }
  }

  /** What is left then: a pending receipt without its snapshot, and nothing installed. */
  ghost predicate Orphaned(d: Disk) {
    d.receipt.Pending? && d.snapshot.Absent? && d.anchor.Absent? && !d.fromAnchor
  }

  lemma OrphanIsUnsafe(c: nat)
    ensures forall d :: Orphaned(d) ==> !Safe(d, c)
  {
  }

  // ---------------------------------------------------------------------------
  // Actions and results
  // ---------------------------------------------------------------------------

  datatype Action = Trust | Untrust | Status

  datatype Problem =
    | NotCurrentlyValid
    | NotRoot
    | OperationFailed
    | BadReceipt
    | BadSnapshot
    | BadAnchor
    | NotTrusted
    | UnmanagedPresent
    | SnapshotNotCreated
    | StillInstalled

  datatype Outcome = Changed | AlreadyTrusted | NothingToRemove | WouldChange | Checked | Refused(problem: Problem)

  datatype Report = Report(installed: bool, trusted: bool, managed: bool, ownershipKnown: bool)

  /** What Execute does when nothing fails and the certificate's validity does not change meanwhile. */
  function Ideal(d: Disk, action: Action, dry: bool, valid: bool, c: nat): (Disk, Outcome) {
    var owned := d.receipt.Valid();
    var installed := d.anchor == Holds(c);
    var trusted := valid && d.InBundle();
    if action.Trust? && !valid then (d, Refused(NotCurrentlyValid))
    else if d.receipt.Unreadable? then (d, Refused(BadReceipt))
    else if owned && d.snapshot != Holds(c) then (d, Refused(BadSnapshot))
    else if !installed && !d.anchor.Absent? then (d, Refused(BadAnchor))
    else match action
      case Status => (d, if trusted then Checked else Refused(NotTrusted))
      case Trust =>
        if trusted then (d, AlreadyTrusted)
        else if installed && !owned then (d, Refused(UnmanagedPresent))
        else if dry then (d, WouldChange)
        else if !owned && !d.snapshot.Absent? then (d, Refused(SnapshotNotCreated))
        else (Disk(Holds(c), Installed, Holds(c), true, d.other, d.other), Changed)
      case Untrust =>
        if !owned then (d, if installed || trusted then Refused(UnmanagedPresent) else NothingToRemove)
        else if dry then (d, WouldChange)
        else (Disk(Absent, NoReceipt, Absent, false, d.other, d.other), Changed)
  }

  /** A readable receipt or none, its snapshot if there is one, and no torn or foreign anchor. */
  ghost predicate Clear(d: Disk, c: nat) {
    && !d.receipt.Unreadable?
    && (d.receipt.Valid() ==> d.snapshot == Holds(c))
    && (d.anchor.Absent? || d.anchor == Holds(c))
  }

  // ---------------------------------------------------------------------------
  // The process
  // ---------------------------------------------------------------------------

  class Manager {
    const certificate: nat
    const fate: (nat, Effect) -> Fate
    const validAt: nat -> bool
    var disk: Disk
    var dead: bool
    var clock: nat
    /** Every state of the disk so far and every operation; they only record history. */
    var trail: seq<Disk>
    var log: seq<Op>

    constructor (certificate: nat, fate: (nat, Effect) -> Fate, validAt: nat -> bool, disk: Disk)
      ensures this.certificate == certificate && this.fate == fate && this.validAt == validAt
      ensures this.disk == disk && !dead && clock == 0 && trail == [disk] && log == []
    {
      this.certificate, this.fate, this.validAt := certificate, fate, validAt;
      this.disk, dead, clock := disk, false, 0;
      trail := [disk];
      log := [];
    }

    /** No snapshot was removed beside its receipt; the disk is safe, and was at every moment so far. */
    ghost predicate Good()
      reads this
    {
      !Lost(log) && Safe(disk, certificate) && forall d :: d in trail ==> Safe(d, certificate)
    }

    /** One was, and the receipt has been an orphan since. */
    ghost predicate Stuck()
      reads this
    {
      Lost(log) && Orphaned(disk) && exists d :: d in trail && !Safe(d, certificate)
    }

    /** No operation fails, and the certificate's validity is `valid` throughout. */
    ghost predicate Calm(valid: bool) {
      (forall n, e :: fate(n, e).Works?) && (forall n :: validAt(n) == valid)
    }

    /** Every operation works but the creation of the receipt, which is done and reports failure. */
    ghost predicate ReceiptMisreported() {
      && (forall n, e :: e != WriteReceipt ==> fate(n, e).Works?)
      && (forall n :: fate(n, WriteReceipt).FailsAfter?)
      && (forall n :: validAt(n))
    }

    /** Looking works. */
    ghost predicate Looks(valid: bool) {
      (forall n :: fate(n, Check).Works?) && (forall n :: validAt(n) == valid)
    }

    lemma CalmLooks()
      ensures forall v :: Calm(v) ==> Looks(v)
      ensures ReceiptMisreported() ==> Looks(true)
    {
    }

    /** One effect; after its death the process has none. */
    method Do(e: Effect) returns (ok: bool)
      modifies this
      ensures trail == old(trail) + [disk]
      ensures old(Good()) && !LostLast(old(log), Op(e, fate(old(clock), e))) ==>
                (Ahead(old(disk), e, certificate) || disk == old(disk) ==> Good())
      ensures old(Good()) && !old(dead) && LostLast(old(log), Op(e, fate(old(clock), e))) && Orphaned(disk) ==> Stuck()
      ensures old(dead) ==> !ok && dead && disk == old(disk) && log == old(log)
      ensures !old(dead) ==>
                && log == old(log) + [Op(e, fate(old(clock), e))]
                && disk == After(old(disk), e, fate(old(clock), e), certificate)
                && ok == Succeeds(old(disk), e, fate(old(clock), e))
                && dead == fate(old(clock), e).Deadly()
      ensures clock == old(clock) + 1
    {
      hide Lost, LostLast;
      OrphanIsUnsafe(certificate);
      LostNext(log, Op(e, fate(clock, e)));
      ok := false;
      if !dead {
        var f := fate(clock, e);
        ok := Succeeds(disk, e, f);
        disk := After(disk, e, f, certificate);
        dead := f.Deadly();
        log := log + [Op(e, f)];
      }
      clock := clock + 1;
      trail := trail + [disk];
    }

    /** An effect that only looks. */
    method Look() returns (ok: bool)
      modifies this
      ensures disk == old(disk) && old(trail) <= trail && old(log) <= log && (old(Good()) ==> Good())
      ensures ok ==> !dead && fate(old(clock), Check).Works?
      ensures old(dead) ==> dead
      ensures clock == old(clock) + 1
      ensures forall v :: Looks(v) && !old(dead) ==> ok && !dead
    {
      ok := Do(Check);
    }

    /** os.ErrPermission is told apart only where readReceipt fails. */
    method Read() returns (ok: bool, denied: bool)
      modifies this
      ensures disk == old(disk) && old(trail) <= trail && old(log) <= log && (old(Good()) ==> Good())
      ensures ok ==> !dead && !denied
      ensures forall v :: Looks(v) && !old(dead) ==> ok && !dead
    {
      denied := !dead && fate(clock, Check).Denied?;
      ok := Look();
    }

    // -------------------------------------------------------------------------
    // The Linux backend
    // -------------------------------------------------------------------------

    /** linuxBackend.anchor: present, absent, or something that must not be touched. */
    method Anchor() returns (r: Result<bool, Problem>)
      modifies this
      ensures disk == old(disk) && old(trail) <= trail && old(log) <= log && (old(Good()) ==> Good())
      ensures r.Ok? ==> !dead && disk.anchor == if r.value then Holds(certificate) else Absent
      ensures forall v :: Looks(v) && !old(dead) ==>
                !dead && r == if disk.anchor.Absent? then Ok(false)
                              else if disk.anchor == Holds(certificate) then Ok(true) else Err(BadAnchor)
    {
      var ok := Look();
      if !ok {
        return Err(OperationFailed);
      }
      if disk.anchor.Absent? {
        return Ok(false);
      }
      ok := Look();
      if !ok {
        return Err(OperationFailed);
      }
      if disk.anchor != Holds(certificate) {
        return Err(BadAnchor);
      }
      return Ok(true);
    }

    method Inspect() returns (r: Result<(bool, bool), Problem>)
      modifies this
      ensures disk == old(disk) && old(trail) <= trail && old(log) <= log && (old(Good()) ==> Good())
      ensures r.Ok? ==> !dead && disk.anchor == (if r.value.0 then Holds(certificate) else Absent)
      ensures r.Ok? && r.value.1 ==> disk.InBundle()
      ensures forall v :: Looks(v) && !old(dead) ==>
                !dead && r == if disk.anchor.Absent? then Ok((false, v && disk.InBundle()))
                              else if disk.anchor == Holds(certificate) then Ok((true, v && disk.InBundle())) else Err(BadAnchor)
    {
      var present := Anchor();
      if present.Err? {
        return Err(present.error);
      }
      var ok := Look();
      if !ok {
        return Err(OperationFailed);
      }
      return Ok((present.value, validAt(clock) && disk.InBundle()));
    }

    method Refresh() returns (ok: bool)
      modifies this
      ensures old(trail) <= trail && old(log) <= log && (old(Good()) ==> Good())
      ensures disk == old(disk) || disk == Rebuilt(old(disk), certificate)
      ensures ok ==> !dead && disk == Rebuilt(old(disk), certificate)
      ensures old(dead) ==> dead && disk == old(disk)
      ensures forall v :: Calm(v) && !old(dead) ==> ok
    {
      CalmLooks();
      ok := Look();
      if ok {
        ok := Do(Rebuild);
      }
    }

    method Add() returns (ok: bool)
      modifies this
      ensures old(trail) <= trail && old(log) <= log && (old(Good()) && old(disk).receipt.Valid() ==> Good())
      ensures disk.snapshot == old(disk).snapshot && disk.receipt == old(disk).receipt && disk.other == old(disk).other
      ensures old(dead) ==> dead && disk == old(disk)
      ensures ok ==> !dead && disk.anchor == Holds(certificate) && disk.fromAnchor && disk.fromOther == disk.other
      ensures forall v :: Calm(v) && !old(dead) ==>
                !dead && (ok <==> old(disk).anchor.Absent? || old(disk).anchor == Holds(certificate))
    {
      CalmLooks();
      ok := Look();
      if !ok {
        return;
      }
      ok := Look();
      if !ok {
        return;
      }
      var present := Anchor();
      if present.Err? {
        return false;
      }
      if !present.value {
        ok := Do(WriteAnchor);
        if !ok {
          return;
        }
      }
      ok := Refresh();
    }

    method Remove() returns (ok: bool)
      modifies this
      ensures old(trail) <= trail && old(log) <= log && (old(Good()) ==> Good())
      ensures disk.snapshot == old(disk).snapshot && disk.receipt == old(disk).receipt && disk.other == old(disk).other
      ensures old(dead) ==> dead && disk == old(disk)
      ensures ok ==> !dead && disk.anchor.Absent? && !disk.fromAnchor && disk.fromOther == disk.other
      ensures forall v :: Calm(v) && !old(dead) ==>
                !dead && (ok <==> old(disk).anchor.Absent? || old(disk).anchor == Holds(certificate))
    {
      CalmLooks();
      ok := Look();
      if !ok {
        return;
      }
      var present := Anchor();
      if present.Err? {
        return false;
      }
      if present.value {
        ok := Do(DropAnchor);
        if !ok {
          return;
        }
      }
      ok := Refresh();
    }

    // -------------------------------------------------------------------------
    // The manager
    // -------------------------------------------------------------------------

    /** removeReceipt: the receipt first, so that the snapshot outlives it. */
    method RemoveReceipt() returns (ok: bool)
      modifies this
      ensures old(trail) <= trail && old(log) <= log
      ensures old(Good()) && old(disk).anchor.Absent? && !old(disk).fromAnchor ==> Good()
      ensures disk == old(disk).(receipt := disk.receipt, snapshot := disk.snapshot)
      ensures ok ==> !dead && disk.receipt.NoReceipt? && disk.snapshot.Absent?
      ensures old(dead) ==> dead && disk == old(disk)
      ensures forall v :: Calm(v) && !old(dead) ==>
                !dead && (ok <==> !old(disk).receipt.NoReceipt? && !old(disk).snapshot.Absent?)
    {
      ok := Do(DropReceipt);
      if ok {
        ok := Do(DropSnapshot);
      }
    }

    /** readReceipt with the snapshot check of lines 177-185; Some(true) is a usable receipt. */
    method ReadOwnership(tolerate: bool) returns (owned: Result<bool, Problem>, known: bool)
      modifies this
      ensures disk == old(disk) && old(trail) <= trail && old(log) <= log && (old(Good()) ==> Good())
      ensures owned.Ok? && owned.value ==> !dead && disk.receipt.Valid() && disk.snapshot == Holds(certificate)
      ensures owned.Ok? && !owned.value && known ==> !dead && disk.receipt.NoReceipt?
      ensures !known ==> tolerate
      ensures forall v :: Looks(v) && !old(dead) ==>
                !dead && known && owned == if disk.receipt.Unreadable? then Err(BadReceipt)
                                  else if !disk.receipt.Valid() then Ok(false)
                                  else if disk.snapshot == Holds(certificate) then Ok(true) else Err(BadSnapshot)
    {
      known := true;
      var ok, denied := Read();
      if ok && !disk.receipt.NoReceipt? {
        ok, denied := Read();
        if ok && disk.receipt.Unreadable? {
          return Err(BadReceipt), true;
        }
      } else if ok {
        return Ok(false), true;
      }
      if !ok {
        if tolerate && denied {
          return Ok(false), false;
        }
        return Err(OperationFailed), true;
      }
      ok := Look();
      if !ok {
        return Err(OperationFailed), true;
      }
      if disk.snapshot != Holds(certificate) {
        return Err(BadSnapshot), true;
      }
      return Ok(true), true;
    }

    /** Lines 152-189: what has to be known before anything is done. */
    method Observe(action: Action, dry: bool, root: bool) returns (r: Report, problem: Option<Problem>)
      modifies this
      ensures old(trail) <= trail && old(log) <= log && disk == old(disk) && (old(Good()) ==> Good())
      ensures problem.None? ==> !dead && disk.anchor == if r.installed then Holds(certificate) else Absent
      ensures problem.None? && r.trusted ==> disk.InBundle()
      ensures problem.None? && !action.Status? ==>
                if r.managed then disk.receipt.Valid() && disk.snapshot == Holds(certificate) else disk.receipt.NoReceipt?
      ensures problem.None? && !action.Status? && !dry ==> root
      ensures !action.Status? ==> r.ownershipKnown
      ensures forall v :: Looks(v) && !old(dead) && (root || dry || action.Status?) ==> !dead && (problem, r) == Found(disk, action, v)
      ensures forall v :: Looks(v) && !old(dead) && (root || dry || action.Status?) && (action.Trust? ==> v) && Clear(disk, certificate) ==>
                problem == None && r == Report(disk.anchor == Holds(certificate), v && disk.InBundle(), disk.receipt.Valid(), true)
    {
      r := Report(false, false, false, true);
      if action.Trust? && !validAt(clock) {
        return r, Some(NotCurrentlyValid);
      }
      var ok;
      if !action.Status? && !dry {
        if !root {
          return r, Some(NotRoot);
        }
        ok := Look();
        if ok {
          ok := Look();
        }
        if !ok {
          return r, Some(OperationFailed);
        }
      }
      var owned, known := ReadOwnership(action.Status?);
      if owned.Err? {
        return r, Some(owned.error);
      }
      r := r.(managed := owned.value, ownershipKnown := known);
      var state := Inspect();
      if state.Err? {
        return r, Some(state.error);
      }
      r := r.(installed := state.value.0, trusted := state.value.1);
      problem := None;
    }

    /** The same when every look works. */
    ghost function Found(d: Disk, action: Action, valid: bool): (Option<Problem>, Report) {
      var owned := d.receipt.Valid();
      var seen := Report(false, false, owned, true);
      if action.Trust? && !valid then (Some(NotCurrentlyValid), Report(false, false, false, true))
      else if d.receipt.Unreadable? then (Some(BadReceipt), Report(false, false, false, true))
      else if owned && d.snapshot != Holds(certificate) then (Some(BadSnapshot), Report(false, false, false, true))
      else if !d.anchor.Absent? && d.anchor != Holds(certificate) then (Some(BadAnchor), seen)
      else (None, seen.(installed := d.anchor == Holds(certificate), trusted := valid && d.InBundle()))
    }

    method Execute(action: Action, dry: bool, root: bool) returns (r: Report, outcome: Outcome)
      modifies this
      // History is only added to, and safety is only lost to a misreported receipt, then for good.
      ensures old(trail) <= trail && old(log) <= log
      ensures old(Good()) ==> if Lost(log) then Stuck() else Good()
      ensures old(Stuck()) ==> Stuck()
      // A receipt without its snapshot can be neither used nor removed.
      ensures old(disk).receipt.Valid() && old(disk).snapshot != Holds(certificate) ==> disk == old(disk)
      ensures old(disk).receipt.Valid() && old(disk).snapshot != Holds(certificate) && !action.Status? ==> outcome.Refused?
      // One such run.
      ensures ReceiptMisreported() && !old(dead) && root && !dry && action.Trust? && old(disk).receipt.NoReceipt? &&
                old(disk).snapshot.Absent? && old(disk).anchor.Absent? && !old(disk).InBundle() ==>
                !dead && outcome == Refused(OperationFailed) && disk == old(disk).(receipt := Pending, snapshot := Absent)
      // Looking changes nothing, and neither does anybody but root.
      ensures dry || action.Status? || !root ==> disk == old(disk)
      // An anchor that no valid receipt accounts for is never touched.
      ensures !old(disk).anchor.Absent? && !old(disk).receipt.Valid() ==> disk == old(disk) && !outcome.Changed?
      // What the report of a change is worth.
      ensures outcome.Changed? && action.Trust? ==>
                !dead && disk == Disk(Holds(certificate), Installed, Holds(certificate), true, disk.other, disk.other)
      ensures outcome.Changed? && action.Untrust? ==>
                !dead && disk == Disk(Absent, NoReceipt, Absent, false, disk.other, disk.other)
      ensures outcome.Changed? && action.Trust? ==> r == Report(true, true, true, true)
      ensures outcome.Changed? && action.Untrust? ==> !r.installed && !r.managed && r.ownershipKnown && (r.trusted ==> disk.other)
      ensures outcome.AlreadyTrusted? ==> disk == old(disk) && disk.InBundle()
      // Trust that is already there is reported and left as it is, managed or not; nothing else is reported so.
      ensures Looks(true) && !old(dead) && (root || dry) && action.Trust? && Clear(old(disk), certificate) ==>
                (outcome.AlreadyTrusted? <==> old(disk).InBundle())
      ensures Looks(true) && !old(dead) && (root || dry) && action.Trust? && Clear(old(disk), certificate) && old(disk).InBundle() ==>
                disk == old(disk) && r == Report(disk.anchor == Holds(certificate), true, disk.receipt.Valid(), true)
      // Status tells whether the certificate is valid now and in the bundle, and whose it is.
      ensures forall v :: Looks(v) && !old(dead) && action.Status? && Clear(old(disk), certificate) ==>
                && outcome == (if v && disk.InBundle() then Checked else Refused(NotTrusted))
                && r == Report(disk.anchor == Holds(certificate), v && disk.InBundle(), disk.receipt.Valid(), true)
      // Without failures it is the ideal transition.
      ensures forall v :: Calm(v) && !old(dead) && root ==>
                (disk, outcome) == Ideal(old(disk), action, dry, v, certificate)
    {
      CalmLooks();
      var problem;
      r, problem := Observe(action, dry, root);
      if problem.Some? {
        return r, Refused(problem.value);
      }
      match action {
        case Status =>
          outcome := if r.trusted then Checked else Refused(NotTrusted);
        case Trust =>
          r, outcome := Install(r, dry);
        case Untrust =>
          r, outcome := Uninstall(r, dry);
      }
    }

    /** Lines 197-258. */
    method Install(seen: Report, dry: bool) returns (r: Report, outcome: Outcome)
      requires !dead
      requires seen.managed ==> disk.receipt.Valid() && disk.snapshot == Holds(certificate)
      requires !seen.managed ==> disk.receipt.NoReceipt?
      requires disk.anchor == if seen.installed then Holds(certificate) else Absent
      requires seen.trusted ==> disk.InBundle()
      modifies this
      ensures old(trail) <= trail && old(log) <= log && (old(Good()) ==> Good() || Stuck())
      ensures dry || (seen.installed && !seen.managed) ==> disk == old(disk) && !outcome.Changed?
      ensures outcome.Changed? ==>
                !dead && disk == Disk(Holds(certificate), Installed, Holds(certificate), true, disk.other, disk.other)
      ensures outcome.Changed? && seen.ownershipKnown ==> r == Report(true, true, true, true)
      ensures outcome.AlreadyTrusted? <==> seen.trusted
      ensures outcome.AlreadyTrusted? ==> disk == old(disk) && disk.InBundle() && r == seen
      ensures forall v :: Calm(v) && v && seen.trusted == old(disk).InBundle() ==>
                (disk, outcome) == Ideal(old(disk), Trust, dry, v, certificate)
      ensures ReceiptMisreported() && !seen.trusted && !seen.installed && !seen.managed && !dry && old(disk).snapshot.Absent? ==>
                !dead && outcome == Refused(OperationFailed) && disk == old(disk).(receipt := Pending, snapshot := Absent)
    {
      CalmLooks();
      r := seen;
      if r.trusted {
        return r, AlreadyTrusted;
      }
      if r.installed && !r.managed {
        return r, Refused(UnmanagedPresent);
      }
      if dry {
        return r, WouldChange;
      }
      if !r.managed {
        var problem := Claim();
        if problem.Some? {
          return r, Refused(problem.value);
        }
      }
      r := r.(managed := true);
      var added := Add();
      if added {
        var state := Inspect();
        added := state.Ok? && state.value.1;
        if state.Ok? {
          r := r.(installed := state.value.0, trusted := state.value.1);
        }
      }
      if !added {
        r := RollBack(r);
        return r, Refused(OperationFailed);
      }
      var ok := Do(MarkInstalled);
      if !ok {
        return r, Refused(OperationFailed);
      }
      return r, Changed;
    }

    /** Lines 212-222: the snapshot, then the pending receipt. */
    method Claim() returns (problem: Option<Problem>)
      requires !dead && disk.receipt.NoReceipt?
      modifies this
      ensures old(trail) <= trail && old(log) <= log && (old(Good()) ==> Good() || (problem.Some? && Stuck()))
      ensures ReceiptMisreported() && old(disk).snapshot.Absent? ==>
                !dead && problem == Some(OperationFailed) && disk == old(disk).(receipt := Pending, snapshot := Absent)
      ensures disk == old(disk).(receipt := disk.receipt, snapshot := disk.snapshot)
      ensures problem.None? ==> !dead && disk.receipt.Pending? && disk.snapshot == Holds(certificate)
      ensures forall v :: Calm(v) ==>
                !dead && if old(disk).snapshot.Absent? then problem.None? else problem == Some(SnapshotNotCreated) && disk == old(disk)
    {
      var ok := Do(WriteSnapshot);
      if !ok {
        return Some(SnapshotNotCreated);
      }
      hide Lost;
      ok := Do(WriteReceipt);
      if !ok {
        var _ := Do(DropSnapshot);
        return Some(OperationFailed);
      }
      return None;
    }

    /** Lines 231-249. */
    method RollBack(seen: Report) returns (r: Report)
      modifies this
      ensures old(trail) <= trail && old(log) <= log && (old(Good()) ==> Good())
      ensures seen.managed && !r.managed ==> disk == Disk(Absent, NoReceipt, Absent, false, disk.other, disk.other)
    {
      r := seen;
      var removed := Remove();
      if removed {
        removed := RemoveReceipt();
        if removed {
          r := r.(managed := false);
        }
      }
      var state := Inspect();
      if state.Ok? {
        r := r.(installed := state.value.0, trusted := state.value.1);
      }
    }

    /** Lines 259-287. */
    method Uninstall(seen: Report, dry: bool) returns (r: Report, outcome: Outcome)
      requires !dead
      requires seen.managed ==> disk.receipt.Valid() && disk.snapshot == Holds(certificate)
      requires !seen.managed ==> disk.receipt.NoReceipt?
      requires disk.anchor == if seen.installed then Holds(certificate) else Absent
      modifies this
      ensures old(trail) <= trail && old(log) <= log && (old(Good()) ==> Good())
      ensures dry || !seen.managed ==> disk == old(disk) && !outcome.Changed?
      ensures outcome.Changed? ==>
                !dead && disk == Disk(Absent, NoReceipt, Absent, false, disk.other, disk.other) && (r.trusted ==> disk.other)
      ensures outcome.Changed? ==> !r.installed && !r.managed && r.ownershipKnown == seen.ownershipKnown
      ensures !outcome.AlreadyTrusted?
      ensures forall v :: Calm(v) && seen.trusted == (v && old(disk).InBundle()) ==>
                (disk, outcome) == Ideal(old(disk), Untrust, dry, v, certificate)
    {
      CalmLooks();
      r := seen;
      if !r.managed {
        return r, if r.installed || r.trusted then Refused(UnmanagedPresent) else NothingToRemove;
      }
      if dry {
        return r, WouldChange;
      }
      var ok := Remove();
      if !ok {
        return r, Refused(OperationFailed);
      }
      var state := Inspect();
      if state.Err? {
        return r, Refused(state.error);
      }
      r := r.(installed := state.value.0, trusted := state.value.1);
      if r.installed {
        return r, Refused(StillInstalled);
      }
      ok := RemoveReceipt();
      if !ok {
        return r, Refused(OperationFailed);
      }
      r := r.(managed := false);
      return r, Changed;
    }

    // -------------------------------------------------------------------------
    // Between two runs
    // -------------------------------------------------------------------------

    /** A new process. */
    method Restart()
      modifies this
      ensures !dead && disk == old(disk) && trail == old(trail) && log == old(log)
    {
      dead := false;
    }

    /** Somebody else installs or removes the certificate elsewhere, and may rebuild the bundle. */
    method Others(provide: bool, rebuild: bool)
      modifies this
      ensures old(trail) <= trail && old(log) <= log && (old(Good()) ==> Good())
      ensures log == old(log) && (old(Stuck()) ==> Stuck())
      ensures disk.snapshot == old(disk).snapshot && disk.receipt == old(disk).receipt && disk.anchor == old(disk).anchor
    {
      disk := disk.(other := provide);
      if rebuild {
        disk := Rebuilt(disk, certificate);
      }
      trail := trail + [disk];
    }
  }

  datatype Event = Run(action: Action, dry: bool, root: bool) | Others(provide: bool, rebuild: bool)

  /**
   * Any number of runs of the command, each of which may fail or die anywhere, with other tools
   * at work in between.  At every moment a valid receipt has its snapshot, and where there is no
   * valid receipt the anchor is gone and the bundle no longer holds the certificate on its
   * account - if and only if no receipt creation that reported failure left the receipt behind
   * and the removal of the snapshot after it happened.  After that the orphaned receipt stays.
   */
  method Lifetime(certificate: nat, fate: (nat, Effect) -> Fate, validAt: nat -> bool, start: Disk, events: seq<Event>)
    returns (final: Disk, history: seq<Disk>, log: seq<Op>)
    requires Safe(start, certificate)
    ensures final in history && start in history
    ensures (forall d :: d in history ==>
               if d.receipt.Valid() then d.snapshot == Holds(certificate) else d.anchor.Absent? && !d.fromAnchor)
            <==> !Lost(log)
    ensures if Lost(log) then Orphaned(final)
            else if final.receipt.Valid() then final.snapshot == Holds(certificate)
            else final.anchor.Absent? && !final.fromAnchor
  {
    hide Lost, Orphaned;
    var m := new Manager(certificate, fate, validAt, start);
    NothingLostYet();
    for i := 0 to |events|
      invariant if Lost(m.log) then m.Stuck() else m.Good()
      invariant m.certificate == certificate && [start] <= m.trail
      invariant fresh(m)
    {
      m.Restart();
      match events[i] {
        case Run(action, dry, root) =>
          var _, _ := m.Execute(action, dry, root);
        case Others(provide, rebuild) =>
          m.Others(provide, rebuild);
      }
    }
    final, log := m.disk, m.log;
    history := m.trail + [m.disk];
    assert history[0] == start;
  }

  lemma NothingLostYet()
    ensures !Lost([])
  {
  }

  /** From a clean store: one run of trust in which everything works but the report of one file's creation, and then nothing helps. */
  method MisreportedReceipt(certificate: nat, other: bool) returns (first: Outcome, second: Outcome, third: Outcome, final: Disk)
    ensures first == Refused(OperationFailed) && second.Refused? && third.Refused?
    ensures final == Disk(Absent, Pending, Absent, false, false, other)
    ensures final.receipt.Valid() && !Safe(final, certificate)
  {
    var fate: (nat, Effect) -> Fate := (n: nat, e: Effect) => if e.WriteReceipt? then FailsAfter else Works;
    var validAt: nat -> bool := n => true;
    var m := new Manager(certificate, fate, validAt, Disk(Absent, NoReceipt, Absent, false, false, other));
    assert m.ReceiptMisreported();
    var _, a := m.Execute(Trust, false, true);
    var _, b := m.Execute(Trust, false, true);
    var _, c := m.Execute(Untrust, false, true);
    first, second, third, final := a, b, c, m.disk;
  }

  // ---------------------------------------------------------------------------
  // What can be recovered
  // ---------------------------------------------------------------------------

  /** What each action comes to on a clear store with a valid certificate; the first line that applies decides. */
  lemma OutcomesOnClearStore(d: Disk, c: nat, dry: bool)
    requires Clear(d, c)
    ensures d.InBundle() ==> Ideal(d, Trust, dry, true, c) == (d, AlreadyTrusted)
    ensures !d.InBundle() && d.anchor == Holds(c) && d.receipt.NoReceipt? ==> Ideal(d, Trust, dry, true, c) == (d, Refused(UnmanagedPresent))
    ensures !d.InBundle() && (d.anchor.Absent? || d.receipt.Valid()) && dry ==> Ideal(d, Trust, dry, true, c) == (d, WouldChange)
    ensures !d.InBundle() && d.anchor.Absent? && d.receipt.NoReceipt? && !d.snapshot.Absent? && !dry ==>
              Ideal(d, Trust, dry, true, c) == (d, Refused(SnapshotNotCreated))
    ensures d.receipt.NoReceipt? ==>
              Ideal(d, Untrust, dry, true, c) ==
              (d, if d.anchor == Holds(c) || d.InBundle() then Refused(UnmanagedPresent) else NothingToRemove)
    ensures d.receipt.Valid() && dry ==> Ideal(d, Untrust, dry, true, c) == (d, WouldChange)
    ensures Ideal(d, Status, dry, true, c) == (d, if d.InBundle() then Checked else Refused(NotTrusted))
  {
  }

  /** A store that is not clear is refused by every action, naming the first thing wrong, and left alone. */
  lemma UnclearStoreIsRefused(d: Disk, c: nat, action: Action, dry: bool)
    requires !Clear(d, c)
    ensures Ideal(d, action, dry, true, c) ==
            (d, Refused(if d.receipt.Unreadable? then BadReceipt
                        else if d.receipt.Valid() && d.snapshot != Holds(c) then BadSnapshot else BadAnchor))
  {
  }

  /** A certificate that is not valid now is not newly trusted, but can be removed and is reported as not trusted. */
  lemma InvalidCertificate(d: Disk, c: nat, dry: bool)
    ensures Ideal(d, Trust, dry, false, c) == (d, Refused(NotCurrentlyValid))
    ensures Clear(d, c) ==> Ideal(d, Status, dry, false, c) == (d, Refused(NotTrusted))
    ensures Clear(d, c) && d.receipt.Valid() && !dry ==> Ideal(d, Untrust, dry, false, c).1 == Changed
  {
  }

  /** Trusting twice is trusting once. */
  method TrustTwice(certificate: nat, fate: (nat, Effect) -> Fate, validAt: nat -> bool, start: Disk)
    returns (first: Outcome, between: Disk, second: Outcome, final: Disk)
    requires forall n :: fate(n, Check).Works? && validAt(n)
    ensures first.Changed? || (first.AlreadyTrusted? && Clear(start, certificate)) ==> second == AlreadyTrusted && final == between
    ensures first.AlreadyTrusted? ==> between == start
  {
    var m := new Manager(certificate, fate, validAt, start);
    assert m.Looks(true);
    var _, a := m.Execute(Trust, false, true);
    first, between := a, m.disk;
    m.Restart();
    var _, b := m.Execute(Trust, false, true);
    second, final := b, m.disk;
  }

  ghost predicate AnchorUsable(d: Disk, c: nat) {
    d.anchor.Absent? || d.anchor == Holds(c)
  }

  /** Every state that Lifetime can end in. */
  ghost predicate Reachable(d: Disk, c: nat) {
    Safe(d, c) || Orphaned(d)
  }

  /** An undisturbed untrust cleans up exactly when there is a valid receipt with its snapshot and no torn or foreign anchor. */
  lemma UntrustRecoversExactly(d: Disk, valid: bool, c: nat)
    requires Reachable(d, c)
    ensures Ideal(d, Untrust, false, valid, c).1.Changed? <==> d.receipt.Valid() && !Orphaned(d) && AnchorUsable(d, c)
    ensures Ideal(d, Untrust, false, valid, c).1.Changed? ==>
              var e := Ideal(d, Untrust, false, valid, c).0;
              e.receipt.NoReceipt? && e.snapshot.Absent? && e.anchor.Absent? && (e.InBundle() <==> d.other)
  {
  }

  /**
   * An undisturbed trust of a valid certificate that is not in the bundle succeeds exactly when a
   * valid receipt with its snapshot can be resumed or neither receipt nor snapshot was left
   * behind: either one left without the other blocks it for good.
   */
  lemma TrustRetriesExactly(d: Disk, c: nat)
    requires Reachable(d, c) && !d.InBundle()
    ensures Ideal(d, Trust, false, true, c).1.Changed? <==>
            if d.receipt.Valid() then !Orphaned(d) && AnchorUsable(d, c) else d.receipt.NoReceipt? && d.snapshot.Absent?
  {
  }

  /** Such a leftover is reachable: dying between the snapshot and the receipt is enough. */
  lemma CrashCanBlockTrust(other: bool, c: nat)
    ensures var clean := Disk(Absent, NoReceipt, Absent, false, false, other);
            var torn := After(After(clean, WriteSnapshot, Works, c), WriteReceipt, Dies, c);
            && Safe(clean, c) && Safe(torn, c)
            && Ideal(clean, Trust, false, true, c).1.Changed?
            && Ideal(torn, Trust, false, true, c) == (torn, Refused(SnapshotNotCreated))
            && Ideal(torn, Untrust, false, true, c) == (torn, NothingToRemove)
  {
  }

  /** Trust then untrust, undisturbed, is the identity on everything but a rebuilt bundle. */
  lemma UntrustUndoesTrust(d: Disk, valid: bool, c: nat)
    requires Safe(d, c) && d.receipt.NoReceipt?
    requires Ideal(d, Trust, false, true, c).1.Changed?
    ensures Ideal(Ideal(d, Trust, false, true, c).0, Untrust, false, valid, c) == (d.(fromOther := d.other), Changed)
  {
  }
}
