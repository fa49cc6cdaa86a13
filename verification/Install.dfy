/**
 * internal/service/service.go: installing and removing the service as a transaction over three
 * files, the executable, its definition and the manifest that records their hashes.  Every file
 * or native operation may fail; hashing and the manifest's encoding are parameters.
 */
module Install {
  import opened Wrappers

  type Bytes = seq<char>
  type Digest = string

  /** A read that fails may still have returned the first `kept` bytes. */
  datatype Fate = Works | Fails(kept: nat)

  datatype Manifest = Manifest(executable: Digest, definition: Digest, config: string, socket: string)

  datatype Slot = Executable | Definition | Record

  datatype Files = Files(executable: Option<Bytes>, definition: Option<Bytes>, record: Option<Bytes>) {
    function Get(s: Slot): Option<Bytes> {
      match s
      case Executable => executable
      case Definition => definition
      case Record => record
    }

    function Put(s: Slot, content: Option<Bytes>): Files {
      match s
      case Executable => this.(executable := content)
      case Definition => this.(definition := content)
      case Record => this.(record := content)
    }
  }

  /** What may fail: reading a file for its copy, replacing it, removing it, stopping the service, and everything else. */
  datatype Operation = Copying(slot: Slot) | Replacing(slot: Slot) | Removing(slot: Slot) | Stopping | Native

  const NOTHING := Files(None, None, None)

  /** What is to be installed: the running binary, the generated definition, the configuration path and socket. */
  datatype Plan = Plan(binary: Bytes, definition: Bytes, config: string, socket: string)

  datatype Health = Ready | Degraded | Silent

  datatype Outcome =
    | DryRun
    | Refused
    | Unchanged
    | UnhealthyUnchanged
    | RolledBack(clean: bool)
    | RunsDegraded
    | Installed

  datatype Removal = NoInstallation | WouldRemove | Failed | Removed

  /** The copies taken at lines 301-303. */
  datatype Copies = Copies(executable: Bytes, definition: Bytes, record: Bytes)

  /** What a read whose error is ignored yields. */
  function Copied(content: Option<Bytes>, f: Fate): Bytes {
    match content
    case None => []
    case Some(b) => if f.Works? || f.kept >= |b| then b else b[..f.kept]
  }

  // ---------------------------------------------------------------------------
  // What rolling back restores
  // ---------------------------------------------------------------------------

  /** The files after a rollback without problems, lines 315-340, when `entry` was found. */
  function Restored(entry: Files, copies: Copies, wroteBin: bool, wroteDef: bool): Files {
    if entry.record.None? then
      Files(if wroteBin then None else entry.executable, if wroteDef then None else entry.definition, None)
    else
      Files(if wroteBin then Some(copies.executable) else entry.executable,
            if wroteDef then Some(copies.definition) else entry.definition,
            Some(copies.record))
  }

  /** The file was there, and the read got all of it. */
  predicate ReadWhole(content: Option<Bytes>, f: Fate) {
    content.Some? && (f.Works? || f.kept >= |content.value|)
  }

  function CopiesOf(entry: Files, bin: Fate, def: Fate, rec: Fate): Copies {
    Copies(Copied(entry.executable, bin), Copied(entry.definition, def), Copied(entry.record, rec))
  }

  lemma CopyIsWhole(content: Option<Bytes>, f: Fate)
    ensures content == Some(Copied(content, f)) <==> ReadWhole(content, f)
  {
    if content.Some? && f.Fails? && f.kept < |content.value| {
      assert |Copied(content, f)| < |content.value|;
    }
  }

  /**
   * A rollback without problems restores the files as they were found exactly when it undoes a
   * first installation, or the manifest and every file it writes back were there and read whole.
   */
  lemma RollbackRestoresExactly(entry: Files, bin: Fate, def: Fate, rec: Fate, wroteBin: bool, wroteDef: bool)
    requires entry.record.None? ==> entry == NOTHING
    ensures Restored(entry, CopiesOf(entry, bin, def, rec), wroteBin, wroteDef) == entry <==>
              || entry.record.None?
              || ((wroteBin ==> ReadWhole(entry.executable, bin))
                  && (wroteDef ==> ReadWhole(entry.definition, def))
                  && ReadWhole(entry.record, rec))
  {
    hide Copied, ReadWhole;
    CopyIsWhole(entry.executable, bin);
    CopyIsWhole(entry.definition, def);
    CopyIsWhole(entry.record, rec);
  }

  lemma RollbackOfNothing(copies: Copies, wroteBin: bool, wroteDef: bool)
    ensures Restored(NOTHING, copies, wroteBin, wroteDef) == NOTHING
  {
  }

  class Service {
    const linux: bool
    const sha: Bytes -> Digest
    const encode: Manifest -> Bytes
    /** readManifest: None is a record that does not parse or names other paths. */
    const decode: Bytes -> Option<Manifest>
    const fate: (nat, Operation) -> Fate
    var files: Files
    var clock: nat
    var copies: Copies
    /** When the copies were read. */
    ghost var savedAt: nat
    var wroteBin: bool
    var wroteDef: bool

    constructor (linux: bool, sha: Bytes -> Digest, encode: Manifest -> Bytes, decode: Bytes -> Option<Manifest>,
                 fate: (nat, Operation) -> Fate, files: Files)
      ensures this.linux == linux && this.sha == sha && this.encode == encode && this.decode == decode && this.fate == fate
      ensures this.files == files && clock == 0
    {
      this.linux, this.sha, this.encode, this.decode, this.fate := linux, sha, encode, decode, fate;
      this.files, clock := files, 0;
      copies, wroteBin, wroteDef, savedAt := Copies([], [], []), false, false, 0;
    }

    /** Nothing whose error is looked at fails from now on. */
    ghost predicate Calm()
      reads this`clock
    {
      forall n: nat, op: Operation :: n >= clock && !op.Copying? ==> fate(n, op).Works?
    }

    /** Only operations on the three files may fail from now on. */
    ghost predicate HostWorks()
      reads this`clock
    {
      forall n: nat :: n >= clock ==> fate(n, Native).Works?
    }

    /** Every read for a copy works. */
    ghost predicate CopiesWork() {
      forall n: nat, s: Slot :: fate(n, Copying(s)).Works?
    }

    /** One operation fails whenever it is tried, and nothing else does. */
    ghost predicate OnlyFails(op: Operation) {
      forall n: nat, o: Operation :: fate(n, o).Works? <==> o != op
    }

    /** The manifest describes the files that are there; without one there are none. */
    ghost predicate Owns(m: Option<Manifest>, files: Files) {
      match m
      case None => files == NOTHING
      case Some(recorded) =>
        && files.record.Some? && decode(files.record.value) == m
        && (files.executable.Some? ==> sha(files.executable.value) == recorded.executable)
        && (files.definition.Some? ==> sha(files.definition.value) == recorded.definition)
    }

    function For(plan: Plan): Manifest {
      Manifest(sha(plan.binary), sha(plan.definition), plan.config, plan.socket)
    }

    // -------------------------------------------------------------------------
    // Operations that may fail
    // -------------------------------------------------------------------------

    method Try(op: Operation) returns (ok: bool)
      modifies this`clock
      ensures clock == old(clock) + 1 && ok == fate(old(clock), op).Works?
    {
      ok := fate(clock, op).Works?;
      clock := clock + 1;
    }

    /** fsutil.Atomic: replaces the file or leaves it. */
    method Atomic(s: Slot, b: Bytes) returns (ok: bool)
      modifies this`clock, this`files
      ensures clock == old(clock) + 1 && ok == fate(old(clock), Replacing(s)).Works?
      ensures files == if ok then old(files).Put(s, Some(b)) else old(files)
    {
      ok := Try(Replacing(s));
      if ok {
        files := files.Put(s, Some(b));
      }
    }

    /** os.Remove; a missing file is an error, told apart by the callers that care. */
    method Remove(s: Slot) returns (ok: bool, missing: bool)
      modifies this`clock, this`files
      ensures clock == old(clock) + 1
      ensures missing == (fate(old(clock), Removing(s)).Works? && old(files).Get(s).None?)
      ensures ok == (fate(old(clock), Removing(s)).Works? && old(files).Get(s).Some?)
      ensures files == if ok then old(files).Put(s, None) else old(files)
    {
      ok := Try(Removing(s));
      missing := ok && files.Get(s).None?;
      ok := ok && files.Get(s).Some?;
      if ok {
        files := files.Put(s, None);
      }
    }

    method ReadManifest() returns (ok: bool, m: Option<Manifest>)
      modifies this`clock
      ensures clock >= old(clock)
      ensures ok ==> if files.record.None? then m.None? else m.Some? && decode(files.record.value) == m
      ensures old(HostWorks()) ==> (ok <==> files.record.None? || decode(files.record.value).Some?)
    {
      m := None;
      ok := Try(Native);
      if ok && files.record.Some? {
        m := decode(files.record.value);
        ok := m.Some?;
      }
    }

    /** inspectOwned, with the Lstat before it on the way in: whether the target may be replaced. */
    method Inspect(s: Slot, want: Option<Digest>) returns (ok: bool)
      modifies this`clock
      ensures clock >= old(clock)
      ensures ok ==> files.Get(s).None? || (want.Some? && sha(files.Get(s).value) == want.value)
      ensures old(HostWorks()) ==> (ok <==> files.Get(s).None? || (want.Some? && sha(files.Get(s).value) == want.value))
    {
      ok := Try(Native);
      if ok && files.Get(s).Some? {
        if want.None? {
          return false;
        }
        ok := Try(Native);
        ok := ok && sha(files.Get(s).value) == want.value;
      }
    }

    // -------------------------------------------------------------------------
    // Install
    // -------------------------------------------------------------------------

    /** Lines 212-255: what is installed now, or a refusal. */
    method Examine() returns (ok: bool, m: Option<Manifest>)
      modifies this`clock
      ensures clock >= old(clock)
      ensures ok ==> Owns(m, files) && (m.Some? <==> files.record.Some?)
      ensures old(HostWorks()) && (exists e :: Owns(e, files)) ==> ok
    {
      m := None;
      ok := Try(Native);
      if !ok {
        return;
      }
      ok, m := ReadManifest();
      if !ok {
        return;
      }
      ok := Inspect(Executable, if m.Some? then Some(m.value.executable) else None);
      if ok {
        ok := Inspect(Definition, if m.Some? then Some(m.value.definition) else None);
      }
    }

    /** The copies are what three reads beginning at operation n gave. */
    ghost predicate CopiedAt(n: nat, files: Files)
      reads this`copies
    {
      copies == CopiesOf(files, fate(n, Copying(Executable)), fate(n + 1, Copying(Definition)), fate(n + 2, Copying(Record)))
    }

    /** The reads beginning at operation n got all that the run wrote over. */
    ghost predicate ReadWholeAt(n: nat, files: Files)
      reads this`wroteBin, this`wroteDef
    {
      && (wroteBin ==> ReadWhole(files.executable, fate(n, Copying(Executable))))
      && (wroteDef ==> ReadWhole(files.definition, fate(n + 1, Copying(Definition))))
      && ReadWhole(files.record, fate(n + 2, Copying(Record)))
    }

    /** Lines 301-312: the errors of the reads are dropped, those of the backup are not. */
    method SaveCopies() returns (ok: bool)
      modifies this`clock, this`copies, this`savedAt
      ensures clock >= old(clock) && savedAt == old(clock) && CopiedAt(savedAt, files)
      ensures old(Calm()) ==> ok
    {
      savedAt := clock;
      copies := CopiesOf(files, fate(clock, Copying(Executable)), fate(clock + 1, Copying(Definition)), fate(clock + 2, Copying(Record)));
      clock := clock + 3;
      ok := Try(Native);
    }

    /** The rollback closure, lines 315-352. */
    method RollBack(owned: bool) returns (clean: bool)
      requires wroteBin ==> files.executable.Some?
      requires wroteDef ==> files.definition.Some?
      requires owned ==> files.record.Some?
      modifies this`clock, this`files
      ensures clock >= old(clock)
      ensures clean ==> files == Files(
                if wroteBin then (if owned then Some(copies.executable) else None) else old(files).executable,
                if wroteDef then (if owned then Some(copies.definition) else None) else old(files).definition,
                if owned then Some(copies.record) else None)
      ensures old(Calm()) ==> clean
    {
      var _ := Try(Stopping);
      clean := true;
      if wroteBin {
        var ok, missing := Undo(owned, Executable, copies.executable);
        clean := clean && ok;
      }
      if wroteDef {
        var ok, missing := Undo(owned, Definition, copies.definition);
        clean := clean && ok;
      }
      var ok, missing := Undo(owned, Record, copies.record);
      clean := clean && (ok || missing);
      if linux {
        ok := Try(Native);
        clean := clean && ok;
      }
      if owned {
        ok := Try(Native);
        clean := clean && ok;
      } else if linux {
        ok := Try(Native);
      }
    }

    method Undo(owned: bool, s: Slot, copy: Bytes) returns (ok: bool, missing: bool)
      modifies this`clock, this`files
      ensures clock == old(clock) + 1
      ensures ok ==> files == old(files).Put(s, if owned then Some(copy) else None)
      ensures missing ==> !owned && old(files).Get(s).None?
      ensures !ok ==> files == old(files)
      ensures old(Calm()) ==> ok || missing
      ensures old(Calm()) && old(files).Get(s).Some? ==> ok
    {
      missing := false;
      if owned {
        ok := Atomic(s, copy);
      } else {
        ok, missing := Remove(s);
      }
    }

    /** Line 360: whether the executable has to be written. */
    predicate Rewrites(plan: Plan, m: Option<Manifest>) {
      m.None? || m.value.executable != sha(plan.binary)
    }

    /** Lines 360-387: the files that have to change, the manifest last, then the service. */
    method WriteAll(plan: Plan, m: Option<Manifest>) returns (ok: bool)
      requires m.Some? <==> files.record.Some?
      modifies this`clock, this`files, this`wroteBin, this`wroteDef
      ensures clock >= old(clock)
      ensures files.executable == if wroteBin then Some(plan.binary) else old(files).executable
      ensures files.definition == if wroteDef then Some(plan.definition) else old(files).definition
      ensures m.Some? ==> files.record.Some?
      ensures wroteBin ==> Rewrites(plan, m)
      ensures ok ==> Complete(plan, m, old(files), files)
      ensures old(Calm()) ==> ok && wroteDef && (wroteBin <==> Rewrites(plan, m))
    {
      wroteBin, wroteDef := false, false;
      if Rewrites(plan, m) {
        ok := Atomic(Executable, plan.binary);
        if !ok {
          return;
        }
        wroteBin := true;
      }
      ok := Atomic(Definition, plan.definition);
      if !ok {
        return;
      }
      wroteDef := true;
      ok := Atomic(Record, encode(For(plan)));
      if ok {
        ok := Start(linux);
      }
    }

    /** Lines 353-394. */
    method Replace(plan: Plan, m: Option<Manifest>, running: bool, health: Health) returns (outcome: Outcome)
      requires Owns(m, files) && (m.Some? <==> files.record.Some?)
      modifies this`clock, this`files, this`wroteBin, this`wroteDef
      ensures clock >= old(clock)
      ensures outcome.Refused? || outcome.RolledBack? || outcome.RunsDegraded? || outcome.Installed?
      ensures outcome.Refused? ==> files == old(files)
      ensures outcome == RolledBack(true) ==> files == Restored(old(files), copies, wroteBin, wroteDef)
      ensures outcome.RunsDegraded? || outcome.Installed? ==> Complete(plan, m, old(files), files)
      ensures outcome.RolledBack? && wroteBin ==> Rewrites(plan, m)
      ensures old(Calm()) && health.Silent? ==> wroteDef && (wroteBin <==> Rewrites(plan, m))
      ensures old(Calm()) ==> outcome == match health case Ready => Installed case Degraded => RunsDegraded case Silent => RolledBack(true)
      ensures OnlyFails(Stopping) && m.Some? && running ==> outcome.Refused?
    {
      hide Complete, Owns;
      var ok;
      if m.Some? && running {
        ok := Try(Stopping);
        if !ok {
          return Refused;
        }
      }
      ok := WriteAll(plan, m);
      if !ok || health.Silent? {
        var clean := RollBack(m.Some?);
        return RolledBack(clean);
      }
      return if health.Degraded? then RunsDegraded else Installed;
    }

    /** Registering and starting the service. */
    method Start(reload: bool) returns (ok: bool)
      modifies this`clock
      ensures clock >= old(clock)
      ensures old(HostWorks()) ==> ok
    {
      ok := true;
      if reload {
        ok := Try(Native);
      }
      if ok {
        ok := Try(Native);
      }
      if ok {
        ok := Try(Native);
      }
    }

    /** The files after a successful installation: the executable is rewritten only when its hash changed. */
    ghost predicate Complete(plan: Plan, m: Option<Manifest>, before: Files, now: Files) {
      && now.definition == Some(plan.definition)
      && now.record == Some(encode(For(plan)))
      && now.executable == if Rewrites(plan, m) then Some(plan.binary) else before.executable
    }

    lemma OnlyOneOwner(files: Files)
      ensures forall m :: Owns(m, files) ==> m == Recorded(files)
      ensures forall m, k :: Owns(m, files) && Owns(k, files) ==> m == k
      ensures forall m :: Owns(m, files) ==> (m.None? <==> files.record.None?) && (m.None? ==> files == NOTHING)
    {
    }

    /** Lines 299-395. */
    method Update(plan: Plan, m: Option<Manifest>, running: bool, health: Health) returns (outcome: Outcome)
      requires Owns(m, files) && (m.Some? <==> files.record.Some?)
      modifies this
      ensures clock >= old(clock)
      ensures outcome.Refused? || outcome.RolledBack? || outcome.RunsDegraded? || outcome.Installed?
      ensures outcome.Refused? ==> files == old(files)
      ensures outcome == RolledBack(true) ==> files == Restored(old(files), copies, wroteBin, wroteDef)
      ensures outcome == RolledBack(true) ==> (files == old(files) <==> m.None? || ReadWholeAt(savedAt, old(files)))
      ensures m.Some? ==> CopiedAt(savedAt, old(files))
      ensures outcome.RolledBack? && wroteBin ==> Rewrites(plan, m)
      ensures old(Calm()) && health.Silent? ==> wroteDef && (wroteBin <==> Rewrites(plan, m))
      ensures outcome.RunsDegraded? || outcome.Installed? ==> Complete(plan, m, old(files), files)
      ensures old(Calm()) ==> outcome == match health case Ready => Installed case Degraded => RunsDegraded case Silent => RolledBack(true)
      ensures OnlyFails(Stopping) && m.Some? && running ==> outcome.Refused?
    {
      hide Complete, Restored, ReadWhole, CopiesOf, Rewrites;
      if m.Some? {
        var ok := SaveCopies();
        if !ok {
          return Refused;
        }
      }
      outcome := Replace(plan, m, running, health);
      if m.None? {
        RollbackOfNothing(copies, wroteBin, wroteDef);
      } else {
        RollbackRestoresExactly(old(files), fate(savedAt, Copying(Executable)), fate(savedAt + 1, Copying(Definition)),
                                fate(savedAt + 2, Copying(Record)), wroteBin, wroteDef);
      }
    }

    /** Install, lines 196-395. */
    method Install(plan: Plan, dry: bool, root: bool, foreground: bool, running: bool, health: Health) returns (outcome: Outcome)
      modifies this
      ensures clock >= old(clock)
      // Outcomes that change nothing.
      ensures outcome.DryRun? || outcome.Refused? || outcome.Unchanged? || outcome.UnhealthyUnchanged? ==> files == old(files)
      // A running service that cannot be stopped is not updated.
      ensures OnlyFails(Stopping) && running && old(files).record.Some? ==>
                outcome.Refused? || outcome.Unchanged? || outcome.UnhealthyUnchanged? || outcome.DryRun?
      // Files nobody recorded, or that differ from their record, are never replaced.
      ensures (forall m :: !Owns(m, old(files))) ==> files == old(files) && (outcome.Refused? || outcome.DryRun?)
      // Nobody but root installs anything, and nobody beside a daemon started by hand.
      ensures outcome.DryRun? <==> dry
      ensures !dry && (!root || (foreground && old(files).record.None?)) ==> outcome.Refused?
      // A failed first installation leaves nothing behind; a failed update restores the files exactly
      // when the manifest and each file it rewrote were there and read whole.
      ensures outcome == RolledBack(true) ==>
                (files == old(files) <==> old(files).record.None? || ReadWholeAt(savedAt, old(files)))
      ensures outcome == RolledBack(true) && wroteBin ==> Rewrites(plan, Recorded(old(files)))
      // So both files present and working reads are enough.
      ensures outcome == RolledBack(true) && CopiesWork() && (old(files) == NOTHING || AllPresent(old(files))) ==> files == old(files)
      // And when nothing fails but the daemon stays silent, it is known beforehand what is restored.
      ensures forall m :: old(Calm()) && CopiesWork() && Owns(m, old(files)) && m.Some? && m != Some(For(plan)) && Goes(dry, root, foreground, m) && health.Silent? ==>
                outcome == RolledBack(true) &&
                files == Files(if Rewrites(plan, m) && old(files).executable.None? then Some([]) else old(files).executable,
                               if old(files).definition.None? then Some([]) else old(files).definition,
                               old(files).record)
      // The same when a read fails.
      ensures forall m :: old(Calm()) && Owns(m, old(files)) && m.Some? && m != Some(For(plan)) && Goes(dry, root, foreground, m) && health.Silent? ==>
                outcome == RolledBack(true) && files == Restored(old(files), copies, Rewrites(plan, m), true) && CopiedAt(savedAt, old(files))
      // Success.
      ensures outcome.RunsDegraded? || outcome.Installed? ==>
                exists m :: Owns(m, old(files)) && Complete(plan, m, old(files), files)
      ensures outcome.RunsDegraded? || outcome.Installed? ==>
                && files.definition == Some(plan.definition)
                && files.record == Some(encode(Manifest(sha(plan.binary), sha(plan.definition), plan.config, plan.socket)))
                && files.executable == if old(files).record.None? || decode(old(files).record.value).None?
                                          || decode(old(files).record.value).value.executable != sha(plan.binary)
                                       then Some(plan.binary) else old(files).executable
      // The hashes match the manifest after success, but for a file that was missing and not rewritten.
      ensures outcome.Unchanged? ==> (Matching(files) <==> old(files).executable.Some? && old(files).definition.Some?)
      ensures (outcome.RunsDegraded? || outcome.Installed?) && Faithful() ==>
                (Matching(files) <==> old(files).executable.Some? || Rewrites(plan, Recorded(old(files))))
      // When nothing fails.
      ensures forall m :: old(Calm()) && Owns(m, old(files)) && Goes(dry, root, foreground, m) && health.Ready? ==>
                outcome == if m == Some(For(plan)) then Unchanged else Installed
    {
      if dry {
        return DryRun;
      }
      if !root {
        return Refused;
      }
      var ok, m := Examine();
      if !ok || (foreground && m.None?) {
        return Refused;
      }
      ok := Try(Native);
      if !ok {
        return Refused;
      }
      OnlyOneOwner(files);
      if m == Some(For(plan)) {
        UnchangedMatches(plan, files);
        ok := Start(false);
        return if !ok then Refused else if health.Ready? then Unchanged else UnhealthyUnchanged;
      }
      ghost var before := files;
      hide Complete, Owns, CopiedAt, ReadWholeAt, Matching, Rewrites, Restored;
      outcome := Update(plan, m, running, health);
      AllReadWhole(before);
      RestoredWhole(before);
      if outcome.RunsDegraded? || outcome.Installed? {
        CompleteMatches(plan, m, before, files);
        CompleteIs(plan, m, before, files);
      }
    }

    /** When an installation is tried at all; a running daemon stops only a first one. */
    predicate Goes(dry: bool, root: bool, foreground: bool, m: Option<Manifest>) {
      root && !dry && (foreground ==> m.Some?)
    }

    predicate AllPresent(files: Files) {
      files.executable.Some? && files.definition.Some? && files.record.Some?
    }

    /** Encoding loses nothing. */
    ghost predicate Faithful() {
      forall r :: decode(encode(r)) == Some(r)
    }

    function Recorded(files: Files): Option<Manifest> {
      if files.record.Some? then decode(files.record.value) else None
    }

    lemma AllReadWhole(files: Files)
      ensures CopiesWork() && AllPresent(files) ==> ReadWholeAt(savedAt, files)
    {
    }

    lemma RestoredWhole(before: Files)
      ensures CopiesWork() && before.record.Some? && CopiedAt(savedAt, before) ==> forall wrote ::
                Restored(before, copies, wrote, true) ==
                Files(if wrote && before.executable.None? then Some([]) else before.executable,
                      if before.definition.None? then Some([]) else before.definition,
                      before.record)
    {
    }

    /** Both files are there and have the hashes of the manifest. */
    ghost predicate Matching(files: Files) {
      && AllPresent(files)
      && decode(files.record.value).Some?
      && sha(files.executable.value) == decode(files.record.value).value.executable
      && sha(files.definition.value) == decode(files.record.value).value.definition
    }

    lemma CompleteIs(plan: Plan, m: Option<Manifest>, before: Files, now: Files)
      requires Owns(m, before) && Complete(plan, m, before, now)
      ensures now.definition == Some(plan.definition)
      ensures now.record == Some(encode(Manifest(sha(plan.binary), sha(plan.definition), plan.config, plan.socket)))
      ensures now.executable == if before.record.None? || decode(before.record.value).None?
                                   || decode(before.record.value).value.executable != sha(plan.binary)
                                then Some(plan.binary) else before.executable
    {
    }

    lemma UnchangedMatches(plan: Plan, files: Files)
      ensures Owns(Some(For(plan)), files) ==> (Matching(files) <==> files.executable.Some? && files.definition.Some?)
    {
    }

    /** After success the hashes match, exactly unless the executable was missing and its recorded hash is that of the new one. */
    lemma CompleteMatches(plan: Plan, m: Option<Manifest>, before: Files, now: Files)
      requires Owns(m, before) && Complete(plan, m, before, now)
      ensures m == Recorded(before)
      ensures Faithful() ==> (Matching(now) <==> before.executable.Some? || Rewrites(plan, m))
    {
    }

    // -------------------------------------------------------------------------
    // Uninstall
    // -------------------------------------------------------------------------

    /** Uninstall, lines 421-480. */
    method Uninstall(dry: bool, root: bool, answers: bool) returns (r: Removal)
      modifies this`clock, this`files
      ensures clock >= old(clock)
      ensures r.Removed? ==> files == NOTHING
      // Until then the manifest stays, and the definition goes before the executable.
      ensures !r.Removed? ==>
                || files == old(files)
                || files == old(files).(definition := None)
                || files == old(files).(definition := None, executable := None)
      // Only what the manifest describes is removed; so an interrupted removal cannot be resumed.
      ensures !Matching(old(files)) ==> !r.Removed? && files == old(files)
      ensures root && !dry && old(files).record.Some? ==> r.Removed? || r.Failed?
      ensures old(Calm()) && root && !dry && Matching(old(files)) ==> r.Removed?
      // A service that cannot be stopped is removed only if its daemon no longer answers.
      ensures OnlyFails(Stopping) && root && !dry && Matching(old(files)) ==> (if answers then r.Failed? && files == old(files) else r.Removed?)
      ensures OnlyFails(Removing(Executable)) && root && !dry && Matching(old(files)) ==>
                r.Failed? && files == old(files).(definition := None)
    {
      var ok := true;
      if !dry {
        if !root {
          return Failed;
        }
        ok := Try(Native);
        if !ok {
          return Failed;
        }
      }
      var m;
      ok, m := ReadManifest();
      if !ok {
        return Failed;
      }
      if m.None? {
        return NoInstallation;
      }
      if dry {
        return WouldRemove;
      }
      ok := Inspect(Executable, Some(m.value.executable));
      if !ok || files.executable.None? {
        return Failed;
      }
      ok := Inspect(Definition, Some(m.value.definition));
      if !ok || files.definition.None? {
        return Failed;
      }
      ok := Try(Stopping);
      if !ok && answers {
        return Failed;
      }
      if linux {
        ok := Try(Native);
        if !ok {
          return Failed;
        }
      }
      hide Matching;
      ok := RemoveAll();
      r := if ok then Removed else Failed;
    }

    /** Lines 465-478. */
    method RemoveAll() returns (ok: bool)
      requires files.executable.Some? && files.definition.Some? && files.record.Some?
      modifies this`clock, this`files
      ensures clock >= old(clock)
      ensures if ok then files == NOTHING
              else files == old(files) || files == old(files).(definition := None) || files == old(files).(definition := None, executable := None)
      ensures old(Calm()) || OnlyFails(Stopping) ==> ok
      ensures OnlyFails(Removing(Executable)) ==> !ok && files == old(files).(definition := None)
    {
      var missing;
      ok, missing := Remove(Definition);
      if ok && linux {
        ok := Try(Native);
      }
      if ok {
        ok, missing := Remove(Executable);
      }
      if ok {
        ok, missing := Remove(Record);
      }
    }

    /** On a clean host, an undisturbed installation can be removed without a trace. */
    method InstallThenUninstall(plan: Plan, running: bool, answers: bool) returns (outcome: Outcome, r: Removal)
      requires Faithful() && Calm() && files == NOTHING
      modifies this
      ensures outcome.Installed? && r.Removed? && files == NOTHING
    {
      assert Owns(None, files);
      outcome := Install(plan, false, true, false, running, Ready);
      r := Uninstall(false, true, answers);
    }
  }

  // ---------------------------------------------------------------------------
  // Runs that do not do what one might expect
  // ---------------------------------------------------------------------------

  /** Hashing and encoding, and the files and manifest found. */
  datatype Host = Host(sha: Bytes -> Digest, encode: Manifest -> Bytes, decode: Bytes -> Option<Manifest>)

  /** Every operation works but the one in `fails`. */
  function Except(fails: Option<Operation>): (nat, Operation) -> Fate {
    (n: nat, op: Operation) => if fails == Some(op) then Fails(0) else Works
  }

  ghost predicate Describes(host: Host, m: Manifest, files: Files) {
    && files.record == Some(host.encode(m)) && host.decode(host.encode(m)) == Some(m)
    && (files.executable.Some? ==> host.sha(files.executable.value) == m.executable)
    && (files.definition.Some? ==> host.sha(files.definition.value) == m.definition)
  }

  /** The executable is missing beside its manifest, and the new daemon stays silent: the rollback reports no problem and leaves an empty executable. */
  method MissingExecutableComesBackEmpty(host: Host, m: Manifest, plan: Plan, entry: Files) returns (outcome: Outcome, final: Files)
    requires Describes(host, m, entry) && entry.executable.None? && entry.definition.Some?
    requires m.executable != host.sha(plan.binary)
    ensures outcome == RolledBack(true) && final == entry.(executable := Some([])) != entry
  {
    var s := new Service(true, host.sha, host.encode, host.decode, Except(None), entry);
    assert s.Owns(Some(m), s.files) && s.Calm() && s.CopiesWork();
    outcome := s.Install(plan, false, true, false, true, Silent);
    final := s.files;
  }

  /** Nothing is missing, but the executable's copy cannot be read: the rollback reports no problem and empties it. */
  method UnreadExecutableIsEmptied(host: Host, m: Manifest, plan: Plan, entry: Files) returns (outcome: Outcome, final: Files)
    requires Describes(host, m, entry) && entry.executable.Some? && entry.executable.value != [] && entry.definition.Some?
    requires m.executable != host.sha(plan.binary)
    ensures outcome == RolledBack(true) && final == entry.(executable := Some([])) != entry
  {
    var s := new Service(true, host.sha, host.encode, host.decode, Except(Some(Copying(Executable))), entry);
    assert s.Owns(Some(m), s.files) && s.Calm();
    outcome := s.Install(plan, false, true, false, true, Silent);
    final := s.files;
  }

  /** The installation on record is the planned one but its definition is missing: reported as unchanged and running. */
  method UnchangedWithoutDefinition(host: Host, plan: Plan, m: Manifest, entry: Files) returns (outcome: Outcome, final: Files)
    requires Describes(host, m, entry) && entry.executable.Some? && entry.definition.None?
    requires m == Manifest(host.sha(plan.binary), host.sha(plan.definition), plan.config, plan.socket)
    ensures outcome == Unchanged && final == entry && final.definition.None?
  {
    var s := new Service(true, host.sha, host.encode, host.decode, Except(None), entry);
    assert s.Owns(Some(m), s.files) && s.Calm();
    outcome := s.Install(plan, false, true, false, true, Ready);
    final := s.files;
  }

  /** Only the definition is new, and the executable is missing: reported as installed and running. */
  method InstalledWithoutExecutable(host: Host, plan: Plan, m: Manifest, entry: Files) returns (outcome: Outcome, final: Files)
    requires Describes(host, m, entry) && entry.executable.None? && entry.definition.Some?
    requires m.executable == host.sha(plan.binary) && m.definition != host.sha(plan.definition)
    ensures outcome == Installed && final.executable.None? && final.definition == Some(plan.definition)
  {
    var s := new Service(true, host.sha, host.encode, host.decode, Except(None), entry);
    assert s.Owns(Some(m), s.files) && s.Calm();
    outcome := s.Install(plan, false, true, false, true, Ready);
    final := s.files;
  }

  /** Removing the executable fails once; the definition is gone by then, and an undisturbed second try is refused. */
  method InterruptedUninstallIsStuck(host: Host, m: Manifest, entry: Files) returns (first: Removal, between: Files, second: Removal, final: Files)
    requires Describes(host, m, entry) && entry.executable.Some? && entry.definition.Some?
    ensures first.Failed? && between == entry.(definition := None)
    ensures second.Failed? && final == between
  {
    var s := new Service(true, host.sha, host.encode, host.decode, Except(Some(Removing(Executable))), entry);
    first := s.Uninstall(false, true, false);
    between := s.files;
    var t := new Service(true, host.sha, host.encode, host.decode, Except(None), between);
    second := t.Uninstall(false, true, false);
    final := t.files;
  }
}
