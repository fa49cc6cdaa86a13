/**
 * internal/logging/rotate.go: a log kept in four files.  File 0 is the current one, 1 to 3 the
 * rotated ones, oldest last.  Each file operation may fail, and the process may die after any.
 */
module Rotate {
  type Bytes = seq<char>
  type Files = map<nat, Bytes>

  /** A write may be cut short at `accepted` bytes. */
  datatype Fate = Works | Fails(accepted: nat)

  function Content(files: Files, i: nat): Bytes {
    if i in files then files[i] else []
  }

  /** The log from its oldest byte on. */
  function Log(files: Files): Bytes {
    Content(files, 3) + Content(files, 2) + Content(files, 1) + Content(files, 0)
  }

  predicate Suffix(part: Bytes, whole: Bytes) {
    |part| <= |whole| && whole[|whole| - |part|..] == part
  }

  /** os.Rename replaces the target; a missing source is not an error here. */
  function Renamed(files: Files, src: nat, dst: nat): Files {
    if src in files then (files - {src})[dst := files[src]] else files
  }

  /** The renames of lines 43-52 down to the one that empties place i. */
  function MovedDown(files: Files, i: nat): Files
    requires i <= 3
    decreases 3 - i
  {
    if i == 3 then files else Renamed(MovedDown(files, i + 1), i, i + 1)
  }

  function Rotated(files: Files): Files {
    MovedDown(files, 0)
  }

  function Max(a: int, b: int): int {
    if a >= b then a else b
  }

  ghost predicate FourFiles(files: Files) {
    forall i :: i in files ==> i <= 3
  }

  ghost predicate Within(files: Files, bound: int) {
    forall i :: i in files ==> |files[i]| <= bound
  }

  /** The limit or the longest file. */
  function Largest(files: Files, limit: int): int {
    Max(limit, Max(Max(|Content(files, 0)|, |Content(files, 1)|), Max(|Content(files, 2)|, |Content(files, 3)|)))
  }

  lemma LargestBounds(files: Files, limit: int)
    requires FourFiles(files)
    ensures Within(files, Largest(files, limit)) && limit <= Largest(files, limit) && 0 <= Largest(files, limit)
    ensures Within(files[0 := Content(files, 0)], Largest(files, limit))
  {
  }

  lemma SuffixOfItself(a: Bytes)
    ensures Suffix(a, a)
  {
  }

  lemma SuffixOfSuffix(a: Bytes, b: Bytes, c: Bytes)
    requires Suffix(a, b) && Suffix(b, c)
    ensures Suffix(a, c)
  {
  }

  lemma SuffixAppend(a: Bytes, b: Bytes, tail: Bytes)
    requires Suffix(a, b)
    ensures Suffix(a + tail, b + tail)
  {
    assert (b + tail)[|b| - |a|..] == b[|b| - |a|..] + tail;
  }

  lemma RenameEmpties(files: Files, src: nat, dst: nat)
    requires src != dst
    ensures src !in Renamed(files, src, dst)
  {
  }

  lemma RenameOldest(files: Files)
    ensures Log(Renamed(files, 2, 3)) == if 2 in files then Content(files, 2) + Content(files, 1) + Content(files, 0) else Log(files)
  {
    var b, c, d := Content(files, 2), Content(files, 1), Content(files, 0);
    assert b + [] + c + d == b + c + d;
  }

  lemma RenameMiddle(files: Files)
    requires 2 !in files
    ensures Log(Renamed(files, 1, 2)) == Log(files)
  {
    var a, c := Content(files, 3), Content(files, 1);
    assert a + c + [] == a + [] + c;
  }

  lemma RenameCurrent(files: Files)
    requires 1 !in files
    ensures Log(Renamed(files, 0, 1)) == Log(files)
  {
    var older, d := Content(files, 3) + Content(files, 2), Content(files, 0);
    assert older + d + [] == older + [] + d;
  }

  /** Renaming down the chain loses at most the oldest file, and only when another takes its place. */
  lemma RenameKeepsSuffix(files: Files, dst: nat)
    requires 1 <= dst <= 3
    requires dst < 3 ==> dst !in files
    ensures Suffix(Log(Renamed(files, dst - 1, dst)), Log(files))
    ensures dst < 3 || dst - 1 !in files ==> Log(Renamed(files, dst - 1, dst)) == Log(files)
  {
    if dst == 3 {
      RenameOldest(files);
      DropOldest(files);
    } else if dst == 2 {
      RenameMiddle(files);
    } else {
      RenameCurrent(files);
    }
  }

  lemma DropOldest(files: Files)
    ensures Suffix(Content(files, 2) + Content(files, 1) + Content(files, 0), Log(files))
  {
    var a, b, c, d := Content(files, 3), Content(files, 2), Content(files, 1), Content(files, 0);
    assert a + b + c + d == a + (b + c + d);
  }

  lemma LogWithEmptyFile(files: Files)
    requires 0 !in files
    ensures Log(files[0 := []]) == Log(files)
  {
  }

  /** One moment: what is on disk, and everything the log ever held in order. */
  datatype Moment = Moment(files: Files, everything: Bytes)

  class Rotator {
    const limit: int
    const fate: nat -> Fate
    var files: Files
    var isOpen: bool
    var size: int
    var clock: nat
    ghost var everything: Bytes
    ghost var bound: int
    ghost var trail: seq<Moment>

    ghost predicate Valid()
      reads this
    {
      && FourFiles(files)
      && Within(files, bound) && limit <= bound && 0 <= bound
      && (isOpen ==> 0 in files && size == |files[0]|)
      && Suffix(Log(files), everything)
      && forall m :: m in trail ==> Suffix(Log(m.files), m.everything) && Within(m.files, bound)
    }

    /** Open, lines 18-35: append to what is there, with its size. */
    constructor (files: Files, limit: int, fate: nat -> Fate)
      requires FourFiles(files)
      ensures Valid() && isOpen && this.limit == limit && this.fate == fate
      ensures this.files == if 0 in files then files else files[0 := []]
      ensures everything == Log(this.files) == Log(files) && trail == [Moment(this.files, everything)]
      ensures bound == Largest(files, limit)
    {
      hide Log, Suffix, Largest;
      var now := if 0 in files then files else files[0 := []];
      LargestBounds(files, limit);
      SuffixOfItself(Log(now));
      if 0 !in files {
        LogWithEmptyFile(files);
      }
      this.files, this.limit, this.fate := now, limit, fate;
      isOpen, size, clock := true, |now[0]|, 0;
      everything := Log(now);
      bound := Largest(files, limit);
      trail := [Moment(now, Log(now))];
    }

    method Draw() returns (f: Fate)
      modifies this`clock
      ensures f == fate(old(clock)) && clock == old(clock) + 1
    {
      f := fate(clock);
      clock := clock + 1;
    }

    method Rename(dst: nat) returns (ok: bool)
      requires Valid() && !isOpen && 1 <= dst <= 3 && (dst < 3 ==> dst !in files)
      modifies this`clock, this`files, this`trail
      ensures Valid() && old(trail) <= trail
      ensures files == if ok then Renamed(old(files), dst - 1, dst) else old(files)
      ensures ok == fate(old(clock)).Works? && clock == old(clock) + 1
    {
      hide Log, Suffix;
      var f := Draw();
      ok := f.Works?;
      if ok {
        RenameKeepsSuffix(files, dst);
        SuffixOfSuffix(Log(Renamed(files, dst - 1, dst)), Log(files), everything);
        files := Renamed(files, dst - 1, dst);
      }
      trail := trail + [Moment(files, everything)];
    }

    /** Whatever it reports, the file is closed afterwards; closing a closed file fails. */
    method CloseFile() returns (ok: bool)
      requires Valid()
      modifies this`clock, this`isOpen
      ensures Valid() && !isOpen
      ensures ok ==> old(isOpen)
      ensures old(isOpen) && (forall n :: fate(n).Works?) ==> ok
    {
      if !isOpen {
        return false;
      }
      var f := Draw();
      isOpen := false;
      ok := f.Works?;
    }

    /** O_EXCL: fails if the name is taken. */
    method Create() returns (ok: bool)
      requires Valid() && !isOpen
      modifies this
      ensures Valid() && isOpen == ok && old(trail) <= trail && everything == old(everything) && bound == old(bound)
      ensures if ok then files == old(files)[0 := []] && size == 0 && 0 !in old(files) else files == old(files)
      ensures 0 !in old(files) && (forall n :: fate(n).Works?) ==> ok
    {
      hide Log, Suffix;
      var f := Draw();
      if 0 in files || f.Fails? {
        return false;
      }
      LogWithEmptyFile(files);
      files := files[0 := []];
      trail := trail + [Moment(files, everything)];
      isOpen, size := true, 0;
      ok := true;
    }

    /** Lines 40-58. */
    method Rotate() returns (ok: bool)
      requires Valid()
      modifies this
      ensures Valid() && old(trail) <= trail && everything == old(everything) && bound == old(bound)
      ensures ok == isOpen
      ensures !old(isOpen) ==> !ok && files == old(files)
      ensures ok ==> size == 0 && files == Rotated(old(files))[0 := []]
      ensures old(isOpen) && (forall n :: fate(n).Works?) ==> ok
    {
      hide Valid, Renamed;
      ok := CloseFile();
      if !ok {
        return;
      }
      var i := 3;
      while i >= 1
        invariant 0 <= i <= 3 && Valid() && !isOpen && old(trail) <= trail
        invariant everything == old(everything) && bound == old(bound)
        invariant files == MovedDown(old(files), i)
        invariant i < 3 ==> i !in files
      {
        RenameEmpties(files, i - 1, i);
        ok := Rename(i);
        if !ok {
          return;
        }
        i := i - 1;
      }
      ok := Create();
    }

    ghost method Allow(length: nat)
      requires Valid()
      modifies this`bound
      ensures Valid() && bound == Max(old(bound), length)
    {
      bound := Max(bound, length);
    }

    /** Lines 60-62, on an open file. */
    method Append(b: Bytes) returns (n: nat, ok: bool)
      requires Valid() && isOpen && size + |b| <= bound
      modifies this
      ensures Valid() && isOpen && old(trail) <= trail && bound == old(bound)
      ensures n <= |b| && (ok ==> n == |b|) && (ok <==> fate(old(clock)).Works?)
      ensures everything == old(everything) + b[..n]
      ensures files == old(files)[0 := old(files)[0] + b[..n]]
      ensures Suffix(b[..n], Log(files))
    {
      hide Log, Suffix;
      var f := Draw();
      ok := f.Works?;
      n := if ok then |b| else if f.accepted <= |b| then f.accepted else |b|;
      SuffixAppend(Log(files), everything, b[..n]);
      LogGrows(files, b[..n]);
      files := files[0 := files[0] + b[..n]];
      size := size + n;
      everything := everything + b[..n];
      trail := trail + [Moment(files, everything)];
    }

    /** Lines 36-63. */
    method Write(b: Bytes) returns (n: nat, ok: bool)
      requires Valid()
      modifies this
      ensures Valid() && old(trail) <= trail
      ensures n <= |b| && (ok ==> n == |b|)
      ensures everything == old(everything) + b[..n]
      ensures bound == Max(old(bound), |b|)
      // The bytes accepted are the newest end of the log.
      ensures Suffix(b[..n], Log(files))
      // A rotator that failed once is closed for good: no later write changes a file.
      ensures !old(isOpen) ==> !ok && n == 0 && files == old(files) && !isOpen
      // Without rotation the current file grows, with it the chain moves first.
      ensures ok && old(size) + |b| <= limit ==> files == old(files)[0 := Content(old(files), 0) + b]
      ensures ok && old(size) + |b| > limit ==> files == Rotated(old(files))[0 := b]
      ensures old(isOpen) && (forall k :: fate(k).Works?) ==> ok && isOpen
    {
      hide Log, Suffix, Rotated, Valid;
      Allow(|b|);
      n := 0;
      EmptySuffix(b, Log(files));
      if size + |b| > limit {
        ok := Rotate();
        EmptySuffix(b, Log(files));
        if !ok {
          return;
        }
      }
      if !isOpen {
        return 0, false;
      }
      Facts();
      n, ok := Append(b);
      if ok {
        assert b[..n] == b && [] + b == b;
      }
    }

    lemma Facts()
      requires Valid()
      ensures limit <= bound && (isOpen ==> 0 in files && size == |files[0]|)
      ensures Suffix(Log(files), everything) && Within(files, bound)
      ensures forall m :: m in trail ==> Suffix(Log(m.files), m.everything) && Within(m.files, bound)
    {
    }
  }

  lemma EmptySuffix(b: Bytes, whole: Bytes)
    ensures b[..0] == [] && Suffix([], whole) && whole + [] == whole
  {
  }

  lemma LogGrows(files: Files, more: Bytes)
    requires 0 in files
    ensures Log(files[0 := files[0] + more]) == Log(files) + more
    ensures Suffix(more, Log(files) + more)
  {
    var a := Content(files, 3) + Content(files, 2) + Content(files, 1);
    assert a + (files[0] + more) == a + files[0] + more;
  }

  /**
   * Any sequence of writes with any failures: at every moment the files, oldest first, are the
   * newest end of the old log followed by every byte accepted so far, and no file exceeds the
   * limit, the longest single write or the initial sizes.
   */
  method Session(start: Files, limit: int, fate: nat -> Fate, writes: seq<Bytes>)
    returns (final: Files, accepted: Bytes, ghost moments: seq<Moment>, ghost bound: int)
    requires FourFiles(start)
    ensures Suffix(Log(final), Log(start) + accepted)
    ensures forall m :: m in moments ==> Suffix(Log(m.files), m.everything) && Within(m.files, bound)
    ensures moments != [] && moments[0].everything == Log(start)
    ensures Within(final, bound) && bound == Longest(writes, Largest(start, limit))
    ensures (forall k :: fate(k).Works?) ==> accepted == Flatten(writes)
  {
    hide Log, Suffix, Max, Within, Rotator.Valid;
    var r := new Rotator(start, limit, fate);
    accepted := [];
    for i := 0 to |writes|
      invariant r.Valid() && fresh(r) && r.fate == fate
      invariant r.everything == Log(start) + accepted
      invariant r.trail != [] && r.trail[0].everything == Log(start)
      invariant r.bound == Longest(writes[..i], Largest(start, limit))
      invariant (forall k :: fate(k).Works?) ==> r.isOpen && accepted == Flatten(writes[..i])
    {
      assert writes[..i + 1][..i] == writes[..i];
      var n, ok := r.Write(writes[i]);
      assert ok ==> writes[i][..n] == writes[i];
      accepted := accepted + writes[i][..n];
    }
    assert writes[..|writes|] == writes;
    r.Facts();
    final, moments, bound := r.files, r.trail, r.bound;
  }

  function Flatten(writes: seq<Bytes>): Bytes {
    if writes == [] then [] else Flatten(writes[..|writes| - 1]) + writes[|writes| - 1]
  }

  function Longest(writes: seq<Bytes>, least: int): int {
    if writes == [] then least else Max(Longest(writes[..|writes| - 1], least), |writes[|writes| - 1]|)
  }

  ghost function Place(files: Files, i: nat): (bool, Bytes) {
    (i in files, Content(files, i))
  }

  /** A rotation moves each file to the next place; the oldest stays where it is if no file takes its place. */
  lemma RotationMovesEachFile(files: Files)
    requires FourFiles(files)
    ensures var moved := Rotated(files);
            && FourFiles(moved) && 0 !in moved
            && Place(moved, 1) == Place(files, 0) && Place(moved, 2) == Place(files, 1)
            && Place(moved, 3) == if 2 in files then Place(files, 2) else Place(files, 3)
  {
    var once := Renamed(files, 2, 3);
    var twice := Renamed(once, 1, 2);
    assert MovedDown(files, 3) == files && MovedDown(files, 2) == once && MovedDown(files, 1) == twice;
  }

  /** A rotation keeps the whole log unless it replaces an oldest file, and then drops exactly that one. */
  lemma RotationDropsOnlyTheOldest(files: Files)
    requires FourFiles(files)
    ensures Log(Rotated(files)) == if 2 in files then Content(files, 2) + Content(files, 1) + Content(files, 0) else Log(files)
  {
    var once := Renamed(files, 2, 3);
    var twice := Renamed(once, 1, 2);
    assert MovedDown(files, 3) == files && MovedDown(files, 2) == once && MovedDown(files, 1) == twice;
    RenameOldest(files);
    RenameEmpties(files, 2, 3);
    RenameEmpties(once, 1, 2);
    hide Log, Content, Renamed;
    RenameMiddle(once);
    RenameCurrent(twice);
  }
}
