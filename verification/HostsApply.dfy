/**
 * internal/hosts/hosts.go, lines 146-220: replacing the hosts file while others may write it.
 * Others act between any two operations; every operation may fail.
 */
module HostsApply {
  import opened Wrappers
  import opened Hosts

  /** What somebody else leaves in the file; a write in place keeps its identity (inode, mode and owner). */
  datatype Entry = Entry(content: string, identity: nat)

  datatype Applied = NothingToDo | Failed | Changed | Replaced

  class Editor {
    const works: nat -> bool
    const outside: nat -> Option<Entry>
    var file: Entry
    var backup: Option<string>
    var clock: nat
    /** The identity found by the first stat. */
    var seen: nat
    /** The file as everybody else knows it, and what it held when it was replaced. */
    ghost var theirs: Entry
    ghost var replaced: Option<Entry>

    constructor (file: Entry, works: nat -> bool, outside: nat -> Option<Entry>)
      ensures this.file == theirs == file && this.works == works && this.outside == outside
      ensures backup == None && replaced == None && clock == 0
    {
      this.file, this.works, this.outside := file, works, outside;
      theirs, backup, replaced, clock, seen := file, None, None, 0, 0;
    }

    ghost predicate Quiet(from: nat, to: nat) {
      forall n :: from <= n <= to ==> outside(n).None?
    }

    /** Others first, then an operation that does not touch the file. */
    method Try() returns (ok: bool)
      requires file == theirs && replaced == None
      modifies this`clock, this`file, this`theirs
      ensures file == theirs == if outside(old(clock)).Some? then outside(old(clock)).value else old(file)
      ensures clock == old(clock) + 1 && ok == works(old(clock))
    {
      if outside(clock).Some? {
        file := outside(clock).value;
        theirs := file;
      }
      ok := works(clock);
      clock := clock + 1;
    }

    /** Lines 173-196: the temporary file beside the target. */
    method Stage() returns (ok: bool)
      requires file == theirs && replaced == None
      modifies this`clock, this`file, this`theirs
      ensures file == theirs && clock >= old(clock)
      ensures (forall n :: works(n)) ==> ok
      ensures Quiet(old(clock), clock) ==> file == old(file)
    {
      // Create, write, chown, chmod, copy attributes, sync, close.
      ok := Try();
      if ok {
        ok := Try();
      }
      if ok {
        ok := Try();
      }
      if ok {
        ok := Try();
      }
      if ok {
        ok := Try();
      }
      if ok {
        ok := Try();
      }
      if ok {
        ok := Try();
      }
    }

    method Apply(plan: Plan) returns (r: Applied)
      requires file == theirs && backup == None && replaced == None
      modifies this
      ensures clock >= old(clock)
      // Unless it reports the replacement, the file is as the others left it.
      ensures r != Replaced ==> file == theirs && replaced == None
      ensures r.NothingToDo? <==> !plan.changed
      ensures r.NothingToDo? ==> file == old(file)
      // A replaced file is exactly the plan's, and what the plan was made from is in the backup.
      ensures r.Replaced? ==> file.content == plan.after && backup == Some(plan.before)
      // What was overwritten is what the plan was made from, except for a write after the last
      // comparison; one that came before the last stat must have kept the file's identity.
      ensures r.Replaced? ==> clock >= 2
      ensures r.Replaced? ==> replaced.Some? && replaced.value.content == Overwritten(clock, plan.before)
      ensures r.Replaced? && outside(clock - 2).Some? ==> outside(clock - 2).value.identity == seen
      ensures r.Replaced? && Quiet(old(clock), clock) ==> seen == old(file).identity
      // Left alone and without failures, it replaces the file it was planned for and refuses every other.
      ensures (forall n :: works(n)) && (forall n :: outside(n).None?) && plan.changed ==>
                r == if old(file).content == plan.before then Replaced else Changed
    {
      if !plan.changed {
        return NothingToDo;
      }
      r := SaveBefore(plan);
      if r != Replaced {
        return;
      }
      var ok := Stage();
      if !ok {
        return Failed;
      }
      r := Commit(plan);
    }

    /** Lines 150-172: Replaced means "go on". */
    method SaveBefore(plan: Plan) returns (r: Applied)
      requires file == theirs && backup == None && replaced == None
      modifies this`clock, this`file, this`theirs, this`backup, this`seen
      ensures clock >= old(clock) && file == theirs && !r.NothingToDo?
      ensures r.Replaced? ==> backup == Some(plan.before)
      ensures r.Replaced? && Quiet(old(clock), clock) ==> seen == old(file).identity
      ensures (forall n :: works(n)) && (forall n :: outside(n).None?) ==>
                file == old(file) && r == if file.content == plan.before then Replaced else Changed
    {
      var ok := Try();
      if ok {
        ok := Try();
      }
      if !ok {
        return Failed;
      }
      if file.content != plan.before {
        return Changed;
      }
      ok := Try();
      if !ok {
        return Failed;
      }
      backup := Some(plan.before);
      ok := Try();
      seen := file.identity;
      return if ok then Replaced else Failed;
    }

    /** Lines 197-213: compare once more, then rename. */
    method Commit(plan: Plan) returns (r: Applied)
      requires file == theirs && replaced == None
      modifies this`clock, this`file, this`theirs, this`replaced
      ensures clock >= old(clock) && !r.NothingToDo?
      ensures r != Replaced ==> file == theirs && replaced == None
      ensures r.Replaced? ==> file.content == plan.after && clock >= 2
      ensures r.Replaced? ==> replaced.Some? && replaced.value.content == Overwritten(clock, plan.before)
      ensures r.Replaced? && outside(clock - 2).Some? ==> outside(clock - 2).value.identity == seen
      ensures (forall n :: works(n)) && (forall n :: outside(n).None?) ==>
                r == if old(file) == Entry(plan.before, seen) then Replaced else Changed
    {
      var ok := Try();
      if !ok {
        return Failed;
      }
      if file.content != plan.before {
        return Changed;
      }
      ok := Try();
      if !ok {
        return Failed;
      }
      if file.identity != seen {
        return Changed;
      }
      ok := Try();
      if !ok {
        return Failed;
      }
      replaced := Some(file);
      file := Entry(plan.after, clock);
      return Replaced;
    }

    /** What the last two operations before `end` found in a file that held `before` just before them. */
    ghost function Overwritten(end: nat, before: string): string
      requires end >= 2
    {
      if outside(end - 1).Some? then outside(end - 1).value.content
      else if outside(end - 2).Some? then outside(end - 2).value.content
      else before
    }
  }

  /** Planning and applying in a quiet moment takes the file through exactly the planned change. */
  method PlanAndApply(file: Entry, domains: seq<string>, address: string, remove: bool) returns (planned: Prepared, after: string, r: Applied)
    ensures planned == PrepareSpec(file.content, domains, address, remove)
    ensures after == if planned.Ready? then planned.plan.after else file.content
    ensures r == if planned.Ready? && planned.plan.after != file.content then Replaced else NothingToDo
  {
    planned := Prepare(file.content, domains, address, remove);
    after, r := file.content, NothingToDo;
    hide PrepareSpec;
    PlanIsForTheFile(file.content, domains, address, remove);
    if planned.Ready? {
      var works: nat -> bool := n => true;
      var outside: nat -> Option<Entry> := n => None;
      var e := new Editor(file, works, outside);
      assert (forall n :: e.works(n)) && (forall n :: e.outside(n).None?);
      r := e.Apply(planned.plan);
      after := e.file.content;
    }
  }

  lemma PlanIsForTheFile(b: string, domains: seq<string>, address: string, remove: bool)
    ensures var r := PrepareSpec(b, domains, address, remove);
            r.Ready? ==> r.plan.before == b && (r.plan.changed <==> r.plan.after != b)
  {
    hide BlockOf, Conflicts, ManagedLines, Outside, Written;
  }
}
