/**
 * Every interleaving of accepting sockets, connections moving bytes, ending and being settled,
 * status requests that read one counter after another, and shutdown.
 */
module ServerRuns {
  import opened Wrappers
  import opened Server

  /** A status request holding the mutex: what it has added up and which counters it has yet to load. */
  datatype Reading = Reading(todo: set<nat>, sofar: Traffic, from: Traffic)

  /**
   * `accepting` counts sockets between Accept and the decision, `running` are connections whose
   * handler has not returned, `leaving` those settled but not yet out of the wait group.  `gone`
   * keeps the final counters of settled connections, `reports` what status requests answered,
   * `largest` the largest connection limit used; they only record history.
   */
  datatype Sys = Sys(
    shared: Shared,
    accepted: nat,
    accepting: nat,
    running: set<nat>,
    leaving: set<nat>,
    reading: Option<Reading>,
    gone: map<nat, Traffic>,
    reports: seq<Traffic>,
    largest: int)

  datatype Step =
    | Arrive
    | Deny
    | Decide(maxConnections: int)
    | Move(id: nat, more: Traffic)
    | Return(id: nat)
    | Settled(id: nat)
    | Failed(text: string, timeout: bool, kind: string)
    | Leave(id: nat)
    | Stop
    | BeginStatus
    | Load(id: nat)
    | EndStatus

  const START := Sys(EMPTY, 0, 0, {}, {}, None, map[], [], 0)

  ghost function Max(a: int, b: int): int {
    if a >= b then a else b
  }

  ghost predicate Enabled(s: Sys, e: Step) {
    match e
    case Arrive => true
    case Deny => s.reading.None? && s.accepting > 0
    case Decide(_) => s.reading.None? && s.accepting > 0
    case Move(id, _) => id in s.running
    case Return(id) => id in s.running
    case Settled(id) => s.reading.None? && id in s.shared.connections && id !in s.running
    case Failed(text, timeout, kind) => s.reading.None? && CategoryOf(text, timeout, kind)
    case Leave(id) => id in s.leaving
    case Stop => s.reading.None?
    case BeginStatus => s.reading.None?
    case Load(id) => s.reading.Some? && id in s.reading.value.todo && id in s.shared.connections
    case EndStatus => s.reading.Some? && s.reading.value.todo == {}
  }

  ghost function Apply(s: Sys, e: Step): Sys
    requires Enabled(s, e)
  {
    match e
    case Arrive => s.(accepted := s.accepted + 1, accepting := s.accepting + 1)
    case Deny => s.(accepting := s.accepting - 1, shared := Bump(s.shared, DENIED))
    case Decide(maxConnections) =>
      var (id, shared) := Admit(s.shared, maxConnections);
      s.(accepting := s.accepting - 1, shared := shared, largest := Max(s.largest, maxConnections),
         running := if id.Some? then s.running + {id.value} else s.running)
    case Move(id, more) =>
      if id in s.shared.connections then
        s.(shared := s.shared.(connections := s.shared.connections[id := s.shared.connections[id].Plus(more)]))
      else s
    case Return(id) => s.(running := s.running - {id})
    case Settled(id) =>
      s.(shared := Settle(s.shared, id), leaving := s.leaving + {id}, gone := s.gone[id := s.shared.connections[id]])
    case Failed(_, _, kind) => s.(shared := Bump(s.shared, kind))
    case Leave(id) => s.(leaving := s.leaving - {id}, shared := s.shared.(waiting := if s.shared.waiting > 0 then s.shared.waiting - 1 else 0))
    case Stop => s.(shared := s.shared.(stopping := true))
    case BeginStatus => s.(reading := Some(Reading(s.shared.connections.Keys, s.shared.finished, Everything(s))))
    case Load(id) =>
      var r := s.reading.value;
      s.(reading := Some(Reading(r.todo - {id}, r.sofar.Plus(s.shared.connections[id]), r.from)))
    case EndStatus => s.(reading := None, reports := s.reports + [s.reading.value.sofar])
  }

  /** Bytes of every connection ever admitted. */
  ghost function Everything(s: Sys): Traffic {
    Sum(s.gone, s.shared.next).Plus(Sum(s.shared.connections, s.shared.next))
  }

  ghost function Part(connections: map<nat, Traffic>, ids: set<nat>): map<nat, Traffic> {
    map id | id in connections && id in ids :: connections[id]
  }

  // ---------------------------------------------------------------------------
  // Invariants
  // ---------------------------------------------------------------------------

  /** Every accepted socket is undecided, turned away, or a connection; every connection is active or gone. */
  ghost predicate Accounted(s: Sys) {
    && s.accepted == s.accepting + Count(s.shared.failures, DENIED) + Count(s.shared.failures, LIMITED) + s.shared.total
    && s.shared.total == s.shared.next
    && s.shared.total == |s.shared.connections| + |s.gone|
    && s.shared.connections.Keys !! s.gone.Keys
    && (forall id :: id in s.shared.connections || id in s.gone ==> 1 <= id <= s.shared.next)
  }

  ghost predicate Grouped(s: Sys) {
    && s.running <= s.shared.connections.Keys
    && s.leaving <= s.gone.Keys
    && s.shared.waiting == |s.shared.connections| + |s.leaving|
    && |s.shared.connections| <= s.largest
  }

  ghost predicate Summed(s: Sys) {
    s.shared.finished == Sum(s.gone, s.shared.next)
  }

  ghost predicate Ascending(reports: seq<Traffic>) {
    forall i, j :: 0 <= i < j < |reports| ==> reports[i].AtMost(reports[j])
  }

  ghost predicate Reported(s: Sys) {
    && Ascending(s.reports)
    && (forall i :: 0 <= i < |s.reports| ==> s.reports[i].AtMost(Everything(s)))
    && (s.reading.Some? ==>
          var r := s.reading.value;
          var final := r.sofar.Plus(Sum(Part(s.shared.connections, r.todo), s.shared.next));
          && r.todo <= s.shared.connections.Keys
          && r.from.AtMost(final) && final.AtMost(Everything(s))
          && forall i :: 0 <= i < |s.reports| ==> s.reports[i].AtMost(r.from))
  }

  ghost predicate Inv(s: Sys) {
    Accounted(s) && Grouped(s) && Summed(s) && Reported(s)
  }

  // ---------------------------------------------------------------------------
  // Sums
  // ---------------------------------------------------------------------------

  lemma PlusRules(a: Traffic, b: Traffic, c: Traffic)
    ensures a.Plus(NOTHING) == a
    ensures a.Plus(b).Plus(c) == a.Plus(c).Plus(b) == a.Plus(b.Plus(c))
  {
  }

  ghost function At(m: map<nat, Traffic>, id: nat): Traffic {
    if id in m then m[id] else NOTHING
  }

  lemma SumLast(m: map<nat, Traffic>, n: nat)
    requires n > 0
    ensures Sum(m, n) == Sum(m, n - 1).Plus(At(m, n))
  {
  }

  lemma {:induction false} SumAgree(m: map<nat, Traffic>, k: map<nat, Traffic>, n: nat)
    requires forall id :: 1 <= id <= n ==> At(m, id) == At(k, id)
    ensures Sum(m, n) == Sum(k, n)
  {
    hide Traffic.Plus, At;
    if n > 0 {
      SumAgree(m, k, n - 1);
      SumLast(m, n);
      SumLast(k, n);
    }
  }

  /** Changing one entry by an amount changes the sum by that amount. */
  lemma {:induction false} SumChange(m: map<nat, Traffic>, k: map<nat, Traffic>, id: nat, more: Traffic, n: nat)
    requires 1 <= id <= n
    requires At(k, id) == At(m, id).Plus(more)
    requires forall j :: 1 <= j <= n && j != id ==> At(k, j) == At(m, j)
    ensures Sum(k, n) == Sum(m, n).Plus(more)
  {
    hide Traffic.Plus, At, Sum;
    SumLast(m, n);
    SumLast(k, n);
    PlusRules(Sum(m, n - 1), At(m, n), more);
    if id == n {
      SumAgree(m, k, n - 1);
    } else {
      SumChange(m, k, id, more, n - 1);
    }
  }

  lemma SumUpdate(m: map<nat, Traffic>, id: nat, more: Traffic, n: nat)
    requires id in m && 1 <= id <= n
    ensures Sum(m[id := m[id].Plus(more)], n) == Sum(m, n).Plus(more)
  {
    SumChange(m, m[id := m[id].Plus(more)], id, more, n);
  }

  lemma SumInsert(m: map<nat, Traffic>, id: nat, t: Traffic, n: nat)
    requires id !in m && 1 <= id <= n
    ensures Sum(m[id := t], n) == Sum(m, n).Plus(t)
  {
    SumChange(m, m[id := t], id, t, n);
  }

  lemma SumRemove(m: map<nat, Traffic>, id: nat, n: nat)
    requires id in m && 1 <= id <= n
    ensures Sum(m - {id}, n).Plus(m[id]) == Sum(m, n)
  {
    SumChange(m - {id}, m, id, m[id], n);
  }

  lemma {:induction false} SumOfNone(m: map<nat, Traffic>, n: nat)
    requires forall id :: id in m ==> id == 0 || id > n
    ensures Sum(m, n) == NOTHING
  {
    if n > 0 {
      SumOfNone(m, n - 1);
    }
  }

  lemma {:induction false} SumOfPart(m: map<nat, Traffic>, ids: set<nat>, n: nat)
    ensures Sum(Part(m, ids), n).AtMost(Sum(m, n))
  {
    if n > 0 {
      SumOfPart(m, ids, n - 1);
    }
  }

  lemma Inserted(m: map<nat, Traffic>, id: nat, t: Traffic)
    ensures |m[id := t]| == if id in m then |m| else |m| + 1
  {
    var more := m[id := t];
    assert more.Keys == m.Keys + {id};
    assert |more.Keys| == |more| && |m.Keys| == |m|;
    if id in m {
      assert m.Keys + {id} == m.Keys;
    }
  }

  lemma Removed(m: map<nat, Traffic>, id: nat)
    requires id in m
    ensures |m - {id}| == |m| - 1
  {
    var less := m - {id};
    assert less.Keys == m.Keys - {id};
    assert |less.Keys| == |less| && |m.Keys| == |m|;
  }

  // ---------------------------------------------------------------------------
  // Every step keeps each part
  // ---------------------------------------------------------------------------

  lemma AccountedStep(s: Sys, e: Step)
    requires Accounted(s) && Grouped(s) && Enabled(s, e)
    ensures Accounted(Apply(s, e))
  {
    match e
    case Decide(maxConnections) => AccountedDecide(s, maxConnections);
    case Settled(id) => AccountedSettled(s, id);
    case Move(id, more) =>
      hide CategoryOf, Everything, Admit, Settle;
      Inserted(s.shared.connections, id, s.shared.connections[id].Plus(more));
    case Failed(text, timeout, kind) =>
      hide CategoryOf, Everything, Admit, Settle;
      CategoryIsNeverTurnedAway(text, timeout, kind);
    case _ =>
      hide CategoryOf, Everything, Admit, Settle;
  }

  lemma AccountedDecide(s: Sys, maxConnections: int)
    requires Accounted(s) && Enabled(s, Decide(maxConnections))
    ensures Accounted(Apply(s, Decide(maxConnections)))
  {
    hide CategoryOf, Everything, Settle;
    Inserted(s.shared.connections, s.shared.next + 1, NOTHING);
  }

  lemma AccountedSettled(s: Sys, id: nat)
    requires Accounted(s) && Enabled(s, Settled(id))
    ensures Accounted(Apply(s, Settled(id)))
  {
    hide CategoryOf, Everything, Admit, Count;
    Removed(s.shared.connections, id);
    Inserted(s.gone, id, s.shared.connections[id]);
  }

  lemma GroupedStep(s: Sys, e: Step)
    requires Accounted(s) && Grouped(s) && Enabled(s, e)
    ensures Grouped(Apply(s, e))
  {
    hide CategoryOf, Everything, Count;
    match e
    case Decide(maxConnections) => GroupedDecide(s, maxConnections);
    case Settled(id) => GroupedSettled(s, id);
    case Move(id, more) =>
      Inserted(s.shared.connections, id, s.shared.connections[id].Plus(more));
    case Leave(id) =>
      assert s.leaving == (s.leaving - {id}) + {id};
    case _ =>
  }

  lemma GroupedDecide(s: Sys, maxConnections: int)
    requires Accounted(s) && Grouped(s) && Enabled(s, Decide(maxConnections))
    ensures Grouped(Apply(s, Decide(maxConnections)))
  {
    hide CategoryOf, Everything, Settle, Count;
    Inserted(s.shared.connections, s.shared.next + 1, NOTHING);
  }

  lemma GroupedSettled(s: Sys, id: nat)
    requires Accounted(s) && Grouped(s) && Enabled(s, Settled(id))
    ensures Grouped(Apply(s, Settled(id)))
  {
    hide CategoryOf, Everything, Admit, Count;
    Removed(s.shared.connections, id);
    assert id !in s.leaving;
    assert |s.leaving + {id}| == |s.leaving| + 1;
  }

  lemma SummedStep(s: Sys, e: Step)
    requires Accounted(s) && Summed(s) && Enabled(s, e)
    ensures Summed(Apply(s, e))
  {
    hide CategoryOf, Everything, Count, Sum;
    match e
    case Decide(maxConnections) =>
      SumLast(s.gone, s.shared.next + 1);
    case Settled(id) =>
      SumInsert(s.gone, id, s.shared.connections[id], s.shared.next);
    case _ =>
  }

  /** The bytes of all connections ever admitted never shrink, and grow exactly when a connection moves some. */
  lemma EverythingStep(s: Sys, e: Step)
    requires Accounted(s) && Grouped(s) && Enabled(s, e)
    ensures Everything(Apply(s, e)) == if e.Move? then Everything(s).Plus(e.more) else Everything(s)
  {
    hide CategoryOf, Count, Sum, Admit, Traffic.Plus;
    match e
    case Decide(maxConnections) =>
      EverythingDecide(s, maxConnections);
    case Settled(id) =>
      EverythingSettled(s, id);
    case Move(id, more) =>
      SumUpdate(s.shared.connections, id, more, s.shared.next);
      PlusRules(Sum(s.gone, s.shared.next), Sum(s.shared.connections, s.shared.next), more);
    case _ =>
  }

  lemma EverythingSettled(s: Sys, id: nat)
    requires Accounted(s) && Enabled(s, Settled(id))
    ensures Everything(Apply(s, Settled(id))) == Everything(s)
  {
    hide CategoryOf, Count, Sum, Admit, Traffic.Plus;
    var n := s.shared.next;
    var t := s.shared.connections[id];
    SumInsert(s.gone, id, t, n);
    SumRemove(s.shared.connections, id, n);
    PlusRules(Sum(s.gone, n), Sum(s.shared.connections - {id}, n), t);
  }

  /** A number nobody has adds nothing to a sum, and neither does a new connection. */
  lemma SumOfNew(m: map<nat, Traffic>, n: nat)
    requires n + 1 !in m
    ensures Sum(m, n + 1) == Sum(m, n) == Sum(m[n + 1 := NOTHING], n + 1)
  {
    hide Traffic.Plus, Sum;
    var more := m[n + 1 := NOTHING];
    SumLast(m, n + 1);
    SumLast(more, n + 1);
    SumAgree(m, more, n);
    PlusRules(Sum(m, n), NOTHING, NOTHING);
  }

  lemma EverythingDecide(s: Sys, maxConnections: int)
    requires Accounted(s) && Enabled(s, Decide(maxConnections))
    ensures Everything(Apply(s, Decide(maxConnections))) == Everything(s)
  {
    hide CategoryOf, Count, Settle, Sum, Traffic.Plus;
    var n := s.shared.next;
    SumOfNew(s.gone, n);
    SumOfNew(s.shared.connections, n);
  }

  lemma ReportedStep(s: Sys, e: Step)
    requires Accounted(s) && Grouped(s) && Summed(s) && Reported(s) && Enabled(s, e)
    ensures Reported(Apply(s, e))
  {
    hide CategoryOf, Everything, Admit, Settle, Sum, Count;
    EverythingStep(s, e);
    var t := Apply(s, e);
    match e
    case Move(id, more) =>
      if s.reading.Some? {
        MoveWhileReading(s, e);
      }
    case Load(id) =>
      LoadOne(s, id);
    case BeginStatus =>
      assert Part(s.shared.connections, s.shared.connections.Keys) == s.shared.connections;
      EverythingIs(s);
    case EndStatus =>
      SumOfNone(Part(s.shared.connections, {}), s.shared.next);
    case _ =>
  }

  lemma EverythingIs(s: Sys)
    requires Summed(s)
    ensures Everything(s) == s.shared.finished.Plus(Sum(s.shared.connections, s.shared.next))
  {
  }

  lemma MoveWhileReading(s: Sys, e: Step)
    requires Accounted(s) && Grouped(s) && Reported(s) && Enabled(s, e) && e.Move? && s.reading.Some?
    ensures var t := Apply(s, e);
            var todo := s.reading.value.todo;
            var before := Sum(Part(s.shared.connections, todo), s.shared.next);
            Sum(Part(t.shared.connections, todo), t.shared.next) == if e.id in todo then before.Plus(e.more) else before
  {
    hide CategoryOf, Everything;
    var todo := s.reading.value.todo;
    var m := s.shared.connections;
    var k := m[e.id := m[e.id].Plus(e.more)];
    if e.id in todo {
      var p := Part(m, todo);
      assert Part(k, todo) == p[e.id := p[e.id].Plus(e.more)];
      SumUpdate(p, e.id, e.more, s.shared.next);
    } else {
      assert Part(k, todo) == Part(m, todo);
    }
  }

  lemma LoadOne(s: Sys, id: nat)
    requires Accounted(s) && Grouped(s) && Reported(s) && Enabled(s, Load(id))
    ensures var todo := s.reading.value.todo; var m := s.shared.connections;
            Sum(Part(m, todo - {id}), s.shared.next).Plus(m[id]) == Sum(Part(m, todo), s.shared.next)
  {
    var todo := s.reading.value.todo;
    var p := Part(s.shared.connections, todo);
    assert Part(s.shared.connections, todo - {id}) == p - {id};
    SumRemove(p, id, s.shared.next);
  }

  // ---------------------------------------------------------------------------
  // Runs
  // ---------------------------------------------------------------------------

  ghost predicate Reaches(s: Sys, steps: seq<Step>, t: Sys)
    decreases |steps|
  {
    if steps == [] then s == t
    else Enabled(s, steps[0]) && Reaches(Apply(s, steps[0]), steps[1..], t)
  }

  lemma StepInv(s: Sys, e: Step)
    requires Inv(s) && Enabled(s, e)
    ensures Inv(Apply(s, e))
  {
    hide Accounted, Grouped, Summed, Reported, Enabled, Apply;
    AccountedStep(s, e);
    GroupedStep(s, e);
    SummedStep(s, e);
    ReportedStep(s, e);
  }

  lemma {:induction false} RunInv(s: Sys, steps: seq<Step>, t: Sys)
    requires Inv(s) && Reaches(s, steps, t)
    ensures Inv(t)
    decreases |steps|
  {
    hide Inv, Enabled, Apply;
    if steps != [] {
      StepInv(s, steps[0]);
      RunInv(Apply(s, steps[0]), steps[1..], t);
    }
  }

  lemma StartInv()
    ensures Inv(START)
  {
  }

  /** The sockets turned away in a run, and those admitted, counted step by step. */
  ghost predicate TurnedAway(s: Sys, e: Step) {
    e.Decide? && (s.shared.stopping || |s.shared.connections| >= e.maxConnections)
  }

  ghost function Refusals(s: Sys, steps: seq<Step>): nat
    decreases |steps|
  {
    if steps == [] || !Enabled(s, steps[0]) then 0
    else (if TurnedAway(s, steps[0]) then 1 else 0) + Refusals(Apply(s, steps[0]), steps[1..])
  }

  ghost function Denials(steps: seq<Step>): nat {
    if steps == [] then 0 else (if steps[0].Deny? then 1 else 0) + Denials(steps[1..])
  }

  ghost function Admissions(s: Sys, steps: seq<Step>): nat
    decreases |steps|
  {
    if steps == [] || !Enabled(s, steps[0]) then 0
    else (if steps[0].Decide? && !TurnedAway(s, steps[0]) then 1 else 0) + Admissions(Apply(s, steps[0]), steps[1..])
  }

  lemma StepCounts(s: Sys, e: Step)
    requires Enabled(s, e)
    ensures var t := Apply(s, e).shared;
            && Count(t.failures, LIMITED) == Count(s.shared.failures, LIMITED) + (if TurnedAway(s, e) then 1 else 0)
            && Count(t.failures, DENIED) == Count(s.shared.failures, DENIED) + (if e.Deny? then 1 else 0)
            && t.total == s.shared.total + (if e.Decide? && !TurnedAway(s, e) then 1 else 0)
  {
    hide CategoryOf, Everything, Traffic.Plus;
    DeniedIsNotLimited();
    if e.Failed? {
      CategoryIsNeverTurnedAway(e.text, e.timeout, e.kind);
    }
  }

  lemma DeniedIsNotLimited()
    ensures DENIED != LIMITED
  {
    assert DENIED[1] == 'l' && LIMITED[1] == 'o';
  }

  lemma {:induction false} RunCounts(s: Sys, steps: seq<Step>, t: Sys)
    requires Reaches(s, steps, t)
    ensures Count(t.shared.failures, LIMITED) == Count(s.shared.failures, LIMITED) + Refusals(s, steps)
    ensures Count(t.shared.failures, DENIED) == Count(s.shared.failures, DENIED) + Denials(steps)
    ensures t.shared.total == s.shared.total + Admissions(s, steps)
    decreases |steps|
  {
    hide TurnedAway, Enabled, Apply, Count;
    if steps != [] {
      StepCounts(s, steps[0]);
      RunCounts(Apply(s, steps[0]), steps[1..], t);
    }
  }

  /**
   * Over any run connection_limit counts exactly the sockets that were decided on while the server
   * was stopping or its table full, client_denied the ones not allowed, and the total all others.
   */
  lemma RefusalsAreCounted(steps: seq<Step>, s: Sys)
    requires Reaches(START, steps, s)
    ensures Count(s.shared.failures, LIMITED) == Refusals(START, steps)
    ensures Count(s.shared.failures, DENIED) == Denials(steps)
    ensures s.shared.total == Admissions(START, steps)
  {
    hide Refusals, Denials, Admissions, Reaches;
    RunCounts(START, steps, s);
  }

  /** No socket and no connection is lost from the counts, and the table never outgrows the largest limit used. */
  lemma Conservation(steps: seq<Step>, s: Sys)
    requires Reaches(START, steps, s)
    ensures s.accepted == s.accepting + Count(s.shared.failures, DENIED) + Count(s.shared.failures, LIMITED) + s.shared.total
    ensures s.shared.total == |s.shared.connections| + |s.gone|
    ensures |s.shared.connections| <= s.largest
  {
    hide Reaches;
    StartInv();
    RunInv(START, steps, s);
  }

  /**
   * What status requests report never decreases from one to the next and never exceeds the bytes
   * of all connections ever admitted, which the totals and the table always add up to.
   */
  lemma ReportsAreMonotone(steps: seq<Step>, s: Sys)
    requires Reaches(START, steps, s)
    ensures forall i, j :: 0 <= i < j < |s.reports| ==> s.reports[i].AtMost(s.reports[j])
    ensures forall i :: 0 <= i < |s.reports| ==> s.reports[i].AtMost(Everything(s))
    ensures s.shared.finished.Plus(Sum(s.shared.connections, s.shared.next)) == Everything(s)
  {
    hide Reaches;
    StartInv();
    RunInv(START, steps, s);
    EverythingIs(s);
  }

  /**
   * What a status request answers lies between the bytes moved when it began and those moved when
   * it ends; if none moved meanwhile it is exactly those.
   */
  lemma ReportIsCurrent(steps: seq<Step>, s: Sys)
    requires Reaches(START, steps, s) && Enabled(s, EndStatus)
    ensures s.reading.value.from.AtMost(s.reading.value.sofar) && s.reading.value.sofar.AtMost(Everything(s))
    ensures s.reading.value.from == Everything(s) ==> s.reading.value.sofar == Everything(s)
  {
    hide Reaches, Accounted, Grouped, Summed, Everything;
    StartInv();
    RunInv(START, steps, s);
    SumOfNone(Part(s.shared.connections, {}), s.shared.next);
  }

  /** The state when the wait group drains: nobody is left in the table, and every admitted connection is settled. */
  lemma DrainedMeansEmpty(steps: seq<Step>, s: Sys)
    requires Reaches(START, steps, s) && s.shared.waiting == 0
    ensures s.shared.connections == map[] && s.running == {} && |s.gone| == s.shared.total
    ensures s.shared.finished == Everything(s)
  {
    hide Reaches;
    StartInv();
    RunInv(START, steps, s);
    assert s.shared.connections.Keys == {};
    SumOfNone(s.shared.connections, s.shared.next);
  }

  /** Once stopping is set it stays set, nothing more is admitted, and the wait group only drains. */
  lemma {:induction false} StoppingAdmitsNobody(before: seq<Step>, s: Sys, steps: seq<Step>, t: Sys)
    requires Reaches(START, before, s) && s.shared.stopping && Reaches(s, steps, t)
    ensures t.shared.stopping && t.shared.total == s.shared.total && t.shared.next == s.shared.next
    ensures t.shared.waiting <= s.shared.waiting && t.shared.connections.Keys <= s.shared.connections.Keys
  {
    StartInv();
    RunInv(START, before, s);
    StoppingStays(s, steps, t);
  }

  lemma {:induction false} StoppingStays(s: Sys, steps: seq<Step>, t: Sys)
    requires Inv(s) && s.shared.stopping && Reaches(s, steps, t)
    ensures t.shared.stopping && t.shared.total == s.shared.total && t.shared.next == s.shared.next
    ensures t.shared.waiting <= s.shared.waiting && t.shared.connections.Keys <= s.shared.connections.Keys
    decreases |steps|
  {
    if steps != [] {
      StepInv(s, steps[0]);
      StoppingStep(s, steps[0]);
      hide Inv, Enabled, Apply;
      StoppingStays(Apply(s, steps[0]), steps[1..], t);
    }
  }

  lemma StoppingStep(s: Sys, e: Step)
    requires Grouped(s) && s.shared.stopping && Enabled(s, e)
    ensures var t := Apply(s, e).shared;
            && t.stopping && t.total == s.shared.total && t.next == s.shared.next
            && t.waiting <= s.shared.waiting && t.connections.Keys <= s.shared.connections.Keys
  {
    hide CategoryOf, Everything;
  }
}
