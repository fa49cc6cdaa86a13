/**
 * internal/proxy/server.go, lines 388-457: two copies running side by side between the client
 * and the upstream, each closing only the write half of its target at the end of its source.
 */
module Relay {
  import opened Wrappers

  type Bytes = seq<char>
  type Error = string

  /** The size of the copy buffer, line 421. */
  const BUFFER := 32 * 1024
  const SHORT_WRITE := "short write"

  /** What a read says about the rest of the source. */
  datatype End = More | Eof | Fault(error: Error)

  datatype Phase =
    | Reading
    | Writing(chunk: Bytes, end: End)
    | Closing
    | Ended(error: Option<Error>)

  /** One direction: `taken` bytes of the source were read, `delivered` accepted by the target, `count` reported. */
  datatype Copy = Copy(source: Bytes, taken: nat, delivered: Bytes, count: nat, phase: Phase, halfClosed: bool)

  /** How a call into a connection came back. */
  datatype Event =
    | Read(n: nat, end: End)
    | Write(n: nat, failure: Option<Error>)
    | CloseWrite(failure: Option<Error>)

  function Begin(source: Bytes): Copy {
    Copy(source, 0, [], 0, Reading, false)
  }

  /** Bytes arrive in order, at most a buffer at a time, and the end of the source comes after its last byte. */
  predicate Possible(c: Copy, e: Event) {
    match e
    case Read(n, end) => c.phase.Reading? && n <= BUFFER && c.taken + n <= |c.source| && (end.Eof? ==> c.taken + n == |c.source|)
    case Write(n, _) => c.phase.Writing? && n <= |c.phase.chunk|
    case CloseWrite(_) => c.phase.Closing?
  }

  function Next(end: End): Phase {
    match end
    case More => Reading
    case Eof => Closing
    case Fault(error) => Ended(Some(error))
  }

  function After(c: Copy, e: Event): Copy
    requires Possible(c, e)
  {
    match e
    case Read(n, end) =>
      c.(taken := c.taken + n, phase := if n > 0 then Writing(c.source[c.taken..c.taken + n], end) else Next(end))
    case Write(n, failure) =>
      c.(delivered := c.delivered + c.phase.chunk[..n], count := c.count + n,
         phase := if failure.Some? then Ended(failure)
                  else if n != |c.phase.chunk| then Ended(Some(SHORT_WRITE))
                  else Next(c.phase.end))
    case CloseWrite(failure) =>
      c.(halfClosed := failure.None?, phase := Ended(failure))
  }

  predicate Follows(c: Copy, events: seq<Event>)
    decreases |events|
  {
    events == [] || (Possible(c, events[0]) && Follows(After(c, events[0]), events[1..]))
  }

  function Replay(c: Copy, events: seq<Event>): Copy
    requires Follows(c, events)
    decreases |events|
  {
    if events == [] then c else Replay(After(c, events[0]), events[1..])
  }

  lemma {:induction false} ReplayMore(c: Copy, events: seq<Event>, e: Event)
    requires Follows(c, events) && Possible(Replay(c, events), e)
    ensures Follows(c, events + [e]) && Replay(c, events + [e]) == After(Replay(c, events), e)
    decreases |events|
  {
    hide After, Possible;
    var all := events + [e];
    if events == [] {
      assert all[1..] == [];
    } else {
      assert all[0] == events[0] && all[1..] == events[1..] + [e];
      ReplayMore(After(c, events[0]), events[1..], e);
    }
  }

  lemma {:induction false} FollowsPrefix(c: Copy, events: seq<Event>, i: nat)
    requires Follows(c, events) && i < |events|
    ensures Follows(c, events[..i]) && Possible(Replay(c, events[..i]), events[i])
    ensures Follows(c, events[..i + 1]) && Replay(c, events[..i + 1]) == After(Replay(c, events[..i]), events[i])
    decreases i
  {
    hide After, Possible;
    if i > 0 {
      FollowsPrefix(After(c, events[0]), events[1..], i - 1);
      assert events[..i][1..] == events[1..][..i - 1] && events[1..][i - 1] == events[i];
    }
    assert events[..i] + [events[i]] == events[..i + 1];
    ReplayMore(c, events[..i], events[i]);
  }

  // ---------------------------------------------------------------------------
  // Why a copy ends
  // ---------------------------------------------------------------------------

  /** Event i hands on the whole of what was read before it, and that read had this to say about the rest. */
  ghost predicate HandsOn(events: seq<Event>, i: int, end: End) {
    && 1 <= i < |events|
    && events[i - 1].Read? && events[i - 1].n > 0 && events[i - 1].end == end
    && events[i] == Write(events[i - 1].n, None)
  }

  /** After event i all that was read is handed on, and this is said about the rest. */
  ghost predicate Arrives(events: seq<Event>, i: int, end: End) {
    0 <= i < |events| && (events[i] == Read(0, end) || HandsOn(events, i, end))
  }

  /** The last event fails the copy with this error. */
  ghost predicate FailsWith(events: seq<Event>, error: Error) {
    var i := |events| - 1;
    && events != []
    && (|| Arrives(events, i, Fault(error))
        || (events[i].Write? && events[i].failure == Some(error))
        || (events[i].Write? && events[i].failure == None && i > 0 && events[i - 1].Read? && events[i].n < events[i - 1].n && error == SHORT_WRITE)
        || (events[i].CloseWrite? && events[i].failure == Some(error)))
  }

  /** Where a copy stands, told from its last events alone. */
  ghost predicate Stands(c: Copy, events: seq<Event>) {
    var i := |events| - 1;
    match c.phase
    case Reading => events == [] || Arrives(events, i, More)
    case Writing(chunk, end) => events != [] && events[i] == Read(|chunk|, end) && chunk != []
    case Closing => Arrives(events, i, Eof)
    case Ended(Some(error)) => FailsWith(events, error)
    case Ended(None) => events != [] && events[i] == CloseWrite(None)
  }

  lemma {:induction false} StandsByLastEvents(source: Bytes, events: seq<Event>)
    requires Follows(Begin(source), events)
    ensures Stands(Replay(Begin(source), events), events)
  {
    if events == [] {
      return;
    }
    var n := |events| - 1;
    var front, last := events[..n], events[n];
    FollowsPrefix(Begin(source), events, n);
    assert events[..n + 1] == events;
    StandsByLastEvents(source, front);
    hide Follows, Replay;
    assert n > 0 ==> front[n - 1] == events[n - 1];
    StandsAfter(Replay(Begin(source), front), front, last);
    assert front + [last] == events;
  }

  lemma StandsAfter(c: Copy, front: seq<Event>, e: Event)
    requires Stands(c, front) && Possible(c, e)
    ensures Stands(After(c, e), front + [e])
  {
    var events := front + [e];
    assert events[|events| - 1] == e && (front != [] ==> events[|events| - 2] == front[|front| - 1]);
  }

  /**
   * A copy ends exactly as its last events say: with the error of the read, write or half close
   * that failed, with a short write, or cleanly after the half close that follows the end of the
   * source.
   */
  lemma CopyEndsAsTold(source: Bytes, events: seq<Event>, error: Error)
    requires Follows(Begin(source), events)
    ensures Replay(Begin(source), events).phase == Ended(Some(error)) <==> FailsWith(events, error)
    ensures Replay(Begin(source), events).phase == Ended(None) <==> events != [] && events[|events| - 1] == CloseWrite(None)
    ensures Replay(Begin(source), events).phase == Closing <==> Arrives(events, |events| - 1, Eof)
  {
    hide Follows, Replay;
    StandsByLastEvents(source, events);
  }

  // ---------------------------------------------------------------------------
  // One copy as the code runs it
  // ---------------------------------------------------------------------------

  /** progressWriter, lines 444-457. */
  class ProgressWriter {
    var target: Bytes
    var count: nat

    constructor ()
      ensures target == [] && count == 0
    {
      target, count := [], 0;
    }

    method Write(b: Bytes, e: Event) returns (n: nat, failure: Option<Error>)
      requires e.Write? && e.n <= |b|
      modifies this
      ensures n == e.n && failure == e.failure
      ensures target == old(target) + b[..n] && count == old(count) + n
    {
      n, failure := e.n, e.failure;
      target := target + b[..n];
      if n > 0 {
        count := count + n;
      }
    }
  }

  /** copyStream, lines 420-429, up to the end of the events seen so far. */
  method CopyStream(source: Bytes, events: seq<Event>) returns (c: Copy)
    requires Follows(Begin(source), events)
    ensures c == Replay(Begin(source), events)
  {
    hide Follows, Replay;
    var w := new ProgressWriter();
    var taken: nat, i: nat := 0, 0;
    StartsWithNothing(Begin(source));
    assert events[..0] == [];
    while i < |events|
      invariant i <= |events| && taken <= |source| && fresh(w)
      invariant Follows(Begin(source), events[..i])
      invariant Replay(Begin(source), events[..i]) == Copy(source, taken, w.target, w.count, Reading, false)
    {
      FollowsPrefix(Begin(source), events, i);
      var n, end := events[i].n, events[i].end;
      i := i + 1;
      var chunk := source[taken..taken + n];
      taken := taken + n;
      if n > 0 {
        if i == |events| {
          assert events[..i] == events;
          return Copy(source, taken, w.target, w.count, Writing(chunk, end), false);
        }
        FollowsPrefix(Begin(source), events, i);
        var written, failure := w.Write(chunk, events[i]);
        i := i + 1;
        if failure.Some? || written != n {
          NothingFollowsTheEnd(Begin(source), events, i);
          return Copy(source, taken, w.target, w.count, Ended(if failure.Some? then failure else Some(SHORT_WRITE)), false);
        }
      }
      match end {
        case More =>
        case Fault(error) =>
          NothingFollowsTheEnd(Begin(source), events, i);
          return Copy(source, taken, w.target, w.count, Ended(Some(error)), false);
        case Eof =>
          if i == |events| {
            assert events[..i] == events;
            return Copy(source, taken, w.target, w.count, Closing, false);
          }
          FollowsPrefix(Begin(source), events, i);
          var failure := events[i].failure;
          NothingFollowsTheEnd(Begin(source), events, i + 1);
          return Copy(source, taken, w.target, w.count, Ended(failure), failure.None?);
      }
    }
    assert events[..i] == events;
    c := Copy(source, taken, w.target, w.count, Reading, false);
  }

  lemma StartsWithNothing(c: Copy)
    ensures Follows(c, []) && Replay(c, []) == c
  {
  }

  lemma NothingFollowsTheEnd(c: Copy, events: seq<Event>, i: nat)
    requires Follows(c, events) && i <= |events| && Follows(c, events[..i]) && Replay(c, events[..i]).phase.Ended?
    ensures i == |events| && events[..i] == events
  {
    hide Follows, Replay;
    if i < |events| {
      FollowsPrefix(c, events, i);
    }
  }

  // ---------------------------------------------------------------------------
  // Both copies and the waiting function
  // ---------------------------------------------------------------------------

  datatype Waiter =
    | AwaitFirst
    | CloseClient
    | CloseUpstream
    | AwaitSecond
    | Returned(error: Option<Error>)

  /** `errs` holds the results in the order they were sent; the waiter has taken the first `received`. */
  datatype World = World(
    forth: Copy,
    back: Copy,
    forthDone: bool,
    backDone: bool,
    errs: seq<Option<Error>>,
    received: nat,
    waiter: Waiter,
    clientClosed: bool,
    upstreamClosed: bool)

  datatype Step =
    | Forth(event: Event)
    | Back(event: Event)
    | SendForth
    | SendBack
    | Wait

  function Start(client: Bytes, upstream: Bytes): World {
    World(Begin(client), Begin(upstream), false, false, [], 0, AwaitFirst, false, false)
  }

  predicate Enabled(w: World, s: Step) {
    match s
    case Forth(e) => Possible(w.forth, e)
    case Back(e) => Possible(w.back, e)
    case SendForth => w.forth.phase.Ended? && !w.forthDone
    case SendBack => w.back.phase.Ended? && !w.backDone
    case Wait =>
      match w.waiter
      case AwaitFirst => |w.errs| > w.received
      case AwaitSecond => |w.errs| > w.received
      case Returned(_) => false
      case _ => true
  }

  function Apply(w: World, s: Step): World
    requires Enabled(w, s)
  {
    match s
    case Forth(e) => w.(forth := After(w.forth, e))
    case Back(e) => w.(back := After(w.back, e))
    case SendForth => w.(errs := w.errs + [w.forth.phase.error], forthDone := true)
    case SendBack => w.(errs := w.errs + [w.back.phase.error], backDone := true)
    case Wait =>
      match w.waiter
      case AwaitFirst =>
        w.(received := w.received + 1, waiter := if w.errs[w.received].Some? then CloseClient else AwaitSecond)
      case CloseClient => w.(clientClosed := true, waiter := CloseUpstream)
      case CloseUpstream => w.(upstreamClosed := true, waiter := AwaitSecond)
      case AwaitSecond =>
        var second := w.errs[w.received];
        w.(received := w.received + 1, waiter := Returned(if w.errs[0].Some? then w.errs[0] else second))
      case Returned(_) => w
  }

  predicate Reaches(w: World, steps: seq<Step>, z: World)
    decreases |steps|
  {
    if steps == [] then w == z else Enabled(w, steps[0]) && Reaches(Apply(w, steps[0]), steps[1..], z)
  }

  function ForthEvents(steps: seq<Step>): seq<Event> {
    if steps == [] then [] else (if steps[0].Forth? then [steps[0].event] else []) + ForthEvents(steps[1..])
  }

  function BackEvents(steps: seq<Step>): seq<Event> {
    if steps == [] then [] else (if steps[0].Back? then [steps[0].event] else []) + BackEvents(steps[1..])
  }

  // ---------------------------------------------------------------------------
  // Invariants
  // ---------------------------------------------------------------------------

  /** Delivered bytes are a prefix of the source; what was read and not delivered is at most one chunk. */
  ghost predicate Sound(c: Copy) {
    && c.taken <= |c.source|
    && |c.delivered| <= c.taken
    && c.delivered == c.source[..|c.delivered|]
    && c.count == |c.delivered|
    && c.taken - |c.delivered| <= BUFFER
    && match c.phase
       case Reading => |c.delivered| == c.taken && !c.halfClosed
       case Writing(chunk, end) =>
         && |chunk| <= BUFFER && |c.delivered| + |chunk| == c.taken && chunk == c.source[|c.delivered|..c.taken]
         && (end.Eof? ==> c.taken == |c.source|) && !c.halfClosed
       case Closing => c.delivered == c.source && !c.halfClosed
       case Ended(error) => (c.halfClosed <==> error.None?) && (error.None? ==> c.delivered == c.source)
  }

  lemma SoundAfter(c: Copy, e: Event)
    requires Sound(c) && Possible(c, e)
    ensures Sound(After(c, e)) && After(c, e).source == c.source
  {
    match e
    case Read(n, end) =>
    case Write(n, failure) =>
      var d := After(c, e).delivered;
      assert d == c.source[..|d|];
      assert n == |c.phase.chunk| && c.phase.end.Eof? ==> d == c.source;
    case CloseWrite(failure) =>
  }

  /** What the channel and the waiter know. */
  ghost predicate Told(w: World) {
    && (w.forthDone ==> w.forth.phase.Ended?)
    && (w.backDone ==> w.back.phase.Ended?)
    && |w.errs| == (if w.forthDone then 1 else 0) + (if w.backDone then 1 else 0)
    && (w.forthDone && !w.backDone ==> w.errs[0] == w.forth.phase.error)
    && (w.backDone && !w.forthDone ==> w.errs[0] == w.back.phase.error)
    && (w.forthDone && w.backDone ==>
          w.errs == [w.forth.phase.error, w.back.phase.error] || w.errs == [w.back.phase.error, w.forth.phase.error])
  }

  ghost predicate Waited(w: World) {
    && w.received <= |w.errs|
    && match w.waiter
       case AwaitFirst => w.received == 0 && !w.clientClosed && !w.upstreamClosed
       case CloseClient => w.received == 1 && w.errs[0].Some? && !w.clientClosed && !w.upstreamClosed
       case CloseUpstream => w.received == 1 && w.errs[0].Some? && w.clientClosed && !w.upstreamClosed
       case AwaitSecond => w.received == 1 && w.clientClosed == w.upstreamClosed == w.errs[0].Some?
       case Returned(error) =>
         && w.received == 2 && |w.errs| == 2
         && w.clientClosed == w.upstreamClosed == w.errs[0].Some?
         && error == if w.errs[0].Some? then w.errs[0] else w.errs[1]
  }

  ghost predicate Inv(w: World) {
    Sound(w.forth) && Sound(w.back) && Told(w) && Waited(w)
  }

  lemma StepInv(w: World, s: Step)
    requires Inv(w) && Enabled(w, s)
    ensures Inv(Apply(w, s))
    ensures Apply(w, s).forth.source == w.forth.source && Apply(w, s).back.source == w.back.source
  {
    hide Sound;
    match s
    case Forth(e) => SoundAfter(w.forth, e);
    case Back(e) => SoundAfter(w.back, e);
    case SendForth =>
    case SendBack =>
    case Wait =>
  }

  lemma {:induction false} RunInv(w: World, steps: seq<Step>, z: World)
    requires Inv(w) && Reaches(w, steps, z)
    ensures Inv(z) && z.forth.source == w.forth.source && z.back.source == w.back.source
    decreases |steps|
  {
    hide Inv, Enabled, Apply;
    if steps != [] {
      StepInv(w, steps[0]);
      RunInv(Apply(w, steps[0]), steps[1..], z);
    }
  }

  // ---------------------------------------------------------------------------
  // Theorems
  // ---------------------------------------------------------------------------

  lemma EventsOf(steps: seq<Step>)
    requires steps != []
    ensures ForthEvents(steps) == if steps[0].Forth? then [steps[0].event] + ForthEvents(steps[1..]) else ForthEvents(steps[1..])
    ensures BackEvents(steps) == if steps[0].Back? then [steps[0].event] + BackEvents(steps[1..]) else BackEvents(steps[1..])
  {
    var forth, back := ForthEvents(steps[1..]), BackEvents(steps[1..]);
    assert [] + forth == forth && [] + back == back;
  }

  /** A step changes a direction only when it is that direction's own event. */
  lemma StepMovesOneCopy(w: World, s: Step)
    requires Enabled(w, s)
    ensures if s.Forth? then Possible(w.forth, s.event) && Apply(w, s).forth == After(w.forth, s.event) else Apply(w, s).forth == w.forth
    ensures if s.Back? then Possible(w.back, s.event) && Apply(w, s).back == After(w.back, s.event) else Apply(w, s).back == w.back
  {
    hide After, Possible;
    match s
    case Wait =>
    case _ =>
  }

  lemma ReplayFirst(c: Copy, e: Event, events: seq<Event>)
    requires Possible(c, e) && Follows(After(c, e), events)
    ensures Follows(c, [e] + events) && Replay(c, [e] + events) == Replay(After(c, e), events)
  {
    hide After, Possible;
    assert ([e] + events)[1..] == events;
  }

  /** However the two directions interleave, each is exactly the sequential copy of its own events. */
  lemma {:induction false} InterleavingIsTwoCopies(w: World, steps: seq<Step>, z: World)
    requires Reaches(w, steps, z)
    ensures Follows(w.forth, ForthEvents(steps)) && z.forth == Replay(w.forth, ForthEvents(steps))
    ensures Follows(w.back, BackEvents(steps)) && z.back == Replay(w.back, BackEvents(steps))
    decreases |steps|
  {
    if steps == [] {
      return;
    }
    hide After, Possible, Apply, Enabled, Follows, Replay, ForthEvents, BackEvents;
    var s := steps[0];
    InterleavingIsTwoCopies(Apply(w, s), steps[1..], z);
    EventsOf(steps);
    StepMovesOneCopy(w, s);
    if s.Forth? {
      ReplayFirst(w.forth, s.event, ForthEvents(steps[1..]));
    } else if s.Back? {
      ReplayFirst(w.back, s.event, BackEvents(steps[1..]));
    }
  }

  /** At every moment each target has a prefix of its source, the counters are exact, and at most one buffer is in flight. */
  lemma TargetsHoldPrefixes(client: Bytes, upstream: Bytes, steps: seq<Step>, w: World)
    requires Reaches(Start(client, upstream), steps, w)
    ensures w.forth.delivered <= client && w.back.delivered <= upstream
    ensures w.forth.count == |w.forth.delivered| && w.back.count == |w.back.delivered|
    ensures |w.forth.delivered| <= w.forth.taken <= |w.forth.delivered| + BUFFER
    ensures |w.back.delivered| <= w.back.taken <= |w.back.delivered| + BUFFER
  {
    hide Reaches;
    RunInv(Start(client, upstream), steps, w);
  }

  /**
   * The end of one source never stops the other direction: a connection is closed only after a
   * direction failed, so while no direction has failed the other one keeps copying.
   */
  lemma OnlyFailureCloses(client: Bytes, upstream: Bytes, steps: seq<Step>, w: World)
    requires Reaches(Start(client, upstream), steps, w)
    ensures w.clientClosed || w.upstreamClosed ==>
              || (w.forth.phase.Ended? && w.forth.phase.error.Some?)
              || (w.back.phase.Ended? && w.back.phase.error.Some?)
    ensures w.forth.halfClosed <==> w.forth.phase == Ended(None)
    ensures w.back.halfClosed <==> w.back.phase == Ended(None)
  {
    hide Reaches;
    RunInv(Start(client, upstream), steps, w);
  }

  /** A return without error means that both sources were delivered whole, both write halves closed, and neither connection torn down. */
  lemma CleanReturn(client: Bytes, upstream: Bytes, steps: seq<Step>, w: World)
    requires Reaches(Start(client, upstream), steps, w) && w.waiter.Returned?
    ensures w.waiter.error == None <==> w.forth.phase == Ended(None) && w.back.phase == Ended(None)
    ensures w.waiter.error == None ==> w.forth.delivered == client && w.back.delivered == upstream
    ensures w.waiter.error == None ==> w.forth.halfClosed && w.back.halfClosed && !w.clientClosed && !w.upstreamClosed
  {
    hide Reaches;
    RunInv(Start(client, upstream), steps, w);
  }

  /**
   * When the first direction to report failed, its error is the result and both connections are
   * closed; when only the second failed, its error is the result and closing is left to the caller.
   */
  lemma FailedReturn(client: Bytes, upstream: Bytes, steps: seq<Step>, w: World)
    requires Reaches(Start(client, upstream), steps, w) && w.waiter.Returned?
    ensures |w.errs| == 2 && w.forth.phase.Ended? && w.back.phase.Ended?
    ensures multiset(w.errs) == multiset{w.forth.phase.error, w.back.phase.error}
    ensures w.errs[0].Some? ==> w.waiter.error == w.errs[0] && w.clientClosed && w.upstreamClosed
    ensures w.errs[0].None? ==> w.waiter.error == w.errs[1] && !w.clientClosed && !w.upstreamClosed
  {
    hide Reaches;
    RunInv(Start(client, upstream), steps, w);
    assert w.errs == [w.errs[0], w.errs[1]];
  }

  /** The waiter never blocks for good: once both directions have ended, it can return within six steps. */
  lemma WaiterReturns(client: Bytes, upstream: Bytes, steps: seq<Step>, w: World)
    requires Reaches(Start(client, upstream), steps, w) && w.forth.phase.Ended? && w.back.phase.Ended?
    ensures w.waiter.Returned? || exists s :: Enabled(w, s) && Left(Apply(w, s)) < Left(w)
    ensures Left(w) <= 6
    ensures forall s :: Enabled(w, s) ==> Left(Apply(w, s)) < Left(w)
  {
    hide Reaches;
    RunInv(Start(client, upstream), steps, w);
    if !w.waiter.Returned? {
      var s := if !w.forthDone then SendForth else if !w.backDone then SendBack else Wait;
      assert Enabled(w, s);
    }
  }

  /** Results still to be sent and moves the waiter still has before it. */
  ghost function Left(w: World): int {
    (if w.forthDone then 0 else 1) + (if w.backDone then 0 else 1) +
    match w.waiter
    case AwaitFirst => 4
    case CloseClient => 3
    case CloseUpstream => 2
    case AwaitSecond => 1
    case Returned(_) => 0
  }
}
