/** The kernel probe: entry and exit hooks over shared maps, as a state machine over every
    interleaving of its steps. */
module Probe {
  import opened Bytes
  import opened Sorting
  import opened Histogram

  const MAX_TRACKED_PIDS: nat := 1024
  const STACK_SURREAL: u8 := 0
  const OP_VFS_READ: u8 := 0

  // ---- events on the ring buffer ----

  datatype Event = Event(pid: u32, stack: u8, op: u8, latency: u64, size: u64)

  /** The 24-byte record; the padding is zeroed. */
  function EncodeEvent(e: Event): (b: seq<byte>)
    ensures |b| == 24
  {
    LeBytes(e.pid, 4) + [e.stack, e.op, 0, 0] + LeBytes(e.latency, 8) + LeBytes(e.size, 8)
  }

  function ParseEvent(b: seq<byte>): (e: Event)
    requires |b| >= 24
  {
    Event(LeU32(b[0..4]), b[4], b[5], LeU64(b[8..16]), LeU64(b[16..24]))
  }

  lemma EventRoundTrip(e: Event, rest: seq<byte>)
    ensures ParseEvent(EncodeEvent(e) + rest) == e
  {
    var b := EncodeEvent(e) + rest;
    Pow256Values();
    LeRoundTrip(e.pid, 4);
    LeRoundTrip(e.latency, 8);
    LeRoundTrip(e.size, 8);
    assert b[0..4] == LeBytes(e.pid, 4);
    assert b[8..16] == LeBytes(e.latency, 8);
    assert b[16..24] == LeBytes(e.size, 8);
  }

  /** The record, byte by byte. */
  lemma EventBytes(b: seq<byte>)
    requires |b| >= 24
    ensures ParseEvent(b).pid
         == b[0] as int + 0x100 * (b[1] as int) + 0x1_0000 * (b[2] as int) + 0x100_0000 * (b[3] as int)
    ensures ParseEvent(b).stack == b[4] && ParseEvent(b).op == b[5]
    ensures ParseEvent(b).latency == LeValue(b[8..16]) && ParseEvent(b).size == LeValue(b[16..24])
  {
    FourBytes(b[0..4]);
  }

  // ---- the state machine ----

  datatype Op = Read | Send

  /** One atomic step. `accepted` and `reserved` are the kernel's verdicts on a map update
      and on a ring-buffer reservation. */
  datatype Step =
    | Track(pid: u32, stack: u8)
    | Enter(op: Op, pid: u32, ts: u64, accepted: bool)
    | ExitRead(cpu: nat, pid: u32, ts: u64, ret: int, reserved: bool)
    | ExitSend(cpu: nat, pid: u32, ts: u64)

  datatype State = State(
    targets: map<u32, u8>,
    starts: map<u32, u64>,
    surreal: seq<Sample>,
    polyglot: seq<Sample>,
    send: seq<Sample>,
    events: seq<Event>)

  const INITIAL := State(map[], map[], [], [], [], [])

  /** u64 subtraction. */
  function Elapsed(now: u64, start: u64): (d: u64)
    ensures d == if start <= now then now - start else now - start + 0x1_0000_0000_0000_0000
  {
    (now - start) % U64
  }

  /** reads and sends share `starts`, so an entry of either kind replaces the other's. */
  predicate Stores(s: State, step: Step) {
    && step.Enter? && step.pid in s.targets && step.accepted
    && (step.pid in s.starts || |s.starts| < MAX_TRACKED_PIDS)
  }

  predicate Consumes(s: State, step: Step) {
    (step.ExitRead? || step.ExitSend?) && step.pid in s.targets && step.pid in s.starts
  }

  function EventOf(step: Step, stack: u8, latency: u64): (e: Event)
    requires step.ExitRead? && step.ret < U64
  {
    Event(step.pid, stack, OP_VFS_READ, latency, if step.ret > 0 then step.ret else 0)
  }

  ghost predicate Possible(step: Step) {
    step.ExitRead? ==> step.ret < U64
  }

  function Next(s: State, step: Step): (r: State)
    requires Possible(step)
  {
    match step
    case Track(pid, stack) => s.(targets := s.targets[pid := stack])
    case Enter(_, pid, ts, _) => if Stores(s, step) then s.(starts := s.starts[pid := ts]) else s
    case ExitRead(cpu, pid, ts, _, reserved) =>
      if !Consumes(s, step) then s else
        var latency := Elapsed(ts, s.starts[pid]);
        var stack := s.targets[pid];
        var sample := Sample(cpu, latency);
        s.(starts := s.starts - {pid},
           surreal := if stack == STACK_SURREAL then s.surreal + [sample] else s.surreal,
           polyglot := if stack == STACK_SURREAL then s.polyglot else s.polyglot + [sample],
           events := if reserved then s.events + [EventOf(step, stack, latency)] else s.events)
    case ExitSend(cpu, pid, ts) =>
      if !Consumes(s, step) then s else
        s.(starts := s.starts - {pid}, send := s.send + [Sample(cpu, Elapsed(ts, s.starts[pid]))])
  }

  ghost predicate Trace(steps: seq<Step>) {
    forall step | step in steps :: Possible(step)
  }

  ghost function Run(steps: seq<Step>): (s: State)
    requires Trace(steps)
  {
    if steps == [] then INITIAL else Next(Run(steps[..|steps| - 1]), steps[|steps| - 1])
  }

  ghost function Increments(s: State): nat {
    |s.surreal| + |s.polyglot| + |s.send|
  }

  // ---- conservation ----

  datatype Fate = NoEntry | Rejected | Replaces | Opens

  ghost function FateOf(s: State, step: Step): Fate {
    if !step.Enter? || step.pid !in s.targets then NoEntry
    else if !Stores(s, step) then Rejected
    else if step.pid in s.starts then Replaces
    else Opens
  }

  /** How many steps of the trace met the fate `f`. */
  ghost function Fated(steps: seq<Step>, f: Fate): nat
    requires Trace(steps)
  {
    if steps == [] then 0 else
      var before := steps[..|steps| - 1];
      Fated(before, f) + if FateOf(Run(before), steps[|steps| - 1]) == f then 1 else 0
  }

  ghost function TrackedEntries(steps: seq<Step>): nat
    requires Trace(steps)
  {
    Fated(steps, Rejected) + Fated(steps, Replaces) + Fated(steps, Opens)
  }

  /** Every opened interval is either recorded in exactly one histogram or still pending;
      the tracked entries beyond that were replaced or refused. */
  lemma {:induction false} Conservation(steps: seq<Step>)
    requires Trace(steps)
    ensures Increments(Run(steps)) + |Run(steps).starts| == Fated(steps, Opens)
    ensures Increments(Run(steps)) + |Run(steps).starts| <= TrackedEntries(steps)
    ensures |Run(steps).starts| <= 1024
    ensures Run(steps).starts.Keys <= Run(steps).targets.Keys
  {
    if steps != [] {
      var (before, step) := (steps[..|steps| - 1], steps[|steps| - 1]);
      Conservation(before);
      StepConserves(Run(before), step);
    }
  }

  lemma StepConserves(s: State, step: Step)
    requires Possible(step)
    ensures Increments(Next(s, step)) + |Next(s, step).starts|
         == Increments(s) + |s.starts| + if FateOf(s, step) == Opens then 1 else 0
    ensures |s.starts| <= MAX_TRACKED_PIDS ==> |Next(s, step).starts| <= MAX_TRACKED_PIDS
  {
    var t := Next(s, step);
    if Stores(s, step) {
      assert t.starts.Keys == s.starts.Keys + {step.pid};
    } else if Consumes(s, step) {
      assert t.starts.Keys == s.starts.Keys - {step.pid};
    }
  }

  function EventLatencies(events: seq<Event>): (vs: seq<nat>)
    ensures |vs| == |events|
  {
    seq(|events|, i requires 0 <= i < |events| => events[i].latency)
  }

  ghost predicate EventsSelected(s: State) {
    multiset(EventLatencies(s.events)) <= multiset(Latencies(s.surreal)) + multiset(Latencies(s.polyglot))
  }

  lemma EventStep(s: State, step: Step)
    requires Possible(step) && EventsSelected(s)
    ensures EventsSelected(Next(s, step))
  {
    var t := Next(s, step);
    if Consumes(s, step) && step.ExitRead? {
      var v: nat := Elapsed(step.ts, s.starts[step.pid]);
      assert t.surreal != s.surreal ==> Latencies(t.surreal) == Latencies(s.surreal) + [v];
      assert t.polyglot != s.polyglot ==> Latencies(t.polyglot) == Latencies(s.polyglot) + [v];
      assert t.events != s.events ==> EventLatencies(t.events) == EventLatencies(s.events) + [v];
    }
  }

  lemma SelectedFewer(s: State)
    requires EventsSelected(s)
    ensures |s.events| <= |s.surreal| + |s.polyglot|
  {
    var (a, b, c) := (EventLatencies(s.events), Latencies(s.surreal), Latencies(s.polyglot));
    SubmultisetSize(multiset(a), multiset(b) + multiset(c));
  }

  /** The events are a selection of the recorded read latencies. */
  lemma {:induction false} EventsAreReads(steps: seq<Step>)
    requires Trace(steps)
    ensures EventsSelected(Run(steps))
    ensures |Run(steps).events| <= |Run(steps).surreal| + |Run(steps).polyglot|
  {
    if steps != [] {
      EventsAreReads(steps[..|steps| - 1]);
      EventStep(Run(steps[..|steps| - 1]), steps[|steps| - 1]);
    }
    SelectedFewer(Run(steps));
  }

  lemma {:induction false} SubmultisetSize<T>(a: multiset<T>, b: multiset<T>)
    requires a <= b
    ensures |a| <= |b|
  {
    assert b == a + (b - a);
  }

  // ---- pairing ----

  /** Step `i` stored an entry of `pid`, and nothing since has replaced or consumed it. */
  ghost predicate LatestUnconsumed(steps: seq<Step>, pid: u32, i: nat)
    requires Trace(steps)
  {
    && i < |steps| && steps[i].pid == pid && Stores(Run(steps[..i]), steps[i])
    && forall j | i < j < |steps| :: !Touches(steps, j, pid)
  }

  /** Step `j` stores an entry of `pid` or is an exit of the tracked `pid`. */
  ghost predicate Touches(steps: seq<Step>, j: nat, pid: u32)
    requires Trace(steps) && j < |steps|
  {
    && steps[j].pid == pid
    && (Stores(Run(steps[..j]), steps[j])
        || ((steps[j].ExitRead? || steps[j].ExitSend?) && pid in Run(steps[..j]).targets))
  }

  lemma TouchesPrefix(steps: seq<Step>, n: nat, j: nat, pid: u32)
    requires Trace(steps) && j < n <= |steps|
    ensures Trace(steps[..n]) && (Touches(steps[..n], j, pid) <==> Touches(steps, j, pid))
  {
    assert steps[..n][..j] == steps[..j];
  }

  lemma LatestAfterStep(steps: seq<Step>, pid: u32, i: nat, n: nat, before: seq<Step>)
    requires Trace(steps) && steps != [] && n == |steps| - 1 && before == steps[..n]
    ensures i < n ==> (LatestUnconsumed(steps, pid, i)
                       <==> LatestUnconsumed(before, pid, i) && !Touches(steps, n, pid))
    ensures i == n ==> (LatestUnconsumed(steps, pid, i)
                        <==> steps[n].pid == pid && Stores(Run(before), steps[n]))
    ensures i > n ==> !LatestUnconsumed(steps, pid, i)
  {
    if i < n {
      assert before[..i] == steps[..i];
      forall j | i < j < n ensures Touches(before, j, pid) <==> Touches(steps, j, pid) {
        TouchesPrefix(steps, n, j, pid);
      }
    }
  }

  /** The map of start times holds, for each pid, the time of its latest unconsumed entry. */
  lemma {:induction false} StartsMeaning(steps: seq<Step>, pid: u32)
    requires Trace(steps)
    ensures pid in Run(steps).starts ==>
              exists i: nat :: LatestUnconsumed(steps, pid, i) && steps[i].ts == Run(steps).starts[pid]
    ensures pid !in Run(steps).starts ==> forall i: nat :: !LatestUnconsumed(steps, pid, i)
  {
    if steps != [] {
      var n := |steps| - 1;
      var before := steps[..n];
      StartsMeaning(before, pid);
      if pid in Run(steps).starts {
        if steps[n].pid == pid && Stores(Run(before), steps[n]) {
          LatestAfterStep(steps, pid, n, n, before);
        } else {
          var i: nat :| LatestUnconsumed(before, pid, i) && before[i].ts == Run(before).starts[pid];
          LatestAfterStep(steps, pid, i, n, before);
        }
      } else {
        forall i: nat ensures !LatestUnconsumed(steps, pid, i) {
          LatestAfterStep(steps, pid, i, n, before);
        }
      }
    }
  }

  ghost predicate MonotoneClock(steps: seq<Step>) {
    forall i, j | 0 <= i <= j < |steps| && !steps[i].Track? && !steps[j].Track? :: steps[i].ts <= steps[j].ts
  }

  datatype Target = SurrealReads | PolyglotReads | Sends

  ghost function Recorded(s: State, h: Target): seq<Sample> {
    match h
    case SurrealReads => s.surreal
    case PolyglotReads => s.polyglot
    case Sends => s.send
  }

  /** The histogram an exit belongs to: sends together, reads by the pid's stack. */
  ghost predicate BelongsTo(s: State, step: Step, h: Target) {
    match h
    case SurrealReads => step.ExitRead? && step.pid in s.targets && s.targets[step.pid] == 0
    case PolyglotReads => step.ExitRead? && step.pid in s.targets && s.targets[step.pid] != 0
    case Sends => step.ExitSend? && step.pid in s.targets
  }

  /** `x` was recorded in `h` by the exit at step `j`, against the entry at step `i`. */
  ghost predicate RecordedBy(steps: seq<Step>, h: Target, x: Sample, i: nat, j: nat)
    requires Trace(steps)
  {
    && i < j < |steps| && BelongsTo(Run(steps[..j]), steps[j], h)
    && x.cpu == steps[j].cpu
    && LatestUnconsumed(steps[..j], steps[j].pid, i)
    && x.latency == steps[j].ts - steps[i].ts
  }

  lemma RecordedLater(steps: seq<Step>, n: nat, h: Target, x: Sample, i: nat, j: nat)
    requires Trace(steps) && n <= |steps| && RecordedBy(steps[..n], h, x, i, j)
    ensures RecordedBy(steps, h, x, i, j)
  {
    assert steps[..n][..j] == steps[..j];
  }

  /** With a clock that does not run backwards, every latency in every histogram is the
      plain difference between an exit of that histogram's kind and the latest unconsumed
      entry of the same pid. */
  lemma {:induction false} LatenciesArePaired(steps: seq<Step>, h: Target, x: Sample)
    requires Trace(steps) && MonotoneClock(steps)
    requires x in Recorded(Run(steps), h)
    ensures exists i: nat, j: nat :: RecordedBy(steps, h, x, i, j)
  {
    if steps != [] {
      var n := |steps| - 1;
      var (before, step) := (steps[..n], steps[n]);
      var s := Run(before);
      if x in Recorded(s, h) {
        LatenciesArePaired(before, h, x);
        var i: nat, j: nat :| RecordedBy(before, h, x, i, j);
        RecordedLater(steps, n, h, x, i, j);
      } else {
        assert Consumes(s, step);
        StartsMeaning(before, step.pid);
        var i: nat :| LatestUnconsumed(before, step.pid, i) && before[i].ts == s.starts[step.pid];
        assert steps[i] == before[i];
        assert steps[i].ts <= steps[n].ts;
        assert RecordedBy(steps, h, x, i, n);
      }
    }
  }

  /** `e` was emitted by the granted read exit at step `j`, with the latency it recorded. */
  ghost predicate EmittedBy(steps: seq<Step>, e: Event, j: nat)
    requires Trace(steps)
  {
    && j < |steps| && steps[j].ExitRead? && steps[j].reserved
    && e.pid == steps[j].pid && e.op == 0
    && e.size == (if steps[j].ret > 0 then steps[j].ret else 0)
    && e.pid in Run(steps[..j]).targets && e.stack == Run(steps[..j]).targets[e.pid]
    && e.pid in Run(steps[..j]).starts && e.latency == Elapsed(steps[j].ts, Run(steps[..j]).starts[e.pid])
    && Sample(steps[j].cpu, e.latency) in
         Recorded(Run(steps[..j + 1]), if e.stack == 0 then SurrealReads else PolyglotReads)
  }

  /** Every event on the ring buffer describes one such exit. */
  lemma {:induction false} EventsDescribeReads(steps: seq<Step>, e: Event)
    requires Trace(steps) && e in Run(steps).events
    ensures exists j: nat :: EmittedBy(steps, e, j)
  {
    if steps != [] {
      var n := |steps| - 1;
      var before := steps[..n];
      if e in Run(before).events {
        EventsDescribeReads(before, e);
        var j: nat :| EmittedBy(before, e, j);
        assert before[..j] == steps[..j] && before[..j + 1] == steps[..j + 1];
        assert EmittedBy(steps, e, j);
      } else {
        assert steps[..n + 1] == steps;
        assert EmittedBy(steps, e, n);
      }
    }
  }

  // ---- which pids are tracked, which entries count, which exits emit ----

  /** Step `i` is the last to register `pid`. */
  ghost predicate LastTracked(steps: seq<Step>, pid: u32, i: nat) {
    && i < |steps| && steps[i].Track? && steps[i].pid == pid
    && forall j | i < j < |steps| :: !(steps[j].Track? && steps[j].pid == pid)
  }

  ghost predicate Registered(steps: seq<Step>, pid: u32) {
    exists i: nat :: LastTracked(steps, pid, i)
  }

  ghost predicate Pending(steps: seq<Step>, pid: u32)
    requires Trace(steps)
  {
    exists i: nat :: LatestUnconsumed(steps, pid, i)
  }

  lemma LastTrackedStep(steps: seq<Step>, pid: u32, i: nat, n: nat, before: seq<Step>)
    requires steps != [] && n == |steps| - 1 && before == steps[..n]
    ensures i < n ==> (LastTracked(steps, pid, i)
                       <==> LastTracked(before, pid, i) && !(steps[n].Track? && steps[n].pid == pid))
    ensures i == n ==> (LastTracked(steps, pid, i) <==> steps[n].Track? && steps[n].pid == pid)
    ensures i > n ==> !LastTracked(steps, pid, i)
  {
    if i < n {
      assert forall j | i < j < n :: before[j] == steps[j];
    }
  }

  /** Exactly the registered pids are tracked, each with the stack it was last registered for. */
  lemma {:induction false} TargetsMeaning(steps: seq<Step>, pid: u32)
    requires Trace(steps)
    ensures pid in Run(steps).targets ==>
              exists i: nat :: LastTracked(steps, pid, i) && steps[i].stack == Run(steps).targets[pid]
    ensures pid !in Run(steps).targets ==> !Registered(steps, pid)
  {
    if steps != [] {
      var n := |steps| - 1;
      var before := steps[..n];
      TargetsMeaning(before, pid);
      if pid in Run(steps).targets {
        if steps[n].Track? && steps[n].pid == pid {
          LastTrackedStep(steps, pid, n, n, before);
        } else {
          var i: nat :| LastTracked(before, pid, i) && before[i].stack == Run(before).targets[pid];
          LastTrackedStep(steps, pid, i, n, before);
        }
      } else {
        forall i: nat ensures !LastTracked(steps, pid, i) {
          LastTrackedStep(steps, pid, i, n, before);
        }
      }
    }
  }

  /** An entry of either kind counts exactly when the kernel takes it, its pid is registered,
      and the pid is pending already or fewer than 1024 are. It then becomes the pid's
      latest entry; otherwise nothing changes. */
  lemma EntryCounts(steps: seq<Step>, op: Op, pid: u32, ts: u64, accepted: bool)
    requires Trace(steps)
    ensures var (s, step) := (Run(steps), Enter(op, pid, ts, accepted));
            && (Stores(s, step) <==>
                  accepted && Registered(steps, pid) && (Pending(steps, pid) || |s.starts| < 1024))
            && Next(s, step) == if Stores(s, step) then s.(starts := s.starts[pid := ts]) else s
  {
    TargetsMeaning(steps, pid);
    StartsMeaning(steps, pid);
  }

  /** Step `j` is a read exit, with a granted reservation, of a registered pid with an entry to
      consume. */
  ghost predicate Emits(steps: seq<Step>, j: nat)
    requires Trace(steps)
  {
    && j < |steps| && steps[j].ExitRead? && steps[j].reserved
    && Registered(steps[..j], steps[j].pid) && Pending(steps[..j], steps[j].pid)
  }

  /** The emitting steps in order. */
  ghost function Emitting(steps: seq<Step>): (js: seq<nat>)
    requires Trace(steps)
  {
    if steps == [] then [] else
      var n := |steps| - 1;
      Emitting(steps[..n]) + if Emits(steps, n) then [n] else []
  }

  lemma EmitsPrefix(steps: seq<Step>, n: nat, j: nat)
    requires Trace(steps) && j < n <= |steps|
    ensures Trace(steps[..n]) && (Emits(steps[..n], j) <==> Emits(steps, j))
  {
    assert steps[..n][..j] == steps[..j];
  }

  lemma {:induction false} EmittingMeaning(steps: seq<Step>)
    requires Trace(steps)
    ensures forall j: nat :: j in Emitting(steps) <==> Emits(steps, j)
    ensures forall a, b | 0 <= a < b < |Emitting(steps)| :: Emitting(steps)[a] < Emitting(steps)[b]
  {
    if steps != [] {
      var n := |steps| - 1;
      EmittingMeaning(steps[..n]);
      forall j: nat | j < n ensures Emits(steps[..n], j) <==> Emits(steps, j) {
        EmitsPrefix(steps, n, j);
      }
      forall a | 0 <= a < |Emitting(steps[..n])| ensures Emitting(steps[..n])[a] < n {
        assert Emitting(steps[..n])[a] in Emitting(steps[..n]);
      }
    }
  }

  lemma EmitsExactly(steps: seq<Step>, n: nat)
    requires Trace(steps) && n < |steps|
    ensures Emits(steps, n) <==> steps[n].ExitRead? && steps[n].reserved && Consumes(Run(steps[..n]), steps[n])
  {
    TargetsMeaning(steps[..n], steps[n].pid);
    StartsMeaning(steps[..n], steps[n].pid);
  }

  lemma EmittedLater(steps: seq<Step>, n: nat, e: Event, j: nat)
    requires Trace(steps) && n <= |steps| && EmittedBy(steps[..n], e, j)
    ensures EmittedBy(steps, e, j)
  {
    assert steps[..n][..j] == steps[..j] && steps[..n][..j + 1] == steps[..j + 1];
  }

  lemma EventOfStep(steps: seq<Step>, n: nat)
    requires Trace(steps) && n == |steps| - 1
    ensures if Emits(steps, n)
            then exists e :: Run(steps).events == Run(steps[..n]).events + [e] && EmittedBy(steps, e, n)
            else Run(steps).events == Run(steps[..n]).events
  {
    EmitsExactly(steps, n);
    if Emits(steps, n) {
      var s := Run(steps[..n]);
      assert steps[n] in steps;
      var e := EventOf(steps[n], s.targets[steps[n].pid], Elapsed(steps[n].ts, s.starts[steps[n].pid]));
      assert steps[..n + 1] == steps;
      assert EmittedBy(steps, e, n);
    }
  }

  /** The events are, one each and in order, those of the emitting steps. */
  lemma {:induction false} EventsExactly(steps: seq<Step>)
    requires Trace(steps)
    ensures |Run(steps).events| == |Emitting(steps)|
    ensures forall a | 0 <= a < |Emitting(steps)| :: EmittedBy(steps, Run(steps).events[a], Emitting(steps)[a])
  {
    if steps != [] {
      var n := |steps| - 1;
      var before := steps[..n];
      EventsExactly(before);
      forall a | 0 <= a < |Emitting(before)|
        ensures EmittedBy(steps, Run(before).events[a], Emitting(before)[a])
      {
        EmittedLater(steps, n, Run(before).events[a], Emitting(before)[a]);
      }
      EventOfStep(steps, n);
    }
  }

  // ---- the probe over its maps ----

  class Probe {
    var targets: map<u32, u8>
    var starts: map<u32, u64>
    const surreal: PercpuHistogram
    const polyglot: PercpuHistogram
    const send: PercpuHistogram
    var events: seq<Event>

    ghost predicate Valid()
      reads this, surreal, polyglot, send, surreal.counts, polyglot.counts, send.counts
    {
      && surreal.Valid() && polyglot.Valid() && send.Valid()
      && surreal != polyglot && surreal != send && polyglot != send
      && surreal.counts != polyglot.counts && surreal.counts != send.counts && polyglot.counts != send.counts
    }

    ghost function View(): State
      reads this, surreal, polyglot, send
    {
      State(targets, starts, surreal.samples, polyglot.samples, send.samples, events)
    }

    constructor (cpus: nat)
      ensures Valid() && View() == INITIAL
      ensures surreal.counts.Length0 == polyglot.counts.Length0 == send.counts.Length0 == cpus
    {
      targets, starts, events := map[], map[], [];
      surreal := new PercpuHistogram(cpus);
      polyglot := new PercpuHistogram(cpus);
      send := new PercpuHistogram(cpus);
    }

    /** User space registers a pid. */
    method TrackPid(pid: u32, stack: u8)
      requires Valid()
      modifies this`targets
      ensures Valid() && View() == Next(old(View()), Track(pid, stack))
    {
      targets := targets[pid := stack];
    }

    /** The entry hook, the same for both operations. */
    method OnEnter(op: Op, pid: u32, ts: u64, accepted: bool)
      requires Valid()
      modifies this`starts
      ensures Valid() && View() == Next(old(View()), Enter(op, pid, ts, accepted))
    {
      if pid !in targets {
        return;
      }
      if accepted && (pid in starts || |starts| < MAX_TRACKED_PIDS) {
        starts := starts[pid := ts];
      }
    }

    method OnReadExit(cpu: nat, pid: u32, ts: u64, ret: int, reserved: bool)
      requires Valid() && cpu < surreal.counts.Length0 && cpu < polyglot.counts.Length0 && ret < U64
      modifies this`starts, this`events, surreal, surreal.counts, polyglot, polyglot.counts
      ensures Valid() && View() == Next(old(View()), ExitRead(cpu, pid, ts, ret, reserved))
    {
      if pid !in targets || pid !in starts {
        return;
      }
      var latency := Elapsed(ts, starts[pid]);
      var stack := targets[pid];
      starts := starts - {pid};
      if stack == STACK_SURREAL {
        surreal.Update(cpu, latency);
      } else {
        polyglot.Update(cpu, latency);
      }
      if reserved {
        events := events + [Event(pid, stack, OP_VFS_READ, latency, if ret > 0 then ret else 0)];
      }
    }

    method OnSendExit(cpu: nat, pid: u32, ts: u64)
      requires Valid() && cpu < send.counts.Length0
      modifies this`starts, send, send.counts
      ensures Valid() && View() == Next(old(View()), ExitSend(cpu, pid, ts))
    {
      if pid !in targets || pid !in starts {
        return;
      }
      var latency := Elapsed(ts, starts[pid]);
      starts := starts - {pid};
      send.Update(cpu, latency);
    }
  }
}
