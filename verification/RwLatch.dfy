/**
 * The reader/writer latch (include/rwlatch.h) as a state machine over any
 * number of threads. A critical section of the inner mutex is one step; a
 * thread on a condition variable sleeps until a notification or a spurious
 * wake-up, and then has to run its loop test again.
 */
module RwLatch {
  import opened Common

  datatype Want = ToRead | ToWrite

  // WaitReader is on reader_, WaitWriter (having set writer_entered_) on writer_.
  datatype Phase =
    | Idle
    | WaitReader(want: Want, woken: bool)
    | WaitWriter(woken: bool)
    | Reading
    | Writing

  datatype Latch = Latch(threads: seq<Phase>, readerCount: nat, writerEntered: bool)

  // RUnlock carries the thread its notification reaches, if any sleeps.
  datatype Event =
    | WLock(t: nat)
    | RLock(t: nat)
    | WUnlock(t: nat)
    | RUnlock(t: nat, reaches: Option<nat>)
    | Resume(t: nat)
    | Spurious(t: nat)

  function Init(n: nat): Latch {
    Latch(seq(n, _ => Idle), 0, false)
  }

  // --- The critical sections ----------------------------------------------

  function TryRead(max: nat, s: Latch, t: nat): Latch
    requires t < |s.threads|
  {
    if s.writerEntered || s.readerCount == max then
      s.(threads := s.threads[t := WaitReader(ToRead, false)])
    else
      s.(threads := s.threads[t := Reading], readerCount := s.readerCount + 1)
  }

  function AwaitReaders(s: Latch, t: nat): Latch
    requires t < |s.threads|
  {
    s.(threads := s.threads[t := if s.readerCount > 0 then WaitWriter(false) else Writing])
  }

  function TryWrite(s: Latch, t: nat): Latch
    requires t < |s.threads|
  {
    if s.writerEntered then s.(threads := s.threads[t := WaitReader(ToWrite, false)])
    else AwaitReaders(s.(writerEntered := true), t)
  }

  function Wake(p: Phase): Phase {
    match p
    case WaitReader(want, _) => WaitReader(want, true)
    case WaitWriter(_) => WaitWriter(true)
    case _ => p
  }

  function WakeReaders(threads: seq<Phase>): seq<Phase> {
    seq(|threads|, i requires 0 <= i < |threads| =>
      if threads[i].WaitReader? then Wake(threads[i]) else threads[i])
  }

  // Whom RUnlock notifies.
  datatype Notice = Nobody | OneWriter | OneReader

  function Notified(max: nat, s: Latch): Notice {
    if s.writerEntered then (if s.readerCount == 1 then OneWriter else Nobody)
    else (if s.readerCount == max then OneReader else Nobody)
  }

  predicate Hears(notice: Notice, p: Phase) {
    || (notice.OneWriter? && p == WaitWriter(false))
    || (notice.OneReader? && p.WaitReader? && !p.woken)
  }

  ghost predicate Enabled(max: nat, s: Latch, e: Event) {
    && e.t < |s.threads|
    && match e
       case WLock(t) => s.threads[t].Idle?
       case RLock(t) => s.threads[t].Idle?
       case WUnlock(t) => s.threads[t].Writing?
       case RUnlock(t, reaches) =>
         && s.threads[t].Reading? && s.readerCount > 0
         && (match reaches
             case Some(u) => u < |s.threads| && Hears(Notified(max, s), s.threads[u])
             case None => forall u :: 0 <= u < |s.threads| ==> !Hears(Notified(max, s), s.threads[u]))
       case Resume(t) =>
         (s.threads[t].WaitReader? || s.threads[t].WaitWriter?) && s.threads[t].woken
       case Spurious(t) => s.threads[t].WaitReader? || s.threads[t].WaitWriter?
  }

  ghost function Apply(max: nat, s: Latch, e: Event): (r: Latch)
    requires Enabled(max, s, e)
    ensures |r.threads| == |s.threads|
  {
    match e
    case WLock(t) => TryWrite(s, t)
    case RLock(t) => TryRead(max, s, t)
    case WUnlock(t) => s.(threads := WakeReaders(s.threads[t := Idle]), writerEntered := false)
    case RUnlock(t, reaches) =>
      var left := s.threads[t := Idle];
      s.(threads := if reaches.Some? then left[reaches.value := Wake(left[reaches.value])] else left,
         readerCount := s.readerCount - 1)
    case Resume(t) =>
      if s.threads[t].WaitWriter? then AwaitReaders(s, t)
      else if s.threads[t].want.ToRead? then TryRead(max, s, t)
      else TryWrite(s, t)
    case Spurious(t) => s.(threads := s.threads[t := Wake(s.threads[t])])
  }

  // --- Runs ------------------------------------------------------------------

  ghost predicate Run(max: nat, from: Latch, events: seq<Event>, to: Latch)
    decreases |events|
  {
    if events == [] then to == from
    else Enabled(max, from, events[0]) && Run(max, Apply(max, from, events[0]), events[1..], to)
  }

  ghost predicate Reachable(max: nat, n: nat, s: Latch) {
    exists events :: Run(max, Init(n), events, s)
  }

  lemma {:induction false} RunConcat(max: nat, a: Latch, e1: seq<Event>, b: Latch, e2: seq<Event>, c: Latch)
    requires Run(max, a, e1, b) && Run(max, b, e2, c)
    ensures Run(max, a, e1 + e2, c)
    decreases |e1|
  {
    if e1 == [] {
      assert e1 + e2 == e2;
    } else {
      RunConcat(max, Apply(max, a, e1[0]), e1[1..], b, e2, c);
      assert (e1 + e2)[1..] == e1[1..] + e2;
    }
  }

  lemma RunSingle(max: nat, s: Latch, e: Event)
    requires Enabled(max, s, e)
    ensures Run(max, s, [e], Apply(max, s, e))
  {
    assert Run(max, Apply(max, s, e), [], Apply(max, s, e));
    assert [e][1..] == [];
  }

  // --- Counting ----------------------------------------------------------------

  datatype Role = Reader | Owner

  predicate Plays(p: Phase, role: Role) {
    match role
    case Reader => p.Reading?
    case Owner => p.WaitWriter? || p.Writing?
  }

  function Weight(p: Phase, role: Role): nat {
    if Plays(p, role) then 1 else 0
  }

  function Count(ts: seq<Phase>, role: Role): nat {
    if ts == [] then 0 else Count(ts[..|ts| - 1], role) + Weight(ts[|ts| - 1], role)
  }

  lemma {:induction false} CountUpdate(ts: seq<Phase>, i: nat, p: Phase, role: Role)
    requires i < |ts|
    ensures Count(ts[i := p], role) == Count(ts, role) - Weight(ts[i], role) + Weight(p, role)
  {
    if i == |ts| - 1 {
      assert ts[i := p][..i] == ts[..i];
    } else {
      CountUpdate(ts[..|ts| - 1], i, p, role);
      assert ts[i := p][..|ts| - 1] == ts[..|ts| - 1][i := p];
    }
  }

  lemma {:induction false} CountSame(ts: seq<Phase>, us: seq<Phase>, role: Role)
    requires |ts| == |us|
    requires forall i :: 0 <= i < |ts| ==> Plays(ts[i], role) == Plays(us[i], role)
    ensures Count(ts, role) == Count(us, role)
  {
    if ts != [] { CountSame(ts[..|ts| - 1], us[..|us| - 1], role); }
  }

  lemma {:induction false} CountBound(ts: seq<Phase>, role: Role)
    ensures Count(ts, role) <= |ts|
    ensures Count(ts, role) == 0 <==> forall i :: 0 <= i < |ts| ==> !Plays(ts[i], role)
  {
    if ts != [] {
      CountBound(ts[..|ts| - 1], role);
      if Count(ts, role) == 0 {
        forall i | 0 <= i < |ts| ensures !Plays(ts[i], role) {
          if i < |ts| - 1 { assert !Plays(ts[..|ts| - 1][i], role); }
        }
      }
    }
  }

  // Two threads in a role make the count two; two outside it leave room for two.
  lemma CountPair(ts: seq<Phase>, i: nat, j: nat, role: Role)
    requires i < |ts| && j < |ts| && i != j
    ensures Plays(ts[i], role) && Plays(ts[j], role) ==> Count(ts, role) >= 2
    ensures !Plays(ts[i], role) && !Plays(ts[j], role) ==> Count(ts, role) + 2 <= |ts|
  {
    var filler := if role.Reader? then Reading else Writing;
    assert Plays(filler, role) && !Plays(Idle, role);
    CountUpdate(ts, i, Idle, role);
    CountUpdate(ts[i := Idle], j, Idle, role);
    CountUpdate(ts, i, filler, role);
    CountUpdate(ts[i := filler], j, filler, role);
    CountBound(ts[i := filler][j := filler], role);
  }

  // --- Safety, for any number of threads ---------------------------------------

  ghost predicate Inv(max: nat, s: Latch) {
    && s.readerCount == Count(s.threads, Reader) <= max
    && Count(s.threads, Owner) == (if s.writerEntered then 1 else 0)
    && forall i :: 0 <= i < |s.threads| && s.threads[i].Writing? ==> s.readerCount == 0
  }

  lemma InitInv(max: nat, n: nat)
    ensures Inv(max, Init(n))
  {
    CountBound(Init(n).threads, Reader);
    CountBound(Init(n).threads, Owner);
  }

  // Writing means owning; nobody owns while writer_entered_ is false.
  lemma OwnerMeans(max: nat, s: Latch, i: nat)
    requires Inv(max, s) && i < |s.threads|
    ensures Plays(s.threads[i], Owner) ==> s.writerEntered
    ensures s.threads[i].Reading? ==> s.readerCount > 0
    ensures forall j :: 0 <= j < |s.threads| && j != i && Plays(s.threads[i], Owner) ==> !Plays(s.threads[j], Owner)
  {
    CountBound(s.threads, Owner);
    CountBound(s.threads, Reader);
    forall j | 0 <= j < |s.threads| && j != i && Plays(s.threads[i], Owner) ensures !Plays(s.threads[j], Owner) {
      CountPair(s.threads, i, j, Owner);
    }
  }

  // How one step changes the number of threads in a role.
  lemma StepCount(max: nat, s: Latch, e: Event, role: Role)
    requires Enabled(max, s, e)
    ensures Count(Apply(max, s, e).threads, role) ==
            Count(s.threads, role) - Weight(s.threads[e.t], role) + Weight(Apply(max, s, e).threads[e.t], role)
  {
    var r := Apply(max, s, e);
    CountUpdate(s.threads, e.t, r.threads[e.t], role);
    if e.RUnlock? || e.WUnlock? {
      CountSame(s.threads[e.t := r.threads[e.t]], r.threads, role);
    }
  }

  lemma StepInv(max: nat, s: Latch, e: Event)
    requires Inv(max, s) && Enabled(max, s, e)
    ensures Inv(max, Apply(max, s, e))
  {
    OwnerMeans(max, s, e.t);
    StepCount(max, s, e, Reader);
    StepCount(max, s, e, Owner);
    CountBound(s.threads, Owner);
  }

  lemma {:induction false} RunInv(max: nat, s: Latch, events: seq<Event>, r: Latch)
    requires Inv(max, s) && Run(max, s, events, r)
    ensures Inv(max, r) && |r.threads| == |s.threads|
    decreases |events|
  {
    if events != [] {
      StepInv(max, s, events[0]);
      RunInv(max, Apply(max, s, events[0]), events[1..], r);
    }
  }

  // Mutual exclusion: a writer excludes everybody, and reader_count_ is the
  // number of readers, which never passes MAX_READERS.
  lemma Safety(max: nat, n: nat, s: Latch)
    requires Reachable(max, n, s)
    ensures s.readerCount == Count(s.threads, Reader) <= max
    ensures forall i, j :: 0 <= i < |s.threads| && 0 <= j < |s.threads| && i != j && s.threads[i].Writing? ==>
              !s.threads[j].Writing? && !s.threads[j].Reading?
    ensures s.writerEntered <==> exists i :: 0 <= i < |s.threads| && Plays(s.threads[i], Owner)
  {
    var events :| Run(max, Init(n), events, s);
    InitInv(max, n);
    RunInv(max, Init(n), events, s);
    CountBound(s.threads, Owner);
    forall i, j | 0 <= i < |s.threads| && 0 <= j < |s.threads| && i != j && s.threads[i].Writing?
      ensures !s.threads[j].Writing? && !s.threads[j].Reading?
    {
      OwnerMeans(max, s, i);
      OwnerMeans(max, s, j);
    }
  }

  function Releases(events: seq<Event>): nat {
    if events == [] then 0 else (if events[0].RUnlock? then 1 else 0) + Releases(events[1..])
  }

  // The latch prefers writers: once one has announced itself, and until it has
  // come and gone, nobody starts to read, and every reader that leaves brings
  // it one closer.
  lemma {:induction false} NoReaderEnters(max: nat, s: Latch, events: seq<Event>, r: Latch)
    requires s.writerEntered && Run(max, s, events, r)
    requires forall i :: 0 <= i < |events| ==> !events[i].WUnlock?
    ensures r.writerEntered && |r.threads| == |s.threads|
    ensures forall i :: 0 <= i < |s.threads| && r.threads[i].Reading? ==> s.threads[i].Reading?
    ensures r.readerCount + Releases(events) == s.readerCount
    decreases |events|
  {
    if events != [] {
      NoReaderEnters(max, Apply(max, s, events[0]), events[1..], r);
    }
  }

  // A waiting writer is woken only when the last reader has left, unless the
  // wake-up was spurious.
  ghost predicate WokenInTime(s: Latch) {
    forall i :: 0 <= i < |s.threads| && s.threads[i] == WaitWriter(true) ==> s.writerEntered && s.readerCount == 0
  }

  lemma StepWokenInTime(max: nat, s: Latch, e: Event)
    requires Inv(max, s) && WokenInTime(s) && Enabled(max, s, e) && !e.Spurious?
    ensures WokenInTime(Apply(max, s, e))
  {
    StepInv(max, s, e);
    OwnerMeans(max, s, e.t);
    var r := Apply(max, s, e);
    forall i | 0 <= i < |r.threads| && r.threads[i] == WaitWriter(true)
      ensures r.writerEntered && r.readerCount == 0
    {
      OwnerMeans(max, s, i);
      OwnerMeans(max, r, i);
    }
  }

  lemma {:induction false} WriterWokenInTime(max: nat, s: Latch, events: seq<Event>, r: Latch)
    requires Inv(max, s) && WokenInTime(s) && Run(max, s, events, r)
    requires forall i :: 0 <= i < |events| ==> !events[i].Spurious?
    ensures WokenInTime(r)
    decreases |events|
  {
    if events != [] {
      StepWokenInTime(max, s, events[0]);
      StepInv(max, s, events[0]);
      WriterWokenInTime(max, Apply(max, s, events[0]), events[1..], r);
    }
  }

  // --- Everyone gets the latch it asked for -------------------------------------

  function After(session: Option<Want>, e: Event, t: nat): Option<Want> {
    if e.t != t then session
    else
      match e
      case WLock(_) => Some(ToWrite)
      case RLock(_) => Some(ToRead)
      case WUnlock(_) => None
      case RUnlock(_, _) => None
      case _ => session
  }

  // What thread t has asked for and not released yet, going by its calls alone.
  function Session(session: Option<Want>, events: seq<Event>, t: nat): Option<Want>
    decreases |events|
  {
    if events == [] then session else Session(After(session, events[0], t), events[1..], t)
  }

  // Where a thread may be in between.
  predicate Fits(session: Option<Want>, p: Phase) {
    match session
    case None => p.Idle?
    case Some(ToRead) => p.Reading? || (p.WaitReader? && p.want.ToRead?)
    case Some(ToWrite) => p.Writing? || p.WaitWriter? || (p.WaitReader? && p.want.ToWrite?)
  }

  lemma StepFits(max: nat, s: Latch, e: Event, session: Option<Want>, t: nat)
    requires Enabled(max, s, e) && t < |s.threads| && Fits(session, s.threads[t])
    ensures Fits(After(session, e, t), Apply(max, s, e).threads[t])
  {}

  lemma {:induction false} RunFits(max: nat, s: Latch, events: seq<Event>, r: Latch, session: Option<Want>, t: nat)
    requires Run(max, s, events, r) && t < |s.threads| && Fits(session, s.threads[t])
    ensures |r.threads| == |s.threads| && Fits(Session(session, events, t), r.threads[t])
    decreases |events|
  {
    hide Apply, Enabled, After;
    if events != [] {
      StepFits(max, s, events[0], session, t);
      RunFits(max, Apply(max, s, events[0]), events[1..], r, After(session, events[0], t), t);
    }
  }

  // From WLock to WUnlock a thread waits to write, awaits the readers or writes,
  // and nothing else; from RLock to RUnlock it waits to read or reads; outside
  // it is idle. Waits, wake-ups and what other threads do change none of that.
  lemma GetsWhatItAskedFor(max: nat, n: nat, events: seq<Event>, s: Latch, t: nat)
    requires Run(max, Init(n), events, s) && t < n
    ensures |s.threads| == n && Fits(Session(None, events, t), s.threads[t])
  {
    RunFits(max, Init(n), events, s, None, t);
  }

  // --- Liveness ------------------------------------------------------------------

  predicate Asleep(p: Phase) {
    (p.WaitReader? || p.WaitWriter?) && !p.woken
  }

  // Somebody waits, and nobody holds the latch or is awake to try for it.
  ghost predicate Stuck(s: Latch) {
    && (exists i :: 0 <= i < |s.threads| && Asleep(s.threads[i]))
    && forall i :: 0 <= i < |s.threads| ==> s.threads[i].Idle? || Asleep(s.threads[i])
  }

  ghost predicate Runnable(s: Latch) {
    exists i :: 0 <= i < |s.threads| && s.threads[i].WaitReader? && s.threads[i].woken
  }

  ghost predicate Relayed(max: nat, s: Latch) {
    max == 1 && |s.threads| >= 3 && Runnable(s)
  }

  // No wake-up was lost. With MAX_READERS == 1 every reader's exit notifies, so
  // that a third thread is at worst waiting for one that is awake.
  ghost predicate Heard(max: nat, s: Latch) {
    && (forall i :: 0 <= i < |s.threads| && s.threads[i].WaitReader? && !s.threads[i].woken ==>
          s.writerEntered || s.readerCount == max || Relayed(max, s))
    && (forall i :: 0 <= i < |s.threads| && s.threads[i] == WaitWriter(false) ==> s.readerCount > 0)
  }

  ghost predicate Few(max: nat, n: nat) {
    max == 1 || n <= max + 1
  }

  // The one step that can lose a wake-up: a reader leaves and notifies one thread.
  lemma LeaveHeard(max: nat, s: Latch, e: Event, i: nat)
    requires max >= 1 && Few(max, |s.threads|)
    requires Inv(max, s) && Heard(max, s) && Enabled(max, s, e) && e.RUnlock?
    requires i < |s.threads| && Asleep(Apply(max, s, e).threads[i])
    ensures var r := Apply(max, s, e);
            && (r.threads[i].WaitWriter? ==> r.readerCount > 0)
            && (r.threads[i].WaitReader? ==> r.writerEntered || r.readerCount == max || Relayed(max, r))
  {
    var r := Apply(max, s, e);
    assert Asleep(s.threads[i]) && r.threads[i] == s.threads[i];
    OwnerMeans(max, s, i);
    if s.threads[i].WaitReader? && !s.writerEntered {
      if s.readerCount == max {
        assert Hears(Notified(max, s), s.threads[i]);
        var u := e.reaches.value;
        assert r.threads[u].WaitReader? && r.threads[u].woken;
        if !Relayed(max, r) { CountPair(s.threads, i, u, Reader); }
      }
    }
  }

  lemma StepHeard(max: nat, s: Latch, e: Event)
    requires max >= 1 && Few(max, |s.threads|)
    requires Inv(max, s) && Heard(max, s) && Enabled(max, s, e)
    ensures Heard(max, Apply(max, s, e))
  {
    var r := Apply(max, s, e);
    OwnerMeans(max, s, e.t);
    forall i | 0 <= i < |r.threads| && Asleep(r.threads[i])
      ensures r.threads[i].WaitWriter? ==> r.readerCount > 0
      ensures r.threads[i].WaitReader? ==> r.writerEntered || r.readerCount == max || Relayed(max, r)
    {
      if e.RUnlock? {
        LeaveHeard(max, s, e, i);
      } else if i != e.t && r.threads[i].WaitReader? && !r.writerEntered && r.readerCount != max {
        var w :| 0 <= w < |s.threads| && s.threads[w].WaitReader? && s.threads[w].woken;
        assert r.threads[w].WaitReader? && r.threads[w].woken;
      } else if i != e.t && r.threads[i].WaitWriter? {
        OwnerMeans(max, s, i);
      }
    }
  }

  lemma {:induction false} RunHeard(max: nat, s: Latch, events: seq<Event>, r: Latch)
    requires max >= 1 && Few(max, |s.threads|)
    requires Inv(max, s) && Heard(max, s) && Run(max, s, events, r)
    ensures Inv(max, r) && Heard(max, r)
    decreases |events|
  {
    if events != [] {
      StepInv(max, s, events[0]);
      StepHeard(max, s, events[0]);
      RunHeard(max, Apply(max, s, events[0]), events[1..], r);
    }
  }

  lemma HeardNotStuck(max: nat, s: Latch)
    requires max >= 1 && Inv(max, s) && Heard(max, s)
    ensures !Stuck(s)
  {
    CountBound(s.threads, Reader);
    CountBound(s.threads, Owner);
  }

  lemma ReachableHeard(max: nat, n: nat, s: Latch)
    requires max >= 1 && Few(max, n) && Reachable(max, n, s)
    ensures Inv(max, s) && Heard(max, s) && |s.threads| == n
  {
    var events :| Run(max, Init(n), events, s);
    InitInv(max, n);
    RunHeard(max, Init(n), events, s);
    RunInv(max, Init(n), events, s);
  }

  // --- The run that loses a wake-up ----------------------------------------------

  // Threads from a up to b read, threads max and max + 1 are in the given
  // phases, and all others are idle.
  function Shape(n: nat, a: nat, b: nat, first: Phase, second: Phase, max: nat): seq<Phase> {
    seq(n, i => if a <= i < b then Reading else if i == max then first else if i == max + 1 then second else Idle)
  }

  lemma OneMore(max: nat, n: nat, s: Latch, e: Event)
    requires Reachable(max, n, s) && Enabled(max, s, e)
    ensures Reachable(max, n, Apply(max, s, e))
  {
    var events :| Run(max, Init(n), events, s);
    RunSingle(max, s, e);
    RunConcat(max, Init(n), events, s, [e], Apply(max, s, e));
  }

  lemma {:induction false} AllRead(max: nat, n: nat, k: nat)
    requires k <= max && max + 2 <= n
    ensures Reachable(max, n, Latch(Shape(n, 0, k, Idle, Idle, max), k, false))
  {
    var s := Latch(Shape(n, 0, k, Idle, Idle, max), k, false);
    if k == 0 {
      assert s.threads == Init(n).threads;
      assert Run(max, Init(n), [], s);
    } else {
      AllRead(max, n, k - 1);
      var before := Latch(Shape(n, 0, k - 1, Idle, Idle, max), k - 1, false);
      assert before.threads[k - 1 := Reading] == s.threads;
      OneMore(max, n, before, RLock(k - 1));
    }
  }

  // k readers have left; one of the two sleepers has been woken.
  function Leaving(n: nat, k: nat, max: nat): Latch
    requires k <= max
  {
    Latch(Shape(n, k, max, WaitReader(ToRead, true), WaitReader(ToRead, false), max), max - k, false)
  }

  lemma {:induction false} AllLeave(max: nat, n: nat, k: nat)
    requires 2 <= max && 1 <= k <= max && max + 2 <= n
    requires Reachable(max, n, Leaving(n, 1, max))
    ensures Reachable(max, n, Leaving(n, k, max))
  {
    if k > 1 {
      AllLeave(max, n, k - 1);
      var first, second := WaitReader(ToRead, true), WaitReader(ToRead, false);
      var before := Latch(Shape(n, k - 1, max, first, second, max), max - (k - 1), false);
      assert before.threads[k - 1 := Idle] == Shape(n, k, max, first, second, max);
      OneMore(max, n, before, RUnlock(k - 1, None));
    }
  }

  // MAX_READERS threads read, two more go to sleep, and the first reader to
  // leave wakes one of them.
  lemma OneWoken(max: nat, n: nat)
    requires 1 <= max && max + 2 <= n
    ensures Reachable(max, n, Leaving(n, 1, max))
  {
    var asleep, woken := WaitReader(ToRead, false), WaitReader(ToRead, true);
    AllRead(max, n, max);
    var s0 := Latch(Shape(n, 0, max, Idle, Idle, max), max, false);
    OneMore(max, n, s0, RLock(max));
    var s1 := Latch(Shape(n, 0, max, asleep, Idle, max), max, false);
    assert s0.threads[max := asleep] == s1.threads;
    OneMore(max, n, s1, RLock(max + 1));
    var s2 := Latch(Shape(n, 0, max, asleep, asleep, max), max, false);
    assert s1.threads[max + 1 := asleep] == s2.threads;
    assert Hears(Notified(max, s2), s2.threads[max]);
    OneMore(max, n, s2, RUnlock(0, Some(max)));
    var s3 := Latch(Shape(n, 1, max, woken, asleep, max), max - 1, false);
    assert s2.threads[0 := Idle][max := woken] == s3.threads;
  }

  // The sleeper that was woken reads and leaves; nobody else is about.
  lemma LastReader(max: nat, n: nat)
    requires 2 <= max && max + 2 <= n
    requires Reachable(max, n, Leaving(n, max, max))
    ensures Reachable(max, n, Latch(Shape(n, max, max, Idle, WaitReader(ToRead, false), max), 0, false))
  {
    var asleep := WaitReader(ToRead, false);
    var before := Leaving(n, max, max);
    OneMore(max, n, before, Resume(max));
    var reading := Latch(Shape(n, max, max, Reading, asleep, max), 1, false);
    assert before.threads[max := Reading] == reading.threads;
    OneMore(max, n, reading, RUnlock(max, None));
    assert reading.threads[max := Idle] == Shape(n, max, max, Idle, asleep, max);
  }

  // The other readers leave without notifying, and so does the sleeper that
  // was woken, once it has read. The other sleeper is never told.
  lemma LostWakeup(max: nat, n: nat)
    requires 2 <= max && max + 2 <= n
    ensures exists s :: Reachable(max, n, s) && Stuck(s)
  {
    hide Apply, Enabled, Reachable;
    OneWoken(max, n);
    AllLeave(max, n, max);
    LastReader(max, n);
    var s := Latch(Shape(n, max, max, Idle, WaitReader(ToRead, false), max), 0, false);
    assert Asleep(s.threads[max + 1]);
  }

  // Exactly when the latch can fall silent with a thread waiting.
  lemma StuckIff(max: nat, n: nat)
    requires max >= 1
    ensures (exists s :: Reachable(max, n, s) && Stuck(s)) <==> max >= 2 && n >= max + 2
  {
    if max >= 2 && n >= max + 2 {
      LostWakeup(max, n);
    } else {
      forall s | Reachable(max, n, s) ensures !Stuck(s) {
        ReachableHeard(max, n, s);
        HeardNotStuck(max, s);
      }
    }
  }

  // A sleeper on reader_ waits for a writer or a full house; a sleeper on
  // writer_ waits for readers.
  ghost predicate SleepersHaveCause(max: nat, s: Latch) {
    forall i :: 0 <= i < |s.threads| && Asleep(s.threads[i]) ==>
      if s.threads[i].WaitReader? then s.writerEntered || s.readerCount == max else s.readerCount > 0
  }

  // Exactly when no sleeper is ever left without a cause.
  lemma CauseIff(max: nat, n: nat)
    requires max >= 1
    ensures (forall s :: Reachable(max, n, s) ==> SleepersHaveCause(max, s)) <==> n <= max + 1
  {
    if n <= max + 1 {
      forall s | Reachable(max, n, s) ensures SleepersHaveCause(max, s) {
        ReachableHeard(max, n, s);
      }
    } else {
      OneWoken(max, n);
      assert Asleep(Leaving(n, 1, max).threads[max + 1]);
    }
  }

  // --- Everybody gets through ------------------------------------------------------

  // Releases and wake-ups, but no new request and no spurious wake-up.
  predicate Finishing(e: Event) {
    e.Resume? || e.WUnlock? || e.RUnlock?
  }

  // How far a thread is from leaving; a step of its own brings it closer by
  // more than the wake-ups it gives to the others.
  function Rank(p: Phase, k: nat): nat {
    match p
    case Idle => 0
    case Reading => k
    case Writing => k
    case WaitWriter(woken) => 2 * k + (if woken then 1 else 0)
    case WaitReader(_, woken) => 3 * k + (if woken then 1 else 0)
  }

  function Sum(ts: seq<Phase>, k: nat): nat {
    if ts == [] then 0 else Sum(ts[..|ts| - 1], k) + Rank(ts[|ts| - 1], k)
  }

  lemma {:induction false} SumUpdate(ts: seq<Phase>, i: nat, p: Phase, k: nat)
    requires i < |ts|
    ensures Sum(ts[i := p], k) == Sum(ts, k) - Rank(ts[i], k) + Rank(p, k)
  {
    hide Rank;
    if i == |ts| - 1 {
      assert ts[i := p][..i] == ts[..i];
    } else {
      SumUpdate(ts[..|ts| - 1], i, p, k);
      assert ts[i := p][..|ts| - 1] == ts[..|ts| - 1][i := p];
    }
  }

  lemma {:induction false} SumWake(ts: seq<Phase>, us: seq<Phase>, k: nat)
    requires |ts| == |us| && forall i :: 0 <= i < |ts| ==> us[i] == ts[i] || us[i] == Wake(ts[i])
    ensures Sum(us, k) <= Sum(ts, k) + |ts|
  {
    if ts != [] { SumWake(ts[..|ts| - 1], us[..|us| - 1], k); }
  }

  lemma FinishLowers(max: nat, s: Latch, e: Event)
    requires Enabled(max, s, e) && Finishing(e)
    ensures var k := |s.threads| + 2; Sum(Apply(max, s, e).threads, k) < Sum(s.threads, k)
  {
    var k, r := |s.threads| + 2, Apply(max, s, e);
    if e.Resume? {
      SumUpdate(s.threads, e.t, r.threads[e.t], k);
      assert r.threads == s.threads[e.t := r.threads[e.t]];
    } else {
      SumUpdate(s.threads, e.t, Idle, k);
      SumWake(s.threads[e.t := Idle], r.threads, k);
    }
  }

  lemma {:induction false} RunLowers(max: nat, s: Latch, events: seq<Event>, r: Latch)
    requires Run(max, s, events, r) && forall i :: 0 <= i < |events| ==> Finishing(events[i])
    ensures |r.threads| == |s.threads|
    ensures |events| + Sum(r.threads, |s.threads| + 2) <= Sum(s.threads, |s.threads| + 2)
    decreases |events|
  {
    hide Enabled, Apply;
    if events != [] {
      assert Finishing(events[0]);
      FinishLowers(max, s, events[0]);
      RunLowers(max, Apply(max, s, events[0]), events[1..], r);
    }
  }

  // While somebody holds the latch or waits for it, a release or a wake-up that
  // counts is possible.
  lemma GoesOn(max: nat, s: Latch, b: nat) returns (e: Event)
    requires max >= 1 && Inv(max, s) && Heard(max, s) && b < |s.threads| && !s.threads[b].Idle?
    ensures Enabled(max, s, e) && Finishing(e)
  {
    if i: nat :| i < |s.threads| && s.threads[i].Writing? {
      e := WUnlock(i);
    } else if i: nat :| i < |s.threads| && s.threads[i].Reading? {
      OwnerMeans(max, s, i);
      if u: nat :| u < |s.threads| && Hears(Notified(max, s), s.threads[u]) {
        e := RUnlock(i, Some(u));
      } else {
        e := RUnlock(i, None);
      }
    } else {
      HeardNotStuck(max, s);
      var w: nat :| w < |s.threads| && !s.threads[w].Idle? && !Asleep(s.threads[w]);
      e := Resume(w);
    }
  }

  ghost predicate AllIdle(s: Latch) {
    forall i :: 0 <= i < |s.threads| ==> s.threads[i].Idle?
  }

  // Thread t gives back the latch it held for reading or for writing.
  predicate GivesBack(e: Event, t: nat, want: Want) {
    e.t == t && if want.ToRead? then e.RUnlock? else e.WUnlock?
  }

  ghost predicate HasHad(events: seq<Event>, t: nat, want: Want) {
    exists i :: 0 <= i < |events| && GivesBack(events[i], t, want)
  }

  // A thread that wanted the latch and wants it no longer has had it, the way
  // it asked for it.
  lemma {:induction false} IdleHasHad(max: nat, s: Latch, events: seq<Event>, r: Latch, t: nat, want: Want)
    requires Run(max, s, events, r) && t < |s.threads| && Fits(Some(want), s.threads[t])
    ensures |r.threads| == |s.threads| && (r.threads[t].Idle? ==> HasHad(events, t, want))
    decreases |events|
  {
    if events != [] {
      var mid := Apply(max, s, events[0]);
      StepFits(max, s, events[0], Some(want), t);
      if mid.threads[t].Idle? {
        RunFits(max, s, events, r, Some(want), t);
        assert GivesBack(events[0], t, want);
      } else {
        assert Fits(Some(want), mid.threads[t]);
        IdleHasHad(max, mid, events[1..], r, t, want);
        if HasHad(events[1..], t, want) {
          var i :| 0 <= i < |events[1..]| && GivesBack(events[1..][i], t, want);
          assert events[1..][i] == events[i + 1];
        }
      }
    }
  }

  ghost predicate Drained(s: Latch, events: seq<Event>, r: Latch) {
    && AllIdle(r)
    && forall t, want :: 0 <= t < |s.threads| && Fits(Some(want), s.threads[t]) ==> HasHad(events, t, want)
  }

  // Every schedule of releases and wake-ups ends, and when it can go no further
  // every thread that held or awaited the latch has had it, for reading or for
  // writing as it asked, and left.
  ghost predicate AlwaysDrains(max: nat, s: Latch) {
    forall events, r ::
      Run(max, s, events, r) && (forall i :: 0 <= i < |events| ==> Finishing(events[i])) ==>
        && |events| <= Sum(s.threads, |s.threads| + 2)
        && (Drained(s, events, r) || exists e :: Finishing(e) && Enabled(max, r, e))
  }

  // Exactly when nobody sleeps forever.
  lemma DrainIff(max: nat, n: nat)
    requires max >= 1
    ensures (forall s :: Reachable(max, n, s) ==> AlwaysDrains(max, s)) <==> max == 1 || n <= max + 1
  {
    if Few(max, n) {
      forall s | Reachable(max, n, s) ensures AlwaysDrains(max, s) {
        ReachableHeard(max, n, s);
        forall events, r | Run(max, s, events, r) && forall i :: 0 <= i < |events| ==> Finishing(events[i])
          ensures |events| <= Sum(s.threads, |s.threads| + 2)
          ensures Drained(s, events, r) || exists e :: Finishing(e) && Enabled(max, r, e)
        {
          RunLowers(max, s, events, r);
          RunHeard(max, s, events, r);
          if b: nat :| b < |r.threads| && !r.threads[b].Idle? {
            var e := GoesOn(max, r, b);
          } else {
            forall t, want | 0 <= t < |s.threads| && Fits(Some(want), s.threads[t]) ensures HasHad(events, t, want) {
              IdleHasHad(max, s, events, r, t, want);
            }
          }
        }
      }
    } else {
      LostWakeup(max, n);
      var s :| Reachable(max, n, s) && Stuck(s);
      assert Run(max, s, [], s);
      assert !AlwaysDrains(max, s);
    }
  }

  // --- The class ------------------------------------------------------------------

  newtype Uint32 = x: int | 0 <= x < 0x1_0000_0000

  // The fields are the source's; `threads` says where every thread is. Each
  // method is one critical section, up to the point where the caller holds the
  // latch, has released it, or waits on a condition variable.
  class ReaderWriterLatch {
    const maxReaders: Uint32
    var readerCount: Uint32
    var writerEntered: bool
    ghost var threads: seq<Phase>

    ghost function State(): Latch
      reads this
    {
      Latch(threads, readerCount as nat, writerEntered)
    }

    ghost predicate Valid()
      reads this
    {
      Inv(maxReaders as nat, State())
    }

    constructor (maxReaders: Uint32, ghost n: nat)
      ensures Valid() && State() == Init(n) && this.maxReaders == maxReaders
    {
      this.maxReaders := maxReaders;
      readerCount, writerEntered, threads := 0, false, seq(n, _ => Idle);
      new;
      InitInv(maxReaders as nat, n);
    }

    // The second loop of WLock.
    method AwaitReadersGone(ghost t: nat) returns (waits: bool)
      requires t < |threads|
      modifies this`threads
      ensures State() == AwaitReaders(old(State()), t)
      ensures waits <==> !threads[t].Writing?
    {
      waits := readerCount > 0;
      threads := threads[t := if readerCount > 0 then WaitWriter(false) else Writing];
    }

    // A call of WLock, or its first loop again after a wake-up.
    method WLock(ghost t: nat, ghost e: Event) returns (waits: bool)
      requires Valid() && Enabled(maxReaders as nat, State(), e) && e.t == t
      requires e.WLock? || (e.Resume? && threads[t].WaitReader? && threads[t].want.ToWrite?)
      modifies this
      ensures Valid() && State() == Apply(maxReaders as nat, old(State()), e)
      ensures waits <==> !threads[t].Writing?
    {
      StepInv(maxReaders as nat, State(), e);
      if writerEntered {
        threads := threads[t := WaitReader(ToWrite, false)];
        return true;
      }
      writerEntered := true;
      waits := AwaitReadersGone(t);
    }

    method WUnlock(ghost t: nat)
      requires Valid() && Enabled(maxReaders as nat, State(), Event.WUnlock(t))
      modifies this
      ensures Valid() && State() == Apply(maxReaders as nat, old(State()), Event.WUnlock(t))
    {
      StepInv(maxReaders as nat, State(), Event.WUnlock(t));
      writerEntered := false;
      threads := WakeReaders(threads[t := Idle]);
    }

    method RLock(ghost t: nat, ghost e: Event) returns (waits: bool)
      requires Valid() && Enabled(maxReaders as nat, State(), e) && e.t == t
      requires e.RLock? || (e.Resume? && threads[t].WaitReader? && threads[t].want.ToRead?)
      modifies this
      ensures Valid() && State() == Apply(maxReaders as nat, old(State()), e)
      ensures waits <==> !threads[t].Reading?
    {
      StepInv(maxReaders as nat, State(), e);
      if writerEntered || readerCount == maxReaders {
        threads := threads[t := WaitReader(ToRead, false)];
        return true;
      }
      readerCount := readerCount + 1;
      threads := threads[t := Reading];
      return false;
    }

    // The condition variable picks the sleeper, if there is one.
    ghost method NotifyOne(reaches: Option<nat>)
      requires reaches.Some? ==> reaches.value < |threads|
      modifies this`threads
      ensures threads == if reaches.None? then old(threads)
                         else old(threads)[reaches.value := Wake(old(threads)[reaches.value])]
    {
      if reaches.Some? { threads := threads[reaches.value := Wake(threads[reaches.value])]; }
    }

    method RUnlock(ghost e: Event)
      requires Valid() && Enabled(maxReaders as nat, State(), e) && e.RUnlock?
      modifies this
      ensures Valid() && State() == Apply(maxReaders as nat, old(State()), e)
    {
      StepInv(maxReaders as nat, State(), e);
      readerCount := readerCount - 1;
      threads := threads[e.t := Idle];
      if writerEntered {
        if readerCount == 0 {
          NotifyOne(e.reaches);
        }
      } else {
        if readerCount == maxReaders - 1 {
          NotifyOne(e.reaches);
        }
      }
    }

    // Also true for a writer that is entitled to the latch but not awake yet.
    method IsWriteLocked() returns (r: bool)
      requires Valid()
      ensures r <==> exists i :: 0 <= i < |threads| &&
                       (threads[i].Writing? || (threads[i].WaitWriter? && readerCount == 0))
    {
      CountBound(threads, Owner);
      return writerEntered && readerCount == 0;
    }

    method IsReadLocked() returns (r: bool)
      requires Valid()
      ensures r <==> exists i :: 0 <= i < |threads| && threads[i].Reading?
    {
      CountBound(threads, Reader);
      return readerCount > 0;
    }
  }
}
