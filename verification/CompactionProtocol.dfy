/**
 * The handshake between clients and the compaction thread
 * (src/compaction_manager.cc) under every interleaving, with any number of
 * clients. The mutex is explicit; a compaction starts in one step and ends in
 * another. Waits can end by notification, spuriously, or (the compaction
 * thread's) by time-out.
 */
module CompactionProtocol {
  datatype Kind = Minor | Major

  // A waiting client is on wait_compaction_cv_; mark is the number of
  // compactions that had begun when it asked.
  datatype Client = Out | Waits(kind: Kind, mark: nat, woken: bool)

  // Body and Running hold the latch.
  datatype Worker = Top | Sleep | Body | Running(kind: Kind)

  // asked, launched and finished are history: the requests and compactions in
  // order, and how many compactions have ended.
  datatype Manager = Manager(
    clients: seq<Client>,
    worker: Worker,
    minor: bool,
    major: bool,
    asked: seq<Kind>,
    launched: seq<Kind>,
    finished: nat)
  {
    predicate LatchFree() {
      worker.Top? || worker.Sleep?
    }

    predicate Pending(kind: Kind) {
      if kind.Minor? then minor else major
    }
  }

  datatype Event =
    | Request(t: nat, kind: Kind)
    | Resume(t: nat)
    | Spurious(t: nat)
    | Enter    // the compaction thread takes the latch and tests the requests
    | TimeOut  // wait_for gives up waiting
    | Launch
    | Skip     // nothing was requested
    | Complete

  function Start(n: nat, minor: bool, major: bool): Manager {
    Manager(seq(n, _ => Out), Top, minor, major, [], [], 0)
  }

  // The constructor of the source does not set the two flags; FlagsMustStartFalse
  // says what hangs on their starting out false.
  function Init(n: nat): Manager {
    Start(n, false, false)
  }

  function Awake(c: Client): Client {
    match c
    case Out => Out
    case Waits(kind, mark, _) => Waits(kind, mark, true)
  }

  function WakeAll(clients: seq<Client>): seq<Client> {
    seq(|clients|, i requires 0 <= i < |clients| => Awake(clients[i]))
  }

  predicate OfClient(e: Event) {
    e.Request? || e.Resume? || e.Spurious?
  }

  predicate Enabled(s: Manager, e: Event) {
    && (OfClient(e) ==> e.t < |s.clients|)
    && match e
       case Request(t, _) => s.clients[t].Out? && s.LatchFree()
       case Resume(t) => s.clients[t].Waits? && s.clients[t].woken && s.LatchFree()
       case Spurious(t) => s.clients[t].Waits?
       case Enter => s.LatchFree()
       case TimeOut => s.worker.Sleep?
       case Launch => s.worker.Body? && (s.major || s.minor)
       case Skip => s.worker.Body? && !s.major && !s.minor
       case Complete => s.worker.Running?
  }

  function Apply(s: Manager, e: Event): (r: Manager)
    requires Enabled(s, e)
    ensures |r.clients| == |s.clients|
  {
    match e
    case Request(t, kind) =>
      s.(clients := s.clients[t := Waits(kind, |s.launched|, false)], asked := s.asked + [kind],
         minor := s.minor || kind.Minor?, major := s.major || kind.Major?)
    case Resume(t) =>
      s.(clients := s.clients[t := if s.Pending(s.clients[t].kind) then s.clients[t].(woken := false) else Out])
    case Spurious(t) => s.(clients := s.clients[t := Awake(s.clients[t])])
    case Enter => s.(worker := if s.minor || s.major then Body else Sleep)
    case TimeOut => s.(worker := Body)
    case Launch =>
      // major compaction takes precedence
      var kind := if s.major then Major else Minor;
      s.(worker := Running(kind), launched := s.launched + [kind])
    case Skip => s.(worker := Top, clients := WakeAll(s.clients))
    case Complete =>
      s.(worker := Top, clients := WakeAll(s.clients), finished := s.finished + 1,
         minor := false, major := if s.worker.kind.Major? then false else s.major)
  }

  ghost predicate Run(from: Manager, events: seq<Event>, to: Manager)
    decreases |events|
  {
    if events == [] then to == from
    else Enabled(from, events[0]) && Run(Apply(from, events[0]), events[1..], to)
  }

  ghost predicate Reachable(n: nat, s: Manager) {
    exists events :: Run(Init(n), events, s)
  }

  // --- The invariant ---------------------------------------------------------------

  // A compaction that began after the request has ended, and was enough for it.
  ghost predicate Served(s: Manager, c: Client)
    requires c.Waits?
  {
    exists j :: c.mark <= j < s.finished && j < |s.launched| && (c.kind.Major? ==> s.launched[j].Major?)
  }

  ghost predicate Asking(s: Manager, kind: Kind) {
    exists t :: 0 <= t < |s.clients| && s.clients[t].Waits? && s.clients[t].kind == kind
  }

  function Bit(b: bool): nat {
    if b then 1 else 0
  }

  ghost predicate ClientOk(s: Manager, c: Client)
    requires c.Waits?
  {
    && c.mark <= s.finished
    && (s.Pending(c.kind) || Served(s, c))
    && (!c.woken ==> s.Pending(c.kind))
  }

  ghost predicate Inv(s: Manager) {
    && |s.launched| == s.finished + Bit(s.worker.Running?)
    && (s.worker.Running? ==>
          && s.launched[s.finished] == s.worker.kind && s.Pending(s.worker.kind)
          && (s.worker.kind.Minor? ==> !s.major))
    && (s.minor ==> Asking(s, Minor))
    && (s.major ==> Asking(s, Major))
    && s.finished + Bit(s.minor) + Bit(s.major) <= |s.asked|
    && (forall t :: 0 <= t < |s.clients| && s.clients[t].Waits? ==> ClientOk(s, s.clients[t]))
  }

  lemma StepAsking(s: Manager, e: Event, kind: Kind)
    requires Inv(s) && Enabled(s, e) && Apply(s, e).Pending(kind)
    ensures Asking(Apply(s, e), kind)
  {
    var r := Apply(s, e);
    if e.Request? && e.kind == kind {
      assert r.clients[e.t].Waits?;
    } else {
      var t :| 0 <= t < |s.clients| && s.clients[t].Waits? && s.clients[t].kind == kind;
      assert r.clients[t].Waits? && r.clients[t].kind == kind;
    }
  }

  lemma StepClient(s: Manager, e: Event, t: nat)
    requires Inv(s) && Enabled(s, e) && t < |s.clients| && Apply(s, e).clients[t].Waits?
    ensures ClientOk(Apply(s, e), Apply(s, e).clients[t])
  {
    hide Asking;
    var r := Apply(s, e);
    var c := r.clients[t];
    if s.clients[t].Waits? {
      assert ClientOk(s, s.clients[t]);
      if Served(s, s.clients[t]) {
        var j :| c.mark <= j < s.finished && j < |s.launched| && (c.kind.Major? ==> s.launched[j].Major?);
        assert r.launched[j] == s.launched[j];
      } else if e.Complete? && !r.Pending(c.kind) {
        assert r.launched[s.finished] == s.worker.kind;
      }
    }
  }

  lemma StepInv(s: Manager, e: Event)
    requires Inv(s) && Enabled(s, e)
    ensures Inv(Apply(s, e))
  {
    hide Asking, ClientOk;
    var r := Apply(s, e);
    if r.minor { StepAsking(s, e, Minor); }
    if r.major { StepAsking(s, e, Major); }
    forall t | 0 <= t < |r.clients| && r.clients[t].Waits? ensures ClientOk(r, r.clients[t]) {
      StepClient(s, e, t);
    }
  }

  lemma {:induction false} RunInv(s: Manager, events: seq<Event>, r: Manager)
    requires Inv(s) && Run(s, events, r)
    ensures Inv(r) && |r.clients| == |s.clients|
    decreases |events|
  {
    hide Inv, Apply, Enabled;
    if events != [] {
      StepInv(s, events[0]);
      RunInv(Apply(s, events[0]), events[1..], r);
    }
  }

  lemma ReachableInv(n: nat, s: Manager)
    requires Reachable(n, s)
    ensures Inv(s) && |s.clients| == n
  {
    var events :| Run(Init(n), events, s);
    RunInv(Init(n), events, s);
  }

  // --- What it means -------------------------------------------------------------------

  // The requests that were made, in order.
  function Requests(events: seq<Event>): seq<Kind> {
    if events == [] then []
    else (if events[0].Request? then [events[0].kind] else []) + Requests(events[1..])
  }

  lemma {:induction false} RunAsked(s: Manager, events: seq<Event>, r: Manager)
    requires Run(s, events, r)
    ensures r.asked == s.asked + Requests(events)
    decreases |events|
  {
    if events != [] { RunAsked(Apply(s, events[0]), events[1..], r); }
  }

  // Client t stays in its request during these events.
  ghost predicate StaysIn(s: Manager, t: nat, events: seq<Event>)
    decreases |events|
  {
    && t < |s.clients| && s.clients[t].Waits?
    && (events != [] && Enabled(s, events[0]) ==> StaysIn(Apply(s, events[0]), t, events[1..]))
  }

  lemma {:induction false} KeepsMark(s: Manager, t: nat, events: seq<Event>, r: Manager)
    requires Run(s, events, r) && StaysIn(s, t, events)
    ensures |r.clients| == |s.clients| && r.clients[t].Waits?
    ensures r.clients[t].kind == s.clients[t].kind && r.clients[t].mark == s.clients[t].mark
    ensures s.launched <= r.launched
    decreases |events|
  {
    if events != [] { KeepsMark(Apply(s, events[0]), t, events[1..], r); }
  }

  lemma InvMeans(s: Manager, t: nat)
    requires Inv(s) && t < |s.clients| && s.clients[t].Waits?
    ensures s.finished <= |s.launched|
    ensures !s.Pending(s.clients[t].kind) ==> Served(s, s.clients[t])
  {
    hide Asking;
  }

  // A request that was made at `from` and returns at `to` saw a compaction that
  // began after it was made and has ended; a major one if it asked for that.
  // A minor request may be discharged by either kind.
  lemma ReturnsServed(n: nat, from: Manager, t: nat, kind: Kind, events: seq<Event>, to: Manager)
    requires Reachable(n, from) && Enabled(from, Request(t, kind))
    requires Run(Apply(from, Request(t, kind)), events, to)
    requires StaysIn(Apply(from, Request(t, kind)), t, events)
    requires Enabled(to, Resume(t)) && Apply(to, Resume(t)).clients[t].Out?
    ensures exists j :: |from.launched| <= j < to.finished <= |to.launched| && (kind.Major? ==> to.launched[j].Major?)
    ensures from.launched <= to.launched
  {
    hide StaysIn, Inv;
    var began := Apply(from, Request(t, kind));
    ReachableInv(n, from);
    StepInv(from, Request(t, kind));
    RunInv(began, events, to);
    KeepsMark(began, t, events, to);
    InvMeans(to, t);
    var j :| |from.launched| <= j < to.finished && (kind.Major? ==> to.launched[j].Major?);
    assert to.launched[j] in to.launched;
  }

  // A compaction never runs on its own account: while one runs, somebody who
  // asked for that kind is blocked, and there are never more compactions than
  // requests. No time-out ever starts one.
  lemma OnlyOnRequest(n: nat, s: Manager)
    requires Reachable(n, s)
    ensures s.worker.Running? ==> Asking(s, s.worker.kind)
    ensures |s.launched| <= |s.asked|
    ensures s.worker.Body? && !Asking(s, Minor) && !Asking(s, Major) ==> Enabled(s, Skip)
  {
    hide ClientOk;
    ReachableInv(n, s);
  }

  // Only a time-out lets the thread past its wait with nothing requested.
  lemma {:induction false} ActsOnRequest(s: Manager, events: seq<Event>, r: Manager)
    requires (s.worker.Body? ==> s.minor || s.major) && Run(s, events, r) && TimeOut !in events
    ensures r.worker.Body? ==> r.minor || r.major
    decreases |events|
  {
    if events != [] {
      assert events[0] != TimeOut;
      ActsOnRequest(Apply(s, events[0]), events[1..], r);
    }
  }

  ghost predicate Unasked(from: Manager, events: seq<Event>, to: Manager) {
    Run(from, events, to) && |to.launched| > |to.asked|
  }

  // A compaction that nobody asked for can happen exactly when a flag starts
  // out true.
  lemma FlagsMustStartFalse(n: nat, minor: bool, major: bool)
    ensures (exists events, s :: Unasked(Start(n, minor, major), events, s)) <==> minor || major
  {
    var s0 := Start(n, minor, major);
    if minor || major {
      var s1 := Apply(s0, Enter);
      var s2 := Apply(s1, Launch);
      assert [Enter, Launch][1..] == [Launch] && [Launch][1..] == [];
      assert Run(s1, [Launch], s2);
      assert Run(s0, [Enter, Launch], s2);
      assert Unasked(s0, [Enter, Launch], s2);
    } else {
      assert s0 == Init(n);
      forall events, s ensures !Unasked(s0, events, s) {
        if Run(Init(n), events, s) { OnlyOnRequest(n, s); }
      }
    }
  }

  // No wake-up is lost: a client asleep always has its request pending; and
  // one compaction, which the thread can run without anybody's help, serves
  // every client that waits.
  lemma OneServesAll(n: nat, s: Manager) returns (events: seq<Event>, r: Manager)
    requires Reachable(n, s) && s.LatchFree()
    ensures forall t :: 0 <= t < |s.clients| && s.clients[t].Waits? && !s.clients[t].woken ==>
              s.Pending(s.clients[t].kind)
    ensures Run(s, events, r) && forall i :: 0 <= i < |events| ==> !OfClient(events[i])
    ensures |r.launched| == |s.launched| + Bit(s.minor || s.major)
    ensures !r.minor && !r.major && r.LatchFree()
    ensures forall t :: 0 <= t < |r.clients| && r.clients[t].Waits? ==>
              Enabled(r, Resume(t)) && Apply(r, Resume(t)).clients[t].Out?
  {
    hide Asking;
    ReachableInv(n, s);
    if s.minor || s.major {
      var s1 := Apply(s, Enter);
      var s2 := Apply(s1, Launch);
      r := Apply(s2, Complete);
      events := [Enter, Launch, Complete];
      assert events[1..] == [Launch, Complete] && events[1..][1..] == [Complete] && events[1..][1..][1..] == [];
      assert Run(s2, [Complete], r) by { assert [Complete][1..] == []; }
      assert Run(s1, [Launch, Complete], r) by { assert [Launch, Complete][1..] == [Complete]; }
    } else {
      events, r := [], s;
    }
  }

  // A major compaction discharges minor requests too.
  lemma MajorServesAll(n: nat, s: Manager)
    requires Reachable(n, s) && s.worker == Running(Major)
    ensures var r := Apply(s, Complete);
            forall t :: 0 <= t < |r.clients| && r.clients[t].Waits? ==>
              && Served(r, r.clients[t])
              && Enabled(r, Resume(t)) && Apply(r, Resume(t)).clients[t].Out?
  {
    hide Asking;
    ReachableInv(n, s);
    var r := Apply(s, Complete);
    StepInv(s, Complete);
    forall t | 0 <= t < |r.clients| && r.clients[t].Waits? ensures Served(r, r.clients[t]) {
      assert ClientOk(r, r.clients[t]);
    }
  }

  // --- One client ---------------------------------------------------------------------------

  // A lone client's request is served by exactly one compaction, of the kind it
  // asked for: class CompactionManager may run it as one turn of the thread.
  ghost predicate Lone(s: Manager) {
    && (forall t :: 0 <= t < |s.clients| && s.clients[t].Out? ==> !s.minor && !s.major)
    && (forall t :: 0 <= t < |s.clients| && s.clients[t].Waits? ==>
          (s.minor ==> s.clients[t].kind.Minor?) && (s.major ==> s.clients[t].kind.Major?))
    && !(s.minor && s.major)
    && (s.worker.Running? ==> s.asked == s.launched && s.Pending(s.worker.kind))
    && (!s.worker.Running? && !s.minor && !s.major ==> s.asked == s.launched)
    && (!s.worker.Running? && s.minor ==> s.asked == s.launched + [Minor])
    && (!s.worker.Running? && s.major ==> s.asked == s.launched + [Major])
  }

  lemma StepLone(s: Manager, e: Event)
    requires Lone(s) && |s.clients| == 1 && Enabled(s, e)
    ensures Lone(Apply(s, e))
  {}

  lemma {:induction false} RunLone(s: Manager, events: seq<Event>, r: Manager)
    requires Lone(s) && |s.clients| == 1 && Run(s, events, r)
    ensures Lone(r)
    decreases |events|
  {
    if events != [] {
      StepLone(s, events[0]);
      RunLone(Apply(s, events[0]), events[1..], r);
    }
  }

  lemma LoneRequestIsATurn(s: Manager)
    requires Reachable(1, s) && s.clients == [Out]
    ensures s.asked == s.launched && !s.minor && !s.major && !s.worker.Running?
  {
    var events :| Run(Init(1), events, s);
    RunLone(Init(1), events, s);
    ReachableInv(1, s);
  }
}
