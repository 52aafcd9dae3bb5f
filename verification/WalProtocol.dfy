/**
 * The double-buffered log (src/log_manager.cc) under every interleaving of any
 * number of clients and the flush thread. The mutex is explicit; memmove of a
 * key, memmove of a value, the swap and the disk write are steps of their own.
 * Waits can end by notification, spuriously, or (the flush thread's) by time-out.
 * The clear of the log (src/db.cc) takes no latch and can fall anywhere.
 */
module WalProtocol {
  import opened Common
  import opened Bytes

  // Filling and HalfDone hold the latch; the two waits are on append_cv_.
  // FlushWait remembers how many records there were when Flush was called.
  // Flushed: Flush has returned, and its caller may clear the log, stop the
  // flush thread, or do neither. Stopping waits for that thread to exit.
  datatype Client =
    | Out
    | Flushed
    | Stopping
    | Filling(rec: Pair)
    | HalfDone(rec: Pair)
    | AppendWait(rec: Pair, woken: bool)
    | FlushWait(mark: nat, woken: bool)

  // Top tests enable_logging_; Body, Swapped and Wrote hold the latch; Gone has
  // left the loop.
  datatype Flusher = Top | Ready | Sleep | Body | Swapped | Wrote | Gone

  datatype Holder = Free | ByClient(t: nat) | ByFlusher

  // appended, durable, cleared and kept are history: every record in order of
  // appending, how many of them have been written out, how many there were at
  // the last clear, and how many of those it could remove, because they had
  // been written out. disk is the log file up to its write cursor.
  datatype Log = Log(
    clients: seq<Client>,
    flusher: Flusher,
    holder: Holder,
    running: bool,
    request: bool,
    logBuf: seq<Byte>,
    flushBuf: seq<Byte>,
    disk: seq<Byte>,
    appended: Table,
    durable: nat,
    cleared: nat,
    kept: nat)

  datatype Event =
    | AppendBegin(t: nat, rec: Pair)
    | AppendResume(t: nat)
    | CopyKey(t: nat)
    | CopyVal(t: nat)
    | FlushBegin(t: nat)
    | FlushResume(t: nat)
    | Clear(t: nat)
    | Return(t: nat)
    | Stop(t: nat)
    | Spurious(t: nat)
    | Check
    | Enter    // the flush thread takes the latch and tests the request
    | TimeOut  // wait_for gives up waiting
    | Swap
    | Write
    | Finish

  function Init(n: nat): Log {
    Log(seq(n, _ => Out), Top, Free, true, false, [], [], [], [], 0, 0, 0)
  }

  // --- Steps -------------------------------------------------------------------

  predicate Full(cap: nat, s: Log) {
    |s.logBuf| + RECORD_SIZE >= cap
  }

  function Awake(c: Client): Client {
    match c
    case AppendWait(rec, _) => AppendWait(rec, true)
    case FlushWait(mark, _) => FlushWait(mark, true)
    case _ => c
  }

  predicate OfClient(e: Event) {
    !e.Check? && !e.Enter? && !e.TimeOut? && !e.Swap? && !e.Write? && !e.Finish?
  }

  predicate Enabled(s: Log, e: Event) {
    && (OfClient(e) ==> e.t < |s.clients|)
    && match e
       case AppendBegin(t, _) => s.clients[t].Out? && s.holder.Free?
       case AppendResume(t) => s.clients[t].AppendWait? && s.clients[t].woken && s.holder.Free?
       case CopyKey(t) => s.clients[t].Filling?
       case CopyVal(t) => s.clients[t].HalfDone?
       case FlushBegin(t) => s.clients[t].Out? && s.holder.Free?
       case FlushResume(t) => s.clients[t].FlushWait? && s.clients[t].woken && s.holder.Free?
       case Clear(t) => s.clients[t].Flushed?
       case Return(t) => s.clients[t].Flushed?
       case Stop(t) => s.clients[t].Flushed?
       case Spurious(t) => s.clients[t].AppendWait? || s.clients[t].FlushWait?
       case Check => s.flusher.Top?
       case Enter => (s.flusher.Ready? || s.flusher.Sleep?) && s.holder.Free?
       case TimeOut => s.flusher.Sleep? && s.holder.Free?
       case Swap => s.flusher.Body? && s.logBuf != []
       case Write => s.flusher.Swapped?
       case Finish => s.flusher.Wrote? || (s.flusher.Body? && s.logBuf == [])
  }

  function Apply(cap: nat, s: Log, e: Event): (r: Log)
    requires Enabled(s, e)
    ensures |r.clients| == |s.clients|
  {
    match e
    case AppendBegin(t, rec) =>
      if Full(cap, s) then s.(clients := s.clients[t := AppendWait(rec, false)], request := true)
      else s.(clients := s.clients[t := Filling(rec)], holder := ByClient(t))
    case AppendResume(t) =>
      if Full(cap, s) then s.(clients := s.clients[t := AppendWait(s.clients[t].rec, false)])
      else s.(clients := s.clients[t := Filling(s.clients[t].rec)], holder := ByClient(t))
    case CopyKey(t) =>
      s.(clients := s.clients[t := HalfDone(s.clients[t].rec)],
         logBuf := s.logBuf + Int32ToBytes(s.clients[t].rec.key))
    case CopyVal(t) =>
      s.(clients := s.clients[t := Out], holder := Free,
         logBuf := s.logBuf + Int32ToBytes(s.clients[t].rec.val),
         appended := s.appended + [s.clients[t].rec])
    case FlushBegin(t) =>
      s.(clients := s.clients[t := FlushWait(|s.appended|, false)], request := true)
    case FlushResume(t) =>
      s.(clients := s.clients[t := if s.request then FlushWait(s.clients[t].mark, false) else Flushed])
    case Clear(t) => s.(clients := s.clients[t := Out], disk := [], cleared := |s.appended|, kept := s.durable)
    case Return(t) => s.(clients := s.clients[t := Out])
    case Stop(t) => s.(clients := s.clients[t := Stopping], running := false)
    case Spurious(t) => s.(clients := s.clients[t := Awake(s.clients[t])])
    case Check => s.(flusher := if s.running then Ready else Gone)
    case Enter =>
      if s.request then s.(flusher := Body, holder := ByFlusher) else s.(flusher := Sleep)
    case TimeOut => s.(flusher := Body, holder := ByFlusher)
    case Swap => s.(flusher := Swapped, logBuf := s.flushBuf, flushBuf := s.logBuf)
    case Write =>
      s.(flusher := Wrote, disk := s.disk + s.flushBuf, flushBuf := [],
         durable := s.durable + |s.flushBuf| / RECORD_SIZE)
    case Finish =>
      s.(flusher := Top, holder := Free, request := false,
         clients := seq(|s.clients|, i requires 0 <= i < |s.clients| => Awake(s.clients[i])))
  }

  ghost predicate Run(cap: nat, from: Log, events: seq<Event>, to: Log)
    decreases |events|
  {
    if events == [] then to == from
    else Enabled(from, events[0]) && Run(cap, Apply(cap, from, events[0]), events[1..], to)
  }

  ghost predicate Reachable(cap: nat, n: nat, s: Log) {
    exists events :: Run(cap, Init(n), events, s)
  }

  lemma RunOne(cap: nat, s: Log, e: Event)
    requires Enabled(s, e)
    ensures Run(cap, s, [e], Apply(cap, s, e))
  {
    assert [e][1..] == [];
    assert Run(cap, Apply(cap, s, e), [], Apply(cap, s, e));
  }

  lemma {:induction false} RunConcat(cap: nat, a: Log, e1: seq<Event>, b: Log, e2: seq<Event>, c: Log)
    requires Run(cap, a, e1, b) && Run(cap, b, e2, c)
    ensures Run(cap, a, e1 + e2, c)
    decreases |e1|
  {
    hide Apply, Enabled;
    if e1 == [] {
      assert e1 + e2 == e2;
    } else {
      RunConcat(cap, Apply(cap, a, e1[0]), e1[1..], b, e2, c);
      assert (e1 + e2)[1..] == e1[1..] + e2;
    }
  }

  lemma Onward(cap: nat, n: nat, s: Log, events: seq<Event>, r: Log)
    requires Reachable(cap, n, s) && Run(cap, s, events, r)
    ensures Reachable(cap, n, r)
  {
    var before :| Run(cap, Init(n), before, s);
    RunConcat(cap, Init(n), before, s, events, r);
  }

  lemma Further(cap: nat, n: nat, s: Log, e: Event)
    requires Reachable(cap, n, s) && Enabled(s, e)
    ensures Reachable(cap, n, Apply(cap, s, e))
  {
    RunOne(cap, s, e);
    Onward(cap, n, s, [e], Apply(cap, s, e));
  }

  // --- The invariant --------------------------------------------------------------

  // The key of a record whose value is not copied yet.
  function Partial(s: Log): seq<Byte> {
    if s.holder.ByClient? && s.holder.t < |s.clients| && s.clients[s.holder.t].HalfDone? then
      Int32ToBytes(s.clients[s.holder.t].rec.key)
    else []
  }

  // The mutex works: whoever is inside a critical section holds the latch.
  ghost predicate Exclusive(s: Log) {
    && (s.holder.ByFlusher? <==> s.flusher.Body? || s.flusher.Swapped? || s.flusher.Wrote?)
    && (forall t :: 0 <= t < |s.clients| ==>
          (s.holder == ByClient(t) <==> s.clients[t].Filling? || s.clients[t].HalfDone?))
    && (s.holder.ByClient? ==> s.holder.t < |s.clients|)
    && (s.flusher.Gone? ==> !s.running)
  }

  // Where the bytes of the appended records are.
  ghost predicate Placed(s: Log) {
    && s.kept <= s.cleared <= |s.appended| && s.kept <= s.durable <= |s.appended|
    && s.disk == EncodeAll(s.appended[s.kept..s.durable])
    && (if s.flusher.Swapped? then
          s.logBuf == [] && s.durable < |s.appended| && s.flushBuf == EncodeAll(s.appended[s.durable..])
        else s.flushBuf == [] && s.logBuf == EncodeAll(s.appended[s.durable..]) + Partial(s))
    && (s.flusher.Wrote? ==> s.durable == |s.appended|)
  }

  ghost predicate InBounds(cap: nat, s: Log) {
    && |s.logBuf| < cap
    && forall t :: 0 <= t < |s.clients| ==>
         && (s.clients[t].Filling? ==> |s.logBuf| + RECORD_SIZE < cap)
         && (s.clients[t].HalfDone? ==> |s.logBuf| + KEY_SIZE < cap)
  }

  // A waiting Flush is either still requested or already served.
  ghost predicate Served(s: Log) {
    forall t :: 0 <= t < |s.clients| && s.clients[t].FlushWait? ==>
      s.clients[t].mark <= |s.appended| && (s.request || s.clients[t].mark <= s.durable)
  }

  ghost predicate Inv(cap: nat, s: Log) {
    Exclusive(s) && Placed(s) && InBounds(cap, s) && Served(s)
  }

  lemma {:induction false} EncodeConcat(a: Table, b: Table)
    ensures EncodeAll(a + b) == EncodeAll(a) + EncodeAll(b)
  {
    hide EncodeRecord;
    if b == [] {
      assert a + b == a;
    } else {
      var init, last := b[..|b| - 1], b[|b| - 1];
      EncodeConcat(a, init);
      assert (a + b)[..|a + b| - 1] == a + init;
      assert (a + b)[|a + b| - 1] == last;
      assert EncodeAll(b) == EncodeAll(init) + EncodeRecord(last);
      assert EncodeAll(a + b) == EncodeAll(a + init) + EncodeRecord(last);
    }
  }

  lemma StepExclusive(cap: nat, s: Log, e: Event)
    requires Exclusive(s) && Enabled(s, e)
    ensures Exclusive(Apply(cap, s, e))
  {
    hide EncodeAll, Int32ToBytes;
  }

  lemma EncodeLast(t: Table, rec: Pair)
    ensures EncodeAll(t + [rec]) == EncodeAll(t) + Int32ToBytes(rec.key) + Int32ToBytes(rec.val)
  {
    hide Int32ToBytes;
    assert (t + [rec])[..|t|] == t;
    assert EncodeAll(t + [rec]) == EncodeAll(t) + EncodeRecord(rec);
  }

  lemma DiskAndRest(s: Log)
    requires s.kept <= s.durable <= |s.appended|
    ensures EncodeAll(s.appended[s.kept..]) ==
            EncodeAll(s.appended[s.kept..s.durable]) + EncodeAll(s.appended[s.durable..])
  {
    hide EncodeAll;
    assert s.appended[s.kept..] == s.appended[s.kept..s.durable] + s.appended[s.durable..];
    EncodeConcat(s.appended[s.kept..s.durable], s.appended[s.durable..]);
  }

  lemma EncodeNone()
    ensures EncodeAll([]) == []
  {}

  lemma CopyValPlaced(cap: nat, s: Log, t: nat)
    requires Exclusive(s) && Placed(s) && Enabled(s, CopyVal(t))
    ensures Placed(Apply(cap, s, CopyVal(t)))
  {
    hide EncodeAll, Int32ToBytes;
    var r := Apply(cap, s, CopyVal(t));
    var rec, rest := s.clients[t].rec, s.appended[s.durable..];
    assert r.appended[s.durable..] == rest + [rec];
    assert r.appended[s.kept..s.durable] == s.appended[s.kept..s.durable];
    EncodeLast(rest, rec);
  }

  // The steps that move bytes between the buffers and the file.
  lemma MovePlaced(cap: nat, s: Log, e: Event)
    requires Exclusive(s) && Placed(s) && Enabled(s, e) && (e.Swap? || e.Write? || e.Clear?)
    ensures Placed(Apply(cap, s, e))
  {
    hide EncodeAll, Int32ToBytes;
    EncodeNone();
    assert s.appended[|s.appended|..] == [] && s.appended[s.durable..s.durable] == [];
    if e.Write? {
      DiskAndRest(s);
      assert s.appended[s.kept..|s.appended|] == s.appended[s.kept..];
    }
  }

  // The other steps of a client touch the append buffer at most.
  lemma ClientPlaced(cap: nat, s: Log, e: Event)
    requires Exclusive(s) && Placed(s) && Enabled(s, e) && OfClient(e) && !e.CopyVal? && !e.Clear?
    ensures Placed(Apply(cap, s, e))
  {
    hide EncodeAll, Int32ToBytes;
  }

  lemma StepPlaced(cap: nat, s: Log, e: Event)
    requires Exclusive(s) && Placed(s) && Enabled(s, e)
    ensures Placed(Apply(cap, s, e))
  {
    hide EncodeAll, Int32ToBytes;
    if e.CopyVal? {
      CopyValPlaced(cap, s, e.t);
    } else if e.Swap? || e.Write? || e.Clear? {
      MovePlaced(cap, s, e);
    } else if OfClient(e) {
      ClientPlaced(cap, s, e);
    }
  }

  lemma StepBounds(cap: nat, s: Log, e: Event)
    requires RECORD_SIZE < cap && Exclusive(s) && Placed(s) && InBounds(cap, s) && Enabled(s, e)
    ensures InBounds(cap, Apply(cap, s, e))
  {
    hide EncodeAll, Int32ToBytes, Partial;
  }

  // When the flush thread is done, everything is on disk.
  lemma AllDurable(s: Log)
    requires Exclusive(s) && Placed(s) && Enabled(s, Finish)
    ensures s.durable == |s.appended| && s.logBuf == []
  {
    assert |EncodeAll(s.appended[s.durable..])| == RECORD_SIZE * (|s.appended| - s.durable);
  }

  lemma StepServed(cap: nat, s: Log, e: Event)
    requires Exclusive(s) && Placed(s) && Served(s) && Enabled(s, e)
    ensures Served(Apply(cap, s, e))
  {
    hide EncodeAll, Int32ToBytes;
    if e.Finish? { AllDurable(s); }
  }

  lemma StepInv(cap: nat, s: Log, e: Event)
    requires RECORD_SIZE < cap && Inv(cap, s) && Enabled(s, e)
    ensures Inv(cap, Apply(cap, s, e))
  {
    hide Exclusive, Placed, InBounds, Served, Apply, Enabled;
    StepExclusive(cap, s, e);
    StepPlaced(cap, s, e);
    StepBounds(cap, s, e);
    StepServed(cap, s, e);
  }

  lemma {:induction false} RunInv(cap: nat, s: Log, events: seq<Event>, r: Log)
    requires RECORD_SIZE < cap && Inv(cap, s) && Run(cap, s, events, r)
    ensures Inv(cap, r) && |r.clients| == |s.clients|
    decreases |events|
  {
    hide Inv, Apply, Enabled;
    if events != [] {
      StepInv(cap, s, events[0]);
      RunInv(cap, Apply(cap, s, events[0]), events[1..], r);
    }
  }

  lemma ReachableInv(cap: nat, n: nat, s: Log)
    requires RECORD_SIZE < cap && Reachable(cap, n, s)
    ensures Inv(cap, s) && |s.clients| == n
  {
    var events :| Run(cap, Init(n), events, s);
    RunInv(cap, Init(n), events, s);
  }

  // --- What it means ----------------------------------------------------------------

  // For any number of clients and any schedule, clears falling anywhere: at
  // every moment the file and the two buffers spell, in order and without a gap,
  // all records appended since the last clear, preceded at most by records that
  // the clear came too early to remove. The file never holds a torn record.
  lemma NothingLost(cap: nat, n: nat, s: Log)
    requires RECORD_SIZE < cap && Reachable(cap, n, s)
    ensures s.kept <= s.cleared <= |s.appended| && s.kept <= s.durable <= |s.appended|
    ensures s.disk + s.flushBuf + s.logBuf == EncodeAll(s.appended[s.kept..]) + Partial(s)
    ensures DecodeAll(s.disk) == s.appended[s.kept..s.durable]
    ensures |s.logBuf| < cap
    ensures s.holder.Free? ==> s.flushBuf == [] && s.disk + s.logBuf == EncodeAll(s.appended[s.kept..])
  {
    hide EncodeAll, Int32ToBytes, DecodeAll;
    ReachableInv(cap, n, s);
    DiskAndRest(s);
    EncodeRoundTrip(s.appended[s.kept..s.durable]);
  }

  // --- Whose records they are ---------------------------------------------------------

  // The records that client t's calls of AppendLogRecord brought, in order.
  function Begun(events: seq<Event>, t: nat): Table {
    if events == [] then []
    else
      (match events[0]
       case AppendBegin(u, rec) => if u == t then [rec] else []
       case _ => []) + Begun(events[1..], t)
  }

  // The clients whose calls put a record into the buffer, in order.
  function Owners(events: seq<Event>): seq<nat> {
    if events == [] then []
    else (if events[0].CopyVal? then [events[0].t] else []) + Owners(events[1..])
  }

  // The part of the records that belongs to client t.
  function Of(records: Table, owners: seq<nat>, t: nat): Table
    requires |owners| == |records|
  {
    if records == [] then []
    else
      var n := |records| - 1;
      Of(records[..n], owners[..n], t) + if owners[n] == t then [records[n]] else []
  }

  // The record of a call that has not finished yet.
  function InHand(c: Client): Table {
    if c.Filling? || c.HalfDone? || c.AppendWait? then [c.rec] else []
  }

  // The records of all calls, as a multiset.
  function AllBegun(events: seq<Event>): multiset<Pair> {
    if events == [] then multiset{}
    else (if events[0].AppendBegin? then multiset{events[0].rec} else multiset{}) + AllBegun(events[1..])
  }

  lemma BegunNone(t: nat)
    ensures Begun([], t) == [] && AllBegun([]) == multiset{} && Owners([]) == []
  {}

  lemma BegunOne(e: Event, t: nat)
    ensures Begun([e], t) == if e.AppendBegin? && e.t == t then [e.rec] else []
    ensures AllBegun([e]) == if e.AppendBegin? then multiset{e.rec} else multiset{}
    ensures Owners([e]) == if e.CopyVal? then [e.t] else []
  {
    assert [e][1..] == [];
    BegunNone(t);
  }

  // Only the end of a copy appends; only the start of a call fills a hand.
  lemma StepAppends(cap: nat, s: Log, e: Event)
    requires Enabled(s, e)
    ensures e.CopyVal? ==> e.t < |s.clients| && |InHand(s.clients[e.t])| == 1
    ensures Apply(cap, s, e).appended == s.appended + (if e.CopyVal? then InHand(s.clients[e.t]) else [])
  {
    hide Int32ToBytes;
  }

  lemma StepInHand(cap: nat, s: Log, e: Event, t: nat)
    requires Enabled(s, e) && t < |s.clients|
    ensures InHand(Apply(cap, s, e).clients[t]) ==
            if e.CopyVal? && e.t == t then []
            else InHand(s.clients[t]) + if e.AppendBegin? && e.t == t then [e.rec] else []
  {
    hide Int32ToBytes;
  }

  // How one step moves records between the hands of client t and `appended`.
  lemma StepHands(cap: nat, s: Log, e: Event, t: nat)
    requires Enabled(s, e) && t < |s.clients|
    ensures var r := Apply(cap, s, e);
            && (e.CopyVal? ==> e.t < |s.clients| && |InHand(s.clients[e.t])| == 1)
            && r.appended == s.appended + (if e.CopyVal? then InHand(s.clients[e.t]) else [])
            && InHand(r.clients[t]) ==
               if e.CopyVal? && e.t == t then [] else InHand(s.clients[t]) + Begun([e], t)
  {
    hide Apply, Enabled, InHand, Begun;
    BegunOne(e, t);
    StepAppends(cap, s, e);
    StepInHand(cap, s, e, t);
  }

  lemma OfSnoc(records: Table, owners: seq<nat>, rec: Pair, owner: nat, t: nat)
    requires |owners| == |records|
    ensures Of(records + [rec], owners + [owner], t) == Of(records, owners, t) + if owner == t then [rec] else []
  {
    assert (records + [rec])[..|records|] == records && (owners + [owner])[..|records|] == owners;
  }

  lemma StepAttributed(cap: nat, s: Log, e: Event, owners: seq<nat>, t: nat)
    requires Enabled(s, e) && t < |s.clients| && |owners| == |s.appended|
    ensures var r := Apply(cap, s, e);
            && |owners + Owners([e])| == |r.appended|
            && Of(s.appended, owners, t) + InHand(s.clients[t]) + Begun([e], t) ==
               Of(r.appended, owners + Owners([e]), t) + InHand(r.clients[t])
  {
    hide Apply, Enabled, InHand, Of, Begun, Owners;
    StepHands(cap, s, e, t);
    BegunOne(e, t);
    if e.CopyVal? {
      var rec := InHand(s.clients[e.t])[0];
      assert InHand(s.clients[e.t]) == [rec];
      OfSnoc(s.appended, owners, rec, e.t, t);
    } else {
      assert owners + Owners([e]) == owners && Apply(cap, s, e).appended == s.appended;
    }
  }

  lemma BegunCons(e: Event, rest: seq<Event>, t: nat)
    ensures Begun([e], t) + Begun(rest, t) == Begun([e] + rest, t)
  {
    hide AllBegun, Owners;
    BegunOne(e, t);
    assert ([e] + rest)[1..] == rest;
  }

  lemma OwnersCons(owners: seq<nat>, e: Event, rest: seq<Event>)
    ensures owners + Owners([e]) + Owners(rest) == owners + Owners([e] + rest)
  {
    hide AllBegun, Begun;
    BegunOne(e, 0);
    assert ([e] + rest)[1..] == rest;
  }

  lemma AllBegunCons(e: Event, rest: seq<Event>)
    ensures AllBegun([e]) + AllBegun(rest) == AllBegun([e] + rest)
  {
    hide Owners, Begun;
    BegunOne(e, 0);
    assert ([e] + rest)[1..] == rest;
  }

  lemma Regroup(a: Table, b: Table, c: Table)
    ensures a + b + c == a + (b + c)
  {}

  lemma {:induction false} RunAttributed(cap: nat, s: Log, events: seq<Event>, r: Log, owners: seq<nat>, t: nat)
    requires Run(cap, s, events, r) && t < |s.clients| && |owners| == |s.appended|
    ensures |r.clients| == |s.clients| && |owners + Owners(events)| == |r.appended|
    ensures Of(s.appended, owners, t) + InHand(s.clients[t]) + Begun(events, t) ==
            Of(r.appended, owners + Owners(events), t) + InHand(r.clients[t])
    decreases |events|
  {
    hide Apply, Enabled, InHand, Of, Begun, Owners;
    BegunNone(t);
    if events == [] {
      assert owners + Owners(events) == owners;
    } else {
      var e, rest := events[0], events[1..];
      assert events == [e] + rest;
      StepAttributed(cap, s, e, owners, t);
      RunAttributed(cap, Apply(cap, s, e), rest, r, owners + Owners([e]), t);
      BegunCons(e, rest, t);
      OwnersCons(owners, e, rest);
      Regroup(Of(s.appended, owners, t) + InHand(s.clients[t]), Begun([e], t), Begun(rest, t));
    }
  }

  // Every call's record is appended once, none is made up, and the records of
  // one client stand in the order of its calls, whatever waits and wake-ups came
  // between: its calls so far are its records in `appended` and the one in hand.
  lemma EveryRecordOnce(cap: nat, n: nat, events: seq<Event>, s: Log, t: nat)
    requires Run(cap, Init(n), events, s) && t < n
    ensures |s.clients| == n && |Owners(events)| == |s.appended|
    ensures Begun(events, t) == Of(s.appended, Owners(events), t) + InHand(s.clients[t])
  {
    RunAttributed(cap, Init(n), events, s, [], t);
    assert [] + Owners(events) == Owners(events);
  }

  // Each record has an owner among the clients, so that nothing else is there.
  lemma {:induction false} OwnersAreClients(cap: nat, s: Log, events: seq<Event>, r: Log)
    requires Run(cap, s, events, r)
    ensures forall i :: 0 <= i < |Owners(events)| ==> Owners(events)[i] < |s.clients|
    decreases |events|
  {
    if events != [] { OwnersAreClients(cap, Apply(cap, s, events[0]), events[1..], r); }
  }

  // What all callers hold.
  function Held(clients: seq<Client>): multiset<Pair> {
    if clients == [] then multiset{}
    else Held(clients[..|clients| - 1]) + multiset(InHand(clients[|clients| - 1]))
  }

  lemma Beside(a: multiset<Pair>, x: multiset<Pair>, b: multiset<Pair>, y: multiset<Pair>, more: multiset<Pair>)
    requires a + x == b + y
    ensures (a + more) + x == (b + more) + y
  {
    forall p ensures ((a + more) + x)[p] == ((b + more) + y)[p] {
      assert (a + x)[p] == (b + y)[p];
    }
  }

  lemma Shuffle(a: multiset<Pair>, b: multiset<Pair>, c: multiset<Pair>)
    ensures a + (b + c) == (a + b) + c == (a + c) + b
  {}

  lemma Cancel(a: multiset<Pair>, b: multiset<Pair>, x: multiset<Pair>)
    requires a + x == b + x
    ensures a == b
  {
    forall p ensures a[p] == b[p] { assert (a + x)[p] == (b + x)[p]; }
  }

  lemma {:induction false} HeldUpdate(clients: seq<Client>, t: nat, c: Client)
    requires t < |clients|
    ensures Held(clients[t := c]) + multiset(InHand(clients[t])) == Held(clients) + multiset(InHand(c))
  {
    hide InHand;
    var n := |clients| - 1;
    if t == n {
      assert clients[t := c][..n] == clients[..n];
    } else {
      HeldUpdate(clients[..n], t, c);
      var after := clients[t := c];
      assert after[..n] == clients[..n][t := c] && after[n] == clients[n];
      assert Held(after) == Held(after[..n]) + multiset(InHand(clients[n]));
      assert Held(clients) == Held(clients[..n]) + multiset(InHand(clients[n]));
      Beside(Held(clients[..n][t := c]), multiset(InHand(clients[t])), Held(clients[..n]), multiset(InHand(c)),
             multiset(InHand(clients[n])));
    }
  }

  lemma {:induction false} HeldSame(a: seq<Client>, b: seq<Client>)
    requires |a| == |b| && forall t :: 0 <= t < |a| ==> InHand(a[t]) == InHand(b[t])
    ensures Held(a) == Held(b)
  {
    hide InHand;
    if a != [] { HeldSame(a[..|a| - 1], b[..|b| - 1]); }
  }

  lemma OnlyClient(cap: nat, s: Log, e: Event)
    requires Enabled(s, e) && OfClient(e)
    ensures Apply(cap, s, e).clients == s.clients[e.t := Apply(cap, s, e).clients[e.t]]
  {
    hide Int32ToBytes;
  }

  lemma OnlyAwake(cap: nat, s: Log, e: Event)
    requires Enabled(s, e) && !OfClient(e)
    ensures var r := Apply(cap, s, e);
            && r.appended == s.appended
            && forall t :: 0 <= t < |r.clients| ==> InHand(r.clients[t]) == InHand(s.clients[t])
  {
    hide Int32ToBytes;
  }

  lemma StepConserves(cap: nat, s: Log, e: Event)
    requires Enabled(s, e)
    ensures var r := Apply(cap, s, e);
            multiset(s.appended) + Held(s.clients) + AllBegun([e]) == multiset(r.appended) + Held(r.clients)
  {
    hide Held, InHand, Apply, Begun, AllBegun;
    var r := Apply(cap, s, e);
    if OfClient(e) { BegunOne(e, e.t); } else { BegunOne(e, 0); }
    if OfClient(e) {
      OnlyClient(cap, s, e);
      StepHands(cap, s, e, e.t);
      HeldUpdate(s.clients, e.t, r.clients[e.t]);
      var hand, begun := multiset(InHand(s.clients[e.t])), AllBegun([e]);
      assert multiset(Begun([e], e.t)) == begun;
      if e.CopyVal? {
        assert multiset(r.appended) == multiset(s.appended) + hand;
        assert Held(s.clients) == Held(r.clients) + hand by { assert InHand(r.clients[e.t]) == []; }
        Shuffle(multiset(s.appended), Held(r.clients), hand);
      } else {
        assert multiset(InHand(r.clients[e.t])) == hand + begun;
        assert Held(r.clients) + hand == (Held(s.clients) + begun) + hand;
        Cancel(Held(r.clients), Held(s.clients) + begun, hand);
        assert r.appended == s.appended;
        Shuffle(multiset(s.appended), Held(s.clients), begun);
      }
    } else {
      OnlyAwake(cap, s, e);
      HeldSame(s.clients, r.clients);
    }
  }

  lemma {:induction false} RunConserves(cap: nat, s: Log, events: seq<Event>, r: Log)
    requires Run(cap, s, events, r)
    ensures multiset(s.appended) + Held(s.clients) + AllBegun(events) == multiset(r.appended) + Held(r.clients)
    decreases |events|
  {
    hide Apply, Enabled, Held, AllBegun;
    BegunNone(0);
    if events != [] {
      StepConserves(cap, s, events[0]);
      RunConserves(cap, Apply(cap, s, events[0]), events[1..], r);
      assert events == [events[0]] + events[1..];
      AllBegunCons(events[0], events[1..]);
    }
  }

  lemma {:induction false} HeldNone(clients: seq<Client>)
    requires forall t :: 0 <= t < |clients| ==> clients[t].Out?
    ensures Held(clients) == multiset{}
  {
    if clients != [] { HeldNone(clients[..|clients| - 1]); }
  }

  // The records passed to AppendLogRecord are those appended and those still
  // in the hands of their callers.
  lemma RecordsConserved(cap: nat, n: nat, events: seq<Event>, s: Log)
    requires Run(cap, Init(n), events, s)
    ensures AllBegun(events) == multiset(s.appended) + Held(s.clients)
  {
    RunConserves(cap, Init(n), events, s);
    HeldNone(Init(n).clients);
  }

  // --- What a clear leaves ---------------------------------------------------------------

  // The file, the two buffers and nothing else spell exactly the records
  // appended since the last clear.
  ghost predicate Spelled(s: Log) {
    && s.cleared <= |s.appended|
    && s.disk + s.flushBuf + s.logBuf == EncodeAll(s.appended[s.cleared..]) + Partial(s)
  }

  lemma EncodeLength(t: Table)
    ensures |EncodeAll(t)| == RECORD_SIZE * |t|
  {}

  // No cleared record is left exactly when the clear came late enough.
  lemma SpelledIff(cap: nat, n: nat, s: Log)
    requires RECORD_SIZE < cap && Reachable(cap, n, s)
    ensures Spelled(s) <==> s.kept == s.cleared
  {
    hide EncodeAll, Int32ToBytes, DecodeAll, Partial;
    NothingLost(cap, n, s);
    EncodeLength(s.appended[s.kept..]);
    EncodeLength(s.appended[s.cleared..]);
  }

  // The flush thread's assertion and the buffer accesses of the source are safe.
  // StopIff treats the assertions after the thread has been stopped.
  lemma AssertsHold(cap: nat, n: nat, s: Log)
    requires RECORD_SIZE < cap && Reachable(cap, n, s)
    ensures s.flusher.Body? ==> s.flushBuf == []
    ensures forall t :: 0 <= t < |s.clients| && (s.clients[t].Filling? || s.clients[t].HalfDone?) ==>
              && |s.logBuf| + KEY_SIZE <= cap && s.flushBuf == [] && s.holder == ByClient(t)
  {
    hide EncodeAll, Int32ToBytes;
    ReachableInv(cap, n, s);
  }

  // Client t stays in its call of Flush during these events.
  ghost predicate StaysIn(cap: nat, s: Log, t: nat, events: seq<Event>)
    decreases |events|
  {
    && t < |s.clients| && s.clients[t].FlushWait?
    && (events != [] && Enabled(s, events[0]) ==> StaysIn(cap, Apply(cap, s, events[0]), t, events[1..]))
  }

  lemma StepKeeps(cap: nat, s: Log, t: nat, e: Event)
    requires Enabled(s, e) && t < |s.clients|
    ensures var r := Apply(cap, s, e);
            && s.appended <= r.appended
            && (s.clients[t].FlushWait? && r.clients[t].FlushWait? ==> r.clients[t].mark == s.clients[t].mark)
  {
    hide Int32ToBytes;
  }

  lemma {:induction false} KeepsMark(cap: nat, s: Log, t: nat, events: seq<Event>, r: Log)
    requires Run(cap, s, events, r) && StaysIn(cap, s, t, events)
    ensures |r.clients| == |s.clients| && r.clients[t].FlushWait? && r.clients[t].mark == s.clients[t].mark
    ensures s.appended <= r.appended
    decreases |events|
  {
    hide Apply, Enabled;
    if events != [] {
      StepKeeps(cap, s, t, events[0]);
      KeepsMark(cap, Apply(cap, s, events[0]), t, events[1..], r);
    }
  }

  lemma SliceOfSlice<T>(s: seq<T>, a: nat, b: nat, c: nat, d: nat)
    requires a <= b <= |s| && c <= d <= b - a
    ensures s[a..b][c..d] == s[a + c..a + d]
  {
    var inner, outer := s[a..b][c..d], s[a + c..a + d];
    assert |inner| == |outer|;
    forall i | 0 <= i < |inner| ensures inner[i] == outer[i] {
      assert inner[i] == s[a..b][c + i] == s[a + c + i];
    }
  }

  // What a returning Flush knows.
  lemma ReturnMeans(s: Log, t: nat)
    requires Placed(s) && Served(s) && t < |s.clients| && s.clients[t].FlushWait? && !s.request
    ensures var mark, records := s.clients[t].mark, DecodeAll(s.disk);
            && s.kept <= s.cleared && mark <= |s.appended|
            && (s.cleared <= mark ==>
                  mark - s.kept <= |records|
                  && records[s.cleared - s.kept..mark - s.kept] == s.appended[s.cleared..mark])
  {
    hide EncodeAll, DecodeAll, Partial;
    EncodeRoundTrip(s.appended[s.kept..s.durable]);
    var mark := s.clients[t].mark;
    assert DecodeAll(s.disk) == s.appended[s.kept..s.durable];
    if s.cleared <= mark {
      SliceOfSlice(s.appended, s.kept, s.durable, s.cleared - s.kept, mark - s.kept);
      assert s.kept + (s.cleared - s.kept) == s.cleared && s.kept + (mark - s.kept) == mark;
    }
  }

  // Flush keeps its word: when a call that began at `from` returns at `to`,
  // every record appended before it is in the file, except those that a clear
  // has removed since, however busy the other clients were.
  lemma FlushKeepsItsWord(cap: nat, n: nat, from: Log, t: nat, events: seq<Event>, to: Log)
    requires RECORD_SIZE < cap && Reachable(cap, n, from) && Enabled(from, FlushBegin(t))
    requires Run(cap, Apply(cap, from, FlushBegin(t)), events, to)
    requires StaysIn(cap, Apply(cap, from, FlushBegin(t)), t, events)
    requires Enabled(to, FlushResume(t)) && Apply(cap, to, FlushResume(t)).clients[t].Flushed?
    ensures from.appended <= to.appended && to.kept <= to.cleared
    ensures to.cleared <= |from.appended| ==>
              && |from.appended| - to.kept <= |DecodeAll(to.disk)|
              && DecodeAll(to.disk)[to.cleared - to.kept..|from.appended| - to.kept] == from.appended[to.cleared..]
  {
    hide EncodeAll, Int32ToBytes, DecodeAll, Placed, Exclusive, InBounds, Served;
    var began := Apply(cap, from, FlushBegin(t));
    ReachableInv(cap, n, from);
    StepInv(cap, from, FlushBegin(t));
    RunInv(cap, began, events, to);
    KeepsMark(cap, began, t, events, to);
    ReturnMeans(to, t);
    assert to.appended[..|from.appended|] == from.appended;
    assert to.cleared <= |from.appended| ==>
      from.appended[to.cleared..] == to.appended[to.cleared..|from.appended|];
  }

  // --- The flush thread can always serve everybody -------------------------------------

  lemma Turn(cap: nat, s: Log) returns (events: seq<Event>, r: Log)
    requires Inv(cap, s) && s.flusher.Body?
    ensures TimeOut !in events
    ensures Run(cap, s, events, r) && |events| <= 3 && forall i :: 0 <= i < |events| ==> !OfClient(events[i])
    ensures s.kept <= |s.appended| && r.disk == EncodeAll(s.appended[s.kept..])
    ensures r == s.(clients := r.clients, flusher := Top, holder := Free, request := false, logBuf := [],
                    disk := r.disk, durable := |s.appended|)
    ensures |r.clients| == |s.clients| && forall t :: 0 <= t < |r.clients| ==> r.clients[t] == Awake(s.clients[t])
  {
    hide EncodeAll, Int32ToBytes;
    var s2 := s;
    events := [];
    if s.logBuf != [] {
      var s1 := Apply(cap, s, Swap);
      s2 := Apply(cap, s1, Write);
      RunOne(cap, s, Swap);
      RunOne(cap, s1, Write);
      RunConcat(cap, s, [Swap], s1, [Write], s2);
      events := [Swap] + [Write];
      StepExclusive(cap, s, Swap);
      StepPlaced(cap, s, Swap);
      StepExclusive(cap, s1, Write);
      StepPlaced(cap, s1, Write);
    }
    AllDurable(s2);
    assert s2.appended[s2.kept..s2.durable] == s2.appended[s2.kept..];
    r := Apply(cap, s2, Finish);
    RunOne(cap, s2, Finish);
    RunConcat(cap, s, events, s2, [Finish], r);
    events := events + [Finish];
  }

  lemma FromReady(cap: nat, s: Log) returns (events: seq<Event>, r: Log)
    requires Inv(cap, s) && (s.flusher.Ready? || s.flusher.Sleep?) && s.holder.Free?
    ensures Run(cap, s, events, r) && |events| <= 5 && forall i :: 0 <= i < |events| ==> !OfClient(events[i])
    ensures s.request ==> TimeOut !in events
    ensures s.kept <= |s.appended| && r.disk == EncodeAll(s.appended[s.kept..])
    ensures r == s.(clients := r.clients, flusher := Top, request := false, logBuf := [], disk := r.disk,
                    durable := |s.appended|)
    ensures |r.clients| == |s.clients| && forall t :: 0 <= t < |r.clients| ==> r.clients[t] == Awake(s.clients[t])
  {
    hide EncodeAll, Int32ToBytes;
    var body := s.(flusher := Body, holder := ByFlusher);
    var first := Apply(cap, s, Enter);
    events := [Enter];
    RunOne(cap, s, Enter);
    if !s.request {
      RunOne(cap, first, TimeOut);
      RunConcat(cap, s, [Enter], first, [TimeOut], body);
      events := [Enter] + [TimeOut];
    }
    var more: seq<Event>;
    more, r := Turn(cap, body);
    RunConcat(cap, s, events, body, more, r);
    events := events + more;
  }

  // A waiting client that gets the latch now leaves its wait.
  ghost predicate GoesOn(cap: nat, s: Log, t: nat)
    requires t < |s.clients|
  {
    match s.clients[t]
    case AppendWait(rec, _) =>
      Enabled(s, AppendResume(t)) && Apply(cap, s, AppendResume(t)).clients[t] == Filling(rec)
    case FlushWait(_, _) => Enabled(s, FlushResume(t)) && Apply(cap, s, FlushResume(t)).clients[t] == Flushed
    case _ => true
  }

  // From any moment when the latch is free, the flush thread alone (by its
  // time-out if nobody has asked) gets everything to disk and wakes everybody,
  // and whoever gets the latch next goes on.
  lemma AlwaysServes(cap: nat, n: nat, s: Log) returns (events: seq<Event>, r: Log)
    requires RECORD_SIZE < cap && Reachable(cap, n, s) && s.holder.Free? && s.running
    ensures Run(cap, s, events, r) && |events| <= 6 && forall i :: 0 <= i < |events| ==> !OfClient(events[i])
    ensures s.request ==> TimeOut !in events
    ensures s.kept <= |s.appended| && r.disk == EncodeAll(s.appended[s.kept..])
    ensures r.appended == s.appended && r.cleared == s.cleared && r.kept == s.kept && r.holder.Free?
    ensures |r.clients| == |s.clients| && forall t :: 0 <= t < |r.clients| ==> r.clients[t] == Awake(s.clients[t])
    ensures forall t :: 0 <= t < |r.clients| ==> GoesOn(cap, r, t)
  {
    hide EncodeAll, Int32ToBytes;
    ReachableInv(cap, n, s);
    var checked := if s.flusher.Top? then Apply(cap, s, Check) else s;
    events := [];
    if s.flusher.Top? {
      RunOne(cap, s, Check);
      events := [Check];
    }
    var more: seq<Event>;
    more, r := FromReady(cap, checked);
    RunConcat(cap, s, events, checked, more, r);
    events := events + more;
  }

  // Only a time-out starts a turn of the flush thread that nobody asked for.
  lemma {:induction false} ActsOnRequest(cap: nat, s: Log, events: seq<Event>, r: Log)
    requires RECORD_SIZE < cap && Inv(cap, s) && Run(cap, s, events, r) && TimeOut !in events
    requires s.holder.ByFlusher? ==> s.request
    ensures r.holder.ByFlusher? ==> r.request
    decreases |events|
  {
    hide Placed, InBounds, Served;
    if events != [] {
      assert events[0] != TimeOut;
      StepInv(cap, s, events[0]);
      ActsOnRequest(cap, Apply(cap, s, events[0]), events[1..], r);
    }
  }

  // --- One client ------------------------------------------------------------------------

  ghost predicate LoneWaits(cap: nat, s: Log) {
    forall t :: 0 <= t < |s.clients| && (s.clients[t].AppendWait? || s.clients[t].FlushWait?) ==>
      && (s.request || (s.clients[t].woken && s.logBuf == []))
      && (s.clients[t].AppendWait? && s.logBuf != [] ==> Full(cap, s))
  }

  ghost predicate LoneFlushed(s: Log) {
    forall t :: 0 <= t < |s.clients| && (s.clients[t].Flushed? || s.clients[t].Stopping?) ==>
      s.durable == |s.appended|
  }

  // A lone client that waits is waiting for a flush of everything, and between
  // its Flush and its clear there is nothing left to write.
  ghost predicate Lone(cap: nat, s: Log) {
    LoneWaits(cap, s) && LoneFlushed(s) && s.kept == s.cleared
  }

  lemma StepLoneWaits(cap: nat, s: Log, e: Event)
    requires RECORD_SIZE < cap && Exclusive(s) && Placed(s) && LoneWaits(cap, s) && |s.clients| <= 1 && Enabled(s, e)
    ensures LoneWaits(cap, Apply(cap, s, e))
  {
    hide EncodeAll, Int32ToBytes, Partial;
    if e.Finish? { AllDurable(s); }
  }

  lemma NothingPending(s: Log)
    requires Exclusive(s) && Placed(s) && s.holder.Free? && s.logBuf == []
    ensures s.durable == |s.appended|
  {
    assert |EncodeAll(s.appended[s.durable..])| == RECORD_SIZE * (|s.appended| - s.durable);
  }

  lemma StepLoneFlushed(cap: nat, s: Log, e: Event)
    requires Exclusive(s) && Placed(s) && LoneWaits(cap, s) && LoneFlushed(s) && |s.clients| <= 1 && Enabled(s, e)
    ensures LoneFlushed(Apply(cap, s, e))
  {
    hide EncodeAll, Int32ToBytes, Partial;
    if e.FlushResume? && !s.request { NothingPending(s); }
  }

  lemma StepLone(cap: nat, s: Log, e: Event)
    requires RECORD_SIZE < cap && Inv(cap, s) && Lone(cap, s) && |s.clients| <= 1 && Enabled(s, e)
    ensures Lone(cap, Apply(cap, s, e))
  {
    hide Exclusive, Placed, LoneWaits;
    StepLoneWaits(cap, s, e);
    StepLoneFlushed(cap, s, e);
  }

  lemma {:induction false} RunLone(cap: nat, s: Log, events: seq<Event>, r: Log)
    requires RECORD_SIZE < cap && Inv(cap, s) && Lone(cap, s) && |s.clients| <= 1 && Run(cap, s, events, r)
    ensures Lone(cap, r)
    decreases |events|
  {
    hide Inv, Apply, Enabled, Lone;
    if events != [] {
      StepLone(cap, s, events[0]);
      StepInv(cap, s, events[0]);
      RunLone(cap, Apply(cap, s, events[0]), events[1..], r);
    }
  }

  lemma LoneReachable(cap: nat, n: nat, s: Log)
    requires RECORD_SIZE < cap && n <= 1 && Reachable(cap, n, s)
    ensures Inv(cap, s) && Lone(cap, s) && |s.clients| == n
  {
    var events :| Run(cap, Init(n), events, s);
    RunLone(cap, Init(n), events, s);
    ReachableInv(cap, n, s);
  }

  // A wait of a lone client ends with all records on disk and both buffers empty.
  lemma LoneWaitIsATurn(cap: nat, s: Log, e: Event)
    requires RECORD_SIZE < cap && Reachable(cap, 1, s) && Enabled(s, e)
    requires e.FlushResume? || e.AppendResume?
    requires Apply(cap, s, e).clients[e.t].Flushed? || Apply(cap, s, e).clients[e.t].Filling?
    ensures s.logBuf == [] && s.flushBuf == []
    ensures s.cleared <= |s.appended| && s.disk == EncodeAll(s.appended[s.cleared..])
  {
    hide EncodeAll, Int32ToBytes;
    LoneReachable(cap, 1, s);
    NothingPending(s);
    assert s.appended[s.cleared..s.durable] == s.appended[s.cleared..];
  }

  lemma NothingLeft(s: Log)
    requires Exclusive(s) && Placed(s) && s.durable == |s.appended|
    requires forall t :: 0 <= t < |s.clients| ==> !s.clients[t].HalfDone?
    ensures s.logBuf == [] && s.flushBuf == [] && !s.flusher.Swapped?
  {
    assert s.appended[s.durable..] == [];
  }

  // From then until the client clears the log, the flush thread may wake up and
  // look, but it has nothing to write: the clear, which takes no latch, meets
  // two empty buffers and no write under way.
  lemma LoneClearIsSafe(cap: nat, s: Log, t: nat)
    requires RECORD_SIZE < cap && Reachable(cap, 1, s) && Enabled(s, Clear(t))
    ensures s.logBuf == [] && s.flushBuf == [] && !s.flusher.Swapped?
    ensures s.cleared <= |s.appended| && s.disk == EncodeAll(s.appended[s.cleared..])
    ensures s.durable == |s.appended|
  {
    hide EncodeAll, Int32ToBytes;
    LoneReachable(cap, 1, s);
    NothingLeft(s);
    assert s.appended[s.cleared..s.durable] == s.appended[s.cleared..];
  }

  // --- Several clients ---------------------------------------------------------------------

  lemma AppendOnce(cap: nat, s: Log, t: nat, rec: Pair) returns (r: Log)
    requires t < |s.clients| && s.clients[t].Out? && s.holder.Free? && !Full(cap, s)
    ensures Run(cap, s, [AppendBegin(t, rec), CopyKey(t), CopyVal(t)], r)
    ensures r == s.(logBuf := r.logBuf, appended := s.appended + [rec])
    ensures |r.logBuf| == |s.logBuf| + RECORD_SIZE
  {
    hide Int32ToBytes;
    var s1 := Apply(cap, s, AppendBegin(t, rec));
    var s2 := Apply(cap, s1, CopyKey(t));
    r := Apply(cap, s2, CopyVal(t));
    RunOne(cap, s, AppendBegin(t, rec));
    RunOne(cap, s1, CopyKey(t));
    RunOne(cap, s2, CopyVal(t));
    RunConcat(cap, s1, [CopyKey(t)], s2, [CopyVal(t)], r);
    RunConcat(cap, s, [AppendBegin(t, rec)], s1, [CopyKey(t)] + [CopyVal(t)], r);
    assert [AppendBegin(t, rec)] + ([CopyKey(t)] + [CopyVal(t)]) == [AppendBegin(t, rec), CopyKey(t), CopyVal(t)];
    assert r.clients == s.clients;
  }

  // A flush of nothing: client 0 asks, and the flush thread answers.
  lemma FlushNothing(cap: nat, n: nat) returns (s: Log)
    requires RECORD_SIZE < cap && 1 <= n
    ensures Reachable(cap, n, s)
    ensures s == Init(n).(clients := Init(n).clients[0 := Flushed])
  {
    hide EncodeAll, Int32ToBytes, Inv;
    var s0 := Init(n);
    assert Run(cap, s0, [], s0);
    Further(cap, n, s0, FlushBegin(0));
    var s1 := Apply(cap, s0, FlushBegin(0));
    Further(cap, n, s1, Check);
    var s2 := Apply(cap, s1, Check);
    ReachableInv(cap, n, s2);
    var events, s3 := FromReady(cap, s2);
    Onward(cap, n, s2, events, s3);
    EncodeNone();
    assert s3.clients[0] == FlushWait(0, true);
    Further(cap, n, s3, FlushResume(0));
    s := Apply(cap, s3, FlushResume(0));
    assert s.clients == Init(n).clients[0 := Flushed];
  }

  // Client 0 has flushed, and client 1 has appended a record since.
  lemma Overlap(cap: nat, n: nat) returns (s: Log)
    requires RECORD_SIZE < cap && 2 <= n
    ensures Reachable(cap, n, s) && s.flusher.Top? && s.holder.Free?
    ensures s.clients == Init(n).clients[0 := Flushed]
    ensures s.flushBuf == [] && |s.logBuf| == RECORD_SIZE && s.durable < |s.appended|
  {
    hide Int32ToBytes, Apply, Enabled;
    var s0 := FlushNothing(cap, n);
    s := AppendOnce(cap, s0, 1, Pair(0, 0));
    Onward(cap, n, s0, [AppendBegin(1, Pair(0, 0)), CopyKey(1), CopyVal(1)], s);
  }

  // "Log plus buffers are the records since the last clear, and no others"
  // holds of every schedule exactly when there is at most one client.
  lemma NothingLostIff(cap: nat, n: nat)
    requires RECORD_SIZE < cap
    ensures (forall s :: Reachable(cap, n, s) ==> Spelled(s)) <==> n <= 1
  {
    hide EncodeAll, Int32ToBytes, Spelled;
    if n <= 1 {
      forall s | Reachable(cap, n, s) ensures Spelled(s) {
        LoneReachable(cap, n, s);
        SpelledIff(cap, n, s);
      }
    } else {
      var s := Overlap(cap, n);
      Further(cap, n, s, Clear(0));
      SpelledIff(cap, n, Apply(cap, s, Clear(0)));
    }
  }

  // What StopFlushThread asserts once the flush thread has exited.
  ghost predicate CleanStop(s: Log) {
    s.flusher.Gone? && (exists t :: 0 <= t < |s.clients| && s.clients[t].Stopping?) ==>
      s.logBuf == [] && s.flushBuf == []
  }

  // The two assertions of StopFlushThread hold exactly when there is at most
  // one client.
  lemma StopIff(cap: nat, n: nat)
    requires RECORD_SIZE < cap
    ensures (forall s :: Reachable(cap, n, s) ==> CleanStop(s)) <==> n <= 1
  {
    hide EncodeAll, Int32ToBytes;
    if n <= 1 {
      forall s | Reachable(cap, n, s) ensures CleanStop(s) {
        LoneReachable(cap, n, s);
        if exists t :: 0 <= t < |s.clients| && s.clients[t].Stopping? { NothingLeft(s); }
      }
    } else {
      var s := Overlap(cap, n);
      Further(cap, n, s, Stop(0));
      var s1 := Apply(cap, s, Stop(0));
      Further(cap, n, s1, Check);
      assert Apply(cap, s1, Check).clients[0].Stopping?;
    }
  }

  // A client sleeps until there is room, and nobody has asked for a flush: only
  // the flush thread's time-out will help it.
  ghost predicate Forgotten(s: Log) {
    && s.holder.Free? && !s.request
    && exists t :: 0 <= t < |s.clients| && s.clients[t].AppendWait? && !s.clients[t].woken
  }

  lemma {:induction false} FillUp(cap: nat, s: Log) returns (events: seq<Event>, r: Log)
    requires 0 < |s.clients| && s.clients[0].Out? && s.holder.Free?
    ensures Run(cap, s, events, r) && Full(cap, r)
    ensures r == s.(logBuf := r.logBuf, appended := r.appended)
    decreases cap - |s.logBuf|
  {
    if Full(cap, s) {
      events, r := [], s;
    } else {
      var next := AppendOnce(cap, s, 0, Pair(0, 0));
      var more: seq<Event>;
      more, r := FillUp(cap, next);
      var once := [AppendBegin(0, Pair(0, 0)), CopyKey(0), CopyVal(0)];
      RunConcat(cap, s, once, next, more, r);
      events := once + more;
    }
  }

  // The append buffer is filled as far as whole records go before anybody waits.
  lemma CanFill(cap: nat, n: nat) returns (s: Log)
    requires RECORD_SIZE < cap && 1 <= n
    ensures Reachable(cap, n, s) && cap - RECORD_SIZE <= |s.logBuf| < cap
    ensures s.clients == Init(n).clients && s.flusher.Top? && !s.request
  {
    hide Inv;
    assert Run(cap, Init(n), [], Init(n));
    var events: seq<Event>;
    events, s := FillUp(cap, Init(n));
    Onward(cap, n, Init(n), events, s);
    NothingLost(cap, n, s);
  }

  // Client 1 asks for room and is served, but client 0 fills the buffer again
  // before it gets the latch, and its second wait asks for nothing.
  lemma Overtaken(cap: nat, n: nat)
    requires RECORD_SIZE < cap && 2 <= n
    ensures exists s :: Reachable(cap, n, s) && Forgotten(s)
  {
    hide EncodeAll, Int32ToBytes, Inv;
    var rec := Pair(0, 0);
    assert Run(cap, Init(n), [], Init(n));
    var e1, s1 := FillUp(cap, Init(n));
    Onward(cap, n, Init(n), e1, s1);
    Further(cap, n, s1, AppendBegin(1, rec));
    var s2 := Apply(cap, s1, AppendBegin(1, rec));
    Further(cap, n, s2, Check);
    var s3 := Apply(cap, s2, Check);
    ReachableInv(cap, n, s3);
    var e4, s4 := FromReady(cap, s3);
    Onward(cap, n, s3, e4, s4);
    var e5, s5 := FillUp(cap, s4);
    Onward(cap, n, s4, e5, s5);
    assert s5.clients[1] == AppendWait(rec, true);
    Further(cap, n, s5, AppendResume(1));
    assert Apply(cap, s5, AppendResume(1)).clients[1] == AppendWait(rec, false);
  }

  // A sleeping appender can be forgotten exactly when there is a second client.
  lemma ForgottenIff(cap: nat, n: nat)
    requires RECORD_SIZE < cap
    ensures (exists s :: Reachable(cap, n, s) && Forgotten(s)) <==> n >= 2
  {
    if n >= 2 {
      Overtaken(cap, n);
    } else {
      forall s | Reachable(cap, n, s) ensures !Forgotten(s) {
        LoneReachable(cap, n, s);
      }
    }
  }
}
