/**
 The three-stage ingest pipeline (crates/cli/src/main.rs, lines 120-269, with the worker pool of
 crates/ingest-core/src/block_fetch.rs) as one transition system: fetch, parse and store tasks
 joined by two bounded channels whose senders block.  A step of any task may come next.

 Worker panics and failures to write the ingestion status end the program early and are not part
 of this model; a failing flush of a batch is.
 */
module Pipeline {
  import opened BlockFetch

  const PIPELINE_CAPACITY: nat := 2

  datatype Kind = Ingested | Skipped | Failed

  datatype Outcome = Outcome(slot: nat, kind: Kind)

  datatype FetchTask = Priming | Polling | Sending(outcome: Outcome) | FetchDone

  datatype ParseTask = Receiving | Parsing(outcome: Outcome) | Forwarding(outcome: Outcome) | ParseDone

  datatype StoreTask =
    | Waiting | Pausing(outcome: Outcome) | Writing(outcome: Outcome) | Checking
    | StoreDone
    | StoreFailed  // the final flush failed

  /** One flushed batch: the slots of its blocks and whether the flush succeeded. */
  datatype Flush = Flush(slots: seq<nat>, ok: bool)

  /** The fetch stage; `delivered` is the history of outcomes in the order the pool produced them. */
  datatype Fetch = Fetch(task: FetchTask, next: nat, inFlight: set<nat>, delivered: seq<Outcome>)

  /** The store stage; `handled` is the history of outcomes in the order they were recorded. */
  datatype Store = Store(
    task: StoreTask, didPause: bool, pending: seq<nat>, flushes: seq<Flush>,
    ingested: nat, skipped: nat, failed: nat, handled: seq<Outcome>)

  datatype State = State(fetch: Fetch, chan1: seq<Outcome>, parse: ParseTask, chan2: seq<Outcome>, store: Store)

  datatype Params = Params(startSlot: nat, count: nat, maxConcurrency: nat, batchSize: nat, pauseOnce: bool)

  const START: State :=
    State(Fetch(Priming, 0, {}, []), [], Receiving, [], Store(Waiting, false, [], [], 0, 0, 0, []))

  /** What can happen; the outcome of a fetch and the success of a flush are up to the environment. */
  datatype Action =
    | Prime | Complete(outcome: Outcome) | Send | FinishFetch
    | ReceiveToParse | ParseOne | Forward | FinishParse
    | ReceiveToStore | Resume | Write | CheckBatch(ok: bool) | FinishStore(ok: bool)

  predicate Enabled(p: Params, s: State, a: Action) {
    match a
    case Prime => s.fetch.task.Priming?
    case Complete(o) => s.fetch.task.Polling? && o.slot in s.fetch.inFlight
    case Send => s.fetch.task.Sending? && |s.chan1| < PIPELINE_CAPACITY
    case FinishFetch => s.fetch.task.Polling? && s.fetch.inFlight == {}
    case ReceiveToParse => s.parse.Receiving? && s.chan1 != []
    case ParseOne => s.parse.Parsing?
    case Forward => s.parse.Forwarding? && |s.chan2| < PIPELINE_CAPACITY
    // the channel is closed once the sending task is gone, and says so when it is empty
    case FinishParse => s.parse.Receiving? && s.chan1 == [] && s.fetch.task.FetchDone?
    case ReceiveToStore => s.store.task.Waiting? && s.chan2 != []
    case Resume => s.store.task.Pausing?
    case Write => s.store.task.Writing?
    case CheckBatch(_) => s.store.task.Checking?
    case FinishStore(_) => s.store.task.Waiting? && s.chan2 == [] && s.parse.ParseDone?
  }

  function DispatchNext(p: Params, f: Fetch): Fetch {
    if f.next < p.count then f.(next := f.next + 1, inFlight := f.inFlight + {p.startSlot + f.next}) else f
  }

  function PrimePool(p: Params, f: Fetch): Fetch {
    if |f.inFlight| < p.maxConcurrency && f.next < p.count then DispatchNext(p, f) else f.(task := Polling)
  }

  function CompleteFetch(f: Fetch, o: Outcome): Fetch {
    f.(task := Sending(o), inFlight := f.inFlight - {o.slot}, delivered := f.delivered + [o])
  }

  function TakeIn(p: Params, t: Store, o: Outcome): Store {
    if !t.didPause && p.pauseOnce then t.(task := Pausing(o), didPause := true) else t.(task := Writing(o))
  }

  function Record(t: Store, o: Outcome): Store {
    t.(task := Checking, handled := t.handled + [o],
       pending := if o.kind.Ingested? then t.pending + [o.slot] else t.pending,
       ingested := t.ingested + if o.kind.Ingested? then 1 else 0,
       skipped := t.skipped + if o.kind.Skipped? then 1 else 0,
       failed := t.failed + if o.kind.Failed? then 1 else 0)
  }

  /** A batch leaves the pending list whether its flush succeeds or not. */
  function FlushPending(t: Store, ok: bool): Store {
    t.(pending := [], flushes := t.flushes + [Flush(t.pending, ok)])
  }

  function Apply(p: Params, s: State, a: Action): State
    requires Enabled(p, s, a)
  {
    match a
    case Prime => s.(fetch := PrimePool(p, s.fetch))
    case Complete(o) => s.(fetch := CompleteFetch(s.fetch, o))
    case Send => s.(fetch := DispatchNext(p, s.fetch).(task := Polling), chan1 := s.chan1 + [s.fetch.task.outcome])
    case FinishFetch => s.(fetch := s.fetch.(task := FetchDone))
    case ReceiveToParse => s.(parse := Parsing(s.chan1[0]), chan1 := s.chan1[1..])
    case ParseOne => s.(parse := Forwarding(s.parse.outcome))
    case Forward => s.(parse := Receiving, chan2 := s.chan2 + [s.parse.outcome])
    case FinishParse => s.(parse := ParseDone)
    case ReceiveToStore => s.(store := TakeIn(p, s.store, s.chan2[0]), chan2 := s.chan2[1..])
    case Resume => s.(store := s.store.(task := Writing(s.store.task.outcome)))
    case Write => s.(store := Record(s.store, s.store.task.outcome))
    case CheckBatch(ok) =>
      s.(store := (if |s.store.pending| >= p.batchSize then FlushPending(s.store, ok) else s.store).(task := Waiting))
    case FinishStore(ok) =>
      s.(store := if s.store.pending == [] then s.store.(task := StoreDone)
                  else FlushPending(s.store, ok).(task := if ok then StoreDone else StoreFailed))
  }

  ghost predicate Step(p: Params, s: State, s': State) {
    exists a :: Enabled(p, s, a) && s' == Apply(p, s, a)
  }

  ghost predicate Behaviour(p: Params, states: seq<State>) {
    && states != [] && states[0] == START
    && forall k :: 0 < k < |states| ==> Step(p, states[k - 1], states[k])
  }

  predicate Final(s: State) {
    s.fetch.task.FetchDone? && s.parse.ParseDone? && (s.store.task.StoreDone? || s.store.task.StoreFailed?)
  }

  // ---------------- Invariant ----------------

  function HeldByFetch(f: Fetch): seq<Outcome> { if f.task.Sending? then [f.task.outcome] else [] }

  function HeldByParse(t: ParseTask): seq<Outcome> {
    if t.Parsing? || t.Forwarding? then [t.outcome] else []
  }

  function HeldByStore(t: Store): seq<Outcome> {
    if t.task.Pausing? || t.task.Writing? then [t.task.outcome] else []
  }

  /** Outcomes between the worker pool and the second channel, oldest first. */
  function Upstream(s: State): seq<Outcome> { HeldByParse(s.parse) + (s.chan1 + HeldByFetch(s.fetch)) }

  /** Delivered outcomes not yet recorded, oldest first. */
  function Underway(s: State): seq<Outcome> { HeldByStore(s.store) + (s.chan2 + Upstream(s)) }

  ghost function Count(outcomes: seq<Outcome>, kind: Kind): nat {
    if outcomes == [] then 0
    else Count(outcomes[..|outcomes| - 1], kind) + if outcomes[|outcomes| - 1].kind == kind then 1 else 0
  }

  ghost function IngestedSlots(outcomes: seq<Outcome>): seq<nat> {
    if outcomes == [] then []
    else
      var o := outcomes[|outcomes| - 1];
      IngestedSlots(outcomes[..|outcomes| - 1]) + if o.kind.Ingested? then [o.slot] else []
  }

  ghost function FlushedSlots(flushes: seq<Flush>): seq<nat> {
    if flushes == [] then [] else FlushedSlots(flushes[..|flushes| - 1]) + flushes[|flushes| - 1].slots
  }

  function SlotsOf(outcomes: seq<Outcome>): (r: seq<nat>)
    ensures |r| == |outcomes| && forall k :: 0 <= k < |r| ==> r[k] == outcomes[k].slot
  {
    seq(|outcomes|, k requires 0 <= k < |outcomes| => outcomes[k].slot)
  }

  /**
   The dispatched slots are a prefix of the range; each is in flight or delivered, once.  At most
   `maxConcurrency` slots are in flight, and the pool stays full while slots are left.
   */
  ghost predicate PoolInv(p: Params, f: Fetch) {
    && f.next <= p.count
    && ExactlyOnce(p.startSlot, f.next, f.inFlight, SlotsOf(f.delivered))
    && |f.delivered| + |f.inFlight| == f.next
    && |f.inFlight| + |HeldByFetch(f)| <= p.maxConcurrency
    && (forall k :: 0 <= k < |f.delivered| ==> f.delivered[k].slot < p.startSlot + p.maxConcurrency + k)
    && (f.task.Priming? ==> f.delivered == [])
    && (f.next < p.count && !f.task.Priming? ==> |f.inFlight| + |HeldByFetch(f)| == p.maxConcurrency)
    && (f.task.FetchDone? ==> f.inFlight == {})
  }

  /** Nothing is lost, duplicated or reordered between the worker pool and the store. */
  ghost predicate ChannelInv(s: State) {
    && |s.chan1| <= 2 && |s.chan2| <= 2
    && s.fetch.delivered == s.store.handled + Underway(s)
    && (s.parse.ParseDone? ==> s.fetch.task.FetchDone? && s.chan1 == [])
    && (s.store.task.StoreDone? || s.store.task.StoreFailed? ==> s.parse.ParseDone? && s.chan2 == [])
  }

  /**
   The counters count the recorded outcomes; the ingested blocks are, in order, those of the
   flushed batches followed by the pending ones, and no batch outgrows the batch size.
   */
  ghost predicate StoreInv(p: Params, t: Store) {
    && t.ingested == Count(t.handled, Ingested)
    && t.skipped == Count(t.handled, Skipped)
    && t.failed == Count(t.handled, Failed)
    && t.ingested + t.skipped + t.failed == |t.handled|
    && IngestedSlots(t.handled) == FlushedSlots(t.flushes) + t.pending
    && (t.task.Checking? ==> |t.pending| <= 1 || |t.pending| <= p.batchSize)
    && (!t.task.Checking? ==> t.pending == [] || |t.pending| < p.batchSize)
    && (forall k :: 0 <= k < |t.flushes| ==> |t.flushes[k].slots| <= 1 || |t.flushes[k].slots| <= p.batchSize)
    && (t.task.StoreDone? || t.task.StoreFailed? ==> t.pending == [])
    && BatchesFull(p, t) && PauseInv(p, t)
  }

  predicate StoreEnded(t: Store) { t.task.StoreDone? || t.task.StoreFailed? }

  /** A batch smaller than the batch size: what was pending when the channel closed. */
  predicate EndsSmall(p: Params, flushes: seq<Flush>) {
    flushes != [] && |flushes[|flushes| - 1].slots| < p.batchSize
  }

  /**
   Batches are flushed as soon as they are full, and the last one, not empty, at the end of the run;
   the run fails exactly when that last flush does.  A failed flush before is passed over.
   */
  ghost predicate BatchesFull(p: Params, t: Store) {
    && (forall k :: 0 <= k < |t.flushes| - 1 ==> |t.flushes[k].slots| >= p.batchSize)
    && (EndsSmall(p, t.flushes) ==> StoreEnded(t) && t.flushes[|t.flushes| - 1].slots != [])
    && (t.task.StoreFailed? <==> StoreEnded(t) && EndsSmall(p, t.flushes) && !t.flushes[|t.flushes| - 1].ok)
  }

  /** The store pauses, when asked to, before it records the first outcome, and never again. */
  ghost predicate PauseInv(p: Params, t: Store) {
    && (t.didPause ==> p.pauseOnce)
    && (t.task.Pausing? ==> t.didPause && t.handled == [])
    && (p.pauseOnce && (t.handled != [] || t.task.Writing?) ==> t.didPause)
  }

  ghost predicate Inv(p: Params, s: State) { PoolInv(p, s.fetch) && ChannelInv(s) && StoreInv(p, s.store) }

  lemma {:induction false} DispatchKeepsPool(p: Params, f: Fetch)
    requires f.next < p.count && ExactlyOnce(p.startSlot, f.next, f.inFlight, SlotsOf(f.delivered))
    ensures var f' := DispatchNext(p, f);
      && ExactlyOnce(p.startSlot, f'.next, f'.inFlight, SlotsOf(f'.delivered))
      && |f'.inFlight| == |f.inFlight| + 1
  {
    DispatchKeeps(p.startSlot, f.next, f.inFlight, SlotsOf(f.delivered));
  }

  lemma {:induction false} CompleteKeepsPool(p: Params, f: Fetch, o: Outcome)
    requires PoolInv(p, f) && f.task.Polling? && o.slot in f.inFlight
    ensures PoolInv(p, CompleteFetch(f, o)) && |CompleteFetch(f, o).inFlight| == |f.inFlight| - 1
  {
    DeliverKeeps(p.startSlot, f.next, f.inFlight, SlotsOf(f.delivered), o.slot);
    assert SlotsOf(f.delivered + [o]) == SlotsOf(f.delivered) + [o.slot];
  }

  lemma {:induction false} PoolKept(p: Params, s: State, a: Action)
    requires PoolInv(p, s.fetch) && Enabled(p, s, a)
    ensures PoolInv(p, Apply(p, s, a).fetch)
  {
    match a
    case Complete(o) => CompleteKeepsPool(p, s.fetch, o);
    case Prime => if s.fetch.next < p.count { DispatchKeepsPool(p, s.fetch); }
    case Send => if s.fetch.next < p.count { DispatchKeepsPool(p, s.fetch); }
    case _ =>
  }

  predicate ByFetch(a: Action) { a.Prime? || a.Complete? || a.Send? || a.FinishFetch? }

  predicate ByParse(a: Action) { a.ReceiveToParse? || a.ParseOne? || a.Forward? || a.FinishParse? }

  lemma {:induction false} ChannelsKept(p: Params, s: State, a: Action)
    requires ChannelInv(s) && Enabled(p, s, a)
    ensures ChannelInv(Apply(p, s, a))
  {
    if ByFetch(a) {
      FetchKeepsChannels(p, s, a);
    } else if ByParse(a) {
      ParseKeepsChannels(p, s, a);
    } else {
      StoreKeepsChannels(p, s, a);
    }
  }

  lemma {:induction false} FetchKeepsChannels(p: Params, s: State, a: Action)
    requires ChannelInv(s) && Enabled(p, s, a) && ByFetch(a)
    ensures ChannelInv(Apply(p, s, a))
  {
    var s' := Apply(p, s, a);
    if a.Complete? {
      assert Underway(s') == Underway(s) + [a.outcome];
    } else {
      assert s'.chan1 + HeldByFetch(s'.fetch) == s.chan1 + HeldByFetch(s.fetch);
    }
  }

  lemma {:induction false} ParseKeepsChannels(p: Params, s: State, a: Action)
    requires ChannelInv(s) && Enabled(p, s, a) && ByParse(a)
    ensures ChannelInv(Apply(p, s, a))
  {
    var s' := Apply(p, s, a);
    if a.Forward? {
      assert s'.chan2 + Upstream(s') == s.chan2 + Upstream(s);
    } else {
      assert Upstream(s') == Upstream(s);
    }
  }

  lemma {:induction false} StoreKeepsChannels(p: Params, s: State, a: Action)
    requires ChannelInv(s) && Enabled(p, s, a) && !ByFetch(a) && !ByParse(a)
    ensures ChannelInv(Apply(p, s, a))
  {
    var s' := Apply(p, s, a);
    if a.Write? {
      Regroup(s.store.handled, [s.store.task.outcome], s.chan2 + Upstream(s));
    } else if a.ReceiveToStore? {
      FirstOut(s.chan2, Upstream(s));
    } else {
      assert Underway(s') == Underway(s);
    }
  }

  lemma {:induction false} Regroup(x: seq<Outcome>, y: seq<Outcome>, z: seq<Outcome>)
    ensures x + (y + z) == (x + y) + ([] + z)
  {
  }

  lemma {:induction false} FirstOut(x: seq<Outcome>, z: seq<Outcome>)
    requires x != []
    ensures [] + (x + z) == [x[0]] + (x[1..] + z)
  {
  }

  lemma {:induction false} StoreKept(p: Params, s: State, a: Action)
    requires StoreInv(p, s.store) && Enabled(p, s, a)
    ensures StoreInv(p, Apply(p, s, a).store)
  {
    if a.Write? {
      RecordKept(p, s.store, s.store.task.outcome);
    } else if (a.CheckBatch? && |s.store.pending| >= p.batchSize) || (a.FinishStore? && s.store.pending != []) {
      FlushKept(p, s.store, a.ok, Apply(p, s, a).store.task);
    }
  }

  lemma {:induction false} OneMoreHandled(handled: seq<Outcome>, o: Outcome)
    ensures forall kind :: Count(handled + [o], kind) == Count(handled, kind) + if o.kind == kind then 1 else 0
    ensures IngestedSlots(handled + [o]) == IngestedSlots(handled) + if o.kind.Ingested? then [o.slot] else []
  {
    assert (handled + [o])[..|handled|] == handled;
  }

  lemma {:induction false} RecordKept(p: Params, t: Store, o: Outcome)
    requires StoreInv(p, t) && t.task.Writing?
    ensures StoreInv(p, Record(t, o))
  {
    hide FlushedSlots, Count, IngestedSlots;
    OneMoreHandled(t.handled, o);
    assert !EndsSmall(p, t.flushes);
  }

  lemma {:induction false} FlushKept(p: Params, t: Store, ok: bool, task: StoreTask)
    requires StoreInv(p, t)
    requires
      || (t.task.Checking? && |t.pending| >= p.batchSize && task == Waiting)
      || (t.task.Waiting? && t.pending != [] && task == if ok then StoreDone else StoreFailed)
    ensures StoreInv(p, FlushPending(t, ok).(task := task))
  {
    hide Count, IngestedSlots, FlushedSlots, BatchesFull, PauseInv;
    OneMoreFlush(t.flushes, Flush(t.pending, ok));
    FullAfterFlush(p, t, ok, task);
    PauseAfterFlush(p, t, ok, task);
  }

  lemma {:induction false} PauseAfterFlush(p: Params, t: Store, ok: bool, task: StoreTask)
    requires PauseInv(p, t) && !task.Pausing? && !task.Writing?
    ensures PauseInv(p, FlushPending(t, ok).(task := task))
  {
  }

  lemma {:induction false} OneMoreFlush(flushes: seq<Flush>, flush: Flush)
    ensures FlushedSlots(flushes + [flush]) == FlushedSlots(flushes) + flush.slots
  {
    assert (flushes + [flush])[..|flushes|] == flushes;
  }

  lemma {:induction false} FullAfterFlush(p: Params, t: Store, ok: bool, task: StoreTask)
    requires BatchesFull(p, t) && (!t.task.Checking? ==> t.pending == [] || |t.pending| < p.batchSize)
    requires
      || (t.task.Checking? && |t.pending| >= p.batchSize && task == Waiting)
      || (t.task.Waiting? && t.pending != [] && task == if ok then StoreDone else StoreFailed)
    ensures BatchesFull(p, FlushPending(t, ok).(task := task))
  {
    assert !EndsSmall(p, t.flushes);
  }

  lemma {:induction false} InvStep(p: Params, s: State, s': State)
    requires Inv(p, s) && Step(p, s, s')
    ensures Inv(p, s')
  {
    var a :| Enabled(p, s, a) && s' == Apply(p, s, a);
    PoolKept(p, s, a);
    ChannelsKept(p, s, a);
    StoreKept(p, s, a);
  }

  lemma {:induction false} InvHolds(p: Params, states: seq<State>, k: nat)
    requires Behaviour(p, states) && k < |states|
    ensures Inv(p, states[k])
  {
    if k > 0 {
      InvHolds(p, states, k - 1);
      InvStep(p, states[k - 1], states[k]);
    }
  }

  /** A sender waits exactly when its channel holds two outcomes. */
  lemma {:induction false} SendersWaitWhenFull(p: Params, s: State)
    requires ChannelInv(s)
    ensures s.fetch.task.Sending? ==> (!Enabled(p, s, Send) <==> |s.chan1| == 2)
    ensures s.parse.Forwarding? ==> (!Enabled(p, s, Forward) <==> |s.chan2| == 2)
  {
  }

  // ---------------- Progress and termination ----------------

  /** No reachable state that is not final is stuck: the blocking channels cannot deadlock. */
  lemma {:induction false} NotStuck(p: Params, s: State) returns (a: Action)
    requires Inv(p, s) && !Final(s)
    ensures Enabled(p, s, a)
  {
    if s.store.task.Pausing? {
      a := Resume;
    } else if s.store.task.Writing? {
      a := Write;
    } else if s.store.task.Checking? {
      a := CheckBatch(true);
    } else if s.chan2 != [] {
      a := ReceiveToStore;
    } else if s.parse.ParseDone? {
      a := FinishStore(true);
    } else if s.parse.Parsing? {
      a := ParseOne;
    } else if s.parse.Forwarding? {
      a := Forward;
    } else if s.chan1 != [] {
      a := ReceiveToParse;
    } else {
      a := FetchCanMove(p, s);
    }
  }

  lemma {:induction false} FetchCanMove(p: Params, s: State) returns (a: Action)
    requires s.parse.Receiving? && s.chan1 == []
    ensures Enabled(p, s, a)
  {
    match s.fetch.task
    case Priming => a := Prime;
    case Sending(_) => a := Send;
    case FetchDone => a := FinishParse;
    case Polling =>
      if s.fetch.inFlight == {} {
        a := FinishFetch;
      } else {
        var slot :| slot in s.fetch.inFlight;
        a := Complete(Outcome(slot, Ingested));
      }
  }

  /** How far each outcome and each task still has to go. */
  function Remaining(p: Params, s: State): int {
    FetchRemaining(p, s.fetch) + 7 * |s.chan1|
    + (match s.parse case Receiving => 1 case Parsing(_) => 7 case Forwarding(_) => 6 case ParseDone => 0)
    + 4 * |s.chan2|
    + (match s.store.task case Waiting => 1 case Pausing(_) => 4 case Writing(_) => 3 case Checking => 2
       case StoreDone => 0 case StoreFailed => 0)
  }

  function FetchRemaining(p: Params, f: Fetch): int {
    10 * (p.count - f.next) + 9 * |f.inFlight|
    + (match f.task case Priming => 2 case Polling => 1 case Sending(_) => 9 case FetchDone => 0)
  }

  lemma {:induction false} FetchRemainingDecreases(p: Params, s: State, a: Action)
    requires PoolInv(p, s.fetch) && Enabled(p, s, a) && ByFetch(a)
    ensures var f, f' := s.fetch, Apply(p, s, a).fetch;
      FetchRemaining(p, f') < FetchRemaining(p, f) - if a.Send? then 7 else 0
  {
    if a.Complete? {
      CompleteKeepsPool(p, s.fetch, a.outcome);
    } else if s.fetch.next < p.count {
      DispatchKeepsPool(p, s.fetch);
    }
  }

  lemma {:induction false} RemainingDecreases(p: Params, s: State, s': State)
    requires Inv(p, s) && Step(p, s, s')
    ensures Remaining(p, s') < Remaining(p, s)
  {
    hide PoolInv, StoreInv, ChannelInv;
    var a :| Enabled(p, s, a) && s' == Apply(p, s, a);
    if ByFetch(a) { FetchRemainingDecreases(p, s, a); }
  }

  /** Every behaviour is finite: it takes at most 10 steps per slot and 4 more. */
  lemma {:induction false} BehavioursAreFinite(p: Params, states: seq<State>, k: nat)
    requires Behaviour(p, states) && k < |states|
    ensures 0 <= Remaining(p, states[k]) && k + Remaining(p, states[k]) <= 10 * p.count + 4
  {
    InvHolds(p, states, k);
    if k > 0 {
      BehavioursAreFinite(p, states, k - 1);
      InvHolds(p, states, k - 1);
      RemainingDecreases(p, states[k - 1], states[k]);
    }
  }

  ghost predicate Stuck(p: Params, s: State) { forall a :: !Enabled(p, s, a) }

  /**
   The end of the run.  A behaviour that cannot go on has reached a final state; there every slot of
   the range was recorded exactly once, in the order the worker pool delivered them, the counters
   add up to the slot count when there is a worker and to 0 when there is none, and the batches
   flushed are the ingested blocks in order, so that without a failed flush all are stored.
   */
  lemma {:induction false} RunCompletes(p: Params, states: seq<State>, s: State)
    requires Behaviour(p, states) && s == states[|states| - 1] && Stuck(p, s)
    ensures Final(s) && s.store.handled == s.fetch.delivered
    ensures s.store.ingested + s.store.skipped + s.store.failed == if p.maxConcurrency >= 1 then p.count else 0
    ensures ExactlyOnce(p.startSlot, if p.maxConcurrency >= 1 then p.count else 0, {}, SlotsOf(s.store.handled))
    ensures FlushedSlots(s.store.flushes) == IngestedSlots(s.store.handled)
    ensures BatchesFull(p, s.store)
  {
    InvHolds(p, states, |states| - 1);
    if !Final(s) {
      var a := NotStuck(p, s);
    }
    assert Underway(s) == [];
    var slots := SlotsOf(s.fetch.delivered);
    assert slots == [] || slots[0] in slots;
  }
}
