/** What holds of the cache in every reachable state and over every run. */
module CacheTheorems {
  import opened Options
  import opened CacheKeys
  import opened CacheProtocol

  lemma InitShape(cfg: Config, s: State)
    requires Init(s)
    ensures Shape(cfg, s)
  {
  }

  lemma {:induction false} RunShape(cfg: Config, run: seq<State>, i: nat)
    requires Run(cfg, run) && i < |run|
    ensures Shape(cfg, run[i])
  {
    if i == 0 {
      InitShape(cfg, run[0]);
    } else {
      RunShape(cfg, run, i - 1);
      var step := StepAt(cfg, run, i - 1);
      ShapeStep(cfg, run[i - 1], run[i], step);
    }
  }

  lemma StepAt(cfg: Config, run: seq<State>, i: nat) returns (step: Step)
    requires Run(cfg, run) && i + 1 < |run|
    ensures NextStep(cfg, run[i], run[i + 1], step)
  {
    assert Next(cfg, run[i], run[i + 1]);
    step :| NextStep(cfg, run[i], run[i + 1], step);
  }

  lemma GrowsTransitive(s: State, t: State, u: State)
    requires Grows(s, t) && Grows(t, u)
    ensures Grows(s, u)
  {
  }

  lemma {:induction false} RunGrows(cfg: Config, run: seq<State>, i: nat, j: nat)
    requires Run(cfg, run) && i <= j < |run|
    ensures Grows(run[i], run[j])
  {
    if i < j {
      RunGrows(cfg, run, i, j - 1);
      RunShape(cfg, run, j - 1);
      var step := StepAt(cfg, run, j - 1);
      StepGrows(cfg, run[j - 1], run[j], step);
      GrowsTransitive(run[i], run[j - 1], run[j]);
    }
  }

  // ----- refinement: where answers come from -----

  /** The inner resolver returned `a` for a query filed under `key`. */
  ghost predicate CameFromInner(s: State, key: Key, a: Answer) {
    exists q :: Inner(q, a) in s.inner && KeyOf(q) == key
  }

  /** Every value a caller gets was returned by the inner resolver for the caller's own key: the
      leader gets it as it is, hits and waiters get what it serves, and only a waiter may get its
      own context's error instead.  A hit was published less than its TTL before the caller
      sampled the clock, and nothing that callers write shows in it.  Only a waiter may get, in place
      of the addresses, as many others: once the leader's caller has written to the shared slice. */
  lemma AnswersComeFromInner(cfg: Config, run: seq<State>, i: nat, c: nat)
    requires Run(cfg, run) && i < |run| && c < |run[i].callers| && run[i].callers[c].pc.Finished?
    ensures var s, caller := run[i], run[i].callers[c];
      match caller.pc.via
      case OwnContext => caller.ctxDone && caller.pc.result == CTX_ERROR
      case Led(_) => Inner(caller.query, caller.pc.result) in s.inner
      case Joined(p) => p < |s.lookups| && exists a ::
        && CameFromInner(s, caller.Key(), a)
        && (|| caller.pc.result == Served(a)
            || (&& s.lookups[p].overwritten.Some? && a.err.None? && caller.pc.result.err.None?
                && |caller.pc.result.addrs| == |a.addrs|))
      case Hit(p) => exists a, at ::
        && CameFromInner(s, caller.Key(), a) && caller.pc.result == Served(a)
        && p < |s.lookups| && s.lookups[p].phase == Published(at) && s.lookups[p].answer == a
        && caller.sampled < at + Ttl(cfg, a)
    ensures var caller := run[i].callers[c];
      !caller.pc.via.Led? && caller.pc.result.err.Some? ==> caller.pc.result.addrs == []
  {
    var s, caller := run[i], run[i].callers[c];
    RunShape(cfg, run, i);
    assert CallerOk(cfg, s, c);
    match caller.pc.via {
      case OwnContext =>
      case Led(p) => assert LookupOk(s, p);
      case Joined(p) =>
        assert LookupOk(s, p);
        assert CameFromInner(s, caller.Key(), s.lookups[p].answer);
      case Hit(p) =>
        assert LookupOk(s, p);
        assert CameFromInner(s, caller.Key(), s.lookups[p].answer);
    }
  }

  // An answer with addresses and without an error.
  predicate Positive(a: Answer) {
    a.err.None? && a.addrs != []
  }

  /** A hit on addresses was published less than the positive TTL before the caller sampled the
      clock, a hit on an error or on an empty answer less than the negative one. */
  lemma HitsAreFresh(cfg: Config, run: seq<State>, i: nat, c: nat)
    requires Run(cfg, run) && i < |run| && c < |run[i].callers|
    requires run[i].callers[c].pc.Finished? && run[i].callers[c].pc.via.Hit?
    ensures var s, caller := run[i], run[i].callers[c]; var p := caller.pc.via.origin;
      && p < |s.lookups| && s.lookups[p].phase.Published?
      && (Positive(s.lookups[p].answer) ==> caller.sampled < s.lookups[p].phase.at + cfg.posTTL)
      && (!Positive(s.lookups[p].answer) ==> caller.sampled < s.lookups[p].phase.at + cfg.negTTL)
  {
    RunShape(cfg, run, i);
    assert CallerOk(cfg, run[i], c);
  }

  /** What is in the cache: the published answer of a lookup of that key, addresses for the positive
      and all else for the negative TTL after it was published, and nothing whose TTL is not
      positive. */
  lemma EntriesExpire(cfg: Config, run: seq<State>, i: nat, k: Key)
    requires Run(cfg, run) && i < |run| && k in run[i].entries
    ensures var s, e := run[i], run[i].entries[k];
      && e.origin < |s.lookups| && s.lookups[e.origin].phase.Published?
      && s.lookups[e.origin].Key() == k && e.answer == s.lookups[e.origin].answer
      && (Positive(e.answer) ==> cfg.posTTL > 0 && e.expires == s.lookups[e.origin].phase.at + cfg.posTTL)
      && (!Positive(e.answer) ==> cfg.negTTL > 0 && e.expires == s.lookups[e.origin].phase.at + cfg.negTTL)
  {
    RunShape(cfg, run, i);
    assert EntryOk(cfg, run[i], k);
  }

  /** The publishing region files the answer if and only if its TTL is positive, and evicts only if
      the cache is then over its size. */
  lemma StoreFilesIff(cfg: Config, s: State, s': State, c: nat, at: int, evictAt: int, after: Entries)
    requires CanStore(s, c) && Leaves(cfg, s, c, at, evictAt, after) && s' == Stored(cfg, s, c, at, evictAt, after)
    ensures var Storing(p, answer) := s.callers[c].pc;
      var ttl := if Positive(answer) then cfg.posTTL else cfg.negTTL;
      var key := s.callers[c].Key();
      && (ttl <= 0 ==> s'.entries == s.entries)
      && (ttl > 0 && |s.entries| < cfg.maxSize ==>
            s'.entries == s.entries[key := Entry(answer, at + ttl, p)])
  {
    StoredEntries(cfg, s, c, at, evictAt, after);
  }

  lemma StoredEntries(cfg: Config, s: State, c: nat, at: int, evictAt: int, after: Entries)
    requires CanStore(s, c) && Leaves(cfg, s, c, at, evictAt, after)
    ensures var Storing(p, answer) := s.callers[c].pc;
      && (Ttl(cfg, answer) <= 0 ==> after == s.entries)
      && (Ttl(cfg, answer) > 0 && |s.entries| < cfg.maxSize ==>
            after == s.entries[s.callers[c].Key() := Entry(answer, at + Ttl(cfg, answer), p)])
  {
    var before := Inserted(cfg, s, c, at);
    if Ttl(cfg, s.callers[c].pc.answer) > 0 && |s.entries| < cfg.maxSize {
      InsertGrowsByOne(s.entries, s.callers[c].Key(), before[s.callers[c].Key()]);
      FiledWithinLimit(cfg, before, evictAt, after);
    }
  }

  lemma FiledWithinLimit(cfg: Config, before: Entries, evictAt: int, after: Entries)
    requires Evicts(cfg.maxSize, before, evictAt, after) && |before| <= cfg.maxSize
    ensures after == before
  {
  }

  lemma InsertGrowsByOne(m: Entries, k: Key, e: Entry)
    ensures |m[k := e]| <= |m| + 1
  {
    assert m[k := e].Keys == m.Keys + {k};
  }

  // In the j-th step of the run caller c begins and samples the clock, which shows t.
  ghost predicate SamplesAt(run: seq<State>, j: nat, c: nat, t: int) {
    && j + 1 < |run| && c < |run[j].callers| && c < |run[j + 1].callers|
    && run[j].callers[c].pc.Idle? && run[j + 1].callers[c].pc.Sampled? && run[j].clock == t
  }

  // A caller that is not idle in the i-th state has just sampled the clock or keeps its sample.
  ghost predicate KeepsSample(run: seq<State>, i: nat, c: nat) {
    i < |run| && c < |run[i].callers| && !run[i].callers[c].pc.Idle? ==>
      && i > 0 && c < |run[i - 1].callers|
      && if run[i - 1].callers[c].pc.Idle? then SamplesAt(run, i - 1, c, run[i].callers[c].sampled)
         else run[i].callers[c].sampled == run[i - 1].callers[c].sampled
  }

  lemma SampleStep(cfg: Config, run: seq<State>, i: nat, c: nat)
    requires Run(cfg, run)
    ensures KeepsSample(run, i, c)
  {
    if i < |run| && c < |run[i].callers| && !run[i].callers[c].pc.Idle? {
      var before := run[i - 1];
      RunShape(cfg, run, i - 1);
      var step := StepAt(cfg, run, i - 1);
      StepGrows(cfg, before, run[i], step);
      assert CallerGrows(before.callers[c], run[i].callers[c]);
      if before.callers[c].pc.Idle? {
        FirstMoveSamples(cfg, before, run[i], step, c);
      }
    }
  }

  lemma {:induction false} LastSample(run: seq<State>, i: nat, c: nat) returns (j: nat)
    requires i < |run| && c < |run[i].callers| && !run[i].callers[c].pc.Idle?
    requires forall k: nat | k <= i :: KeepsSample(run, k, c)
    ensures j < i && SamplesAt(run, j, c, run[i].callers[c].sampled)
  {
    assert KeepsSample(run, i, c);
    if run[i - 1].callers[c].pc.Idle? {
      j := i - 1;
    } else {
      j := LastSample(run, i - 1, c);
    }
  }

  /** What a caller samples is the clock at a moment of its own call. */
  lemma SampledIsAClockReading(cfg: Config, run: seq<State>, i: nat, c: nat) returns (j: nat)
    requires Run(cfg, run) && i < |run| && c < |run[i].callers| && !run[i].callers[c].pc.Idle?
    ensures j < i && SamplesAt(run, j, c, run[i].callers[c].sampled)
  {
    forall k: nat | k <= i ensures KeepsSample(run, k, c) {
      SampleStep(cfg, run, k, c);
    }
    j := LastSample(run, i, c);
  }

  lemma FirstMoveSamples(cfg: Config, s: State, s': State, step: Step, c: nat)
    requires NextStep(cfg, s, s', step) && c < |s.callers| == |s'.callers|
    requires s.callers[c].pc.Idle? && !s'.callers[c].pc.Idle?
    ensures step == Sample(c) && s'.callers[c].pc.Sampled? && s'.callers[c].sampled == s.clock
  {
  }

  /** The program's callers all ask for the same number of types.  Then an answer was returned for
      the very query of the caller who gets it. */
  lemma AnswersAreForTheQueryAsked(cfg: Config, run: seq<State>, i: nat, c: nat, n: nat)
    requires Run(cfg, run) && i < |run| && c < |run[i].callers| && run[i].callers[c].pc.Finished?
    requires forall d | 0 <= d < |run[i].callers| :: |run[i].callers[d].query.qTypes| == n
    ensures var s, caller := run[i], run[i].callers[c];
      || (caller.pc.via == OwnContext && caller.pc.result == CTX_ERROR && caller.ctxDone)
      || (caller.pc.via.Led? && Inner(caller.query, caller.pc.result) in s.inner)
      || (exists a :: Inner(caller.query, a) in s.inner && caller.pc.result == Served(a))
      || (&& caller.pc.via.Joined? && caller.pc.via.p < |s.lookups|
          && s.lookups[caller.pc.via.p].overwritten.Some?)
  {
    var s, caller := run[i], run[i].callers[c];
    RunShape(cfg, run, i);
    assert CallerOk(cfg, s, c);
    if caller.pc.via.Led? || caller.pc.via.OwnContext? {
      AnswersComeFromInner(cfg, run, i, c);
    } else {
      var p := if caller.pc.via.Hit? then caller.pc.via.origin else caller.pc.via.p;
      assert LookupOk(s, p);
      SameCountInjective(s.lookups[p].query, caller.query);
      assert Inner(caller.query, s.lookups[p].answer) in s.inner;
    }
  }

  // ----- single flight -----

  /** In every reachable state at most one lookup per key is unpublished; `pending` holds a key
      exactly while that lookup is under way; and `done` is closed once, never twice. */
  lemma SingleFlight(cfg: Config, run: seq<State>, i: nat)
    requires Run(cfg, run) && i < |run|
    ensures var s := run[i];
      && (forall p, q | 0 <= p < |s.lookups| && 0 <= q < |s.lookups| ::
            (!s.lookups[p].phase.Published? && !s.lookups[q].phase.Published?
             && s.lookups[p].Key() == s.lookups[q].Key()) ==> p == q)
      && (forall k: Key :: k in s.pending <==>
            exists p :: 0 <= p < |s.lookups| && s.lookups[p].Key() == k && !s.lookups[p].phase.Published?)
      && (forall p | 0 <= p < |s.lookups| :: s.lookups[p].closes == if s.lookups[p].Done() then 1 else 0)
      && !s.panicked
  {
    var s := run[i];
    RunShape(cfg, run, i);
    forall p | 0 <= p < |s.lookups|
      ensures s.lookups[p].closes == if s.lookups[p].Done() then 1 else 0
      ensures !s.lookups[p].phase.Published? ==>
        s.lookups[p].Key() in s.pending && s.pending[s.lookups[p].Key()] == p
    {
      assert LookupOk(s, p);
    }
  }

  /** What a waiter reads was written for good: once `done` is closed the fields stay as they are
      in every later state, and a waiter that returns the lookup's answer returns those fields, unless
      the leader's caller has written to the slice. */
  lemma WaitersReadFinalFields(cfg: Config, run: seq<State>, i: nat, j: nat, p: nat, c: nat)
    requires Run(cfg, run) && i <= j < |run| && p < |run[i].lookups| && run[i].lookups[p].Done()
    ensures p < |run[j].lookups| && run[j].lookups[p].Done()
    ensures run[j].lookups[p].answer == run[i].lookups[p].answer
    ensures c < |run[j].callers| && run[j].callers[c].pc.Finished? && run[j].callers[c].pc.via == Joined(p) ==>
      || run[j].callers[c].pc.result == Served(run[i].lookups[p].answer)
      || run[j].lookups[p].overwritten.Some?
  {
    RunGrows(cfg, run, i, j);
    assert LookupGrows(run[i].lookups[p], run[j].lookups[p]);
    RunShape(cfg, run, j);
    if c < |run[j].callers| {
      assert CallerOk(cfg, run[j], c);
    }
  }

  // ----- size -----

  lemma SizeBound(cfg: Config, run: seq<State>, i: nat)
    requires Run(cfg, run) && i < |run|
    ensures |run[i].entries| <= cfg.maxSize
  {
    RunShape(cfg, run, i);
  }

  /** The arbitrary phase of eviction drops at most one entry, whatever the run. */
  lemma ArbitraryEvictionDropsOne(cfg: Config, run: seq<State>, i: nat, c: nat, at: int, evictAt: int, after: Entries)
    requires Run(cfg, run) && i + 1 < |run|
    requires NextStep(cfg, run[i], run[i + 1], Store(c, at, evictAt, after))
    ensures |Live(Inserted(cfg, run[i], c, at), evictAt)| <= |after| + 1
  {
    var before := Inserted(cfg, run[i], c, at);
    RunShape(cfg, run, i);
    assert |before| <= |run[i].entries| + 1;
    LiveIsSmaller(before, evictAt);
    LiveIsSmaller(run[i].entries, evictAt);
  }

  lemma LiveIsSmaller(m: Entries, now: int)
    ensures |Live(m, now)| <= |m|
  {
    SubsetSize(Live(m, now).Keys, m.Keys);
  }

  lemma SubsetSize<T>(a: set<T>, b: set<T>)
    requires a <= b
    ensures |a| <= |b|
  {
    assert b == a + (b - a);
  }

  // ----- no deadlock, no lost wake-up -----

  // The clock, the callers' contexts, and what callers do with their slices.
  predicate ByEnvironment(step: Step) {
    step.Tick? || step.CtxDone? || step.Overwrite?
  }

  function PcWeight(pc: Pc): nat {
    match pc
    case Idle => 7
    case Sampled => 6
    case Leading(_) => 5
    case Answered(_, _) => 4
    case Writing(_, _) => 3
    case Storing(_, _) => 2
    case Waiting(_) => 1
    case Finished(_, _) => 0
  }

  ghost function Remaining(callers: seq<Caller>): nat {
    if callers == [] then 0 else PcWeight(callers[0].pc) + Remaining(callers[1..])
  }

  lemma {:induction false} RemainingUpdate(callers: seq<Caller>, c: nat, caller: Caller)
    requires c < |callers|
    ensures Remaining(callers[c := caller]) == Remaining(callers) - PcWeight(callers[c].pc) + PcWeight(caller.pc)
  {
    if c == 0 {
      assert callers[c := caller][1..] == callers[1..];
    } else {
      assert callers[c := caller][1..] == callers[1..][c - 1 := caller];
      RemainingUpdate(callers[1..], c - 1, caller);
    }
  }

  lemma CallersOnlyAdvance(cfg: Config, s: State, s': State, step: Step)
    requires NextStep(cfg, s, s', step) && !ByEnvironment(step)
    ensures Remaining(s'.callers) < Remaining(s.callers)
  {
    var c := Mover(step);
    match step {
      case Lock(_) => LockAdvances(s, s', c);
      case Store(_, _, _, _) => StoreAdvances(cfg, s, s', step);
      case _ => OthersAdvance(cfg, s, s', step);
    }
    RemainingUpdate(s.callers, c, s'.callers[c]);
  }

  function Mover(step: Step): nat
    requires !step.Tick?
  {
    match step
    case CtxDone(c) => c
    case Sample(c) => c
    case Lock(c) => c
    case InnerReturns(c, _) => c
    case WriteFields(c) => c
    case CloseDone(c) => c
    case Store(c, _, _, _) => c
    case Wake(c) => c
    case GiveUp(c) => c
    case Overwrite(c, _) => c
  }

  // Caller c has moved on, and no other caller has moved.
  ghost predicate Advances(s: State, s': State, c: nat) {
    && c < |s.callers| == |s'.callers| && s'.callers == s.callers[c := s'.callers[c]]
    && PcWeight(s'.callers[c].pc) < PcWeight(s.callers[c].pc)
  }

  lemma LockAdvances(s: State, s': State, c: nat)
    requires s.At(c, Sampled) && s' == Locked(s, c)
    ensures Advances(s, s', c)
  {
  }

  lemma StoreAdvances(cfg: Config, s: State, s': State, step: Step)
    requires NextStep(cfg, s, s', step) && step.Store?
    ensures Advances(s, s', step.c)
  {
  }

  lemma OthersAdvance(cfg: Config, s: State, s': State, step: Step)
    requires NextStep(cfg, s, s', step) && !ByEnvironment(step) && !step.Lock? && !step.Store?
    ensures Advances(s, s', Mover(step))
  {
  }

  /** A waiter whose context ends returns at once with its own context's error, and nobody else
      sees anything of it. */
  lemma CancelledWaiterLeaves(cfg: Config, s: State, c: nat) returns (cancelled: State, s': State)
    requires c < |s.callers| && s.callers[c].pc.Waiting?
    ensures NextStep(cfg, s, cancelled, CtxDone(c)) && NextStep(cfg, cancelled, s', GiveUp(c))
    ensures s' == s.(callers := s.callers[c := s.callers[c].(
                       ctxDone := true, pc := Finished(Answer([], Some("context done")), OwnContext))])
  {
    cancelled := s.(callers := s.callers[c := s.callers[c].(ctxDone := true)]);
    s' := cancelled.Move(c, Finished(CTX_ERROR, OwnContext));
  }

  // Who has to move for caller c to get on: c itself, the mutex holder, or the leader c waits for.
  lemma MoverFor(cfg: Config, s: State, c: nat) returns (d: nat)
    requires Shape(cfg, s) && c < |s.callers| && !s.callers[c].pc.Finished?
    ensures d < |s.callers| && !s.callers[d].pc.Finished?
    ensures s.callers[d].pc.Waiting? ==>
      s.callers[d].pc.p < |s.lookups| && s.lookups[s.callers[d].pc.p].Done()
    ensures s.callers[d].pc.Sampled? || s.callers[d].pc.Answered? ==> s.holder == None
  {
    if s.holder.Some? {
      d := s.holder.value;
    } else {
      d := c;
      assert CallerOk(cfg, s, c);
      if s.callers[c].pc.Waiting? {
        var p := s.callers[c].pc.p;
        if !s.lookups[p].Done() {
          assert LookupOk(s, p);
          d := s.lookups[p].leader;
        }
      }
    }
  }

  lemma SomeEviction(cfg: Config, s: State, c: nat) returns (after: Entries)
    requires Shape(cfg, s) && CanStore(s, c)
    ensures Leaves(cfg, s, c, s.clock, s.clock, after)
  {
    var before := Inserted(cfg, s, c, s.clock);
    var live := Live(before, s.clock);
    LiveIsSmaller(before, s.clock);
    if Ttl(cfg, s.callers[c].pc.answer) <= 0 || |before| <= cfg.maxSize {
      after := before;
    } else if |live| <= cfg.maxSize {
      after := live;
    } else {
      var k :| k in live;
      after := live - {k};
      assert after.Keys == live.Keys - {k};
      assert |before| <= |s.entries| + 1;
    }
  }

  // The mover's next step.
  lemma MoverCanMove(cfg: Config, s: State, d: nat) returns (step: Step, s': State)
    requires Shape(cfg, s) && d < |s.callers| && !s.callers[d].pc.Finished?
    requires s.callers[d].pc.Waiting? ==>
      s.callers[d].pc.p < |s.lookups| && s.lookups[s.callers[d].pc.p].Done()
    requires s.callers[d].pc.Sampled? || s.callers[d].pc.Answered? ==> s.holder == None
    ensures NextStep(cfg, s, s', step) && !ByEnvironment(step)
  {
    assert CallerOk(cfg, s, d);
    match s.callers[d].pc {
      case Idle =>
        step, s' := Sample(d), s.(callers := s.callers[d := s.callers[d].(pc := Sampled, sampled := s.clock)]);
      case Sampled => step, s' := Lock(d), Locked(s, d);
      case Leading(p) =>
        var a := Answer([], None);
        step := InnerReturns(d, a);
        s' := s.Move(d, Answered(p, a)).(inner := s.inner + {Inner(s.callers[d].query, a)});
      case Answered(p, a) =>
        step := WriteFields(d);
        s' := s.Move(d, Writing(p, a)).(
          holder := Some(d), lookups := s.lookups[p := s.lookups[p].(answer := a, phase := Written)]);
      case Writing(p, a) =>
        step := CloseDone(d);
        s' := s.Move(d, Storing(p, a)).(
          lookups := s.lookups[p := s.lookups[p].(phase := Closed, closes := s.lookups[p].closes + 1)],
          panicked := s.panicked || s.lookups[p].Done());
      case Storing(p, a) =>
        var after := SomeEviction(cfg, s, d);
        step, s' := Store(d, s.clock, s.clock, after), Stored(cfg, s, d, s.clock, s.clock, after);
      case Waiting(p) =>
        step, s' := Wake(d), s.Move(d, Finished(Served(s.lookups[p].Found()), Joined(p)));
    }
  }

  /** Inner resolvers that return are enough: while some caller has not returned, a caller can
      move, and after finitely many moves every caller has returned.  So no waiter is forgotten. */
  lemma NeverStuck(cfg: Config, s: State, c: nat) returns (step: Step, s': State)
    requires Shape(cfg, s) && c < |s.callers| && !s.callers[c].pc.Finished?
    ensures NextStep(cfg, s, s', step) && !ByEnvironment(step)
    ensures Remaining(s'.callers) < Remaining(s.callers)
  {
    var d := MoverFor(cfg, s, c);
    step, s' := MoverCanMove(cfg, s, d);
    CallersOnlyAdvance(cfg, s, s', step);
  }
}
