/** How often the cache asks: when a key is looked up again. */
module CacheRate {
  import opened Options
  import opened CacheKeys
  import opened CacheProtocol
  import opened CacheTheorems

  // A lookup whose answer was filed.
  predicate Files(cfg: Config, l: Lookup) {
    l.phase.Published? && Ttl(cfg, l.answer) > 0
  }

  function Expiry(cfg: Config, l: Lookup): int
    requires l.phase.Published?
  {
    l.phase.at + Ttl(cfg, l.answer)
  }

  predicate SameKey(s: State, p: nat, q: nat) {
    p < |s.lookups| && q < |s.lookups| && s.lookups[p].Key() == s.lookups[q].Key()
  }

  /** Of the lookups of p's key from p on and before q, none is in `gone`. */
  ghost predicate NoneGone(s: State, p: nat, q: nat, gone: set<nat>) {
    forall r: nat | p <= r < q && SameKey(s, p, r) :: r !in gone
  }

  // A later lookup q waited for p's expiry, if no entry between them was evicted before q began.
  ghost predicate Waited(cfg: Config, s: State, p: nat, q: nat)
    requires p < |s.lookups| && q < |s.lookups|
  {
    && s.lookups[p].phase.Published?
    && (Files(cfg, s.lookups[p]) && NoneGone(s, p, q, s.lookups[q].gone) ==>
          Expiry(cfg, s.lookups[p]) <= s.lookups[q].sampled)
  }

  // The entry of p's key is p's own or a later one and does not expire before p's.
  ghost predicate InForce(cfg: Config, s: State, p: nat)
    requires p < |s.lookups| && s.lookups[p].phase.Published?
  {
    var key := s.lookups[p].Key();
    key in s.entries && p <= s.entries[key].origin && Expiry(cfg, s.lookups[p]) <= s.entries[key].expires
  }

  ghost predicate Rate(cfg: Config, s: State) {
    && (forall p: nat, q: nat | p < q && SameKey(s, p, q) :: Waited(cfg, s, p, q))
    && (forall p: nat | p < |s.lookups| && Files(cfg, s.lookups[p]) && NoneGone(s, p, |s.lookups|, s.evicted) ::
          InForce(cfg, s, p))
    && (forall q: nat | q < |s.lookups| :: s.lookups[q].gone <= s.evicted)
  }

  lemma InitRate(cfg: Config, s: State)
    requires Init(s)
    ensures Rate(cfg, s)
  {
  }

  // ----- a caller leads -----

  // Lookups below n are the same in both states.
  ghost predicate SameBelow(s: State, s': State, n: nat) {
    n <= |s.lookups| && n <= |s'.lookups| && forall r: nat | r < n :: s'.lookups[r] == s.lookups[r]
  }

  lemma NoneGoneBelow(s: State, s': State, p: nat, q: nat, gone: set<nat>)
    requires SameBelow(s, s', q)
    ensures NoneGone(s, p, q, gone) <==> NoneGone(s', p, q, gone)
  {
    forall r: nat | p <= r < q ensures SameKey(s, p, r) <==> SameKey(s', p, r) {
    }
  }

  // A caller that leads has found every earlier lookup of its key published, and expired unless
  // its entry was evicted.
  lemma NewLookupWaits(cfg: Config, s: State, s': State, c: nat, p: nat)
    requires Shape(cfg, s) && Rate(cfg, s) && s.At(c, Sampled) && !IsHit(s, c)
    requires s.callers[c].Key() !in s.pending && s' == Locked(s, c)
    requires p < |s.lookups| && SameKey(s', p, |s.lookups|)
    ensures Waited(cfg, s', p, |s.lookups|)
  {
    assert LookupOk(s, p);
    NoneGoneBelow(s, s', p, |s.lookups|, s.evicted);
  }

  lemma WaitedBelow(cfg: Config, s: State, s': State, p: nat, q: nat)
    requires SameBelow(s, s', q + 1) && p < q && SameKey(s', p, q) && Rate(cfg, s)
    ensures Waited(cfg, s', p, q)
  {
    assert SameKey(s, p, q);
    NoneGoneBelow(s, s', p, q, s.lookups[q].gone);
  }

  lemma RateLead(cfg: Config, s: State, s': State, c: nat)
    requires Shape(cfg, s) && Rate(cfg, s) && s.At(c, Sampled) && !IsHit(s, c)
    requires s.callers[c].Key() !in s.pending && s' == Locked(s, c)
    ensures Rate(cfg, s')
  {
    var n := |s.lookups|;
    forall p: nat, q: nat | p < q && SameKey(s', p, q) ensures Waited(cfg, s', p, q) {
      if q == n {
        NewLookupWaits(cfg, s, s', c, p);
      } else {
        WaitedBelow(cfg, s, s', p, q);
      }
    }
    forall p: nat | p < |s'.lookups| && Files(cfg, s'.lookups[p]) && NoneGone(s', p, n + 1, s'.evicted)
      ensures InForce(cfg, s', p)
    {
      assert NoneGone(s', p, n, s.evicted);
      NoneGoneBelow(s, s', p, n, s.evicted);
    }
  }

  // ----- steps that publish nothing -----

  // Such a step changes no lookup but in fields the rate does not read.
  ghost predicate PublishesNothing(s: State, s': State) {
    && |s'.lookups| == |s.lookups| && s'.entries == s.entries && s'.evicted == s.evicted
    && forall p | 0 <= p < |s.lookups| ::
         && s'.lookups[p].query == s.lookups[p].query && s'.lookups[p].sampled == s.lookups[p].sampled
         && s'.lookups[p].gone == s.lookups[p].gone
         && s'.lookups[p].phase.Published? == s.lookups[p].phase.Published?
         && (s.lookups[p].phase.Published? ==>
               s'.lookups[p].phase == s.lookups[p].phase && s'.lookups[p].answer == s.lookups[p].answer)
  }

  lemma SameKeys(s: State, s': State)
    requires |s'.lookups| == |s.lookups| && forall p | 0 <= p < |s.lookups| :: s'.lookups[p].query == s.lookups[p].query
    ensures forall p: nat, q: nat :: SameKey(s', p, q) <==> SameKey(s, p, q)
    ensures forall p: nat, q: nat, gone :: NoneGone(s', p, q, gone) <==> NoneGone(s, p, q, gone)
  {
    forall p: nat, q: nat ensures SameKey(s', p, q) <==> SameKey(s, p, q) {
    }
  }

  lemma RateUnchanged(cfg: Config, s: State, s': State)
    requires Rate(cfg, s) && PublishesNothing(s, s')
    ensures Rate(cfg, s')
  {
    SameKeys(s, s');
    forall p: nat, q: nat | p < q && SameKey(s', p, q) ensures Waited(cfg, s', p, q) {
      assert Waited(cfg, s, p, q);
    }
  }

  // ----- an answer is published -----

  lemma NewestOfItsKey(cfg: Config, s: State, r: nat, q: nat)
    requires Rate(cfg, s) && r < |s.lookups| && !s.lookups[r].phase.Published? && SameKey(s, r, q)
    ensures q <= r
  {
  }

  // Before eviction the entry of p's key does not expire before p's.
  lemma InForceBeforeEviction(cfg: Config, s: State, c: nat, at: int, p: nat)
    requires Shape(cfg, s) && Rate(cfg, s) && CanStore(s, c) && s.clock <= at
    requires p < |s.lookups| && Files(cfg, s.lookups[p]) && NoneGone(s, p, |s.lookups|, s.evicted)
    ensures var m, key := Inserted(cfg, s, c, at), s.lookups[p].Key();
      key in m && p <= m[key].origin && SameKey(s, p, m[key].origin) && Expiry(cfg, s.lookups[p]) <= m[key].expires
  {
    var r, key := s.callers[c].pc.p, s.lookups[p].Key();
    assert CallerOk(cfg, s, c) && LookupOk(s, r);
    if key == s.callers[c].Key() && Ttl(cfg, s.callers[c].pc.answer) > 0 {
      ExpiredBefore(cfg, s, p, r);
      NewEntryIsInForce(cfg, s, c, at);
    } else {
      assert InForce(cfg, s, p) && EntryOk(cfg, s, key);
    }
  }

  // A lookup under way began after the expiry of an earlier answer of its key.
  lemma ExpiredBefore(cfg: Config, s: State, p: nat, r: nat)
    requires Rate(cfg, s) && SameKey(s, p, r) && !s.lookups[r].phase.Published?
    requires Files(cfg, s.lookups[p]) && NoneGone(s, p, |s.lookups|, s.evicted)
    ensures p < r && Expiry(cfg, s.lookups[p]) <= s.lookups[r].sampled
  {
    NewestOfItsKey(cfg, s, r, p);
    assert Waited(cfg, s, p, r);
    assert NoneGone(s, p, r, s.lookups[r].gone);
  }

  // What is filed is the entry of its key.
  lemma NewEntryIsInForce(cfg: Config, s: State, c: nat, at: int)
    requires Shape(cfg, s) && CanStore(s, c) && Ttl(cfg, s.callers[c].pc.answer) > 0
    ensures var p, m := s.callers[c].pc.p, Inserted(cfg, s, c, at); var key := s.lookups[p].Key();
      key in m && m[key] == Entry(s.callers[c].pc.answer, at + Ttl(cfg, s.callers[c].pc.answer), p)
    ensures s.lookups[s.callers[c].pc.p].answer == s.callers[c].pc.answer
  {
    assert CallerOk(cfg, s, c) && LookupOk(s, s.callers[c].pc.p);
  }

  lemma InForceAfterStore(cfg: Config, s: State, s': State, c: nat, at: int, evictAt: int, after: Entries, p: nat)
    requires Shape(cfg, s) && Rate(cfg, s) && CanStore(s, c) && s.clock <= at <= evictAt
    requires s' == Stored(cfg, s, c, at, evictAt, after) && p < |s.lookups|
    requires forall k | k in after :: k in Inserted(cfg, s, c, at) && after[k] == Inserted(cfg, s, c, at)[k]
    requires Files(cfg, s'.lookups[p]) && NoneGone(s', p, |s.lookups|, s'.evicted)
    ensures InForce(cfg, s', p)
  {
    SameKeys(s, s');
    assert NoneGone(s, p, |s.lookups|, s'.evicted);
    if p == s.callers[c].pc.p {
      assert CallerOk(cfg, s, c);
      NewEntryIsInForce(cfg, s, c, at);
      assert SameKey(s, p, p);
    } else {
      InForceBeforeEviction(cfg, s, c, at, p);
    }
    NotEvicted(s, p, Inserted(cfg, s, c, at), after, s'.evicted);
  }

  lemma NotEvicted(s: State, p: nat, before: Entries, after: Entries, gone: set<nat>)
    requires p < |s.lookups| && NoneGone(s, p, |s.lookups|, gone) && Origins(before, after) <= gone
    requires var key := s.lookups[p].Key();
      key in before && p <= before[key].origin && SameKey(s, p, before[key].origin)
    ensures s.lookups[p].Key() in after
  {
    EvictedHasOrigin(before, after, s.lookups[p].Key());
  }

  lemma EvictedHasOrigin(before: Entries, after: Entries, key: Key)
    requires key in before
    ensures key !in after ==> before[key].origin in Origins(before, after)
  {
  }

  lemma RateStore(cfg: Config, s: State, s': State, c: nat, at: int, evictAt: int, after: Entries)
    requires Shape(cfg, s) && Rate(cfg, s) && CanStore(s, c) && s.clock <= at <= evictAt
    requires s' == Stored(cfg, s, c, at, evictAt, after)
    requires forall k | k in after :: k in Inserted(cfg, s, c, at) && after[k] == Inserted(cfg, s, c, at)[k]
    ensures Rate(cfg, s')
  {
    assert CallerOk(cfg, s, c);
    SameKeys(s, s');
    forall p: nat, q: nat | p < q && SameKey(s', p, q) ensures Waited(cfg, s', p, q) {
      WaitedAfterStore(cfg, s, s', c, at, evictAt, after, p, q);
    }
    forall p: nat | p < |s'.lookups| && Files(cfg, s'.lookups[p]) && NoneGone(s', p, |s'.lookups|, s'.evicted)
      ensures InForce(cfg, s', p)
    {
      InForceAfterStore(cfg, s, s', c, at, evictAt, after, p);
    }
  }

  lemma WaitedAfterStore(cfg: Config, s: State, s': State, c: nat, at: int, evictAt: int, after: Entries,
                         p: nat, q: nat)
    requires Rate(cfg, s) && CanStore(s, c) && CallerOk(cfg, s, c) && s' == Stored(cfg, s, c, at, evictAt, after)
    requires p < q && SameKey(s', p, q)
    ensures Waited(cfg, s', p, q)
  {
    SameKeys(s, s');
    assert Waited(cfg, s, p, q);
  }

  // ----- runs -----

  lemma RateLock(cfg: Config, s: State, s': State, c: nat)
    requires Shape(cfg, s) && Rate(cfg, s) && NextStep(cfg, s, s', Lock(c))
    ensures Rate(cfg, s')
  {
    if !IsHit(s, c) && s.callers[c].Key() !in s.pending {
      RateLead(cfg, s, s', c);
    } else {
      RateUnchanged(cfg, s, s');
    }
  }

  lemma RatePublish(cfg: Config, s: State, s': State, step: Step)
    requires Shape(cfg, s) && Rate(cfg, s) && NextStep(cfg, s, s', step)
    requires step.WriteFields? || step.CloseDone?
    ensures Rate(cfg, s')
  {
    assert CallerOk(cfg, s, step.c);
    RateUnchanged(cfg, s, s');
  }

  lemma RateStep(cfg: Config, s: State, s': State, step: Step)
    requires Shape(cfg, s) && Rate(cfg, s) && NextStep(cfg, s, s', step)
    ensures Rate(cfg, s')
  {
    match step {
      case Lock(c) => RateLock(cfg, s, s', c);
      case Store(c, at, evictAt, after) =>
        LeavesSome(cfg, s, c, at, evictAt, after);
        RateStore(cfg, s, s', c, at, evictAt, after);
      case WriteFields(_) => RatePublish(cfg, s, s', step);
      case CloseDone(_) => RatePublish(cfg, s, s', step);
      case _ => RateUnchanged(cfg, s, s');
    }
  }

  lemma {:induction false} RunRate(cfg: Config, run: seq<State>, i: nat)
    requires Run(cfg, run) && i < |run|
    ensures Rate(cfg, run[i])
  {
    if i == 0 {
      InitRate(cfg, run[0]);
    } else {
      RunRate(cfg, run, i - 1);
      RunShape(cfg, run, i - 1);
      var step := StepAt(cfg, run, i - 1);
      RateStep(cfg, run[i - 1], run[i], step);
    }
  }

  /** `evicted` grows in the publishing region only, by exactly the lookups whose entry was there when
      it had filed its answer and is not there at its end. */
  lemma EvictedIff(cfg: Config, s: State, s': State, step: Step, p: nat)
    requires NextStep(cfg, s, s', step)
    ensures p in s'.evicted <==> p in s.evicted || (step.Store? && JustEvicted(cfg, s, s', step, p))
  {
    if step.Store? {
      assert s'.evicted == s.evicted + Origins(Inserted(cfg, s, step.c, step.at), s'.entries);
    }
  }

  ghost predicate JustEvicted(cfg: Config, s: State, s': State, step: Step, p: nat)
    requires step.Store? && CanStore(s, step.c)
  {
    var before := Inserted(cfg, s, step.c, step.at);
    exists k :: k in before && k !in s'.entries && before[k].origin == p
  }

  /** `gone` is what had been evicted when the lookup began. */
  lemma {:induction false} GoneWhenBegun(cfg: Config, run: seq<State>, i: nat, q: nat) returns (j: nat)
    requires Run(cfg, run) && i < |run| && q < |run[i].lookups|
    ensures j < i && |run[j].lookups| == q && run[i].lookups[q].gone == run[j].evicted
    ensures q < |run[j + 1].lookups|
  {
    var step := GoneStep(cfg, run, i, q);
    if q < |run[i - 1].lookups| {
      j := GoneWhenBegun(cfg, run, i - 1, q);
    } else {
      j := i - 1;
    }
  }

  // A lookup that is there after a step was there before it, or has just begun.
  lemma GoneStep(cfg: Config, run: seq<State>, i: nat, q: nat) returns (step: Step)
    requires Run(cfg, run) && i < |run| && q < |run[i].lookups|
    ensures i > 0 && NextStep(cfg, run[i - 1], run[i], step)
    ensures var s, s' := run[i - 1], run[i];
      if q < |s.lookups| then s'.lookups[q].gone == s.lookups[q].gone
      else |s.lookups| == q && s'.lookups[q].gone == s.evicted
  {
    var before := run[i - 1];
    RunShape(cfg, run, i - 1);
    step := StepAt(cfg, run, i - 1);
    StepGrows(cfg, before, run[i], step);
    if q < |before.lookups| {
      assert LookupGrows(before.lookups[q], run[i].lookups[q]);
    } else {
      NewLookupRecords(cfg, before, run[i], step, q);
    }
  }

  lemma NewLookupRecords(cfg: Config, s: State, s': State, step: Step, q: nat)
    requires NextStep(cfg, s, s', step) && |s.lookups| <= q < |s'.lookups|
    ensures |s.lookups| == q && s'.lookups[q].gone == s.evicted
  {
  }

  /** The lookup rate: unless eviction took an entry that p or a lookup after it had filed, the
      leader of a later lookup q of the same key has sampled the clock at or after the expiry of p's
      answer, no matter how long before it took the mutex. */
  lemma LookupsWaitForExpiry(cfg: Config, run: seq<State>, i: nat, p: nat, q: nat)
    requires Run(cfg, run) && i < |run| && p < q && SameKey(run[i], p, q)
    ensures var s := run[i];
      && s.lookups[p].phase.Published?
      && (Ttl(cfg, s.lookups[p].answer) > 0 && NoneGone(s, p, q, s.lookups[q].gone) ==>
            Expiry(cfg, s.lookups[p]) <= s.lookups[q].sampled)
  {
    RunRate(cfg, run, i);
    assert Waited(cfg, run[i], p, q);
  }

  /** For the next lookup of a key it is the entry of the one before that counts, whatever was
      evicted earlier. */
  lemma NextLookupWaitsForExpiry(cfg: Config, run: seq<State>, i: nat, p: nat, q: nat)
    requires Run(cfg, run) && i < |run| && p < q && SameKey(run[i], p, q)
    requires forall r: nat | p < r < q :: !SameKey(run[i], p, r)
    ensures var s := run[i];
      Files(cfg, s.lookups[p]) && p !in s.lookups[q].gone ==> Expiry(cfg, s.lookups[p]) <= s.lookups[q].sampled
  {
    LookupsWaitForExpiry(cfg, run, i, p, q);
  }

  /** Hence, with positive TTLs, such lookups start at least a TTL apart. */
  lemma LookupsAreATtlApart(cfg: Config, run: seq<State>, i: nat, p: nat, q: nat)
    requires Run(cfg, run) && i < |run| && p < q && SameKey(run[i], p, q)
    requires NoneGone(run[i], p, q, run[i].lookups[q].gone) && cfg.posTTL > 0 && cfg.negTTL > 0
    ensures run[i].lookups[p].sampled + (if cfg.posTTL < cfg.negTTL then cfg.posTTL else cfg.negTTL)
         <= run[i].lookups[q].sampled
  {
    LookupsWaitForExpiry(cfg, run, i, p, q);
    RunShape(cfg, run, i);
    assert LookupOk(run[i], p);
  }

  // ----- a run in which the next lookup does not wait -----

  ghost predicate Path(cfg: Config, path: seq<State>) {
    path != [] && forall i | 0 <= i < |path| - 1 :: Next(cfg, path[i], path[i + 1])
  }

  lemma Extend(cfg: Config, path: seq<State>, s: State, step: Step) returns (longer: seq<State>)
    requires Path(cfg, path) && NextStep(cfg, path[|path| - 1], s, step)
    ensures Path(cfg, longer) && longer[0] == path[0] && longer[|longer| - 1] == s
  {
    longer := path + [s];
    assert Next(cfg, path[|path| - 1], s);
    forall i | 0 <= i < |longer| - 1 ensures Next(cfg, longer[i], longer[i + 1]) {
      if i < |path| - 1 {
        assert Next(cfg, path[i], path[i + 1]);
      }
    }
  }

  // Caller c leading alone: after the inner resolver returned, after closing `done`, and at the end.

  function NewLookup(s: State, c: nat, answer: Answer, phase: Phase, closes: nat): Lookup
    requires c < |s.callers|
  {
    Lookup(s.callers[c].query, c, s.callers[c].sampled, s.evicted, answer, None, phase, closes)
  }

  function AfterInner(s: State, c: nat, answer: Answer): State
    requires c < |s.callers|
  {
    s.Move(c, Answered(|s.lookups|, answer)).(
      pending := s.pending[s.callers[c].Key() := |s.lookups|],
      lookups := s.lookups + [NewLookup(s, c, Answer([], None), Running, 0)],
      inner := s.inner + {Inner(s.callers[c].query, answer)})
  }

  function AfterClose(s: State, c: nat, answer: Answer): State
    requires c < |s.callers|
  {
    s.Move(c, Storing(|s.lookups|, answer)).(
      holder := Some(c),
      pending := s.pending[s.callers[c].Key() := |s.lookups|],
      lookups := s.lookups + [NewLookup(s, c, answer, Closed, 1)],
      inner := s.inner + {Inner(s.callers[c].query, answer)})
  }

  function AfterLookup(s: State, c: nat, answer: Answer, before: Entries, after: Entries): State
    requires c < |s.callers|
  {
    s.Move(c, Finished(answer, Led(|s.lookups|))).(
      lookups := s.lookups + [NewLookup(s, c, answer, Published(s.clock), 1)],
      inner := s.inner + {Inner(s.callers[c].query, answer)},
      entries := after, evicted := s.evicted + Origins(before, after))
  }

  predicate CanLead(s: State, c: nat) {
    && s.At(c, Sampled) && s.holder == None && !s.panicked
    && !IsHit(s, c) && s.callers[c].Key() !in s.pending
  }

  lemma LockAndAsk(cfg: Config, path: seq<State>, c: nat, answer: Answer) returns (longer: seq<State>)
    requires Path(cfg, path) && CanLead(path[|path| - 1], c)
    ensures Path(cfg, longer) && longer[0] == path[0]
    ensures longer[|longer| - 1] == AfterInner(path[|path| - 1], c, answer)
  {
    var s := path[|path| - 1];
    var locked := Locked(s, c);
    longer := Extend(cfg, path, locked, Lock(c));
    longer := Extend(cfg, longer, AfterInner(s, c, answer), InnerReturns(c, answer));
  }

  lemma WriteAndClose(cfg: Config, path: seq<State>, s: State, c: nat, answer: Answer) returns (longer: seq<State>)
    requires Path(cfg, path) && CanLead(s, c) && path[|path| - 1] == AfterInner(s, c, answer)
    ensures Path(cfg, longer) && longer[0] == path[0]
    ensures longer[|longer| - 1] == AfterClose(s, c, answer)
  {
    var p, asked := |s.lookups|, AfterInner(s, c, answer);
    var written := asked.Move(c, Writing(p, answer)).(
      holder := Some(c), lookups := s.lookups + [NewLookup(s, c, answer, Written, 0)]);
    assert written.lookups == asked.lookups[p := asked.lookups[p].(answer := answer, phase := Written)];
    longer := Extend(cfg, path, written, WriteFields(c));
    var closed := AfterClose(s, c, answer);
    assert closed.lookups == written.lookups[p := written.lookups[p].(phase := Closed, closes := 1)];
    longer := Extend(cfg, longer, closed, CloseDone(c));
  }

  lemma StoreAtOnce(cfg: Config, path: seq<State>, s: State, c: nat, answer: Answer, before: Entries, after: Entries)
    returns (longer: seq<State>)
    requires Path(cfg, path) && CanLead(s, c) && path[|path| - 1] == AfterClose(s, c, answer)
    requires Ttl(cfg, answer) > 0 && Evicts(cfg.maxSize, before, s.clock, after)
    requires before == s.entries[s.callers[c].Key() := Entry(answer, s.clock + Ttl(cfg, answer), |s.lookups|)]
    ensures Path(cfg, longer) && longer[0] == path[0]
    ensures longer[|longer| - 1] == AfterLookup(s, c, answer, before, after)
  {
    StoredIsAfterLookup(cfg, s, c, answer, before, after);
    longer := Extend(cfg, path, AfterLookup(s, c, answer, before, after), Store(c, s.clock, s.clock, after));
  }

  lemma StoredIsAfterLookup(cfg: Config, s: State, c: nat, answer: Answer, before: Entries, after: Entries)
    requires CanLead(s, c) && Ttl(cfg, answer) > 0
    requires before == s.entries[s.callers[c].Key() := Entry(answer, s.clock + Ttl(cfg, answer), |s.lookups|)]
    ensures var closed := AfterClose(s, c, answer);
      && CanStore(closed, c) && Inserted(cfg, closed, c, s.clock) == before
      && AfterLookup(s, c, answer, before, after) == Stored(cfg, closed, c, s.clock, s.clock, after)
  {
    var closed, end := AfterClose(s, c, answer), AfterLookup(s, c, answer, before, after);
    assert end.pending == closed.pending - {s.callers[c].Key()};
    assert end.lookups == closed.lookups[|s.lookups| := closed.lookups[|s.lookups|].(phase := Published(s.clock))];
    assert end.callers == closed.callers[c := closed.callers[c].(pc := Finished(answer, Led(|s.lookups|)))];
  }

  /** A sampled caller whose key is neither stored nor pending can lead a whole lookup alone. */
  lemma WholeLookup(cfg: Config, path: seq<State>, c: nat, answer: Answer, before: Entries, after: Entries)
    returns (longer: seq<State>)
    requires Path(cfg, path) && CanLead(path[|path| - 1], c)
    requires var s := path[|path| - 1];
      && Ttl(cfg, answer) > 0 && Evicts(cfg.maxSize, before, s.clock, after)
      && before == s.entries[s.callers[c].Key() := Entry(answer, s.clock + Ttl(cfg, answer), |s.lookups|)]
    ensures Path(cfg, longer) && longer[0] == path[0]
    ensures longer[|longer| - 1] == AfterLookup(path[|path| - 1], c, answer, before, after)
  {
    var s := path[|path| - 1];
    longer := LockAndAsk(cfg, path, c, answer);
    longer := WriteAndClose(cfg, longer, s, c, answer);
    longer := StoreAtOnce(cfg, longer, s, c, answer, before, after);
  }

  const SMALL := Config(5, 5, 1)
  const HOST_A := Query([0x61], [])
  const HOST_B := Query([0x62], [])
  const NOTHING := Answer([], None)
  const BEGIN: State := State(
    0, None, map[], map[], [],
    [Caller(HOST_A, Idle, 0, false), Caller(HOST_A, Idle, 0, false), Caller(HOST_B, Idle, 0, false)],
    {}, {}, false)

  function Sampling(s: State, c: nat): State
    requires c < |s.callers|
  {
    s.(callers := s.callers[c := s.callers[c].(pc := Sampled, sampled := s.clock)])
  }

  const ENTRY_A := Entry(NOTHING, 5, 0)
  const ENTRY_B := Entry(NOTHING, 15, 1)

  // Callers 0 and 1 sample the clock at 0; caller 0 looks its key up, and its entry expires at 5.
  lemma FirstLookup() returns (path: seq<State>, s: State)
    ensures Path(SMALL, path) && path[0] == BEGIN && path[|path| - 1] == s
    ensures s.clock == 0 && s.holder == None && s.pending == map[] && !s.panicked && s.evicted == {}
    ensures s.entries == map[KeyOf(HOST_A) := ENTRY_A]
    ensures s.lookups == [Lookup(HOST_A, 0, 0, {}, NOTHING, None, Published(0), 1)]
    ensures |s.callers| == 3 && s.callers[1] == Caller(HOST_A, Sampled, 0, false)
    ensures s.callers[2] == Caller(HOST_B, Idle, 0, false)
  {
    path := [BEGIN];
    path := Extend(SMALL, path, Sampling(BEGIN, 1), Sample(1));
    var sampled := Sampling(Sampling(BEGIN, 1), 0);
    path := Extend(SMALL, path, sampled, Sample(0));
    var after := map[KeyOf(HOST_A) := ENTRY_A];
    assert after == sampled.entries[KeyOf(HOST_A) := ENTRY_A];
    path := WholeLookup(SMALL, path, 0, NOTHING, after, after);
    s := AfterLookup(sampled, 0, NOTHING, after, after);
    assert Origins(after, after) == {};
  }

  // At 10 caller 2 looks up another key; the entry that expired at 5 is swept out.
  lemma SecondLookup(path: seq<State>, s: State) returns (longer: seq<State>, t: State)
    requires Path(SMALL, path) && path[0] == BEGIN && path[|path| - 1] == s
    requires s.clock == 0 && s.holder == None && s.pending == map[] && !s.panicked && s.evicted == {}
    requires s.entries == map[KeyOf(HOST_A) := ENTRY_A]
    requires |s.lookups| == 1 && |s.callers| == 3 && s.callers[1] == Caller(HOST_A, Sampled, 0, false)
    requires s.callers[2] == Caller(HOST_B, Idle, 0, false)
    ensures Path(SMALL, longer) && longer[0] == BEGIN && longer[|longer| - 1] == t
    ensures CanLead(t, 1) && t.evicted == {0} && |t.lookups| == 2 && t.lookups[0] == s.lookups[0]
    ensures t.lookups[1].query == HOST_B
    ensures t.callers[1] == s.callers[1]
  {
    var later := s.(clock := 10);
    longer := Extend(SMALL, path, later, Tick(10));
    var sampled := Sampling(later, 2);
    longer := Extend(SMALL, longer, sampled, Sample(2));
    var before, after := s.entries[KeyOf(HOST_B) := ENTRY_B], map[KeyOf(HOST_B) := ENTRY_B];
    Sweep(before, after);
    longer := WholeLookup(SMALL, longer, 2, NOTHING, before, after);
    t := AfterLookup(sampled, 2, NOTHING, before, after);
  }

  lemma Sweep(before: Entries, after: Entries)
    requires before == map[KeyOf(HOST_A) := ENTRY_A, KeyOf(HOST_B) := ENTRY_B]
    requires after == map[KeyOf(HOST_B) := ENTRY_B]
    ensures KeyOf(HOST_A) != KeyOf(HOST_B) && Evicts(1, before, 10, after) && Origins(before, after) == {0}
  {
    assert KeyOf(HOST_A)[0] == 0x61 && KeyOf(HOST_B)[0] == 0x62;
    assert before.Keys == {KeyOf(HOST_A), KeyOf(HOST_B)} && |before| == |before.Keys| == 2;
    assert Live(before, 10) == after && |after| == |after.Keys| == 1;
    assert KeyOf(HOST_A) in before && KeyOf(HOST_A) !in after;
  }

  /** Without the hypothesis the rate does not hold: a caller samples the clock, an answer for its
      key is filed, expires, and is swept out by another key's lookup; then the caller takes the
      mutex and leads, with a sample from before the expiry. */
  lemma SweepLetsEarlySamplerLead() returns (run: seq<State>)
    ensures Run(SMALL, run)
    ensures var s := run[|run| - 1];
      && |s.lookups| == 3 && SameKey(s, 0, 2) && !SameKey(s, 0, 1)
      && Files(SMALL, s.lookups[0]) && s.lookups[2].gone == {0}
      && Expiry(SMALL, s.lookups[0]) > s.lookups[2].sampled
  {
    var first, s := FirstLookup();
    var second, t := SecondLookup(first, s);
    run := Extend(SMALL, second, Locked(t, 1), Lock(1));
    assert KeyOf(HOST_A)[0] == 0x61 && KeyOf(HOST_B)[0] == 0x62;
  }
}
