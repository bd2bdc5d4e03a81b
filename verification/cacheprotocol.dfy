/** The coalescing cache as a step system: any number of callers, one mutex, a clock, and an
    inner resolver that may return anything.  Each region under the mutex is one step, except
    that the publishing region is three, because waiters watch `done` without the mutex. */
module CacheProtocol {
  import opened Options
  import opened NetAddr
  import opened CacheKeys

  type Error = string
  type Key = seq<Byte>

  datatype Answer = Answer(addrs: seq<IPAddr>, err: Option<Error>)

  // What a hit or a waiter gets: with an error, no addresses.
  function Served(a: Answer): Answer {
    if a.err.Some? then Answer([], a.err) else a
  }

  const CTX_ERROR: Answer := Answer([], Some("context done"))

  datatype Config = Config(posTTL: int, negTTL: int, maxSize: nat)

  function Ttl(cfg: Config, a: Answer): int {
    if a.err.Some? || a.addrs == [] then cfg.negTTL else cfg.posTTL
  }

  /** `origin` is history: the lookup that made the entry. */
  datatype Entry = Entry(answer: Answer, expires: int, origin: nat)

  type Entries = map<Key, Entry>

  // ----- eviction -----

  function Live(m: Entries, now: int): Entries {
    map k | k in m && m[k].expires > now :: m[k]
  }

  /** evictLocked: nothing within the limit; else the live entries, and if they are still too
      many, any maxSize of them. */
  ghost predicate Evicts(maxSize: nat, before: Entries, now: int, after: Entries) {
    if |before| <= maxSize then after == before
    else if |Live(before, now)| <= maxSize then after == Live(before, now)
    else |after| == maxSize && forall k | k in after :: k in Live(before, now) && after[k] == before[k]
  }

  // ----- states -----

  datatype Phase = Running | Written | Closed | Published(at: int)

  /** One pendingLookup object.  `answer` is what was published; `overwritten` is what the slice of
      addresses holds instead, once the leader's caller, who has the same slice, has written to it.
      Query, leader, the leader's clock sample, and `gone`, which lookups' entries had been evicted
      when it was made, are history. */
  datatype Lookup = Lookup(query: Query, leader: nat, sampled: int, gone: set<nat>,
                           answer: Answer, overwritten: Option<seq<IPAddr>>, phase: Phase, closes: nat)
  {
    // What a waiter finds.
    function Found(): Answer {
      if overwritten.Some? then Answer(overwritten.value, answer.err) else answer
    }

    function Key(): Key {
      KeyOf(query)
    }

    predicate Done() {
      phase.Closed? || phase.Published?
    }
  }

  datatype Via = Hit(origin: nat) | Joined(p: nat) | Led(p: nat) | OwnContext

  datatype Pc =
    | Idle
    | Sampled
    | Waiting(p: nat)
    | Leading(p: nat)
    | Answered(p: nat, answer: Answer)
    | Writing(p: nat, answer: Answer)
    | Storing(p: nat, answer: Answer)
    | Finished(result: Answer, via: Via)

  datatype Caller = Caller(query: Query, pc: Pc, sampled: int, ctxDone: bool) {
    function Key(): Key {
      KeyOf(query)
    }
  }

  datatype Inner = Inner(query: Query, answer: Answer)

  /** `inner` records what the inner resolver returned for which query, `evicted` the lookups whose
      entries eviction removed, `panicked` a second close of a channel. */
  datatype State = State(
    clock: int, holder: Option<nat>, entries: Entries, pending: map<Key, nat>,
    lookups: seq<Lookup>, callers: seq<Caller>,
    inner: set<Inner>, evicted: set<nat>, panicked: bool)
  {
    predicate At(c: nat, pc: Pc) {
      c < |callers| && callers[c].pc == pc
    }

    function Move(c: nat, pc: Pc): State
      requires c < |callers|
    {
      this.(callers := callers[c := callers[c].(pc := pc)])
    }

    function WithPhase(p: nat, phase: Phase): State
      requires p < |lookups|
    {
      this.(lookups := lookups[p := lookups[p].(phase := phase)])
    }
  }

  predicate Init(s: State) {
    && s.holder == None && s.entries == map[] && s.pending == map[] && s.lookups == []
    && s.inner == {} && s.evicted == {} && !s.panicked
    && forall c | 0 <= c < |s.callers| :: s.callers[c].pc == Idle
  }

  datatype Step =
    | Tick(to: int)
    | CtxDone(c: nat)
    | Sample(c: nat)
    | Lock(c: nat)
    | InnerReturns(c: nat, answer: Answer)
    | WriteFields(c: nat)
    | CloseDone(c: nat)
    | Store(c: nat, at: int, evictAt: int, after: Entries)
    | Wake(c: nat)
    | GiveUp(c: nat)
    | Overwrite(c: nat, addrs: seq<IPAddr>)

  predicate IsHit(s: State, c: nat)
    requires c < |s.callers|
  {
    var key := s.callers[c].Key();
    key in s.entries && s.entries[key].expires > s.callers[c].sampled
  }

  /** The first region under the mutex: hit, join or lead. */
  function Locked(s: State, c: nat): State
    requires c < |s.callers|
  {
    var caller := s.callers[c];
    var key := caller.Key();
    if IsHit(s, c) then
      s.Move(c, Finished(Served(s.entries[key].answer), Hit(s.entries[key].origin)))
    else if key in s.pending then
      s.Move(c, Waiting(s.pending[key]))
    else
      var p := |s.lookups|;
      s.Move(c, Leading(p)).(
        pending := s.pending[key := p],
        lookups := s.lookups + [Lookup(caller.query, c, caller.sampled, s.evicted, Answer([], None), None, Running, 0)])
  }

  predicate CanStore(s: State, c: nat) {
    c < |s.callers| && s.callers[c].pc.Storing? && s.callers[c].pc.p < |s.lookups|
  }

  // The entries before eviction: the answer is filed when its TTL is positive.
  function Inserted(cfg: Config, s: State, c: nat, at: int): Entries
    requires CanStore(s, c)
  {
    var Storing(p, answer) := s.callers[c].pc;
    var ttl := Ttl(cfg, answer);
    if ttl > 0 then s.entries[s.callers[c].Key() := Entry(answer, at + ttl, p)] else s.entries
  }

  // The lookups whose entries are no longer there.
  function Origins(before: Entries, after: Entries): set<nat> {
    set k | k in before && k !in after :: before[k].origin
  }

  function Stored(cfg: Config, s: State, c: nat, at: int, evictAt: int, after: Entries): State
    requires CanStore(s, c)
  {
    var Storing(p, answer) := s.callers[c].pc;
    s.Move(c, Finished(answer, Led(p))).WithPhase(p, Published(at)).(
      clock := evictAt, holder := None, pending := s.pending - {s.callers[c].Key()},
      entries := after, evicted := s.evicted + Origins(Inserted(cfg, s, c, at), after))
  }

  // What the publishing region leaves in the cache; nothing is evicted unless something was filed.
  ghost predicate Leaves(cfg: Config, s: State, c: nat, at: int, evictAt: int, after: Entries)
    requires CanStore(s, c)
  {
    if Ttl(cfg, s.callers[c].pc.answer) > 0
    then Evicts(cfg.maxSize, Inserted(cfg, s, c, at), evictAt, after)
    else after == s.entries
  }

  // Caller c has led a lookup and returned its slice.
  predicate HasReturned(s: State, c: nat) {
    && c < |s.callers| && s.callers[c].pc.Finished? && s.callers[c].pc.via.Led?
    && s.callers[c].pc.via.p < |s.lookups|
  }

  ghost predicate NextStep(cfg: Config, s: State, s': State, step: Step) {
    match step
    case Tick(to) => s.clock < to && s' == s.(clock := to)
    case CtxDone(c) =>
      c < |s.callers| && s' == s.(callers := s.callers[c := s.callers[c].(ctxDone := true)])
    case Sample(c) =>
      && s.At(c, Idle)
      && s' == s.(callers := s.callers[c := s.callers[c].(pc := Sampled, sampled := s.clock)])
    case Lock(c) => s.At(c, Sampled) && s.holder == None && s' == Locked(s, c)
    case InnerReturns(c, answer) =>
      && c < |s.callers| && s.callers[c].pc.Leading?
      && s' == s.Move(c, Answered(s.callers[c].pc.p, answer)).(inner := s.inner + {Inner(s.callers[c].query, answer)})
    case WriteFields(c) =>
      && c < |s.callers| && s.callers[c].pc.Answered? && s.callers[c].pc.p < |s.lookups| && s.holder == None
      && var Answered(p, answer) := s.callers[c].pc;
         s' == s.Move(c, Writing(p, answer)).(
           holder := Some(c),
           lookups := s.lookups[p := s.lookups[p].(answer := answer, phase := Written)])
    case CloseDone(c) =>
      && c < |s.callers| && s.callers[c].pc.Writing? && s.callers[c].pc.p < |s.lookups|
      && var Writing(p, answer) := s.callers[c].pc;
         s' == s.Move(c, Storing(p, answer)).(
           lookups := s.lookups[p := s.lookups[p].(phase := Closed, closes := s.lookups[p].closes + 1)],
           panicked := s.panicked || s.lookups[p].Done())
    case Store(c, at, evictAt, after) =>
      && CanStore(s, c) && s.clock <= at <= evictAt
      && Leaves(cfg, s, c, at, evictAt, after)
      && s' == Stored(cfg, s, c, at, evictAt, after)
    case Wake(c) =>
      && c < |s.callers| && s.callers[c].pc.Waiting? && s.callers[c].pc.p < |s.lookups|
      && var p := s.callers[c].pc.p;
         s.lookups[p].Done() && s' == s.Move(c, Finished(Served(s.lookups[p].Found()), Joined(p)))
    case GiveUp(c) =>
      && c < |s.callers| && s.callers[c].pc.Waiting? && s.callers[c].ctxDone
      && s' == s.Move(c, Finished(CTX_ERROR, OwnContext))
    case Overwrite(c, addrs) =>
      // by the one to whom the leader has returned
      && HasReturned(s, c) && var p := s.callers[c].pc.via.p;
         |addrs| == |s.lookups[p].answer.addrs|
         && s' == s.(lookups := s.lookups[p := s.lookups[p].(overwritten := Some(addrs))])
  }

  ghost predicate Next(cfg: Config, s: State, s': State) {
    exists step :: NextStep(cfg, s, s', step)
  }

  ghost predicate Run(cfg: Config, run: seq<State>) {
    && run != [] && Init(run[0])
    && forall i | 0 <= i < |run| - 1 :: Next(cfg, run[i], run[i + 1])
  }

  // ----- invariants -----

  // The phase of the lookup a leader holds, by where the leader stands.
  predicate HoldsAt(pc: Pc, p: nat, phase: Phase) {
    match pc
    case Leading(q) => q == p && phase == Running
    case Answered(q, _) => q == p && phase == Running
    case Writing(q, _) => q == p && phase == Written
    case Storing(q, _) => q == p && phase == Closed
    case _ => false
  }

  ghost predicate LookupOk(s: State, p: nat)
    requires p < |s.lookups|
  {
    var l := s.lookups[p];
    && l.leader < |s.callers| && !s.callers[l.leader].pc.Idle?
    && l.query == s.callers[l.leader].query && l.sampled == s.callers[l.leader].sampled
    && l.sampled <= s.clock
    && l.closes == (if l.Done() then 1 else 0)
    && (l.phase.Published? ==> l.sampled <= l.phase.at <= s.clock)
    && (!l.phase.Published? ==>
          l.Key() in s.pending && s.pending[l.Key()] == p && HoldsAt(s.callers[l.leader].pc, p, l.phase))
    && (l.phase != Running ==> Inner(l.query, l.answer) in s.inner)
    && (l.overwritten.Some? ==> l.phase.Published? && |l.overwritten.value| == |l.answer.addrs|)
  }

  // What a waiter gets: what was published, or as many addresses that were written over it.
  predicate FromLookup(result: Answer, l: Lookup) {
    || result == Served(l.answer)
    || (l.overwritten.Some? && l.answer.err.None? && result.err.None? && |result.addrs| == |l.answer.addrs|)
  }

  ghost predicate ResultOk(cfg: Config, s: State, c: nat, result: Answer, via: Via)
    requires c < |s.callers|
  {
    match via
    case Hit(p) =>
      && p < |s.lookups| && s.lookups[p].phase.Published? && s.lookups[p].Key() == s.callers[c].Key()
      && result == Served(s.lookups[p].answer)
      && s.callers[c].sampled < s.lookups[p].phase.at + Ttl(cfg, s.lookups[p].answer)
    case Joined(p) =>
      && p < |s.lookups| && s.lookups[p].Done() && s.lookups[p].Key() == s.callers[c].Key()
      && FromLookup(result, s.lookups[p])
    case Led(p) =>
      && p < |s.lookups| && s.lookups[p].phase.Published? && s.lookups[p].leader == c
      && result == s.lookups[p].answer
    case OwnContext => s.callers[c].ctxDone && result == CTX_ERROR
  }

  ghost predicate CallerOk(cfg: Config, s: State, c: nat)
    requires c < |s.callers|
  {
    var caller := s.callers[c];
    && (!caller.pc.Idle? ==> caller.sampled <= s.clock)
    && match caller.pc
       case Idle => true
       case Sampled => true
       case Waiting(p) => p < |s.lookups| && s.lookups[p].Key() == caller.Key()
       case Leading(p) => p < |s.lookups| && s.lookups[p].leader == c && s.lookups[p].phase == Running
       case Answered(p, answer) =>
         && p < |s.lookups| && s.lookups[p].leader == c && s.lookups[p].phase == Running
         && Inner(caller.query, answer) in s.inner
       case Writing(p, answer) =>
         p < |s.lookups| && s.lookups[p].leader == c && s.lookups[p].phase == Written && s.lookups[p].answer == answer
       case Storing(p, answer) =>
         p < |s.lookups| && s.lookups[p].leader == c && s.lookups[p].phase == Closed && s.lookups[p].answer == answer
       case Finished(result, via) => ResultOk(cfg, s, c, result, via)
  }

  ghost predicate EntryOk(cfg: Config, s: State, k: Key)
    requires k in s.entries
  {
    var e := s.entries[k];
    && e.origin < |s.lookups| && s.lookups[e.origin].phase.Published? && s.lookups[e.origin].Key() == k
    && e.answer == s.lookups[e.origin].answer && Ttl(cfg, e.answer) > 0
    && e.expires == s.lookups[e.origin].phase.at + Ttl(cfg, e.answer)
  }

  // A pending key leads to a lookup of that key that is not published yet.
  ghost predicate PendingOk(s: State) {
    forall k | k in s.pending ::
      s.pending[k] < |s.lookups| && s.lookups[s.pending[k]].Key() == k && !s.lookups[s.pending[k]].phase.Published?
  }

  // Who publishes holds the mutex.
  ghost predicate MutexOk(s: State) {
    && (forall c | 0 <= c < |s.callers| ::
          (s.callers[c].pc.Writing? || s.callers[c].pc.Storing?) <==> s.holder == Some(c))
    && (s.holder.Some? ==> s.holder.value < |s.callers|)
  }

  ghost predicate LookupsOk(s: State) {
    forall p | 0 <= p < |s.lookups| :: LookupOk(s, p)
  }

  ghost predicate CallersOk(cfg: Config, s: State) {
    forall c | 0 <= c < |s.callers| :: CallerOk(cfg, s, c)
  }

  ghost predicate EntriesOk(cfg: Config, s: State) {
    forall k | k in s.entries :: EntryOk(cfg, s, k)
  }

  ghost predicate Shape(cfg: Config, s: State) {
    && LookupsOk(s) && CallersOk(cfg, s) && EntriesOk(cfg, s)
    && PendingOk(s) && MutexOk(s)
    && |s.entries| <= cfg.maxSize
    && !s.panicked
  }

  // ----- what only grows -----

  ghost predicate LookupGrows(l: Lookup, l': Lookup) {
    && l'.query == l.query && l'.leader == l.leader && l'.sampled == l.sampled && l'.gone == l.gone
    && (l.Done() ==> l'.Done() && l'.answer == l.answer)
    && (l.phase.Published? ==> l' == l.(overwritten := l'.overwritten))
    && (l.overwritten.Some? ==> l'.overwritten.Some?)
  }

  ghost predicate CallerGrows(c: Caller, c': Caller) {
    && c'.query == c.query && (c.ctxDone ==> c'.ctxDone)
    && (!c.pc.Idle? ==> !c'.pc.Idle? && c'.sampled == c.sampled)
    && (c.pc.Finished? ==> c'.pc == c.pc)
  }

  /** From one state to a later one: clocks advance, lookups are added and never lose what they
      have published, and the fields of a closed lookup are final. */
  ghost predicate Grows(s: State, s': State) {
    && s.clock <= s'.clock && s.inner <= s'.inner && s.evicted <= s'.evicted
    && |s'.callers| == |s.callers| && |s.lookups| <= |s'.lookups|
    && (forall p | 0 <= p < |s.lookups| :: LookupGrows(s.lookups[p], s'.lookups[p]))
    && (forall c | 0 <= c < |s.callers| :: CallerGrows(s.callers[c], s'.callers[c]))
  }

  lemma {:induction false} StepGrows(cfg: Config, s: State, s': State, step: Step)
    requires Shape(cfg, s) && NextStep(cfg, s, s', step)
    ensures Grows(s, s')
  {
    match step {
      case Store(c, at, evictAt, after) => StoreGrows(cfg, s, s', c, at, evictAt, after);
      case WriteFields(c) => WriteGrows(cfg, s, s', c);
      case CloseDone(c) => CloseGrows(cfg, s, s', c);
      case Overwrite(_, _) => OverwriteGrows(cfg, s, s', step);
      case _ => SmallStepGrows(cfg, s, s', step);
    }
  }

  lemma StoreGrows(cfg: Config, s: State, s': State, c: nat, at: int, evictAt: int, after: Entries)
    requires Shape(cfg, s) && CanStore(s, c) && s.clock <= at <= evictAt
    requires s' == Stored(cfg, s, c, at, evictAt, after)
    ensures Grows(s, s')
  {
    assert CallerOk(cfg, s, c);
  }

  lemma WriteGrows(cfg: Config, s: State, s': State, c: nat)
    requires Shape(cfg, s) && NextStep(cfg, s, s', WriteFields(c))
    ensures Grows(s, s')
  {
    assert CallerOk(cfg, s, c);
  }

  lemma CloseGrows(cfg: Config, s: State, s': State, c: nat)
    requires Shape(cfg, s) && NextStep(cfg, s, s', CloseDone(c))
    ensures Grows(s, s')
  {
    assert CallerOk(cfg, s, c);
  }

  lemma SmallStepGrows(cfg: Config, s: State, s': State, step: Step)
    requires NextStep(cfg, s, s', step) && !step.Store? && !step.WriteFields? && !step.CloseDone?
    requires !step.Overwrite?
    ensures Grows(s, s')
  {
    match step {
      case Tick(_) =>
      case Lock(c) => LockGrows(s, s', c);
      case CtxDone(c) => CallerMoveGrows(s, s', c);
      case Sample(c) => CallerMoveGrows(s, s', c);
      case InnerReturns(c, _) => CallerMoveGrows(s, s', c);
      case Wake(c) => CallerMoveGrows(s, s', c);
      case GiveUp(c) => CallerMoveGrows(s, s', c);
    }
  }

  lemma CallerMoveGrows(s: State, s': State, c: nat)
    requires c < |s.callers| == |s'.callers| && s'.callers == s.callers[c := s'.callers[c]]
    requires CallerGrows(s.callers[c], s'.callers[c]) && s'.lookups == s.lookups
    requires s'.clock == s.clock && s.inner <= s'.inner && s'.evicted == s.evicted
    ensures Grows(s, s')
  {
  }

  lemma OverwriteGrows(cfg: Config, s: State, s': State, step: Step)
    requires NextStep(cfg, s, s', step) && step.Overwrite?
    ensures Grows(s, s')
  {
  }

  lemma LockGrows(s: State, s': State, c: nat)
    requires s.At(c, Sampled) && s' == Locked(s, c)
    ensures Grows(s, s')
  {
  }

  lemma EntryStaysOk(cfg: Config, s: State, s': State, k: Key)
    requires Grows(s, s') && k in s.entries && EntryOk(cfg, s, k)
    requires k in s'.entries && s'.entries[k] == s.entries[k]
    ensures EntryOk(cfg, s', k)
  {
  }

  lemma EntriesStayOk(cfg: Config, s: State, s': State)
    requires Grows(s, s') && EntriesOk(cfg, s) && s'.entries == s.entries
    ensures EntriesOk(cfg, s')
  {
    forall k | k in s'.entries ensures EntryOk(cfg, s', k) {
      EntryStaysOk(cfg, s, s', k);
    }
  }

  // A caller whose own record the step did not touch, and whose own lookup it did not touch.
  lemma BystanderStaysOk(cfg: Config, s: State, s': State, c: nat)
    requires Grows(s, s') && c < |s.callers| && CallerOk(cfg, s, c)
    requires s'.callers[c].pc == s.callers[c].pc
    requires forall p | 0 <= p < |s.lookups| && s.lookups[p].leader == c :: s'.lookups[p] == s.lookups[p]
    ensures CallerOk(cfg, s', c)
  {
  }

  // ----- every step keeps the shape -----

  // What a step does to everyone but caller c.
  ghost predicate OnlyCallerMoves(s: State, s': State, c: nat) {
    && Grows(s, s') && !s'.panicked
    && (forall d | 0 <= d < |s.callers| && d != c :: s'.callers[d] == s.callers[d])
    && (forall p | 0 <= p < |s.lookups| && s.lookups[p].leader != c :: s'.lookups[p] == s.lookups[p])
  }

  lemma OthersStayOk(cfg: Config, s: State, s': State, c: nat)
    requires Shape(cfg, s) && OnlyCallerMoves(s, s', c)
    ensures forall d | 0 <= d < |s'.callers| && d != c :: CallerOk(cfg, s', d)
  {
    forall d | 0 <= d < |s'.callers| && d != c ensures CallerOk(cfg, s', d) {
      assert CallerOk(cfg, s, d);
      BystanderStaysOk(cfg, s, s', d);
    }
  }

  // Lookups a step left as they are; a leader that moved must still stand at the same stage.
  lemma SameLookupStaysOk(cfg: Config, s: State, s': State, c: nat, p: nat)
    requires Shape(cfg, s) && OnlyCallerMoves(s, s', c)
    requires p < |s.lookups| && s'.lookups[p] == s.lookups[p]
    requires !s.lookups[p].phase.Published? ==>
      && s.lookups[p].Key() in s'.pending && s'.pending[s.lookups[p].Key()] == p
      && (c < |s.callers| && s.lookups[p].leader == c && HoldsAt(s.callers[c].pc, p, s.lookups[p].phase) ==>
            HoldsAt(s'.callers[c].pc, p, s.lookups[p].phase))
    ensures LookupOk(s', p)
  {
    assert LookupOk(s, p);
    assert CallerGrows(s.callers[s.lookups[p].leader], s'.callers[s.lookups[p].leader]);
  }

  // Steps that leave lookups, entries, pending and the mutex alone: only caller c moves.
  lemma MoveKeepsShape(cfg: Config, s: State, s': State, c: nat)
    requires Shape(cfg, s) && OnlyCallerMoves(s, s', c)
    requires s'.lookups == s.lookups && s'.entries == s.entries && s'.pending == s.pending
    requires s'.holder == s.holder
    requires c < |s.callers| ==> CallerOk(cfg, s', c)
    requires c < |s.callers| ==>
      ((s'.callers[c].pc.Writing? || s'.callers[c].pc.Storing?) <==>
       (s.callers[c].pc.Writing? || s.callers[c].pc.Storing?))
    requires c < |s.callers| ==>
      forall p, phase | HoldsAt(s.callers[c].pc, p, phase) :: HoldsAt(s'.callers[c].pc, p, phase)
    ensures Shape(cfg, s')
  {
    OthersStayOk(cfg, s, s', c);
    forall p | 0 <= p < |s'.lookups| ensures LookupOk(s', p) {
      assert LookupOk(s, p);
      SameLookupStaysOk(cfg, s, s', c, p);
    }
    EntriesStayOk(cfg, s, s');
  }

  lemma HitKeepsShape(cfg: Config, s: State, s': State, c: nat)
    requires Shape(cfg, s) && s.At(c, Sampled) && IsHit(s, c) && s' == Locked(s, c)
    ensures Shape(cfg, s')
  {
    var key := s.callers[c].Key();
    assert EntryOk(cfg, s, key) && CallerOk(cfg, s, c);
    MoveKeepsShape(cfg, s, s', c);
  }

  lemma JoinKeepsShape(cfg: Config, s: State, s': State, c: nat)
    requires Shape(cfg, s) && s.At(c, Sampled) && !IsHit(s, c) && s' == Locked(s, c)
    requires s.callers[c].Key() in s.pending
    ensures Shape(cfg, s')
  {
    assert CallerOk(cfg, s, c);
    MoveKeepsShape(cfg, s, s', c);
  }

  lemma LeadKeepsShape(cfg: Config, s: State, s': State, c: nat)
    requires Shape(cfg, s) && s.At(c, Sampled) && s.holder == None && !IsHit(s, c) && s' == Locked(s, c)
    requires s.callers[c].Key() !in s.pending
    ensures Shape(cfg, s')
  {
    assert CallerOk(cfg, s, c);
    SmallStepGrows(cfg, s, s', Lock(c));
    OthersStayOk(cfg, s, s', c);
    LeadKeepsLookups(cfg, s, s', c);
    EntriesStayOk(cfg, s, s');
  }

  lemma LeadKeepsLookups(cfg: Config, s: State, s': State, c: nat)
    requires Shape(cfg, s) && s.At(c, Sampled) && !IsHit(s, c) && s' == Locked(s, c)
    requires s.callers[c].Key() !in s.pending && OnlyCallerMoves(s, s', c)
    ensures LookupsOk(s')
  {
    assert CallerOk(cfg, s, c);
    forall p | 0 <= p < |s'.lookups| ensures LookupOk(s', p) {
      if p < |s.lookups| {
        assert LookupOk(s, p);
        SameLookupStaysOk(cfg, s, s', c, p);
      }
    }
  }

  lemma WriteKeepsShape(cfg: Config, s: State, s': State, c: nat)
    requires Shape(cfg, s) && NextStep(cfg, s, s', WriteFields(c))
    ensures Shape(cfg, s')
  {
    assert CallerOk(cfg, s, c);
    WriteGrows(cfg, s, s', c);
    WrittenIsOk(cfg, s, s', c);
    LeaderStepKeepsShape(cfg, s, s', c, s.callers[c].pc.p);
  }

  lemma WrittenIsOk(cfg: Config, s: State, s': State, c: nat)
    requires NextStep(cfg, s, s', WriteFields(c)) && CallerOk(cfg, s, c) && LookupOk(s, s.callers[c].pc.p)
    ensures CallerOk(cfg, s', c) && LookupOk(s', s.callers[c].pc.p)
  {
  }

  lemma CloseKeepsShape(cfg: Config, s: State, s': State, c: nat)
    requires Shape(cfg, s) && NextStep(cfg, s, s', CloseDone(c))
    ensures Shape(cfg, s')
  {
    assert CallerOk(cfg, s, c);
    CloseGrows(cfg, s, s', c);
    ClosedIsOk(cfg, s, s', c);
    LeaderStepKeepsShape(cfg, s, s', c, s.callers[c].pc.p);
  }

  lemma ClosedIsOk(cfg: Config, s: State, s': State, c: nat)
    requires NextStep(cfg, s, s', CloseDone(c)) && CallerOk(cfg, s, c) && LookupOk(s, s.callers[c].pc.p)
    ensures CallerOk(cfg, s', c) && LookupOk(s', s.callers[c].pc.p)
    ensures s'.panicked == s.panicked
  {
  }

  // Caller c, leading lookup p and now holding the mutex, changed p and itself only.
  lemma LeaderStepKeepsShape(cfg: Config, s: State, s': State, c: nat, p: nat)
    requires Shape(cfg, s) && Grows(s, s') && !s'.panicked
    requires c < |s.callers| && p < |s.lookups| && s.lookups[p].leader == c && !s.lookups[p].phase.Published?
    requires s' == s.(
      callers := s.callers[c := s'.callers[c]], lookups := s.lookups[p := s'.lookups[p]], holder := Some(c))
    requires s.holder == None || s.holder == Some(c)
    requires s'.callers[c].pc.Writing? || s'.callers[c].pc.Storing?
    requires CallerOk(cfg, s', c) && LookupOk(s', p) && !s'.lookups[p].phase.Published?
    ensures Shape(cfg, s')
  {
    OthersStayOk(cfg, s, s', c);
    OtherLookupsStayOk(cfg, s, s', c, p);
    EntriesStayOk(cfg, s, s');
    LeaderHoldsMutex(cfg, s, s', c, p);
  }

  lemma LeaderHoldsMutex(cfg: Config, s: State, s': State, c: nat, p: nat)
    requires MutexOk(s) && PendingOk(s) && Grows(s, s') && c < |s.callers| && p < |s.lookups|
    requires s' == s.(
      callers := s.callers[c := s'.callers[c]], lookups := s.lookups[p := s'.lookups[p]], holder := Some(c))
    requires s.holder == None || s.holder == Some(c)
    requires s'.callers[c].pc.Writing? || s'.callers[c].pc.Storing?
    requires !s'.lookups[p].phase.Published?
    ensures MutexOk(s') && PendingOk(s')
  {
  }

  lemma OtherLookupsStayOk(cfg: Config, s: State, s': State, c: nat, p: nat)
    requires Shape(cfg, s) && OnlyCallerMoves(s, s', c) && s'.pending == s.pending
    requires c < |s.callers| && p < |s.lookups| && s.lookups[p].leader == c && !s.lookups[p].phase.Published?
    requires s'.lookups == s.lookups[p := s'.lookups[p]] && LookupOk(s', p)
    ensures LookupsOk(s')
  {
    forall q | 0 <= q < |s'.lookups| ensures LookupOk(s', q) {
      assert LookupOk(s, q) && LookupOk(s, p);
      if q != p {
        SameLookupStaysOk(cfg, s, s', c, q);
      }
    }
  }

  lemma LeavesSome(cfg: Config, s: State, c: nat, at: int, evictAt: int, after: Entries)
    requires CanStore(s, c) && Leaves(cfg, s, c, at, evictAt, after) && |s.entries| <= cfg.maxSize
    ensures |after| <= cfg.maxSize
    ensures forall k | k in after :: k in Inserted(cfg, s, c, at) && after[k] == Inserted(cfg, s, c, at)[k]
  {
  }

  lemma StoreKeepsEntries(cfg: Config, s: State, s': State, c: nat, at: int, evictAt: int, after: Entries)
    requires CanStore(s, c) && Grows(s, s') && CallerOk(cfg, s, c) && LookupOk(s, s.callers[c].pc.p)
    requires EntriesOk(cfg, s)
    requires s' == Stored(cfg, s, c, at, evictAt, after)
    requires forall k | k in after :: k in Inserted(cfg, s, c, at) && after[k] == Inserted(cfg, s, c, at)[k]
    ensures EntriesOk(cfg, s')
  {
  }

  lemma StoreKeepsLookups(cfg: Config, s: State, s': State, c: nat, at: int, evictAt: int, after: Entries)
    requires Shape(cfg, s) && CanStore(s, c) && s.clock <= at <= evictAt && Grows(s, s')
    requires s' == Stored(cfg, s, c, at, evictAt, after) && OnlyCallerMoves(s, s', c)
    ensures LookupsOk(s')
  {
    var p := s.callers[c].pc.p;
    assert CallerOk(cfg, s, c) && LookupOk(s, p);
    forall q | 0 <= q < |s'.lookups| ensures LookupOk(s', q) {
      assert LookupOk(s, q);
      if q != p {
        SameLookupStaysOk(cfg, s, s', c, q);
      }
    }
  }

  lemma StoreKeepsShape(cfg: Config, s: State, s': State, c: nat, at: int, evictAt: int, after: Entries)
    requires Shape(cfg, s) && NextStep(cfg, s, s', Store(c, at, evictAt, after))
    ensures Shape(cfg, s')
  {
    assert CallerOk(cfg, s, c);
    LeavesSome(cfg, s, c, at, evictAt, after);
    StoreFrame(cfg, s, s', c, at, evictAt, after);
  }

  lemma StoreKeepsPending(cfg: Config, s: State, s': State, c: nat, at: int, evictAt: int, after: Entries)
    requires CanStore(s, c) && PendingOk(s) && CallerOk(cfg, s, c) && LookupOk(s, s.callers[c].pc.p)
    requires s' == Stored(cfg, s, c, at, evictAt, after)
    ensures PendingOk(s')
  {
    var p := s.callers[c].pc.p;
    forall k | k in s'.pending
      ensures s'.pending[k] < |s'.lookups| && s'.lookups[s'.pending[k]].Key() == k
      ensures !s'.lookups[s'.pending[k]].phase.Published?
    {
      assert s'.pending[k] == s.pending[k] && s.pending[k] != p;
      assert s'.lookups[s.pending[k]] == s.lookups[s.pending[k]];
    }
  }

  lemma StoreFinishesLeader(cfg: Config, s: State, s': State, c: nat, at: int, evictAt: int, after: Entries)
    requires Shape(cfg, s) && CanStore(s, c) && s.clock <= at <= evictAt
    requires s' == Stored(cfg, s, c, at, evictAt, after)
    ensures CallerOk(cfg, s', c)
  {
    assert CallerOk(cfg, s, c);
    assert LookupOk(s, s.callers[c].pc.p);
  }

  lemma StoreFrame(cfg: Config, s: State, s': State, c: nat, at: int, evictAt: int, after: Entries)
    requires Shape(cfg, s) && CanStore(s, c) && s.clock <= at <= evictAt
    requires s' == Stored(cfg, s, c, at, evictAt, after) && |after| <= cfg.maxSize
    requires forall k | k in after :: k in Inserted(cfg, s, c, at) && after[k] == Inserted(cfg, s, c, at)[k]
    ensures Shape(cfg, s')
  {
    StoreGrows(cfg, s, s', c, at, evictAt, after);
    assert CallerOk(cfg, s, c) && LookupOk(s, s.callers[c].pc.p);
    assert OnlyCallerMoves(s, s', c);
    OthersStayOk(cfg, s, s', c);
    StoreFinishesLeader(cfg, s, s', c, at, evictAt, after);
    StoreKeepsLookups(cfg, s, s', c, at, evictAt, after);
    StoreKeepsEntries(cfg, s, s', c, at, evictAt, after);
    StoreKeepsPending(cfg, s, s', c, at, evictAt, after);
    StoreFreesMutex(cfg, s, s', c, at, evictAt, after);
  }

  lemma StoreFreesMutex(cfg: Config, s: State, s': State, c: nat, at: int, evictAt: int, after: Entries)
    requires Shape(cfg, s) && CanStore(s, c) && s' == Stored(cfg, s, c, at, evictAt, after)
    ensures forall d | 0 <= d < |s'.callers| :: !s'.callers[d].pc.Writing? && !s'.callers[d].pc.Storing?
    ensures s'.holder == None && s'.panicked == s.panicked
  {
  }

  lemma ShapeStep(cfg: Config, s: State, s': State, step: Step)
    requires Shape(cfg, s) && NextStep(cfg, s, s', step)
    ensures Shape(cfg, s')
  {
    match step {
      case Lock(c) =>
        if IsHit(s, c) {
          HitKeepsShape(cfg, s, s', c);
        } else if s.callers[c].Key() in s.pending {
          JoinKeepsShape(cfg, s, s', c);
        } else {
          LeadKeepsShape(cfg, s, s', c);
        }
      case WriteFields(c) => WriteKeepsShape(cfg, s, s', c);
      case CloseDone(c) => CloseKeepsShape(cfg, s, s', c);
      case Store(c, at, evictAt, after) => StoreKeepsShape(cfg, s, s', c, at, evictAt, after);
      case Tick(_) => MoveKeepsShape(cfg, s, s', |s.callers|);
      case CtxDone(c) => CallerStepKeepsShape(cfg, s, s', step, c);
      case Sample(c) => CallerStepKeepsShape(cfg, s, s', step, c);
      case InnerReturns(c, _) => CallerStepKeepsShape(cfg, s, s', step, c);
      case Wake(c) => CallerStepKeepsShape(cfg, s, s', step, c);
      case GiveUp(c) => CallerStepKeepsShape(cfg, s, s', step, c);
      case Overwrite(c, _) => OverwriteKeepsShape(cfg, s, s', step);
    }
  }

  lemma CallerStepKeepsShape(cfg: Config, s: State, s': State, step: Step, c: nat)
    requires Shape(cfg, s) && NextStep(cfg, s, s', step)
    requires step == CtxDone(c) || step == Sample(c) || (step.InnerReturns? && step.c == c)
          || step == Wake(c) || step == GiveUp(c)
    ensures Shape(cfg, s')
  {
    SmallStepGrows(cfg, s, s', step);
    assert CallerOk(cfg, s, c);
    if step.CtxDone? {
      BystanderStaysOk(cfg, s, s', c);
    } else {
      MovedCallerOk(cfg, s, s', step, c);
    }
    MoveKeepsShape(cfg, s, s', c);
  }

  lemma MovedCallerOk(cfg: Config, s: State, s': State, step: Step, c: nat)
    requires NextStep(cfg, s, s', step) && c < |s.callers| && CallerOk(cfg, s, c)
    requires step == Sample(c) || (step.InnerReturns? && step.c == c) || step == Wake(c) || step == GiveUp(c)
    requires step.Wake? ==> LookupOk(s, s.callers[c].pc.p)
    ensures CallerOk(cfg, s', c)
  {
  }

  lemma OverwriteKeepsShape(cfg: Config, s: State, s': State, step: Step)
    requires Shape(cfg, s) && NextStep(cfg, s, s', step) && step.Overwrite?
    ensures Shape(cfg, s')
  {
    var c := step.c;
    var p := s.callers[c].pc.via.p;
    OverwriteGrows(cfg, s, s', step);
    assert CallerOk(cfg, s, c);
    OthersStayOk(cfg, s, s', c);
    OverwrittenIsOk(cfg, s, s', step);
    OverwriteKeepsLookups(cfg, s, s', c, p);
    EntriesStayOk(cfg, s, s');
  }

  lemma OverwrittenIsOk(cfg: Config, s: State, s': State, step: Step)
    requires NextStep(cfg, s, s', step) && step.Overwrite? && CallerOk(cfg, s, step.c)
    requires LookupOk(s, s.callers[step.c].pc.via.p)
    ensures CallerOk(cfg, s', step.c) && LookupOk(s', s.callers[step.c].pc.via.p)
  {
  }

  lemma OverwriteKeepsLookups(cfg: Config, s: State, s': State, c: nat, p: nat)
    requires Shape(cfg, s) && OnlyCallerMoves(s, s', c) && s'.pending == s.pending && s'.callers == s.callers
    requires p < |s.lookups| && s'.lookups == s.lookups[p := s'.lookups[p]] && LookupOk(s', p)
    ensures LookupsOk(s')
  {
    forall q | 0 <= q < |s'.lookups| ensures LookupOk(s', q) {
      assert LookupOk(s, q);
      if q != p {
        SameLookupStaysOk(cfg, s, s', c, q);
      }
    }
  }
}
