/** ChainResolver.Resolve: all resolvers race, the first non-empty answer wins. */
module Chain {
  import opened Options
  import opened Collections
  import opened WorkerPool
  import opened NetAddr
  import opened Selection
  import opened Sorter

  type Error = string

  /** What a resolver hands in.  Addresses and an error may come together. */
  datatype ChainResult = ChainResult(addrs: seq<IPAddr>, err: Option<Error>, from: string)

  // An error wrapped with the name of the resolver it comes from.
  datatype NamedError = NamedError(from: string, err: Error)

  datatype Outcome = Found(addrs: seq<IPAddr>) | AllFailed(errs: seq<NamedError>) | CtxError | NoResolvers

  function ResultErrs(r: ChainResult): seq<NamedError> {
    match r.err
    case Some(e) => [NamedError(r.from, e)]
    case None => []
  }

  /** `errs` are the errors of the resolvers that gave one, each with its resolver's name, in order. */
  ghost predicate ErrorsOf(rs: seq<ChainResult>, errs: seq<NamedError>) {
    exists ids :: ErrorsAt(rs, ids, errs)
  }

  ghost predicate ErrorsAt(rs: seq<ChainResult>, ids: seq<nat>, errs: seq<NamedError>) {
    && Increasing(ids) && Below(ids, |rs|) && |errs| == |ids|
    && (forall i: nat | i < |rs| :: i in ids <==> rs[i].err.Some?)
    && forall k | 0 <= k < |ids| :: rs[ids[k]].err == Some(errs[k].err) && rs[ids[k]].from == errs[k].from
  }

  lemma ResultErrsAreErrors(rs: seq<ChainResult>)
    ensures ErrorsOf(rs, FlatMap(ResultErrs, rs))
  {
    var ids := FlatMapPlaces(ResultErrs, rs);
    var errs := FlatMap(ResultErrs, rs);
    forall k | 0 <= k < |ids|
      ensures rs[ids[k]].err == Some(errs[k].err) && rs[ids[k]].from == errs[k].from
    {
      assert ResultErrs(rs[ids[k]]) == [errs[k]];
    }
    assert ErrorsAt(rs, ids, errs);
  }

  predicate NoAnswer(got: seq<ChainResult>) {
    forall i | 0 <= i < |got| :: got[i].addrs == []
  }

  /** The outcome of the receive loop for n resolvers, of which the results `got` were received. */
  ghost predicate IsOutcome(got: seq<ChainResult>, n: nat, out: Outcome) {
    match out
    case Found(addrs) =>
      addrs != [] && got != [] && addrs == got[|got| - 1].addrs && NoAnswer(got[..|got| - 1])
    case AllFailed(errs) => |got| == n > 0 && NoAnswer(got) && errs == FlatMap(ResultErrs, got)
    case CtxError => |got| < n && NoAnswer(got)
    case NoResolvers => n == 0
  }

  datatype Event = Result(res: ChainResult) | CtxDone

  function Results(events: seq<Event>): seq<ChainResult>
    requires forall i | 0 <= i < |events| :: events[i].Result?
  {
    seq(|events|, i requires 0 <= i < |events| => events[i].res)
  }

  /** `out` is the outcome after the first `used` selects, all of which yielded a result. */
  ghost predicate OutcomeAfter(events: seq<Event>, used: nat, out: Outcome) {
    && used <= |events| && (forall i | 0 <= i < used :: events[i].Result?)
    && IsOutcome(Results(events[..used]), |events|, out)
    && (out.CtxError? ==> used < |events| && events[used].CtxDone?)
  }

  /** The receive loop: one select per resolver, on the events the selects yield. */
  method Resolve(n: nat, events: seq<Event>) returns (out: Outcome)
    requires |events| == n
    ensures exists used :: OutcomeAfter(events, used, out)
  {
    if n == 0 {
      assert OutcomeAfter(events, 0, NoResolvers);
      return NoResolvers;
    }
    var errs := [];
    for i := 0 to n
      invariant forall j | 0 <= j < i :: events[j].Result?
      invariant NoAnswer(Results(events[..i])) && errs == FlatMap(ResultErrs, Results(events[..i]))
    {
      match events[i] {
        case Result(res) =>
          assert Results(events[..i + 1]) == Results(events[..i]) + [res];
          FlatMapSnoc(ResultErrs, Results(events[..i]), res);
          if |res.addrs| > 0 {
            assert OutcomeAfter(events, i + 1, Found(res.addrs));
            return Found(res.addrs);
          }
          if res.err.Some? {
            errs := errs + [NamedError(res.from, res.err.value)];
          }
        case CtxDone =>
          assert OutcomeAfter(events, i, CtxError);
          return CtxError;
      }
    }
    assert OutcomeAfter(events, n, AllFailed(errs));
    return AllFailed(errs);
  }

  // ----- the protocol: racing workers and one consumer -----

  /** The consumer has decided when Leaving; its deferred cancel runs on the way to Returned. */
  datatype Consumer = Waiting(errs: seq<NamedError>) | Leaving(out: Outcome) | Returned(out: Outcome)

  datatype State = State(pool: Pool, consumer: Consumer, ctxDone: bool, cancelled: bool)

  datatype Step =
    | ResolverReturns(i: nat)
    | Send(i: nat)
    | GiveUp(i: nat)
    | Receive
    | LoopEnds
    | SeeCtxDone
    | DeferredCancel
    | Cancel

  type Config = r: seq<ChainResult> | r != [] witness [ChainResult([], None, "")]

  predicate Init(c: Config, s: State) {
    s == State(Start(|c|), Waiting([]), false, false)
  }

  function AfterResult(errs: seq<NamedError>, res: ChainResult): Consumer {
    if res.addrs != [] then Leaving(Found(res.addrs)) else Waiting(errs + ResultErrs(res))
  }

  ghost predicate NextStep(c: Config, s: State, s': State, step: Step) {
    match step
    case ResolverReturns(i) =>
      s.pool.Has(i, Calling) && s' == s.(pool := s.pool.CallReturns(i))
    case Send(i) =>
      s.pool.Has(i, Sending) && !s.pool.BufferFull() && s' == s.(pool := s.pool.Send(i))
    case GiveUp(i) =>
      s.pool.Has(i, Sending) && (s.ctxDone || s.cancelled) && s' == s.(pool := s.pool.GiveUp(i))
    case Receive =>
      && s.consumer.Waiting? && |s.pool.received| < |c|
      && s.pool.buffer != [] && s.pool.buffer[0] < |c|
      && s' == s.(pool := s.pool.Receive(), consumer := AfterResult(s.consumer.errs, c[s.pool.buffer[0]]))
    case LoopEnds =>
      && s.consumer.Waiting? && |s.pool.received| == |c|
      && s' == s.(consumer := Leaving(AllFailed(s.consumer.errs)))
    case SeeCtxDone =>
      && s.consumer.Waiting? && |s.pool.received| < |c| && s.ctxDone
      && s' == s.(consumer := Leaving(CtxError))
    case DeferredCancel =>
      s.consumer.Leaving? && s' == s.(consumer := Returned(s.consumer.out), cancelled := true)
    case Cancel =>
      !s.ctxDone && s' == s.(ctxDone := true)
  }

  ghost predicate Next(c: Config, s: State, s': State) {
    exists step :: NextStep(c, s, s', step)
  }

  ghost predicate Run(c: Config, run: seq<State>) {
    && run != [] && Init(c, run[0])
    && forall i | 0 <= i < |run| - 1 :: Next(c, run[i], run[i + 1])
  }

  predicate Final(s: State) {
    s.consumer.Returned? && s.pool.AllDone()
  }

  // ----- invariants over every run -----

  ghost predicate Inv(c: Config, s: State) {
    && s.pool.Inv(|c|)
    && (s.cancelled <==> s.consumer.Returned?)
    && (forall i | s.pool.Has(i, GaveUp) :: s.ctxDone || s.cancelled)
    && var got := Pick(c, s.pool.received);
       match s.consumer
       case Waiting(errs) => NoAnswer(got) && errs == FlatMap(ResultErrs, got)
       case Leaving(out) => IsOutcome(got, |c|, out) && (out.CtxError? ==> s.ctxDone)
       case Returned(out) => IsOutcome(got, |c|, out) && (out.CtxError? ==> s.ctxDone)
  }

  lemma InvInit(c: Config, s: State)
    requires Init(c, s)
    ensures Inv(c, s)
  {
  }

  lemma InvStep(c: Config, s: State, s': State, step: Step)
    requires Inv(c, s) && NextStep(c, s, s', step)
    ensures Inv(c, s')
  {
    var n := |c|;
    assert step.GiveUp? || forall j | s'.pool.Has(j, GaveUp) :: s.pool.Has(j, GaveUp);
    match step {
      case ResolverReturns(i) => CallReturnsInv(s.pool, n, i);
      case Send(i) => SendInv(s.pool, n, i);
      case GiveUp(i) => GiveUpInv(s.pool, n, i);
      case Receive =>
        ReceiveInv(s.pool, n);
        var got, res := Pick(c, s.pool.received), c[s.pool.buffer[0]];
        assert Pick(c, s'.pool.received) == got + [res];
        assert (got + [res])[..|got|] == got;
        FlatMapSnoc(ResultErrs, got, res);
      case _ =>
    }
  }

  lemma {:induction false} InvRun(c: Config, run: seq<State>, i: nat)
    requires Run(c, run) && i < |run|
    ensures Inv(c, run[i])
  {
    if i == 0 {
      InvInit(c, run[0]);
    } else {
      InvRun(c, run, i - 1);
      assert Next(c, run[i - 1], run[i - 1 + 1]);
      var step :| NextStep(c, run[i - 1], run[i], step);
      InvStep(c, run[i - 1], run[i], step);
    }
  }

  /** No worker ever waits for room in the channel, and before the consumer has returned a worker
      drops its result only when the caller's own context is done. */
  lemma WorkersNeverBlock(c: Config, run: seq<State>, i: nat)
    requires Run(c, run) && i < |run|
    ensures |run[i].pool.buffer| + |run[i].pool.received| <= |c|
    ensures forall w | run[i].pool.Has(w, Sending) :: !run[i].pool.BufferFull()
    ensures forall w | run[i].pool.Has(w, GaveUp) :: run[i].ctxDone || run[i].consumer.Returned?
    ensures run[i].cancelled <==> run[i].consumer.Returned?
  {
    InvRun(c, run, i);
    SendNeverBlocks(run[i].pool, |c|);
  }

  lemma FullLogHasAll(p: Pool, n: nat)
    requires p.Inv(n) && |p.received| == n
    ensures p.buffer == [] && forall i | 0 <= i < n :: p.workers[i] == Sent
  {
    DistinctIndicesBounded(p.Log(), n);
    forall i: nat | i < n ensures p.workers[i] == Sent {
      assert i in p.Log();
    }
  }

  /** Without cancellation of the caller the race finds an answer exactly when some resolver has
      one.  The answer is the first non-empty one in order of arrival; and when there is none, the
      joined errors are exactly those of all resolvers. */
  lemma {:induction false} RaceIsCorrect(c: Config, run: seq<State>, i: nat)
    requires Run(c, run) && i < |run| && run[i].consumer.Returned? && !run[i].ctxDone
    ensures var out, log := run[i].consumer.out, run[i].pool.Log();
      && Below(log, |c|)
      && (out.Found? <==> exists k :: 0 <= k < |c| && c[k].addrs != [])
      && (out.Found? ==> exists j ::
            && 0 <= j < |log| && out.addrs == c[log[j]].addrs != []
            && forall k | 0 <= k < j :: c[log[k]].addrs == [])
      && (!out.Found? ==> out.AllFailed? && multiset(out.errs) == multiset(FlatMap(ResultErrs, c)))
    ensures ErrorsOf(c, FlatMap(ResultErrs, c))
  {
    ResultErrsAreErrors(c);
    InvRun(c, run, i);
    if run[i].consumer.out.Found? {
      FirstArrivalWins(c, run[i].pool, run[i].consumer.out);
    } else {
      AllArrivedEmpty(c, run[i].pool, run[i].consumer.out);
    }
  }

  /** No address and no error, which Go returns as two nils, is what an uncancelled race gives exactly
      when no resolver has either. */
  lemma NothingFoundIff(c: Config, run: seq<State>, i: nat)
    requires Run(c, run) && i < |run| && run[i].consumer.Returned? && !run[i].ctxDone
    ensures run[i].consumer.out == AllFailed([]) <==>
      forall k | 0 <= k < |c| :: c[k].addrs == [] && c[k].err.None?
  {
    RaceIsCorrect(c, run, i);
    FlatMapIsEmptyIff(ResultErrs, c);
    var out, errs := run[i].consumer.out, FlatMap(ResultErrs, c);
    if out.AllFailed? {
      assert |multiset(out.errs)| == |out.errs| && |multiset(errs)| == |errs|;
    }
    assert forall k | 0 <= k < |c| :: ResultErrs(c[k]) == [] <==> c[k].err.None?;
  }

  lemma FirstArrivalWins(c: Config, p: Pool, out: Outcome)
    requires p.Inv(|c|) && out.Found? && IsOutcome(Pick(c, p.received), |c|, out)
    ensures exists j ::
      && 0 <= j < |p.Log()| && out.addrs == c[p.Log()[j]].addrs != []
      && forall k | 0 <= k < j :: c[p.Log()[k]].addrs == []
  {
    var got := Pick(c, p.received);
    var j := |got| - 1;
    assert p.Log()[j] == p.received[j];
    forall k | 0 <= k < j ensures c[p.Log()[k]].addrs == [] {
      assert p.Log()[k] == p.received[k] && got[..j][k] == got[k];
    }
  }

  lemma AllArrivedEmpty(c: Config, p: Pool, out: Outcome)
    requires p.Inv(|c|) && out.AllFailed? && IsOutcome(Pick(c, p.received), |c|, out)
    ensures forall k | 0 <= k < |c| :: c[k].addrs == []
    ensures multiset(out.errs) == multiset(FlatMap(ResultErrs, c))
  {
    var got := Pick(c, p.received);
    FullLogHasAll(p, |c|);
    assert p.Log() == p.received;
    AllSentLog(p, |c|, c);
    FlatMapOfPermutation(ResultErrs, got, c);
    forall k | 0 <= k < |c| ensures c[k].addrs == [] {
      assert c[k] in multiset(got);
    }
  }

  // ----- two runs of the race -----

  /** The caller was not cancelled and has been given `addrs`. */
  ghost predicate Wins(c: Config, run: seq<State>, addrs: seq<IPAddr>) {
    Run(c, run) && var s := run[|run| - 1]; !s.ctxDone && s.consumer == Returned(Found(addrs))
  }

  /** Any two uncancelled races of these resolvers give heads of equal rank; ResolveHost takes the
      head. */
  ghost predicate HeadRankIsFixed(c: Config, srcAddrs: IPAddr -> SrcInfo) {
    forall run, run', addrs, addrs' | Wins(c, run, addrs) && Wins(c, run', addrs') && addrs != [] && addrs' != [] ::
      Rank(addrs[0], srcAddrs) == Rank(addrs'[0], srcAddrs)
  }

  // The heads of all non-empty answers have equal rank.
  ghost predicate AnswersHaveEqualHeads(c: Config, srcAddrs: IPAddr -> SrcInfo) {
    forall i, j | 0 <= i < |c| && 0 <= j < |c| && c[i].addrs != [] && c[j].addrs != [] ::
      Rank(c[i].addrs[0], srcAddrs) == Rank(c[j].addrs[0], srcAddrs)
  }

  lemma WinnerIsAnAnswer(c: Config, run: seq<State>, addrs: seq<IPAddr>) returns (i: nat)
    requires Wins(c, run, addrs)
    ensures i < |c| && addrs == c[i].addrs != []
  {
    RaceIsCorrect(c, run, |run| - 1);
    var log := run[|run| - 1].pool.Log();
    var j :| 0 <= j < |log| && addrs == c[log[j]].addrs != [];
    i := log[j];
  }

  /** Every resolver with an answer wins some race: the one in which it comes in first. */
  lemma AnyAnswerCanWin(c: Config, i: nat) returns (run: seq<State>)
    requires i < |c| && c[i].addrs != []
    ensures Wins(c, run, c[i].addrs)
  {
    var s0 := State(Start(|c|), Waiting([]), false, false);
    var s1 := s0.(pool := s0.pool.CallReturns(i));
    var s2 := s1.(pool := s1.pool.Send(i));
    var s3 := s2.(pool := s2.pool.Receive(), consumer := Leaving(Found(c[i].addrs)));
    var s4 := s3.(consumer := Returned(Found(c[i].addrs)), cancelled := true);
    assert NextStep(c, s0, s1, ResolverReturns(i));
    assert NextStep(c, s1, s2, Send(i));
    assert NextStep(c, s2, s3, Receive);
    assert NextStep(c, s3, s4, DeferredCancel);
    run := [s0, s1, s2, s3, s4];
  }

  /** Whatever the interleaving, the head the race hands on has the same rank, if and only if the
      heads of all non-empty answers have. */
  lemma HeadRankIsFixedIff(c: Config, srcAddrs: IPAddr -> SrcInfo)
    ensures HeadRankIsFixed(c, srcAddrs) <==> AnswersHaveEqualHeads(c, srcAddrs)
  {
    if AnswersHaveEqualHeads(c, srcAddrs) {
      forall run, run', addrs, addrs' | Wins(c, run, addrs) && Wins(c, run', addrs') && addrs != [] && addrs' != []
        ensures Rank(addrs[0], srcAddrs) == Rank(addrs'[0], srcAddrs)
      {
        var i := WinnerIsAnAnswer(c, run, addrs);
        var j := WinnerIsAnAnswer(c, run', addrs');
      }
    }
    if HeadRankIsFixed(c, srcAddrs) {
      forall i, j | 0 <= i < |c| && 0 <= j < |c| && c[i].addrs != [] && c[j].addrs != []
        ensures Rank(c[i].addrs[0], srcAddrs) == Rank(c[j].addrs[0], srcAddrs)
      {
        var run := AnyAnswerCanWin(c, i);
        var run' := AnyAnswerCanWin(c, j);
      }
    }
  }

  const NEAR_ADDR := IPAddr([10, 0, 0, 1], "")
  const FAR_ADDR := IPAddr([10, 0, 0, 2], "")
  const TWO_ANSWERS: Config := [ChainResult([NEAR_ADDR], None, "a"), ChainResult([FAR_ADDR], None, "b")]

  function OnlyNearIsReachable(): IPAddr -> SrcInfo {
    a => SrcInfo(if a == NEAR_ADDR then V4([10, 0, 0, 9]) else Invalid, false, false, false)
  }

  /** Two resolvers, two answers, one of them unreachable: which one ResolveHost dials depends on
      which comes in first. */
  lemma HeadRankCanDiffer() returns (run: seq<State>, run': seq<State>)
    ensures Wins(TWO_ANSWERS, run, [NEAR_ADDR]) && Wins(TWO_ANSWERS, run', [FAR_ADDR])
    ensures Rank(NEAR_ADDR, OnlyNearIsReachable()) != Rank(FAR_ADDR, OnlyNearIsReachable())
    ensures !HeadRankIsFixed(TWO_ANSWERS, OnlyNearIsReachable())
  {
    run := AnyAnswerCanWin(TWO_ANSWERS, 0);
    run' := AnyAnswerCanWin(TWO_ANSWERS, 1);
    assert Rank(NEAR_ADDR, OnlyNearIsReachable())[0] == 1;
    assert Rank(FAR_ADDR, OnlyNearIsReachable())[0] == 0;
    assert [NEAR_ADDR][0] == NEAR_ADDR && [FAR_ADDR][0] == FAR_ADDR;
  }

  // ----- no deadlock, and an end -----

  ghost function Measure(s: State): nat {
    s.pool.Work() + (if s.consumer.Waiting? then 2 else if s.consumer.Leaving? then 1 else 0)
  }

  lemma StepsAreFinite(c: Config, s: State, s': State, step: Step)
    requires Inv(c, s) && NextStep(c, s, s', step) && step != Cancel
    ensures Measure(s') < Measure(s)
  {
    var n := |c|;
    match step {
      case ResolverReturns(i) => CallReturnsInv(s.pool, n, i);
      case Send(i) => SendInv(s.pool, n, i);
      case GiveUp(i) => GiveUpInv(s.pool, n, i);
      case Receive => ReceiveInv(s.pool, n);
      case _ =>
    }
  }

  /** A race can be given up at any moment at which it is not yet decided.  From then on the
      consumer waits for nobody and returns the context's error, and no worker has to wait. */
  lemma CancellationIsPrompt(c: Config, s: State) returns (cancelled: State, leaving: State, s': State)
    requires Inv(c, s) && s.consumer.Waiting? && |s.pool.received| < |c|
    ensures if s.ctxDone then cancelled == s else Next(c, s, cancelled)
    ensures cancelled.ctxDone && cancelled.pool == s.pool && cancelled.consumer == s.consumer
    ensures forall i | s.pool.Has(i, Sending) :: Next(c, cancelled, cancelled.(pool := s.pool.GiveUp(i)))
    ensures Next(c, cancelled, leaving) && Next(c, leaving, s')
    ensures s'.pool == s.pool && s'.consumer == Returned(CtxError)
  {
    cancelled := s.(ctxDone := true);
    if !s.ctxDone {
      assert NextStep(c, s, cancelled, Cancel);
    }
    forall i | s.pool.Has(i, Sending) ensures Next(c, cancelled, cancelled.(pool := s.pool.GiveUp(i))) {
      assert NextStep(c, cancelled, cancelled.(pool := s.pool.GiveUp(i)), GiveUp(i));
    }
    leaving := cancelled.(consumer := Leaving(CtxError));
    assert NextStep(c, cancelled, leaving, SeeCtxDone);
    s' := leaving.(consumer := Returned(CtxError), cancelled := true);
    assert NextStep(c, leaving, s', DeferredCancel);
  }

  /** Resolvers that return are enough for the consumer and all workers to end. */
  lemma NeverStuck(c: Config, s: State) returns (step: Step, s': State)
    requires Inv(c, s) && !Final(s)
    ensures NextStep(c, s, s', step) && step != Cancel && Measure(s') < Measure(s)
  {
    var n := |c|;
    SendNeverBlocks(s.pool, n);
    if i :| 0 <= i < n && s.pool.workers[i] == Calling {
      step, s' := ResolverReturns(i), s.(pool := s.pool.CallReturns(i));
    } else if i :| 0 <= i < n && s.pool.workers[i] == Sending {
      assert s.pool.Has(i, Sending);
      step, s' := Send(i), s.(pool := s.pool.Send(i));
    } else if s.consumer.Leaving? {
      step, s' := DeferredCancel, s.(consumer := Returned(s.consumer.out), cancelled := true);
    } else if |s.pool.received| == n {
      step, s' := LoopEnds, s.(consumer := Leaving(AllFailed(s.consumer.errs)));
    } else if s.pool.buffer != [] {
      step := Receive;
      assert s.pool.Log()[|s.pool.received|] == s.pool.buffer[0];
      s' := s.(pool := s.pool.Receive(), consumer := AfterResult(s.consumer.errs, c[s.pool.buffer[0]]));
    } else {
      MissingWorkerGaveUp(s.pool, n);
      step, s' := SeeCtxDone, s.(consumer := Leaving(CtxError));
    }
    StepsAreFinite(c, s, s', step);
  }

  lemma MissingWorkerGaveUp(p: Pool, n: nat)
    requires p.Inv(n) && p.AllDone() && p.buffer == [] && |p.received| != n
    ensures exists i :: p.Has(i, GaveUp)
  {
    if forall i | 0 <= i < n :: p.workers[i] == Sent {
      AllSentLog(p, n, p.workers);
    } else {
      var i :| 0 <= i < n && p.workers[i] != Sent;
      assert p.Has(i, GaveUp);
    }
  }
}
