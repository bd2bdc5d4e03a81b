/** lookupAllTypes and processResults: one exchange per query type, collected by one consumer. */
module FanIn {
  import opened Options
  import opened Collections
  import opened WorkerPool
  import opened NetAddr
  import opened Sorter
  import opened Selection

  type Error = string

  datatype Record = A(ip: IP) | AAAA(ip: IP) | OtherRecord

  type Msg = seq<Record>

  datatype DNSResult = Failed(err: Error) | Answered(msg: Option<Msg>)

  /** What Resolve returns: addresses; no address and the joined errors (none of them reads as a
      nil error in Go); or the context's own error. */
  datatype Outcome = Addrs(addrs: seq<IPAddr>) | NoAddrs(errs: seq<Error>) | CtxError

  // ----- parsing -----

  function RecordAddrs(r: Record): seq<IPAddr> {
    match r
    case A(ip) => [IPAddr(ip, "")]
    case AAAA(ip) => [IPAddr(ip, "")]
    case OtherRecord => []
  }

  function ResultAddrs(r: DNSResult): seq<IPAddr> {
    match r
    case Answered(Some(msg)) => FlatMap(RecordAddrs, msg)
    case _ => []
  }

  function ResultErrs(r: DNSResult): seq<Error> {
    if r.Failed? then [r.err] else []
  }

  /** `addrs` are the addresses of the A and AAAA records, of all of them and of no others, in order. */
  ghost predicate AddressesOf(records: seq<Record>, addrs: seq<IPAddr>) {
    exists ids :: AddressesAt(records, ids, addrs)
  }

  ghost predicate AddressesAt(records: seq<Record>, ids: seq<nat>, addrs: seq<IPAddr>) {
    && Increasing(ids) && Below(ids, |records|) && |addrs| == |ids|
    && (forall i: nat | i < |records| :: i in ids <==> records[i].A? || records[i].AAAA?)
    && forall k | 0 <= k < |ids| ::
         !records[ids[k]].OtherRecord? && addrs[k] == IPAddr(records[ids[k]].ip, "")
  }

  lemma RecordAddrsAreAddresses(records: seq<Record>)
    ensures AddressesOf(records, FlatMap(RecordAddrs, records))
  {
    var ids := FlatMapPlaces(RecordAddrs, records);
    var addrs := FlatMap(RecordAddrs, records);
    forall k | 0 <= k < |ids|
      ensures !records[ids[k]].OtherRecord? && addrs[k] == IPAddr(records[ids[k]].ip, "")
    {
      assert RecordAddrs(records[ids[k]]) == [addrs[k]];
    }
    assert AddressesAt(records, ids, addrs);
  }

  // The records of a response; none if the exchange failed or gave a nil message.
  function Records(r: DNSResult): seq<Record> {
    if r.Answered? && r.msg.Some? then r.msg.value else []
  }

  lemma {:induction false} FlatMapOfRecords(rs: seq<DNSResult>)
    ensures FlatMap(ResultAddrs, rs) == FlatMap(RecordAddrs, FlatMap(Records, rs))
  {
    if rs != [] {
      FlatMapOfRecords(rs[1..]);
      FlatMapConcat(RecordAddrs, Records(rs[0]), FlatMap(Records, rs[1..]));
    }
  }

  /** `errs` are the errors of the failed exchanges, in order. */
  ghost predicate ErrorsOf(rs: seq<DNSResult>, errs: seq<Error>) {
    exists ids :: ErrorsAt(rs, ids, errs)
  }

  ghost predicate ErrorsAt(rs: seq<DNSResult>, ids: seq<nat>, errs: seq<Error>) {
    && Increasing(ids) && Below(ids, |rs|) && |errs| == |ids|
    && (forall i: nat | i < |rs| :: i in ids <==> rs[i].Failed?)
    && forall k | 0 <= k < |ids| :: rs[ids[k]] == Failed(errs[k])
  }

  lemma ResultErrsAreErrors(rs: seq<DNSResult>)
    ensures ErrorsOf(rs, FlatMap(ResultErrs, rs))
  {
    var ids := FlatMapPlaces(ResultErrs, rs);
    forall k | 0 <= k < |ids| ensures rs[ids[k]] == Failed(FlatMap(ResultErrs, rs)[k]) {
      assert ResultErrs(rs[ids[k]]) == [FlatMap(ResultErrs, rs)[k]];
    }
    assert ErrorsAt(rs, ids, FlatMap(ResultErrs, rs));
  }

  method ParseAddrsFromMsg(msg: Option<Msg>) returns (addrs: seq<IPAddr>)
    ensures addrs == ResultAddrs(Answered(msg))
    ensures AddressesOf(if msg.None? then [] else msg.value, addrs)
  {
    if msg.None? {
      RecordAddrsAreAddresses([]);
      return [];
    }
    addrs := [];
    for i := 0 to |msg.value|
      invariant addrs == FlatMap(RecordAddrs, msg.value[..i])
    {
      FlatMapSnoc(RecordAddrs, msg.value[..i], msg.value[i]);
      assert msg.value[..i + 1] == msg.value[..i] + [msg.value[i]];
      match msg.value[i] {
        case A(ip) => addrs := addrs + [IPAddr(ip, "")];
        case AAAA(ip) => addrs := addrs + [IPAddr(ip, "")];
        case OtherRecord =>
      }
    }
    assert msg.value[..|msg.value|] == msg.value;
    RecordAddrsAreAddresses(msg.value);
  }

  // ----- the consumer -----

  ghost predicate IsSorted(addrs: seq<IPAddr>, srcAddrs: IPAddr -> SrcInfo, sorted: seq<IPAddr>) {
    if |addrs| > 1 then IsSelection(addrs, srcAddrs, sorted) else sorted == addrs
  }

  /** What the consumer returns after the given results, when the channel was closed or, else,
      when the context was done. */
  ghost predicate IsOutcome(results: seq<DNSResult>, closed: bool, srcAddrs: IPAddr -> SrcInfo, out: Outcome) {
    var addrs := FlatMap(ResultAddrs, results);
    if addrs != [] then out.Addrs? && IsSorted(addrs, srcAddrs, out.addrs)
    else if closed then out == NoAddrs(FlatMap(ResultErrs, results))
    else out == CtxError
  }

  // What one select of the consumer yields.
  datatype Event = Result(res: DNSResult) | ChannelClosed | CtxDone

  function Results(events: seq<Event>): seq<DNSResult>
    requires forall i | 0 <= i < |events| :: events[i].Result?
  {
    seq(|events|, i requires 0 <= i < |events| => events[i].res)
  }

  method SortAddrs(addrs: seq<IPAddr>, srcAddrs: IPAddr -> SrcInfo) returns (sorted: seq<IPAddr>)
    ensures IsSelection(addrs, srcAddrs, sorted)
  {
    var a := new IPAddr[|addrs|](i requires 0 <= i < |addrs| => addrs[i]);
    assert a[..] == addrs;
    SortByRFC6724(a, srcAddrs);
    sorted := a[..];
  }

  // The first event that is not a result; there is at most one such place.
  ghost predicate IsFirstStop(events: seq<Event>, n: nat) {
    n < |events| && !events[n].Result? && forall i | 0 <= i < n :: events[i].Result?
  }

  // Addresses if there was one before the stop; else it is the stop that decides.
  ghost predicate OutcomeKind(events: seq<Event>, n: nat, out: Outcome)
    requires IsFirstStop(events, n)
  {
    if exists i :: 0 <= i < n && HasAddress(events[i].res) then out.Addrs?
    else if events[n].ChannelClosed? then out.NoAddrs?
    else out.CtxError?
  }

  ghost predicate HasAddress(r: DNSResult) {
    exists x :: x in Records(r) && !x.OtherRecord?
  }

  lemma KindOfOutcome(events: seq<Event>, n: nat, srcAddrs: IPAddr -> SrcInfo, out: Outcome)
    requires IsFirstStop(events, n) && IsOutcome(Results(events[..n]), events[n].ChannelClosed?, srcAddrs, out)
    ensures OutcomeKind(events, n, out)
  {
    var rs := Results(events[..n]);
    FlatMapIsEmptyIff(ResultAddrs, rs);
    forall i | 0 <= i < n ensures rs[i] == events[i].res && (ResultAddrs(rs[i]) != [] <==> HasAddress(rs[i])) {
      NoAddressRecord(rs[i]);
    }
  }

  /** The receive loop, on the events its selects yield: it stops at the first that is not a
      result. */
  method ProcessResults(events: seq<Event>, srcAddrs: IPAddr -> SrcInfo) returns (out: Outcome)
    requires exists i :: 0 <= i < |events| && !events[i].Result?
    ensures exists n: nat ::
      && IsFirstStop(events, n)
      && IsOutcome(Results(events[..n]), events[n].ChannelClosed?, srcAddrs, out)
      && OutcomeKind(events, n, out)
  {
    var errs, addrs := [], [];
    var i := 0;
    while true
      invariant i < |events| && forall j | 0 <= j < i :: events[j].Result?
      invariant addrs == FlatMap(ResultAddrs, Results(events[..i]))
      invariant errs == FlatMap(ResultErrs, Results(events[..i]))
      decreases |events| - i
    {
      match events[i] {
        case Result(res) =>
          assert Results(events[..i + 1]) == Results(events[..i]) + [res];
          FlatMapSnoc(ResultAddrs, Results(events[..i]), res);
          FlatMapSnoc(ResultErrs, Results(events[..i]), res);
          if res.Failed? {
            errs := errs + [res.err];
          } else {
            var parsed := ParseAddrsFromMsg(res.msg);
            addrs := addrs + parsed;
          }
          i := i + 1;
        case ChannelClosed =>
          if |addrs| == 0 {
            KindOfOutcome(events, i, srcAddrs, NoAddrs(errs));
            return NoAddrs(errs);
          }
          if |addrs| > 1 {
            addrs := SortAddrs(addrs, srcAddrs);
          }
          KindOfOutcome(events, i, srcAddrs, Addrs(addrs));
          return Addrs(addrs);
        case CtxDone =>
          if |addrs| > 0 {
            if |addrs| > 1 {
              addrs := SortAddrs(addrs, srcAddrs);
            }
            KindOfOutcome(events, i, srcAddrs, Addrs(addrs));
            return Addrs(addrs);
          }
          KindOfOutcome(events, i, srcAddrs, CtxError);
          return CtxError;
      }
    }
  }

  // ----- the protocol: producers, closer, consumer -----

  datatype Config = Config(responses: seq<DNSResult>, srcAddrs: IPAddr -> SrcInfo)

  datatype Consumer =
    | Receiving(addrs: seq<IPAddr>, errs: seq<Error>)
    | Returned(out: Outcome, atClose: bool)

  datatype Closer = AwaitingProducers | Ended

  /** `closes` counts how often the channel was closed; `panicked` records a send on the closed
      channel or a second close. */
  datatype State = State(pool: Pool, closer: Closer, consumer: Consumer, closes: nat, ctxDone: bool, panicked: bool)

  datatype Step =
    | ExchangeReturns(i: nat)
    | Send(i: nat)
    | GiveUp(i: nat)
    | Close
    | Receive
    | ReceiveClosed(sorted: seq<IPAddr>)
    | SeeCtxDone(sorted: seq<IPAddr>)
    | Cancel

  predicate Init(c: Config, s: State) {
    s == State(Start(|c.responses|), AwaitingProducers, Receiving([], []), 0, false, false)
  }

  function AfterResult(consumer: Consumer, res: DNSResult): Consumer
    requires consumer.Receiving?
  {
    match res
    case Failed(err) => consumer.(errs := consumer.errs + [err])
    case Answered(_) => consumer.(addrs := consumer.addrs + ResultAddrs(res))
  }

  ghost predicate NextStep(c: Config, s: State, s': State, step: Step) {
    match step
    case ExchangeReturns(i) =>
      s.pool.Has(i, Calling) && s' == s.(pool := s.pool.CallReturns(i))
    case Send(i) =>
      && s.pool.Has(i, Sending)
      && if s.closes > 0 then s' == s.(panicked := true)
         else !s.pool.BufferFull() && s' == s.(pool := s.pool.Send(i))
    case GiveUp(i) =>
      s.pool.Has(i, Sending) && s.ctxDone && s' == s.(pool := s.pool.GiveUp(i))
    case Close =>
      && s.closer.AwaitingProducers? && s.pool.AllDone()
      && s' == s.(closer := Ended, closes := s.closes + 1, panicked := s.panicked || s.closes > 0)
    case Receive =>
      && s.consumer.Receiving? && s.pool.buffer != [] && s.pool.buffer[0] < |c.responses|
      && s' == s.(pool := s.pool.Receive(), consumer := AfterResult(s.consumer, c.responses[s.pool.buffer[0]]))
    case ReceiveClosed(sorted) =>
      && s.consumer.Receiving? && s.pool.buffer == [] && s.closes > 0
      && (s.consumer.addrs != [] ==> IsSorted(s.consumer.addrs, c.srcAddrs, sorted))
      && s' == s.(consumer :=
           Returned(if s.consumer.addrs == [] then NoAddrs(s.consumer.errs) else Addrs(sorted), true))
    case SeeCtxDone(sorted) =>
      && s.consumer.Receiving? && s.ctxDone
      && (s.consumer.addrs != [] ==> IsSorted(s.consumer.addrs, c.srcAddrs, sorted))
      && s' == s.(consumer := Returned(if s.consumer.addrs == [] then CtxError else Addrs(sorted), false))
    case Cancel =>
      !s.ctxDone && s' == s.(ctxDone := true)
  }

  ghost predicate Next(c: Config, s: State, s': State) {
    exists step :: NextStep(c, s, s', step)
  }

  ghost predicate Run(c: Config, run: seq<State>) {
    && run != [] && Init(c, run[0])
    && forall i | 0 <= i < |run| - 1 :: Next(c, run[i], run[i + 1])
  }

  predicate Final(s: State) {
    s.pool.AllDone() && s.closer.Ended? && s.consumer.Returned?
  }

  // ----- invariants over every run -----

  ghost predicate Inv(c: Config, s: State) {
    && s.pool.Inv(|c.responses|)
    && !s.panicked && s.closes == (if s.closer.Ended? then 1 else 0)
    && (s.closes > 0 ==> s.pool.AllDone())
    && (!s.ctxDone ==> forall i | 0 <= i < |s.pool.workers| :: s.pool.workers[i] != GaveUp)
    && var got := Pick(c.responses, s.pool.received);
       match s.consumer
       case Receiving(addrs, errs) => addrs == FlatMap(ResultAddrs, got) && errs == FlatMap(ResultErrs, got)
       case Returned(out, atClose) =>
         && IsOutcome(got, atClose, c.srcAddrs, out)
         && (atClose ==> s.closes > 0 && s.pool.buffer == [])
         && (!s.ctxDone ==> atClose)
  }

  lemma InvInit(c: Config, s: State)
    requires Init(c, s)
    ensures Inv(c, s)
  {
  }

  lemma InvStep(c: Config, s: State, s': State, step: Step)
    requires Inv(c, s) && NextStep(c, s, s', step)
    ensures Inv(c, s')
  {
    var n := |c.responses|;
    match step {
      case ExchangeReturns(i) => CallReturnsInv(s.pool, n, i);
      case Send(i) => SendInv(s.pool, n, i);
      case GiveUp(i) => GiveUpInv(s.pool, n, i);
      case Receive =>
        ReceiveInv(s.pool, n);
        var got, res := Pick(c.responses, s.pool.received), c.responses[s.pool.buffer[0]];
        assert Pick(c.responses, s'.pool.received) == got + [res];
        FlatMapSnoc(ResultAddrs, got, res);
        FlatMapSnoc(ResultErrs, got, res);
      case _ =>
    }
  }

  lemma {:induction false} InvRun(c: Config, run: seq<State>, i: nat)
    requires Run(c, run) && i < |run|
    ensures Inv(c, run[i])
  {
    if i == 0 {
      InvInit(c, run[0]);
    } else {
      InvRun(c, run, i - 1);
      assert Next(c, run[i - 1], run[i - 1 + 1]);
      var step :| NextStep(c, run[i - 1], run[i], step);
      InvStep(c, run[i - 1], run[i], step);
    }
  }

  /** In every reachable state the channel was closed at most once, nothing was sent on it
      afterwards, and it is closed only after every producer is done. */
  lemma NoSendAfterClose(c: Config, run: seq<State>, i: nat)
    requires Run(c, run) && i < |run|
    ensures !run[i].panicked && run[i].closes <= 1
    ensures run[i].closes > 0 ==> run[i].pool.AllDone()
  {
    InvRun(c, run, i);
  }

  /** Conservation: an uncancelled lookup that has returned delivers a permutation of all A and
      AAAA records of all successful responses or, when there are none, the errors of all failed
      ones. */
  lemma NothingLost(c: Config, run: seq<State>, i: nat)
    requires Run(c, run) && i < |run| && run[i].consumer.Returned? && !run[i].ctxDone
    ensures var out := run[i].consumer.out;
      if FlatMap(ResultAddrs, c.responses) != []
      then out.Addrs? && multiset(out.addrs) == multiset(FlatMap(ResultAddrs, c.responses))
      else out.NoAddrs? && multiset(out.errs) == multiset(FlatMap(ResultErrs, c.responses))
    ensures AddressesOf(FlatMap(Records, c.responses), FlatMap(ResultAddrs, c.responses))
    ensures ErrorsOf(c.responses, FlatMap(ResultErrs, c.responses))
  {
    FlatMapOfRecords(c.responses);
    RecordAddrsAreAddresses(FlatMap(Records, c.responses));
    ResultErrsAreErrors(c.responses);
    var s := run[i];
    InvRun(c, run, i);
    assert s.pool.Log() == s.pool.received;
    AllSentLog(s.pool, |c.responses|, c.responses);
    var got := Pick(c.responses, s.pool.received);
    FlatMapOfPermutation(ResultAddrs, got, c.responses);
    FlatMapOfPermutation(ResultErrs, got, c.responses);
    var addrs, all := FlatMap(ResultAddrs, got), FlatMap(ResultAddrs, c.responses);
    assert |multiset(addrs)| == |addrs| && |multiset(all)| == |all|;
    SortedKeepsAddrs(addrs, c.srcAddrs, s.consumer.out);
  }

  lemma NoAddressRecord(r: DNSResult)
    ensures ResultAddrs(r) == [] <==> forall x | x in Records(r) :: x.OtherRecord?
  {
    var records := Records(r);
    FlatMapIsEmptyIff(RecordAddrs, records);
    assert forall i | 0 <= i < |records| :: RecordAddrs(records[i]) == [] <==> records[i].OtherRecord?;
    assert forall i | 0 <= i < |records| :: records[i] in records;
  }

  /** No address and no error, which Go returns as two nils, is what an uncancelled lookup gives
      exactly when no exchange failed and no answer has an address record. */
  lemma NothingFoundIff(c: Config, run: seq<State>, i: nat)
    requires Run(c, run) && i < |run| && run[i].consumer.Returned? && !run[i].ctxDone
    ensures run[i].consumer.out == NoAddrs([]) <==>
      forall k | 0 <= k < |c.responses| ::
        !c.responses[k].Failed? && forall r | r in Records(c.responses[k]) :: r.OtherRecord?
  {
    forall k | 0 <= k < |c.responses|
      ensures ResultAddrs(c.responses[k]) == [] <==> forall r | r in Records(c.responses[k]) :: r.OtherRecord?
    {
      NoAddressRecord(c.responses[k]);
    }
    NothingLost(c, run, i);
    FlatMapIsEmptyIff(ResultAddrs, c.responses);
    FlatMapIsEmptyIff(ResultErrs, c.responses);
    var out, errs := run[i].consumer.out, FlatMap(ResultErrs, c.responses);
    if out.NoAddrs? {
      assert |multiset(out.errs)| == |out.errs| && |multiset(errs)| == |errs|;
    }
    assert forall k | 0 <= k < |c.responses| :: ResultErrs(c.responses[k]) == [] <==> !c.responses[k].Failed?;
  }

  lemma SortedKeepsAddrs(addrs: seq<IPAddr>, srcAddrs: IPAddr -> SrcInfo, out: Outcome)
    ensures out.Addrs? && IsSorted(addrs, srcAddrs, out.addrs) ==> multiset(out.addrs) == multiset(addrs)
  {
    if out.Addrs? && IsSorted(addrs, srcAddrs, out.addrs) && |addrs| > 1 {
      SelectionIsPermutation(addrs, srcAddrs, out.addrs);
    }
  }

  lemma SortedIsSelection(addrs: seq<IPAddr>, srcAddrs: IPAddr -> SrcInfo, sorted: seq<IPAddr>)
    requires IsSorted(addrs, srcAddrs, sorted)
    ensures IsSelection(addrs, srcAddrs, sorted)
  {
  }

  /** Two uncancelled lookups with the same responses, interleaved in any two ways, agree: both
      find addresses or neither does, and the i-th addresses have the same preference rank for
      every i; in particular the first ones, which ResolveHost takes. */
  lemma RankingIgnoresInterleaving(c: Config, run: seq<State>, i: nat, run': seq<State>, i': nat)
    requires Run(c, run) && i < |run| && run[i].consumer.Returned? && !run[i].ctxDone
    requires Run(c, run') && i' < |run'| && run'[i'].consumer.Returned? && !run'[i'].ctxDone
    ensures var out, out' := run[i].consumer.out, run'[i'].consumer.out;
      || (out.NoAddrs? && out'.NoAddrs? && multiset(out.errs) == multiset(out'.errs))
      || (&& out.Addrs? && out'.Addrs? && |out.addrs| == |out'.addrs|
          && forall k | 0 <= k < |out.addrs| ::
               Rank(out.addrs[k], c.srcAddrs) == Rank(out'.addrs[k], c.srcAddrs))
  {
    NothingLost(c, run, i);
    NothingLost(c, run', i');
    var out, out' := run[i].consumer.out, run'[i'].consumer.out;
    if out.Addrs? {
      InvRun(c, run, i);
      InvRun(c, run', i');
      var x := FlatMap(ResultAddrs, Pick(c.responses, run[i].pool.received));
      var y := FlatMap(ResultAddrs, Pick(c.responses, run'[i'].pool.received));
      SortedKeepsAddrs(x, c.srcAddrs, out);
      SortedKeepsAddrs(y, c.srcAddrs, out');
      SortedIsSelection(x, c.srcAddrs, out.addrs);
      SortedIsSelection(y, c.srcAddrs, out'.addrs);
      RanksIgnoreArrivalOrder(x, y, c.srcAddrs, out.addrs, out'.addrs);
    }
  }

  /** Under cancellation too an answer holds exactly the records of some of the responses, each
      response taken once. */
  lemma CancelledAnswerIsPartial(c: Config, run: seq<State>, i: nat) returns (ids: seq<nat>)
    requires Run(c, run) && i < |run| && run[i].consumer.Returned? && run[i].consumer.out.Addrs?
    ensures Distinct(ids) && Below(ids, |c.responses|)
    ensures multiset(run[i].consumer.out.addrs) == multiset(FlatMap(ResultAddrs, Pick(c.responses, ids)))
  {
    var s := run[i];
    InvRun(c, run, i);
    ids := s.pool.received;
    forall j, k | 0 <= j < k < |ids| ensures ids[j] != ids[k] {
      assert s.pool.Log()[j] == ids[j] && s.pool.Log()[k] == ids[k];
    }
    SortedKeepsAddrs(FlatMap(ResultAddrs, Pick(c.responses, ids)), c.srcAddrs, s.consumer.out);
  }

  // ----- no deadlock, and an end -----

  ghost function Measure(s: State): nat {
    s.pool.Work() + (if s.closer.AwaitingProducers? then 1 else 0) + (if s.consumer.Receiving? then 1 else 0)
  }

  lemma StepsAreFinite(c: Config, s: State, s': State, step: Step)
    requires Inv(c, s) && NextStep(c, s, s', step) && step != Cancel
    ensures Measure(s') < Measure(s)
  {
    var n := |c.responses|;
    match step {
      case ExchangeReturns(i) => CallReturnsInv(s.pool, n, i);
      case Send(i) => SendInv(s.pool, n, i);
      case GiveUp(i) => GiveUpInv(s.pool, n, i);
      case Receive => ReceiveInv(s.pool, n);
      case _ =>
    }
  }

  lemma SortedExists(addrs: seq<IPAddr>, srcAddrs: IPAddr -> SrcInfo) returns (sorted: seq<IPAddr>)
    ensures IsSorted(addrs, srcAddrs, sorted)
  {
    sorted := addrs;
    if |addrs| > 1 {
      sorted := SelectionExists(addrs, srcAddrs);
    }
  }

  /** A lookup can be given up at any moment.  From then on the consumer waits for nobody and
      returns what it has received, sorted, or the context's error if that is nothing; and no
      producer has to wait for room in the channel. */
  lemma CancellationIsPrompt(c: Config, s: State) returns (cancelled: State, s': State)
    requires Inv(c, s) && s.consumer.Receiving?
    ensures if s.ctxDone then cancelled == s else Next(c, s, cancelled)
    ensures cancelled.ctxDone && cancelled.pool == s.pool && cancelled.consumer == s.consumer
    ensures forall i | s.pool.Has(i, Sending) :: Next(c, cancelled, cancelled.(pool := s.pool.GiveUp(i)))
    ensures Next(c, cancelled, s') && s'.pool == s.pool && s'.consumer.Returned?
    ensures IsOutcome(Pick(c.responses, s.pool.received), false, c.srcAddrs, s'.consumer.out)
  {
    cancelled := s.(ctxDone := true);
    if !s.ctxDone {
      assert NextStep(c, s, cancelled, Cancel);
    }
    forall i | s.pool.Has(i, Sending) ensures Next(c, cancelled, cancelled.(pool := s.pool.GiveUp(i))) {
      assert NextStep(c, cancelled, cancelled.(pool := s.pool.GiveUp(i)), GiveUp(i));
    }
    var sorted := SortedExists(s.consumer.addrs, c.srcAddrs);
    var out := if s.consumer.addrs == [] then CtxError else Addrs(sorted);
    s' := cancelled.(consumer := Returned(out, false));
    assert NextStep(c, cancelled, s', SeeCtxDone(sorted));
  }

  /** Exchanges that return are enough: until producers, closer and consumer have all ended, one
      of them can move, whatever the environment does, and they end after finitely many moves. */
  lemma NeverStuck(c: Config, s: State) returns (step: Step, s': State)
    requires Inv(c, s) && !Final(s)
    ensures NextStep(c, s, s', step) && step != Cancel && Measure(s') < Measure(s)
  {
    var n := |c.responses|;
    SendNeverBlocks(s.pool, n);
    if i :| 0 <= i < n && s.pool.workers[i] == Calling {
      step, s' := ExchangeReturns(i), s.(pool := s.pool.CallReturns(i));
    } else if i :| 0 <= i < n && s.pool.workers[i] == Sending {
      assert s.pool.Has(i, Sending);
      step, s' := Send(i), s.(pool := s.pool.Send(i));
    } else if s.closer.AwaitingProducers? {
      step, s' := Close, s.(closer := Ended, closes := 1);
    } else if s.pool.buffer != [] {
      step := Receive;
      assert s.pool.Log()[|s.pool.received|] == s.pool.buffer[0];
      s' := s.(pool := s.pool.Receive(), consumer := AfterResult(s.consumer, c.responses[s.pool.buffer[0]]));
    } else {
      var sorted := SortedExists(s.consumer.addrs, c.srcAddrs);
      step := ReceiveClosed(sorted);
      s' := s.(consumer :=
        Returned(if s.consumer.addrs == [] then NoAddrs(s.consumer.errs) else Addrs(sorted), true));
    }
    StepsAreFinite(c, s, s', step);
  }
}
