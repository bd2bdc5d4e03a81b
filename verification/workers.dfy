/** Goroutines that each make one call and then send its result on a shared channel whose buffer
    has one place per goroutine.  Both resolvers fan out this way; worker i's message is the
    index i, so the channel holds indices. */
module WorkerPool {
  import opened Collections

  datatype Worker = Calling | Sending | Sent | GaveUp

  datatype Pool = Pool(workers: seq<Worker>, buffer: seq<nat>, received: seq<nat>) {
    // Everything ever sent, in the order of sending: the channel is first in, first out.
    function Log(): seq<nat> {
      received + buffer
    }

    predicate Has(i: nat, w: Worker) {
      i < |workers| && workers[i] == w
    }

    predicate AllDone() {
      forall i | 0 <= i < |workers| :: workers[i] == Sent || workers[i] == GaveUp
    }

    predicate BufferFull() {
      |buffer| >= |workers|
    }

    // The steps; each has the guard under which the goroutine or the receiver is not blocked.

    function CallReturns(i: nat): Pool
      requires Has(i, Calling)
    {
      this.(workers := workers[i := Sending])
    }

    function Send(i: nat): Pool
      requires Has(i, Sending) && !BufferFull()
    {
      this.(workers := workers[i := Sent], buffer := buffer + [i])
    }

    function GiveUp(i: nat): Pool
      requires Has(i, Sending)
    {
      this.(workers := workers[i := GaveUp])
    }

    function Receive(): Pool
      requires buffer != []
    {
      this.(buffer := buffer[1..], received := received + [buffer[0]])
    }

    /** What every step keeps: the log names each worker that has sent, once. */
    ghost predicate Inv(n: nat) {
      && |workers| == n
      && Distinct(Log())
      && Below(Log(), n) && Below(received, n)
      && (forall i: nat | i < n :: i in Log() <==> workers[i] == Sent)
    }

    // A pending call weighs 3, a pending send 2 and a buffered message 1.
    ghost function Work(): nat {
      Pending(workers) + |buffer|
    }
  }

  function Start(n: nat): Pool {
    Pool(seq(n, _ => Calling), [], [])
  }

  ghost function Weight(w: Worker): nat {
    match w
    case Calling => 3
    case Sending => 2
    case Sent => 0
    case GaveUp => 0
  }

  ghost function Pending(ws: seq<Worker>): nat {
    if ws == [] then 0 else Weight(ws[0]) + Pending(ws[1..])
  }

  lemma {:induction false} PendingUpdate(ws: seq<Worker>, i: nat, w: Worker)
    requires i < |ws|
    ensures Pending(ws[i := w]) == Pending(ws) - Weight(ws[i]) + Weight(w)
  {
    if i == 0 {
      assert ws[i := w][1..] == ws[1..];
    } else {
      assert ws[i := w][1..] == ws[1..][i - 1 := w];
      PendingUpdate(ws[1..], i - 1, w);
    }
  }

  lemma CallReturnsInv(p: Pool, n: nat, i: nat)
    requires p.Inv(n) && p.Has(i, Calling)
    ensures p.CallReturns(i).Inv(n) && p.CallReturns(i).Work() < p.Work()
  {
    PendingUpdate(p.workers, i, Sending);
  }

  lemma SendInv(p: Pool, n: nat, i: nat)
    requires p.Inv(n) && p.Has(i, Sending) && !p.BufferFull()
    ensures p.Send(i).Inv(n) && p.Send(i).Work() < p.Work()
    ensures p.Send(i).Log() == p.Log() + [i]
  {
    PendingUpdate(p.workers, i, Sent);
    assert p.Send(i).Log() == p.Log() + [i];
    assert i !in p.Log();
  }

  lemma GiveUpInv(p: Pool, n: nat, i: nat)
    requires p.Inv(n) && p.Has(i, Sending)
    ensures p.GiveUp(i).Inv(n) && p.GiveUp(i).Work() < p.Work()
  {
    PendingUpdate(p.workers, i, GaveUp);
  }

  lemma ReceiveInv(p: Pool, n: nat)
    requires p.Inv(n) && p.buffer != []
    ensures p.Receive().Inv(n) && p.Receive().Work() < p.Work()
    ensures p.Receive().Log() == p.Log()
  {
    assert p.buffer == [p.buffer[0]] + p.buffer[1..];
    assert p.Log()[|p.received|] == p.buffer[0];
    assert p.Receive().Log() == p.Log();
  }

  /** Messages sent, received or not, are at most as many as the buffer has places, so the buffer
      has room whenever a worker wants to send: no send ever blocks. */
  lemma SendNeverBlocks(p: Pool, n: nat)
    requires p.Inv(n)
    ensures |p.buffer| + |p.received| <= n
    ensures forall i | p.Has(i, Sending) :: !p.BufferFull()
  {
    DistinctIndicesBounded(p.Log(), n);
    forall i | p.Has(i, Sending) ensures !p.BufferFull() {
      assert i !in p.Log();
    }
  }

  /** Once every worker has sent, the log is a permutation of all of them. */
  lemma AllSentLog<T>(p: Pool, n: nat, xs: seq<T>)
    requires p.Inv(n) && |xs| == n && forall i | 0 <= i < n :: p.workers[i] == Sent
    ensures |p.Log()| == n && multiset(Pick(xs, p.Log())) == multiset(xs)
  {
    forall i: nat | i < n ensures i in p.Log() {
    }
    PickEveryOne(xs, p.Log());
    DistinctIndicesBounded(p.Log(), n);
    assert |multiset(p.Log())| == |p.Log()| && |multiset(Iota(n))| == n;
  }
}
