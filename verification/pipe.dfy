/** pipe: two copy loops over two connections, interleaved in any way, with half-close and a
    shared pool of buffers. */
module Pipe {
  import opened Streams
  import opened Tunnel

  /** Up copies client to server, Down server to client. */
  datatype Dir = Up | Down

  datatype Stage =
    | Starting
    | Reading
    | Holding(n: nat, last: bool)   // n bytes read and not yet written; last: the read ended the loop
    | Releasing
    | ShuttingWrite
    | ShuttingRead
    | Over

  /** One direction.  `base` is what its destination had been sent before the pipe, `start` where
      in the source `data` the pipe begins; `sent` and `faulted` are history. */
  datatype Half = Half(stage: Stage, buf: nat, data: seq<Byte>, pos: nat, out: seq<Byte>,
                       base: seq<Byte>, start: nat, sent: nat, faulted: bool)
  {
    predicate HasBuffer() {
      stage.Reading? || stage.Holding? || stage.Releasing?
    }

    predicate LoopStopped() {
      stage.Releasing? || stage.ShuttingWrite? || stage.ShuttingRead? || stage.Over?
    }
  }

  datatype TcpConn = TcpConn(readShut: bool, writeShut: bool, closed: bool)

  /** `heap` holds the contents of the buffers, `free` the pool, `others` the buffers that other
      connections hold; `refused` records a read or write on a side that was already shut. */
  datatype State = State(up: Half, down: Half, l: TcpConn, r: TcpConn,
                         heap: map<nat, seq<Byte>>, free: set<nat>, others: set<nat>, refused: bool)
  {
    function At(d: Dir): Half {
      if d.Up? then up else down
    }

    function With(d: Dir, h: Half): State {
      if d.Up? then this.(up := h) else this.(down := h)
    }

    // The connection a direction reads from, and the one it writes to.
    function Src(d: Dir): TcpConn {
      if d.Up? then l else r
    }

    function Dst(d: Dir): TcpConn {
      if d.Up? then r else l
    }

    function WithSrc(d: Dir, c: TcpConn): State {
      if d.Up? then this.(l := c) else this.(r := c)
    }

    function WithDst(d: Dir, c: TcpConn): State {
      if d.Up? then this.(r := c) else this.(l := c)
    }

    predicate CanRead(d: Dir) {
      !Src(d).readShut && !Src(d).closed
    }

    predicate CanWrite(d: Dir) {
      !Dst(d).writeShut && !Dst(d).closed
    }

    // What Get returns: a pooled buffer, or a new one, which nobody has.
    predicate Available(id: nat) {
      id in free || (id !in others && !(up.HasBuffer() && up.buf == id) && !(down.HasBuffer() && down.buf == id))
    }

    predicate Over() {
      up.stage.Over? && down.stage.Over?
    }

    predicate Final() {
      Over() && l.closed && r.closed
    }
  }

  function Begin(data: seq<Byte>, start: nat, base: seq<Byte>): Half {
    Half(Starting, 0, data, start, base, base, start, start, false)
  }

  /** `client` is everything the client sends, of which `start` bytes were consumed before the pipe
      and `served` was written to the server; `server` is everything the server sends and
      `greeted` what the client had been sent. */
  datatype Config = Config(client: seq<Byte>, start: nat, served: seq<Byte>, server: seq<Byte>, greeted: seq<Byte>)

  const OPEN := TcpConn(false, false, false)

  predicate Init(c: Config, s: State) {
    && c.start <= |c.client|
    && s.up == Begin(c.client, c.start, c.served) && s.down == Begin(c.server, 0, c.greeted)
    && s.l == OPEN && s.r == OPEN && !s.refused && s.free !! s.others
  }

  datatype Step =
    | Get(d: Dir, id: nat, contents: seq<Byte>)
    | ReadSome(d: Dir, n: nat, last: bool, fault: bool)
    | ReadEnd(d: Dir, fault: bool)
    | ReadRefused(d: Dir)
    | WriteAll(d: Dir)
    | WriteFails(d: Dir, n: nat)
    | WriteRefused(d: Dir)
    | Put(d: Dir)
    | CloseWrite(d: Dir)
    | CloseRead(d: Dir)
    | CloseL
    | CloseR
    | OtherGets(id: nat, contents: seq<Byte>)
    | OtherPuts(id: nat)
    | OtherWrites(id: nat, contents: seq<Byte>)

  ghost predicate DirStep(s: State, s': State, step: Step, d: Dir) {
    var h := s.At(d);
    match step
    case Get(_, id, contents) =>
      // from the pool, or a new buffer
      && h.stage.Starting? && s.Available(id) && contents != []
      && s' == s.With(d, h.(stage := Reading, buf := id)).(free := s.free - {id}, heap := s.heap[id := contents])
    case ReadSome(_, n, last, fault) =>
      && h.stage.Reading? && s.CanRead(d) && h.buf in s.heap
      && 0 < n <= |s.heap[h.buf]| && h.pos + n <= |h.data|
      && (last && !fault ==> h.pos + n == |h.data|) && (fault ==> last)
      && s' == s.With(d, h.(stage := Holding(n, last), pos := h.pos + n, faulted := h.faulted || fault)).(
           heap := s.heap[h.buf := h.data[h.pos..h.pos + n] + s.heap[h.buf][n..]])
    case ReadEnd(_, fault) =>
      // end of file, or a failed read or deadline
      && h.stage.Reading? && s.CanRead(d) && (!fault ==> h.pos == |h.data|)
      && s' == s.With(d, h.(stage := Releasing, faulted := h.faulted || fault))
    case ReadRefused(_) =>
      && h.stage.Reading? && !s.CanRead(d)
      && s' == s.With(d, h.(stage := Releasing, faulted := true)).(refused := true)
    case WriteAll(_) =>
      && h.stage.Holding? && s.CanWrite(d) && h.buf in s.heap && h.stage.n <= |s.heap[h.buf]|
      && s' == s.With(d, h.(stage := if h.stage.last then Releasing else Reading,
                            out := h.out + s.heap[h.buf][..h.stage.n], sent := h.pos))
    case WriteFails(_, n) =>
      && h.stage.Holding? && s.CanWrite(d) && h.buf in s.heap && n <= h.stage.n <= |s.heap[h.buf]|
      && s' == s.With(d, h.(stage := Releasing, out := h.out + s.heap[h.buf][..n],
                            sent := h.sent + n, faulted := true))
    case WriteRefused(_) =>
      && h.stage.Holding? && !s.CanWrite(d)
      && s' == s.With(d, h.(stage := Releasing, faulted := true)).(refused := true)
    case Put(_) =>
      h.stage.Releasing? && s' == s.With(d, h.(stage := ShuttingWrite)).(free := s.free + {h.buf})
    case CloseWrite(_) =>
      && h.stage.ShuttingWrite?
      && s' == s.With(d, h.(stage := ShuttingRead)).WithDst(d, s.Dst(d).(writeShut := true))
    case CloseRead(_) =>
      && h.stage.ShuttingRead?
      && s' == s.With(d, h.(stage := Over)).WithSrc(d, s.Src(d).(readShut := true))
    case _ => false
  }

  ghost predicate NextStep(s: State, s': State, step: Step) {
    match step
    case CloseL => s.Over() && !s.l.closed && s' == s.(l := s.l.(closed := true))
    case CloseR => s.Over() && s.l.closed && !s.r.closed && s' == s.(r := s.r.(closed := true))
    case OtherGets(id, contents) =>
      && s.Available(id) && contents != []
      && s' == s.(free := s.free - {id}, others := s.others + {id}, heap := s.heap[id := contents])
    case OtherPuts(id) =>
      id in s.others && s' == s.(free := s.free + {id}, others := s.others - {id})
    case OtherWrites(id, contents) =>
      id in s.others && contents != [] && s' == s.(heap := s.heap[id := contents])
    case _ => DirStep(s, s', step, step.d)
  }

  ghost predicate Next(s: State, s': State) {
    exists step :: NextStep(s, s', step)
  }

  ghost predicate Run(c: Config, run: seq<State>) {
    && run != [] && Init(c, run[0])
    && forall i | 0 <= i < |run| - 1 :: Next(run[i], run[i + 1])
  }

  // ----- invariants -----

  /** Each direction stands where copyWithTimeout may stand; unless it has faulted only what it holds
      in its buffer is missing. */
  ghost predicate HalfOk(h: Half, heap: map<nat, seq<Byte>>) {
    && Forwarded(h.data, h.start, h.base, h.sent, h.pos, h.out, h.LoopStopped(), h.faulted)
    && (h.HasBuffer() ==> h.buf in heap && heap[h.buf] != [])
    && (h.stage.Starting? ==> h.pos == h.sent && !h.faulted)
    && (h.stage.Reading? ==> h.pos == h.sent && !h.faulted)
    && (h.stage.Holding? ==>
          && h.sent + h.stage.n == h.pos && h.stage.n <= |heap[h.buf]|
          && heap[h.buf][..h.stage.n] == h.data[h.sent..h.pos]
          && (h.stage.last && !h.faulted ==> h.pos == |h.data|)
          && (!h.stage.last ==> !h.faulted))
  }

  // What each direction began with is what it was given.
  ghost predicate BeganAs(c: Config, s: State) {
    && s.up.data == c.client && s.up.start == c.start && s.up.base == c.served
    && s.down.data == c.server && s.down.start == 0 && s.down.base == c.greeted
  }

  // A direction that is past Put has given its buffer back: it is in the pool, or others have it.
  ghost predicate GivenBack(s: State, d: Dir) {
    s.At(d).stage.ShuttingWrite? || s.At(d).stage.ShuttingRead? || s.At(d).stage.Over? ==>
      || s.At(d).buf in s.free || s.At(d).buf in s.others
      || (s.At(Other(d)).HasBuffer() && s.At(Other(d)).buf == s.At(d).buf)
  }

  // Buffers have one holder.
  ghost predicate BuffersApart(s: State) {
    && s.free !! s.others
    && (s.up.HasBuffer() ==> s.up.buf !in s.free && s.up.buf !in s.others)
    && (s.down.HasBuffer() ==> s.down.buf !in s.free && s.down.buf !in s.others)
    && (s.up.HasBuffer() && s.down.HasBuffer() ==> s.up.buf != s.down.buf)
  }

  // A side is shut by the direction that used it, after its loop and for certain; all is closed at
  // the end.
  ghost predicate SidesInOrder(s: State) {
    && (s.r.writeShut <==> s.up.stage.ShuttingRead? || s.up.stage.Over?)
    && (s.l.readShut <==> s.up.stage.Over?)
    && (s.l.writeShut <==> s.down.stage.ShuttingRead? || s.down.stage.Over?)
    && (s.r.readShut <==> s.down.stage.Over?)
    && (s.l.closed || s.r.closed ==> s.Over())
    && !s.refused
  }

  ghost predicate Inv(c: Config, s: State) {
    && HalfOk(s.up, s.heap) && HalfOk(s.down, s.heap)
    && BeganAs(c, s) && BuffersApart(s) && SidesInOrder(s)
    && GivenBack(s, Up) && GivenBack(s, Down)
  }

  lemma InvInit(c: Config, s: State)
    requires Init(c, s)
    ensures Inv(c, s)
  {
  }

  lemma AfterRead(h: Half, h': Half, heap: map<nat, seq<Byte>>, heap': map<nat, seq<Byte>>,
                  n: nat, last: bool, fault: bool)
    requires HalfOk(h, heap) && h.stage.Reading? && 0 < n <= |heap[h.buf]| && h.pos + n <= |h.data|
    requires (last && !fault ==> h.pos + n == |h.data|) && (fault ==> last)
    requires h' == h.(stage := Holding(n, last), pos := h.pos + n, faulted := h.faulted || fault)
    requires heap' == heap[h.buf := h.data[h.pos..h.pos + n] + heap[h.buf][n..]]
    ensures HalfOk(h', heap')
  {
  }

  lemma AfterWrite(h: Half, heap: map<nat, seq<Byte>>, n: nat)
    requires HalfOk(h, heap) && h.stage.Holding? && n <= h.stage.n
    ensures h.out + heap[h.buf][..n] == h.base + h.data[h.start..h.sent + n]
  {
    var held := heap[h.buf][..h.stage.n];
    assert heap[h.buf][..n] == held[..n];
    assert h.data[h.sent..h.pos][..n] == h.data[h.sent..h.sent + n];
    assert h.data[h.start..h.sent + n] == h.data[h.start..h.sent] + h.data[h.sent..h.sent + n];
  }

  // The direction that moves keeps its half in order.
  ghost predicate KeepsHalf(s: State, s': State, d: Dir) {
    && HalfOk(s'.At(d), s'.heap)
    && s'.At(d).data == s.At(d).data && s'.At(d).start == s.At(d).start && s'.At(d).base == s.At(d).base
  }

  lemma ReadKeepsHalf(s: State, s': State, d: Dir, n: nat, last: bool, fault: bool)
    requires HalfOk(s.At(d), s.heap) && DirStep(s, s', ReadSome(d, n, last, fault), d)
    ensures KeepsHalf(s, s', d)
  {
    AfterRead(s.At(d), s'.At(d), s.heap, s'.heap, n, last, fault);
  }

  lemma WriteKeepsHalf(s: State, s': State, d: Dir)
    requires HalfOk(s.At(d), s.heap) && DirStep(s, s', WriteAll(d), d)
    ensures KeepsHalf(s, s', d)
  {
    AfterWrite(s.At(d), s.heap, s.At(d).stage.n);
  }

  lemma FailedWriteKeepsHalf(s: State, s': State, d: Dir, n: nat)
    requires HalfOk(s.At(d), s.heap) && DirStep(s, s', WriteFails(d, n), d)
    ensures KeepsHalf(s, s', d)
  {
    AfterWrite(s.At(d), s.heap, n);
  }

  lemma PlainStepKeepsHalf(s: State, s': State, step: Step, d: Dir)
    requires HalfOk(s.At(d), s.heap) && DirStep(s, s', step, d)
    requires !step.ReadSome? && !step.WriteAll? && !step.WriteFails?
    ensures KeepsHalf(s, s', d)
  {
  }

  lemma HalfStep(s: State, s': State, step: Step, d: Dir)
    requires HalfOk(s.At(d), s.heap) && DirStep(s, s', step, d) && step.d == d
    ensures KeepsHalf(s, s', d)
  {
    match step {
      case ReadSome(_, n, last, fault) => ReadKeepsHalf(s, s', d, n, last, fault);
      case WriteAll(_) => WriteKeepsHalf(s, s', d);
      case WriteFails(_, n) => FailedWriteKeepsHalf(s, s', d, n);
      case _ => PlainStepKeepsHalf(s, s', step, d);
    }
  }

  function Other(d: Dir): Dir {
    if d.Up? then Down else Up
  }

  lemma OtherHalfStays(s: State, s': State, step: Step, d: Dir)
    requires HalfOk(s.At(d), s.heap) && HalfOk(s.At(Other(d)), s.heap) && BuffersApart(s) && DirStep(s, s', step, d)
    ensures s'.At(Other(d)) == s.At(Other(d)) && HalfOk(s'.At(Other(d)), s'.heap)
  {
  }

  lemma BuffersStayApart(s: State, s': State, step: Step, d: Dir)
    requires BuffersApart(s) && DirStep(s, s', step, d)
    ensures BuffersApart(s')
  {
  }

  lemma BuffersAreGivenBack(s: State, s': State, step: Step, d: Dir)
    requires GivenBack(s, d) && GivenBack(s, Other(d)) && DirStep(s, s', step, d)
    ensures GivenBack(s', d) && GivenBack(s', Other(d))
  {
    if step.Put? {
      OwnBufferGivenBack(s, s', step, d);
      OtherBufferGivenBack(s, s', step, d);
    } else if step.Get? {
      OtherBufferGivenBack(s, s', step, d);
    } else {
      NothingTaken(s, s', step, d);
    }
  }

  lemma OwnBufferGivenBack(s: State, s': State, step: Step, d: Dir)
    requires DirStep(s, s', step, d) && step.Put?
    ensures GivenBack(s', d)
  {
  }

  lemma OtherBufferGivenBack(s: State, s': State, step: Step, d: Dir)
    requires GivenBack(s, Other(d)) && DirStep(s, s', step, d) && (step.Put? || step.Get?)
    ensures GivenBack(s', Other(d))
  {
  }

  lemma NothingTaken(s: State, s': State, step: Step, d: Dir)
    requires GivenBack(s, d) && GivenBack(s, Other(d)) && DirStep(s, s', step, d) && !step.Put? && !step.Get?
    ensures GivenBack(s', d) && GivenBack(s', Other(d))
  {
  }

  lemma SidesStayInOrder(s: State, s': State, step: Step, d: Dir)
    requires SidesInOrder(s) && DirStep(s, s', step, d)
    ensures SidesInOrder(s')
  {
    if step.CloseWrite? || step.CloseRead? {
      ShutInOrder(s, s', step, d);
    } else {
      NotShut(s, s', step, d);
    }
  }

  lemma ShutInOrder(s: State, s': State, step: Step, d: Dir)
    requires SidesInOrder(s) && DirStep(s, s', step, d) && (step.CloseWrite? || step.CloseRead?)
    ensures SidesInOrder(s')
  {
  }

  lemma NotShut(s: State, s': State, step: Step, d: Dir)
    requires SidesInOrder(s) && DirStep(s, s', step, d) && !step.CloseWrite? && !step.CloseRead?
    ensures SidesInOrder(s')
  {
  }

  lemma DirStepKeepsInv(c: Config, s: State, s': State, step: Step, d: Dir)
    requires Inv(c, s) && DirStep(s, s', step, d) && step.d == d
    ensures Inv(c, s')
  {
    assert HalfOk(s.At(d), s.heap) && HalfOk(s.At(Other(d)), s.heap);
    HalfStep(s, s', step, d);
    OtherHalfStays(s, s', step, d);
    BuffersStayApart(s, s', step, d);
    assert GivenBack(s, d) && GivenBack(s, Other(d));
    BuffersAreGivenBack(s, s', step, d);
    SidesStayInOrder(s, s', step, d);
  }

  lemma OthersKeepInv(c: Config, s: State, s': State, step: Step)
    requires Inv(c, s) && NextStep(s, s', step) && ByOthers(step)
    ensures Inv(c, s')
  {
  }

  lemma InvStep(c: Config, s: State, s': State, step: Step)
    requires Inv(c, s) && NextStep(s, s', step)
    ensures Inv(c, s')
  {
    if ByOthers(step) {
      OthersKeepInv(c, s, s', step);
    } else if !step.CloseL? && !step.CloseR? {
      DirStepKeepsInv(c, s, s', step, step.d);
    }
  }

  lemma {:induction false} InvRun(c: Config, run: seq<State>, i: nat)
    requires Run(c, run) && i < |run|
    ensures Inv(c, run[i])
  {
    if i == 0 {
      InvInit(c, run[0]);
    } else {
      InvRun(c, run, i - 1);
      assert Next(run[i - 1], run[i - 1 + 1]);
      var step :| NextStep(run[i - 1], run[i], step);
      InvStep(c, run[i - 1], run[i], step);
    }
  }

  // ----- what holds over every run -----

  /** Transparency: if what the server had been sent before the pipe is what follows the header
      block (which ends at h) in the client's bytes, then in every state it has been sent exactly
      the client's bytes from h up to some point, and the client the server's bytes up to some
      point, in order and without a gap. */
  lemma BytesArriveInOrder(c: Config, run: seq<State>, i: nat, h: nat)
    requires Run(c, run) && i < |run|
    requires h <= c.start <= |c.client| && c.served == c.client[h..c.start]
    ensures c.start <= run[i].up.sent <= |c.client| && run[i].up.out == c.client[h..run[i].up.sent]
    ensures run[i].down.sent <= |c.server| && run[i].down.out == c.greeted + c.server[..run[i].down.sent]
  {
    InvRun(c, run, i);
    var up := run[i].up;
    assert c.client[h..up.sent] == c.client[h..c.start] + c.client[c.start..up.sent];
  }

  /** A direction that met no fault of its own has forwarded its whole stream once its loop has
      stopped, whatever happened in the other one. */
  lemma WholeStreamArrives(c: Config, run: seq<State>, i: nat, h: nat)
    requires Run(c, run) && i < |run|
    requires h <= c.start <= |c.client| && c.served == c.client[h..c.start]
    ensures run[i].up.LoopStopped() && !run[i].up.faulted ==> run[i].up.out == c.client[h..]
    ensures run[i].down.LoopStopped() && !run[i].down.faulted ==> run[i].down.out == c.greeted + c.server
  {
    BytesArriveInOrder(c, run, i, h);
    InvRun(c, run, i);
  }

  /** Half-close: a direction shuts the side it wrote to and then the one it read from, each of them
      for certain and only after its loop has stopped, so neither direction ever runs into a side
      shut by the other; and the connections are closed only after both. */
  lemma HalfCloseIsOrderly(c: Config, run: seq<State>, i: nat)
    requires Run(c, run) && i < |run|
    ensures run[i].r.writeShut || run[i].l.readShut ==> run[i].up.LoopStopped()
    ensures run[i].l.writeShut || run[i].r.readShut ==> run[i].down.LoopStopped()
    ensures run[i].up.stage.Over? ==> run[i].r.writeShut && run[i].l.readShut
    ensures run[i].down.stage.Over? ==> run[i].l.writeShut && run[i].r.readShut
    ensures run[i].r.writeShut <==> run[i].up.stage.ShuttingRead? || run[i].up.stage.Over?
    ensures run[i].l.writeShut <==> run[i].down.stage.ShuttingRead? || run[i].down.stage.Over?
    ensures run[i].l.closed || run[i].r.closed ==> run[i].up.stage.Over? && run[i].down.stage.Over?
    ensures !run[i].refused
    ensures forall d: Dir :: !run[i].At(d).LoopStopped() ==> run[i].CanRead(d) && run[i].CanWrite(d)
  {
    InvRun(c, run, i);
  }

  /** A buffer in use is held by one direction of one connection and is not in the pool; and no
      buffer is lost: one that a direction has used is afterwards in the pool or in use again. */
  lemma BuffersHaveOneHolder(c: Config, run: seq<State>, i: nat, d: Dir)
    requires Run(c, run) && i < |run|
    ensures var s := run[i];
      && (s.At(d).HasBuffer() ==>
            && s.At(d).buf !in s.free && s.At(d).buf !in s.others
            && (s.At(Other(d)).HasBuffer() ==> s.At(Other(d)).buf != s.At(d).buf))
      && (s.At(d).stage.Over? ==>
            || s.At(d).buf in s.free || s.At(d).buf in s.others
            || (s.At(Other(d)).HasBuffer() && s.At(Other(d)).buf == s.At(d).buf))
  {
    InvRun(c, run, i);
    assert GivenBack(run[i], d);
  }

  // ----- no deadlock, and an end -----

  predicate ByOthers(step: Step) {
    step.OtherGets? || step.OtherPuts? || step.OtherWrites?
  }

  function StageWeight(h: Half): nat {
    match h.stage
    case Starting => 6
    case Reading => 4
    case Holding(_, _) => 5
    case Releasing => 3
    case ShuttingWrite => 2
    case ShuttingRead => 1
    case Over => 0
  }

  function Left(h: Half): int {
    2 * (|h.data| - h.pos) + StageWeight(h)
  }

  function Measure(s: State): int {
    Left(s.up) + Left(s.down) + (if s.l.closed then 0 else 1) + (if s.r.closed then 0 else 1)
  }

  lemma StepsAreFinite(c: Config, s: State, s': State, step: Step)
    requires Inv(c, s) && NextStep(s, s', step) && !ByOthers(step)
    ensures 0 <= Measure(s') < Measure(s)
  {
    MeasureStaysBounded(c, s, s', step);
    MeasureDrops(s, s', step);
  }

  lemma MeasureDrops(s: State, s': State, step: Step)
    requires NextStep(s, s', step) && !ByOthers(step)
    ensures Measure(s') < Measure(s)
  {
    if !step.CloseL? && !step.CloseR? {
      HalvesAdvance(s, s', step, step.d);
    }
  }

  lemma MeasureStaysBounded(c: Config, s: State, s': State, step: Step)
    requires Inv(c, s) && NextStep(s, s', step)
    ensures 0 <= Measure(s')
  {
    InvStep(c, s, s', step);
    MeasureBounded(c, s');
  }

  lemma MeasureBounded(c: Config, s: State)
    requires Inv(c, s)
    ensures 0 <= Measure(s)
  {
  }

  lemma HalvesAdvance(s: State, s': State, step: Step, d: Dir)
    requires DirStep(s, s', step, d)
    ensures Left(s'.At(d)) < Left(s.At(d)) && s'.At(Other(d)) == s.At(Other(d))
    ensures s'.l.closed == s.l.closed && s'.r.closed == s.r.closed
  {
  }

  lemma {:induction false} NewId(used: set<nat>) returns (id: nat)
    ensures id !in used && forall x | x in used :: x < id
  {
    if used == {} {
      id := 0;
    } else {
      var x :| x in used;
      var y := NewId(used - {x});
      id := if y <= x then x + 1 else y;
      assert used == (used - {x}) + {x};
    }
  }

  lemma DirectionCanMove(c: Config, s: State, d: Dir) returns (step: Step, s': State)
    requires Inv(c, s) && !s.At(d).stage.Over?
    ensures !ByOthers(step) && !step.CloseL? && !step.CloseR? && step.d == d && DirStep(s, s', step, d)
  {
    var h := s.At(d);
    assert HalfOk(h, s.heap);
    match h.stage {
      case Starting =>
        var id := NewId(s.free + s.others + {s.up.buf, s.down.buf});
        step := Get(d, id, [0]);
        s' := s.With(d, h.(stage := Reading, buf := id)).(free := s.free - {id}, heap := s.heap[id := [0]]);
      case Reading =>
        if h.pos == |h.data| {
          step, s' := ReadEnd(d, false), s.With(d, h.(stage := Releasing));
        } else {
          step := ReadSome(d, 1, false, false);
          s' := s.With(d, h.(stage := Holding(1, false), pos := h.pos + 1)).(
            heap := s.heap[h.buf := h.data[h.pos..h.pos + 1] + s.heap[h.buf][1..]]);
        }
      case Holding(n, last) =>
        step := WriteAll(d);
        s' := s.With(d, h.(stage := if last then Releasing else Reading,
                           out := h.out + s.heap[h.buf][..n], sent := h.pos));
      case Releasing =>
        step, s' := Put(d), s.With(d, h.(stage := ShuttingWrite)).(free := s.free + {h.buf});
      case ShuttingWrite =>
        step := CloseWrite(d);
        s' := s.With(d, h.(stage := ShuttingRead)).WithDst(d, s.Dst(d).(writeShut := true));
      case ShuttingRead =>
        step := CloseRead(d);
        s' := s.With(d, h.(stage := Over)).WithSrc(d, s.Src(d).(readShut := true));
    }
  }

  /** A read, a deadline or a write can fail at any moment of a copy, the write after any part of
      what it was given.  It ends that direction and touches neither the other one nor a side. */
  lemma FaultEndsOneDirection(c: Config, s: State, d: Dir, n: nat) returns (s': State)
    requires Inv(c, s) && (s.At(d).stage.Reading? || s.At(d).stage.Holding?)
    requires n <= if s.At(d).stage.Holding? then s.At(d).stage.n else 0
    ensures Next(s, s') && s'.At(Other(d)) == s.At(Other(d)) && s'.l == s.l && s'.r == s.r
    ensures var h, h' := s.At(d), s'.At(d);
      && h'.stage.Releasing? && h'.faulted && h'.sent == h.sent + n
      && h'.out == h.out + h.data[h.sent..h.sent + n]
  {
    if s.At(d).stage.Reading? {
      s' := ReadFault(c, s, d);
    } else {
      s' := WriteFault(c, s, d, n);
    }
  }

  lemma ReadFault(c: Config, s: State, d: Dir) returns (s': State)
    requires Inv(c, s) && s.At(d).stage.Reading?
    ensures NextStep(s, s', ReadEnd(d, true))
    ensures s' == s.With(d, s.At(d).(stage := Releasing, faulted := true))
  {
    s' := s.With(d, s.At(d).(stage := Releasing, faulted := true));
  }

  lemma WriteFault(c: Config, s: State, d: Dir, n: nat) returns (s': State)
    requires Inv(c, s) && s.At(d).stage.Holding? && n <= s.At(d).stage.n
    ensures NextStep(s, s', WriteFails(d, n))
    ensures var h := s.At(d);
      s' == s.With(d, h.(stage := Releasing, out := h.out + h.data[h.sent..h.sent + n],
                         sent := h.sent + n, faulted := true))
  {
    var h := s.At(d);
    Held(h, s.heap, n);
    s' := s.With(d, h.(stage := Releasing, out := h.out + h.data[h.sent..h.sent + n],
                       sent := h.sent + n, faulted := true));
  }

  lemma Held(h: Half, heap: map<nat, seq<Byte>>, n: nat)
    requires HalfOk(h, heap) && h.stage.Holding? && n <= h.stage.n
    ensures heap[h.buf][..n] == h.data[h.sent..h.sent + n]
  {
    assert heap[h.buf][..n] == heap[h.buf][..h.stage.n][..n];
  }

  /** Reads that return are enough: until both connections are closed the tunnel can move, and it
      reaches that end after finitely many moves. */
  lemma NeverStuck(c: Config, s: State) returns (step: Step, s': State)
    requires Inv(c, s) && !s.Final()
    ensures NextStep(s, s', step) && !ByOthers(step) && 0 <= Measure(s') < Measure(s)
  {
    if !s.up.stage.Over? {
      step, s' := DirectionCanMove(c, s, Up);
    } else if !s.down.stage.Over? {
      step, s' := DirectionCanMove(c, s, Down);
    } else if !s.l.closed {
      step, s' := CloseL, s.(l := s.l.(closed := true));
    } else {
      step, s' := CloseR, s.(r := s.r.(closed := true));
    }
    StepsAreFinite(c, s, s', step);
  }
}

/** The way into the pipe for one CONNECT request. */
module Session {
  import opened Options
  import opened Streams
  import opened HttpHeader
  import opened Tunnel
  import Tls
  import Pipe

  /** The reader that took the header block off the connection is the one Serve reads the
      ClientHello from and the pipe copies from: so the pipe begins with the server having been
      sent exactly what follows the header block.  Parsing, name resolution and dialling come in
      as their results. */
  method Connect(conn: Conn, client: Reader, port: PortField, version: seq<Byte>, dialed: Option<Conn>,
                 exploit: bool, windowSize: int, ghost serverBytes: seq<Byte>)
    returns (stage: Stage, ghost c: Pipe.Config, ghost h: nat)
    requires client.Valid() && client.pos == 0 && !conn.closed
    requires dialed.Some? ==> dialed.value != conn && !dialed.value.closed
    requires dialed.Some? ==> dialed.value.written == [] && dialed.value.writes == []
    modifies conn, client`pos, client`faults, if dialed.Some? then {dialed.value} else {}
    ensures stage == Piping ==>
      && dialed.Some? && BlockEnd(client.data, 0) == Some(h)
      && c == Pipe.Config(client.data, client.pos, dialed.value.written, serverBytes, conn.written)
      && h <= c.start <= |c.client| && c.served == c.client[h..c.start]
    ensures stage == Piping ==> SentAs(dialed.value.writes, c.served, exploit, windowSize)
    ensures stage == Aborted ==> conn.closed
    ensures h <= client.pos <= |client.data|
    ensures dialed.Some? ==> dialed.value.written <= client.data[h..client.pos]
    ensures dialed.Some? && dialed.value.written != [] ==> BlockEnd(client.data, 0) == Some(h)
    ensures client.faults == old(client.faults) && conn.faults == old(conn.faults) ==>
      (dialed.Some? ==> dialed.value.faults == old(dialed.value.faults)) ==>
        (stage == Piping <==>
           && dialed.Some? && TargetPort(port).Some?
           && BlockEnd(client.data, 0).Some? && BlockEnd(client.data, 0).value <= 65536
           && Tls.HasClientHello(client.data[BlockEnd(client.data, 0).value..]))
  {
    c, h := Pipe.Config([], 0, [], [], []), 0;
    var block, err := ReadHeaderBlock(client);
    if err.Some? {
      conn.Close();
      return Aborted, c, h;
    }
    h := client.pos;
    stage := Serve(port, version, conn, client, dialed, exploit, windowSize);
    if stage == Piping {
      c := Pipe.Config(client.data, client.pos, dialed.value.written, serverBytes, conn.written);
    }
  }
}
