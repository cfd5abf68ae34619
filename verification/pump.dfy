/**
 * One iteration of the session pump `pass_all`, with the system calls taken
 * out: the readiness wait and every transfer are inputs, and what remains is
 * the bookkeeping over interest sets, two buffers, three slices and `quit`.
 *
 * Assumed contract of the transfer routines, whose code is not part of this
 * model: a successful read from a descriptor commits bytes into the buffer,
 * never more than the writable region holds; a successful write to a
 * descriptor advances the slice by an amount, never more than it can read;
 * a failed transfer moves no offset. The model enforces the two bounds by
 * clamping what the inputs offer.
 */
module Pump {
  import opened ZeroCopy

  /** The four endpoints: host input, host output, pty master, log file. */
  datatype Fd = StdIn | StdOut | Master | Log

  /** IO_TO_CHILD_BUFSIZE and IO_FROM_CHILD_BUFSIZE. */
  const ToChildSize: nat := 32
  const FromChildSize: nat := 4096

  /** What `pass_all` keeps across iterations. */
  datatype State = State(
    readInterest: set<Fd>,
    writeInterest: set<Fd>,
    inbound: Buffer,
    toChild: Slice,
    outbound: Buffer,
    toHost: Slice,
    toLog: Slice,
    quit: bool)

  /** What the readiness wait reported. */
  datatype Wait =
    | Ready(readable: set<Fd>, writable: set<Fd>)  // the wait returned a positive count
    | NoneReady                                     // the wait returned 0
    | Interrupted(childExited: bool)                // -1 with EINTR; the handler may have run
    | WaitFailed                                    // -1 with any other errno

  /** Result of reading from a descriptor into a buffer. */
  datatype Inflow = Received(bytes: seq<bv8>) | ReadFailed

  /** Result of writing a slice's data to a descriptor. */
  datatype Outflow = Sent(count: nat) | WriteFailed

  /** The transfer results available to one iteration, one per dispatch branch. */
  datatype Outcomes = Outcomes(
    fromStdIn: Inflow,
    toMaster: Outflow,
    fromMaster: Inflow,
    toStdOut: Outflow,
    toLogFile: Outflow)

  /**
   * Which write offset the master-writable branch compares the inbound slice
   * with: the outbound buffer's, as the source does, or the inbound buffer's.
   */
  datatype MasterDrainTest = AgainstOutbound | AgainstInbound

  /** The state after an iteration, and whether the loop ends there. */
  datatype Step = Step(state: State, exit: bool)

  predicate WellFormed(p: State) {
    && p.readInterest == {Master, StdIn}
    && p.writeInterest <= {Master, StdOut, Log}
    && Bounded(p.inbound) && p.inbound.size == ToChildSize && Within(p.inbound, p.toChild)
    && Bounded(p.outbound) && p.outbound.size == FromChildSize
    && Within(p.outbound, p.toHost) && Within(p.outbound, p.toLog)
  }

  /** Keystrokes waiting for the child keep the master in the write-interest set. */
  predicate InputTracked(p: State)
    requires WellFormed(p)
  {
    HasDataToRead(p.inbound, p.toChild) ==> Master in p.writeInterest
  }

  /**
   * Child output waiting for the host keeps the host output watched; child
   * output waiting for the log keeps the host output or the log watched
   * (the log is enlisted once the host output has been written).
   */
  predicate OutputTracked(p: State)
    requires WellFormed(p)
  {
    && (HasDataToRead(p.outbound, p.toHost) ==> StdOut in p.writeInterest)
    && (HasDataToRead(p.outbound, p.toLog) ==> StdOut in p.writeInterest || Log in p.writeInterest)
  }

  /** After realignment, a buffer every reader has drained is rewound to 0. */
  predicate Reclaimed(p: State) {
    && (CaughtUp(p.inbound, [p.toChild]) ==> p.inbound.write == 0)
    && (CaughtUp(p.outbound, [p.toHost, p.toLog]) ==> p.outbound.write == 0)
  }

  function Min(a: nat, b: nat): nat {
    if a <= b then a else b
  }

  /** The state `pass_all` sets up before its loop. */
  function Start(): (p: State)
    ensures WellFormed(p) && InputTracked(p) && OutputTracked(p)
    ensures p.writeInterest == {Master} && !p.quit
    ensures p.inbound.write == 0 && p.outbound.write == 0
    ensures forall i :: 0 <= i < ToChildSize ==> p.inbound.data[i] == 0
    ensures forall i :: 0 <= i < FromChildSize ==> p.outbound.data[i] == 0
  {
    var inbound := New(ToChildSize, true).value;
    var outbound := New(FromChildSize, true).value;
    State({Master, StdIn}, {Master}, inbound, GetReadSlice(inbound, 0),
          outbound, GetReadSlice(outbound, 0), GetReadSlice(outbound, 0), false)
  }

  /** `after` is `before` followed by a prefix of `bytes`. */
  predicate Appended(before: seq<bv8>, after: seq<bv8>, bytes: seq<bv8>) {
    exists k :: 0 <= k <= |bytes| && after == before + bytes[..k]
  }

  /** `after` is what remains of `before` once some of its front has been consumed. */
  predicate Shrunk(before: seq<bv8>, after: seq<bv8>) {
    |after| <= |before| && after == before[|before| - |after|..]
  }

  /** Two readers of one buffer are both handed the same prefix of `bytes`. */
  predicate BothAppended(before1: seq<bv8>, after1: seq<bv8>, before2: seq<bv8>, after2: seq<bv8>, bytes: seq<bv8>) {
    exists k :: 0 <= k <= |bytes| && after1 == before1 + bytes[..k] && after2 == before2 + bytes[..k]
  }

  /**
   * The pending bytes `after` are `before` followed by the first `k` of
   * `bytes`, less some consumed from the front: nothing is invented, dropped
   * from the middle or reordered.
   */
  predicate Conveyed(before: seq<bv8>, after: seq<bv8>, bytes: seq<bv8>, k: nat) {
    k <= |bytes| && Shrunk(before + bytes[..k], after)
  }

  /** `b'` holds what `b` had committed, followed by a prefix of `bytes`: the writer only appends. */
  predicate Extends(b: Buffer, b': Buffer, bytes: seq<bv8>) {
    && Bounded(b) && Bounded(b') && b'.size == b.size
    && b.write <= b'.write <= b.write + |bytes|
    && b'.data[..b'.write] == b.data[..b.write] + bytes[..b'.write - b.write]
  }

  /** The bytes a branch's read delivered, if the branch ran and its read succeeded. */
  function Offered(f: Inflow, ran: bool): seq<bv8> {
    if ran && f.Received? then f.bytes else []
  }

  /**
   * A buffer that was only appended to, read by a slice that only advanced:
   * the slice's pending bytes are conveyed, the appended count being the
   * growth of the write offset.
   */
  lemma ExtendsConveys(b: Buffer, b': Buffer, bytes: seq<bv8>, s: Slice, s': Slice)
    requires Extends(b, b', bytes) && Within(b, s) && Within(b', s') && s.read <= s'.read
    ensures Conveyed(Readable(b, s), Readable(b', s'), bytes, b'.write - b.write)
  {
    var k := b'.write - b.write;
    var grown := Readable(b, s) + bytes[..k];
    assert grown == b'.data[..b'.write][s.read..];
    assert Readable(b', s') == grown[s'.read - s.read..];
  }

  /** A successful read commits as much as fits. */
  function Fill(b: Buffer, bytes: seq<bv8>): (r: Buffer)
    requires Bounded(b)
    ensures Bounded(r) && r.size == b.size && r.write == b.write + Min(|bytes|, WritableSize(b))
    ensures Extends(b, r, bytes)
  {
    var r := Commit(b, bytes[..Min(|bytes|, WritableSize(b))]);
    assert r.data[..r.write] == r.data[..b.write] + r.data[b.write..r.write];
    r
  }

  /** A successful write consumes as much as the slice can read. */
  function Drain(b: Buffer, s: Slice, count: nat): (r: Slice)
    requires Within(b, s)
    ensures Within(b, r) && s.read <= r.read
    ensures Bounded(b) ==> Shrunk(Readable(b, s), Readable(b, r))
  {
    var r := MoveReadOffset(b, s, Min(count, ReadableSize(b, s)));
    assert Bounded(b) ==> Readable(b, s)[r.read - s.read..] == Readable(b, r);
    r
  }

  /** Host input readable: fill the inbound buffer, then watch the log and the master. */
  function OnStdInReadable(p: State, f: Inflow): (q: State)
    requires WellFormed(p)
    ensures WellFormed(q) && q.readInterest == p.readInterest
    ensures f.Received? ==> q.writeInterest == p.writeInterest + {Log, Master} && q.quit == p.quit
    ensures q.toChild == p.toChild && q.outbound == p.outbound && q.toHost == p.toHost && q.toLog == p.toLog
    ensures f.Received? ==> Appended(Readable(p.inbound, p.toChild), Readable(q.inbound, q.toChild), f.bytes)
    ensures Extends(p.inbound, q.inbound, Offered(f, true))
    ensures f.ReadFailed? ==> q == p.(quit := true)
    ensures OutputTracked(p) ==> OutputTracked(q)
    ensures InputTracked(p) ==> InputTracked(q)
  {
    match f
    case Received(bytes) =>
      var k := Min(|bytes|, WritableSize(p.inbound));
      ReaderSeesCommit(p.inbound, p.toChild, bytes[..k]);
      p.(inbound := Fill(p.inbound, bytes), writeInterest := p.writeInterest + {Log, Master})
    case ReadFailed => p.(quit := true)
  }

  /**
   * Master writable: drain the inbound slice into the child; drop the master
   * from write interest when the slice's offset equals the write offset the
   * test names.
   */
  function OnMasterWritable(p: State, f: Outflow, test: MasterDrainTest): (q: State)
    requires WellFormed(p)
    ensures WellFormed(q) && q.readInterest == p.readInterest
    ensures q.inbound == p.inbound && q.outbound == p.outbound && q.toHost == p.toHost && q.toLog == p.toLog
    ensures f.Sent? ==> q.quit == p.quit && Shrunk(Readable(p.inbound, p.toChild), Readable(q.inbound, q.toChild))
    ensures p.toChild.read <= q.toChild.read
    ensures f.Sent? && test.AgainstOutbound? ==>
      q.writeInterest == (if q.toChild.read == p.outbound.write then p.writeInterest - {Master} else p.writeInterest)
    ensures f.Sent? && test.AgainstInbound? ==>
      q.writeInterest == (if HasDataToRead(q.inbound, q.toChild) then p.writeInterest else p.writeInterest - {Master})
    ensures f.WriteFailed? ==> q == p.(quit := true)
    ensures OutputTracked(p) ==> OutputTracked(q)
    ensures test.AgainstInbound? && InputTracked(p) ==> InputTracked(q)
  {
    match f
    case Sent(count) =>
      var s := Drain(p.inbound, p.toChild, count);
      var target := if test.AgainstOutbound? then p.outbound.write else p.inbound.write;
      p.(toChild := s,
         writeInterest := if s.read == target then p.writeInterest - {Master} else p.writeInterest)
    case WriteFailed => p.(quit := true)
  }

  /** Master readable: fill the outbound buffer, then watch the host output. */
  function OnMasterReadable(p: State, f: Inflow): (q: State)
    requires WellFormed(p)
    ensures WellFormed(q) && q.readInterest == p.readInterest
    ensures f.Received? ==> q.writeInterest == p.writeInterest + {StdOut} && q.quit == p.quit
    ensures q.inbound == p.inbound && q.toChild == p.toChild && q.toHost == p.toHost && q.toLog == p.toLog
    ensures f.Received? ==> BothAppended(Readable(p.outbound, p.toHost), Readable(q.outbound, q.toHost),
                                         Readable(p.outbound, p.toLog), Readable(q.outbound, q.toLog), f.bytes)
    ensures Extends(p.outbound, q.outbound, Offered(f, true))
    ensures f.ReadFailed? ==> q == p.(quit := true)
    ensures OutputTracked(p) ==> OutputTracked(q)
    ensures InputTracked(p) ==> InputTracked(q)
  {
    match f
    case Received(bytes) =>
      var k := Min(|bytes|, WritableSize(p.outbound));
      ReaderSeesCommit(p.outbound, p.toHost, bytes[..k]);
      ReaderSeesCommit(p.outbound, p.toLog, bytes[..k]);
      p.(outbound := Fill(p.outbound, bytes), writeInterest := p.writeInterest + {StdOut})
    case ReadFailed => p.(quit := true)
  }

  /**
   * Host output writable: drain the host slice; stop watching the host output
   * once that slice has caught up, and in every case start watching the log.
   */
  function OnStdOutWritable(p: State, f: Outflow): (q: State)
    requires WellFormed(p)
    ensures WellFormed(q) && q.readInterest == p.readInterest
    ensures q.inbound == p.inbound && q.toChild == p.toChild && q.outbound == p.outbound && q.toLog == p.toLog
    ensures f.Sent? ==> q.quit == p.quit && Shrunk(Readable(p.outbound, p.toHost), Readable(q.outbound, q.toHost))
    ensures p.toHost.read <= q.toHost.read
    ensures f.Sent? ==> Log in q.writeInterest
    ensures f.Sent? ==> (StdOut in q.writeInterest <==> HasDataToRead(q.outbound, q.toHost) && StdOut in p.writeInterest)
    ensures f.Sent? ==> q.writeInterest - {StdOut, Log} == p.writeInterest - {StdOut, Log}
    ensures f.WriteFailed? ==> q == p.(quit := true)
    ensures OutputTracked(p) ==> OutputTracked(q)
    ensures InputTracked(p) ==> InputTracked(q)
  {
    match f
    case Sent(count) =>
      var s := Drain(p.outbound, p.toHost, count);
      var w := if s.read == p.outbound.write then p.writeInterest - {StdOut} else p.writeInterest;
      p.(toHost := s, writeInterest := w + {Log})
    case WriteFailed => p.(quit := true)
  }

  /** Log writable: drain the log slice; stop watching the log once it has caught up. */
  function OnLogWritable(p: State, f: Outflow): (q: State)
    requires WellFormed(p)
    ensures WellFormed(q) && q.readInterest == p.readInterest
    ensures q.inbound == p.inbound && q.toChild == p.toChild && q.outbound == p.outbound && q.toHost == p.toHost
    ensures f.Sent? ==> q.quit == p.quit && Shrunk(Readable(p.outbound, p.toLog), Readable(q.outbound, q.toLog))
    ensures p.toLog.read <= q.toLog.read
    ensures f.Sent? ==> (Log in q.writeInterest <==> HasDataToRead(q.outbound, q.toLog) && Log in p.writeInterest)
    ensures f.Sent? ==> q.writeInterest - {Log} == p.writeInterest - {Log}
    ensures f.WriteFailed? ==> q == p.(quit := true)
    ensures OutputTracked(p) ==> OutputTracked(q)
    ensures InputTracked(p) ==> InputTracked(q)
  {
    match f
    case Sent(count) =>
      var s := Drain(p.outbound, p.toLog, count);
      p.(toLog := s,
         writeInterest := if s.read == p.outbound.write then p.writeInterest - {Log} else p.writeInterest)
    case WriteFailed => p.(quit := true)
  }

  /** The first realignment call: the inbound buffer against its one slice. */
  function RealignInbound(p: State): (q: State)
    requires WellFormed(p)
    ensures WellFormed(q) && q == p.(inbound := q.inbound, toChild := q.toChild)
    ensures CaughtUp(q.inbound, [q.toChild]) ==> q.inbound.write == 0
    ensures Readable(q.inbound, q.toChild) == Readable(p.inbound, p.toChild)
  {
    var r := Realign(p.inbound, [p.toChild]);
    RealignAllOrNothing(p.inbound, [p.toChild]);
    RealignKeepsPending(p.inbound, [p.toChild], 0);
    p.(inbound := r.buffer, toChild := r.slices[0])
  }

  /** The second realignment call: the outbound buffer against both its slices. */
  function RealignOutbound(p: State): (q: State)
    requires WellFormed(p)
    ensures WellFormed(q) && q == p.(outbound := q.outbound, toHost := q.toHost, toLog := q.toLog)
    ensures CaughtUp(q.outbound, [q.toHost, q.toLog]) ==> q.outbound.write == 0
    ensures Readable(q.outbound, q.toHost) == Readable(p.outbound, p.toHost)
    ensures Readable(q.outbound, q.toLog) == Readable(p.outbound, p.toLog)
  {
    var r := Realign(p.outbound, [p.toHost, p.toLog]);
    RealignAllOrNothing(p.outbound, [p.toHost, p.toLog]);
    RealignKeepsPending(p.outbound, [p.toHost, p.toLog], 0);
    RealignKeepsPending(p.outbound, [p.toHost, p.toLog], 1);
    p.(outbound := r.buffer, toHost := r.slices[0], toLog := r.slices[1])
  }

  /** The two realignment calls that close every successful iteration. */
  function RealignBoth(p: State): (q: State)
    requires WellFormed(p)
    ensures WellFormed(q) && Reclaimed(q)
    ensures q.readInterest == p.readInterest && q.writeInterest == p.writeInterest && q.quit == p.quit
    ensures Readable(q.inbound, q.toChild) == Readable(p.inbound, p.toChild)
    ensures Readable(q.outbound, q.toHost) == Readable(p.outbound, p.toHost)
    ensures Readable(q.outbound, q.toLog) == Readable(p.outbound, p.toLog)
    ensures OutputTracked(p) ==> OutputTracked(q)
    ensures InputTracked(p) ==> InputTracked(q)
  {
    RealignOutbound(RealignInbound(p))
  }

  /** Dispatch steps (a) and (b): host input readable, then master writable. */
  function InboundStage(p: State, ready: set<Fd>, writable: set<Fd>, o: Outcomes, test: MasterDrainTest): (q: State)
    requires WellFormed(p)
    ensures WellFormed(q) && q.readInterest == p.readInterest
    ensures q.quit <==> || p.quit
                        || (StdIn in ready && o.fromStdIn.ReadFailed?)
                        || (Master in writable && o.toMaster.WriteFailed?)
    ensures Extends(p.inbound, q.inbound, Offered(o.fromStdIn, StdIn in ready)) && p.toChild.read <= q.toChild.read
    ensures q.outbound == p.outbound && q.toHost == p.toHost && q.toLog == p.toLog
    ensures OutputTracked(p) ==> OutputTracked(q)
    ensures test.AgainstInbound? && InputTracked(p) ==> InputTracked(q)
  {
    var p1 := if StdIn in ready then OnStdInReadable(p, o.fromStdIn) else p;
    if Master in writable then OnMasterWritable(p1, o.toMaster, test) else p1
  }

  /** Dispatch steps (c) to (e): master readable, host output writable, log writable. */
  function OutboundStage(p: State, ready: set<Fd>, writable: set<Fd>, o: Outcomes): (q: State)
    requires WellFormed(p)
    ensures WellFormed(q) && q.readInterest == p.readInterest
    ensures q.quit <==> || p.quit
                        || (Master in ready && o.fromMaster.ReadFailed?)
                        || (StdOut in writable && o.toStdOut.WriteFailed?)
                        || (Log in writable && o.toLogFile.WriteFailed?)
    ensures q.inbound == p.inbound && q.toChild == p.toChild
    ensures Extends(p.outbound, q.outbound, Offered(o.fromMaster, Master in ready))
    ensures p.toHost.read <= q.toHost.read && p.toLog.read <= q.toLog.read
    ensures OutputTracked(p) ==> OutputTracked(q)
    ensures InputTracked(p) ==> InputTracked(q)
  {
    var p3 := if Master in ready then OnMasterReadable(p, o.fromMaster) else p;
    var p4 := if StdOut in writable then OnStdOutWritable(p3, o.toStdOut) else p3;
    if Log in writable then OnLogWritable(p4, o.toLogFile) else p4
  }

  /** Some branch that ran had its transfer fail; the arguments are the ready descriptors. */
  predicate SomeTransferFailed(ready: set<Fd>, writable: set<Fd>, o: Outcomes) {
    || (StdIn in ready && o.fromStdIn.ReadFailed?)
    || (Master in writable && o.toMaster.WriteFailed?)
    || (Master in ready && o.fromMaster.ReadFailed?)
    || (StdOut in writable && o.toStdOut.WriteFailed?)
    || (Log in writable && o.toLogFile.WriteFailed?)
  }

  /**
   * From `p` to `q` the inbound buffer only gained a prefix of `fromHost`, the
   * outbound buffer only gained a prefix of `fromChild`, and no slice moved back.
   */
  predicate Advanced(p: State, q: State, fromHost: seq<bv8>, fromChild: seq<bv8>) {
    && Extends(p.inbound, q.inbound, fromHost) && Extends(p.outbound, q.outbound, fromChild)
    && p.toChild.read <= q.toChild.read && p.toHost.read <= q.toHost.read && p.toLog.read <= q.toLog.read
  }

  /** Buffers that were only appended to and slices that only advanced convey every slice's bytes. */
  lemma StepConveys(p: State, q: State, fromHost: seq<bv8>, fromChild: seq<bv8>)
    requires WellFormed(p) && WellFormed(q) && Advanced(p, q, fromHost, fromChild)
    ensures Conveyed(Readable(p.inbound, p.toChild), Readable(q.inbound, q.toChild), fromHost, q.inbound.write - p.inbound.write)
    ensures Conveyed(Readable(p.outbound, p.toHost), Readable(q.outbound, q.toHost), fromChild, q.outbound.write - p.outbound.write)
    ensures Conveyed(Readable(p.outbound, p.toLog), Readable(q.outbound, q.toLog), fromChild, q.outbound.write - p.outbound.write)
  {
    ExtendsConveys(p.inbound, q.inbound, fromHost, p.toChild, q.toChild);
    ExtendsConveys(p.outbound, q.outbound, fromChild, p.toHost, q.toHost);
    ExtendsConveys(p.outbound, q.outbound, fromChild, p.toLog, q.toLog);
  }

  /**
   * The dispatch of a positive wait result, in the source's fixed order.
   * Each buffer only gains a prefix of what its read delivered, and no slice
   * moves back.
   */
  function Dispatch(p: State, ready: set<Fd>, writable: set<Fd>, o: Outcomes, test: MasterDrainTest): (q: State)
    requires WellFormed(p)
    ensures WellFormed(q) && q.readInterest == p.readInterest
    ensures q.quit <==> p.quit || SomeTransferFailed(ready, writable, o)
    ensures Advanced(p, q, Offered(o.fromStdIn, StdIn in ready), Offered(o.fromMaster, Master in ready))
    ensures OutputTracked(p) ==> OutputTracked(q)
    ensures test.AgainstInbound? && InputTracked(p) ==> InputTracked(q)
  {
    OutboundStage(InboundStage(p, ready, writable, o, test), ready, writable, o)
  }

  /**
   * One pass of the do-while loop in `pass_all`. The wait only reports
   * descriptors it was asked about, so readiness is cut down to the interest
   * sets the iteration started with.
   */
  function Iterate(p: State, w: Wait, o: Outcomes, test: MasterDrainTest): (r: Step)
    requires WellFormed(p)
    ensures WellFormed(r.state)
    ensures r.state.readInterest == p.readInterest
    ensures r.exit <==> w.WaitFailed? || r.state.quit
    ensures w.Ready? ==> Reclaimed(r.state)
    ensures w.Ready? ==> (r.state.quit <==>
      p.quit || SomeTransferFailed(w.readable * p.readInterest, w.writable * p.writeInterest, o))
    ensures w.Interrupted? ==> r.state == p.(quit := p.quit || w.childExited)
    ensures w.NoneReady? || w.WaitFailed? ==> r.state == p
    ensures OutputTracked(p) ==> OutputTracked(r.state)
    ensures test.AgainstInbound? && InputTracked(p) ==> InputTracked(r.state)
  {
    match w
    case Ready(readable, writable) =>
      var q := RealignBoth(Dispatch(p, readable * p.readInterest, writable * p.writeInterest, o, test));
      Step(q, q.quit)
    case NoneReady => Step(p, p.quit)
    case Interrupted(childExited) =>
      var q := p.(quit := p.quit || childExited);
      Step(q, q.quit)
    case WaitFailed => Step(p, true)
  }

  /**
   * A whole iteration after a positive wait conveys every slice's pending
   * bytes in the same way: realignment moves offsets but keeps what each
   * slice has yet to read.
   */
  lemma IterateConveys(p: State, w: Wait, o: Outcomes, test: MasterDrainTest)
    requires WellFormed(p) && w.Ready?
    ensures var r := Iterate(p, w, o, test);
      && (exists k :: Conveyed(Readable(p.inbound, p.toChild), Readable(r.state.inbound, r.state.toChild),
                               Offered(o.fromStdIn, StdIn in w.readable * p.readInterest), k))
      && (exists k :: && Conveyed(Readable(p.outbound, p.toHost), Readable(r.state.outbound, r.state.toHost),
                                  Offered(o.fromMaster, Master in w.readable * p.readInterest), k)
                       && Conveyed(Readable(p.outbound, p.toLog), Readable(r.state.outbound, r.state.toLog),
                                   Offered(o.fromMaster, Master in w.readable * p.readInterest), k))
  {
    var ready, writable := w.readable * p.readInterest, w.writable * p.writeInterest;
    var d := Dispatch(p, ready, writable, o, test);
    StepConveys(p, d, Offered(o.fromStdIn, StdIn in ready), Offered(o.fromMaster, Master in ready));
    assert Iterate(p, w, o, test).state == RealignBoth(d);
    assert Conveyed(Readable(p.outbound, p.toHost), Readable(RealignBoth(d).outbound, RealignBoth(d).toHost),
                    Offered(o.fromMaster, Master in ready), d.outbound.write - p.outbound.write);
  }

  /** One scheduled iteration: what the wait reports and what each transfer would return. */
  datatype Event = Event(wait: Wait, outcomes: Outcomes)

  /**
   * A wait result that ends the loop whatever the state: any error other
   * than EINTR breaks out, and an EINTR whose handler saw the child exit
   * sets quit.
   */
  predicate Stops(w: Wait) {
    w.WaitFailed? || w == Interrupted(true)
  }

  /** Where a run of the loop stopped, after how many iterations, and the return value. */
  datatype Run = Run(state: State, iterations: nat, exited: bool, status: int)

  /**
   * `pass_all` from its loop onwards, over a finite schedule of iterations:
   * a do-while loop that runs until an iteration ends with `quit` set or the
   * wait fails, and whose caller always gets -1 back. A schedule that runs out
   * first leaves the loop still going.
   */
  function PassAll(p: State, events: seq<Event>, test: MasterDrainTest): (r: Run)
    requires WellFormed(p)
    ensures WellFormed(r.state) && r.state.readInterest == p.readInterest
    ensures r.status == -1
    ensures r.iterations <= |events|
    ensures !r.exited ==> r.iterations == |events|
    ensures r.exited ==> 1 <= r.iterations
    ensures 0 < |events| && !r.exited ==> !r.state.quit
    decreases |events|
  {
    if |events| == 0 then Run(p, 0, false, -1)
    else
      var step := Iterate(p, events[0].wait, events[0].outcomes, test);
      if step.exit then Run(step.state, 1, true, -1)
      else
        var rest := PassAll(step.state, events[1..], test);
        Run(rest.state, rest.iterations + 1, rest.exited, -1)
  }

  /** A quit already set, or a wait that stops the loop, ends the iteration. */
  lemma IterateStops(p: State, w: Wait, o: Outcomes, test: MasterDrainTest)
    requires WellFormed(p) && (p.quit || Stops(w))
    ensures Iterate(p, w, o, test).exit
  {
  }

  /** The run stops only at an iteration that ends with quit set or whose wait failed. */
  lemma {:induction false} PassAllExitReason(p: State, events: seq<Event>, test: MasterDrainTest)
    requires WellFormed(p)
    ensures var r := PassAll(p, events, test);
      r.exited ==> r.state.quit || events[r.iterations - 1].wait.WaitFailed?
    decreases |events|
  {
    if |events| == 0 {
      assert !PassAll(p, events, test).exited;
    } else {
      var step := Iterate(p, events[0].wait, events[0].outcomes, test);
      if step.exit {
        assert step.state.quit || events[0].wait.WaitFailed?;
        assert PassAll(p, events, test) == Run(step.state, 1, true, -1);
      } else {
        var rest := PassAll(step.state, events[1..], test);
        assert PassAll(p, events, test) == Run(rest.state, rest.iterations + 1, rest.exited, -1);
        PassAllExitReason(step.state, events[1..], test);
        if rest.exited {
          assert rest.state.quit || events[1..][rest.iterations - 1].wait.WaitFailed?;
          assert events[rest.iterations] == events[1..][rest.iterations - 1];
        }
      }
    }
  }

  /**
   * The run follows its schedule: a quit already set ends it after one
   * iteration, and a wait that fails with an error other than EINTR, or an
   * EINTR after the child exited, ends it at that iteration or earlier.
   */
  lemma {:induction false} PassAllStops(p: State, events: seq<Event>, test: MasterDrainTest)
    requires WellFormed(p)
    ensures 0 < |events| && p.quit ==> PassAll(p, events, test).exited && PassAll(p, events, test).iterations == 1
    ensures forall j :: 0 <= j < |events| && Stops(events[j].wait) ==>
      PassAll(p, events, test).exited && PassAll(p, events, test).iterations <= j + 1
    decreases |events|
  {
    if |events| > 0 {
      var step := Iterate(p, events[0].wait, events[0].outcomes, test);
      if p.quit || Stops(events[0].wait) {
        IterateStops(p, events[0].wait, events[0].outcomes, test);
      }
      if !step.exit {
        PassAllStops(step.state, events[1..], test);
        assert forall j :: 1 <= j < |events| ==> events[j] == events[1..][j - 1];
      }
    }
  }

  /** Tracking survives the whole run: output always, input under the intended drain test. */
  lemma {:induction false} PassAllKeepsTracking(p: State, events: seq<Event>, test: MasterDrainTest)
    requires WellFormed(p)
    ensures OutputTracked(p) ==> OutputTracked(PassAll(p, events, test).state)
    ensures test.AgainstInbound? && InputTracked(p) ==> InputTracked(PassAll(p, events, test).state)
    decreases |events|
  {
    if |events| > 0 {
      var step := Iterate(p, events[0].wait, events[0].outcomes, test);
      if !step.exit {
        PassAllKeepsTracking(step.state, events[1..], test);
      }
    }
  }

  /**
   * The source's drain test, in general: once a write to the child brings the
   * inbound slice's offset level with the outbound write offset while the
   * inbound buffer holds more keystrokes, the master leaves the write-interest
   * set with those keystrokes still pending.
   */
  lemma AsWrittenDropsMaster(p: State, n: nat)
    requires WellFormed(p) && !p.quit && Master in p.writeInterest
    requires 0 < n && p.toChild.read + n == p.outbound.write < p.inbound.write
    ensures var r := Iterate(p, Ready({}, {Master}),
                             Outcomes(ReadFailed, Sent(n), ReadFailed, WriteFailed, WriteFailed), AgainstOutbound);
      && !r.exit
      && Readable(r.state.inbound, r.state.toChild) == Readable(p.inbound, p.toChild)[n..] != []
      && Master !in r.state.writeInterest
      && !InputTracked(r.state)
  {
    var o := Outcomes(ReadFailed, Sent(n), ReadFailed, WriteFailed, WriteFailed);
    var q := OnMasterWritable(p, Sent(n), AgainstOutbound);
    assert q.toChild.read == p.outbound.write;
    assert Readable(p.inbound, p.toChild)[n..] == Readable(q.inbound, q.toChild);
    assert {} * p.readInterest == {} && {Master} * p.writeInterest == {Master};
    assert InboundStage(p, {}, {Master}, o, AgainstOutbound) == q;
    assert OutboundStage(q, {}, {Master}, o) == q;
    assert Dispatch(p, {}, {Master}, o, AgainstOutbound) == q;
  }

  /**
   * The first iteration of a stranding run: keystrokes and a shorter piece of
   * child output arrive, and nothing is written yet.
   */
  lemma StrandingRunFirstIteration(keys: seq<bv8>, echo: seq<bv8>)
    requires 0 < |echo| < |keys| <= ToChildSize
    ensures var first := Iterate(Start(), Ready({StdIn, Master}, {}),
                                 Outcomes(Received(keys), Sent(0), Received(echo), Sent(0), Sent(0)), AgainstOutbound);
      && !first.exit && !first.state.quit
      && InputTracked(first.state) && OutputTracked(first.state)
      && Master in first.state.writeInterest
      && first.state.toChild.read == 0 && first.state.inbound.write == |keys| && first.state.outbound.write == |echo|
      && Readable(first.state.inbound, first.state.toChild) == keys
  {
    var p0 := Start();
    var p1 := OnStdInReadable(p0, Received(keys));
    var p2 := OnMasterReadable(p1, Received(echo));
    var o := Outcomes(Received(keys), Sent(0), Received(echo), Sent(0), Sent(0));
    var ready: set<Fd> := {StdIn, Master};
    assert ready * p0.readInterest == ready && {} * p0.writeInterest == {};
    assert InboundStage(p0, ready, {}, o, AgainstOutbound) == p1;
    assert OutboundStage(p1, ready, {}, o) == p2;
    assert Dispatch(p0, ready, {}, o, AgainstOutbound) == p2;
    assert p2.toChild.read == 0 && p2.inbound.write == |keys|;
    assert p2.toHost.read == 0 && p2.outbound.write == |echo|;
    assert [p2.toChild][0].read != p2.inbound.write;
    assert [p2.toHost, p2.toLog][0].read != p2.outbound.write;
    assert RealignBoth(p2) == p2;
    assert Readable(p2.inbound, p2.toChild) == keys;
  }

  /**
   * The source's test strands keystrokes. From the start state, one iteration
   * reads some keystrokes and a shorter piece of child output (say five
   * keystrokes and three bytes); the next writes as many keystrokes to the
   * child as the child has output, so the inbound slice's offset equals the
   * outbound write offset and the master leaves the write-interest set while
   * the remaining keystrokes still wait in the inbound buffer.
   */
  lemma AsWrittenStrandsKeystrokes(keys: seq<bv8>, echo: seq<bv8>)
    requires 0 < |echo| < |keys| <= ToChildSize
    ensures var first := Iterate(Start(), Ready({StdIn, Master}, {}),
                                 Outcomes(Received(keys), Sent(0), Received(echo), Sent(0), Sent(0)), AgainstOutbound);
      var second := Iterate(first.state, Ready({}, {Master}),
                            Outcomes(ReadFailed, Sent(|echo|), ReadFailed, WriteFailed, WriteFailed), AgainstOutbound);
      && !first.exit && !second.exit
      && InputTracked(first.state) && OutputTracked(first.state)
      && Readable(second.state.inbound, second.state.toChild) == keys[|echo|..] != []
      && Master !in second.state.writeInterest
      && !InputTracked(second.state)
  {
    StrandingRunFirstIteration(keys, echo);
    var first := Iterate(Start(), Ready({StdIn, Master}, {}),
                         Outcomes(Received(keys), Sent(0), Received(echo), Sent(0), Sent(0)), AgainstOutbound);
    AsWrittenDropsMaster(first.state, |echo|);
  }
}
