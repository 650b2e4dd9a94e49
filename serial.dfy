/**
 * The kernel's polled 16550 UART driver.
 *
 * The `inb`/`outb` instructions are replaced by a `Bus` object that records
 * every port access in order and answers reads from a supplied sequence of
 * status bytes. A small model of the 16550 register file (`Uart`, `Run`)
 * gives the meaning of a trace of writes, so that the initialisation order
 * and the bytes that reach the wire can be stated independently of the
 * driver's code.
 */
module Serial {
  import opened Common

  /** Register offsets from the base port. */
  const DATA: int := 0   // transmit holding register / divisor low byte
  const IER: int := 1    // interrupt enable / divisor high byte
  const FCR: int := 2    // FIFO control
  const LCR: int := 3    // line control; bit 7 is DLAB
  const MCR: int := 4    // modem control
  const LSR: int := 5    // line status; bit 5 is "transmit holding register empty"

  const THRE: bv8 := 0x20
  const DLAB: bv8 := 0x80
  const CR: bv8 := 0x0D
  const LF: bv8 := 0x0A

  /** The port of the first serial controller, used by the kernel's `SERIAL1`. */
  const COM1: u16 := 0x3F8

  /** One port access as the CPU performs it. */
  datatype PortOp = Out(port: u16, value: bv8) | In(port: u16, value: bv8)

  /** A status byte that says the transmitter can take a byte. */
  predicate Ready(status: bv8) {
    status & THRE != 0
  }

  /** The driver uses the ports `base .. base + 5`, which must all be 16-bit. */
  predicate PortsFit(base: u16) {
    base + LSR < 0x1_0000
  }

  // ---------------------------------------------------------------------------
  // The abstract port interface
  // ---------------------------------------------------------------------------

  /** The I/O bus: every access is appended to `trace`; reads are served from `replies`. */
  class Bus {
    var trace: seq<PortOp>
    var replies: seq<bv8>

    constructor (replies: seq<bv8>)
      ensures trace == [] && this.replies == replies
    {
      trace := [];
      this.replies := replies;
    }

    /** `inb`: one read, answered by the next reply. */
    method Inb(port: u16) returns (v: bv8)
      requires replies != []
      modifies this
      ensures v == old(replies[0])
      ensures replies == old(replies[1..])
      ensures trace == old(trace) + [In(port, v)]
    {
      v := replies[0];
      replies := replies[1..];
      trace := trace + [In(port, v)];
    }

    /** `outb`: one write. */
    method Outb(port: u16, v: bv8)
      modifies this
      ensures replies == old(replies)
      ensures trace == old(trace) + [Out(port, v)]
    {
      trace := trace + [Out(port, v)];
    }
  }

  // ---------------------------------------------------------------------------
  // The 16550 register file: what a trace of port accesses does to the device
  // ---------------------------------------------------------------------------

  /** The device's write-side registers and the bytes it has put on the wire. */
  datatype Uart = Uart(dll: bv8, dlm: bv8, ier: bv8, lcr: bv8, fcr: bv8, mcr: bv8, wire: seq<bv8>)

  predicate LatchOpen(u: Uart) {
    u.lcr & DLAB != 0
  }

  /** Offsets 0 and 1 reach the divisor latch while DLAB is set, THR and IER otherwise. */
  function Apply(u: Uart, base: int, op: PortOp): Uart {
    match op
    case In(_, _) => u
    case Out(port, v) =>
      var off := port - base;
      if off == DATA then (if LatchOpen(u) then u.(dll := v) else u.(wire := u.wire + [v]))
      else if off == IER then (if LatchOpen(u) then u.(dlm := v) else u.(ier := v))
      else if off == FCR then u.(fcr := v)
      else if off == LCR then u.(lcr := v)
      else if off == MCR then u.(mcr := v)
      else u
  }

  function Run(u: Uart, base: int, ops: seq<PortOp>): Uart
    decreases |ops|
  {
    if ops == [] then u else Run(Apply(u, base, ops[0]), base, ops[1..])
  }

  lemma {:induction false} RunAppend(u: Uart, base: int, xs: seq<PortOp>, ys: seq<PortOp>)
    ensures Run(u, base, xs + ys) == Run(Run(u, base, xs), base, ys)
    decreases |xs|
  {
    if xs == [] {
      assert xs + ys == ys;
    } else {
      assert (xs + ys)[1..] == xs[1..] + ys;
      RunAppend(Apply(u, base, xs[0]), base, xs[1..], ys);
    }
  }

  /** The 16-bit baud-rate divisor held in the latch. */
  function Divisor(u: Uart): int {
    (u.dlm as int) * 256 + (u.dll as int)
  }

  // ---------------------------------------------------------------------------
  // init
  // ---------------------------------------------------------------------------

  /** The seven writes of `SerialPort::init`, in order. */
  function InitSequence(base: u16): (ops: seq<PortOp>)
    requires PortsFit(base)
    ensures |ops| == 7
    ensures forall i :: 0 <= i < |ops| ==> ops[i].Out? && base <= ops[i].port <= base + MCR
  {
    [ Out(base + IER, 0x00),   // mask all device interrupts
      Out(base + LCR, 0x80),   // open the divisor latch
      Out(base + DATA, 0x01),  // divisor low byte: 1, i.e. 115200 baud
      Out(base + IER, 0x00),   // divisor high byte
      Out(base + LCR, 0x03),   // 8 data bits, no parity, one stop bit; closes the latch
      Out(base + FCR, 0xC7),   // enable and clear the FIFOs, 14-byte threshold
      Out(base + MCR, 0x0B) ]  // IRQ lines, RTS and DSR
  }

  /**
   * Whatever state the device starts in, the init sequence leaves the divisor
   * at 1, the line in 8N1 mode with the latch closed, interrupts masked, the
   * FIFOs and modem control configured, and nothing sent on the wire.
   */
  lemma {:induction false} InitConfiguresDevice(u: Uart, base: u16)
    requires PortsFit(base)
    ensures var r := Run(u, base, InitSequence(base));
      && Divisor(r) == 1 && r.dll == 0x01 && r.dlm == 0x00
      && r.lcr == 0x03 && !LatchOpen(r)
      && r.fcr == 0xC7 && r.mcr == 0x0B
      && r.wire == u.wire
      && (!LatchOpen(u) ==> r.ier == 0x00)
  {
    var ops := InitSequence(base);
    var u1 := Apply(u, base, ops[0]);
    var u2 := Apply(u1, base, ops[1]);
    assert LatchOpen(u2);
    var u3 := Apply(u2, base, ops[2]);
    var u4 := Apply(u3, base, ops[3]);
    var u5 := Apply(u4, base, ops[4]);
    assert !LatchOpen(u5) by { assert u5.lcr == 0x03; }
    var u6 := Apply(u5, base, ops[5]);
    var u7 := Apply(u6, base, ops[6]);
    assert ops == [ops[0], ops[1], ops[2], ops[3], ops[4], ops[5], ops[6]];
    assert Run(u7, base, []) == u7;
    assert Run(u6, base, ops[6..]) == u7;
    assert Run(u5, base, ops[5..]) == u7 by { assert ops[5..][1..] == ops[6..]; }
    assert Run(u4, base, ops[4..]) == u7 by { assert ops[4..][1..] == ops[5..]; }
    assert Run(u3, base, ops[3..]) == u7 by { assert ops[3..][1..] == ops[4..]; }
    assert Run(u2, base, ops[2..]) == u7 by { assert ops[2..][1..] == ops[3..]; }
    assert Run(u1, base, ops[1..]) == u7 by { assert ops[1..][1..] == ops[2..]; }
    assert ops[0..] == ops;
  }

  /**
   * Both divisor bytes (writes 3 and 4) reach the latch: at each of them DLAB
   * is set by the second write; the fifth write clears it again.
   */
  lemma {:induction false} DivisorWrittenUnderLatch(u: Uart, base: u16)
    requires PortsFit(base)
    ensures var ops := InitSequence(base);
      && LatchOpen(Run(u, base, ops[..2])) && LatchOpen(Run(u, base, ops[..3]))
      && ops[2].port == base + DATA && ops[3].port == base + IER
      && !LatchOpen(Run(u, base, ops[..5]))
  {
    var ops := InitSequence(base);
    var u1 := Apply(u, base, ops[0]);
    var u2 := Apply(u1, base, ops[1]);
    var u3 := Apply(u2, base, ops[2]);
    var u4 := Apply(u3, base, ops[3]);
    var u5 := Apply(u4, base, ops[4]);
    assert !LatchOpen(u5) by { assert u5.lcr == 0x03; }
    assert Run(u, base, ops[..2]) == u2 by {
      assert ops[..2] == [ops[0]] + [ops[1]];
      RunAppend(u, base, [ops[0]], [ops[1]]);
    }
    assert Run(u, base, ops[..3]) == u3 by {
      assert ops[..3] == ops[..2] + [ops[2]];
      RunAppend(u, base, ops[..2], [ops[2]]);
    }
    assert Run(u, base, ops[..4]) == u4 by {
      assert ops[..4] == ops[..3] + [ops[3]];
      RunAppend(u, base, ops[..3], [ops[3]]);
    }
    assert Run(u, base, ops[..5]) == u5 by {
      assert ops[..5] == ops[..4] + [ops[4]];
      RunAppend(u, base, ops[..4], [ops[4]]);
    }
  }

  /**
   * The order is part of the protocol: with the line-control write moved in
   * front of the divisor writes, the divisor low byte is transmitted as data
   * and the divisor-high write lands in the interrupt-enable register.
   */
  lemma ReorderedInitMisconfigures(u: Uart, base: u16)
    requires PortsFit(base)
    requires !LatchOpen(u)
    ensures var r := Run(u, base, [Out(base + LCR, 0x03), Out(base + DATA, 0x01), Out(base + IER, 0x00)]);
      r.wire == u.wire + [0x01] && r.dll == u.dll && r.dlm == u.dlm
  {
    var ops := [Out(base + LCR, 0x03), Out(base + DATA, 0x01), Out(base + IER, 0x00)];
    var u1 := Apply(u, base, ops[0]);
    var u2 := Apply(u1, base, ops[1]);
    var u3 := Apply(u2, base, ops[2]);
    assert Run(u3, base, ops[3..]) == u3;
    assert Run(u2, base, ops[2..]) == u3;
    assert Run(u1, base, ops[1..]) == u3 by { assert ops[1..][1..] == ops[2..]; }
    assert ops[0..] == ops;
  }

  // ---------------------------------------------------------------------------
  // Polled transmission
  // ---------------------------------------------------------------------------

  /** Number of status replies that report the transmitter ready. */
  function ReadyCount(replies: seq<bv8>): nat {
    if replies == [] then 0
    else (if Ready(replies[0]) then 1 else 0) + ReadyCount(replies[1..])
  }

  /** The reads of the line-status register that consume the first `n` replies. */
  function Polls(base: u16, replies: seq<bv8>, n: nat): (ops: seq<PortOp>)
    requires PortsFit(base) && n <= |replies|
    ensures |ops| == n
  {
    if n == 0 then [] else Polls(base, replies, n - 1) + [In(base + LSR, replies[n - 1])]
  }

  /** A read of the first reply, then the reads of the others. */
  lemma {:induction false} PollsCons(base: u16, replies: seq<bv8>, n: nat)
    requires PortsFit(base) && 0 < n <= |replies|
    ensures Polls(base, replies, n) == [In(base + LSR, replies[0])] + Polls(base, replies[1..], n - 1)
  {
    if n > 1 {
      PollsCons(base, replies, n - 1);
    }
  }

  /**
   * The accesses `write_byte(b)` makes: it polls the line-status register
   * until a reply reports ready, then writes `b` once.
   */
  function ByteTrace(base: u16, replies: seq<bv8>, b: bv8): seq<PortOp>
    requires PortsFit(base) && ReadyCount(replies) > 0
    decreases |replies|
  {
    var poll := In(base + LSR, replies[0]);
    if Ready(replies[0]) then [poll, Out(base + DATA, b)] else [poll] + ByteTrace(base, replies[1..], b)
  }

  /** The replies `write_byte` leaves unread: those after the first ready one. */
  function AfterReady(replies: seq<bv8>): (rest: seq<bv8>)
    requires ReadyCount(replies) > 0
    ensures ReadyCount(rest) == ReadyCount(replies) - 1
  {
    if Ready(replies[0]) then replies[1..] else AfterReady(replies[1..])
  }

  /** The position of the first reply that reports ready. */
  ghost function FirstReady(replies: seq<bv8>): (k: nat)
    requires ReadyCount(replies) > 0
    ensures k < |replies| && Ready(replies[k])
  {
    if Ready(replies[0]) then 0 else FirstReady(replies[1..]) + 1
  }

  /** No reply before the first ready one reports ready. */
  lemma {:induction false} NotReadyBeforeFirst(replies: seq<bv8>, j: nat)
    requires ReadyCount(replies) > 0 && j < FirstReady(replies)
    ensures !Ready(replies[j])
  {
    if j > 0 {
      NotReadyBeforeFirst(replies[1..], j - 1);
    }
  }

  /** `write_byte` reads the replies up to the first ready one, then writes. */
  lemma {:induction false} ByteTraceAtFirstReady(base: u16, replies: seq<bv8>, b: bv8)
    requires PortsFit(base) && ReadyCount(replies) > 0
    ensures ByteTrace(base, replies, b) == Polls(base, replies, FirstReady(replies) + 1) + [Out(base + DATA, b)]
  {
    if !Ready(replies[0]) {
      ByteTraceAtFirstReady(base, replies[1..], b);
      PollsCons(base, replies, FirstReady(replies) + 1);
    }
  }

  /** `write_byte` leaves exactly the replies after the first ready one. */
  lemma {:induction false} AfterReadyAtFirstReady(replies: seq<bv8>)
    requires ReadyCount(replies) > 0
    ensures AfterReady(replies) == replies[FirstReady(replies) + 1..]
  {
    if !Ready(replies[0]) {
      AfterReadyAtFirstReady(replies[1..]);
      assert replies[1..][FirstReady(replies)..] == replies[FirstReady(replies) + 1..];
    }
  }

  /** The replies left after `n` bytes have been written. */
  function Leftover(replies: seq<bv8>, n: nat): (rest: seq<bv8>)
    requires ReadyCount(replies) >= n
    ensures ReadyCount(rest) == ReadyCount(replies) - n
    decreases n
  {
    if n == 0 then replies else Leftover(AfterReady(replies), n - 1)
  }

  lemma {:induction false} LeftoverAppend(replies: seq<bv8>, m: nat, n: nat)
    requires ReadyCount(replies) >= m + n
    ensures Leftover(replies, m + n) == Leftover(Leftover(replies, m), n)
    decreases m
  {
    if m > 0 {
      LeftoverAppend(AfterReady(replies), m - 1, n);
    }
  }

  /** The accesses of a run of `write_byte` calls. */
  function BytesTrace(base: u16, replies: seq<bv8>, bytes: seq<bv8>): seq<PortOp>
    requires PortsFit(base) && ReadyCount(replies) >= |bytes|
    decreases |bytes|
  {
    if bytes == [] then []
    else ByteTrace(base, replies, bytes[0]) + BytesTrace(base, AfterReady(replies), bytes[1..])
  }

  /** The trace of two runs of bytes: the second starts at the replies the first leaves. */
  lemma {:induction false} BytesTraceAppend(base: u16, replies: seq<bv8>, xs: seq<bv8>, ys: seq<bv8>)
    requires PortsFit(base) && ReadyCount(replies) >= |xs| + |ys|
    ensures BytesTrace(base, replies, xs + ys)
      == BytesTrace(base, replies, xs) + BytesTrace(base, Leftover(replies, |xs|), ys)
    decreases |xs|
  {
    if xs == [] {
      assert xs + ys == ys;
    } else {
      var rest := AfterReady(replies);
      BytesTraceAppend(base, rest, xs[1..], ys);
      assert (xs + ys)[1..] == xs[1..] + ys;
      assert Leftover(replies, |xs|) == Leftover(rest, |xs| - 1);
    }
  }

  /** The data bytes written to the transmit register, in order. */
  function DataWrites(base: int, ops: seq<PortOp>): seq<bv8> {
    if ops == [] then []
    else SentBy(base, ops[0]) + DataWrites(base, ops[1..])
  }

  lemma {:induction false} DataWritesAppend(base: int, xs: seq<PortOp>, ys: seq<PortOp>)
    ensures DataWrites(base, xs + ys) == DataWrites(base, xs) + DataWrites(base, ys)
    decreases |xs|
  {
    if xs == [] {
      assert xs + ys == ys;
    } else {
      assert (xs + ys)[1..] == xs[1..] + ys;
      DataWritesAppend(base, xs[1..], ys);
    }
  }

  /**
   * Every write the driver makes while transmitting goes to the data register
   * and comes straight after a status read that reported ready; every access
   * is a write to `base` or a read of `base + 5`.
   */
  ghost predicate WritesOnlyWhenReady(base: u16, ops: seq<PortOp>)
    requires PortsFit(base)
  {
    forall i :: 0 <= i < |ops| ==> AccessAllowed(base, ops, i)
  }

  /** Access `i` of `ops` is a ready-gated data write or a status read. */
  ghost predicate AccessAllowed(base: u16, ops: seq<PortOp>, i: nat)
    requires PortsFit(base) && i < |ops|
  {
    if ops[i].Out? then
      ops[i].port == base + DATA && i > 0 && ops[i - 1].In? && ops[i - 1].port == base + LSR && Ready(ops[i - 1].value)
    else
      ops[i].port == base + LSR
  }

  lemma {:induction false} ByteTraceFacts(base: u16, replies: seq<bv8>, b: bv8)
    requires PortsFit(base) && ReadyCount(replies) > 0
    ensures WritesOnlyWhenReady(base, ByteTrace(base, replies, b))
    ensures DataWrites(base, ByteTrace(base, replies, b)) == [b]
    decreases |replies|
  {
    var ops := ByteTrace(base, replies, b);
    var poll := In(base + LSR, replies[0]);
    if Ready(replies[0]) {
      assert AccessAllowed(base, ops, 0) && AccessAllowed(base, ops, 1);
      assert DataWrites(base, ops[1..][1..]) == [];
    } else {
      var rest := ByteTrace(base, replies[1..], b);
      ByteTraceFacts(base, replies[1..], b);
      assert AccessAllowed(base, [poll], 0);
      WritesOnlyWhenReadyAppend(base, [poll], rest);
      assert ops[1..] == rest;
    }
  }

  lemma WritesOnlyWhenReadyAppend(base: u16, xs: seq<PortOp>, ys: seq<PortOp>)
    requires PortsFit(base) && WritesOnlyWhenReady(base, xs) && WritesOnlyWhenReady(base, ys)
    ensures WritesOnlyWhenReady(base, xs + ys)
  {
    var all := xs + ys;
    forall i | 0 <= i < |all| ensures AccessAllowed(base, all, i) {
      if i < |xs| {
        assert AccessAllowed(base, xs, i);
        assert all[i] == xs[i];
        if i > 0 { assert all[i - 1] == xs[i - 1]; }
      } else {
        assert AccessAllowed(base, ys, i - |xs|);
        assert all[i] == ys[i - |xs|];
        if i - |xs| > 0 { assert all[i - 1] == ys[i - |xs| - 1]; }
      }
    }
  }

  /**
   * The transmit trace of a byte string writes only to the data register, and
   * each write comes straight after a status read that reported ready.
   */
  lemma {:induction false} BytesTraceWritesOnlyWhenReady(base: u16, replies: seq<bv8>, bytes: seq<bv8>)
    requires PortsFit(base) && ReadyCount(replies) >= |bytes|
    ensures WritesOnlyWhenReady(base, BytesTrace(base, replies, bytes))
    decreases |bytes|
  {
    if bytes != [] {
      var rest := AfterReady(replies);
      ByteTraceFacts(base, replies, bytes[0]);
      BytesTraceWritesOnlyWhenReady(base, rest, bytes[1..]);
      WritesOnlyWhenReadyAppend(base, ByteTrace(base, replies, bytes[0]), BytesTrace(base, rest, bytes[1..]));
    }
  }

  /** The transmit trace of a byte string writes exactly those bytes, in order. */
  lemma {:induction false} BytesTraceData(base: u16, replies: seq<bv8>, bytes: seq<bv8>)
    requires PortsFit(base) && ReadyCount(replies) >= |bytes|
    ensures DataWrites(base, BytesTrace(base, replies, bytes)) == bytes
    decreases |bytes|
  {
    if bytes != [] {
      var rest := AfterReady(replies);
      ByteTraceFacts(base, replies, bytes[0]);
      BytesTraceData(base, rest, bytes[1..]);
      DataWritesAppend(base, ByteTrace(base, replies, bytes[0]), BytesTrace(base, rest, bytes[1..]));
      assert bytes == [bytes[0]] + bytes[1..];
    }
  }

  /**
   * On a device whose latch is closed, a trace of status reads and data-register
   * writes sends the written bytes and changes nothing else.
   */
  lemma {:induction false} RunDataWrites(u: Uart, base: u16, ops: seq<PortOp>)
    requires PortsFit(base) && !LatchOpen(u)
    requires forall i :: 0 <= i < |ops| ==> ops[i].In? || ops[i].port == base + DATA
    ensures Run(u, base, ops) == u.(wire := u.wire + DataWrites(base, ops))
    decreases |ops|
  {
    if ops == [] {
      assert u.wire + [] == u.wire;
    } else {
      var w := SentBy(base, ops[0]);
      ApplyStatusOrData(u, base, ops[0]);
      var v := u.(wire := u.wire + w);
      assert forall i :: 0 <= i < |ops[1..]| ==> ops[1..][i] == ops[i + 1];
      RunDataWrites(v, base, ops[1..]);
      assert (u.wire + w) + DataWrites(base, ops[1..]) == u.wire + (w + DataWrites(base, ops[1..]));
    }
  }

  /** The byte an access puts on the data register, if any. */
  function SentBy(base: int, op: PortOp): seq<bv8> {
    if op.Out? && op.port == base + DATA then [op.value] else []
  }

  /** With the latch closed, a status read changes nothing and a data write sends its byte. */
  lemma ApplyStatusOrData(u: Uart, base: u16, op: PortOp)
    requires !LatchOpen(u) && (op.In? || op.port == base + DATA)
    ensures Apply(u, base, op) == u.(wire := u.wire + SentBy(base, op))
    ensures DataWrites(base, [op]) == SentBy(base, op)
  {
  }

  /** A device whose latch is closed sends exactly the bytes and changes nothing else. */
  lemma BytesTraceWire(u: Uart, base: u16, replies: seq<bv8>, bytes: seq<bv8>)
    requires PortsFit(base) && ReadyCount(replies) >= |bytes| && !LatchOpen(u)
    ensures Run(u, base, BytesTrace(base, replies, bytes)) == u.(wire := u.wire + bytes)
  {
    var ops := BytesTrace(base, replies, bytes);
    BytesTraceWritesOnlyWhenReady(base, replies, bytes);
    BytesTraceData(base, replies, bytes);
    forall i | 0 <= i < |ops| ensures ops[i].In? || ops[i].port == base + DATA {
      assert AccessAllowed(base, ops, i);
    }
    RunDataWrites(u, base, ops);
  }

  // ---------------------------------------------------------------------------
  // Newline translation
  // ---------------------------------------------------------------------------

  function CountLf(s: seq<bv8>): nat {
    if s == [] then 0 else (if s[0] == LF then 1 else 0) + CountLf(s[1..])
  }

  /** The bytes `write_str` hands to `write_byte`: a CR is sent before every LF. */
  function Expand(s: seq<bv8>): seq<bv8> {
    if s == [] then []
    else (if s[0] == LF then [CR, LF] else [s[0]]) + Expand(s[1..])
  }

  /** The receiving side's inverse: drop the CR in front of each LF. */
  function Unexpand(t: seq<bv8>): seq<bv8> {
    if t == [] then []
    else if |t| >= 2 && t[0] == CR && t[1] == LF then [LF] + Unexpand(t[2..])
    else [t[0]] + Unexpand(t[1..])
  }

  lemma {:induction false} ExpandLength(s: seq<bv8>)
    ensures |Expand(s)| == |s| + CountLf(s)
  {
    if s != [] {
      ExpandLength(s[1..]);
    }
  }

  lemma {:induction false} ExpandAppend(s: seq<bv8>, t: seq<bv8>)
    ensures Expand(s + t) == Expand(s) + Expand(t)
  {
    if s == [] {
      assert s + t == t;
    } else {
      assert (s + t)[1..] == s[1..] + t;
      ExpandAppend(s[1..], t);
    }
  }

  /** An expanded text never starts with a bare LF. */
  lemma ExpandNeverStartsWithLf(s: seq<bv8>)
    ensures Expand(s) != [] ==> Expand(s)[0] != LF
  {
  }

  /** Dropping the inserted CRs gives back the original text, whatever it contains. */
  lemma {:induction false} UnexpandExpand(s: seq<bv8>)
    ensures Unexpand(Expand(s)) == s
  {
    if s != [] {
      var rest := Expand(s[1..]);
      UnexpandExpand(s[1..]);
      if s[0] == LF {
        assert Expand(s) == [CR, LF] + rest;
        assert Expand(s)[2..] == rest;
      } else {
        ExpandNeverStartsWithLf(s[1..]);
        assert Expand(s) == [s[0]] + rest;
        assert Expand(s)[1..] == rest;
      }
      assert s == [s[0]] + s[1..];
    }
  }

  /** Every LF on the wire comes right after a CR. */
  lemma {:induction false} ExpandLfPrecededByCr(s: seq<bv8>)
    ensures forall j :: 0 <= j < |Expand(s)| && Expand(s)[j] == LF ==> j > 0 && Expand(s)[j - 1] == CR
  {
    if s != [] {
      ExpandLfPrecededByCr(s[1..]);
      var head := if s[0] == LF then [CR, LF] else [s[0]];
      var e := Expand(s);
      assert e == head + Expand(s[1..]);
      forall j | 0 <= j < |e| && e[j] == LF ensures j > 0 && e[j - 1] == CR {
        if j >= |head| {
          assert e[j] == Expand(s[1..])[j - |head|];
          if j - |head| > 0 {
            assert e[j - 1] == Expand(s[1..])[j - |head| - 1];
          }
        }
      }
    }
  }

  /** `println!` appends one LF to the rendered text, so the wire carries CR LF at the end. */
  function LineText(rendered: seq<bv8>): (t: seq<bv8>)
    ensures |t| == |rendered| + 1 && t[..|rendered|] == rendered && t[|rendered|] == LF
  {
    rendered + [LF]
  }

  lemma {:induction false} LineEndsWithCrLf(rendered: seq<bv8>)
    ensures var e := Expand(LineText(rendered));
      |e| >= 2 && e[|e| - 2..] == [CR, LF] && e[..|e| - 2] == Expand(rendered)
  {
    ExpandAppend(rendered, [LF]);
    assert Expand([LF]) == [CR, LF];
  }

  /** The bytes `write_str` sends for one byte of the text. */
  function Chunk(c: bv8): seq<bv8> {
    if c == LF then [CR, LF] else [c]
  }

  /** The text up to and including byte `i`, translated: the translation of the text before it, then of the byte. */
  lemma ExpandPrefix(s: seq<bv8>, i: nat)
    requires i < |s|
    ensures Expand(s[..i + 1]) == Expand(s[..i]) + Chunk(s[i])
    ensures |Expand(s[..i + 1])| <= |Expand(s)|
  {
    assert s[..i + 1] == s[..i] + [s[i]];
    ExpandAppend(s[..i], [s[i]]);
    assert s[..i + 1] + s[i + 1..] == s;
    ExpandAppend(s[..i + 1], s[i + 1..]);
  }

  // ---------------------------------------------------------------------------
  // The driver
  // ---------------------------------------------------------------------------

  datatype FmtResult = Ok | Err

  /** `SerialPort`: only the base port; the device state lives behind the bus. */
  class SerialPort {
    const base: u16
    const bus: Bus

    constructor (base: u16, bus: Bus)
      ensures this.base == base && this.bus == bus
    {
      this.base := base;
      this.bus := bus;
    }

    /** Programs the UART: exactly the seven writes of `InitSequence`, nothing read. */
    method Init()
      requires PortsFit(base)
      modifies bus
      ensures bus.trace == old(bus.trace) + InitSequence(base)
      ensures bus.replies == old(bus.replies)
    {
      bus.Outb(base + IER, 0x00);
      bus.Outb(base + LCR, 0x80);
      bus.Outb(base + DATA, 0x01);
      bus.Outb(base + IER, 0x00);
      bus.Outb(base + LCR, 0x03);
      bus.Outb(base + FCR, 0xC7);
      bus.Outb(base + MCR, 0x0B);
    }

    /** One read of the line-status register; true iff its THRE bit is set. */
    method IsTransmitEmpty() returns (empty: bool)
      requires PortsFit(base) && bus.replies != []
      modifies bus
      ensures empty <==> Ready(old(bus.replies[0]))
      ensures bus.trace == old(bus.trace) + [In(base + LSR, old(bus.replies[0]))]
      ensures bus.replies == old(bus.replies[1..])
    {
      var status := bus.Inb(base + LSR);
      empty := status & THRE != 0;
    }

    /** Spins on the status register until it reports ready, then writes the byte once. */
    method WriteByte(b: bv8)
      requires PortsFit(base) && ReadyCount(bus.replies) > 0
      modifies bus
      ensures bus.trace == old(bus.trace) + ByteTrace(base, old(bus.replies), b)
      ensures bus.replies == AfterReady(old(bus.replies))
    {
      ghost var replies0 := bus.replies;
      ghost var trace0 := bus.trace;
      ghost var k := FirstReady(replies0);
      ByteTraceAtFirstReady(base, replies0, b);
      AfterReadyAtFirstReady(replies0);
      var empty := IsTransmitEmpty();
      ghost var polled := 1;
      while !empty
        invariant 1 <= polled <= k + 1
        invariant bus.replies == replies0[polled..]
        invariant bus.trace == trace0 + Polls(base, replies0, polled)
        invariant empty <==> polled == k + 1
        decreases k + 1 - polled
      {
        if polled < k {
          NotReadyBeforeFirst(replies0, polled);
        }
        assert bus.replies[0] == replies0[polled];
        empty := IsTransmitEmpty();
        assert Polls(base, replies0, polled + 1) == Polls(base, replies0, polled) + [In(base + LSR, replies0[polled])];
        polled := polled + 1;
      }
      bus.Outb(base + DATA, b);
    }

    /** The body of `write_str`'s loop: a CR first when the byte is an LF, then the byte. */
    method WriteChar(c: bv8)
      requires PortsFit(base) && ReadyCount(bus.replies) >= |Chunk(c)|
      modifies bus
      ensures bus.trace == old(bus.trace) + BytesTrace(base, old(bus.replies), Chunk(c))
      ensures bus.replies == Leftover(old(bus.replies), |Chunk(c)|)
    {
      ghost var replies0 := bus.replies;
      ghost var trace0 := bus.trace;
      if c == LF {
        WriteByte(CR);
        ghost var rest := bus.replies;
        WriteByte(LF);
        assert [CR, LF][1..] == [LF];
        assert BytesTrace(base, rest, [LF]) == ByteTrace(base, rest, LF);
        assert Leftover(replies0, 2) == Leftover(rest, 1);
        assert bus.trace == trace0 + ByteTrace(base, replies0, CR) + ByteTrace(base, rest, LF);
      } else {
        WriteByte(c);
        assert BytesTrace(base, replies0, [c]) == ByteTrace(base, replies0, c);
      }
    }

    /** `fmt::Write::write_str`: every byte in order, a CR before each LF; never fails. */
    method WriteStr(s: seq<bv8>) returns (r: FmtResult)
      requires PortsFit(base) && ReadyCount(bus.replies) >= |Expand(s)|
      modifies bus
      ensures r == Ok
      ensures bus.trace == old(bus.trace) + BytesTrace(base, old(bus.replies), Expand(s))
      ensures bus.replies == Leftover(old(bus.replies), |Expand(s)|)
    {
      ghost var replies0 := bus.replies;
      ghost var trace0 := bus.trace;
      ghost var sent: seq<bv8> := [];
      for i := 0 to |s|
        invariant sent == Expand(s[..i]) && |sent| <= |Expand(s)|
        invariant bus.trace == trace0 + BytesTrace(base, replies0, sent)
        invariant bus.replies == Leftover(replies0, |sent|)
      {
        ExpandPrefix(s, i);
        BytesTraceAppend(base, replies0, sent, Chunk(s[i]));
        LeftoverAppend(replies0, |sent|, |Chunk(s[i])|);
        WriteChar(s[i]);
        sent := sent + Chunk(s[i]);
      }
      assert s[..|s|] == s;
      r := Ok;
    }
  }

  /** `SERIAL1`: the first serial port, initialised once when it is created. */
  method OpenSerial1(bus: Bus) returns (port: SerialPort)
    modifies bus
    ensures port.base == COM1 && port.bus == bus
    ensures bus.trace == old(bus.trace) + InitSequence(COM1)
    ensures bus.replies == old(bus.replies)
  {
    port := new SerialPort(COM1, bus);
    port.Init();
  }

  /** `println!` on an already rendered text: the text and one LF go through `write_str`. */
  method PrintLine(port: SerialPort, rendered: seq<bv8>)
    requires PortsFit(port.base) && ReadyCount(port.bus.replies) >= |Expand(LineText(rendered))|
    modifies port.bus
    ensures port.bus.trace == old(port.bus.trace) + BytesTrace(port.base, old(port.bus.replies), Expand(LineText(rendered)))
    ensures port.bus.replies == Leftover(old(port.bus.replies), |Expand(LineText(rendered))|)
  {
    var r := port.WriteStr(LineText(rendered));
    assert r == Ok;  // `_print` would panic on an error; `write_str` never reports one
  }

  /** Two lines in a row: the second starts on the replies the first left, and its bytes follow the first's. */
  method PrintTwoLines(port: SerialPort, first: seq<bv8>, second: seq<bv8>)
    requires PortsFit(port.base)
    requires ReadyCount(port.bus.replies) >= |Expand(LineText(first))| + |Expand(LineText(second))|
    modifies port.bus
    ensures port.bus.trace == old(port.bus.trace)
      + BytesTrace(port.base, old(port.bus.replies), Expand(LineText(first)) + Expand(LineText(second)))
    ensures port.bus.replies == Leftover(old(port.bus.replies), |Expand(LineText(first))| + |Expand(LineText(second))|)
  {
    ghost var replies0 := port.bus.replies;
    PrintLine(port, first);
    PrintLine(port, second);
    BytesTraceAppend(port.base, replies0, Expand(LineText(first)), Expand(LineText(second)));
    LeftoverAppend(replies0, |Expand(LineText(first))|, |Expand(LineText(second))|);
  }

  /**
   * End to end: after `init`, a device in any initial state sends exactly the
   * expanded text on the wire, and the line settings stay as `init` left them.
   */
  lemma {:induction false} InitThenWriteSends(u: Uart, base: u16, replies: seq<bv8>, s: seq<bv8>)
    requires PortsFit(base) && ReadyCount(replies) >= |Expand(s)|
    ensures var r := Run(u, base, InitSequence(base) + BytesTrace(base, replies, Expand(s)));
      r.wire == u.wire + Expand(s) && Divisor(r) == 1 && r.lcr == 0x03
  {
    var ops := BytesTrace(base, replies, Expand(s));
    RunAppend(u, base, InitSequence(base), ops);
    InitConfiguresDevice(u, base);
    BytesTraceWire(Run(u, base, InitSequence(base)), base, replies, Expand(s));
  }
}
