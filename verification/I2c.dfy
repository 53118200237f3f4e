/** The I2C master: the search for a clock divider, and the byte stream of a Modbus message. */
module I2c {
  import opened Arithmetic
  import opened Crc16
  import opened Checksum
  import FrameErrors

  // ---- Sending a Modbus message ----

  /** A message is a packed record of 17 bytes: the header is what it begins with, and the checksum
      is stored in it behind the first ten. */
  const RECORD_SIZE := 17
  const CRC_OFFSET := 10

  /** Header, payload, checksum of both with the low byte first. */
  function Frame(head: seq<bv8>, payload: seq<bv8>): seq<bv8> {
    head + payload + Wire(Crc(head + payload))
  }

  /** The record once the checksum is stored in it. */
  function Stored(record: seq<bv8>, crc: bv16): (r: seq<bv8>)
    requires |record| == RECORD_SIZE
    ensures |r| == RECORD_SIZE
  {
    record[CRC_OFFSET := Wire(crc)[0]][CRC_OFFSET + 1 := Wire(crc)[1]]
  }

  /** The checksum of a message of n header bytes. */
  function MessageCrc(record: seq<bv8>, n: nat, payload: seq<bv8>): bv16
    requires |record| == RECORD_SIZE && n <= RECORD_SIZE
  {
    Crc(record[..n] + payload)
  }

  /** The bytes on the wire. The header is summed before the checksum is stored in the record, and
      sent after that. */
  function Sent(record: seq<bv8>, n: nat, payload: seq<bv8>): (frame: seq<bv8>)
    requires |record| == RECORD_SIZE && n <= RECORD_SIZE
  {
    var crc := MessageCrc(record, n, payload);
    Stored(record, crc)[..n] + payload + Wire(crc)
  }

  lemma SentIs(record: seq<bv8>, n: nat, payload: seq<bv8>)
    requires |record| == RECORD_SIZE && n <= RECORD_SIZE
    ensures var crc := MessageCrc(record, n, payload);
            Sent(record, n, payload) == Stored(record, crc)[..n] + payload + Wire(crc)
  {}

  /** The bus gives way at some point: it may not be idle, the slave may not answer its address, or the
      transfer may stall after ready bytes. What has been sent by then is the beginning of the frame,
      and the send succeeds exactly when that is all of it. */
  method SendMasterModbus(record: array<bv8>, sizeHead: nat, payload: array<bv8>, sizeMessage: nat,
                          idle: bool, addressed: bool, ready: nat)
      returns (ok: bool, wire: seq<bv8>)
    requires record.Length == RECORD_SIZE && sizeHead <= RECORD_SIZE
    requires sizeMessage <= payload.Length && payload != record
    modifies record
    ensures record[..] == if idle then Stored(old(record[..]), MessageCrc(old(record[..]), sizeHead, payload[..sizeMessage]))
                          else old(record[..])
    ensures var frame := Sent(old(record[..]), sizeHead, payload[..sizeMessage]);
            && (ok <==> idle && addressed && ready >= |frame|)
            && wire == if idle && addressed then FirstBytes(frame, ready) else []
  {
    ok, wire := false, [];
    if !idle {
      return;
    }
    hide Wire, Stored, Sent, MessageCrc;
    ghost var before, body := record[..], payload[..sizeMessage];
    var crc := StoreCrc(record, sizeHead, payload, sizeMessage);
    if !addressed {
      return;
    }
    var crcBytes := Wire(crc);
    ghost var head := record[..sizeHead];
    SentIs(before, sizeHead, body);
    assert Sent(before, sizeHead, body) == [] + head + body + crcBytes;
    FirstBytesOnly([] + head, body, ready);
    FirstBytesOnly([] + head + body, crcBytes, ready);
    FirstBytesOnly([] + head, body + crcBytes, ready);
    assert [] + head + body + crcBytes == [] + head + (body + crcBytes);
    hide FirstBytes;
    ok, wire := SendBytes([], record[..sizeHead], ready);
    if !ok {
      return;
    }
    ok, wire := SendBytes(wire, payload[..sizeMessage], ready);
    if !ok {
      return;
    }
    ok, wire := SendBytes(wire, crcBytes, ready);
  }

  /** The checksum of header and payload, also stored in the record. */
  method StoreCrc(record: array<bv8>, sizeHead: nat, payload: array<bv8>, sizeMessage: nat) returns (crc: bv16)
    requires record.Length == RECORD_SIZE && sizeHead <= RECORD_SIZE
    requires sizeMessage <= payload.Length && payload != record
    modifies record
    ensures crc == MessageCrc(old(record[..]), sizeHead, payload[..sizeMessage])
    ensures record[..] == Stored(old(record[..]), crc)
  {
    hide Crc;
    ghost var before := record[..];
    crc := ModbusStructCrc16(record, sizeHead, payload, sizeMessage);
    assert before[..sizeHead] == record[..sizeHead];
    hide Wire;
    FrameErrors.WireLength(crc);
    record[CRC_OFFSET] := Wire(crc)[0];
    record[CRC_OFFSET + 1] := Wire(crc)[1];
  }

  /** What a bus that stalls after n bytes lets through. */
  function FirstBytes<T>(bytes: seq<T>, n: nat): (s: seq<T>) {
    if n < |bytes| then bytes[..n] else bytes
  }

  lemma FirstBytesOnly<T>(a: seq<T>, b: seq<T>, n: nat)
    ensures n < |a| ==> FirstBytes(a + b, n) == FirstBytes(a, n)
  {}

  /** One of the three loops: each byte waits for the bus to be ready. */
  method SendBytes<T>(sent: seq<T>, bytes: seq<T>, ready: nat) returns (ok: bool, wire: seq<T>)
    requires |sent| <= ready
    ensures ok <==> |sent + bytes| <= ready
    ensures wire == FirstBytes(sent + bytes, ready) && (ok ==> wire == sent + bytes)
  {
    wire := sent;
    for i := 0 to |bytes|
      invariant wire == (sent + bytes)[..|sent| + i] && |wire| <= ready
    {
      if |wire| >= ready {
        return false, wire;
      }
      wire := wire + [bytes[i]];
    }
    ok := true;
  }

  /** The receiver's frame check accepts every header and payload followed by their checksum. */
  lemma FrameAccepted(head: seq<bv8>, payload: seq<bv8>)
    ensures Accepts(Frame(head, payload))
  {
    FrameErrors.SealedFrameAccepted(head + payload);
  }

  /** The stored checksum leaves the header alone: it is short enough, or the record happened to hold
      these bytes already. */
  predicate HeaderKept(record: seq<bv8>, n: nat, payload: seq<bv8>)
    requires |record| == RECORD_SIZE && n <= RECORD_SIZE
  {
    var bytes := Wire(MessageCrc(record, n, payload));
    && (n > CRC_OFFSET ==> record[CRC_OFFSET] == bytes[0])
    && (n > CRC_OFFSET + 1 ==> record[CRC_OFFSET + 1] == bytes[1])
  }

  /** The frame check accepts what is sent exactly then; so always for headers of up to ten bytes. */
  lemma SentAcceptedIff(record: seq<bv8>, n: nat, payload: seq<bv8>)
    requires |record| == RECORD_SIZE && n <= RECORD_SIZE
    ensures Accepts(Sent(record, n, payload)) <==> HeaderKept(record, n, payload)
    ensures n <= 10 ==> Accepts(Sent(record, n, payload)) && Sent(record, n, payload) == Frame(record[..n], payload)
  {
    hide Wire, Crc, Accepts;
    var crc := MessageCrc(record, n, payload);
    var summed, sent := Frame(record[..n], payload), Sent(record, n, payload);
    FrameErrors.WireLength(crc);
    FrameAccepted(record[..n], payload);
    assert record[..n] == Stored(record, crc)[..n] <==> HeaderKept(record, n, payload) by {
      StoredHeader(record, n, crc);
    }
    assert |summed| == |sent|;
    if !HeaderKept(record, n, payload) {
      forall k | 0 <= k < |summed| && summed[k] != sent[k]
        ensures k == CRC_OFFSET || k == CRC_OFFSET + 1
      {}
      assert summed != sent by {
        assert summed[..n] == record[..n] && sent[..n] == Stored(record, crc)[..n];
      }
      FrameErrors.NeighbouringBytesRejected(summed, sent, CRC_OFFSET);
    }
  }

  lemma StoredHeader(record: seq<bv8>, n: nat, crc: bv16)
    requires |record| == RECORD_SIZE && n <= RECORD_SIZE
    ensures record[..n] == Stored(record, crc)[..n]
        <==> (n > CRC_OFFSET ==> record[CRC_OFFSET] == Wire(crc)[0])
             && (n > CRC_OFFSET + 1 ==> record[CRC_OFFSET + 1] == Wire(crc)[1])
  {
    hide Wire;
    FrameErrors.WireLength(crc);
    var s := Stored(record, crc);
    if n > CRC_OFFSET {
      assert record[..n][CRC_OFFSET] == record[CRC_OFFSET] && s[..n][CRC_OFFSET] == s[CRC_OFFSET];
    }
    if n > CRC_OFFSET + 1 {
      assert record[..n][CRC_OFFSET + 1] == record[CRC_OFFSET + 1] && s[..n][CRC_OFFSET + 1] == s[CRC_OFFSET + 1];
    }
  }

  // ---- The clock divider ----

  const DIVIDER_MAX := 0x1_0000

  /** A pair the hardware can use without running faster than asked. */
  predicate Feasible(baud: nat, clock: nat, scl: nat, d: nat) {
    2 <= scl <= 9 && d <= 65536 && baud * scl * 2 * d <= clock
  }

  function Remainder(baud: nat, clock: nat, scl: nat, d: nat): nat
    requires Feasible(baud, clock, scl, d)
  {
    clock - baud * scl * 2 * d
  }

  /** err is at most the remainder of every feasible pair with this scl. */
  ghost predicate BestAt(baud: nat, clock: nat, scl: nat, err: nat) {
    forall d: nat :: Feasible(baud, clock, scl, d) ==> err <= Remainder(baud, clock, scl, d)
  }

  /** The largest divider that does not overshoot, capped, leaves the smallest remainder. */
  lemma LargestDividerBest(baud: nat, clock: nat, scl: nat, step: nat, d: nat)
    requires 2 <= scl <= 9 && step == baud * scl * 2 > 0
    requires var q := clock / step; d == if q > DIVIDER_MAX then DIVIDER_MAX else q
    ensures Feasible(baud, clock, scl, d) && Remainder(baud, clock, scl, d) == clock - step * d
    ensures BestAt(baud, clock, scl, Remainder(baud, clock, scl, d))
  {
    QuotientBounds(clock, step);
    TimesOrdered(d, clock / step, step);
    forall e: nat | Feasible(baud, clock, scl, e)
      ensures e <= d
    {
      if e > clock / step {
        TimesOrdered(clock / step + 1, e, step);
      }
    }
    forall e: nat | Feasible(baud, clock, scl, e)
      ensures Remainder(baud, clock, scl, d) <= Remainder(baud, clock, scl, e)
    {
      TimesOrdered(e, d, step);
    }
  }

  lemma StepPositive(baud: nat, scl: nat)
    requires baud > 0 && scl > 0
    ensures baud * scl * 2 > 0
  {}

  /** Once the divider is capped, a smaller scl only leaves a larger remainder. */
  lemma CappedBestBelow(baud: nat, clock: nat, scl: nat, low: nat)
    requires 2 <= low <= scl <= 9 && Feasible(baud, clock, scl, DIVIDER_MAX)
    ensures BestAt(baud, clock, low, Remainder(baud, clock, scl, DIVIDER_MAX))
  {
    forall e: nat | Feasible(baud, clock, low, e)
      ensures baud * low * 2 * e <= baud * scl * 2 * DIVIDER_MAX
    {
      TimesOrdered(e, DIVIDER_MAX, baud * low * 2);
      TimesOrdered(low, scl, baud);
    }
  }

  lemma BestAtLess(baud: nat, clock: nat, scl: nat, err: nat, less: nat)
    requires BestAt(baud, clock, scl, err) && less <= err
    ensures BestAt(baud, clock, scl, less)
  {}

  /** err is at most the remainder of every feasible pair with an scl from low to 9. */
  ghost predicate BestFrom(baud: nat, clock: nat, low: nat, err: nat) {
    forall t: nat :: low <= t <= 9 ==> BestAt(baud, clock, t, err)
  }

  lemma ExtendBest(baud: nat, clock: nat, scl: nat, was: nat, err: nat, best: nat)
    requires BestAt(baud, clock, scl, err) && best <= err
    requires scl == 9 || (BestFrom(baud, clock, scl + 1, was) && best <= was)
    ensures BestFrom(baud, clock, scl, best)
  {
    forall t: nat | scl <= t <= 9
      ensures BestAt(baud, clock, t, best)
    {
      BestAtLess(baud, clock, t, if t == scl then err else was, best);
    }
  }

  /** The early exit is safe: an exact divider cannot be improved on, and neither can a capped one. */
  lemma ExitBest(baud: nat, clock: nat, scl: nat, d: nat, err: nat, best: nat)
    requires Feasible(baud, clock, scl, d) && err == Remainder(baud, clock, scl, d) && best <= err
    requires BestFrom(baud, clock, scl, best) && (err == 0 || d == DIVIDER_MAX)
    ensures BestFrom(baud, clock, 2, best)
  {
    forall t: nat | 2 <= t <= 9
      ensures BestAt(baud, clock, t, best)
    {
      if t < scl {
        if err == 0 {
          ZeroIsBest(baud, clock, t);
        } else {
          CappedBestBelow(baud, clock, scl, t);
          BestAtLess(baud, clock, t, err, best);
        }
      }
    }
  }

  /** Returns the pair programmed into the hardware. baud * 18 must fit 32 bits, as the source's own
      products do not otherwise mean anything. */
  method SetBaudRate(baud: uint32, clock: uint32) returns (scl: uint32, divider: uint32)
    requires 0 < baud && baud * 18 < 0x1_0000_0000
    ensures Feasible(baud, clock, scl, divider)
    ensures forall s: nat, d: nat :: Feasible(baud, clock, s, d) ==>
              Remainder(baud, clock, scl, divider) <= Remainder(baud, clock, s, d)
    ensures forall s: nat, d: nat ::
              Feasible(baud, clock, s, d) && Remainder(baud, clock, s, d) == Remainder(baud, clock, scl, divider) ==>
                s <= scl
    ensures clock >= 4 * baud ==> divider >= 1
  {
    hide BestAt, BestFrom, BetterAbove, Feasible;
    var bestErr: uint32 := 0;
    var s := 9;
    scl, divider := 0, 0;
    while s >= 2
      invariant 1 <= s <= 9
      invariant s == 9 ==> bestErr == 0
      invariant s < 9 ==> bestErr > 0 && Feasible(baud, clock, scl, divider)
                          && bestErr == Remainder(baud, clock, scl, divider)
                          && BestFrom(baud, clock, s + 1, bestErr) && BetterAbove(baud, clock, scl, bestErr)
      decreases s
    {
      var d, err := Candidate(baud, clock, s);
      ghost var was := bestErr;
      if err < bestErr || bestErr == 0 {
        NewBest(baud, clock, s, was, err);
        divider := d;
        scl := s;
        bestErr := err;
      }
      ExtendBest(baud, clock, s, was, err, bestErr);
      if err == 0 || d >= DIVIDER_MAX {
        ExitBest(baud, clock, s, d, err, bestErr);
        break;
      }
      s := s - 1;
    }
    BestOfAll(baud, clock, scl, divider);
    LargestOfBest(baud, clock, scl, divider);
    if clock >= 4 * baud {
      DividerOne(baud, clock, scl, divider);
    }
  }

  /** Every pair with a larger scl leaves a larger remainder. */
  ghost predicate BetterAbove(baud: nat, clock: nat, scl: nat, err: nat) {
    forall t: nat, d: nat :: scl < t && Feasible(baud, clock, t, d) ==> err < Remainder(baud, clock, t, d)
  }

  lemma NewBest(baud: nat, clock: nat, scl: nat, was: nat, err: nat)
    requires scl == 9 || (BestFrom(baud, clock, scl + 1, was) && err < was)
    ensures BetterAbove(baud, clock, scl, err)
  {
    forall t: nat, d: nat | scl < t && Feasible(baud, clock, t, d)
      ensures err < Remainder(baud, clock, t, d)
    {
      assert BestAt(baud, clock, t, was);
    }
  }

  lemma LargestOfBest(baud: nat, clock: nat, scl: nat, divider: nat)
    requires Feasible(baud, clock, scl, divider)
    requires BetterAbove(baud, clock, scl, Remainder(baud, clock, scl, divider))
    ensures forall s: nat, d: nat ::
              Feasible(baud, clock, s, d) && Remainder(baud, clock, s, d) == Remainder(baud, clock, scl, divider) ==>
                s <= scl
  {}

  lemma BestOfAll(baud: nat, clock: nat, scl: nat, divider: nat)
    requires Feasible(baud, clock, scl, divider)
    requires BestFrom(baud, clock, 2, Remainder(baud, clock, scl, divider))
    ensures forall s: nat, d: nat :: Feasible(baud, clock, s, d) ==>
              Remainder(baud, clock, scl, divider) <= Remainder(baud, clock, s, d)
  {
    forall s: nat, d: nat | Feasible(baud, clock, s, d)
      ensures Remainder(baud, clock, scl, divider) <= Remainder(baud, clock, s, d)
    {
      assert BestAt(baud, clock, s, Remainder(baud, clock, scl, divider));
    }
  }

  /** The divider tried for one scl, and its remainder. */
  method Candidate(baud: uint32, clock: uint32, s: nat) returns (d: uint32, err: uint32)
    requires 0 < baud && baud * 18 < 0x1_0000_0000 && 2 <= s <= 9
    ensures Feasible(baud, clock, s, d) && err == Remainder(baud, clock, s, d) && BestAt(baud, clock, s, err)
    ensures d <= DIVIDER_MAX
  {
    hide BestAt, Feasible, Remainder;
    StepPositive(baud, s);
    var step := baud * s * 2;
    var q := clock / step;
    QuotientBounds(clock, step);
    d := if q > DIVIDER_MAX then DIVIDER_MAX else q;
    TimesOrdered(0, d, step);
    TimesOrdered(d, q, step);
    err := clock - step * d;
    LargestDividerBest(baud, clock, s, step, d);
  }

  lemma ZeroIsBest(baud: nat, clock: nat, scl: nat)
    ensures BestAt(baud, clock, scl, 0)
  {}

  /** With a divider of 0 the remainder is the whole clock, which scl 2 and divider 1 beat. */
  lemma DividerOne(baud: nat, clock: nat, scl: nat, d: nat)
    requires 0 < baud && clock >= 4 * baud && Feasible(baud, clock, scl, d)
    requires BestAt(baud, clock, 2, Remainder(baud, clock, scl, d))
    ensures d >= 1
  {
    assert Feasible(baud, clock, 2, 1);
    assert Remainder(baud, clock, 2, 1) < clock;
    ZeroDivider(baud, clock, scl);
  }

  lemma ZeroDivider(baud: nat, clock: nat, scl: nat)
    requires 2 <= scl <= 9
    ensures Feasible(baud, clock, scl, 0) && Remainder(baud, clock, scl, 0) == clock
  {}
}
