/** The ring of fifteen message slots behind the queue, its service loop with broadcast fan-out, and
    the decoding of a reply that carries boolean registers. */
module MessageManager {
  import opened MessageQueue
  import opened Registers
  import Checksum

  const STATUS_OVERLOAD := -1
  const STATUS_FAIL := 0
  const STATUS_OK := 1

  /** The slot k links on. */
  function Place(head: nat, k: nat): (p: nat)
    ensures p < RING_SIZE
  {
    (head + k) % RING_SIZE
  }

  lemma Apart(head: nat, j: nat, k: nat)
    requires j < k < j + RING_SIZE
    ensures Place(head, j) != Place(head, k)
  {}

  lemma HeadPlace(head: nat)
    requires head < RING_SIZE
    ensures Place(head, 0) == head
  {}

  lemma PlaceFurther(head: nat, k: nat)
    ensures Place(Place(head, 1), k) == Place(head, k + 1)
  {}

  lemma NextPlace(head: nat, k: nat)
    ensures Place(Place(head, k), 1) == Place(head, k + 1)
  {}

  /** The n slots that follow the head. */
  function WaitingSlots(slots: seq<Message>, head: nat, n: nat): (w: seq<Message>)
    requires |slots| == RING_SIZE
    ensures |w| == n
  {
    seq(n, k requires 0 <= k < n => slots[Place(head, k + 1)])
  }

  lemma StoreBehind(slots: seq<Message>, head: nat, n: nat, m: Message)
    requires |slots| == RING_SIZE && head < RING_SIZE && n < RING_SIZE - 1
    ensures var p := Place(head, n + 1);
            && p != head
            && WaitingSlots(slots[p := m], head, n + 1) == WaitingSlots(slots, head, n) + [m]
  {
    hide Place;
    HeadPlace(head);
    Apart(head, 0, n + 1);
    var after := slots[Place(head, n + 1) := m];
    forall k | 0 <= k < n
      ensures WaitingSlots(after, head, n + 1)[k] == WaitingSlots(slots, head, n)[k]
    {
      Apart(head, k + 1, n + 1);
    }
  }

  lemma StoreAtHead(slots: seq<Message>, head: nat, n: nat, m: Message)
    requires |slots| == RING_SIZE && head < RING_SIZE && n < RING_SIZE
    ensures WaitingSlots(slots[head := m], head, n) == WaitingSlots(slots, head, n)
  {
    hide Place;
    HeadPlace(head);
    forall k | 0 <= k < n
      ensures WaitingSlots(slots[head := m], head, n)[k] == WaitingSlots(slots, head, n)[k]
    {
      Apart(head, 0, k + 1);
    }
  }

  lemma MoveOn(slots: seq<Message>, head: nat, n: nat)
    requires |slots| == RING_SIZE && 1 <= n < RING_SIZE
    ensures var p := Place(head, 1);
            && slots[p] == WaitingSlots(slots, head, n)[0]
            && WaitingSlots(slots, p, n - 1) == WaitingSlots(slots, head, n)[1..]
  {
    hide Place;
    var p := Place(head, 1);
    forall k | 0 <= k < n - 1
      ensures WaitingSlots(slots, p, n - 1)[k] == WaitingSlots(slots, head, n)[1..][k]
    {
      PlaceFurther(head, k + 1);
    }
  }

  class Manager {
    /** The slots, and for each slot the index of the next one. */
    const queue: array<Message>
    const next: array<nat>
    var head: nat
    var length: nat
    var initialized: bool

    ghost var accepted: seq<Message>
    ghost var served: seq<Message>

    ghost predicate Valid()
      reads this, queue, next
    {
      && queue.Length == RING_SIZE && next.Length == RING_SIZE
      && head < RING_SIZE && length < RING_SIZE
      && (initialized ==> forall i :: 0 <= i < RING_SIZE ==> next[i] == Place(i, 1))
      && (!initialized ==> length == 0)
    }

    /** The ring seen from its head. */
    ghost function Model(): State
      requires Valid()
      reads this, queue, next
    {
      State(accepted, served, queue[head], WaitingSlots(queue[..], head, length))
    }

    constructor ()
      ensures Valid() && !initialized && fresh(queue) && fresh(next)
    {
      queue := new Message[RING_SIZE](_ => DEFAULT);
      next := new nat[RING_SIZE](_ => 0);
      head, length, initialized := 0, 0, false;
      accepted, served := [], [];
    }

    /** Called once, by the firmware's set-up. */
    method Init()
      requires Valid() && !initialized
      modifies this, queue, next
      ensures Valid() && initialized && Model() == INITIAL && forall i :: 0 <= i < RING_SIZE ==> queue[i] == DEFAULT
    {
      for i := 0 to RING_SIZE
        invariant forall j :: 0 <= j < i ==> queue[j] == DEFAULT && next[j] == Place(j, 1)
        invariant unchanged(this)
      {
        queue[i] := DEFAULT;
        next[i] := (i + 1) % RING_SIZE;
      }
      head := 0;
      initialized := true;
      accepted, served := [], [];
    }

    method New(message: Message) returns (status: int)
      requires Valid()
      modifies this`length, this`accepted, queue
      ensures Valid()
      ensures !initialized ==> status == STATUS_FAIL && Model() == old(Model())
      ensures initialized ==>
                && Model() == Enqueued(old(Model()), message)
                && status == if old(length) == RING_SIZE - 1 then STATUS_OVERLOAD else STATUS_OK
    {
      hide Place;
      if !initialized {
        return STATUS_FAIL;
      }
      length := length + 1;
      if length == RING_SIZE {
        length := length - 1;
        return STATUS_OVERLOAD;
      }
      var p := head;
      HeadPlace(head);
      for i := 0 to length
        invariant p == Place(head, i)
        modifies {}
      {
        NextPlace(head, i);
        p := next[p];
      }
      StoreBehind(queue[..], head, length - 1, message);
      ghost var slots := queue[..];
      queue[p] := message;
      assert queue[..] == slots[p := message];
      accepted := accepted + [message];
      return STATUS_OK;
    }

    /** Messages the periodic tasks and the reply handlers enqueue while the head is being served. */
    method Arrive(arrivals: seq<Message>)
      requires Valid() && initialized
      modifies this`length, this`accepted, queue
      ensures Valid() && Model() == EnqueuedAll(old(Model()), arrivals)
    {
      for i := 0 to |arrivals|
        invariant Valid() && Model() == EnqueuedAll(old(Model()), arrivals[..i])
      {
        var _ := New(arrivals[i]);
        assert arrivals[..i + 1][..i] == arrivals[..i];
      }
      assert arrivals[..|arrivals|] == arrivals;
    }

    /** The head is sent as it stands; sending may store a checksum in it. */
    method Deliver(crc: nat, arrivals: seq<Message>) returns (sent: Message)
      requires Valid() && initialized
      modifies this`length, this`accepted, queue
      ensures Valid()
      ensures sent == old(Model()).head
      ensures Model() == EnqueuedAll(old(Model()), arrivals).(head := sent.(crc := crc))
    {
      sent := queue[head];
      SetHead(sent.(crc := crc));
      ArrivalsIgnoreHead(old(Model()), sent.(crc := crc), arrivals);
      Arrive(arrivals);
    }
  
    /** A write to the slot in service touches nothing else. */
    method SetHead(m: Message)
      requires Valid()
      modifies queue
      ensures Valid() && Model() == old(Model()).(head := m) && queue[head] == m
    {
      StoreAtHead(queue[..], head, length, m);
      ghost var slots := queue[..];
      queue[head] := m;
      assert queue[..] == slots[head := m];
    }

    /** One copy of a broadcast: the address is written into the head before it is sent. */
    method DeliverTo(addr: nat, crc: nat, arrivals: seq<Message>) returns (sent: Message)
      requires Valid() && initialized
      modifies this`length, this`accepted, queue
      ensures Valid() && sent == old(Model()).head.(addr := addr)
      ensures Model() == EnqueuedAll(old(Model()), arrivals).(head := sent.(crc := crc))
    {
      ArrivalsIgnoreHead(Model(), queue[head].(addr := addr), arrivals);
      SetHead(queue[head].(addr := addr));
      sent := Deliver(crc, arrivals);
    }

    /** The served entry is cleared and the ring moves on: one atomic step. */
    method Advance(ghost original: Message)
      requires Valid() && initialized && length > 0
      modifies this`head, this`length, this`served, queue
      ensures Valid() && initialized && Model() == Advanced(old(Model()).(head := original))
      ensures queue[old(head)] == DEFAULT
    {
      SetHead(DEFAULT);
      MoveOn(queue[..], head, length);
      served := served + [original];
      head := next[head];
      if length > 0 {
        length := length - 1;
      }
    }

    /** One round of the main loop. arrivals lists what is enqueued while each copy is being sent,
        crcs the checksums the sender stores. */
    method Loop(arrivals: seq<seq<Message>>, crcs: seq<nat>) returns (deliveries: seq<Message>)
      requires Valid() && |arrivals| == |crcs| == |SLAVES|
      modifies this, queue
      ensures Valid() && initialized == old(initialized)
      ensures initialized && old(length) > 0 ==> queue[old(head)] == DEFAULT
      ensures !initialized || old(length) == 0 ==> Model() == old(Model()) && deliveries == []
      ensures initialized && old(length) > 0 ==>
                var m := old(Model()).head;
                if m.addr == ADDR_ALL then
                  Model() == Served(old(Model()), Flat(arrivals)) && CopiesFor(m, deliveries, SLAVES)
                else
                  Model() == Served(old(Model()), arrivals[0]) && deliveries == [m]
    {
      hide WaitingSlots, EnqueuedAll;
      deliveries := [];
      if !initialized {
        return;
      }
      if length == 0 {
        return;
      }
      ghost var s := Model();
      ghost var all := arrivals[0];
      EnqueuedNothing(s);
      if queue[head].addr == ADDR_ALL {
        for i := 0 to |SLAVES|
          invariant Valid() && initialized
          invariant served == old(served) && head == old(head)
          invariant Model() == EnqueuedAll(s, Flat(arrivals[..i])).(head := Model().head)
          invariant Model().head.(addr := s.head.addr, crc := s.head.crc) == s.head
          invariant CopiesFor(s.head, deliveries, SLAVES[..i])
        {
          ghost var t := EnqueuedAll(s, Flat(arrivals[..i]));
          ArrivalsIgnoreHead(t, Model().head, arrivals[i]);
          var d := DeliverTo(SLAVES[i], crcs[i], arrivals[i]);
          deliveries := deliveries + [d];
          assert arrivals[..i + 1][..i] == arrivals[..i] && SLAVES[..i + 1][..i] == SLAVES[..i];
          EnqueuedAllConcat(s, Flat(arrivals[..i]), arrivals[i]);
        }
        assert arrivals[..|SLAVES|] == arrivals && SLAVES[..|SLAVES|] == SLAVES;
        all := Flat(arrivals);
      } else {
        var d := Deliver(crcs[0], arrivals[0]);
        deliveries := [d];
      }
      EnqueuedAllOnly(s, all);
      Advance(s.head);
    }
  }

  function Flat(parts: seq<seq<Message>>): seq<Message> {
    if |parts| == 0 then [] else Flat(parts[..|parts| - 1]) + parts[|parts| - 1]
  }

  /** One copy of m for each address, in order; only the address and the stored checksum differ. */
  predicate CopiesFor(m: Message, copies: seq<Message>, addrs: seq<nat>) {
    |copies| == |addrs| && forall i :: 0 <= i < |addrs| ==> copies[i].(crc := m.crc) == m.(addr := addrs[i])
  }

  // ---- A reply with boolean registers ----

  /** Function code, byte count, the packed bits, and two bytes of checksum. */
  function ReplySize(nReg: nat): nat {
    4 + nReg / 8 + if nReg % 8 != 0 then 1 else 0
  }

  /** The reply holds the payload's bits in as few bytes as there can be. */
  lemma ReplyHoldsRegisters(nReg: nat)
    ensures nReg <= 8 * (ReplySize(nReg) - 4) < nReg + 8
  {}

  /** How many registers a reply that claims count bytes sets. */
  function Covered(nReg: nat, count: nat): nat {
    if 8 * count < nReg then 8 * count else nReg
  }

  /** What lies between the byte count and the checksum. */
  function PayloadBits(reply: seq<bv8>): (bits: seq<bool>)
    requires |reply| >= 4
    ensures |bits| == 8 * (|reply| - 4)
  {
    Bools(reply[2..|reply| - 2])
  }

  /** What the loops below start from: the booleans and the flag before, and what is to be put where. */
  datatype Taking = Taking(before: seq<bool>, flag: bv8, at: nat, payload: seq<bool>)

  /** The first k bits of the payload are in place. */
  predicate Taken(t: Taking, k: nat, now: seq<bool>, flagNow: bv8) {
    && k <= |t.payload| && t.at + k <= |t.before|
    && now == Patched(t.before, t.at, t.payload[..k])
    && Recorded(t.before, now, t.flag, flagNow)
  }

  lemma NothingTaken(t: Taking)
    requires t.at <= |t.before|
    ensures Taken(t, 0, t.before, t.flag)
  {
    PatchedNothing(t.before, t.at);
    NothingRecorded(t.before, t.flag);
  }

  lemma OneTaken(t: Taking, k: nat, now: seq<bool>, flagNow: bv8)
    requires Taken(t, k, now, flagNow) && k < |t.payload| && t.at + k < |t.before|
    ensures |now| == |t.before|
    ensures var v := t.payload[k];
            Taken(t, k + 1, now[t.at + k := v], if now[t.at + k] == v then flagNow else flagNow | CHANGE_BOOL)
  {
    hide Patched, Recorded;
    PatchedNext(t.before, t.at, t.payload, k);
    RecordedNext(t.before, now, t.at + k, t.payload[k], t.flag, flagNow);
  }

  /** The loop over the payload: most significant bit of each byte first, until all registers are
      set or the claimed bytes run out. Whatever the reply claims, the bits come from the payload, and
      the two bytes of checksum behind it are not read. */
  method TakeBits(regs: RegisterFile, reply: array<bv8>, nReg: nat, regAddr: nat) returns (ok: bool)
    requires regs.Valid() && regs.bools != reply
    requires nReg >= 1 && reply.Length == ReplySize(nReg)
    requires 0 <= GetIndex(regAddr) && GetIndex(regAddr) + nReg <= BOOL_COUNT
    modifies regs`changeFlag, regs.bools
    ensures ok <==> 8 * (reply[1] as int) >= nReg
    ensures var bits := PayloadBits(reply[..])[..Covered(nReg, reply[1] as int)];
            regs.BoolView() == Patched(old(regs.BoolView()), GetIndex(regAddr), bits)
    ensures Recorded(old(regs.BoolView()), regs.BoolView(), old(regs.changeFlag), regs.changeFlag)
  {
    hide Bools, BitOf, Mask, GetIndex, PayloadBits, Patched, Recorded, Taken;
    ghost var frame := reply[..];
    ghost var t := Taking(regs.BoolView(), regs.changeFlag, GetIndex(regAddr), PayloadBits(frame));
    NothingTaken(t);
    var left, addr, count := nReg, regAddr, reply[1] as int;
    for i := 0 to count
      invariant 8 * i + left == nReg && addr == regAddr + 8 * i && left > 0
      invariant Taken(t, 8 * i, regs.BoolView(), regs.changeFlag)
    {
      assert reply[..] == frame;
      PayloadByte(frame, i);
      IndexShift(regAddr, 8 * i);
      left, addr := TakeByte(regs, reply[2 + i], left, addr, t, 8 * i);
      if left == 0 {
        TakenIs(t, nReg, regs.BoolView(), regs.changeFlag);
        return true;
      }
    }
    TakenIs(t, 8 * count, regs.BoolView(), regs.changeFlag);
    return false;
  }

  lemma TakenIs(t: Taking, k: nat, now: seq<bool>, flagNow: bv8)
    requires Taken(t, k, now, flagNow)
    ensures k <= |t.payload| && t.at + k <= |t.before|
    ensures now == Patched(t.before, t.at, t.payload[..k]) && Recorded(t.before, now, t.flag, flagNow)
  {}

  /** The eight bits of one byte, or as many as there are registers left. k bits of the payload are in
      place already. */
  method TakeByte(regs: RegisterFile, b: bv8, left: nat, addr: nat, ghost t: Taking, ghost k: nat)
      returns (rest: nat, addr': nat)
    requires regs.Valid() && left > 0 && |t.before| == BOOL_COUNT && k + 8 <= |t.payload|
    requires GetIndex(addr) == t.at + k && t.at + k + left <= BOOL_COUNT
    requires forall j :: 0 <= j < 8 ==> t.payload[k + j] == (b & Mask(j) != 0)
    requires Taken(t, k, regs.BoolView(), regs.changeFlag)
    modifies regs`changeFlag, regs.bools
    ensures rest == if left <= 8 then 0 else left - 8
    ensures rest > 0 ==> addr' == addr + 8
    ensures Taken(t, k + (left - rest), regs.BoolView(), regs.changeFlag)
  {
    hide Bools, Taken, BitOf, Mask, GetIndex;
    rest, addr' := left, addr;
    for j := 0 to 8
      invariant rest + j == left && rest > 0 && addr' == addr + j
      invariant Taken(t, k + j, regs.BoolView(), regs.changeFlag)
    {
      IndexShift(addr, j);
      OneTaken(t, k + j, regs.BoolView(), regs.changeFlag);
      regs.WriteBool(b & Mask(j) != 0, addr');
      rest := rest - 1;
      if rest == 0 {
        return;
      }
      addr' := addr' + 1;
    }
  }

  lemma PayloadByte(reply: seq<bv8>, i: nat)
    requires i < |reply| - 4
    ensures forall j :: 0 <= j < 8 ==> PayloadBits(reply)[8 * i + j] == (reply[2 + i] & Mask(j) != 0)
  {
    forall j | 0 <= j < 8
      ensures PayloadBits(reply)[8 * i + j] == (reply[2 + i] & Mask(j) != 0)
    {
      assert IndexByte(8 * i + j) == i && IndexBit(8 * i + j) == j;
    }
  }

  /** What the patch means: after a reply that claims enough bytes, register k from the first one on is
      bit 7 - k % 8 of payload byte k / 8, for every register asked for, and no other boolean differs. */
  lemma RegistersRead(before: seq<bool>, index: nat, reply: seq<bv8>, nReg: nat, count: nat, j: nat)
    requires |reply| == ReplySize(nReg) && index + nReg <= |before| && j < |before| && 8 * count >= nReg
    ensures Covered(nReg, count) <= 8 * (|reply| - 4)
    ensures var after := Patched(before, index, PayloadBits(reply)[..Covered(nReg, count)]);
            after[j] == if index <= j < index + nReg
                        then reply[2 + (j - index) / 8] & (0x80 >> ((j - index) % 8)) != 0
                        else before[j]
  {
    if index <= j < index + nReg {
      BoolAt(reply[2..|reply| - 2], j - index);
      hide Bools;
    }
  }

  /** A reply is a success exactly when it arrived, is sealed, and claims enough bytes. Register
      regAddr + k then holds bit k of the payload, and no other boolean moves; a reply that claims
      too few bytes still sets the registers it covers. */
  method GetBoolReg(regs: RegisterFile, arrived: bool, reply: array<bv8>, nReg: nat, regAddr: nat) returns (ok: bool)
    requires regs.Valid() && regs.bools != reply
    requires nReg >= 1 && reply.Length == ReplySize(nReg)
    requires 0 <= GetIndex(regAddr) && GetIndex(regAddr) + nReg <= BOOL_COUNT
    modifies regs`changeFlag, regs.bools
    ensures !(arrived && Checksum.Accepts(reply[..])) ==>
              !ok && regs.BoolView() == old(regs.BoolView()) && regs.changeFlag == old(regs.changeFlag)
    ensures arrived && Checksum.Accepts(reply[..]) ==>
              var bits := PayloadBits(reply[..])[..Covered(nReg, reply[1] as int)];
              && (ok <==> 8 * (reply[1] as int) >= nReg)
              && regs.BoolView() == Patched(old(regs.BoolView()), GetIndex(regAddr), bits)
              && Recorded(old(regs.BoolView()), regs.BoolView(), old(regs.changeFlag), regs.changeFlag)
  {
    if !arrived {
      return false;
    }
    hide Bools, Patched, Recorded, Checksum.Accepts;
    var sealed := Checksum.CheckCrc16(reply, reply.Length);
    assert reply[..reply.Length] == reply[..];
    if !sealed {
      return false;
    }
    ok := TakeBits(regs, reply, nReg, regAddr);
  }
}
