/** The queue of Modbus messages as an abstract machine: what is accepted, what has been served,
    and the entry that is always held back at the head of the ring. */
module MessageQueue {

  /** payload stands for the pointer to the message body. */
  datatype Message = Message(
    code: nat, regAddr: int, nReg: int, bytes: nat, payload: nat, crc: nat, addr: nat, sizeHead: nat, sizeMessage: nat)

  const DEFAULT := Message(0, 0, 0, 0, 0, 0, 0, 0, 0)
  const RING_SIZE := 15
  const ADDR_ALL := 0
  const SLAVES: seq<nat> := [0x30, 0x40]

  datatype State = State(accepted: seq<Message>, served: seq<Message>, head: Message, waiting: seq<Message>)

  /** The ring as it is set up: the head slot holds an entry nobody enqueued. */
  const INITIAL := State([], [], DEFAULT, [])

  datatype Event = Enqueue(message: Message) | Serve(arrivals: seq<Message>)

  /** A message is refused exactly when the head and fourteen waiting messages fill the ring. */
  function Enqueued(s: State, m: Message): State {
    if |s.waiting| >= RING_SIZE - 1 then s
    else s.(accepted := s.accepted + [m], waiting := s.waiting + [m])
  }

  function EnqueuedAll(s: State, ms: seq<Message>): State {
    if |ms| == 0 then s else Enqueued(EnqueuedAll(s, ms[..|ms| - 1]), ms[|ms| - 1])
  }

  /** The head is served while further messages arrive, and then the ring moves on by one. With
      nothing waiting the head is not served at all. */
  function Served(s: State, arrivals: seq<Message>): State {
    if |s.waiting| == 0 then s
    else
      var t := EnqueuedAll(s, arrivals);
      Advanced(t)
  }

  function Advanced(s: State): State {
    if |s.waiting| == 0 then s
    else State(s.accepted, s.served + [s.head], s.waiting[0], s.waiting[1..])
  }

  function Step(s: State, e: Event): State {
    match e
    case Enqueue(m) => Enqueued(s, m)
    case Serve(arrivals) => Served(s, arrivals)
  }

  function RunAll(s: State, events: seq<Event>): State {
    if |events| == 0 then s else Step(RunAll(s, events[..|events| - 1]), events[|events| - 1])
  }

  /** Nothing is lost, duplicated or reordered: the default entry and all accepted messages are the
      served ones, the head, and the waiting ones, in this order. */
  predicate Orderly(s: State) {
    && [DEFAULT] + s.accepted == s.served + [s.head] + s.waiting
    && |s.waiting| <= 14
  }

  lemma EnqueuedOrderly(s: State, m: Message)
    requires Orderly(s)
    ensures Orderly(Enqueued(s, m))
    ensures Enqueued(s, m) == s <==> |s.waiting| == 14
  {
    if |s.waiting| < RING_SIZE - 1 {
      assert [DEFAULT] + (s.accepted + [m]) == ([DEFAULT] + s.accepted) + [m];
      assert s.served + [s.head] + (s.waiting + [m]) == (s.served + [s.head] + s.waiting) + [m];
      assert |Enqueued(s, m).waiting| == |s.waiting| + 1;
    }
  }

  lemma EnqueuedNothing(s: State)
    ensures EnqueuedAll(s, []) == s
  {}

  lemma {:induction false} EnqueuedAllOrderly(s: State, ms: seq<Message>)
    requires Orderly(s)
    ensures Orderly(EnqueuedAll(s, ms))
    decreases |ms|
  {
    hide Orderly;
    if |ms| > 0 {
      EnqueuedAllOrderly(s, ms[..|ms| - 1]);
      EnqueuedOrderly(EnqueuedAll(s, ms[..|ms| - 1]), ms[|ms| - 1]);
    }
  }

  lemma AdvancedOrderly(s: State)
    requires Orderly(s)
    ensures Orderly(Advanced(s))
  {
    if |s.waiting| > 0 {
      var t := Advanced(s);
      assert t.served + [t.head] + t.waiting == s.served + [s.head] + ([s.waiting[0]] + s.waiting[1..]);
      assert [s.waiting[0]] + s.waiting[1..] == s.waiting;
    }
  }

  /** The order is kept over every sequence of enqueue and service steps, arrivals during service
      included. */
  lemma {:induction false} RunsOrderly(s: State, events: seq<Event>)
    requires Orderly(s)
    ensures Orderly(RunAll(s, events))
    decreases |events|
  {
    hide Orderly, Enqueued, EnqueuedAll, Advanced;
    if |events| > 0 {
      var t := RunAll(s, events[..|events| - 1]);
      RunsOrderly(s, events[..|events| - 1]);
      match events[|events| - 1]
      case Enqueue(m) => EnqueuedOrderly(t, m);
      case Serve(arrivals) =>
        if |t.waiting| > 0 {
          EnqueuedAllOrderly(t, arrivals);
          AdvancedOrderly(EnqueuedAll(t, arrivals));
        }
    }
  }

  /** First in, first out, but one behind: from the start, whatever happens, the served messages are
      the default entry followed by the oldest accepted ones, and the newest accepted message is
      never among them. */
  lemma ServedOneBehind(events: seq<Event>)
    ensures var s := RunAll(INITIAL, events);
            |s.served| <= |s.accepted| && s.served == ([DEFAULT] + s.accepted)[..|s.served|]
  {
    RunsOrderly(INITIAL, events);
    var s := RunAll(INITIAL, events);
    hide RunAll;
    var all := [DEFAULT] + s.accepted;
    assert |all| == |s.served| + 1 + |s.waiting|;
    assert all[..|s.served|] == s.served;
  }

  /** How many of the arriving messages find room. */
  function Room(s: State, ms: seq<Message>): nat {
    if |s.waiting| >= RING_SIZE - 1 then 0
    else if |ms| <= RING_SIZE - 1 - |s.waiting| then |ms|
    else RING_SIZE - 1 - |s.waiting|
  }

  /** Of a stretch of arrivals the first ones are accepted, as many as find room. */
  lemma {:induction false} FirstArrivalsAccepted(s: State, ms: seq<Message>)
    ensures EnqueuedAll(s, ms)
         == s.(accepted := s.accepted + ms[..Room(s, ms)], waiting := s.waiting + ms[..Room(s, ms)])
    decreases |ms|
  {
    if |ms| == 0 {
      assert s.accepted + [] == s.accepted && s.waiting + [] == s.waiting;
    } else {
      var front, m := ms[..|ms| - 1], ms[|ms| - 1];
      FirstArrivalsAccepted(s, front);
      var k := Room(s, front);
      if k == |front| && |s.waiting| + k < RING_SIZE - 1 {
        assert ms[..k + 1] == front[..k] + [m];
        assert s.accepted + front[..k] + [m] == s.accepted + (front[..k] + [m]);
        assert s.waiting + front[..k] + [m] == s.waiting + (front[..k] + [m]);
      } else {
        assert ms[..k] == front[..k];
      }
    }
  }

  /** Draining: k services without arrivals serve the head and the k - 1 oldest waiting messages. */
  lemma {:induction false} Drain(s: State, k: nat)
    requires k <= |s.waiting|
    ensures var t := RunAll(s, seq(k, _ => Serve([])));
            && t.accepted == s.accepted && t.waiting == s.waiting[k..]
            && t.served + [t.head] == s.served + [s.head] + s.waiting[..k]
    decreases k
  {
    var events := seq(k, _ => Serve([]));
    if k > 0 {
      Drain(s, k - 1);
      assert events[..k - 1] == seq(k - 1, _ => Serve([]));
      var t := RunAll(s, seq(k - 1, _ => Serve([])));
      assert t.waiting[0] == s.waiting[k - 1] && t.waiting[1..] == s.waiting[k..];
      assert s.waiting[..k] == s.waiting[..k - 1] + [s.waiting[k - 1]];
    }
  }

  lemma {:induction false} EnqueuedAllConcat(s: State, a: seq<Message>, b: seq<Message>)
    ensures EnqueuedAll(s, a + b) == EnqueuedAll(EnqueuedAll(s, a), b)
    decreases |b|
  {
    if |b| == 0 {
      assert a + b == a;
    } else {
      assert (a + b)[..|a + b| - 1] == a + b[..|b| - 1];
      EnqueuedAllConcat(s, a, b[..|b| - 1]);
    }
  }

  lemma {:induction false} ArrivalsIgnoreHead(s: State, h: Message, ms: seq<Message>)
    ensures EnqueuedAll(s.(head := h), ms) == EnqueuedAll(s, ms).(head := h)
    decreases |ms|
  {
    if |ms| > 0 {
      ArrivalsIgnoreHead(s, h, ms[..|ms| - 1]);
    }
  }

  /** Arrivals only add to what is accepted and waiting. */
  lemma {:induction false} EnqueuedAllOnly(s: State, ms: seq<Message>)
    ensures EnqueuedAll(s, ms).head == s.head && EnqueuedAll(s, ms).served == s.served
    ensures |EnqueuedAll(s, ms).waiting| >= |s.waiting|
    decreases |ms|
  {
    if |ms| > 0 {
      EnqueuedAllOnly(s, ms[..|ms| - 1]);
    }
  }

  /** One service: the head is served and the oldest waiting message takes its place; what arrives
      meanwhile finds the room there was before, because the head is held until the end. */
  lemma ServiceInFull(s: State, arrivals: seq<Message>)
    requires 0 < |s.waiting| <= 14
    ensures var room := 14 - |s.waiting|;
            var n := if |arrivals| < room then |arrivals| else room;
            Served(s, arrivals)
            == State(s.accepted + arrivals[..n], s.served + [s.head], s.waiting[0], s.waiting[1..] + arrivals[..n])
  {
    FirstArrivalsAccepted(s, arrivals);
    hide EnqueuedAll;
  }
}
