/** The cooperative scheduler: a table of periodic tasks, scanned once per timer tick, lowest slot
    first, at most one dispatch per tick. */
module Task {

  datatype Option<T> = None | Some(value: T)

  /** A slot is free while it has no function. */
  datatype Slot = Slot(func: Option<nat>, lastExecution: nat, dt: nat, priority: nat, data: nat)

  const SLOT_COUNT := 12
  const DEFAULT_SLOT := Slot(None, 0, 0, 0, 0)

  // ---- One tick, as a function of the table ----

  predicate Due(s: Slot, now: nat) {
    s.func.Some? && now >= s.lastExecution && now - s.lastExecution >= s.dt
  }

  /** The slot a tick dispatches: the lowest one that is due, or the length of the table. */
  function Chosen(slots: seq<Slot>, now: nat): (c: nat)
    ensures c <= |slots|
    ensures c < |slots| ==> Due(slots[c], now)
    ensures forall j :: 0 <= j < c ==> !Due(slots[j], now)
  {
    if |slots| == 0 then 0
    else if Due(slots[0], now) then 0
    else 1 + Chosen(slots[1..], now)
  }

  function TickSlots(slots: seq<Slot>, now: nat): (r: seq<Slot>)
    ensures |r| == |slots|
  {
    var c := Chosen(slots, now);
    if c == |slots| then slots else slots[c := slots[c].(lastExecution := now)]
  }

  /** The same tasks, whenever they last ran. */
  predicate SameTasks(a: seq<Slot>, b: seq<Slot>) {
    |a| == |b| && forall i :: 0 <= i < |a| ==>
      && a[i].func == b[i].func && a[i].dt == b[i].dt
      && a[i].priority == b[i].priority && a[i].data == b[i].data
  }

  /** A tick leaves every task what it is. */
  lemma TickKeepsTasks(slots: seq<Slot>, now: nat)
    ensures SameTasks(TickSlots(slots, now), slots)
  {}

  /** Executions never lie in the future. */
  predicate PastOnly(slots: seq<Slot>, now: nat) {
    forall i :: 0 <= i < |slots| ==> slots[i].lastExecution <= now
  }

  /** The occupied slots are the first n: slots are handed out lowest first and never given back. */
  predicate Packed(slots: seq<Slot>, n: nat) {
    n <= |slots| && forall i :: 0 <= i < |slots| ==> (slots[i].func.Some? <==> i < n)
  }

  class Scheduler {
    const slots: array<Slot>
    const tickUs: nat
    var ticks: nat
    var paused: bool
    var schedulerOn: bool
    var tasksOn: nat

    ghost predicate Valid()
      reads this, slots
    {
      slots.Length == SLOT_COUNT && tickUs > 0 && PastOnly(slots[..], ticks * tickUs)
    }

    constructor (tickUs: nat)
      requires tickUs > 0
      ensures Valid() && fresh(slots) && this.tickUs == tickUs && ticks == 0 && !paused
      ensures !schedulerOn && tasksOn == 0 && slots[..] == seq(SLOT_COUNT, _ => DEFAULT_SLOT)
    {
      this.tickUs, ticks, paused, schedulerOn, tasksOn := tickUs, 0, false, false, 0;
      slots := new Slot[SLOT_COUNT](_ => DEFAULT_SLOT);
    }

    /** The timer interrupt: time advances here and nowhere else, and then one task may run. */
    method TickHandler() returns (ran: Option<nat>)
      requires Valid()
      modifies this`ticks, slots
      ensures Valid() && ticks == old(ticks) + 1
      ensures paused ==> ran == None && slots[..] == old(slots[..])
      ensures !paused ==> slots[..] == TickSlots(old(slots[..]), ticks * tickUs)
      ensures !paused ==> var c := Chosen(old(slots[..]), ticks * tickUs);
                          ran == if c == SLOT_COUNT then None else old(slots[..])[c].func
    {
      ticks := ticks + 1;
      assert (ticks - 1) * tickUs <= ticks * tickUs;
      ran := RunScheduler();
    }

    method RunScheduler() returns (ran: Option<nat>)
      requires Valid()
      modifies slots
      ensures Valid()
      ensures paused ==> ran == None && slots[..] == old(slots[..])
      ensures !paused ==> slots[..] == TickSlots(old(slots[..]), ticks * tickUs)
      ensures !paused ==> var c := Chosen(old(slots[..]), ticks * tickUs);
                          ran == if c == SLOT_COUNT then None else old(slots[..])[c].func
    {
      ran := None;
      if paused {
        return;
      }
      ghost var now := ticks * tickUs;
      for i := 0 to SLOT_COUNT
        invariant slots[..] == old(slots[..])
        invariant forall j :: 0 <= j < i ==> !Due(slots[j], now)
      {
        if slots[i].func != None {
          var timeUs := tickUs * ticks;
          var timeDt := timeUs - slots[i].lastExecution;
          if timeDt >= slots[i].dt {
            ChosenIs(slots[..], now, i);
            slots[i] := slots[i].(lastExecution := timeUs);
            ran := slots[i].func;
            return;
          }
        }
      }
      ChosenIs(slots[..], now, SLOT_COUNT);
    }

    method InitSlots()
      requires Valid()
      modifies this`tasksOn, slots
      ensures Valid() && tasksOn == 1
      ensures slots[..] == seq(SLOT_COUNT, _ => DEFAULT_SLOT)
    {
      for i := 0 to SLOT_COUNT
        invariant forall j :: 0 <= j < i ==> slots[j] == DEFAULT_SLOT
      {
        slots[i] := DEFAULT_SLOT;
      }
      tasksOn := 1;
    }

    /** The table a new task is entered into: the first task clears it. */
    ghost function TableForNew(): (t: seq<Slot>)
      reads this, slots
    {
      if tasksOn == 0 then seq(slots.Length, _ => DEFAULT_SLOT) else slots[..]
    }

    /** The source divides by the frequency and writes through the pointer to the first free slot, so
        it needs a positive frequency and a free slot. The new task keeps the slot's last execution
        time. */
    method NewTask(func: nat, frequency: nat, priority: nat, data: nat, ghost n: nat)
      requires Valid() && frequency > 0
      requires n < SLOT_COUNT && Packed(TableForNew(), n)
      modifies this`tasksOn, this`schedulerOn, slots
      ensures Valid() && schedulerOn
      ensures slots[..] == old(TableForNew())[n := old(TableForNew())[n].(
                func := Some(func), dt := 1000000 / frequency, priority := priority, data := data)]
      ensures Packed(slots[..], n + 1) && tasksOn == (if old(tasksOn) == 0 then 1 else old(tasksOn)) + 2
    {
      ghost var table := TableForNew();
      if tasksOn == 0 {
        InitSlots();
      }
      assert slots[..] == table;
      var free := 0;
      while slots[free].func != None
        invariant free <= n
        decreases n - free
      {
        free := free + 1;
      }
      slots[free] := slots[free].(func := Some(func), dt := 1000000 / frequency, priority := priority, data := data);
      assert slots[..] == table[n := slots[n]];
      tasksOn := tasksOn + 2;
      if !schedulerOn {
        schedulerOn := true;
      }
    }

    method Pause()
      modifies this`paused
      ensures paused
    {
      paused := true;
    }

    method Continue()
      modifies this`paused
      ensures !paused
    {
      paused := false;
    }
  }

  lemma {:induction false} ChosenIs(slots: seq<Slot>, now: nat, c: nat)
    requires c <= |slots| && (c < |slots| ==> Due(slots[c], now))
    requires forall j :: 0 <= j < c ==> !Due(slots[j], now)
    ensures Chosen(slots, now) == c
  {}
}
