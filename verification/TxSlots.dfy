/**
 The pool of CAN transmit slots: tasks claim and fill a slot, the driver borrows it, and the done
 interrupt gives it back, possibly before the transmit call that lent it out has returned.
 */
module TxSlots {
  import opened Common

  const SLOT_COUNT := 8
  const FRAME_MAX := 64

  // What a caller asks to be sent.
  datatype Frame = Frame(id: uint32, payload: seq<byte>)

  type Buffer = d: seq<byte> | |d| == FRAME_MAX witness seq(FRAME_MAX, _ => 0)
  type Length = n: nat | n <= FRAME_MAX

  // One entry of `s_tx_slots`. The frame's buffer is the slot's own `data`, of which `len` bytes count.
  datatype Slot = Slot(inUse: bool, id: uint32, frameId: uint32, len: Length, data: Buffer) {
    // The frame the hardware would send from this slot.
    function Sends(): Frame {
      Frame(frameId, data[..len])
    }
  }

  type Pool = seq<Slot>

  /* ---- Specification of the pool calls ---- */

  function FirstFree(pool: Pool, from: nat): (r: nat)
    requires from <= |pool|
    ensures from <= r <= |pool| && (r < |pool| ==> !pool[r].inUse)
    ensures forall i :: from <= i < r ==> pool[i].inUse
    decreases |pool| - from
  {
    if from == |pool| || !pool[from].inUse then from else FirstFree(pool, from + 1)
  }

  function Fill(slot: Slot, f: Frame): Slot
    requires |f.payload| <= FRAME_MAX
  {
    Slot(true, f.id, f.id, |f.payload|, f.payload + slot.data[|f.payload|..])
  }

  function AllocSpec(pool: Pool, f: Frame): (Pool, Option<nat>) {
    var i := FirstFree(pool, 0);
    if |f.payload| > FRAME_MAX || i == |pool| then (pool, None) else (pool[i := Fill(pool[i], f)], Some(i))
  }

  function ReleaseSpec(pool: Pool, i: nat): Pool {
    if i < |pool| then pool[i := pool[i].(inUse := false)] else pool
  }

  /* ---- The pool as the firmware keeps it ---- */

  class TxPool {
    const slots: array<Slot>
    var exhausted: nat
    var failures: nat
    var lastFailureId: uint32

    ghost predicate Valid()
      reads this, slots
    {
      slots.Length == SLOT_COUNT
    }

    constructor ()
      ensures Valid() && fresh(slots) && forall i :: 0 <= i < SLOT_COUNT ==> !slots[i].inUse
    {
      slots := new Slot[SLOT_COUNT](_ => Slot(false, 0, 0, 0, seq(FRAME_MAX, _ => 0)));
      exhausted, failures, lastFailureId := 0, 0, 0;
    }

    method AllocTxSlot(f: Frame) returns (slot: Option<nat>)
      requires Valid()
      modifies slots
      ensures Valid() && (slots[..], slot) == AllocSpec(old(slots[..]), f)
      ensures slot.Some? <==> |f.payload| <= 64 && exists i :: 0 <= i < SLOT_COUNT && !old(slots[i].inUse)
      ensures slot.None? ==> slots[..] == old(slots[..])
      ensures slot.Some? ==>
                && slot.value < SLOT_COUNT && !old(slots[..])[slot.value].inUse && slots[slot.value].inUse
                && slots[slot.value].Sends() == f && slots[slot.value].id == f.id
                && (forall k :: 0 <= k < slot.value ==> old(slots[k].inUse))
                && forall k :: 0 <= k < SLOT_COUNT && k != slot.value ==> slots[k] == old(slots[k])
      // The call is the claiming step of the interleaved machine.
      ensures forall w: World, t: nat {:trigger Step(w, Alloc(t, f))} :: w.pool == old(slots[..]) && t !in w.tasks ==>
                Step(w, Alloc(t, f))
                == if slot.None? then w
                   else w.(pool := slots[..], tasks := w.tasks[t := Claimed(slot.value, f)])
    {
      if |f.payload| > FRAME_MAX {
        return None;
      }
      var i := 0;
      while i < SLOT_COUNT
        invariant 0 <= i <= SLOT_COUNT && FirstFree(slots[..], 0) == FirstFree(slots[..], i)
        invariant slots[..] == old(slots[..])
      {
        if !slots[i].inUse {
          slots[i] := Fill(slots[i], f);
          return Some(i);
        }
        i := i + 1;
      }
      slot := None;
    }

    // `frame` is the position of the frame's slot; any other value is a frame the pool does not own.
    method ReleaseTxSlotFromIsr(frame: nat) returns (released: bool, id: uint32)
      requires Valid()
      modifies slots
      ensures Valid() && slots[..] == ReleaseSpec(old(slots[..]), frame)
      ensures released <==> frame < SLOT_COUNT
      ensures id == if released then old(slots[frame].id) else 0
      ensures released ==> slots[frame] == old(slots[frame]).(inUse := false)
      ensures forall k :: 0 <= k < SLOT_COUNT && k != frame ==> slots[k] == old(slots[k])
    {
      released, id := false, 0;
      var i := 0;
      while i < SLOT_COUNT
        invariant 0 <= i <= SLOT_COUNT && slots[..] == old(slots[..])
        invariant frame >= i
      {
        if i == frame {
          id := slots[i].id;
          slots[i] := slots[i].(inUse := false);
          return true, id;
        }
        i := i + 1;
      }
    }

    method ReleaseTxSlot(slot: nat)
      requires Valid() && slot < SLOT_COUNT
      modifies slots
      ensures Valid() && slots[..] == ReleaseSpec(old(slots[..]), slot)
      ensures slots[slot] == old(slots[slot]).(inUse := false)
      ensures forall k :: 0 <= k < SLOT_COUNT && k != slot ==> slots[k] == old(slots[k])
      // The call is what a task refused by the driver does before it returns.
      ensures forall w: World, t: nat {:trigger Step(w, Return(t))} ::
                w.pool == old(slots[..]) && t in w.tasks && w.tasks[t].Refused? && w.tasks[t].slot == slot ==>
                  Step(w, Return(t)) == World(slots[..], w.tasks - {t}, w.driver)
    {
      slots[slot] := slots[slot].(inUse := false);
    }

    // `transmit_fd_frame`, when no interrupt comes in between; `accepted` is the driver's answer.
    method TransmitFdFrame(f: Frame, accepted: bool) returns (sent: bool)
      requires Valid()
      modifies this, slots
      ensures Valid() && failures == old(failures) && lastFailureId == old(lastFailureId)
      ensures var (pool, slot) := AllocSpec(old(slots[..]), f);
              && (sent <==> slot.Some? && accepted)
              && exhausted == old(exhausted) + (if slot.None? then 1 else 0)
              && slots[..] == if slot.Some? && !accepted then ReleaseSpec(pool, slot.value) else pool
      // A frame that went out keeps one more slot in use; any other leaves them as they were.
      ensures sent ==> |InUse(slots[..])| == |InUse(old(slots[..]))| + 1 && InUse(slots[..]) > InUse(old(slots[..]))
      ensures !sent ==> InUse(slots[..]) == InUse(old(slots[..]))
    {
      AllocInUse(slots[..], f);
      var slot := AllocTxSlot(f);
      if slot.None? {
        exhausted := exhausted + 1;
        return false;
      }
      if !accepted {
        ReleaseTxSlot(slot.value);
      }
      sent := accepted;
    }

    method TxDoneCallback(frame: nat, success: bool)
      requires Valid()
      modifies this, slots
      ensures Valid() && slots[..] == ReleaseSpec(old(slots[..]), frame) && exhausted == old(exhausted)
      ensures failures == old(failures) + if success then 0 else 1
      // A frame the pool does not own is recorded under id 0.
      ensures lastFailureId == if success then old(lastFailureId)
                               else if frame < SLOT_COUNT then old(slots[frame].id) else 0
      // Exactly the frame's own slot is free again, which is the completion step of the machine.
      ensures frame < SLOT_COUNT ==> slots[frame] == old(slots[frame]).(inUse := false)
      ensures forall k :: 0 <= k < SLOT_COUNT && k != frame ==> slots[k] == old(slots[k])
      ensures forall w: World {:trigger Step(w, Done(frame))} :: w.pool == old(slots[..]) && frame in w.driver ==>
                Step(w, Done(frame)) == World(slots[..], w.tasks, w.driver - {frame})
    {
      var released, id := ReleaseTxSlotFromIsr(frame);
      if !success {
        failures := failures + 1;
        lastFailureId := id;
      }
    }
  }

  /* ---- Tasks, driver and interrupt, interleaved ---- */

  lemma AllocInUse(pool: Pool, f: Frame)
    ensures var (pool', slot) := AllocSpec(pool, f);
            slot.Some? ==>
              && slot.value < |pool'| && InUse(pool') == InUse(pool) + {slot.value} && slot.value !in InUse(pool)
              && InUse(ReleaseSpec(pool', slot.value)) == InUse(pool)
  {
    var (pool', slot) := AllocSpec(pool, f);
    if slot.Some? {
      var i := slot.value;
      assert forall k :: 0 <= k < |pool| && k != i ==> pool'[k] == pool[k];
      assert forall k :: 0 <= k < |pool| ==> (ReleaseSpec(pool', i)[k].inUse <==> pool[k].inUse);
    }
  }

  // Where a task is inside `transmit_fd_frame`: between claiming the slot and the transmit call; after
  // the driver refused the frame; after the driver accepted it, with the call not yet returned.
  datatype Task =
    | Claimed(slot: nat, frame: Frame)
    | Refused(slot: nat, frame: Frame)
    | Accepted(slot: nat, frame: Frame)

  // `driver` is what the driver holds: the slot, and the frame its caller passed for it.
  datatype World = World(pool: Pool, tasks: map<nat, Task>, driver: map<nat, Frame>)

  datatype Event =
    | Alloc(task: nat, frame: Frame)
    | Transmit(task: nat, accepted: bool)
    | Return(task: nat)
    | Done(slot: nat)

  function Step(w: World, e: Event): World {
    match e
    case Alloc(t, f) =>
      if t in w.tasks then w
      else
        var (pool, slot) := AllocSpec(w.pool, f);
        if slot.None? then w else w.(pool := pool, tasks := w.tasks[t := Claimed(slot.value, f)])
    case Transmit(t, accepted) =>
      if t !in w.tasks || !w.tasks[t].Claimed? then w
      else
        var Claimed(i, f) := w.tasks[t];
        if accepted then w.(tasks := w.tasks[t := Accepted(i, f)], driver := w.driver[i := f])
        else w.(tasks := w.tasks[t := Refused(i, f)])
    case Return(t) =>
      if t !in w.tasks || w.tasks[t].Claimed? then w
      else if w.tasks[t].Refused? then World(ReleaseSpec(w.pool, w.tasks[t].slot), w.tasks - {t}, w.driver)
      else w.(tasks := w.tasks - {t})
    case Done(i) =>
      if i !in w.driver then w else World(ReleaseSpec(w.pool, i), w.tasks, w.driver - {i})
  }

  // Task `t` still has to hand slot `i` on or give it back.
  ghost predicate Owns(w: World, t: nat, i: nat) {
    t in w.tasks && !w.tasks[t].Accepted? && w.tasks[t].slot == i
  }

  ghost predicate Inv(w: World) {
    && |w.pool| == SLOT_COUNT
    && (forall i: nat :: i in w.driver ==> i < SLOT_COUNT && w.pool[i].inUse)
    && (forall t: nat, i: nat :: Owns(w, t, i) ==> i < SLOT_COUNT && w.pool[i].inUse && i !in w.driver)
    && (forall t: nat, u: nat, i: nat :: Owns(w, t, i) && Owns(w, u, i) ==> t == u)
    && (forall i: nat :: i < SLOT_COUNT && w.pool[i].inUse && i !in w.driver ==> exists t: nat :: Owns(w, t, i))
    && (forall i: nat :: i in w.driver ==> w.pool[i].Sends() == w.driver[i] && w.pool[i].id == w.driver[i].id)
    && (forall t: nat, i: nat :: Owns(w, t, i) ==>
          w.pool[i].Sends() == w.tasks[t].frame && w.pool[i].id == w.tasks[t].frame.id)
  }

  lemma FillSends(slot: Slot, f: Frame)
    requires |f.payload| <= FRAME_MAX
    ensures Fill(slot, f).Sends() == f && Fill(slot, f).id == f.id
  {
  }

  lemma {:induction false} StepKeepsInv(w: World, e: Event)
    requires Inv(w)
    ensures Inv(Step(w, e))
  {
    match e
    case Alloc(t, f) => AllocKeepsInv(w, t, f);
    case Transmit(t, accepted) => TransmitKeepsInv(w, t, accepted);
    case Return(t) => ReturnKeepsInv(w, t);
    case Done(i) => DoneKeepsInv(w, i);
  }

  lemma AllocKeepsInv(w: World, t: nat, f: Frame)
    requires Inv(w)
    ensures Inv(Step(w, Alloc(t, f)))
  {
    var w' := Step(w, Alloc(t, f));
    var i := FirstFree(w.pool, 0);
    if t !in w.tasks && |f.payload| <= FRAME_MAX && i < SLOT_COUNT {
      FillSends(w.pool[i], f);
      hide FirstFree, Fill, Slot.Sends;
      assert Owns(w', t, i);
      assert forall u: nat, k: nat :: u != t ==> (Owns(w', u, k) <==> Owns(w, u, k));
      forall k: nat | k < SLOT_COUNT && w'.pool[k].inUse && k !in w'.driver ensures exists u: nat :: Owns(w', u, k) {
        if k != i {
          var u: nat :| Owns(w, u, k);
          assert Owns(w', u, k);
        }
      }
    }
  }

  lemma TransmitKeepsInv(w: World, t: nat, accepted: bool)
    requires Inv(w)
    ensures Inv(Step(w, Transmit(t, accepted)))
  {
    var w' := Step(w, Transmit(t, accepted));
    if t in w.tasks && w.tasks[t].Claimed? {
      var i := w.tasks[t].slot;
      assert Owns(w, t, i);
      assert forall u: nat, k: nat :: u != t ==> (Owns(w', u, k) <==> Owns(w, u, k));
      assert !accepted ==> Owns(w', t, i);
      forall k: nat | k < SLOT_COUNT && w'.pool[k].inUse && k !in w'.driver ensures exists u: nat :: Owns(w', u, k) {
        var u: nat :| Owns(w, u, k);
        assert Owns(w', u, k);
      }
    }
  }

  lemma ReturnKeepsInv(w: World, t: nat)
    requires Inv(w)
    ensures Inv(Step(w, Return(t)))
  {
    var w' := Step(w, Return(t));
    if t in w.tasks && !w.tasks[t].Claimed? {
      assert w.tasks[t].Refused? ==> Owns(w, t, w.tasks[t].slot);
      assert forall u: nat, k: nat :: u != t ==> (Owns(w', u, k) <==> Owns(w, u, k));
      forall k: nat | k < SLOT_COUNT && w'.pool[k].inUse && k !in w'.driver ensures exists u: nat :: Owns(w', u, k) {
        var u: nat :| Owns(w, u, k);
        assert Owns(w', u, k);
      }
    }
  }

  lemma DoneKeepsInv(w: World, i: nat)
    requires Inv(w)
    ensures Inv(Step(w, Done(i)))
  {
    var w' := Step(w, Done(i));
    if i in w.driver {
      assert forall u: nat, k: nat :: Owns(w', u, k) <==> Owns(w, u, k);
      forall k: nat | k < SLOT_COUNT && w'.pool[k].inUse && k !in w'.driver ensures exists u: nat :: Owns(w', u, k) {
        var u: nat :| Owns(w, u, k);
        assert Owns(w', u, k);
      }
    }
  }

  /* ---- Over all runs ---- */

  function Run(w: World, es: seq<Event>): World {
    if es == [] then w else Step(Run(w, es[..|es| - 1]), es[|es| - 1])
  }

  lemma {:induction false} RunKeepsInv(w: World, es: seq<Event>)
    requires Inv(w)
    ensures Inv(Run(w, es))
  {
    if es != [] {
      RunKeepsInv(w, es[..|es| - 1]);
      StepKeepsInv(Run(w, es[..|es| - 1]), es[|es| - 1]);
    }
  }

  ghost predicate Initial(w: World) {
    && |w.pool| == SLOT_COUNT && (forall i :: 0 <= i < SLOT_COUNT ==> !w.pool[i].inUse)
    && w.tasks == map[] && w.driver == map[]
  }

  // In every interleaving each frame the driver holds sits in its own in-use slot, which no task owns,
  // and would go out with exactly the id and payload its caller passed.
  lemma {:induction false} HeldFramesAreIntact(w: World, es: seq<Event>)
    requires Initial(w)
    ensures var v := Run(w, es);
            && |v.pool| == SLOT_COUNT
            && (forall i: nat :: i in v.driver ==>
                  && i < SLOT_COUNT && v.pool[i].inUse
                  && v.pool[i].Sends() == v.driver[i] && v.pool[i].id == v.driver[i].id)
            && (forall i: nat, t: nat :: i in v.driver ==> !Owns(v, t, i))
            && (forall i: nat, t: nat, u: nat :: Owns(v, t, i) && Owns(v, u, i) ==> t == u)
  {
    RunKeepsInv(w, es);
  }

  // In every interleaving a completion gives back exactly the slot of its frame: slot and frame are
  // gone, and no other slot, held frame or task is touched.
  lemma {:induction false} DoneFreesItsSlot(w: World, es: seq<Event>, i: nat)
    requires Initial(w) && i in Run(w, es).driver
    ensures var v, v' := Run(w, es), Run(w, es + [Done(i)]);
            && i < |v'.pool| == |v.pool| == SLOT_COUNT && !v'.pool[i].inUse && i !in v'.driver
            && v'.driver.Keys == v.driver.Keys - {i} && v'.tasks == v.tasks
            && (forall k: nat :: k < SLOT_COUNT && k != i ==> v'.pool[k] == v.pool[k])
            && (forall k: nat :: k in v'.driver ==> v'.driver[k] == v.driver[k])
  {
    RunKeepsInv(w, es);
    assert (es + [Done(i)])[..|es|] == es;
  }

  // After it any idle task can claim a slot for a frame of up to 64 bytes, even one that found none
  // before.
  lemma {:induction false} DoneAllowsAlloc(w: World, es: seq<Event>, i: nat, t: nat, f: Frame)
    requires Initial(w) && i in Run(w, es).driver && t !in Run(w, es).tasks && |f.payload| <= 64
    ensures var v, v' := Run(w, es + [Done(i)]), Run(w, es + [Done(i), Alloc(t, f)]);
            && t in v'.tasks && v'.tasks[t].Claimed? && v'.tasks[t].frame == f
            && v'.tasks[t].slot < |v.pool| == |v'.pool| && !v.pool[v'.tasks[t].slot].inUse
            && v'.pool[v'.tasks[t].slot].Sends() == f && v'.driver == v.driver
  {
    DoneFreesItsSlot(w, es, i);
    var v := Run(w, es + [Done(i)]);
    assert (es + [Done(i), Alloc(t, f)])[..|es| + 1] == es + [Done(i)];
    hide Run;
    var k := FirstFree(v.pool, 0);
    assert k <= i;
    FillSends(v.pool[k], f);
  }

  // In every interleaving a claimed frame the driver accepts is held by it, with its id and payload,
  // in the slot that was claimed; one it refuses is not, and its slot is free once the task returns.
  lemma {:induction false} TransmitLendsSlot(w: World, es: seq<Event>, t: nat, accepted: bool)
    requires Initial(w) && t in Run(w, es).tasks && Run(w, es).tasks[t].Claimed?
    ensures var v, v' := Run(w, es), Run(w, es + [Transmit(t, accepted)]);
            var Claimed(i, f) := v.tasks[t];
            && i !in v.driver && v'.pool == v.pool
            && v'.tasks == v.tasks[t := if accepted then Accepted(i, f) else Refused(i, f)]
            && v'.driver == (if accepted then v.driver[i := f] else v.driver)
            && (accepted ==> i < |v'.pool| == SLOT_COUNT && v'.pool[i].Sends() == f && v'.pool[i].id == f.id)
  {
    RunKeepsInv(w, es);
    assert (es + [Transmit(t, accepted)])[..|es|] == es;
    assert Owns(Run(w, es), t, Run(w, es).tasks[t].slot);
  }

  // A task that returns is idle again. The slot of a refused frame is free with it; an accepted frame
  // stays with the driver unless it has completed before, in which case its slot is left to whoever
  // claimed it since.
  lemma {:induction false} ReturnLeavesIdle(w: World, es: seq<Event>, t: nat)
    requires Initial(w) && t in Run(w, es).tasks && !Run(w, es).tasks[t].Claimed?
    ensures var v, v' := Run(w, es), Run(w, es + [Return(t)]);
            var task := v.tasks[t];
            && v'.tasks == v.tasks - {t} && v'.driver == v.driver && |v'.pool| == |v.pool| == SLOT_COUNT
            && (task.Refused? ==> task.slot < SLOT_COUNT && v.pool[task.slot].inUse && !v'.pool[task.slot].inUse)
            && (task.Accepted? ==> v'.pool == v.pool)
            && (forall k: nat :: k < SLOT_COUNT && k != task.slot ==> v'.pool[k] == v.pool[k])
  {
    RunKeepsInv(w, es);
    assert (es + [Return(t)])[..|es|] == es;
    if Run(w, es).tasks[t].Refused? {
      assert Owns(Run(w, es), t, Run(w, es).tasks[t].slot);
    }
  }

  // The driver keeps a frame, unchanged, until that frame's own completion.
  lemma {:induction false} HeldUntilDone(w: World, es: seq<Event>, i: nat)
    requires Inv(w) && i in w.driver && Done(i) !in es
    ensures i in Run(w, es).driver && Run(w, es).driver[i] == w.driver[i]
    ensures i < |Run(w, es).pool| && Run(w, es).pool[i] == w.pool[i]
  {
    RunKeepsInv(w, es);
    if es != [] {
      var before, e := es[..|es| - 1], es[|es| - 1];
      RunKeepsInv(w, before);
      HeldUntilDone(w, before, i);
      StepLeavesHeld(Run(w, before), e, i);
    }
  }

  lemma StepLeavesHeld(w: World, e: Event, i: nat)
    requires Inv(w) && i in w.driver && e != Done(i)
    ensures i in Step(w, e).driver && Step(w, e).driver[i] == w.driver[i]
    ensures |Step(w, e).pool| == SLOT_COUNT && Step(w, e).pool[i] == w.pool[i]
  {
    if e.Transmit? && e.task in w.tasks && w.tasks[e.task].Claimed? {
      assert Owns(w, e.task, w.tasks[e.task].slot);
    }
    if e.Return? && e.task in w.tasks && w.tasks[e.task].Refused? {
      assert Owns(w, e.task, w.tasks[e.task].slot);
    }
  }

  // Claiming fails only for an oversized payload or with all eight slots in use.
  lemma {:induction false} ExhaustedExactly(w: World, t: nat, f: Frame)
    requires Inv(w) && t !in w.tasks
    ensures Step(w, Alloc(t, f)) == w <==>
              |f.payload| > 64 || forall i :: 0 <= i < 8 ==> w.pool[i].inUse
  {
    var i := FirstFree(w.pool, 0);
    if |f.payload| <= FRAME_MAX && i < SLOT_COUNT {
      assert t in Step(w, Alloc(t, f)).tasks;
    }
  }

  /* ---- Conservation ---- */

  function InUse(pool: Pool): set<nat> {
    set i: nat | i < |pool| && pool[i].inUse
  }

  // All tasks that own a slot.
  function Owners(tasks: map<nat, Task>): set<nat> {
    set t | t in tasks && !tasks[t].Accepted?
  }

  function SlotsOf(tasks: map<nat, Task>, owners: set<nat>): set<nat>
    requires owners <= tasks.Keys
  {
    set t | t in owners :: tasks[t].slot
  }

  lemma {:induction false} SlotsOfSize(tasks: map<nat, Task>, owners: set<nat>)
    requires owners <= tasks.Keys
    requires forall t, u :: t in owners && u in owners && tasks[t].slot == tasks[u].slot ==> t == u
    ensures |SlotsOf(tasks, owners)| == |owners|
    decreases |owners|
  {
    if owners != {} {
      var t :| t in owners;
      SlotsOfSize(tasks, owners - {t});
      assert SlotsOf(tasks, owners) == SlotsOf(tasks, owners - {t}) + {tasks[t].slot};
      assert tasks[t].slot !in SlotsOf(tasks, owners - {t});
    }
  }

  // At every moment the slots in use are those of tasks that have not yet lent theirs out, plus those
  // the driver holds: none is lost, none counted twice.
  lemma {:induction false} SlotsConserved(w: World, es: seq<Event>)
    requires Initial(w)
    ensures var v := Run(w, es);
            |InUse(v.pool)| == |Owners(v.tasks)| + |v.driver.Keys|
  {
    RunKeepsInv(w, es);
    var v := Run(w, es);
    var owned := SlotsOf(v.tasks, Owners(v.tasks));
    forall t, u | t in Owners(v.tasks) && u in Owners(v.tasks) && v.tasks[t].slot == v.tasks[u].slot ensures t == u {
      assert Owns(v, t, v.tasks[t].slot) && Owns(v, u, v.tasks[t].slot);
    }
    SlotsOfSize(v.tasks, Owners(v.tasks));
    forall i: nat ensures i in owned ==> i in InUse(v.pool) && i !in v.driver.Keys {
      if i in owned {
        var t :| t in Owners(v.tasks) && v.tasks[t].slot == i;
        assert Owns(v, t, i);
      }
    }
    forall i: nat ensures i in InUse(v.pool) ==> i in owned || i in v.driver.Keys {
      if i in InUse(v.pool) && i !in v.driver {
        var t: nat :| Owns(v, t, i);
        assert t in Owners(v.tasks);
      }
    }
    assert InUse(v.pool) == owned + v.driver.Keys && owned !! v.driver.Keys;
  }
}
