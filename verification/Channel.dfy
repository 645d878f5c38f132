/** The channel of src/backend/channel.hh and the fiber states of src/backend/fiber.hh. */
module Channels {
  import opened Common
  import opened ChannelProtocol

  datatype FiberState = Created | Running | Suspended | Completed | Failed

  function AfterSuspend(st: FiberState): FiberState { if st.Running? then Suspended else st }
  function AfterResume(st: FiberState): FiberState { if st.Suspended? then Running else st }

  function AfterCall(st: FiberState, waits: bool, woken: bool): FiberState {
    if waits then AfterSuspend(st) else if woken then AfterResume(st) else st
  }

  /** Suspending and resuming undo each other, and touch no other state. */
  lemma SuspendThenResume(st: FiberState)
    ensures st == Running <==> AfterSuspend(st) != st
    ensures st == Suspended <==> AfterResume(st) != st
    ensures AfterSuspend(Running) == Suspended && AfterResume(AfterSuspend(Running)) == Running
  {
  }

  /** A caller that must wait is suspended, whoever is woken is resumed, nobody else changes. */
  lemma CallersAndWaiters(st: FiberState)
    ensures AfterCall(st, false, false) == st
    ensures AfterCall(Running, true, false) == Suspended && AfterCall(Suspended, false, true) == Running
  {
  }

  class Fiber {
    var state: FiberState
    var suspendCount: nat

    constructor ()
      ensures state == Created && suspendCount == 0
    {
      state, suspendCount := Created, 0;
    }

    method Suspend()
      modifies this
      ensures state == AfterSuspend(old(state))
      ensures suspendCount == old(suspendCount) + if old(state).Running? then 1 else 0
    {
      if state.Running? {
        state := Suspended;
        suspendCount := suspendCount + 1;
      }
    }

    method Resume()
      modifies this`state
      ensures state == AfterResume(old(state))
    {
      if state.Suspended? {
        state := Running;
      }
    }
  }

  class Channel<V> {
    var buffer: seq<V>
    const capacity: nat
    var closed: bool
    var waitingSenders: seq<Fiber>
    var waitingReceivers: seq<Fiber>

    constructor (capacity: nat)
      ensures View() == Chan([], capacity, false, [], [])
    {
      this.capacity := capacity;
      buffer, closed, waitingSenders, waitingReceivers := [], false, [], [];
    }

    function View(): Chan<Fiber, V>
      reads this
    {
      Chan(buffer, capacity, closed, waitingSenders, waitingReceivers)
    }

    /** Every fiber the channel may wake. */
    ghost function Waiting(): set<Fiber>
      reads this
    {
      (set f | f in waitingSenders) + (set f | f in waitingReceivers)
    }

    method WakeReceiver()
      modifies this`waitingReceivers, waitingReceivers
      ensures waitingReceivers == Rest(old(waitingReceivers))
      ensures forall f | f in old(waitingReceivers) ::
                f.state == if f in First(old(waitingReceivers)) then AfterResume(old(f.state)) else old(f.state)
    {
      if waitingReceivers != [] {
        var f := waitingReceivers[0];
        waitingReceivers := waitingReceivers[1..];
        f.Resume();
      }
    }

    method WakeSender()
      modifies this`waitingSenders, waitingSenders
      ensures waitingSenders == Rest(old(waitingSenders))
      ensures forall f | f in old(waitingSenders) ::
                f.state == if f in First(old(waitingSenders)) then AfterResume(old(f.state)) else old(f.state)
    {
      if waitingSenders != [] {
        var f := waitingSenders[0];
        waitingSenders := waitingSenders[1..];
        f.Resume();
      }
    }

    /** Non-blocking send. */
    method Offer(value: V) returns (ok: bool)
      modifies this, waitingReceivers
      ensures var r := ChannelProtocol.Offer(old(View()), value);
              && View() == r.chan && ok == r.accepted
              && forall f | f in old(waitingReceivers) ::
                   f.state == if f in r.woken then AfterResume(old(f.state)) else old(f.state)
    {
      if closed { return false; }
      if |buffer| >= capacity { return false; }
      buffer := buffer + [value];
      WakeReceiver();
      return true;
    }

    /** Non-blocking receive. */
    method Poll() returns (out: Option<V>)
      modifies this, waitingSenders
      ensures var r := ChannelProtocol.Poll(old(View()));
              && View() == r.chan && out == r.got
              && forall f | f in old(waitingSenders) ::
                   f.state == if f in r.woken then AfterResume(old(f.state)) else old(f.state)
    {
      if buffer == [] { return None; }
      out := Some(buffer[0]);
      buffer := buffer[1..];
      WakeSender();
    }

    /** Blocking send: suspends the calling fiber when the buffer is full. */
    method Send(value: V, current: Fiber)
      modifies this, waitingReceivers, current
      ensures var r := ChannelProtocol.Send(old(View()), value, current);
              && View() == r.chan
              && forall f | f in old(waitingReceivers) || f == current ::
                   f.state == AfterCall(old(f.state), r.waits && f == current, f in r.woken)
    {
      if |buffer| >= capacity && !closed {
        waitingSenders := waitingSenders + [current];
        current.Suspend();
        return;
      }
      if !closed {
        buffer := buffer + [value];
        WakeReceiver();
      }
    }

    /** Blocking receive: suspends the calling fiber when there is nothing to take. */
    method Recv(current: Fiber) returns (out: Option<V>)
      modifies this, waitingSenders, current
      ensures var r := ChannelProtocol.Recv(old(View()), current);
              && View() == r.chan && out == r.got
              && forall f | f in old(waitingSenders) || f == current ::
                   f.state == AfterCall(old(f.state), r.waits && f == current, f in r.woken)
    {
      if buffer == [] && !closed {
        waitingReceivers := waitingReceivers + [current];
        current.Suspend();
        return None;
      }
      if buffer == [] { return None; }
      out := Some(buffer[0]);
      buffer := buffer[1..];
      WakeSender();
    }

    /** Closes the channel and resumes everybody who waits. */
    method Close()
      modifies this, waitingReceivers, waitingSenders
      ensures var r := ChannelProtocol.Close(old(View()));
              View() == r.chan && forall f | f in r.woken :: f.state == AfterResume(old(f.state))
    {
      closed := true;
      ghost var receivers, senders := waitingReceivers, waitingSenders;
      while waitingReceivers != []
        invariant forall f | f in waitingReceivers :: f in receivers
        invariant View() == old(View()).(closed := true, receivers := waitingReceivers)
        invariant forall f | f in receivers || f in senders ::
                    f.state == old(f.state) || f.state == AfterResume(old(f.state))
        invariant forall f | f in receivers && f !in waitingReceivers :: f.state == AfterResume(old(f.state))
        decreases |waitingReceivers|
      {
        ghost var queue := waitingReceivers;
        var f := waitingReceivers[0];
        assert f in queue && f in receivers;
        waitingReceivers := waitingReceivers[1..];
        f.Resume();
        assert forall g | g in queue :: g == f || g in waitingReceivers;
      }
      while waitingSenders != []
        invariant forall f | f in waitingSenders :: f in senders
        invariant View() == old(View()).(closed := true, receivers := [], senders := waitingSenders)
        invariant forall f | f in senders :: f.state == old(f.state) || f.state == AfterResume(old(f.state))
        invariant forall f | f in receivers :: f.state == AfterResume(old(f.state))
        invariant forall f | f in senders && f !in waitingSenders :: f.state == AfterResume(old(f.state))
        decreases |waitingSenders|
      {
        ghost var queue := waitingSenders;
        var f := waitingSenders[0];
        assert f in queue && f in senders;
        waitingSenders := waitingSenders[1..];
        f.Resume();
        assert forall g | g in queue :: g == f || g in waitingSenders;
      }
    }
  }
}
