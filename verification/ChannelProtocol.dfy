/**
 What each channel operation does to the channel, and the runs of a system of fibers that share
 one. A step is one call; a fiber whose call suspended it repeats that call once it is resumed.
 */
module ChannelProtocol {
  import opened Common

  datatype Chan<F, V> = Chan(buffer: seq<V>, capacity: nat, closed: bool, senders: seq<F>, receivers: seq<F>)

  /** The channel afterwards, the value handed out, whether a value went in, whether the caller waits, who is woken. */
  datatype Reply<F, V> = Reply(chan: Chan<F, V>, got: Option<V>, accepted: bool, waits: bool, woken: seq<F>)

  function First<F>(queue: seq<F>): seq<F> { if queue == [] then [] else [queue[0]] }
  function Rest<F>(queue: seq<F>): seq<F> { if queue == [] then [] else queue[1..] }

  function Push<F, V>(c: Chan<F, V>, v: V): Reply<F, V> {
    Reply(c.(buffer := c.buffer + [v], receivers := Rest(c.receivers)), None, true, false, First(c.receivers))
  }

  function Pop<F, V>(c: Chan<F, V>): Reply<F, V>
    requires c.buffer != []
  {
    Reply(c.(buffer := c.buffer[1..], senders := Rest(c.senders)), Some(c.buffer[0]), false, false, First(c.senders))
  }

  function Offer<F, V>(c: Chan<F, V>, v: V): Reply<F, V> {
    if c.closed || |c.buffer| >= c.capacity then Reply(c, None, false, false, []) else Push(c, v)
  }

  function Poll<F, V>(c: Chan<F, V>): Reply<F, V> {
    if c.buffer == [] then Reply(c, None, false, false, []) else Pop(c)
  }

  function Send<F, V>(c: Chan<F, V>, v: V, f: F): Reply<F, V> {
    if |c.buffer| >= c.capacity && !c.closed then Reply(c.(senders := c.senders + [f]), None, false, true, [])
    else if c.closed then Reply(c, None, false, false, [])
    else Push(c, v)
  }

  function Recv<F, V>(c: Chan<F, V>, f: F): Reply<F, V> {
    if c.buffer == [] && !c.closed then Reply(c.(receivers := c.receivers + [f]), None, false, true, [])
    else if c.buffer == [] then Reply(c, None, false, false, [])
    else Pop(c)
  }

  function Close<F, V>(c: Chan<F, V>): Reply<F, V> {
    Reply(c.(closed := true, senders := [], receivers := []), None, false, false, c.receivers + c.senders)
  }

  // ---------- What a call does ----------

  /** Whoever asks gets the oldest value, closed or not; only an empty open channel makes a receiver wait. */
  lemma OldestComesOut<F, V>(c: Chan<F, V>, f: F)
    ensures c.buffer != [] ==>
              && Recv(c, f).got == Poll(c).got == Some(c.buffer[0]) && !Recv(c, f).waits && !Poll(c).waits
              && c.buffer == [c.buffer[0]] + Recv(c, f).chan.buffer == [c.buffer[0]] + Poll(c).chan.buffer
    ensures c.buffer == [] ==>
              && Poll(c).got == None && Poll(c).chan == c && !Poll(c).waits
              && Recv(c, f).got == None && (Recv(c, f).waits <==> !c.closed)
              && Recv(c, f).chan == if c.closed then c else c.(receivers := c.receivers + [f])
  {
  }

  /** An open channel with room accepts, a closed one refuses, and only a full open one makes a sender wait. */
  lemma RoomAccepts<F, V>(c: Chan<F, V>, v: V, f: F)
    ensures Offer(c, v).accepted <==> !c.closed && |c.buffer| < c.capacity
    ensures Send(c, v, f).accepted <==> !c.closed && |c.buffer| < c.capacity
    ensures Send(c, v, f).waits <==> !c.closed && |c.buffer| >= c.capacity
    ensures Offer(c, v).chan.buffer == c.buffer + if Offer(c, v).accepted then [v] else []
    ensures Send(c, v, f).chan.buffer == c.buffer + if Send(c, v, f).accepted then [v] else []
    ensures !Offer(c, v).accepted ==> Offer(c, v).chan == c
    ensures !Send(c, v, f).accepted ==> Send(c, v, f).chan == if c.closed then c else c.(senders := c.senders + [f])
  {
  }

  /** A value put in wakes the receiver that has waited longest, a value taken out the sender that has; nothing else wakes. */
  lemma LongestWaiterIsWoken<F, V>(c: Chan<F, V>, a: Action<F, V>)
    requires !a.DoClose?
    ensures var r := Call(c, a);
            && (r.accepted ==> r.woken + r.chan.receivers == c.receivers && r.chan.senders == c.senders
                               && |r.woken| == if c.receivers == [] then 0 else 1)
            && (r.got.Some? ==> r.woken + r.chan.senders == c.senders && r.chan.receivers == c.receivers
                                && |r.woken| == if c.senders == [] then 0 else 1)
            && (!r.accepted && r.got.None? ==> r.woken == [])
            && r.chan.closed == c.closed && r.chan.capacity == c.capacity
  {
  }

  /** Closing keeps the values, refuses nobody's right to them, and wakes whoever waits. */
  lemma CloseKeepsValues<F, V>(c: Chan<F, V>)
    ensures var r := Close(c);
            && r.chan.closed && r.chan.buffer == c.buffer && r.chan.senders == [] && r.chan.receivers == []
            && (forall f :: f in r.woken <==> f in c.senders || f in c.receivers)
            && r.got == None && !r.accepted && !r.waits
  {
  }

  // ---------- Runs ----------

  datatype Status<V> =
    | Free                  // about to start some call
    | WaitSend(v: V)        // suspended in send(v)
    | WaitRecv              // suspended in recv
    | RetrySend(v: V)       // resumed, has not repeated send(v) yet
    | RetryRecv             // resumed, has not repeated recv yet

  /** accepted and taken are the values that went into and came out of the buffer so far. */
  datatype Sys<F, V> = Sys(chan: Chan<F, V>, status: map<F, Status<V>>, accepted: seq<V>, taken: seq<V>)

  datatype Action<F, V> = DoOffer(f: F, v: V) | DoPoll(f: F) | DoSend(f: F, v: V) | DoRecv(f: F) | DoClose(f: F)

  predicate Enabled<F(==), V(==)>(s: Sys<F, V>, a: Action<F, V>) {
    && a.f in s.status
    && match s.status[a.f]
       case Free => true
       case RetrySend(v) => a == DoSend(a.f, v)
       case RetryRecv => a.DoRecv?
       case _ => false
  }

  function Call<F, V>(c: Chan<F, V>, a: Action<F, V>): Reply<F, V> {
    match a
    case DoOffer(_, v) => Offer(c, v)
    case DoPoll(_) => Poll(c)
    case DoSend(f, v) => Send(c, v, f)
    case DoRecv(f) => Recv(c, f)
    case DoClose(_) => Close(c)
  }

  function Resumed<V>(st: Status<V>): Status<V> {
    match st
    case WaitSend(v) => RetrySend(v)
    case WaitRecv => RetryRecv
    case _ => st
  }

  function CallerStatus<F, V>(a: Action<F, V>, waits: bool): Status<V> {
    if !waits then Free else if a.DoSend? then WaitSend(a.v) else WaitRecv
  }

  function After<F(==), V>(status: map<F, Status<V>>, caller: F, st: Status<V>, woken: seq<F>): map<F, Status<V>> {
    map f | f in status :: if f == caller then st else if f in woken then Resumed(status[f]) else status[f]
  }

  function Next<F(==), V>(s: Sys<F, V>, a: Action<F, V>): Sys<F, V> {
    var r := Call(s.chan, a);
    Sys(r.chan, After(s.status, a.f, CallerStatus(a, r.waits), r.woken),
        s.accepted + (if r.accepted then [a.v] else []),
        s.taken + (match r.got case Some(v) => [v] case None => []))
  }

  function Initial<F(==), V>(capacity: nat, fibers: set<F>): Sys<F, V> {
    Sys(Chan([], capacity, false, [], []), map f | f in fibers :: Free, [], [])
  }

  ghost function RetryingSenders<F, V>(s: Sys<F, V>): set<F> {
    set f | f in s.status && s.status[f].RetrySend?
  }

  ghost function RetryingReceivers<F, V>(s: Sys<F, V>): set<F> {
    set f | f in s.status && s.status[f].RetryRecv?
  }

  ghost predicate SendersMatch<F, V>(s: Sys<F, V>) {
    && Distinct(s.chan.senders)
    && (forall f | f in s.chan.senders :: f in s.status && s.status[f].WaitSend?)
    && (forall f | f in s.status && s.status[f].WaitSend? :: f in s.chan.senders)
  }

  ghost predicate ReceiversMatch<F, V>(s: Sys<F, V>) {
    && Distinct(s.chan.receivers)
    && (forall f | f in s.chan.receivers :: f in s.status && s.status[f].WaitRecv?)
    && (forall f | f in s.status && s.status[f].WaitRecv? :: f in s.chan.receivers)
  }

  /** Each suspended fiber stands in exactly one queue, once. */
  ghost predicate QueuesMatch<F, V>(s: Sys<F, V>) {
    SendersMatch(s) && ReceiversMatch(s)
  }

  /** No wake-up is lost: whoever waits is covered by fibers that were woken and have yet to retry. */
  ghost predicate WakeupsCover<F, V>(s: Sys<F, V>) {
    && (s.chan.senders != [] ==> s.chan.capacity - |s.chan.buffer| <= |RetryingSenders(s)|)
    && (s.chan.receivers != [] ==> |s.chan.buffer| <= |RetryingReceivers(s)|)
  }

  ghost predicate Inv<F, V>(s: Sys<F, V>) {
    && s.accepted == s.taken + s.chan.buffer
    && |s.chan.buffer| <= s.chan.capacity
    && QueuesMatch(s)
    && WakeupsCover(s)
    && (s.chan.closed ==> s.chan.senders == [] && s.chan.receivers == [])
  }

  lemma CardAdd<F>(s: set<F>, t: set<F>, f: F)
    requires t == s + {f} && f !in s
    ensures |t| == |s| + 1
  {
  }

  lemma SubsetCard<F>(s: set<F>, t: set<F>)
    requires s <= t
    ensures |s| <= |t|
  {
    if s != t {
      assert t == s + (t - s);
    }
  }

  lemma ConservationStep<F, V>(s: Sys<F, V>, a: Action<F, V>)
    requires s.accepted == s.taken + s.chan.buffer && |s.chan.buffer| <= s.chan.capacity
    ensures Next(s, a).accepted == Next(s, a).taken + Next(s, a).chan.buffer
    ensures |Next(s, a).chan.buffer| <= s.chan.capacity == Next(s, a).chan.capacity
  {
    var r := Call(s.chan, a);
    if r.got.Some? {
      assert s.chan.buffer == [s.chan.buffer[0]] + s.chan.buffer[1..];
    }
  }

  lemma ClosedStep<F, V>(s: Sys<F, V>, a: Action<F, V>)
    requires s.chan.closed ==> s.chan.senders == [] && s.chan.receivers == []
    ensures Next(s, a).chan.closed ==> Next(s, a).chan.senders == [] && Next(s, a).chan.receivers == []
  {
  }

  /** Taking the head of a queue and resuming it leaves the rest waiting. */
  lemma RestMatches<F>(q: seq<F>)
    requires Distinct(q)
    ensures Distinct(Rest(q)) && forall f :: f in q <==> f in First(q) || f in Rest(q)
    ensures forall f | f in First(q) :: f !in Rest(q)
  {
    if q != [] { assert q == [q[0]] + q[1..]; }
  }

  lemma QueuesStep<F, V>(s: Sys<F, V>, a: Action<F, V>)
    requires Inv(s) && Enabled(s, a)
    ensures QueuesMatch(Next(s, a))
  {
    var r, s' := Call(s.chan, a), Next(s, a);
    RestMatches(s.chan.senders);
    RestMatches(s.chan.receivers);
    SendersStep(s, a, r, s');
    ReceiversStep(s, a, r, s');
  }

  lemma SendersStep<F, V>(s: Sys<F, V>, a: Action<F, V>, r: Reply<F, V>, s': Sys<F, V>)
    requires QueuesMatch(s) && Enabled(s, a) && r == Call(s.chan, a) && s' == Next(s, a)
    requires forall f :: f in s.chan.senders <==> f in First(s.chan.senders) || f in Rest(s.chan.senders)
    requires Distinct(Rest(s.chan.senders)) && forall f | f in First(s.chan.senders) :: f !in Rest(s.chan.senders)
    requires forall f | f in First(s.chan.receivers) :: f in s.chan.receivers
    ensures SendersMatch(s')
  {
    if a.DoSend? && r.waits {
      assert s'.chan.senders == s.chan.senders + [a.f];
    } else if a.DoClose? {
    } else if s'.chan.senders == s.chan.senders {
    } else {
      assert s'.chan.senders == Rest(s.chan.senders) && r.woken == First(s.chan.senders);
    }
  }

  lemma ReceiversStep<F, V>(s: Sys<F, V>, a: Action<F, V>, r: Reply<F, V>, s': Sys<F, V>)
    requires QueuesMatch(s) && Enabled(s, a) && r == Call(s.chan, a) && s' == Next(s, a)
    requires forall f :: f in s.chan.receivers <==> f in First(s.chan.receivers) || f in Rest(s.chan.receivers)
    requires Distinct(Rest(s.chan.receivers)) && forall f | f in First(s.chan.receivers) :: f !in Rest(s.chan.receivers)
    requires forall f | f in First(s.chan.senders) :: f in s.chan.senders
    ensures ReceiversMatch(s')
  {
    if a.DoRecv? && r.waits {
      assert s'.chan.receivers == s.chan.receivers + [a.f];
    } else if a.DoClose? {
    } else if s'.chan.receivers == s.chan.receivers {
    } else {
      assert s'.chan.receivers == Rest(s.chan.receivers) && r.woken == First(s.chan.receivers);
    }
  }

  lemma RemoveOneCard<F>(s: set<F>, t: set<F>, f: F)
    requires s - {f} <= t
    ensures |t| >= |s| - 1
  {
    SubsetCard(s - {f}, t);
  }

  /** Taking a value turns the first waiting sender into one that will retry. */
  lemma SenderWoken<F, V>(s: Sys<F, V>, a: Action<F, V>)
    requires SendersMatch(s) && Enabled(s, a) && s.chan.senders != [] && Call(s.chan, a).got.Some?
    ensures var h := s.chan.senders[0];
            h !in RetryingSenders(s) && RetryingSenders(s) + {h} <= RetryingSenders(Next(s, a))
  {
    var h := s.chan.senders[0];
    assert h in s.chan.senders && h in Call(s.chan, a).woken;
  }

  /** Accepting a value turns the first waiting receiver into one that will retry. */
  lemma ReceiverWoken<F, V>(s: Sys<F, V>, a: Action<F, V>)
    requires ReceiversMatch(s) && Enabled(s, a) && s.chan.receivers != [] && Call(s.chan, a).accepted
    ensures var h := s.chan.receivers[0];
            h !in RetryingReceivers(s) && RetryingReceivers(s) + {h} <= RetryingReceivers(Next(s, a))
  {
    var h := s.chan.receivers[0];
    assert h in s.chan.receivers && h in Call(s.chan, a).woken;
  }

  /** Free slots stay covered by resumed senders while any sender waits. */
  lemma SendersCovered<F, V>(s: Sys<F, V>, a: Action<F, V>)
    requires Inv(s) && Enabled(s, a) && Next(s, a).chan.senders != []
    ensures s.chan.capacity - |Next(s, a).chan.buffer| <= |RetryingSenders(Next(s, a))|
  {
    var r, s' := Call(s.chan, a), Next(s, a);
    var before, after := RetryingSenders(s), RetryingSenders(s');
    if r.accepted {
      RemoveOneCard(before, after, a.f);
    } else if r.got.Some? {
      SenderWoken(s, a);
      CardAdd(before, before + {s.chan.senders[0]}, s.chan.senders[0]);
      SubsetCard(before + {s.chan.senders[0]}, after);
    } else if !(a.DoSend? && r.waits) {
      assert before <= after;
      SubsetCard(before, after);
    }
  }

  /** Buffered values stay covered by resumed receivers while any receiver waits. */
  lemma ReceiversCovered<F, V>(s: Sys<F, V>, a: Action<F, V>)
    requires Inv(s) && Enabled(s, a) && Next(s, a).chan.receivers != []
    ensures |Next(s, a).chan.buffer| <= |RetryingReceivers(Next(s, a))|
  {
    var r, s' := Call(s.chan, a), Next(s, a);
    var before, after := RetryingReceivers(s), RetryingReceivers(s');
    if r.got.Some? {
      RemoveOneCard(before, after, a.f);
    } else if r.accepted {
      ReceiverWoken(s, a);
      CardAdd(before, before + {s.chan.receivers[0]}, s.chan.receivers[0]);
      SubsetCard(before + {s.chan.receivers[0]}, after);
    } else if !(a.DoRecv? && r.waits) {
      assert before <= after;
      SubsetCard(before, after);
    }
  }

  /** Every step keeps the invariant. */
  lemma StepKeepsInv<F, V>(s: Sys<F, V>, a: Action<F, V>)
    requires Inv(s) && Enabled(s, a)
    ensures Inv(Next(s, a))
  {
    ConservationStep(s, a);
    ClosedStep(s, a);
    QueuesStep(s, a);
    if Next(s, a).chan.senders != [] { SendersCovered(s, a); }
    if Next(s, a).chan.receivers != [] { ReceiversCovered(s, a); }
  }

  /** The states some interleaving of calls leads to. */
  ghost predicate RunsTo<F, V>(s: Sys<F, V>, actions: seq<Action<F, V>>, t: Sys<F, V>)
    decreases |actions|
  {
    if actions == [] then s == t
    else Enabled(s, actions[0]) && RunsTo(Next(s, actions[0]), actions[1..], t)
  }

  lemma {:induction false} RunKeepsInv<F, V>(s: Sys<F, V>, actions: seq<Action<F, V>>, t: Sys<F, V>)
    requires Inv(s) && RunsTo(s, actions, t)
    ensures Inv(t) && t.chan.capacity == s.chan.capacity
    decreases |actions|
  {
    if actions != [] {
      StepKeepsInv(s, actions[0]);
      RunKeepsInv(Next(s, actions[0]), actions[1..], t);
    }
  }

  /**
   In every interleaving: what was accepted is what was taken followed by what is buffered; the buffer
   stays within its capacity; a fiber is suspended exactly if it stands in its queue; whoever waits is
   covered by fibers that were resumed and have yet to retry; and a closed channel keeps nobody waiting.
   */
  lemma EveryRunIsSafe<F, V>(capacity: nat, fibers: set<F>, actions: seq<Action<F, V>>, t: Sys<F, V>)
    requires RunsTo(Initial(capacity, fibers), actions, t)
    ensures t.accepted == t.taken + t.chan.buffer && |t.chan.buffer| <= capacity == t.chan.capacity
    ensures QueuesMatch(t) && WakeupsCover(t)
    ensures t.chan.closed ==> forall f | f in t.status :: !t.status[f].WaitSend? && !t.status[f].WaitRecv?
  {
    RunKeepsInv(Initial(capacity, fibers), actions, t);
  }

  /**
   Once every resumed fiber has retried, senders wait only for a full buffer and receivers only for
   an empty one, so with capacity above zero the two sides never wait together.
   */
  lemma NeverStuckTogether<F, V>(capacity: nat, fibers: set<F>, actions: seq<Action<F, V>>, t: Sys<F, V>)
    requires RunsTo(Initial(capacity, fibers), actions, t)
    requires forall f | f in t.status :: !t.status[f].RetrySend? && !t.status[f].RetryRecv?
    ensures t.chan.senders != [] ==> |t.chan.buffer| == capacity
    ensures t.chan.receivers != [] ==> t.chan.buffer == []
    ensures capacity > 0 ==> t.chan.senders == [] || t.chan.receivers == []
  {
    RunKeepsInv(Initial(capacity, fibers), actions, t);
    assert RetryingSenders(t) == {} && RetryingReceivers(t) == {};
  }

  // ---------- Nothing is left behind ----------

  ghost function Receives<F, V>(f: F, n: nat): seq<Action<F, V>> {
    if n == 0 then [] else [DoRecv(f)] + Receives(f, n - 1)
  }

  ghost function Sends<F, V>(f: F, vs: seq<V>): seq<Action<F, V>> {
    if vs == [] then [] else [DoSend(f, vs[0])] + Sends(f, vs[1..])
  }

  /** A free fiber that receives as often as there are values gets them all, whether the channel is closed or not. */
  lemma {:induction false} ReceivesEmpty<F, V>(s: Sys<F, V>, f: F) returns (t: Sys<F, V>)
    requires f in s.status && s.status[f].Free?
    ensures RunsTo(s, Receives(f, |s.chan.buffer|), t)
    ensures t.chan.buffer == [] && t.taken == s.taken + s.chan.buffer && t.accepted == s.accepted
    decreases |s.chan.buffer|
  {
    t := s;
    if s.chan.buffer != [] {
      var a: Action<F, V> := DoRecv(f);
      var u := Next(s, a);
      assert s.chan.buffer == [s.chan.buffer[0]] + u.chan.buffer;
      t := ReceivesEmpty(u, f);
      assert t.taken == s.taken + [s.chan.buffer[0]] + u.chan.buffer;
      RunsOn(s, a, Receives(f, |u.chan.buffer|), t);
    }
  }

  lemma RunsOn<F, V>(s: Sys<F, V>, a: Action<F, V>, rest: seq<Action<F, V>>, t: Sys<F, V>)
    requires Enabled(s, a) && RunsTo(Next(s, a), rest, t)
    ensures RunsTo(s, [a] + rest, t)
  {
    assert ([a] + rest)[1..] == rest;
  }

  /** So from every reachable state with a free fiber, all that was accepted can still be taken, in order. */
  lemma AcceptedIsTaken<F, V>(capacity: nat, fibers: set<F>, actions: seq<Action<F, V>>, s: Sys<F, V>, f: F) returns (t: Sys<F, V>)
    requires RunsTo(Initial(capacity, fibers), actions, s) && f in s.status && s.status[f].Free?
    ensures RunsTo(s, Receives(f, |s.chan.buffer|), t) && t.taken == t.accepted == s.accepted && t.chan.buffer == []
  {
    RunKeepsInv(Initial(capacity, fibers), actions, s);
    t := ReceivesEmpty(s, f);
  }

  /** And on an open channel a free fiber's sends are accepted as long as there is room. */
  lemma {:induction false} SendsAreAccepted<F, V>(s: Sys<F, V>, f: F, vs: seq<V>) returns (t: Sys<F, V>)
    requires f in s.status && s.status[f].Free? && !s.chan.closed && |s.chan.buffer| + |vs| <= s.chan.capacity
    ensures RunsTo(s, Sends(f, vs), t)
    ensures t.accepted == s.accepted + vs && t.chan.buffer == s.chan.buffer + vs && t.taken == s.taken
    decreases |vs|
  {
    t := s;
    if vs != [] {
      var a := DoSend(f, vs[0]);
      t := SendsAreAccepted(Next(s, a), f, vs[1..]);
      assert s.accepted + [vs[0]] + vs[1..] == s.accepted + vs;
      assert s.chan.buffer + [vs[0]] + vs[1..] == s.chan.buffer + vs;
      RunsOn(s, a, Sends(f, vs[1..]), t);
    }
  }
}
