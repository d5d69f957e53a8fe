/**
 The wake adapter: one listener whose notifies become wakes on the bus.
 */
module Wake {
  import opened Protocol
  import opened Bus

  const OPS_CHANNEL: Topic := "oxylite_ops"

  function Concat(ss: seq<seq<int>>): seq<int> {
    if |ss| == 0 then [] else Concat(ss[..|ss| - 1]) + ss[|ss| - 1]
  }

  /** A notify's payload, as parsed. */
  type Payload = Option<int>

  /** The seqs among them, in order. */
  function Parsed(ps: seq<Payload>): seq<int> {
    if |ps| == 0 then []
    else
      match ps[|ps| - 1]
      case Some(n) => Parsed(ps[..|ps| - 1]) + [n]
      case None => Parsed(ps[..|ps| - 1])
  }

  predicate IsMax(m: int, s: seq<int>) {
    m in s && forall x | x in s :: x <= m
  }

  /** What the publishes of one listener lifetime say: the arm sentinel, then
      one wake per burst, the bursts being the notified seqs cut in order. */
  ghost predicate WakesOf(wakes: seq<int>, bursts: seq<seq<int>>, notified: seq<int>) {
    && Concat(bursts) == notified && |wakes| == |bursts|
    && forall i | 0 <= i < |wakes| :: IsMax(wakes[i], bursts[i])
  }

  /** The channel between the forwarder and the coalescer. The forwarder waits
      when it is full, so nothing is lost here; `schedule` is what the listener
      hands it before each receive, and it is gone once the schedule is over. */
  class Channel {
    var queue: seq<int>
    var schedule: seq<seq<Payload>>

    constructor (schedule: seq<seq<Payload>>)
      ensures queue == [] && this.schedule == schedule
    {
      queue, this.schedule := [], schedule;
    }

    /** Everything still to come. */
    ghost function Ahead(): seq<int>
      reads this
    {
      queue + Coming(schedule)
    }

    /** The forwarder's turn: it skips a payload that does not parse. */
    method Arrive()
      requires schedule != []
      modifies this
      ensures Ahead() == old(Ahead()) && schedule == old(schedule)[1..]
      ensures queue == old(queue) + Parsed(old(schedule)[0])
    {
      var payloads := schedule[0];
      for i := 0 to |payloads|
        invariant queue == old(queue) + Parsed(payloads[..i]) && schedule == old(schedule)
      {
        assert payloads[..i + 1][..i] == payloads[..i];
        match payloads[i] {
          case Some(seqno) => queue := queue + [seqno];
          case None =>
        }
      }
      assert payloads[..|payloads|] == payloads;
      schedule := schedule[1..];
    }

    method TryRecv() returns (x: Option<int>)
      modifies this`queue
      ensures x.None? <==> old(queue) == []
      ensures x.None? ==> queue == old(queue)
      ensures x.Some? ==> old(queue) == [x.value] + queue && old(Ahead()) == [x.value] + Ahead()
    {
      if queue == [] { return None; }
      x := Some(queue[0]);
      queue := queue[1..];
    }

    /** `recv().await`: wait for a message, or for the sender to be gone. */
    method Recv() returns (x: Option<int>, ghost waited: nat)
      modifies this
      ensures x.None? <==> old(Ahead()) == []
      ensures x.None? ==> Ahead() == []
      ensures x.Some? ==> old(Ahead()) == [x.value] + Ahead()
      ensures Later(schedule, old(schedule))
      ensures waited == |old(schedule)| - |schedule| && Idle(old(queue), old(schedule), waited)
      ensures x.Some? ==> Arrived(old(queue), old(schedule), waited) == [x.value] + queue
    {
      waited := 0;
      ghost var first, all := queue, schedule;
      while queue == [] && schedule != []
        invariant Ahead() == old(Ahead()) && waited <= |all| && schedule == all[waited..]
        invariant Arrived(first, all, waited) == queue && Idle(first, all, waited)
        decreases |schedule|
      {
        OneMoreArrival(first, all, waited);
        Arrive();
        waited := waited + 1;
      }
      x := TryRecv();
    }

    /** `coalesce_burst`: one message, then everything already queued; the
        greatest stands for them all. It returns as soon as it finds the queue
        empty, and not before. */
    method CoalesceBurst() returns (wake: Option<int>, ghost burst: seq<int>, ghost waited: nat)
      modifies this
      ensures wake.None? <==> old(Ahead()) == []
      ensures wake.None? ==> burst == []
      ensures wake.Some? ==> burst != [] && IsMax(wake.value, burst)
      ensures queue == [] && old(Ahead()) == burst + Coming(schedule)
      ensures Later(schedule, old(schedule))
      ensures Idle(old(queue), old(schedule), waited)
      ensures wake.Some? ==> Busy(old(queue), old(schedule), waited, |burst|)
                             && |old(schedule)| - |schedule| == Capped(waited + |burst|, |old(schedule)|)
    {
      hide Later, Idle, Busy, Draining, IsMax;
      burst := [];
      ghost var first, all := queue, schedule;
      var x;
      x, waited := Recv();
      if x.None? { return None, [], waited; }
      var top := x.value;
      burst := [top];
      var more := true;
      FirstTaken(first, all, waited, top, queue, schedule);
      assert IsMax(top, burst) by { MaxOfOne(top); }
      while more
        invariant IsMax(top, burst) && burst != []
        invariant Draining(first, all, waited, burst, queue, schedule, if more then |burst| - 1 else |burst|)
        invariant !more ==> queue == []
        decreases |Ahead()| + |schedule|, more
      {
        ArrivalDrains(first, all, waited, burst, queue, schedule);
        if schedule != [] { Arrive(); }
        ghost var waiting := queue;
        var next := TryRecv();
        if next.None? {
          more := false;
        } else {
          TakeDrains(first, all, waited, burst, next.value, queue, schedule);
          MaxOfMore(top, burst, next.value);
          top := if next.value > top then next.value else top;
          burst := burst + [next.value];
        }
      }
      Drained(first, all, waited, burst, schedule);
      wake := Some(top);
    }
  }

  /** What came, of a first queue and a schedule, with the first `n` arrivals. */
  function Arrived(queue: seq<int>, schedule: seq<seq<Payload>>, n: nat): seq<int>
    requires n <= |schedule|
  {
    queue + Coming(schedule[..n])
  }

  function Capped(a: nat, b: nat): nat { if a < b then a else b }

  /** Nothing was there before arrival `waited`. */
  ghost predicate Idle(queue: seq<int>, schedule: seq<seq<Payload>>, waited: nat) {
    waited <= |schedule| && forall k | 0 <= k < waited :: Arrived(queue, schedule, k) == []
  }

  /** What came up to the take after `i` others, one arrival before each. */
  function Came(queue: seq<int>, schedule: seq<seq<Payload>>, waited: nat, i: nat): seq<int> {
    Arrived(queue, schedule, Capped(waited + i, |schedule|))
  }

  /** Something was queued at each of the first takes: nothing was waited for. */
  ghost predicate Busy(queue: seq<int>, schedule: seq<seq<Payload>>, waited: nat, takes: nat) {
    forall i: nat | i < takes :: |Came(queue, schedule, waited, i)| > i
  }

  lemma OneMoreArrival(queue: seq<int>, schedule: seq<seq<Payload>>, n: nat)
    requires n < |schedule|
    ensures Arrived(queue, schedule, n + 1) == Arrived(queue, schedule, n) + Parsed(schedule[n])
    ensures schedule[n..][0] == schedule[n] && schedule[n..][1..] == schedule[n + 1..]
  {
    assert schedule[..n + 1] == schedule[..n] + [schedule[n]];
    ComingConcat(schedule[..n], [schedule[n]]);
    assert Coming([schedule[n]]) == Parsed(schedule[n]) + Coming([schedule[n]][1..]);
    MoveOver(queue, Coming(schedule[..n]), Parsed(schedule[n]));
  }

  /** In the middle of a burst: what came is what was taken and what is queued. */
  ghost predicate Draining(first: seq<int>, all: seq<seq<Payload>>, waited: nat, burst: seq<int>, queue: seq<int>,
                           schedule: seq<seq<Payload>>, takes: int)
  {
    && Later(schedule, all) && takes >= 0 && Busy(first, all, waited, |burst|)
    && |all| - |schedule| == Capped(waited + takes, |all|)
    && Came(first, all, waited, takes) == burst + queue
  }

  lemma FirstTaken(first: seq<int>, all: seq<seq<Payload>>, waited: nat, x: int, queue: seq<int>,
                   schedule: seq<seq<Payload>>)
    requires Later(schedule, all) && waited == |all| - |schedule| && Arrived(first, all, waited) == [x] + queue
    ensures Draining(first, all, waited, [x], queue, schedule, 0)
  {
    assert Came(first, all, waited, 0) == [x] + queue;
  }

  lemma ArrivalDrains(first: seq<int>, all: seq<seq<Payload>>, waited: nat, burst: seq<int>, queue: seq<int>,
                      schedule: seq<seq<Payload>>)
    requires |burst| > 0 && Draining(first, all, waited, burst, queue, schedule, |burst| - 1)
    ensures schedule == [] ==> Draining(first, all, waited, burst, queue, schedule, |burst|)
    ensures schedule != [] ==>
              Draining(first, all, waited, burst, queue + Parsed(schedule[0]), schedule[1..], |burst|)
  {
    hide Busy;
    if schedule != [] {
      var n := |all| - |schedule|;
      assert n == waited + (|burst| - 1);
      OneMoreArrival(first, all, n);
      MoveOver(burst, queue, Parsed(schedule[0]));
    }
  }

  lemma TakeDrains(first: seq<int>, all: seq<seq<Payload>>, waited: nat, burst: seq<int>, x: int, queue: seq<int>,
                   schedule: seq<seq<Payload>>)
    requires Draining(first, all, waited, burst, [x] + queue, schedule, |burst|)
    ensures Draining(first, all, waited, burst + [x], queue, schedule, |burst|)
  {
    MoveOver(burst, [x], queue);
  }

  lemma Drained(first: seq<int>, all: seq<seq<Payload>>, waited: nat, burst: seq<int>, schedule: seq<seq<Payload>>)
    requires Draining(first, all, waited, burst, [], schedule, |burst|)
    ensures Later(schedule, all) && Busy(first, all, waited, |burst|)
    ensures |all| - |schedule| == Capped(waited + |burst|, |all|)
    ensures first + Coming(all) == burst + Coming(schedule)
  {
    hide Busy;
    var n := |all| - |schedule|;
    assert all == all[..n] + schedule;
    ComingConcat(all[..n], schedule);
    hide Coming;
    MoveOver(first, Coming(all[..n]), Coming(schedule));
    assert burst + [] == burst;
  }

  lemma MaxOfOne(x: int)
    ensures IsMax(x, [x])
  {
  }

  lemma MaxOfMore(top: int, burst: seq<int>, x: int)
    requires IsMax(top, burst)
    ensures IsMax(if x > top then x else top, burst + [x])
  {
  }

  /** What is left of a schedule. */
  ghost predicate Later(now: seq<seq<Payload>>, before: seq<seq<Payload>>) {
    |now| <= |before| && now == before[|before| - |now|..]
  }

  /** Each burst ends where the queue was empty: with the bursts before it, it is
      what was queued at first and all that the arrivals up to its cut brought. */
  ghost predicate CutWhereEmpty(bursts: seq<seq<int>>, cuts: seq<nat>, queue: seq<int>, schedule: seq<seq<Payload>>) {
    && |cuts| == |bursts|
    && (|bursts| == 0 ||
        var n := cuts[|bursts| - 1];
        && CutWhereEmpty(bursts[..|bursts| - 1], cuts[..|bursts| - 1], queue, schedule)
        && n <= |schedule| && Concat(bursts) == queue + Coming(schedule[..n]))
  }

  lemma {:induction false} ComingConcat(a: seq<seq<Payload>>, b: seq<seq<Payload>>)
    ensures Coming(a + b) == Coming(a) + Coming(b)
  {
    if |a| == 0 {
      assert a + b == b;
    } else {
      assert (a + b)[1..] == a[1..] + b;
      ComingConcat(a[1..], b);
    }
  }

  /** All that came with the first arrivals, once the queue is empty again. */
  lemma ArrivedSoFar(taken: seq<int>, queue: seq<int>, schedule: seq<seq<Payload>>, rest: seq<seq<Payload>>, n: nat)
    requires n <= |schedule| && rest == schedule[n..] && taken + Coming(rest) == queue + Coming(schedule)
    ensures taken == queue + Coming(schedule[..n])
  {
    assert schedule == schedule[..n] + rest;
    ComingConcat(schedule[..n], rest);
    MoveOver(queue, Coming(schedule[..n]), Coming(rest));
    SameEnd(taken, queue + Coming(schedule[..n]), Coming(rest));
  }

  lemma OneMoreCut(bursts: seq<seq<int>>, cuts: seq<nat>, queue: seq<int>, schedule: seq<seq<Payload>>,
                   burst: seq<int>, n: nat)
    requires CutWhereEmpty(bursts, cuts, queue, schedule) && n <= |schedule|
    requires Concat(bursts) + burst == queue + Coming(schedule[..n])
    ensures CutWhereEmpty(bursts + [burst], cuts + [n], queue, schedule)
  {
    assert (bursts + [burst])[..|bursts|] == bursts && (cuts + [n])[..|cuts|] == cuts;
  }

  lemma BurstIsCut(bursts: seq<seq<int>>, cuts: seq<nat>, queue: seq<int>, schedule: seq<seq<Payload>>,
                   burst: seq<int>, rest: seq<seq<Payload>>)
    requires CutWhereEmpty(bursts, cuts, queue, schedule) && Later(rest, schedule)
    requires (Concat(bursts) + burst) + Coming(rest) == queue + Coming(schedule)
    ensures CutWhereEmpty(bursts + [burst], cuts + [|schedule| - |rest|], queue, schedule)
  {
    hide CutWhereEmpty;
    ArrivedSoFar(Concat(bursts) + burst, queue, schedule, rest, |schedule| - |rest|);
    OneMoreCut(bursts, cuts, queue, schedule, burst, |schedule| - |rest|);
  }

  lemma LaterStill(a: seq<seq<Payload>>, b: seq<seq<Payload>>, c: seq<seq<Payload>>)
    requires Later(a, b) && Later(b, c)
    ensures Later(a, c)
  {
  }

  lemma SameEnd<T>(a: seq<T>, b: seq<T>, end: seq<T>)
    requires a + end == b + end
    ensures a == b
  {
    assert |a + end| == |b + end|;
    assert a == (a + end)[..|a|] && b == (b + end)[..|b|];
  }

  function Coming(schedule: seq<seq<Payload>>): seq<int> {
    if |schedule| == 0 then [] else Parsed(schedule[0]) + Coming(schedule[1..])
  }

  /** `run_once`: announce with the sentinel, then publish every burst. */
  method RunOnce(bus: Bus<int>, rx: Channel)
    returns (ghost wakes: seq<int>, ghost bursts: seq<seq<int>>, ghost cuts: seq<nat>)
    requires bus.Valid()
    modifies bus, rx
    ensures bus.Valid() && bus.live == old(bus.live)
    ensures WakesOf(wakes, bursts, old(rx.Ahead()))
    ensures CutWhereEmpty(bursts, cuts, old(rx.queue), old(rx.schedule))
    ensures Heard(bus.live, old(bus.marks), bus.marks, [0] + wakes)
  {
    HeardOne(bus.marks, bus.live, 0);
    ghost var before := bus.marks;
    bus.Publish(OPS_CHANNEL, 0);
    ghost var mid := bus.marks;
    wakes, bursts, cuts := PublishBursts(bus, rx);
    HeardBoth(bus.live, before, mid, bus.marks, [0], wakes);
  }

  /** The coalescing loop. */
  method PublishBursts(bus: Bus<int>, rx: Channel)
    returns (ghost wakes: seq<int>, ghost bursts: seq<seq<int>>, ghost cuts: seq<nat>)
    requires bus.Valid() && bus.marks.Keys == bus.live.Keys
    modifies bus, rx
    ensures bus.Valid() && bus.live == old(bus.live)
    ensures WakesOf(wakes, bursts, old(rx.Ahead()))
    ensures CutWhereEmpty(bursts, cuts, old(rx.queue), old(rx.schedule))
    ensures Heard(bus.live, old(bus.marks), bus.marks, wakes)
  {
    hide *;
    ghost var live, before, queue, schedule := bus.live, bus.marks, rx.queue, rx.schedule;
    wakes, bursts, cuts := [], [], [];
    NoBurstsYet(live, before, queue, schedule);
    QueuedAndComing(rx);
    var more := true;
    while more
      invariant bus.Valid() && bus.live == live
      invariant Bursting(live, before, bus.marks, wakes, bursts, cuts, queue, schedule, rx.schedule)
      invariant queue + Coming(schedule) == Concat(bursts) + rx.Ahead()
      invariant !more ==> rx.Ahead() == []
      decreases |rx.Ahead()|, more
    {
      ghost var mid, wake, burst, rest := bus.marks, 0, [], rx.schedule;
      more, wake, burst := PublishBurst(bus, rx);
      QueuedAndComing(rx);
      if more {
        MoveOver(Concat(bursts), burst, rx.Ahead());
        OneMoreBurst(live, before, mid, wakes, bursts, cuts, queue, schedule, rest, wake, burst, rx.schedule);
        wakes, bursts, cuts := wakes + [wake], bursts + [burst], cuts + [|schedule| - |rx.schedule|];
      } else {
        NoMoreBursts(live, before, mid, wakes, bursts, cuts, queue, schedule, rest, rx.schedule);
      }
    }
    AllBursts(live, before, bus.marks, wakes, bursts, cuts, queue, schedule, rx.schedule);
  }

  lemma QueuedAndComing(rx: Channel)
    ensures rx.Ahead() == rx.queue + Coming(rx.schedule)
    ensures rx.queue == [] ==> rx.Ahead() == Coming(rx.schedule)
  {
  }

  /** Where the coalescing loop stands. */
  ghost predicate Bursting(live: map<nat, Topic>, before: map<nat, seq<Mark<int>>>, now: map<nat, seq<Mark<int>>>,
                           wakes: seq<int>, bursts: seq<seq<int>>, cuts: seq<nat>, queue: seq<int>,
                           schedule: seq<seq<Payload>>, rest: seq<seq<Payload>>)
  {
    Track(live, before, now, wakes, bursts) && CutWhereEmpty(bursts, cuts, queue, schedule) && Later(rest, schedule)
  }

  lemma OneMoreBurst(live: map<nat, Topic>, before: map<nat, seq<Mark<int>>>, mid: map<nat, seq<Mark<int>>>,
                     wakes: seq<int>, bursts: seq<seq<int>>, cuts: seq<nat>, queue: seq<int>,
                     schedule: seq<seq<Payload>>, rest: seq<seq<Payload>>, wake: int, burst: seq<int>,
                     left: seq<seq<Payload>>)
    requires live.Keys == mid.Keys && IsMax(wake, burst) && Later(left, rest)
    requires Bursting(live, before, mid, wakes, bursts, cuts, queue, schedule, rest)
    requires queue + Coming(schedule) == (Concat(bursts) + burst) + Coming(left)
    ensures Concat(bursts + [burst]) == Concat(bursts) + burst && |left| <= |schedule|
    ensures Bursting(live, before, Marked(mid, live, OPS_CHANNEL, wake), wakes + [wake], bursts + [burst],
                     cuts + [|schedule| - |left|], queue, schedule, left)
  {
    hide Track, CutWhereEmpty;
    LaterStill(left, rest, schedule);
    TrackMore(live, before, mid, wakes, bursts, wake, burst);
    BurstIsCut(bursts, cuts, queue, schedule, burst, left);
  }

  lemma NoMoreBursts(live: map<nat, Topic>, before: map<nat, seq<Mark<int>>>, now: map<nat, seq<Mark<int>>>,
                     wakes: seq<int>, bursts: seq<seq<int>>, cuts: seq<nat>, queue: seq<int>,
                     schedule: seq<seq<Payload>>, rest: seq<seq<Payload>>, left: seq<seq<Payload>>)
    requires Bursting(live, before, now, wakes, bursts, cuts, queue, schedule, rest) && Later(left, rest)
    ensures Bursting(live, before, now, wakes, bursts, cuts, queue, schedule, left)
  {
    LaterStill(left, rest, schedule);
  }

  lemma AllBursts(live: map<nat, Topic>, before: map<nat, seq<Mark<int>>>, now: map<nat, seq<Mark<int>>>,
                  wakes: seq<int>, bursts: seq<seq<int>>, cuts: seq<nat>, queue: seq<int>,
                  schedule: seq<seq<Payload>>, rest: seq<seq<Payload>>)
    requires Bursting(live, before, now, wakes, bursts, cuts, queue, schedule, rest)
    requires queue + Coming(schedule) == Concat(bursts) + []
    ensures WakesOf(wakes, bursts, queue + Coming(schedule)) && Heard(live, before, now, wakes)
    ensures CutWhereEmpty(bursts, cuts, queue, schedule)
  {
    assert Concat(bursts) + [] == Concat(bursts);
  }

  lemma NoBurstsYet(live: map<nat, Topic>, marks: map<nat, seq<Mark<int>>>, queue: seq<int>,
                    schedule: seq<seq<Payload>>)
    requires live.Keys == marks.Keys
    ensures Bursting(live, marks, marks, [], [], [], queue, schedule, schedule)
    ensures queue + Coming(schedule) == Concat([]) + (queue + Coming(schedule))
  {
  }

  ghost predicate Track(live: map<nat, Topic>, before: map<nat, seq<Mark<int>>>, after: map<nat, seq<Mark<int>>>,
                       wakes: seq<int>, bursts: seq<seq<int>>)
  {
    Heard(live, before, after, wakes) && WakesOf(wakes, bursts, Concat(bursts))
  }

  lemma TrackMore(live: map<nat, Topic>, before: map<nat, seq<Mark<int>>>, mid: map<nat, seq<Mark<int>>>,
                  wakes: seq<int>, bursts: seq<seq<int>>, wake: int, burst: seq<int>)
    requires live.Keys == mid.Keys && Track(live, before, mid, wakes, bursts) && IsMax(wake, burst)
    ensures Concat(bursts + [burst]) == Concat(bursts) + burst
    ensures Track(live, before, Marked(mid, live, OPS_CHANNEL, wake), wakes + [wake], bursts + [burst])
  {
    HeardMore(live, before, mid, wakes, wake);
    WakesSnoc(wakes, bursts, wake, burst);
  }

  lemma HeardBoth(live: map<nat, Topic>, a: map<nat, seq<Mark<int>>>, b: map<nat, seq<Mark<int>>>,
                  c: map<nat, seq<Mark<int>>>, p: seq<int>, q: seq<int>)
    requires Heard(live, a, b, p) && Heard(live, b, c, q)
    ensures Heard(live, a, c, p + q)
  {
    forall id | id in live && live[id] == OPS_CHANNEL ensures Messages(c[id]) == Messages(a[id]) + (p + q) {
      MoveOver(Messages(a[id]), p, q);
    }
  }

  lemma MoveOver<T>(a: seq<T>, b: seq<T>, c: seq<T>)
    ensures a + (b + c) == (a + b) + c
  {
  }

  /** What every subscriber of the ops channel was offered in between. */
  ghost predicate Heard(live: map<nat, Topic>, before: map<nat, seq<Mark<int>>>,
                        after: map<nat, seq<Mark<int>>>, msgs: seq<int>) {
    forall id | id in live && live[id] == "oxylite_ops" ::
      id in before && id in after && Messages(after[id]) == Messages(before[id]) + msgs
  }

  lemma HeardOne(before: map<nat, seq<Mark<int>>>, live: map<nat, Topic>, msg: int)
    requires live.Keys == before.Keys
    ensures Heard(live, before, Marked(before, live, OPS_CHANNEL, msg), [msg])
  {
    forall id | id in live && live[id] == OPS_CHANNEL
      ensures Messages(Marked(before, live, OPS_CHANNEL, msg)[id]) == Messages(before[id]) + [msg]
    {
      assert (before[id] + [Published(msg)])[..|before[id]|] == before[id];
    }
  }

  lemma HeardMore(live: map<nat, Topic>, before: map<nat, seq<Mark<int>>>, mid: map<nat, seq<Mark<int>>>,
                  msgs: seq<int>, msg: int)
    requires live.Keys == mid.Keys && Heard(live, before, mid, msgs)
    ensures Heard(live, before, Marked(mid, live, OPS_CHANNEL, msg), msgs + [msg])
  {
    HeardOne(mid, live, msg);
    HeardBoth(live, before, mid, Marked(mid, live, OPS_CHANNEL, msg), msgs, [msg]);
  }

  lemma WakesSnoc(wakes: seq<int>, bursts: seq<seq<int>>, wake: int, burst: seq<int>)
    requires WakesOf(wakes, bursts, Concat(bursts)) && IsMax(wake, burst)
    ensures Concat(bursts + [burst]) == Concat(bursts) + burst
    ensures WakesOf(wakes + [wake], bursts + [burst], Concat(bursts + [burst]))
  {
    assert (bursts + [burst])[..|bursts|] == bursts;
  }

  method PublishBurst(bus: Bus<int>, rx: Channel) returns (more: bool, ghost wake: int, ghost burst: seq<int>)
    requires bus.Valid()
    modifies bus, rx
    ensures bus.Valid() && bus.live == old(bus.live) && old(bus.marks).Keys == bus.live.Keys
    ensures rx.queue == [] && old(rx.Ahead()) == burst + rx.Ahead() && Later(rx.schedule, old(rx.schedule))
    ensures !more ==> rx.Ahead() == [] && burst == [] && bus.marks == old(bus.marks)
    ensures more ==> IsMax(wake, burst) && burst != []
    ensures more ==> bus.marks == Marked(old(bus.marks), bus.live, OPS_CHANNEL, wake)
  {
    var next;
    ghost var waited;
    next, burst, waited := rx.CoalesceBurst();
    if next.None? {
      return false, 0, [];
    }
    bus.Publish(OPS_CHANNEL, next.value);
    more, wake := true, next.value;
  }

  /** No notify is swallowed: each is covered by a published wake. */
  lemma {:induction false} EveryNotifyIsCovered(wakes: seq<int>, bursts: seq<seq<int>>, notified: seq<int>)
    requires WakesOf(wakes, bursts, notified)
    ensures forall n | n in notified :: exists w | w in wakes :: n <= w
    ensures forall w | w in wakes :: w in notified
  {
    if |wakes| == 0 {
    } else {
      var init := bursts[..|bursts| - 1];
      EveryNotifyIsCovered(wakes[..|wakes| - 1], init, Concat(init));
      assert wakes == wakes[..|wakes| - 1] + [wakes[|wakes| - 1]];
      forall n | n in notified ensures exists w | w in wakes :: n <= w {
        if n in Concat(init) {
          var w :| w in wakes[..|wakes| - 1] && n <= w;
          assert w in wakes;
        } else {
          assert n in bursts[|bursts| - 1] && wakes[|wakes| - 1] in wakes;
        }
      }
    }
  }
}
