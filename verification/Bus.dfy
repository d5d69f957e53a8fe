/**
 The in-process pub/sub bus: topics, subscriptions with a bounded queue each,
 best-effort publishing, and the wake adapter's burst collapsing.

 A channel is known by its subscription's id, so `queues` holds what Rust keeps
 behind the sender and receiver halves; a missing queue is a closed channel.
 Every operation holds the topics lock, so each is one atomic step.
 */
module Bus {
  import opened Protocol

  const SUB_CAPACITY: nat := 64

  type Topic = string

  datatype Subscription = Subscription(id: nat, topic: Topic)

  /** What happened to one subscription since it subscribed. */
  datatype Mark<M> = Published(msg: M) | Received

  // ---------------------------------------------------------------------
  // One subscription's queue
  // ---------------------------------------------------------------------

  /** The queue those events leave: bounded, a full one drops the message. */
  function Queue<M>(marks: seq<Mark<M>>): (q: seq<M>)
    ensures |q| <= SUB_CAPACITY
  {
    if |marks| == 0 then []
    else
      var q := Queue(marks[..|marks| - 1]);
      match marks[|marks| - 1]
      case Published(m) => if |q| < SUB_CAPACITY then q + [m] else q
      case Received => if |q| > 0 then q[1..] else q
  }

  /** What it has received. */
  function Taken<M>(marks: seq<Mark<M>>): seq<M> {
    if |marks| == 0 then []
    else
      var init := marks[..|marks| - 1];
      match marks[|marks| - 1]
      case Published(_) => Taken(init)
      case Received => if |Queue(init)| > 0 then Taken(init) + [Queue(init)[0]] else Taken(init)
  }

  /** The publishes that were dropped, by position among the publishes. */
  function Lost<M>(marks: seq<Mark<M>>): set<nat> {
    if |marks| == 0 then {}
    else
      var init := marks[..|marks| - 1];
      match marks[|marks| - 1]
      case Published(_) => if |Queue(init)| < SUB_CAPACITY then Lost(init) else Lost(init) + {|Messages(init)|}
      case Received => Lost(init)
  }

  function Messages<M>(marks: seq<Mark<M>>): seq<M> {
    if |marks| == 0 then []
    else
      var init := marks[..|marks| - 1];
      match marks[|marks| - 1]
      case Published(m) => Messages(init) + [m]
      case Received => Messages(init)
  }

  /** The messages at the positions outside `lost`, in order. */
  function Kept<M>(msgs: seq<M>, lost: set<nat>): seq<M> {
    if |msgs| == 0 then []
    else Kept(msgs[..|msgs| - 1], lost) + if |msgs| - 1 in lost then [] else [msgs[|msgs| - 1]]
  }

  lemma {:induction false} LaterLosses<M>(msgs: seq<M>, lost: set<nat>, n: nat)
    requires n >= |msgs|
    ensures Kept(msgs, lost + {n}) == Kept(msgs, lost)
  {
    if |msgs| == 0 {
    } else {
      LaterLosses(msgs[..|msgs| - 1], lost, n);
    }
  }

  /** Received and queued together are what was published since subscribing,
      in order, less exactly what was lost. */
  lemma {:induction false} NothingElseIsLost<M>(marks: seq<Mark<M>>)
    ensures Taken(marks) + Queue(marks) == Kept(Messages(marks), Lost(marks))
    ensures forall n | n in Lost(marks) :: n < |Messages(marks)|
  {
    if |marks| == 0 {
    } else {
      var init := marks[..|marks| - 1];
      NothingElseIsLost(init);
      match marks[|marks| - 1]
      case Published(m) =>
        LaterLosses(Messages(init), Lost(init), |Messages(init)|);
        assert Messages(marks)[..|Messages(init)|] == Messages(init);
        AppendLast(Taken(init), Queue(init), m);
      case Received =>
        MoveFirst(Taken(init), Queue(init));
    }
  }

  lemma AppendLast<M>(a: seq<M>, b: seq<M>, m: M)
    ensures a + (b + [m]) == (a + b) + [m]
  {
  }

  lemma MoveFirst<M>(a: seq<M>, b: seq<M>)
    ensures |b| > 0 ==> (a + [b[0]]) + b[1..] == a + b
  {
  }

  /** A publish is lost exactly when it finds the queue full. */
  lemma {:induction false} LostExactlyWhenFull<M>(marks: seq<Mark<M>>, i: nat)
    requires i < |marks| && marks[i].Published?
    ensures |Messages(marks[..i])| in Lost(marks) <==> |Queue(marks[..i])| == 64
  {
    var init := marks[..|marks| - 1];
    NothingElseIsLost(init);
    if i < |init| {
      assert init[..i] == marks[..i];
      LostExactlyWhenFull(init, i);
      FewerMessagesBefore(init, i);
    }
  }

  lemma {:induction false} FewerMessagesBefore<M>(marks: seq<Mark<M>>, i: nat)
    requires i < |marks| && marks[i].Published?
    ensures |Messages(marks[..i])| < |Messages(marks)|
  {
    var init := marks[..|marks| - 1];
    if i < |init| {
      assert init[..i] == marks[..i];
      FewerMessagesBefore(init, i);
    }
  }

  // ---------------------------------------------------------------------
  // The bus
  // ---------------------------------------------------------------------

  ghost predicate Distinct(ids: seq<nat>) {
    forall i, j | 0 <= i < j < |ids| :: ids[i] != ids[j]
  }

  /** The registered subscribers are exactly the undropped subscriptions, each
      once and under its own topic, and no topic is empty. */
  ghost predicate Registry(topics: map<Topic, seq<nat>>, live: map<nat, Topic>) {
    && (forall t | t in topics ::
          topics[t] != [] && Distinct(topics[t]) && forall id | id in topics[t] :: id in live && live[id] == t)
    && (forall id | id in live :: live[id] in topics && id in topics[live[id]])
  }

  /** Every queue is what its subscription's events left of it. */
  ghost predicate QueuesMatch<M(!new)>(queues: map<nat, seq<M>>, live: map<nat, Topic>, marks: map<nat, seq<Mark<M>>>) {
    && queues.Keys == live.Keys == marks.Keys
    && forall id | id in queues :: queues[id] == Queue(marks[id])
  }

  /** What every reachable state satisfies. */
  ghost predicate AuditBus<M(!new)>(topics: map<Topic, seq<nat>>, nextId: nat, queues: map<nat, seq<M>>,
                                    live: map<nat, Topic>, marks: map<nat, seq<Mark<M>>>)
  {
    Registry(topics, live) && QueuesMatch(queues, live, marks) && forall id | id in live :: id < nextId
  }

  function Listed(topics: map<Topic, seq<nat>>, topic: Topic): seq<nat> {
    if topic in topics then topics[topic] else []
  }

  lemma SubscribeKeepsRegistry(topics: map<Topic, seq<nat>>, live: map<nat, Topic>, topic: Topic, id: nat)
    requires Registry(topics, live) && id !in live
    ensures Registry(topics[topic := Listed(topics, topic) + [id]], live[id := topic])
  {
    var after, all := topics[topic := Listed(topics, topic) + [id]], live[id := topic];
    forall t | t in after
      ensures after[t] != [] && Distinct(after[t]) && forall x | x in after[t] :: x in all && all[x] == t
    {
      if t == topic && topic in topics {
        assert Distinct(topics[topic]) && id !in topics[topic];
      }
    }
    forall x | x in all ensures all[x] in after && x in after[all[x]] {
      if x != id { assert live[x] in topics && x in topics[live[x]]; }
    }
  }

  function Forget(topics: map<Topic, seq<nat>>, topic: Topic, rest: seq<nat>): map<Topic, seq<nat>> {
    if rest == [] then topics - {topic} else topics[topic := rest]
  }

  lemma DropKeepsRegistry(topics: map<Topic, seq<nat>>, live: map<nat, Topic>, id: nat)
    requires Registry(topics, live) && id in live
    ensures live[id] in topics && Registry(Forget(topics, live[id], Others(topics[live[id]], id)), live - {id})
  {
    var topic := live[id];
    var rest := Others(topics[topic], id);
    OthersDistinct(topics[topic], id);
    var after, all := Forget(topics, topic, rest), live - {id};
    forall t | t in after
      ensures after[t] != [] && Distinct(after[t]) && forall x | x in after[t] :: x in all && all[x] == t
    {
      if t != topic { assert after[t] == topics[t]; }
    }
    forall x | x in all ensures all[x] in after && x in after[all[x]] {
      assert live[x] in topics && x in topics[live[x]];
      if live[x] == topic { assert x in rest; }
    }
  }

  function OfferedTo<M>(queues: map<nat, seq<M>>, id: nat, msg: M): map<nat, seq<M>> {
    if id in queues && |queues[id]| < SUB_CAPACITY then queues[id := queues[id] + [msg]] else queues
  }

  /** What a publish leaves in the queues. */
  function Offered<M>(queues: map<nat, seq<M>>, ids: seq<nat>, msg: M): map<nat, seq<M>> {
    if |ids| == 0 then queues
    else OfferedTo(Offered(queues, ids[..|ids| - 1], msg), ids[|ids| - 1], msg)
  }

  lemma {:induction false} OfferedEach<M(!new)>(queues: map<nat, seq<M>>, ids: seq<nat>, msg: M)
    requires Distinct(ids)
    ensures Offered(queues, ids, msg).Keys == queues.Keys
    ensures forall id | id in queues :: Offered(queues, ids, msg)[id] ==
              if id in ids && |queues[id]| < SUB_CAPACITY then queues[id] + [msg] else queues[id]
  {
    if |ids| == 0 {
    } else {
      var init, last := ids[..|ids| - 1], ids[|ids| - 1];
      assert ids == init + [last] && last !in init;
      OfferedEach(queues, init, msg);
    }
  }

  ghost function Marked<M>(marks: map<nat, seq<Mark<M>>>, live: map<nat, Topic>, topic: Topic,
                           msg: M): map<nat, seq<Mark<M>>>
  {
    map id | id in marks :: marks[id] + if id in live && live[id] == topic then [Published(msg)] else []
  }

  lemma PublishKeepsQueues<M(!new)>(topics: map<Topic, seq<nat>>, queues: map<nat, seq<M>>, live: map<nat, Topic>,
                                    marks: map<nat, seq<Mark<M>>>, topic: Topic, msg: M)
    requires Registry(topics, live) && QueuesMatch(queues, live, marks)
    ensures QueuesMatch(Offered(queues, Listed(topics, topic), msg), live, Marked(marks, live, topic, msg))
  {
    hide Registry, Distinct, Queue, Offered, Listed;
    var ids := Listed(topics, topic);
    var after, heard := Offered(queues, ids, msg), Marked(marks, live, topic, msg);
    assert after.Keys == queues.Keys by {
      ListedOnce(topics, live, topic);
      OfferedEach(queues, ids, msg);
    }
    forall id | id in after ensures id in heard && after[id] == Queue(heard[id]) {
      OfferedQueue(topics, queues, live, marks, topic, msg, id);
    }
    assert heard.Keys == marks.Keys;
  }

  lemma OfferedQueue<M(!new)>(topics: map<Topic, seq<nat>>, queues: map<nat, seq<M>>, live: map<nat, Topic>,
                              marks: map<nat, seq<Mark<M>>>, topic: Topic, msg: M, id: nat)
    requires Registry(topics, live) && QueuesMatch(queues, live, marks) && id in queues
    ensures id in Offered(queues, Listed(topics, topic), msg)
    ensures Offered(queues, Listed(topics, topic), msg)[id] == Queue(Marked(marks, live, topic, msg)[id])
  {
    ListedExactly(topics, live, topic, id);
    ListedOnce(topics, live, topic);
    hide Registry, Queue;
    OfferedEach(queues, Listed(topics, topic), msg);
    QueueAfterPublish(marks[id], msg, live[id] == topic);
  }

  lemma ListedOnce(topics: map<Topic, seq<nat>>, live: map<nat, Topic>, topic: Topic)
    requires Registry(topics, live)
    ensures Distinct(Listed(topics, topic))
  {
  }

  lemma ListedExactly(topics: map<Topic, seq<nat>>, live: map<nat, Topic>, topic: Topic, id: nat)
    requires Registry(topics, live) && id in live
    ensures id in Listed(topics, topic) <==> live[id] == topic
  {
    assert live[id] in topics && id in topics[live[id]];
  }

  lemma QueueAfterPublish<M>(ms: seq<Mark<M>>, msg: M, on: bool)
    ensures Queue(ms + if on then [Published(msg)] else []) ==
            if on && |Queue(ms)| < SUB_CAPACITY then Queue(ms) + [msg] else Queue(ms)
  {
    if on {
      assert (ms + [Published(msg)])[..|ms|] == ms;
    } else {
      assert ms + [] == ms;
    }
  }

  function Popped<M>(queues: map<nat, seq<M>>, id: nat): map<nat, seq<M>>
    requires id in queues
  {
    if queues[id] == [] then queues else queues[id := queues[id][1..]]
  }

  lemma ReceiveKeepsQueues<M(!new)>(queues: map<nat, seq<M>>, live: map<nat, Topic>,
                                    marks: map<nat, seq<Mark<M>>>, id: nat)
    requires QueuesMatch(queues, live, marks) && id in live
    ensures QueuesMatch(Popped(queues, id), live, marks[id := marks[id] + [Received]])
  {
    assert (marks[id] + [Received])[..|marks[id]|] == marks[id];
  }

  lemma SubscribeKeepsQueues<M(!new)>(queues: map<nat, seq<M>>, live: map<nat, Topic>, marks: map<nat, seq<Mark<M>>>,
                                      topic: Topic, id: nat)
    requires QueuesMatch(queues, live, marks)
    ensures QueuesMatch(queues[id := []], live[id := topic], marks[id := []])
  {
  }

  lemma SubscribeKeepsBus<M(!new)>(topics: map<Topic, seq<nat>>, nextId: nat, queues: map<nat, seq<M>>,
                                   live: map<nat, Topic>, marks: map<nat, seq<Mark<M>>>, topic: Topic)
    requires AuditBus(topics, nextId, queues, live, marks)
    ensures nextId !in live
    ensures AuditBus(topics[topic := Listed(topics, topic) + [nextId]], nextId + 1, queues[nextId := []],
                     live[nextId := topic], marks[nextId := []])
  {
    assert nextId !in live;
    SubscribeKeepsRegistry(topics, live, topic, nextId);
    SubscribeKeepsQueues(queues, live, marks, topic, nextId);
  }

  lemma {:induction false} DropKeepsBus<M(!new)>(topics: map<Topic, seq<nat>>, nextId: nat, queues: map<nat, seq<M>>,
                              live: map<nat, Topic>, marks: map<nat, seq<Mark<M>>>, id: nat)
    requires AuditBus(topics, nextId, queues, live, marks) && id in live
    ensures live[id] in topics
    ensures AuditBus(Forget(topics, live[id], Others(topics[live[id]], id)), nextId, queues - {id},
                     live - {id}, marks - {id})
  {
    DropKeepsRegistry(topics, live, id);
    DropKeepsQueues(queues, live, marks, id);
  }

  lemma DropKeepsQueues<M(!new)>(queues: map<nat, seq<M>>, live: map<nat, Topic>,
                                 marks: map<nat, seq<Mark<M>>>, id: nat)
    requires QueuesMatch(queues, live, marks)
    ensures QueuesMatch(queues - {id}, live - {id}, marks - {id})
  {
    assert (queues - {id}).Keys == queues.Keys - {id};
    assert (live - {id}).Keys == live.Keys - {id};
    assert (marks - {id}).Keys == marks.Keys - {id};
  }

  lemma PublishKeepsBus<M(!new)>(topics: map<Topic, seq<nat>>, nextId: nat, queues: map<nat, seq<M>>,
                                 live: map<nat, Topic>, marks: map<nat, seq<Mark<M>>>, topic: Topic, msg: M)
    requires AuditBus(topics, nextId, queues, live, marks)
    ensures AuditBus(topics, nextId, Offered(queues, Listed(topics, topic), msg), live, Marked(marks, live, topic, msg))
  {
    hide Registry, QueuesMatch;
    PublishKeepsQueues(topics, queues, live, marks, topic, msg);
  }

  /** Every subscriber's channel is open, so a publish purges none. */
  lemma SubscribersAreOpen<M(!new)>(topics: map<Topic, seq<nat>>, nextId: nat, queues: map<nat, seq<M>>,
                                    live: map<nat, Topic>, marks: map<nat, seq<Mark<M>>>, topic: Topic)
    requires AuditBus(topics, nextId, queues, live, marks)
    ensures Distinct(Listed(topics, topic)) && forall id | id in Listed(topics, topic) :: id in queues
    ensures Forget(topics, topic, Listed(topics, topic)) == topics
  {
  }

  lemma ReceiveKeepsBus<M(!new)>(topics: map<Topic, seq<nat>>, nextId: nat, queues: map<nat, seq<M>>,
                                 live: map<nat, Topic>, marks: map<nat, seq<Mark<M>>>, id: nat)
    requires AuditBus(topics, nextId, queues, live, marks) && id in live
    ensures id in queues && id in marks
    ensures AuditBus(topics, nextId, Popped(queues, id), live, marks[id := marks[id] + [Received]])
  {
    ReceiveKeepsQueues(queues, live, marks, id);
  }

  ghost function SubscriptionsOn(live: map<nat, Topic>, topic: Topic): set<nat> {
    set id | id in live && live[id] == topic
  }

  lemma SubscribersOf<M(!new)>(topics: map<Topic, seq<nat>>, nextId: nat, queues: map<nat, seq<M>>,
                               live: map<nat, Topic>, marks: map<nat, seq<Mark<M>>>, topic: Topic)
    requires AuditBus(topics, nextId, queues, live, marks)
    ensures |SubscriptionsOn(live, topic)| == |Listed(topics, topic)|
  {
    var s := SubscriptionsOn(live, topic);
    forall id ensures id in s <==> id in Listed(topics, topic) {
      if id in s { assert live[id] in topics && id in topics[live[id]]; }
    }
    CountListed(Listed(topics, topic), s);
  }

  /** The subscriptions of a topic are as many as its subscriber list. */
  lemma {:induction false} CountListed(ids: seq<nat>, s: set<nat>)
    requires Distinct(ids) && forall id :: id in s <==> id in ids
    ensures |s| == |ids|
  {
    if |ids| > 0 {
      var init, last := ids[..|ids| - 1], ids[|ids| - 1];
      assert ids == init + [last];
      CountListed(init, s - {last});
    } else {
      assert s == {};
    }
  }

  datatype TrySend = Sent | Full | Closed

  class Bus<M(!new)> {
    var topics: map<Topic, seq<nat>>
    var nextId: nat
    var queues: map<nat, seq<M>>
    /** The undropped subscriptions, and what happened to each. */
    ghost var live: map<nat, Topic>
    ghost var marks: map<nat, seq<Mark<M>>>

    ghost predicate Valid()
      reads this
    {
      AuditBus(topics, nextId, queues, live, marks)
    }

    constructor ()
      ensures Valid() && live == map[] && topics == map[]
    {
      topics, nextId, queues, live, marks := map[], 0, map[], map[], map[];
    }

    method Subscribe(topic: Topic) returns (sub: Subscription)
      requires Valid()
      modifies this
      ensures Valid()
      ensures sub.topic == topic && sub.id == old(nextId) && nextId == old(nextId) + 1 && sub.id !in old(live)
      ensures live == old(live)[sub.id := topic] && marks == old(marks)[sub.id := []]
    {
      hide AuditBus;
      var id := nextId;
      SubscribeKeepsBus(topics, id, queues, live, marks, topic);
      queues := queues[id := []];
      topics := topics[topic := Listed(topics, topic) + [id]];
      live, marks := live[id := topic], marks[id := []];
      nextId := nextId + 1;
      sub := Subscription(id, topic);
    }

    /** `Drop`: deregister, and forget a topic that empties. */
    method Drop(sub: Subscription)
      requires Valid() && sub.id in live && live[sub.id] == sub.topic
      modifies this
      ensures Valid()
      ensures live == old(live) - {sub.id} && marks == old(marks) - {sub.id} && nextId == old(nextId)
    {
      hide AuditBus;
      DropKeepsBus(topics, nextId, queues, live, marks, sub.id);
      if sub.topic in topics {
        var rest := Others(topics[sub.topic], sub.id);
        topics := Forget(topics, sub.topic, rest);
      }
      queues, live, marks := queues - {sub.id}, live - {sub.id}, marks - {sub.id};
    }

    /** `publish`: offer the message to every subscriber of the topic and purge
        those whose channel is closed, of which there are none. */
    method Publish(topic: Topic, msg: M)
      requires Valid()
      modifies this
      ensures Valid() && live == old(live) && topics == old(topics) && nextId == old(nextId)
      ensures marks == Marked(old(marks), live, topic, msg)
    {
      hide AuditBus;
      SubscribersAreOpen(topics, nextId, queues, live, marks, topic);
      PublishKeepsBus(topics, nextId, queues, live, marks, topic, msg);
      if topic in topics {
        var kept := OfferAll(topics[topic], msg);
        topics := Forget(topics, topic, kept);
      }
      marks := Marked(marks, live, topic, msg);
    }

    /** `retain`: keep the subscribers whose channel is not closed. */
    method OfferAll(subs: seq<nat>, msg: M) returns (kept: seq<nat>)
      requires Distinct(subs) && forall id | id in subs :: id in queues
      modifies this`queues
      ensures kept == subs && queues == Offered(old(queues), subs, msg)
    {
      kept := [];
      for i := 0 to |subs|
        invariant queues.Keys == old(queues).Keys
        invariant kept == subs[..i] && queues == Offered(old(queues), subs[..i], msg)
      {
        assert subs[..i + 1][..i] == subs[..i];
        var outcome := Offer(subs[i], msg);
        if outcome != Closed {
          kept := kept + [subs[i]];
        }
      }
      assert subs[..|subs|] == subs;
    }

    /** `try_send` on one subscriber's channel. */
    method Offer(id: nat, msg: M) returns (outcome: TrySend)
      modifies this`queues
      ensures outcome == if id !in old(queues) then Closed else if |old(queues)[id]| < SUB_CAPACITY then Sent else Full
      ensures queues == OfferedTo(old(queues), id, msg)
    {
      if id !in queues {
        return Closed;
      }
      if |queues[id]| >= SUB_CAPACITY {
        return Full;
      }
      queues := queues[id := queues[id] + [msg]];
      return Sent;
    }

    /** `try_recv` (and `recv`, once something is queued). */
    method TryRecv(sub: Subscription) returns (msg: Option<M>)
      requires Valid() && sub.id in live
      modifies this
      ensures Valid() && live == old(live) && topics == old(topics) && nextId == old(nextId)
      ensures msg == if old(queues)[sub.id] == [] then None else Some(old(queues)[sub.id][0])
      ensures msg.Some? ==> queues == old(queues)[sub.id := old(queues)[sub.id][1..]]
      ensures marks == old(marks)[sub.id := old(marks)[sub.id] + [Received]]
    {
      hide AuditBus;
      ReceiveKeepsBus(topics, nextId, queues, live, marks, sub.id);
      var q := queues[sub.id];
      marks := marks[sub.id := marks[sub.id] + [Received]];
      if q == [] {
        return None;
      }
      queues := queues[sub.id := q[1..]];
      return Some(q[0]);
    }

    method SubscriberCount(topic: Topic) returns (n: nat)
      requires Valid()
      ensures n == |SubscriptionsOn(live, topic)|
    {
      n := |Listed(topics, topic)|;
      SubscribersOf(topics, nextId, queues, live, marks, topic);
    }
  }

  /** What holds after every run of subscribes, publishes, receives and drops:
      the registered subscribers are exactly the undropped subscriptions, none
      twice; no topic is empty; and every queue is short and, after what was
      received, continues the publishes since subscribing less the lost ones. */
  lemma EveryRunOfTheBus<M(!new)>(bus: Bus<M>)
    requires bus.Valid()
    ensures forall id :: id in bus.live <==> exists t | t in bus.topics :: id in bus.topics[t]
    ensures forall t, u, i, j | t in bus.topics && u in bus.topics && 0 <= i < |bus.topics[t]|
            && 0 <= j < |bus.topics[u]| ::
              bus.topics[t][i] == bus.topics[u][j] ==> t == u && i == j
    ensures forall t | t in bus.topics :: bus.topics[t] != []
    ensures forall id | id in bus.live :: id in bus.queues && id in bus.marks && |bus.queues[id]| <= 64
    ensures forall id | id in bus.live ::
              Taken(bus.marks[id]) + bus.queues[id] == Kept(Messages(bus.marks[id]), Lost(bus.marks[id]))
  {
    forall id | id in bus.live
      ensures Taken(bus.marks[id]) + bus.queues[id] == Kept(Messages(bus.marks[id]), Lost(bus.marks[id]))
    {
      NothingElseIsLost(bus.marks[id]);
    }
    RegistryOnce(bus.topics, bus.live);
  }

  lemma RegistryOnce(topics: map<Topic, seq<nat>>, live: map<nat, Topic>)
    requires Registry(topics, live)
    ensures forall id :: id in live <==> exists t | t in topics :: id in topics[t]
    ensures forall t, u, i, j | t in topics && u in topics && 0 <= i < |topics[t]| && 0 <= j < |topics[u]| ::
              topics[t][i] == topics[u][j] ==> t == u && i == j
  {
    forall t, u, i, j | t in topics && u in topics && 0 <= i < |topics[t]| && 0 <= j < |topics[u]|
        && topics[t][i] == topics[u][j]
      ensures t == u && i == j
    {
      assert topics[t][i] in topics[t] && topics[u][j] in topics[u];
      assert Distinct(topics[t]);
    }
  }

  /** `retain(|sub| sub.id != id)`. */
  function Others(ids: seq<nat>, id: nat): (rest: seq<nat>)
    ensures forall x :: x in rest <==> x in ids && x != id
  {
    if |ids| == 0 then []
    else
      assert ids == ids[..|ids| - 1] + [ids[|ids| - 1]];
      Others(ids[..|ids| - 1], id) + if ids[|ids| - 1] == id then [] else [ids[|ids| - 1]]
  }

  lemma {:induction false} OthersDistinct(ids: seq<nat>, id: nat)
    requires Distinct(ids)
    ensures Distinct(Others(ids, id))
  {
    if |ids| == 0 {
    } else {
      var init, last := ids[..|ids| - 1], ids[|ids| - 1];
      assert Distinct(init);
      OthersDistinct(init, id);
      assert last !in init && last !in Others(init, id);
    }
  }
}
