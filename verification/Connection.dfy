/**
  * The plumbing of a connection: the table of pending requests, the queue of messages, the writer
  * that empties it, and who is told what. Each step is atomic, as locks and channels make it.
  */
module Connection {
  import opened SyncTypes

  /** Request ids. */
  type i32 = x: int | -0x8000_0000 <= x < 0x8000_0000

  const CAPACITY: nat := 100

  /** What `submit_request` can wait for; nothing in the repository waits for readiness or closing. */
  datatype Kind = Nothing | WhenReady | WhenSent | WhenResponse | WhenClosed

  /** A listener is known by its number, in order of creation. */
  datatype Listener = Listener(number: nat, kind: Kind)

  datatype Item = Item(bytes: Bytes, listener: Option<nat>)

  datatype Reply = Response(id: i32, body: Bytes) | Sent | Closed

  datatype Outcome = Outcome(listener: nat, reply: Reply)

  datatype Packet = Hello | Config | Ping | Message(bytes: Bytes)

  datatype Phase = Greeting | Configuring | Idle | Writing(item: Item) | Pinging | Stopped

  /** How a listener came to be: in the table, with the message at a position, or with one not accepted. */
  datatype Birth = InTable(id: i32, kind: Kind) | WithMessage(position: nat) | Refused

  /**
    * `requests`, `poisoned` (its lock), `queue` and `phase` are the state proper. The others record
    * what happened: packets written and flushed, messages accepted and finished, listeners born,
    * told something, dropped without a word, and those whose caller no longer waits.
    */
  datatype Conn = Conn(
    requests: map<i32, Listener>,
    poisoned: bool,
    queue: seq<Item>,
    phase: Phase,
    wire: seq<Packet>,
    accepted: seq<Item>,
    done: seq<Item>,
    born: seq<Birth>,
    told: seq<Outcome>,
    dropped: seq<nat>,
    gone: set<nat>)

  datatype Step =
    | Register(id: i32, kind: Kind)
    | Enqueue(bytes: Bytes, whenSent: bool)
    | Respond(id: i32, body: Bytes)
    | HelloWritten
    | ConfigWritten
    | Take
    | StartPing
    | Finish
    | WriteFails
    | ReceiverLost
    | Cancel
    | Drain(order: seq<i32>)
    | Abandon(n: nat) // a caller stops waiting

  const INITIAL := Conn(map[], false, [], Greeting, [], [], [], [], [], [], {})

  // ---------------------------------------------------------------------------
  // Steps
  // ---------------------------------------------------------------------------

  function Listeners(items: seq<Item>): seq<nat> {
    if items == [] then []
    else (if items[0].listener.Some? then [items[0].listener.value] else []) + Listeners(items[1..])
  }

  function AllTold(listeners: seq<nat>, reply: Reply): (told: seq<Outcome>)
    ensures |told| == |listeners|
    ensures forall i :: 0 <= i < |told| ==> told[i] == Outcome(listeners[i], reply)
  {
    seq(|listeners|, i requires 0 <= i < |listeners| => Outcome(listeners[i], reply))
  }

  /** Those whose caller still waits: only they can be told anything. */
  function Hearing(listeners: seq<nat>, gone: set<nat>): seq<nat> {
    if listeners == [] then []
    else (if listeners[0] in gone then [] else [listeners[0]]) + Hearing(listeners[1..], gone)
  }

  function Deaf(listeners: seq<nat>, gone: set<nat>): seq<nat> {
    if listeners == [] then []
    else (if listeners[0] in gone then [listeners[0]] else []) + Deaf(listeners[1..], gone)
  }

  /** Those before the first whose caller is gone. */
  function UpToGone(listeners: seq<nat>, gone: set<nat>): (front: seq<nat>)
    ensures front <= listeners
  {
    if listeners == [] then []
    else
      var n := |listeners| - 1;
      var front := UpToGone(listeners[..n], gone);
      if |front| == n && listeners[n] !in gone then listeners else front
  }

  /** The items the writer has taken from the queue and not finished. */
  function InHand(c: Conn): seq<Item> {
    if c.phase.Writing? then [c.phase.item] else []
  }

  /** The order in which draining a hash table visits its keys is not determined. */
  ghost predicate IsOrderOf(order: seq<i32>, requests: map<i32, Listener>) {
    && (forall id :: id in order <==> id in requests)
    && (forall i, j :: 0 <= i < j < |order| ==> order[i] != order[j])
  }

  function Tabled(order: seq<i32>, requests: map<i32, Listener>): seq<nat>
    requires forall id :: id in order ==> id in requests
    decreases |order|
  {
    if order == [] then []
    else
      var id := Last(order);
      assert id in order;
      Tabled(order[..|order| - 1], requests) + [requests[id].number]
  }

  ghost predicate Enabled(c: Conn, step: Step) {
    match step
    case Register(_, _) => true
    case Enqueue(_, _) => c.phase.Stopped? || |c.queue| < CAPACITY
    case Respond(_, _) => true
    case HelloWritten => c.phase.Greeting?
    case ConfigWritten => c.phase.Configuring?
    case Take => c.phase.Idle? && c.queue != []
    case StartPing => c.phase.Idle?
    case Finish => c.phase.Writing? || c.phase.Pinging?
    case WriteFails => c.phase.Configuring? || c.phase.Pinging? || (c.phase.Writing? && c.phase.item.bytes != [])
    case ReceiverLost =>
      c.phase.Greeting? || c.phase.Configuring? || c.phase.Pinging? || (c.phase.Writing? && c.phase.item.bytes != [])
    case Cancel => c.phase.Idle?
    case Drain(order) => !c.poisoned && IsOrderOf(order, c.requests)
    case Abandon(n) => n < |c.born|
  }

  /** Entering a listener in the table throws out the one under the same id; a poisoned lock panics. */
  function DoRegister(c: Conn, id: i32, kind: Kind): Conn {
    var number := |c.born|;
    var c := c.(born := c.born + [InTable(id, kind)]);
    if c.poisoned then c.(dropped := c.dropped + [number])
    else
      c.(requests := c.requests[id := Listener(number, kind)],
         dropped := if id in c.requests then c.dropped + [c.requests[id].number] else c.dropped)
  }

  /** A message joins the queue, unless the receiver is gone: then its listener is dropped with it. */
  function DoEnqueue(c: Conn, bytes: Bytes, whenSent: bool): Conn {
    var number := |c.born|;
    if c.phase.Stopped? then
      if whenSent then c.(born := c.born + [Refused], dropped := c.dropped + [number]) else c
    else
      var item := Item(bytes, if whenSent then Some(number) else None);
      c.(queue := c.queue + [item],
         accepted := c.accepted + [item],
         born := if whenSent then c.born + [WithMessage(|c.accepted|)] else c.born)
  }

  /** The listener under the response's id is told; one of another kind, or whose caller is gone, panics under the lock. */
  function DoRespond(c: Conn, id: i32, body: Bytes): Conn {
    if c.poisoned || id !in c.requests then c
    else
      var listener := c.requests[id];
      var c := c.(requests := c.requests - {id});
      if listener.kind == WhenResponse && listener.number !in c.gone
      then c.(told := c.told + [Outcome(listener.number, Response(id, body))])
      else c.(dropped := c.dropped + [listener.number], poisoned := true)
  }

  function DoFinish(c: Conn): Conn
    requires c.phase.Writing? || c.phase.Pinging?
  {
    if c.phase.Pinging? then c.(wire := c.wire + [Ping], phase := Idle)
    else
      var item := c.phase.item;
      c.(wire := if item.bytes == [] then c.wire else c.wire + [Message(item.bytes)],
         done := c.done + [item],
         told := c.told + AllTold(Hearing(Listeners([item]), c.gone), Sent),
         dropped := c.dropped + Deaf(Listeners([item]), c.gone),
         phase := Idle)
  }

  /** `close_receiver`, and the writer ends: the queue is told, what was in hand is dropped. */
  function DoClose(c: Conn): Conn {
    c.(told := c.told + AllTold(Hearing(Listeners(c.queue), c.gone), Closed),
       dropped := c.dropped + Deaf(Listeners(c.queue), c.gone) + Listeners(InHand(c)),
       queue := [],
       phase := Stopped)
  }

  /** The writer ends and its receiver goes with it: nobody is told. */
  function DoLose(c: Conn): Conn {
    c.(dropped := c.dropped + Listeners(InHand(c)) + Listeners(c.queue), queue := [], phase := Stopped)
  }

  /** The table is told in order; at the first listener whose caller is gone it panics, and drops that one and the rest. */
  function DoDrain(c: Conn, order: seq<i32>): Conn
    requires forall id :: id in order ==> id in c.requests
  {
    var listeners := Tabled(order, c.requests);
    var front := UpToGone(listeners, c.gone);
    c.(requests := map[],
       poisoned := c.poisoned || |front| < |listeners|,
       told := c.told + AllTold(front, Closed),
       dropped := c.dropped + listeners[|front|..])
  }

  ghost function Apply(c: Conn, step: Step): Conn
    requires Enabled(c, step)
  {
    match step
    case Register(id, kind) => DoRegister(c, id, kind)
    case Enqueue(bytes, whenSent) => DoEnqueue(c, bytes, whenSent)
    case Respond(id, body) => DoRespond(c, id, body)
    case HelloWritten => c.(wire := c.wire + [Hello], phase := Configuring)
    case ConfigWritten => c.(wire := c.wire + [Config], phase := Idle)
    case Take => c.(phase := Writing(c.queue[0]), queue := c.queue[1..])
    case StartPing => c.(phase := Pinging)
    case Finish => DoFinish(c)
    case WriteFails => DoClose(c)
    case ReceiverLost => DoLose(c)
    case Cancel => DoClose(c)
    case Drain(order) => DoDrain(c, order)
    case Abandon(n) => c.(gone := c.gone + {n})
  }

  ghost predicate Runs(c: Conn, steps: seq<Step>)
    decreases |steps|
  {
    steps == [] || (Enabled(c, steps[0]) && Runs(Apply(c, steps[0]), steps[1..]))
  }

  ghost function After(c: Conn, steps: seq<Step>): Conn
    requires Runs(c, steps)
    decreases |steps|
  {
    if steps == [] then c else After(Apply(c, steps[0]), steps[1..])
  }

  // ---------------------------------------------------------------------------
  // Conservation of listeners
  // ---------------------------------------------------------------------------

  ghost function Ids(requests: map<i32, Listener>, n: nat): set<i32> {
    set id | id in requests && requests[id].number == n
  }

  function Names(told: seq<Outcome>): (names: seq<nat>)
    ensures |names| == |told|
  {
    seq(|told|, i requires 0 <= i < |told| => told[i].listener)
  }

  /** In how many places a listener is: the table, the queue, the writer's hand, told, dropped. */
  ghost function Places(c: Conn, n: nat): nat {
    |Ids(c.requests, n)|
    + multiset(Listeners(c.queue))[n]
    + multiset(Listeners(InHand(c)))[n]
    + multiset(Names(c.told))[n]
    + multiset(c.dropped)[n]
  }

  lemma ListenersOfOne(item: Item)
    ensures Listeners([item]) == if item.listener.Some? then [item.listener.value] else []
  {
    assert [item][1..] == [];
  }

  lemma HearingOne(item: Item, gone: set<nat>)
    ensures var n := item.listener;
            && Hearing(Listeners([item]), gone) == (if n.Some? && n.value !in gone then [n.value] else [])
            && Deaf(Listeners([item]), gone) == (if n.Some? && n.value in gone then [n.value] else [])
  {
    ListenersOfOne(item);
    if item.listener.Some? {
      assert [item.listener.value][1..] == [];
    }
  }

  lemma {:induction false} ListenersConcat(a: seq<Item>, b: seq<Item>)
    ensures Listeners(a + b) == Listeners(a) + Listeners(b)
    decreases |a|
  {
    if a == [] {
      assert a + b == b;
    } else {
      var rest := a[1..];
      ListenersConcat(rest, b);
      assert (a + b)[0] == a[0] && (a + b)[1..] == rest + b;
      var head := if a[0].listener.Some? then [a[0].listener.value] else [];
      assert head + (Listeners(rest) + Listeners(b)) == head + Listeners(rest) + Listeners(b);
    }
  }

  lemma NamesOfTold(told: seq<Outcome>, listeners: seq<nat>, reply: Reply)
    ensures Names(told + AllTold(listeners, reply)) == Names(told) + listeners
  {
  }

  lemma NamesOfOne(told: seq<Outcome>, one: Outcome)
    ensures Names(told + [one]) == Names(told) + [one.listener]
  {
  }

  lemma IdsAfterInsert(requests: map<i32, Listener>, id: i32, listener: Listener, n: nat)
    ensures var rest := Ids(requests, n) - {id};
            Ids(requests[id := listener], n) == if listener.number == n then rest + {id} else rest
  {
  }

  lemma IdsAfterRemove(requests: map<i32, Listener>, id: i32, n: nat)
    ensures Ids(requests - {id}, n) == Ids(requests, n) - {id}
  {
  }

  lemma RegisterKeepsPlaces(c: Conn, id: i32, kind: Kind, n: nat)
    ensures Places(DoRegister(c, id, kind), n) == Places(c, n) + if n == |c.born| then 1 else 0
  {
    IdsAfterInsert(c.requests, id, Listener(|c.born|, kind), n);
  }

  lemma EnqueueKeepsPlaces(c: Conn, bytes: Bytes, whenSent: bool, n: nat)
    ensures Places(DoEnqueue(c, bytes, whenSent), n) == Places(c, n) + if whenSent && n == |c.born| then 1 else 0
  {
    if !c.phase.Stopped? {
      var item := Item(bytes, if whenSent then Some(|c.born|) else None);
      var d := DoEnqueue(c, bytes, whenSent);
      assert Listeners(d.queue) == Listeners(c.queue) + if whenSent then [|c.born|] else [] by {
        ListenersConcat(c.queue, [item]);
        ListenersOfOne(item);
      }
      assert InHand(d) == InHand(c) && d.requests == c.requests && d.told == c.told && d.dropped == c.dropped;
    }
  }

  lemma RespondKeepsPlaces(c: Conn, id: i32, body: Bytes, n: nat)
    ensures Places(DoRespond(c, id, body), n) == Places(c, n)
  {
    if !c.poisoned && id in c.requests {
      var listener := c.requests[id];
      IdsAfterRemove(c.requests, id, n);
      NamesOfOne(c.told, Outcome(listener.number, Response(id, body)));
    }
  }

  lemma {:induction false} HearingOrDeaf(listeners: seq<nat>, gone: set<nat>, n: nat)
    ensures multiset(Hearing(listeners, gone))[n] + multiset(Deaf(listeners, gone))[n] == multiset(listeners)[n]
  {
    if listeners != [] {
      var rest := listeners[1..];
      HearingOrDeaf(rest, gone, n);
      assert listeners == [listeners[0]] + rest;
    }
  }

  lemma CloseKeepsPlaces(c: Conn, n: nat)
    ensures Places(DoClose(c), n) == Places(c, n)
  {
    var listeners := Listeners(c.queue);
    NamesOfTold(c.told, Hearing(listeners, c.gone), Closed);
    HearingOrDeaf(listeners, c.gone, n);
  }

  lemma LoseKeepsPlaces(c: Conn, n: nat)
    ensures Places(DoLose(c), n) == Places(c, n)
  {
  }

  lemma FinishKeepsPlaces(c: Conn, n: nat)
    requires c.phase.Writing? || c.phase.Pinging?
    ensures Places(DoFinish(c), n) == Places(c, n)
  {
    if c.phase.Writing? {
      var listeners := Listeners([c.phase.item]);
      NamesOfTold(c.told, Hearing(listeners, c.gone), Sent);
      HearingOrDeaf(listeners, c.gone, n);
    }
  }

  lemma TakeKeepsPlaces(c: Conn, n: nat)
    requires c.phase.Idle? && c.queue != []
    ensures Places(c.(phase := Writing(c.queue[0]), queue := c.queue[1..]), n) == Places(c, n)
  {
    assert c.queue == [c.queue[0]] + c.queue[1..];
    ListenersConcat([c.queue[0]], c.queue[1..]);
  }

  lemma {:induction false} DrainCounts(order: seq<i32>, requests: map<i32, Listener>, n: nat)
    requires IsOrderOf(order, requests)
    ensures multiset(Tabled(order, requests))[n] == |Ids(requests, n)|
    decreases |order|
  {
    if order == [] {
      assert forall id :: id in requests ==> id in order;
      assert Ids(requests, n) == {};
    } else {
      var id, rest := Last(order), order[..|order| - 1];
      RestIsOrder(order, requests);
      DrainCounts(rest, requests - {id}, n);
      IdsAfterRemove(requests, id, n);
      TabledRest(rest, requests, id);
    }
  }

  lemma RestIsOrder(order: seq<i32>, requests: map<i32, Listener>)
    requires order != [] && IsOrderOf(order, requests)
    ensures IsOrderOf(order[..|order| - 1], requests - {Last(order)})
  {
    var rest := order[..|order| - 1];
    assert order == rest + [Last(order)];
    forall id ensures id in rest <==> id in requests - {Last(order)} {
      assert id in order <==> id in requests;
    }
  }

  lemma {:induction false} TabledRest(rest: seq<i32>, requests: map<i32, Listener>, id: i32)
    requires id !in rest && forall other :: other in rest ==> other in requests
    ensures Tabled(rest, requests - {id}) == Tabled(rest, requests)
    decreases |rest|
  {
    if rest != [] {
      var other := Last(rest);
      assert other in rest;
      TabledRest(rest[..|rest| - 1], requests, id);
    }
  }

  lemma DrainKeepsPlaces(c: Conn, order: seq<i32>, n: nat)
    requires IsOrderOf(order, c.requests)
    ensures Places(DoDrain(c, order), n) == Places(c, n)
  {
    var listeners := Tabled(order, c.requests);
    var front := UpToGone(listeners, c.gone);
    var rest := listeners[|front|..];
    DrainCounts(order, c.requests, n);
    PartsCount(listeners, front, n);
    ToldCounts(c.told, front, n);
    CountBoth(c.dropped, rest, n);
    NoIds(n);
  }

  lemma PartsCount(listeners: seq<nat>, front: seq<nat>, n: nat)
    requires front <= listeners
    ensures multiset(front)[n] + multiset(listeners[|front|..])[n] == multiset(listeners)[n]
  {
    assert listeners == front + listeners[|front|..];
    CountBoth(front, listeners[|front|..], n);
  }

  lemma ToldCounts(told: seq<Outcome>, listeners: seq<nat>, n: nat)
    ensures multiset(Names(told + AllTold(listeners, Closed)))[n] == multiset(Names(told))[n] + multiset(listeners)[n]
  {
    NamesOfTold(told, listeners, Closed);
    CountBoth(Names(told), listeners, n);
  }

  lemma NoIds(n: nat)
    ensures Ids(map[], n) == {}
  {
  }

  lemma CountBoth(a: seq<nat>, b: seq<nat>, n: nat)
    ensures multiset(a + b)[n] == multiset(a)[n] + multiset(b)[n]
  {
  }

  lemma StepKeepsPlaces(c: Conn, step: Step, n: nat)
    requires Enabled(c, step)
    ensures var d := Apply(c, step);
            && |c.born| <= |d.born| <= |c.born| + 1
            && Places(d, n) == Places(c, n) + if |c.born| <= n < |d.born| then 1 else 0
  {
    match step {
      case Register(id, kind) => RegisterKeepsPlaces(c, id, kind, n);
      case Enqueue(bytes, whenSent) => EnqueueKeepsPlaces(c, bytes, whenSent, n);
      case Respond(id, body) => RespondKeepsPlaces(c, id, body, n);
      case Take => TakeKeepsPlaces(c, n);
      case Finish => FinishKeepsPlaces(c, n);
      case WriteFails => CloseKeepsPlaces(c, n);
      case ReceiverLost => LoseKeepsPlaces(c, n);
      case Cancel => CloseKeepsPlaces(c, n);
      case Drain(order) => DrainKeepsPlaces(c, order, n);
      case _ =>
    }
  }

  lemma {:induction false} RunKeepsPlaces(c: Conn, steps: seq<Step>, n: nat)
    requires Runs(c, steps)
    requires Places(c, n) == if n < |c.born| then 1 else 0
    ensures Places(After(c, steps), n) == if n < |After(c, steps).born| then 1 else 0
    decreases |steps|
  {
    if steps != [] {
      StepKeepsPlaces(c, steps[0], n);
      RunKeepsPlaces(Apply(c, steps[0]), steps[1..], n);
    }
  }

  /**
    * Over every run each listener ever created is in exactly one place, and nothing else is: so
    * none is told twice, told after being dropped, or lost.
    */
  lemma ListenersAreConserved(steps: seq<Step>, n: nat)
    requires Runs(INITIAL, steps)
    ensures Places(After(INITIAL, steps), n) == if n < |After(INITIAL, steps).born| then 1 else 0
  {
    assert Ids(INITIAL.requests, n) == {};
    RunKeepsPlaces(INITIAL, steps, n);
  }

  /** Once the writer has ended and the table was drained, everyone was told once or dropped once. */
  lemma EveryoneHeardInTheEnd(steps: seq<Step>, n: nat)
    requires Runs(INITIAL, steps)
    requires var c := After(INITIAL, steps); c.phase.Stopped? && c.requests == map[] && n < |c.born|
    ensures var c := After(INITIAL, steps);
            && multiset(Names(c.told))[n] + multiset(c.dropped)[n] == 1
            && AnswerFor(c, n) != Waiting
  {
    ListenersAreConserved(steps, n);
    RunKeepsInv(INITIAL, steps);
    assert Ids(map[], n) == {};
    ToldIff(After(INITIAL, steps).told, n);
  }

  // ---------------------------------------------------------------------------
  // What a caller of submit_request gets
  // ---------------------------------------------------------------------------

  datatype Answer = Waiting | Answered(reply: Reply) | ConnectionClosed

  function FindTold(told: seq<Outcome>, n: nat): Option<Reply> {
    if told == [] then None
    else if told[0].listener == n then Some(told[0].reply)
    else FindTold(told[1..], n)
  }

  /** The reply a listener was told; a listener dropped without one reports a closed connection. */
  function AnswerFor(c: Conn, n: nat): Answer {
    var reply := FindTold(c.told, n);
    if reply.Some? then Answered(reply.value) else if n in c.dropped then ConnectionClosed else Waiting
  }

  lemma {:induction false} ToldIff(told: seq<Outcome>, n: nat)
    ensures FindTold(told, n).Some? <==> multiset(Names(told))[n] > 0
  {
    if told != [] {
      ToldIff(told[1..], n);
      assert Names(told) == [told[0].listener] + Names(told[1..]);
    }
  }

  lemma {:induction false} FoundFirst(told: seq<Outcome>, more: seq<Outcome>, n: nat)
    ensures FindTold(told, n).Some? ==> FindTold(told + more, n) == FindTold(told, n)
    decreases |told|
  {
    if told != [] {
      FoundFirst(told[1..], more, n);
      assert (told + more)[0] == told[0] && (told + more)[1..] == told[1..] + more;
    }
  }

  lemma OutcomesAreKept(c: Conn, step: Step)
    requires Enabled(c, step)
    ensures c.told <= Apply(c, step).told && c.dropped <= Apply(c, step).dropped
  {
  }

  /** An answer, once there, is final. */
  lemma AnswerStays(c: Conn, step: Step, n: nat)
    requires Enabled(c, step) && n < |c.born| && Places(c, n) == 1 && AnswerFor(c, n) != Waiting
    ensures AnswerFor(Apply(c, step), n) == AnswerFor(c, n)
  {
    OutcomesAreKept(c, step);
    StepKeepsPlaces(c, step, n);
    SameAnswer(c, Apply(c, step), n);
  }

  lemma SameAnswer(c: Conn, d: Conn, n: nat)
    requires c.told <= d.told && c.dropped <= d.dropped && Places(d, n) == 1 && AnswerFor(c, n) != Waiting
    ensures AnswerFor(d, n) == AnswerFor(c, n)
  {
    if FindTold(c.told, n).Some? {
      FoundFirst(c.told, d.told[|c.told|..], n);
      assert d.told == c.told + d.told[|c.told|..];
    } else {
      StillIn(c.dropped, d.dropped, n);
      NotAlsoTold(d, n);
    }
  }

  lemma StillIn(a: seq<nat>, b: seq<nat>, n: nat)
    requires a <= b && n in a
    ensures n in b
  {
    var i :| 0 <= i < |a| && a[i] == n;
    assert b[i] == n;
  }

  lemma NotAlsoTold(c: Conn, n: nat)
    requires Places(c, n) == 1 && n in c.dropped
    ensures FindTold(c.told, n).None?
  {
    assert multiset(c.dropped)[n] > 0;
    ToldIff(c.told, n);
  }

  lemma {:induction false} AnswerIsFinal(c: Conn, steps: seq<Step>, n: nat)
    requires Runs(c, steps) && n < |c.born| && Places(c, n) == 1 && AnswerFor(c, n) != Waiting
    ensures AnswerFor(After(c, steps), n) == AnswerFor(c, n)
    decreases |steps|
  {
    if steps != [] {
      AnswerStays(c, steps[0], n);
      StepKeepsPlaces(c, steps[0], n);
      AnswerIsFinal(Apply(c, steps[0]), steps[1..], n);
    }
  }

  // ---------------------------------------------------------------------------
  // Order, and who is told what
  // ---------------------------------------------------------------------------

  function WithoutPings(wire: seq<Packet>): seq<Packet> {
    if wire == [] then []
    else WithoutPings(wire[..|wire| - 1]) + if Last(wire) == Ping then [] else [Last(wire)]
  }

  /** What messages put on the wire: an empty one, of `wait_for_ready`, puts nothing. */
  function Packets(items: seq<Item>): seq<Packet> {
    if items == [] then []
    else Packets(items[..|items| - 1]) + if Last(items).bytes == [] then [] else [Message(Last(items).bytes)]
  }

  const OPENING: seq<Packet> := [Hello, Config]

  ghost predicate GoodWire(c: Conn) {
    var w := WithoutPings(c.wire);
    match c.phase
    case Greeting => c.done == [] && c.wire == []
    case Configuring => c.done == [] && c.wire == [Hello]
    case Stopped => (c.done == [] && w <= OPENING) || w == OPENING + Packets(c.done)
    case _ => w == OPENING + Packets(c.done)
  }

  /** Messages are finished in the order in which they were accepted. */
  ghost predicate GoodQueue(c: Conn) {
    if c.phase.Stopped? then c.queue == [] && c.done <= c.accepted
    else c.accepted == c.done + InHand(c) + c.queue && |c.queue| <= CAPACITY
  }

  ghost predicate GoodTable(c: Conn) {
    forall id :: id in c.requests ==> BornAs(c, c.requests[id].number, InTable(id, c.requests[id].kind))
  }

  ghost predicate BornAs(c: Conn, n: nat, birth: Birth) {
    n < |c.born| && c.born[n] == birth
  }

  ghost predicate GoodItem(c: Conn, k: nat)
    requires k < |c.accepted|
  {
    c.accepted[k].listener.Some? ==> BornAs(c, c.accepted[k].listener.value, WithMessage(k))
  }

  ghost predicate GoodItems(c: Conn) {
    forall k: nat :: k < |c.accepted| ==> GoodItem(c, k)
  }

  /** A response went to the listener under its id, and `Sent` to one whose message is finished. */
  ghost predicate GoodOutcome(c: Conn, outcome: Outcome) {
    match outcome.reply
    case Response(id, _) => BornAs(c, outcome.listener, InTable(id, WhenResponse))
    case Sent => exists k: nat :: BornAs(c, outcome.listener, WithMessage(k)) && k < |c.done|
    case Closed => true
  }

  ghost predicate GoodOutcomes(c: Conn) {
    forall i :: 0 <= i < |c.told| ==> GoodOutcome(c, c.told[i])
  }

  ghost predicate Inv(c: Conn) {
    GoodWire(c) && GoodQueue(c) && GoodTable(c) && GoodItems(c) && GoodOutcomes(c)
  }

  lemma PacketsAnother(items: seq<Item>, item: Item)
    ensures Packets(items + [item]) == Packets(items) + if item.bytes == [] then [] else [Message(item.bytes)]
  {
    assert (items + [item])[..|items|] == items;
  }

  lemma PingsAnother(wire: seq<Packet>, packet: Packet)
    ensures WithoutPings(wire + [packet]) == WithoutPings(wire) + if packet == Ping then [] else [packet]
  {
    assert (wire + [packet])[..|wire|] == wire;
  }

  lemma OpeningWritten()
    ensures WithoutPings([Hello]) == [Hello] && WithoutPings([Hello] + [Config]) == OPENING
    ensures Packets([]) == []
  {
    assert [] + [Hello] == [Hello];
    PingsAnother([], Hello);
    PingsAnother([Hello], Config);
  }

  lemma MessageWritten(wire: seq<Packet>, done: seq<Item>, item: Item)
    requires WithoutPings(wire) == OPENING + Packets(done)
    ensures WithoutPings(if item.bytes == [] then wire else wire + [Message(item.bytes)]) == OPENING + Packets(done + [item])
  {
    PacketsAnother(done, item);
    PingsAnother(wire, Message(item.bytes));
  }

  lemma FinishKeepsWire(c: Conn)
    requires (c.phase.Pinging? || c.phase.Writing?) && GoodWire(c)
    ensures GoodWire(DoFinish(c))
  {
    if c.phase.Pinging? {
      PingsAnother(c.wire, Ping);
    } else {
      MessageWritten(c.wire, c.done, c.phase.item);
    }
  }

  lemma EndKeepsWire(c: Conn, d: Conn)
    requires GoodWire(c) && d.phase.Stopped? && d.wire == c.wire && d.done == c.done
    ensures GoodWire(d)
  {
    OpeningWritten();
  }

  ghost predicate Opened(phase: Phase) {
    phase.Idle? || phase.Writing? || phase.Pinging?
  }

  lemma SameKeepsWire(c: Conn, d: Conn)
    requires GoodWire(c) && d.wire == c.wire && d.done == c.done
    requires d.phase == c.phase || (Opened(c.phase) && Opened(d.phase))
    ensures GoodWire(d)
  {
  }

  lemma HelloKeepsWire(c: Conn)
    requires GoodWire(c) && c.phase.Greeting?
    ensures GoodWire(c.(wire := c.wire + [Hello], phase := Configuring))
  {
    assert c.wire + [Hello] == [Hello];
  }

  lemma ConfigKeepsWire(c: Conn)
    requires GoodWire(c) && c.phase.Configuring?
    ensures GoodWire(c.(wire := c.wire + [Config], phase := Idle))
  {
    assert c.wire == [Hello] && c.done == [];
    OpeningWritten();
    assert OPENING + Packets(c.done) == OPENING;
  }

  lemma WireStaysGood(c: Conn, step: Step)
    requires Enabled(c, step) && GoodWire(c)
    ensures GoodWire(Apply(c, step))
  {
    match step {
      case HelloWritten => HelloKeepsWire(c);
      case ConfigWritten => ConfigKeepsWire(c);
      case Finish => FinishKeepsWire(c);
      case WriteFails => EndKeepsWire(c, DoClose(c));
      case ReceiverLost => EndKeepsWire(c, DoLose(c));
      case Cancel => EndKeepsWire(c, DoClose(c));
      case _ => SameKeepsWire(c, Apply(c, step));
    }
  }

  lemma TakeFirst(done: seq<Item>, queue: seq<Item>)
    requires queue != []
    ensures done + [] + queue == done + [queue[0]] + queue[1..]
  {
  }

  lemma FinishFirst(done: seq<Item>, hand: seq<Item>, queue: seq<Item>)
    ensures done + hand + queue == done + hand + [] + queue
  {
  }

  lemma QueueStaysGood(c: Conn, step: Step)
    requires Enabled(c, step) && GoodQueue(c)
    ensures GoodQueue(Apply(c, step))
  {
    match step {
      case Take => TakeFirst(c.done, c.queue);
      case Finish => FinishFirst(c.done, InHand(c), c.queue);
      case _ =>
    }
  }

  lemma BirthsStay(c: Conn, step: Step)
    requires Enabled(c, step)
    ensures c.born <= Apply(c, step).born && c.done <= Apply(c, step).done
  {
  }

  lemma TableStaysGood(c: Conn, step: Step)
    requires Enabled(c, step) && GoodTable(c)
    ensures GoodTable(Apply(c, step))
  {
    BirthsStay(c, step);
  }

  lemma ItemsStayGood(c: Conn, step: Step)
    requires Enabled(c, step) && GoodItems(c)
    ensures GoodItems(Apply(c, step))
  {
    var d := Apply(c, step);
    BirthsStay(c, step);
    forall k: nat | k < |d.accepted| ensures GoodItem(d, k) {
      if k < |c.accepted| {
        assert GoodItem(c, k);
      }
    }
  }

  lemma OutcomeStaysGood(c: Conn, d: Conn, outcome: Outcome)
    requires GoodOutcome(c, outcome) && c.born <= d.born && c.done <= d.done
    ensures GoodOutcome(d, outcome)
  {
    if outcome.reply.Sent? {
      var k: nat :| BornAs(c, outcome.listener, WithMessage(k)) && k < |c.done|;
      assert BornAs(d, outcome.listener, WithMessage(k));
    }
  }

  lemma NewOutcomeIsGood(c: Conn, step: Step, i: nat)
    requires Enabled(c, step) && GoodQueue(c) && GoodTable(c) && GoodItems(c)
    requires |c.told| <= i < |Apply(c, step).told|
    ensures GoodOutcome(Apply(c, step), Apply(c, step).told[i])
  {
    if step.Finish? && c.phase.Writing? {
      var listener := c.phase.item.listener;
      HearingOne(c.phase.item, c.gone);
      assert c.accepted[|c.done|] == c.phase.item;
      assert GoodItem(c, |c.done|);
      assert BornAs(Apply(c, step), listener.value, WithMessage(|c.done|));
    }
  }

  lemma OutcomesStayGood(c: Conn, step: Step)
    requires Enabled(c, step) && Inv(c)
    ensures GoodOutcomes(Apply(c, step))
  {
    var d := Apply(c, step);
    BirthsStay(c, step);
    assert c.told <= d.told;
    forall i | 0 <= i < |d.told| ensures GoodOutcome(d, d.told[i]) {
      if i < |c.told| {
        OutcomeStaysGood(c, d, c.told[i]);
      } else {
        NewOutcomeIsGood(c, step, i);
      }
    }
  }

  lemma {:induction false} RunKeepsInv(c: Conn, steps: seq<Step>)
    requires Runs(c, steps) && Inv(c)
    ensures Inv(After(c, steps))
    decreases |steps|
  {
    if steps != [] {
      WireStaysGood(c, steps[0]);
      QueueStaysGood(c, steps[0]);
      TableStaysGood(c, steps[0]);
      ItemsStayGood(c, steps[0]);
      OutcomesStayGood(c, steps[0]);
      RunKeepsInv(Apply(c, steps[0]), steps[1..]);
    }
  }

  /** A response only ever reaches the listener that was entered under its id to wait for one. */
  lemma ResponsesFindTheirListener(steps: seq<Step>, i: nat)
    requires Runs(INITIAL, steps) && i < |After(INITIAL, steps).told|
    requires After(INITIAL, steps).told[i].reply.Response?
    ensures var c := After(INITIAL, steps);
            BornAs(c, c.told[i].listener, InTable(c.told[i].reply.id, WhenResponse))
  {
    RunKeepsInv(INITIAL, steps);
    assert GoodOutcome(After(INITIAL, steps), After(INITIAL, steps).told[i]);
  }

  lemma {:induction false} PacketsPrefix(items: seq<Item>, k: nat)
    requires k <= |items|
    ensures Packets(items[..k]) <= Packets(items)
    decreases |items|
  {
    if k < |items| {
      PacketsPrefix(items[..|items| - 1], k);
      assert items[..|items| - 1][..k] == items[..k];
    } else {
      assert items[..k] == items;
    }
  }

  /**
    * Once a listener is told that its message was sent, the hello, the cluster configuration, every
    * message accepted before it and the message itself were written, in that order, pings aside.
    */
  lemma SentMeansWritten(steps: seq<Step>, i: nat) returns (k: nat)
    requires Runs(INITIAL, steps) && i < |After(INITIAL, steps).told|
    requires After(INITIAL, steps).told[i].reply.Sent?
    ensures var c := After(INITIAL, steps);
            && k < |c.accepted|
            && BornAs(c, c.told[i].listener, WithMessage(k))
            && OPENING + Packets(c.accepted[..k + 1]) <= WithoutPings(c.wire)
  {
    RunKeepsInv(INITIAL, steps);
    k := SentPosition(After(INITIAL, steps), i);
    WrittenUpTo(After(INITIAL, steps), k);
  }

  lemma SentPosition(c: Conn, i: nat) returns (k: nat)
    requires GoodOutcomes(c) && i < |c.told| && c.told[i].reply.Sent?
    ensures BornAs(c, c.told[i].listener, WithMessage(k)) && k < |c.done|
  {
    assert GoodOutcome(c, c.told[i]);
    k :| BornAs(c, c.told[i].listener, WithMessage(k)) && k < |c.done|;
  }

  /** What is finished was accepted before everything else, and is on the wire. */
  lemma WrittenUpTo(c: Conn, k: nat)
    requires GoodWire(c) && GoodQueue(c) && k < |c.done|
    ensures k < |c.accepted| && OPENING + Packets(c.accepted[..k + 1]) <= WithoutPings(c.wire)
  {
    assert c.done <= c.accepted;
    assert c.accepted[..k + 1] == c.done[..k + 1];
    PacketsPrefix(c.done, k + 1);
  }

  // ---------------------------------------------------------------------------
  // What was recorded, told from the steps
  // ---------------------------------------------------------------------------

  lemma {:induction false} RunsThen(c: Conn, first: seq<Step>, rest: seq<Step>)
    ensures Runs(c, first + rest) <==> Runs(c, first) && Runs(After(c, first), rest)
    ensures Runs(c, first + rest) ==> After(c, first + rest) == After(After(c, first), rest)
    decreases |first|
  {
    if first == [] {
      assert first + rest == rest;
    } else if Enabled(c, first[0]) {
      assert (first + rest)[0] == first[0] && (first + rest)[1..] == first[1..] + rest;
      RunsThen(Apply(c, first[0]), first[1..], rest);
    } else {
      assert (first + rest)[0] == first[0];
    }
  }

  /** The steps that make a listener, in order: they number the listeners. */
  function Makers(steps: seq<Step>): seq<Step> {
    if steps == [] then []
    else
      var last := Last(steps);
      Makers(steps[..|steps| - 1]) + if last.Register? || (last.Enqueue? && last.whenSent) then [last] else []
  }

  function Enqueues(steps: seq<Step>): (made: seq<Step>)
    ensures forall k :: 0 <= k < |made| ==> made[k].Enqueue?
  {
    if steps == [] then [] else Enqueues(steps[..|steps| - 1]) + if Last(steps).Enqueue? then [Last(steps)] else []
  }

  /** The table lists exactly the listeners that a step entered there, under the id and kind it gave. */
  ghost predicate BirthsTraced(steps: seq<Step>, c: Conn) {
    && |c.born| == |Makers(steps)|
    && forall n, id, kind :: 0 <= n < |c.born| ==> (c.born[n] == InTable(id, kind) <==> Makers(steps)[n] == Register(id, kind))
  }

  /** The messages accepted are the first of those submitted, and all of them until the writer ends. */
  ghost predicate ItemsTraced(steps: seq<Step>, c: Conn) {
    && |c.accepted| <= |Enqueues(steps)|
    && (!c.phase.Stopped? ==> |c.accepted| == |Enqueues(steps)|)
    && forall k :: 0 <= k < |c.accepted| ==>
         c.accepted[k].bytes == Enqueues(steps)[k].bytes && (c.accepted[k].listener.Some? <==> Enqueues(steps)[k].whenSent)
  }

  /** The j-th step is that response, and comes after the one that entered listener n to wait for it. */
  ghost predicate Brings(steps: seq<Step>, j: nat, n: nat, id: i32, body: Bytes) {
    && j < |steps| && steps[j] == Respond(id, body)
    && n < |Makers(steps[..j])| && Makers(steps[..j])[n] == Register(id, WhenResponse)
  }

  ghost predicate ResponseTraced(steps: seq<Step>, outcome: Outcome) {
    outcome.reply.Response? ==> exists j :: Brings(steps, j, outcome.listener, outcome.reply.id, outcome.reply.body)
  }

  ghost predicate ResponsesTraced(steps: seq<Step>, c: Conn) {
    forall i :: 0 <= i < |c.told| ==> ResponseTraced(steps, c.told[i])
  }

  lemma MakersMore(steps: seq<Step>, step: Step)
    ensures Makers(steps + [step]) ==
            Makers(steps) + if step.Register? || (step.Enqueue? && step.whenSent) then [step] else []
    ensures Enqueues(steps + [step]) == Enqueues(steps) + if step.Enqueue? then [step] else []
  {
    assert (steps + [step])[..|steps|] == steps;
  }

  lemma BirthsStayTraced(steps: seq<Step>, c: Conn, step: Step)
    requires Enabled(c, step) && BirthsTraced(steps, c)
    ensures BirthsTraced(steps + [step], Apply(c, step))
  {
    MakersMore(steps, step);
  }

  lemma ItemsStayTraced(steps: seq<Step>, c: Conn, step: Step)
    requires Enabled(c, step) && ItemsTraced(steps, c)
    ensures ItemsTraced(steps + [step], Apply(c, step))
  {
    MakersMore(steps, step);
  }

  lemma StillBrings(steps: seq<Step>, step: Step, j: nat, n: nat, id: i32, body: Bytes)
    requires Brings(steps, j, n, id, body)
    ensures Brings(steps + [step], j, n, id, body)
  {
    assert (steps + [step])[..j] == steps[..j];
  }

  lemma ResponseStaysTraced(steps: seq<Step>, step: Step, outcome: Outcome)
    requires ResponseTraced(steps, outcome)
    ensures ResponseTraced(steps + [step], outcome)
  {
    if outcome.reply.Response? {
      var j :| Brings(steps, j, outcome.listener, outcome.reply.id, outcome.reply.body);
      StillBrings(steps, step, j, outcome.listener, outcome.reply.id, outcome.reply.body);
    }
  }

  lemma NewResponseIsTraced(steps: seq<Step>, c: Conn, step: Step, i: nat)
    requires Enabled(c, step) && GoodTable(c) && BirthsTraced(steps, c) && |c.told| <= i < |Apply(c, step).told|
    ensures ResponseTraced(steps + [step], Apply(c, step).told[i])
  {
    if step.Respond? {
      var n := c.requests[step.id].number;
      assert BornAs(c, n, InTable(step.id, WhenResponse));
      assert (steps + [step])[..|steps|] == steps;
      assert Brings(steps + [step], |steps|, n, step.id, step.body);
    }
  }

  lemma ResponsesStayTraced(steps: seq<Step>, c: Conn, step: Step)
    requires Enabled(c, step) && GoodTable(c) && BirthsTraced(steps, c) && ResponsesTraced(steps, c)
    ensures ResponsesTraced(steps + [step], Apply(c, step))
  {
    OutcomesAreKept(c, step);
    forall i | 0 <= i < |Apply(c, step).told| ensures ResponseTraced(steps + [step], Apply(c, step).told[i]) {
      if i < |c.told| {
        ResponseStaysTraced(steps, step, c.told[i]);
      } else {
        NewResponseIsTraced(steps, c, step, i);
      }
    }
  }

  lemma LastStep(steps: seq<Step>)
    requires Runs(INITIAL, steps) && steps != []
    ensures var front, step := steps[..|steps| - 1], Last(steps);
            && Runs(INITIAL, front) && Enabled(After(INITIAL, front), step)
            && After(INITIAL, steps) == Apply(After(INITIAL, front), step)
  {
    var front, step := steps[..|steps| - 1], Last(steps);
    assert steps == front + [step] && [step][1..] == [];
    RunsThen(INITIAL, front, [step]);
  }

  ghost predicate Traced(steps: seq<Step>, c: Conn) {
    BirthsTraced(steps, c) && ItemsTraced(steps, c) && ResponsesTraced(steps, c)
  }

  lemma StepStaysTraced(steps: seq<Step>, c: Conn, step: Step)
    requires Enabled(c, step) && GoodTable(c) && Traced(steps, c)
    ensures Traced(steps + [step], Apply(c, step))
  {
    BirthsStayTraced(steps, c, step);
    ItemsStayTraced(steps, c, step);
    ResponsesStayTraced(steps, c, step);
  }

  lemma NothingTraced()
    ensures Traced([], INITIAL)
  {
  }

  lemma LastStepTraced(steps: seq<Step>)
    requires Runs(INITIAL, steps) && steps != []
    requires Runs(INITIAL, steps[..|steps| - 1]) && Traced(steps[..|steps| - 1], After(INITIAL, steps[..|steps| - 1]))
    ensures Traced(steps, After(INITIAL, steps))
  {
    var front, step := steps[..|steps| - 1], Last(steps);
    FrontAndLast(steps);
    LastStep(steps);
    RunHasTable(front);
    StepStaysTraced(front, After(INITIAL, front), step);
  }

  lemma FrontAndLast(steps: seq<Step>)
    requires steps != []
    ensures steps == steps[..|steps| - 1] + [Last(steps)]
  {
  }

  lemma RunHasTable(steps: seq<Step>)
    requires Runs(INITIAL, steps)
    ensures GoodTable(After(INITIAL, steps))
  {
    RunKeepsInv(INITIAL, steps);
  }

  /** Everything on record in a connection comes from its steps. */
  lemma {:induction false} RunIsTraced(steps: seq<Step>)
    requires Runs(INITIAL, steps)
    ensures Traced(steps, After(INITIAL, steps))
    decreases |steps|
  {
    if steps == [] {
      NothingTraced();
    } else {
      LastStep(steps);
      RunIsTraced(steps[..|steps| - 1]);
      LastStepTraced(steps);
    }
  }

  /**
    * What a caller is told of a response is a response that came in, id and bytes, after the caller's
    * listener was entered under that id to wait for one.
    */
  lemma ResponseIsAsReceived(steps: seq<Step>, i: nat) returns (j: nat)
    requires Runs(INITIAL, steps) && i < |After(INITIAL, steps).told|
    requires After(INITIAL, steps).told[i].reply.Response?
    ensures var outcome := After(INITIAL, steps).told[i];
            && j < |steps| && steps[j] == Respond(outcome.reply.id, outcome.reply.body)
            && outcome.listener < |Makers(steps[..j])|
            && Makers(steps[..j])[outcome.listener] == Register(outcome.reply.id, WhenResponse)
  {
    RunIsTraced(steps);
    var outcome := After(INITIAL, steps).told[i];
    assert ResponseTraced(steps, outcome);
    j :| Brings(steps, j, outcome.listener, outcome.reply.id, outcome.reply.body);
  }

  /** No more than a hundred messages wait. */
  lemma QueueIsBounded(steps: seq<Step>)
    requires Runs(INITIAL, steps)
    ensures |After(INITIAL, steps).queue| <= 100
  {
    RunKeepsInv(INITIAL, steps);
  }

  /** And a hundred can. */
  lemma {:induction false} QueueFills(n: nat) returns (steps: seq<Step>)
    requires n <= 100
    ensures Runs(INITIAL, steps) && |After(INITIAL, steps).queue| == n && !After(INITIAL, steps).phase.Stopped?
  {
    if n == 0 {
      steps := [];
    } else {
      steps := QueueFills(n - 1);
      var last := [Enqueue([], false)];
      assert last[1..] == [];
      RunsThen(INITIAL, steps, last);
      steps := steps + last;
    }
  }

  /** Messages are accepted as submitted, in that order, none left out; after the writer has ended none is. */
  lemma AcceptedAsSubmitted(steps: seq<Step>, k: nat)
    requires Runs(INITIAL, steps) && k < |After(INITIAL, steps).accepted|
    ensures var c := After(INITIAL, steps);
            && |c.accepted| <= |Enqueues(steps)| && (!c.phase.Stopped? ==> |c.accepted| == |Enqueues(steps)|)
            && c.accepted[k].bytes == Enqueues(steps)[k].bytes
            && (c.accepted[k].listener.Some? <==> Enqueues(steps)[k].whenSent)
  {
    RunIsTraced(steps);
  }

  // ---------------------------------------------------------------------------
  // A response that comes in reaches its caller
  // ---------------------------------------------------------------------------

  /** The step leaves the entry under this id, and whoever waits there, alone. */
  predicate LeavesEntry(step: Step, id: i32, n: nat) {
    match step
    case Register(other, _) => other != id
    case Respond(other, _) => other != id
    case Drain(_) => false
    case Abandon(m) => m != n
    case _ => true
  }

  ghost predicate AwaitsUnder(c: Conn, id: i32, n: nat) {
    id in c.requests && c.requests[id] == Listener(n, WhenResponse) && n !in c.gone
  }

  lemma StepLeavesEntry(c: Conn, step: Step, id: i32, n: nat)
    requires Enabled(c, step) && AwaitsUnder(c, id, n) && LeavesEntry(step, id, n)
    ensures AwaitsUnder(Apply(c, step), id, n)
    ensures c.poisoned ==> Apply(c, step).poisoned
  {
  }

  lemma {:induction false} EntryStays(c: Conn, steps: seq<Step>, id: i32, n: nat)
    requires Runs(c, steps) && AwaitsUnder(c, id, n)
    requires forall i :: 0 <= i < |steps| ==> LeavesEntry(steps[i], id, n)
    ensures AwaitsUnder(After(c, steps), id, n)
    ensures c.poisoned ==> After(c, steps).poisoned
    decreases |steps|
  {
    if steps != [] {
      StepLeavesEntry(c, steps[0], id, n);
      EntryStays(Apply(c, steps[0]), steps[1..], id, n);
    }
  }

  lemma {:induction false} FoundLast(told: seq<Outcome>, n: nat, reply: Reply)
    requires FindTold(told, n).None?
    ensures FindTold(told + [Outcome(n, reply)], n) == Some(reply)
  {
    if told != [] {
      FoundLast(told[1..], n, reply);
      assert (told + [Outcome(n, reply)])[0] == told[0] && (told + [Outcome(n, reply)])[1..] == told[1..] + [Outcome(n, reply)];
    }
  }

  lemma ResponseAnswers(c: Conn, id: i32, body: Bytes, n: nat)
    requires AwaitsUnder(c, id, n) && !c.poisoned && Places(c, n) == 1
    ensures AnswerFor(Apply(c, Respond(id, body)), n) == Answered(Response(id, body))
  {
    assert id in Ids(c.requests, n);
    assert multiset(Names(c.told))[n] == 0;
    ToldIff(c.told, n);
    FoundLast(c.told, n, Response(id, body));
  }

  /** A request's listener is in the table before its message is in the queue: no answer to it comes too early. */
  lemma EnteredBeforeSent(c: Conn, id: i32, bytes: Bytes)
    requires !c.poisoned && |c.born| !in c.gone
    ensures var steps := SubmitSteps(c, id, WhenResponse, bytes);
            && |steps| == 2 && Enabled(c, steps[0])
            && var d := Apply(c, steps[0]);
               AwaitsUnder(d, id, |c.born|) && d.queue == c.queue && steps[1] == Enqueue(bytes, false)
  {
  }

  /** The caller of a message that is finished, if it still waits, gets `Sent`. */
  lemma FinishedIsAnswered(c: Conn, n: nat)
    requires c.phase.Writing? && c.phase.item.listener == Some(n) && n !in c.gone && Places(c, n) == 1
    ensures AnswerFor(Apply(c, Finish), n) == Answered(Sent)
  {
    FinishTells(c, n);
    assert multiset(Listeners(InHand(c)))[n] == 1;
    ToldIff(c.told, n);
    FoundLast(c.told, n, Sent);
  }

  lemma FinishTells(c: Conn, n: nat)
    requires c.phase.Writing? && c.phase.item.listener == Some(n) && n !in c.gone
    ensures Listeners(InHand(c)) == [n] && Apply(c, Finish).told == c.told + [Outcome(n, Sent)]
  {
    ListenersOfOne(c.phase.item);
    HearingOne(c.phase.item, c.gone);
    assert AllTold([n], Sent) == [Outcome(n, Sent)];
  }

  /** A listener dropped where it was not told anything leaves its caller with a closed connection. */
  lemma DroppedIsAnswered(c: Conn, n: nat)
    requires n in c.dropped && Places(c, n) == 1
    ensures AnswerFor(c, n) == ConnectionClosed
  {
    NotAlsoTold(c, n);
  }

  /** So it is for the caller whose message was in hand when the writer ends, whichever way. */
  lemma InHandIsClosed(c: Conn, step: Step, n: nat)
    requires Enabled(c, step) && (step.WriteFails? || step.ReceiverLost?) && Places(c, n) == 1
    requires c.phase.Writing? && c.phase.item.listener == Some(n)
    ensures AnswerFor(Apply(c, step), n) == ConnectionClosed
  {
    ListenersOfOne(c.phase.item);
    var d := Apply(c, step);
    assert n in Listeners(InHand(c));
    assert Listeners(InHand(c)) == [n];
    StepKeepsPlaces(c, step, n);
    assert multiset(Listeners(InHand(c)))[n] == 1;
    InHandIsBorn(c, step, n);
    DroppedIsAnswered(d, n);
  }

  lemma InHandIsBorn(c: Conn, step: Step, n: nat)
    requires Enabled(c, step) && (step.WriteFails? || step.ReceiverLost?)
    ensures Apply(c, step).born == c.born
    ensures forall m :: m in Listeners(InHand(c)) ==> m in Apply(c, step).dropped
  {
  }

  /** For everyone whose message was queued when the receiver is lost. */
  lemma LostQueueIsClosed(c: Conn, n: nat)
    requires Enabled(c, ReceiverLost) && n in Listeners(c.queue) && Places(c, n) == 1
    ensures AnswerFor(Apply(c, ReceiverLost), n) == ConnectionClosed
  {
    StepKeepsPlaces(c, ReceiverLost, n);
    DroppedIsAnswered(Apply(c, ReceiverLost), n);
  }

  /** For one whose id another request takes over, and for one that comes to a poisoned lock. */
  lemma ReplacedIsClosed(c: Conn, id: i32, kind: Kind)
    requires !c.poisoned && id in c.requests && c.requests[id].number < |c.born| && Places(c, c.requests[id].number) == 1
    ensures AnswerFor(Apply(c, Register(id, kind)), c.requests[id].number) == ConnectionClosed
  {
    var n := c.requests[id].number;
    StepKeepsPlaces(c, Register(id, kind), n);
    assert n in (c.dropped + [n]);
    DroppedIsAnswered(Apply(c, Register(id, kind)), n);
  }

  /** And for one that submits after the writer has ended. */
  lemma RefusedIsClosed(c: Conn, bytes: Bytes)
    requires c.phase.Stopped? && Places(c, |c.born|) == 0
    ensures AnswerFor(Apply(c, Enqueue(bytes, true)), |c.born|) == ConnectionClosed
  {
    var n := |c.born|;
    StepKeepsPlaces(c, Enqueue(bytes, true), n);
    assert n in (c.dropped + [n]);
    DroppedIsAnswered(Apply(c, Enqueue(bytes, true)), n);
  }

  lemma {:induction false} GoneAreBorn(steps: seq<Step>, n: nat)
    requires Runs(INITIAL, steps) && n in After(INITIAL, steps).gone
    ensures n < |After(INITIAL, steps).born|
    decreases |steps|
  {
    if steps != [] {
      var front := steps[..|steps| - 1];
      LastStep(steps);
      BirthsStay(After(INITIAL, front), Last(steps));
      if n in After(INITIAL, front).gone {
        GoneAreBorn(front, n);
      }
    }
  }

  /**
    * The first response that comes in under a listener's id, with nobody else entered there and the table not drained
    * since it was entered, its caller still waiting and the lock not poisoned, is what its caller
    * gets, id and bytes, whatever happens later.
    */
  lemma ResponseIsDelivered(before: seq<Step>, id: i32, wait: seq<Step>, body: Bytes, after: seq<Step>)
    requires Runs(INITIAL, before) && Runs(After(INITIAL, before), [Register(id, WhenResponse)] + wait)
    requires var c := After(After(INITIAL, before), [Register(id, WhenResponse)] + wait);
             !After(INITIAL, before).poisoned && !c.poisoned && Runs(Apply(c, Respond(id, body)), after)
    requires forall i :: 0 <= i < |wait| ==> LeavesEntry(wait[i], id, |After(INITIAL, before).born|)
    ensures var c := After(After(INITIAL, before), [Register(id, WhenResponse)] + wait);
            AnswerFor(After(Apply(c, Respond(id, body)), after), |After(INITIAL, before).born|) == Answered(Response(id, body))
  {
    var c0 := After(INITIAL, before);
    var n, enter := |c0.born|, Register(id, WhenResponse);
    ListenersAreConserved(before, n);
    if n in c0.gone {
      GoneAreBorn(before, n);
      assert false;
    }
    StepKeepsPlaces(c0, enter, n);
    var c1 := Apply(c0, enter);
    assert ([enter] + wait)[1..] == wait;
    EntryStays(c1, wait, id, n);
    RunKeepsPlace(c1, wait, n);
    var c2 := After(c1, wait);
    ResponseAnswers(c2, id, body, n);
    StepKeepsPlaces(c2, Respond(id, body), n);
    AnswerIsFinal(Apply(c2, Respond(id, body)), after, n);
  }

  lemma {:induction false} RunKeepsPlace(c: Conn, steps: seq<Step>, n: nat)
    requires Runs(c, steps) && n < |c.born| && Places(c, n) == 1
    ensures n < |After(c, steps).born| && Places(After(c, steps), n) == 1
    decreases |steps|
  {
    if steps != [] {
      StepKeepsPlaces(c, steps[0], n);
      RunKeepsPlace(Apply(c, steps[0]), steps[1..], n);
    }
  }

  lemma {:induction false} ListenerListed(items: seq<Item>, i: nat)
    requires i < |items| && items[i].listener.Some?
    ensures items[i].listener.value in Listeners(items)
    decreases |items|
  {
    if i > 0 {
      ListenerListed(items[1..], i - 1);
    }
  }

  lemma {:induction false} ListenerTabled(order: seq<i32>, requests: map<i32, Listener>, i: nat)
    requires i < |order| && forall id :: id in order ==> id in requests
    ensures order[i] in requests && requests[order[i]].number in Tabled(order, requests)
    decreases |order|
  {
    assert order[i] in order;
    if i < |order| - 1 {
      ListenerTabled(order[..|order| - 1], requests, i);
    }
  }

  lemma {:induction false} HeardIfHearing(listeners: seq<nat>, gone: set<nat>, n: nat)
    requires n in listeners && n !in gone
    ensures n in Hearing(listeners, gone)
  {
    if listeners[0] != n {
      HeardIfHearing(listeners[1..], gone, n);
    }
  }

  lemma {:induction false} NobodyGone(listeners: seq<nat>, gone: set<nat>)
    ensures UpToGone(listeners, gone) == listeners <==> forall n :: n in listeners ==> n !in gone
    decreases |listeners|
  {
    if listeners != [] {
      var init := listeners[..|listeners| - 1];
      NobodyGone(init, gone);
      assert listeners == init + [Last(listeners)];
    }
  }

  lemma AllAreTold(told: seq<Outcome>, listeners: seq<nat>, n: nat)
    requires n in listeners
    ensures Outcome(n, Closed) in told + AllTold(listeners, Closed)
  {
    var i :| 0 <= i < |listeners| && listeners[i] == n;
    assert AllTold(listeners, Closed)[i] == Outcome(n, Closed);
  }

  /** When the writer ends by closing, everyone whose message is still queued and who still waits is told so. */
  lemma ClosingTellsTheQueue(c: Conn, step: Step, i: nat)
    requires Enabled(c, step) && (step.Cancel? || step.WriteFails?)
    requires i < |c.queue| && c.queue[i].listener.Some? && c.queue[i].listener.value !in c.gone
    ensures Outcome(c.queue[i].listener.value, Closed) in Apply(c, step).told
    ensures Apply(c, step).queue == [] && Apply(c, step).phase.Stopped?
  {
    ListenerListed(c.queue, i);
    HeardIfHearing(Listeners(c.queue), c.gone, c.queue[i].listener.value);
    AllAreTold(c.told, Hearing(Listeners(c.queue), c.gone), c.queue[i].listener.value);
  }

  lemma {:induction false} TabledIsEntered(order: seq<i32>, requests: map<i32, Listener>, n: nat)
    requires forall id :: id in order ==> id in requests
    requires n in Tabled(order, requests)
    ensures exists id :: id in order && id in requests && requests[id].number == n
    decreases |order|
  {
    var last, init := Last(order), order[..|order| - 1];
    assert order == init + [last];
    if requests[last].number != n {
      TabledIsEntered(init, requests, n);
    }
  }

  /** Everyone in the table still waits. */
  ghost predicate AllWait(c: Conn) {
    forall id :: id in c.requests ==> c.requests[id].number !in c.gone
  }

  /** Draining empties the table; it tells everyone in it, in whatever order, exactly when all of them still wait, and panics otherwise. */
  lemma DrainingTellsTheTable(c: Conn, order: seq<i32>)
    requires Enabled(c, Drain(order))
    ensures var d := Apply(c, Drain(order));
            && d.requests == map[] && (d.poisoned <==> !AllWait(c))
            && (AllWait(c) ==> forall id :: id in c.requests ==> Outcome(c.requests[id].number, Closed) in d.told)
  {
    var listeners := Tabled(order, c.requests);
    NobodyGone(listeners, c.gone);
    forall id | id in c.requests ensures c.requests[id].number in listeners {
      assert id in order;
      var i :| 0 <= i < |order| && order[i] == id;
      ListenerTabled(order, c.requests, i);
    }
    forall n | n in listeners ensures exists id :: id in c.requests && c.requests[id].number == n {
      TabledIsEntered(order, c.requests, n);
    }
    if AllWait(c) {
      forall id | id in c.requests ensures Outcome(c.requests[id].number, Closed) in c.told + AllTold(listeners, Closed) {
        AllAreTold(c.told, listeners, c.requests[id].number);
      }
    }
  }

  // ---------------------------------------------------------------------------
  // The panic under the lock
  // ---------------------------------------------------------------------------

  /** A step poisons the lock exactly when it sends under it to a listener of another kind, or to one whose caller is gone. */
  lemma PoisonedIff(c: Conn, step: Step)
    requires Enabled(c, step) && !c.poisoned
    ensures Apply(c, step).poisoned <==>
            || (step.Respond? && step.id in c.requests
                && (c.requests[step.id].kind != WhenResponse || c.requests[step.id].number in c.gone))
            || (step.Drain? && !AllWait(c))
  {
    if step.Drain? {
      DrainingTellsTheTable(c, step.order);
    }
  }

  ghost predicate OnlyResponsesAwaited(c: Conn) {
    && !c.poisoned && c.gone == {}
    && forall id :: id in c.requests ==> c.requests[id].kind == WhenResponse
  }

  /** As long as everyone in the table waits for a response, as in this repository, and nobody stops waiting, no lock is poisoned. */
  lemma {:induction false} NeverPoisoned(c: Conn, steps: seq<Step>)
    requires Runs(c, steps) && OnlyResponsesAwaited(c)
    requires forall i :: 0 <= i < |steps| && steps[i].Register? ==> steps[i].kind == WhenResponse
    requires forall i :: 0 <= i < |steps| ==> !steps[i].Abandon?
    ensures OnlyResponsesAwaited(After(c, steps))
    decreases |steps|
  {
    if steps != [] {
      PoisonedIff(c, steps[0]);
      NeverPoisoned(Apply(c, steps[0]), steps[1..]);
    }
  }

  // ---------------------------------------------------------------------------
  // The connection as an object
  // ---------------------------------------------------------------------------

  /** How writing a message to the socket can go. */
  datatype Write = Written | NotWritten | NotFlushed

  function SubmitSteps(c: Conn, id: i32, kind: Kind, bytes: Bytes): seq<Step> {
    if kind == Nothing then []
    else if kind == WhenSent then [Enqueue(bytes, true)]
    else if c.poisoned then [Register(id, kind)]
    else [Register(id, kind), Enqueue(bytes, false)]
  }

  function MessageSteps(c: Conn, write: Write): seq<Step>
    requires c.queue != []
  {
    if c.queue[0].bytes == [] || write == Written then [Take, Finish]
    else if write == NotWritten then [Take, WriteFails]
    else [Take, ReceiverLost]
  }

  ghost predicate IsRun(c: Conn, steps: seq<Step>, d: Conn) {
    Runs(c, steps) && After(c, steps) == d
  }

  lemma OneStep(c: Conn, step: Step)
    requires Enabled(c, step)
    ensures IsRun(c, [step], Apply(c, step))
  {
    assert [step][1..] == [];
  }

  lemma TwoSteps(c: Conn, one: Step, two: Step)
    requires Enabled(c, one) && Enabled(Apply(c, one), two)
    ensures IsRun(c, [one, two], Apply(Apply(c, one), two))
  {
    assert [one, two][1..] == [two];
    OneStep(Apply(c, one), two);
  }

  /** Draining has got as far as `order`. */
  ghost predicate Partly(order: seq<i32>, rest: map<i32, Listener>, all: map<i32, Listener>) {
    && (forall id :: id in all <==> id in order || id in rest)
    && (forall id :: id in rest ==> id !in order && rest[id] == all[id])
    && (forall i, j :: 0 <= i < j < |order| ==> order[i] != order[j])
  }

  lemma PartlyAnother(order: seq<i32>, rest: map<i32, Listener>, all: map<i32, Listener>, id: i32)
    requires Partly(order, rest, all) && id in rest
    ensures Partly(order + [id], rest - {id}, all)
    ensures Tabled(order + [id], all) == Tabled(order, all) + [rest[id].number]
  {
    assert (order + [id])[..|order|] == order;
    assert (rest - {id}).Keys == rest.Keys - {id};
  }

  lemma OneFewer(rest: map<i32, Listener>, id: i32)
    requires id in rest
    ensures |rest - {id}| < |rest|
  {
    assert (rest - {id}).Keys == rest.Keys - {id};
  }

  /** What draining these listeners has told and dropped, and whether it has panicked. */
  ghost predicate Drained(listeners: seq<nat>, gone: set<nat>, told0: seq<Outcome>, dropped0: seq<nat>,
                          told: seq<Outcome>, dropped: seq<nat>, panics: bool)
  {
    var front := UpToGone(listeners, gone);
    && panics == (|front| < |listeners|)
    && told == told0 + AllTold(front, Closed)
    && dropped == dropped0 + listeners[|front|..]
  }

  lemma DrainedAnother(listeners: seq<nat>, gone: set<nat>, told0: seq<Outcome>, dropped0: seq<nat>,
                       told: seq<Outcome>, dropped: seq<nat>, panics: bool, n: nat)
    requires Drained(listeners, gone, told0, dropped0, told, dropped, panics)
    ensures if panics || n in gone
            then Drained(listeners + [n], gone, told0, dropped0, told, dropped + [n], true)
            else Drained(listeners + [n], gone, told0, dropped0, told + [Outcome(n, Closed)], dropped, false)
  {
    var more, front := listeners + [n], UpToGone(listeners, gone);
    assert more[..|listeners|] == listeners;
    if panics || n in gone {
      assert more[|front|..] == listeners[|front|..] + [n];
    } else {
      assert AllTold(more, Closed) == AllTold(listeners, Closed) + [Outcome(n, Closed)];
      assert more[|more|..] == [] == listeners[|front|..];
    }
  }

  lemma DrainIs(c: Conn, order: seq<i32>)
    requires !c.poisoned && IsOrderOf(order, c.requests)
    ensures Enabled(c, Drain(order))
    ensures var listeners := Tabled(order, c.requests);
            var front := UpToGone(listeners, c.gone);
            Apply(c, Drain(order)) ==
            c.(requests := map[], poisoned := |front| < |listeners|, told := c.told + AllTold(front, Closed),
               dropped := c.dropped + listeners[|front|..])
  {
  }

  /** Draining has come as far as these listeners of the table. */
  ghost predicate DrainedTo(order: seq<i32>, rest: map<i32, Listener>, all: map<i32, Listener>, gone: set<nat>,
                            told0: seq<Outcome>, dropped0: seq<nat>, told: seq<Outcome>, dropped: seq<nat>, panics: bool)
  {
    Partly(order, rest, all) && Drained(Tabled(order, all), gone, told0, dropped0, told, dropped, panics)
  }

  lemma DrainBegins(all: map<i32, Listener>, gone: set<nat>, told0: seq<Outcome>, dropped0: seq<nat>)
    ensures DrainedTo([], all, all, gone, told0, dropped0, told0, dropped0, false)
  {
    assert told0 + [] == told0 && dropped0 + [] == dropped0;
  }

  lemma DrainDrops(order: seq<i32>, rest: map<i32, Listener>, all: map<i32, Listener>, gone: set<nat>,
                   told0: seq<Outcome>, dropped0: seq<nat>, told: seq<Outcome>, dropped: seq<nat>, panics: bool, id: i32)
    requires DrainedTo(order, rest, all, gone, told0, dropped0, told, dropped, panics)
    requires id in rest && (panics || rest[id].number in gone)
    ensures DrainedTo(order + [id], rest - {id}, all, gone, told0, dropped0, told, dropped + [rest[id].number], true)
  {
    PartlyAnother(order, rest, all, id);
    DrainedAnother(Tabled(order, all), gone, told0, dropped0, told, dropped, panics, rest[id].number);
  }

  lemma DrainTells(order: seq<i32>, rest: map<i32, Listener>, all: map<i32, Listener>, gone: set<nat>,
                   told0: seq<Outcome>, dropped0: seq<nat>, told: seq<Outcome>, dropped: seq<nat>, id: i32)
    requires DrainedTo(order, rest, all, gone, told0, dropped0, told, dropped, false)
    requires id in rest && rest[id].number !in gone
    ensures var more := told + [Outcome(rest[id].number, Closed)];
            DrainedTo(order + [id], rest - {id}, all, gone, told0, dropped0, more, dropped, false)
  {
    PartlyAnother(order, rest, all, id);
    DrainedAnother(Tabled(order, all), gone, told0, dropped0, told, dropped, false, rest[id].number);
  }

  lemma ToldCons(told: seq<Outcome>, n: nat, rest: seq<nat>, reply: Reply)
    ensures told + AllTold([n] + rest, reply) == told + [Outcome(n, reply)] + AllTold(rest, reply)
  {
  }

  lemma TellFirst(told: seq<Outcome>, dropped: seq<nat>, queue: seq<Item>, gone: set<nat>)
    requires queue != []
    ensures var first, rest := queue[0].listener, Listeners(queue[1..]);
            && told + AllTold(Hearing(Listeners(queue), gone), Closed) ==
               (if first.Some? && first.value !in gone then told + [Outcome(first.value, Closed)] else told)
               + AllTold(Hearing(rest, gone), Closed)
            && dropped + Deaf(Listeners(queue), gone) ==
               (if first.Some? && first.value in gone then dropped + [first.value] else dropped) + Deaf(rest, gone)
  {
    var first, rest := queue[0].listener, Listeners(queue[1..]);
    if first.Some? {
      var n := first.value;
      assert Listeners(queue) == [n] + rest;
      assert ([n] + rest)[1..] == rest;
      if n in gone {
        assert Deaf([n] + rest, gone) == [n] + Deaf(rest, gone);
      } else {
        ToldCons(told, n, Hearing(rest, gone), Closed);
      }
    } else {
      assert Listeners(queue) == rest;
    }
  }

  lemma SplitOne(told: seq<Outcome>, dropped: seq<nat>, item: Item, gone: set<nat>)
    ensures var n := item.listener;
            && told + AllTold(Hearing(Listeners([item]), gone), Sent) ==
               (if n.Some? && n.value !in gone then told + [Outcome(n.value, Sent)] else told)
            && dropped + Deaf(Listeners([item]), gone) ==
               (if n.Some? && n.value in gone then dropped + [n.value] else dropped)
  {
    HearingOne(item, gone);
    assert told + [] == told && dropped + [] == dropped;
  }

  /** How handling a response ends: `Unsolicited` is the error for a response nobody asked for. */
  datatype Handled = Delivered | Unsolicited | Panics

  class PeerConnection {
    var requests: map<i32, Listener>
    var poisoned: bool
    var queue: seq<Item>
    var phase: Phase
    var wire: seq<Packet>
    var accepted: seq<Item>
    var done: seq<Item>
    var born: seq<Birth>
    var told: seq<Outcome>
    var dropped: seq<nat>
    var gone: set<nat>

    ghost function State(): Conn
      reads this
    {
      Conn(requests, poisoned, queue, phase, wire, accepted, done, born, told, dropped, gone)
    }

    constructor ()
      ensures State() == INITIAL
    {
      requests, poisoned, queue, phase := map[], false, [], Greeting;
      wire, accepted, done, born, told, dropped, gone := [], [], [], [], [], [], {};
    }

    /** Sending into a full queue waits, so there is room when it happens. */
    method Send(bytes: Bytes, whenSent: bool)
      requires Enabled(State(), Enqueue(bytes, whenSent))
      modifies this
      ensures State() == Apply(old(State()), Enqueue(bytes, whenSent))
    {
      var listener := if whenSent then Some(|born|) else None;
      if phase.Stopped? {
        if whenSent {
          dropped := dropped + [|born|];
          born := born + [Refused];
        }
      } else {
        if whenSent {
          born := born + [WithMessage(|accepted|)];
        }
        queue := queue + [Item(bytes, listener)];
        accepted := accepted + [Item(bytes, listener)];
      }
    }

    method SubmitMessage(bytes: Bytes)
      requires Enabled(State(), Enqueue(bytes, false))
      modifies this
      ensures State() == Apply(old(State()), Enqueue(bytes, false))
    {
      Send(bytes, false);
    }

    method Insert(id: i32, kind: Kind)
      modifies this
      ensures State() == Apply(old(State()), Register(id, kind))
    {
      var number := |born|;
      born := born + [InTable(id, kind)];
      if poisoned {
        dropped := dropped + [number];
      } else {
        if id in requests {
          dropped := dropped + [requests[id].number];
        }
        requests := requests[id := Listener(number, kind)];
      }
    }

    /** Up to the wait for the answer. A caller that does not panic waits as the newest listener. */
    method SubmitRequest(id: i32, kind: Kind, bytes: Bytes) returns (listener: Option<nat>)
      requires Enabled(State(), Enqueue(bytes, kind == WhenSent))
      modifies this
      ensures listener == if kind == Nothing || (kind != WhenSent && old(poisoned)) then None else Some(old(|born|))
      ensures listener.Some? ==> |born| == old(|born|) + 1
      ensures IsRun(old(State()), SubmitSteps(old(State()), id, kind, bytes), State())
    {
      ghost var before := State();
      if kind == Nothing {
        return None;
      }
      listener := Some(|born|);
      if kind == WhenSent {
        Send(bytes, true);
        OneStep(before, Enqueue(bytes, true));
        return;
      }
      Insert(id, kind);
      if poisoned {
        OneStep(before, Register(id, kind));
        return None;
      }
      Send(bytes, false);
      TwoSteps(before, Register(id, kind), Enqueue(bytes, false));
    }

    /** What the wait at the end of `submit_request` sees now. */
    method Await(n: nat) returns (answer: Answer)
      ensures answer == AnswerFor(State(), n)
    {
      var reply := FindTold(told, n);
      if reply.Some? {
        return Answered(reply.value);
      }
      answer := if n in dropped then ConnectionClosed else Waiting;
    }

    method HandleResponse(id: i32, body: Bytes) returns (result: Handled)
      modifies this
      ensures State() == Apply(old(State()), Respond(id, body))
      ensures result == if old(poisoned) then Panics
                        else if id !in old(requests) then Unsolicited
                        else if poisoned then Panics else Delivered
      ensures result == Delivered ==>
                told == old(told) + [Outcome(old(requests)[id].number, Response(id, body))] && requests == old(requests) - {id}
    {
      if poisoned {
        return Panics;
      }
      if id !in requests {
        return Unsolicited;
      }
      var listener := requests[id];
      requests := requests - {id};
      if listener.kind == WhenResponse && listener.number !in gone {
        told := told + [Outcome(listener.number, Response(id, body))];
        result := Delivered;
      } else {
        dropped := dropped + [listener.number];
        poisoned := true;
        result := Panics;
      }
    }

    method TellQueue()
      modifies `queue, `told, `dropped
      ensures queue == []
      ensures told == old(told) + AllTold(Hearing(Listeners(old(queue)), gone), Closed)
      ensures dropped == old(dropped) + Deaf(Listeners(old(queue)), gone)
    {
      ghost var allTold := told + AllTold(Hearing(Listeners(queue), gone), Closed);
      ghost var allDropped := dropped + Deaf(Listeners(queue), gone);
      while queue != []
        invariant told + AllTold(Hearing(Listeners(queue), gone), Closed) == allTold
        invariant dropped + Deaf(Listeners(queue), gone) == allDropped
        decreases |queue|
      {
        var item := queue[0];
        TellFirst(told, dropped, queue, gone);
        if item.listener.Some? {
          if item.listener.value in gone {
            dropped := dropped + [item.listener.value];
          } else {
            told := told + [Outcome(item.listener.value, Closed)];
          }
        }
        queue := queue[1..];
      }
      assert told + [] == told && dropped + [] == dropped;
    }

    /** After telling the queue the writer returns, and what it holds goes with it. */
    method CloseReceiver()
      modifies this
      ensures State() == DoClose(old(State()))
    {
      TellQueue();
      dropped := dropped + Listeners(if phase.Writing? then [phase.item] else []);
      phase := Stopped;
    }

    method LoseReceiver()
      modifies this
      ensures State() == DoLose(old(State()))
    {
      dropped := dropped + Listeners(if phase.Writing? then [phase.item] else []) + Listeners(queue);
      queue := [];
      phase := Stopped;
    }

    method FinishMessage()
      requires phase.Writing?
      modifies this
      ensures State() == DoFinish(old(State()))
    {
      var item := phase.item;
      if item.bytes != [] {
        wire := wire + [Message(item.bytes)];
      }
      SplitOne(told, dropped, item, gone);
      if item.listener.Some? {
        if item.listener.value in gone {
          dropped := dropped + [item.listener.value];
        } else {
          told := told + [Outcome(item.listener.value, Sent)];
        }
      }
      done := done + [item];
      phase := Idle;
    }

    method TakeMessage() returns (item: Item)
      requires Enabled(State(), Take)
      modifies this
      ensures item == old(queue)[0] && State() == Apply(old(State()), Take)
    {
      item := queue[0];
      queue := queue[1..];
      phase := Writing(item);
    }

    /** One round of the writer with a message from the queue. */
    method HandleMessage(write: Write)
      requires Enabled(State(), Take)
      modifies this
      ensures IsRun(old(State()), MessageSteps(old(State()), write), State())
    {
      ghost var before := State();
      var item := TakeMessage();
      if item.bytes != [] && write == NotWritten {
        CloseReceiver();
        TwoSteps(before, Take, WriteFails);
      } else if item.bytes != [] && write == NotFlushed {
        LoseReceiver();
        TwoSteps(before, Take, ReceiverLost);
      } else {
        FinishMessage();
        TwoSteps(before, Take, Finish);
      }
    }

    /** Tells the listener under this id that the connection closed; once a caller is gone, the rest are dropped. */
    method TellEntry(id: i32, failed: bool, ghost order: seq<i32>, ghost all: map<i32, Listener>,
                     ghost told0: seq<Outcome>, ghost dropped0: seq<nat>) returns (panics: bool)
      requires DrainedTo(order, requests, all, gone, told0, dropped0, told, dropped, failed) && id in requests
      modifies `requests, `told, `dropped
      ensures requests == old(requests) - {id}
      ensures DrainedTo(order + [id], requests, all, gone, told0, dropped0, told, dropped, panics)
    {
      panics := failed || requests[id].number in gone;
      if panics {
        DrainDrops(order, requests, all, gone, told0, dropped0, told, dropped, failed, id);
        dropped := dropped + [requests[id].number];
      } else {
        DrainTells(order, requests, all, gone, told0, dropped0, told, dropped, id);
        told := told + [Outcome(requests[id].number, Closed)];
      }
      requests := requests - {id};
    }

    method TellTable() returns (panics: bool, ghost order: seq<i32>)
      modifies `requests, `told, `dropped
      ensures IsOrderOf(order, old(requests)) && requests == map[]
      ensures var listeners := Tabled(order, old(requests));
              var front := UpToGone(listeners, gone);
              && panics == (|front| < |listeners|)
              && told == old(told) + AllTold(front, Closed)
              && dropped == old(dropped) + listeners[|front|..]
    {
      panics, order := false, [];
      ghost var all, told0, dropped0 := requests, told, dropped;
      DrainBegins(all, gone, told0, dropped0);
      while |requests| > 0
        invariant DrainedTo(order, requests, all, gone, told0, dropped0, told, dropped, panics)
        decreases |requests|
      {
        var id :| id in requests;
        OneFewer(requests, id);
        panics := TellEntry(id, panics, order, all, told0, dropped0);
        order := order + [id];
      }
    }

    /** Tells everyone in the table that the connection closed, in some order, until a send fails; a poisoned lock panics. */
    method DrainRequests() returns (panics: bool, ghost order: seq<i32>)
      modifies this
      ensures panics == poisoned
      ensures old(poisoned) ==> State() == old(State())
      ensures !old(poisoned) ==> IsOrderOf(order, old(requests)) && State() == Apply(old(State()), Drain(order))
    {
      if poisoned {
        return true, [];
      }
      ghost var before := State();
      panics, order := TellTable();
      poisoned := panics;
      DrainIs(before, order);
    }
  }
}
