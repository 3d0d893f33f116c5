/**
  The subscriber manager's state and its two operations, as values: a
  fixed array of seventeen handler slots with an occupancy counter,
  `add_subscriber`, which appends while a slot is free, and
  `process_all`, which routes one inbound transfer to the registered
  handlers whose port identifier equals the transfer's.
 */
module SubscriberRegistry {
  import opened CyphalTypes
  import opened Subscribers

  /** Size of the slot array: five default node services plus four
      ESC handlers of three ports each. */
  const MaxNumberOfSubscribers: nat := 17

  /** The manager's fields: the occupancy counter and the slot array. The
      firmware leaves slots past the counter uninitialised and never reads
      them; the model writes `None` there by convention. */
  datatype Registry = Registry(count: nat, slots: seq<Option<Subscriber>>)
  {
    /** The occupied slots form a prefix of the fixed-size array, and each
        holds a properly constructed subscriber. */
    predicate Valid() {
      && |slots| == MaxNumberOfSubscribers
      && count <= MaxNumberOfSubscribers
      && (forall i :: 0 <= i < count ==> slots[i].Some? && slots[i].value.Valid())
      && (forall i :: count <= i < |slots| ==> slots[i].None?)
    }

    /** The subscriber in occupied slot `i`. */
    function At(i: nat): Subscriber
      requires Valid() && i < count
    {
      slots[i].value
    }

    /** The registered subscribers in insertion order. */
    function Registered(): (r: seq<Subscriber>)
      requires Valid()
      ensures |r| == count
      ensures forall i :: 0 <= i < count ==> slots[i] == Some(r[i])
    {
      seq(count, i requires 0 <= i < count => slots[i].value)
    }
  }

  /** A freshly constructed manager holds no subscriber. */
  function NewRegistry(): (r: Registry)
    ensures r.Valid()
    ensures r.count == 0 && r.Registered() == []
  {
    Registry(0, seq(MaxNumberOfSubscribers, _ => None))
  }

  /** The outcome of `add_subscriber`: the new state and the returned flag. */
  datatype AddResult = AddResult(registry: Registry, added: bool)

  /** `add_subscriber`: fails on a full array, leaving everything as it
      was; otherwise fills slot `count` and bumps the counter. */
  function AddSubscriber(reg: Registry, s: Subscriber): (r: AddResult)
    requires reg.Valid() && s.Valid()
    ensures r.registry.Valid()
    ensures r.added <==> reg.count < MaxNumberOfSubscribers
    ensures !r.added ==> r.registry == reg
    ensures r.added ==> r.registry.count == reg.count + 1
    ensures r.added ==> r.registry.slots[reg.count] == Some(s)
    ensures forall i :: 0 <= i < reg.count ==> r.registry.slots[i] == reg.slots[i]
    ensures r.added ==> r.registry.Registered() == reg.Registered() + [s]
  {
    if reg.count < MaxNumberOfSubscribers then
      var reg' := Registry(reg.count + 1, reg.slots[reg.count := Some(s)]);
      assert reg'.Registered() == reg.Registered() + [s];
      AddResult(reg', true)
    else
      AddResult(reg, false)
  }

  /** Every subscriber in the list is properly constructed. */
  predicate AllValid(ss: seq<Subscriber>) {
    forall i :: 0 <= i < |ss| ==> ss[i].Valid()
  }

  /** The state and the returned flags after a run of start-of-day
      registrations. */
  datatype Setup = Setup(registry: Registry, added: seq<bool>)

  /** Calls `add_subscriber` on each subscriber of `ss` in turn. */
  function AddAll(reg: Registry, ss: seq<Subscriber>): (r: Setup)
    requires reg.Valid() && AllValid(ss)
    ensures r.registry.Valid() && |r.added| == |ss|
    decreases |ss|
  {
    if ss == [] then Setup(reg, [])
    else
      var first := AddSubscriber(reg, ss[0]);
      var rest := AddAll(first.registry, ss[1..]);
      Setup(rest.registry, [first.added] + rest.added)
  }

  function Min(a: nat, b: nat): nat {
    if a <= b then a else b
  }

  /** A run of registrations appends the subscribers in call order until
      the array is full and ignores the rest. */
  lemma {:induction false} AddAllFillsInOrder(reg: Registry, ss: seq<Subscriber>)
    requires reg.Valid() && AllValid(ss)
    ensures var n := Min(|ss|, MaxNumberOfSubscribers - reg.count);
      && AddAll(reg, ss).registry.count == reg.count + n
      && AddAll(reg, ss).registry.Registered() == reg.Registered() + ss[..n]
    decreases |ss|
  {
    if ss != [] {
      var first := AddSubscriber(reg, ss[0]);
      var rest := AddAll(first.registry, ss[1..]);
      assert AddAll(reg, ss).registry == rest.registry;
      var n := Min(|ss|, MaxNumberOfSubscribers - reg.count);
      if first.added {
        var before := reg.Registered();
        assert rest.registry.Registered() == (before + [ss[0]]) + ss[1..][..n - 1] by {
          AddAllFillsInOrder(first.registry, ss[1..]);
          assert Min(|ss[1..]|, MaxNumberOfSubscribers - first.registry.count) == n - 1;
        }
        ConsPrefix(before, ss, n);
      } else {
        AddAllFull(reg, ss[1..]);
      }
    }
  }

  /** Appending the head of `ss` and then a prefix of its tail appends a
      prefix of `ss`. */
  lemma ConsPrefix<T>(before: seq<T>, ss: seq<T>, n: nat)
    requires 1 <= n <= |ss|
    ensures (before + [ss[0]]) + ss[1..][..n - 1] == before + ss[..n]
  {
  }

  /** A run of registrations succeeds exactly while slots remain. */
  lemma {:induction false} AddAllAcceptsWhileRoom(reg: Registry, ss: seq<Subscriber>)
    requires reg.Valid() && AllValid(ss)
    ensures forall k :: 0 <= k < |ss| ==>
      (AddAll(reg, ss).added[k] <==> reg.count + k < MaxNumberOfSubscribers)
    decreases |ss|
  {
    if ss != [] {
      var first := AddSubscriber(reg, ss[0]);
      AddAllAcceptsWhileRoom(first.registry, ss[1..]);
      var r := AddAll(reg, ss);
      var rest := AddAll(first.registry, ss[1..]);
      assert r.added == [first.added] + rest.added;
      if first.added {
        assert first.registry.count == reg.count + 1;
      } else {
        AddAllFull(reg, ss[1..]);
      }
      forall k | 0 <= k < |ss|
        ensures r.added[k] <==> reg.count + k < MaxNumberOfSubscribers
      {
        if k > 0 {
          assert r.added[k] == rest.added[k - 1];
        }
      }
    }
  }

  /** On a full array every further registration is refused and nothing
      changes. */
  lemma {:induction false} AddAllFull(reg: Registry, ss: seq<Subscriber>)
    requires reg.Valid() && AllValid(ss) && reg.count == MaxNumberOfSubscribers
    ensures AddAll(reg, ss).registry == reg
    ensures forall k :: 0 <= k < |ss| ==> !AddAll(reg, ss).added[k]
    decreases |ss|
  {
    if ss != [] {
      AddAllFull(reg, ss[1..]);
    }
  }

  /** True when the subscriber in occupied slot `i` listens on port `p`. */
  predicate MatchesAt(reg: Registry, p: PortId, i: nat)
    requires reg.Valid()
  {
    i < reg.count && reg.At(i).GetPortId() == p
  }

  /** `invoked` lists, in slot order, exactly the occupied slots whose
      subscriber listens on `p`. */
  predicate Routes(reg: Registry, p: PortId, invoked: seq<nat>)
    requires reg.Valid()
  {
    && (forall k :: 0 <= k < |invoked| ==> MatchesAt(reg, p, invoked[k]))
    && Increasing(invoked)
    && (forall i :: 0 <= i < reg.count && MatchesAt(reg, p, i) ==> i in invoked)
  }

  /** The transfers emitted by the handlers in `invoked`, in that order. */
  function Emitted(reg: Registry, invoked: seq<nat>, t: RxTransfer, respond: Responder)
    : (out: seq<TxTransfer>)
    requires reg.Valid()
    requires forall k :: 0 <= k < |invoked| ==> invoked[k] < reg.count
    decreases |invoked|
  {
    if invoked == [] then []
    else
      var last := invoked[|invoked| - 1];
      Emitted(reg, invoked[..|invoked| - 1], t, respond) + Handle(reg.At(last), t, respond)
  }

  /** Running one more handler appends what it emits. */
  lemma EmittedSnoc(reg: Registry, invoked: seq<nat>, i: nat, t: RxTransfer, respond: Responder)
    requires reg.Valid() && i < reg.count
    requires forall k :: 0 <= k < |invoked| ==> invoked[k] < reg.count
    ensures Emitted(reg, invoked + [i], t, respond)
      == Emitted(reg, invoked, t, respond) + Handle(reg.At(i), t, respond)
  {
  }

  /** Handlers invoked for a transfer on port `p` only ever emit responses
      under the template of `p`. */
  lemma {:induction false} EmittedUnderTemplate(
    reg: Registry, p: PortId, invoked: seq<nat>, t: RxTransfer, respond: Responder)
    requires reg.Valid()
    requires forall k :: 0 <= k < |invoked| ==> invoked[k] < reg.count && MatchesAt(reg, p, invoked[k])
    ensures forall k :: 0 <= k < |Emitted(reg, invoked, t, respond)| ==>
      Emitted(reg, invoked, t, respond)[k].metadata == ResponseTemplate(p)
    decreases |invoked|
  {
    if invoked != [] {
      var prefix := invoked[..|invoked| - 1];
      assert forall k :: 0 <= k < |prefix| ==> prefix[k] == invoked[k];
      EmittedUnderTemplate(reg, p, prefix, t, respond);
      assert MatchesAt(reg, p, invoked[|invoked| - 1]);
    }
  }

  /** The slots below `i` have been scanned: `invoked` lists, in slot
      order, exactly those among them whose subscriber listens on `p`. */
  predicate ScannedUpTo(reg: Registry, p: PortId, invoked: seq<nat>, i: nat)
    requires reg.Valid()
  {
    && i <= reg.count
    && (forall k :: 0 <= k < |invoked| ==> MatchesAt(reg, p, invoked[k]) && invoked[k] < i)
    && Increasing(invoked)
    && (forall j :: 0 <= j < i && MatchesAt(reg, p, j) ==> j in invoked)
  }

  /** Scanning one more slot keeps the scan exact. */
  lemma ScanStep(reg: Registry, p: PortId, invoked: seq<nat>, i: nat)
    requires reg.Valid() && i < reg.count
    requires ScannedUpTo(reg, p, invoked, i)
    ensures MatchesAt(reg, p, i) ==> ScannedUpTo(reg, p, invoked + [i], i + 1)
    ensures !MatchesAt(reg, p, i) ==> ScannedUpTo(reg, p, invoked, i + 1)
  {
  }

  /** `process_all`: scans the occupied slots in insertion order and runs
      the handler of every subscriber whose port identifier equals the
      transfer's. Returns the slots it invoked and the transfers the
      handlers pushed. The registry itself is left untouched. */
  method ProcessAll(reg: Registry, t: RxTransfer, respond: Responder)
    returns (invoked: seq<nat>, responses: seq<TxTransfer>)
    requires reg.Valid()
    ensures Routes(reg, t.portId, invoked)
    ensures responses == Emitted(reg, invoked, t, respond)
    ensures forall k :: 0 <= k < |responses| ==>
      responses[k].metadata == TransferMetadata(Nominal, Response, t.portId)
    ensures invoked == [] <==> forall i :: 0 <= i < reg.count ==> !MatchesAt(reg, t.portId, i)
    ensures invoked == [] ==> responses == []
  {
    invoked := [];
    responses := [];
    var i := 0;
    while i < reg.count
      invariant ScannedUpTo(reg, t.portId, invoked, i)
      invariant responses == Emitted(reg, invoked, t, respond)
    {
      ScanStep(reg, t.portId, invoked, i);
      var s := reg.At(i);
      if s.GetPortId() == t.portId {
        EmittedSnoc(reg, invoked, i, t, respond);
        responses := responses + Handle(s, t, respond);
        invoked := invoked + [i];
      }
      i := i + 1;
    }
    RoutedOutcome(reg, t, respond, invoked);
  }

  /** What routing guarantees about its outcome: nothing runs exactly when
      no registered subscriber listens on the port, and then nothing is
      emitted; whatever is emitted is a response on the transfer's port. */
  lemma RoutedOutcome(reg: Registry, t: RxTransfer, respond: Responder, invoked: seq<nat>)
    requires reg.Valid()
    requires Routes(reg, t.portId, invoked)
    ensures invoked == [] <==> forall i :: 0 <= i < reg.count ==> !MatchesAt(reg, t.portId, i)
    ensures invoked == [] ==> Emitted(reg, invoked, t, respond) == []
    ensures forall k :: 0 <= k < |Emitted(reg, invoked, t, respond)| ==>
      Emitted(reg, invoked, t, respond)[k].metadata == TransferMetadata(Nominal, Response, t.portId)
  {
    assert invoked != [] ==> MatchesAt(reg, t.portId, invoked[0]);
    EmittedUnderTemplate(reg, t.portId, invoked, t, respond);
  }

  /** No two registered subscribers share a port identifier. */
  predicate UniquePortIds(reg: Registry)
    requires reg.Valid()
  {
    forall i, j :: 0 <= i < j < reg.count ==> reg.At(i).GetPortId() != reg.At(j).GetPortId()
  }

  /** The "first match" reading of routing: the lowest occupied slot at or
      after `from` whose subscriber listens on `p`. */
  function FirstMatch(reg: Registry, p: PortId, from: nat): (r: Option<nat>)
    requires reg.Valid()
    ensures r.Some? ==> from <= r.value && MatchesAt(reg, p, r.value)
    ensures r.Some? ==> forall j :: from <= j < r.value ==> !MatchesAt(reg, p, j)
    ensures r.None? ==> forall j :: from <= j ==> !MatchesAt(reg, p, j)
    decreases reg.count - from
  {
    if from >= reg.count then None
    else if reg.At(from).GetPortId() == p then Some(from)
    else FirstMatch(reg, p, from + 1)
  }

  /** With unique port identifiers at most one handler runs, and it is the
      first match: the "every match" and "first match" readings agree. */
  lemma UniqueRoutingIsFirstMatch(reg: Registry, p: PortId, invoked: seq<nat>)
    requires reg.Valid() && UniquePortIds(reg)
    requires Routes(reg, p, invoked)
    ensures |invoked| <= 1
    ensures invoked == match FirstMatch(reg, p, 0) case None => [] case Some(i) => [i]
  {
    assert invoked != [] ==> MatchesAt(reg, p, invoked[0]);
    match FirstMatch(reg, p, 0)
    case None =>
    case Some(i) =>
      forall x
        ensures x in invoked <==> x in [i]
      {
        if x in invoked {
          var k :| 0 <= k < |invoked| && invoked[k] == x;
          assert MatchesAt(reg, p, x);
        }
      }
      IncreasingSameElements(invoked, [i]);
  }

  /** Strictly increasing, hence free of duplicates. */
  predicate Increasing(s: seq<nat>) {
    forall k, l :: 0 <= k < l < |s| ==> s[k] < s[l]
  }

  /** The tail of an increasing list holds exactly its elements other
      than the head. */
  lemma IncreasingTail(a: seq<nat>, x: nat)
    requires Increasing(a) && a != []
    ensures Increasing(a[1..])
    ensures x in a[1..] <==> x in a && x != a[0]
  {
  }

  /** The head of an increasing list is its least element. */
  lemma IncreasingHead(a: seq<nat>, x: nat)
    requires Increasing(a) && x in a
    ensures a[0] <= x
  {
  }

  /** Increasing lists with the same elements are equal. */
  lemma {:induction false} IncreasingSameElements(a: seq<nat>, b: seq<nat>)
    requires Increasing(a) && Increasing(b)
    requires forall x :: x in a <==> x in b
    ensures a == b
    decreases |a|
  {
    assert a != [] ==> a[0] in b;
    assert b != [] ==> b[0] in a;
    if a != [] && b != [] {
      IncreasingHead(a, b[0]);
      IncreasingHead(b, a[0]);
      forall x
        ensures x in a[1..] <==> x in b[1..]
      {
        IncreasingTail(a, x);
        IncreasingTail(b, x);
      }
      IncreasingTail(a, 0);
      IncreasingTail(b, 0);
      IncreasingSameElements(a[1..], b[1..]);
      assert a == [a[0]] + a[1..] && b == [b[0]] + b[1..];
    }
  }

  /** Routing depends on the transfer's port identifier alone: any two
      routings for the same port (whatever the kinds and payloads) invoke
      the same slots in the same order. */
  lemma RoutingDependsOnlyOnPort(reg: Registry, p: PortId, invoked1: seq<nat>, invoked2: seq<nat>)
    requires reg.Valid()
    requires Routes(reg, p, invoked1) && Routes(reg, p, invoked2)
    ensures invoked1 == invoked2
  {
    forall x
      ensures x in invoked1 <==> x in invoked2
    {
      if x in invoked1 {
        var k :| 0 <= k < |invoked1| && invoked1[k] == x;
        assert MatchesAt(reg, p, x);
      }
      if x in invoked2 {
        var k :| 0 <= k < |invoked2| && invoked2[k] == x;
        assert MatchesAt(reg, p, x);
      }
    }
    IncreasingSameElements(invoked1, invoked2);
  }

  /** With unique port identifiers, a request routed to a request-class
      subscriber yields exactly one response under its template, and a
      transfer routed to a message-class subscriber yields none. */
  lemma OneResponsePerRequest(
    reg: Registry, i: nat, t: RxTransfer, respond: Responder, invoked: seq<nat>)
    requires reg.Valid() && UniquePortIds(reg)
    requires i < reg.count && reg.At(i).GetPortId() == t.portId
    requires Routes(reg, t.portId, invoked)
    ensures invoked == [i]
    ensures var out := Emitted(reg, invoked, t, respond);
      && (reg.At(i).IsRequest() ==> |out| == 1 && out[0].metadata == ResponseTemplate(t.portId))
      && (!reg.At(i).IsRequest() ==> out == [])
  {
    UniqueRoutingIsFirstMatch(reg, t.portId, invoked);
    assert i in invoked;
    assert invoked == [i];
    assert Emitted(reg, invoked, t, respond) == Emitted(reg, [], t, respond) + Handle(reg.At(i), t, respond);
  }

  /** A transfer the subscription of a registered subscriber delivers is
      routed to that subscriber. */
  lemma DeliveredTransferReachesHandler(reg: Registry, i: nat, t: RxTransfer, invoked: seq<nat>)
    requires reg.Valid() && i < reg.count
    requires Delivers(Subscribe(reg.At(i)), t)
    requires Routes(reg, t.portId, invoked)
    ensures i in invoked
  {
  }

  /** The three built-in node services, in an assumed start-of-day
      order. */
  function BuiltinSubscribers(nodeStatus: seq<bv8>): (ss: seq<Subscriber>)
    ensures AllValid(ss) && |ss| == 3
    ensures !ss[0].IsRequest() && ss[1].IsRequest() && ss[2].IsRequest()
  {
    [NewHeartbeat(), NewGetInfo(nodeStatus), NewExecuteCommand()]
  }

  /** Start-of-day registration of the three built-in node services: each
      call succeeds and they occupy the first three slots in call order. */
  lemma BuiltinSetup(nodeStatus: seq<bv8>)
    ensures var r := AddAll(NewRegistry(), BuiltinSubscribers(nodeStatus));
      && r.added == [true, true, true]
      && r.registry.Registered() == BuiltinSubscribers(nodeStatus)
  {
    var ss := BuiltinSubscribers(nodeStatus);
    AddAllFillsInOrder(NewRegistry(), ss);
    AddAllAcceptsWhileRoom(NewRegistry(), ss);
    var r := AddAll(NewRegistry(), ss);
    assert r.added[0] && r.added[1] && r.added[2];
    assert Min(|ss|, MaxNumberOfSubscribers) == 3;
    assert ss[..3] == ss;
  }

  /** After the built-in setup no two handlers share a port, so each
      built-in port routes to its own handler alone. */
  lemma BuiltinPortsUnique(nodeStatus: seq<bv8>)
    ensures UniquePortIds(AddAll(NewRegistry(), BuiltinSubscribers(nodeStatus)).registry)
  {
    BuiltinSetup(nodeStatus);
    var reg := AddAll(NewRegistry(), BuiltinSubscribers(nodeStatus)).registry;
    var ss := BuiltinSubscribers(nodeStatus);
    assert reg.count == 3;
    assert reg.At(0) == ss[0] && reg.At(1) == ss[1] && reg.At(2) == ss[2];
  }

  /** Routing looks at the port identifier only, while Cyphal keeps subject
      and service identifiers in separate namespaces: after the built-in
      setup, a message on subject 430 is handed to the GetInfo handler,
      which answers it. The GetInfo subscription itself never delivers
      such a transfer. */
  lemma MessageOnServicePortReachesGetInfo(
    nodeStatus: seq<bv8>, t: RxTransfer, respond: Responder, invoked: seq<nat>)
    requires t.kind == Message && t.portId == GetInfoPortId
    requires Routes(AddAll(NewRegistry(), BuiltinSubscribers(nodeStatus)).registry, t.portId, invoked)
    ensures invoked == [1]
    ensures |Emitted(AddAll(NewRegistry(), BuiltinSubscribers(nodeStatus)).registry, invoked, t, respond)| == 1
    ensures !Delivers(Subscribe(NewGetInfo(nodeStatus)), t)
  {
    var reg := AddAll(NewRegistry(), BuiltinSubscribers(nodeStatus)).registry;
    BuiltinSetup(nodeStatus);
    BuiltinPortsUnique(nodeStatus);
    assert reg.At(1) == NewGetInfo(nodeStatus);
    OneResponsePerRequest(reg, 1, t, respond, invoked);
  }
}
