/**
  The subscriber manager as the firmware lays it out: an object owning a
  fixed array of seventeen slots and an occupancy counter. Its operations
  are shown to behave exactly as the value-level model in
  `SubscriberRegistry` says.
 */
module Manager {
  import opened CyphalTypes
  import opened Subscribers
  import opened SubscriberRegistry

  class SubscriberManager {
    var numberOfSubscribers: nat
    const subscribers: array<Option<Subscriber>>

    /** The fields, read as a registry value. */
    function Model(): Registry
      reads this, subscribers
    {
      Registry(numberOfSubscribers, subscribers[..])
    }

    ghost predicate Valid()
      reads this, subscribers
    {
      Model().Valid()
    }

    /** A freshly constructed manager holds no subscriber. */
    constructor()
      ensures Valid() && Model() == NewRegistry()
      ensures fresh(subscribers)
      ensures numberOfSubscribers == 0
    {
      numberOfSubscribers := 0;
      subscribers := new Option<Subscriber>[MaxNumberOfSubscribers](_ => None);
      new;
      assert subscribers[..] == NewRegistry().slots;
    }

    /** `add_subscriber`: writes slot `numberOfSubscribers` and bumps the
        counter while the array has room; otherwise reports failure and
        changes nothing. */
    method AddSubscriber(s: Subscriber) returns (added: bool)
      requires Valid() && s.Valid()
      modifies this, subscribers
      ensures Valid()
      ensures SubscriberRegistry.AddSubscriber(old(Model()), s) == AddResult(Model(), added)
    {
      if numberOfSubscribers < MaxNumberOfSubscribers {
        subscribers[numberOfSubscribers] := Some(s);
        numberOfSubscribers := numberOfSubscribers + 1;
        added := true;
      } else {
        added := false;
      }
    }

    /** `process_all`: routes one transfer; the manager's state is only
        read. */
    method ProcessAll(t: RxTransfer, respond: Responder)
      returns (invoked: seq<nat>, responses: seq<TxTransfer>)
      requires Valid()
      ensures Routes(Model(), t.portId, invoked)
      ensures responses == Emitted(Model(), invoked, t, respond)
      ensures forall k :: 0 <= k < |responses| ==>
        responses[k].metadata == TransferMetadata(Nominal, Response, t.portId)
      ensures invoked == [] ==> responses == []
    {
      invoked, responses := SubscriberRegistry.ProcessAll(Model(), t, respond);
    }
  }
}
