/** Watch subscriptions: bounded channels that events are offered to, and the service
    object that buffers and fans out events. */
module Watch {
  import opened Text
  import opened Api
  import opened Ring
  import opened Collections

  const CHANNEL_SIZE := 64

  /** A subscription: a key prefix and what is waiting in its channel. */
  datatype Sub<T> = Sub(prefix: string, queue: seq<T>)

  predicate Takes<T>(sub: Sub<T>, key: string) {
    HasPrefix(key, sub.prefix) && |sub.queue| < CHANNEL_SIZE
  }

  /** A non-blocking send: taken if the prefix matches and there is room, else gone. */
  function Offer<T>(sub: Sub<T>, key: string, item: T): Sub<T> {
    if Takes(sub, key) then sub.(queue := sub.queue + [item]) else sub
  }

  /** A channel has room for 64 events; a matching event goes to its end while there is room. */
  lemma OfferMeans<T>(sub: Sub<T>, key: string, item: T)
    ensures Offer(sub, key, item).prefix == sub.prefix
    ensures Offer(sub, key, item).queue
         == sub.queue + if |sub.queue| < 64 && |sub.prefix| <= |key| && key[..|sub.prefix|] == sub.prefix
                        then [item] else []
  {
  }

  class Hub {
    const buffer: EventBuffer
    var subs: map<int, Sub<WatchEvent>>
    var watchSeq: int
    var closed: set<int>  // the subscriptions whose channel has been closed

    /** Every subscriber's channel is open. */
    ghost predicate Valid()
      reads this, buffer
    {
      && buffer.Valid() && buffer.size > 0 && 0 <= watchSeq && (forall id :: id in closed ==> id <= watchSeq)
      && forall id :: id in subs ==> 1 <= id <= watchSeq && |subs[id].queue| <= CHANNEL_SIZE && id !in closed
    }

    constructor (size: nat)
      requires size > 0
      ensures Valid() && fresh(buffer) && buffer.size == size && buffer.history == [] && subs.Keys == {} && closed == {}
    {
      buffer := new EventBuffer(size);
      subs, watchSeq, closed := map[], 0, {};
    }

    method Subscribe(prefix: string) returns (id: int)
      requires Valid()
      modifies this
      ensures Valid() && id !in old(subs) && subs == old(subs)[id := Sub(prefix, [])]
      ensures id !in old(closed) && closed == old(closed)
    {
      watchSeq := watchSeq + 1;
      id := watchSeq;
      subs := subs[id := Sub(prefix, [])];
    }

    /** The channel of a live subscription is closed, and no other is; a second call does nothing. */
    method Unsubscribe(id: int)
      requires Valid()
      modifies `subs, `closed
      ensures Valid() && subs == old(subs) - {id}
      ensures closed == old(closed) + if id in old(subs) then {id} else {}
    {
      if id in subs {
        assert id !in closed;
        closed := closed + {id};
        subs := subs - {id};
      }
    }

    /** Into the buffer first, then to every subscriber, in whatever order the map gives. */
    method PushWatchEvent(e: WatchEvent)
      requires Valid()
      modifies `subs, buffer
      ensures Valid() && buffer.history == old(buffer.history) + [e]
      ensures subs == map id | id in old(subs) :: Offer(old(subs)[id], e.key, e)
    {
      buffer.Push(e);
      DeliverToSubscribers(e);
    }

    method DeliverToSubscribers(e: WatchEvent)
      requires Valid()
      modifies `subs
      ensures Valid() && subs == map id | id in old(subs) :: Offer(old(subs)[id], e.key, e)
    {
      var order := Enumerate(subs.Keys);
      for n := 0 to |order|
        invariant subs.Keys == old(subs).Keys
        invariant forall id :: id in subs ==>
          subs[id] == if id in order[..n] then Offer(old(subs)[id], e.key, e) else old(subs)[id]
      {
        var id := order[n];
        var sub := subs[id];
        if (sub.prefix == "" || HasPrefix(e.key, sub.prefix)) && |sub.queue| < CHANNEL_SIZE {
          assert id !in closed;
          subs := subs[id := sub.(queue := sub.queue + [e])];
        }
      }
      assert order[..|order|] == order;
      ghost var offered := map id | id in old(subs) :: Offer(old(subs)[id], e.key, e);
      forall id | id in subs ensures subs[id] == offered[id] {
        assert id in order;
      }
      SameMap(subs, offered);
    }

    method Receive(id: int) returns (e: Option<WatchEvent>)
      requires Valid()
      modifies this
      ensures Valid()
      ensures if id in old(subs) && old(subs)[id].queue != []
              then && e == Some(old(subs)[id].queue[0])
                   && subs == old(subs)[id := old(subs)[id].(queue := old(subs)[id].queue[1..])]
              else e == None && subs == old(subs)
    {
      if id in subs && subs[id].queue != [] {
        var sub := subs[id];
        e := Some(sub.queue[0]);
        subs := subs[id := sub.(queue := sub.queue[1..])];
      } else {
        e := None;
      }
    }
  }
}
