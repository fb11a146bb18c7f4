/**
 * The receiver-key map of `EventLauncher` and the `FunctionSink` that fills
 * it. Receivers are opaque callback tokens; invoking them is not modelled.
 */
module Events {
  import opened Wrappers

  /** A callback stored in a launcher (an opaque token). */
  type Callback = nat

  /** `EventLauncher<R(Args...)>`: its receivers keyed by hash. */
  class EventLauncher {
    var receivers: map<nat, Callback>

    constructor()
      ensures receivers == map[]
    {
      receivers := map[];
    }

    /** `DisconnectReceiver(hash)`: erases the key, reporting whether it was present. */
    method DisconnectReceiver(hash: nat) returns (removed: bool)
      modifies this
      ensures removed <==> hash in old(receivers)
      ensures hash !in receivers
      ensures receivers == old(receivers) - {hash}
    {
      if hash in receivers {
        receivers := receivers - {hash};
        return true;
      }
      return false;
    }

    /** Copy-assignment: copies no receivers and leaves this launcher as it was. */
    method AssignFrom(other: EventLauncher) returns (self: EventLauncher)
      ensures self == this
      ensures receivers == old(receivers) && other.receivers == old(other.receivers)
    {
      return this;
    }
  }

  /** The function-local `static int count` of `Connect(func)`, which starts at 1. */
  class KeyCounter {
    var count: nat

    constructor()
      ensures count == 1
    {
      count := 1;
    }
  }

  /** `FunctionSink<R(Args...)>`: connects callbacks to one launcher. */
  class FunctionSink {
    const master: EventLauncher
    const counter: KeyCounter

    constructor(sink: EventLauncher, counter: KeyCounter)
      ensures master == sink && this.counter == counter
    {
      master := sink;
      this.counter := counter;
    }

    /**
     * `Connect(func)`: the key is the current count (the integer hash is the
     * identity), the count is incremented and the callback stored under the key,
     * replacing any receiver already there.
     */
    method Connect(func: Callback) returns (hash: nat)
      modifies master, counter
      ensures hash == old(counter.count) && counter.count == hash + 1
      ensures master.receivers == old(master.receivers)[hash := func]
    {
      hash := counter.count;
      counter.count := counter.count + 1;
      master.receivers := master.receivers[hash := func];
    }

    /** `Connect(key, func)`: stores the callback under the receiver's pointer hash. */
    method ConnectReceiver(keyHash: nat, func: Callback)
      modifies master
      ensures master.receivers == old(master.receivers)[keyHash := func]
    {
      master.receivers := master.receivers[keyHash := func];
    }

    /** `Disconnect(hashKey)`: forwards to the launcher. */
    method Disconnect(hashKey: nat) returns (removed: bool)
      modifies master
      ensures removed <==> hashKey in old(master.receivers)
      ensures master.receivers == old(master.receivers) - {hashKey}
    {
      removed := master.DisconnectReceiver(hashKey);
    }

    /**
     * `Disconnect(EventReceiver*)`: a null receiver (`None`) is refused;
     * otherwise its pointer hash is removed when present.
     */
    method DisconnectReceiver(key: Option<nat>) returns (removed: bool)
      modifies master
      ensures key.None? ==> !removed && master.receivers == old(master.receivers)
      ensures key.Some? ==> (removed <==> key.value in old(master.receivers))
      ensures key.Some? ==> master.receivers == old(master.receivers) - {key.value}
    {
      if key.None? {
        return false;
      }
      if key.value in master.receivers {
        var _ := master.DisconnectReceiver(key.value);
      } else {
        return false;
      }
      return true;
    }
  }

  /** Two connections through sinks sharing a counter get strictly increasing keys. */
  method ConnectTwice(sink: FunctionSink, f: Callback, g: Callback) returns (k1: nat, k2: nat)
    modifies sink.master, sink.counter
    ensures k1 < k2 && k2 == k1 + 1
    ensures sink.master.receivers == old(sink.master.receivers)[k1 := f][k2 := g]
  {
    k1 := sink.Connect(f);
    k2 := sink.Connect(g);
  }
}
