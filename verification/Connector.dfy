/**
 The connector: one connection attempt at a time, retried with growing delays. A socket is named by the number
 of sockets opened before it, so that a descriptor the kernel reuses is a new socket.
 */
module Connectors {
  import opened Options

  const INIT_RETRY_DELAY_MS := 500
  const MAX_RETRY_DELAY_MS := 30 * 1000

  type Socket = nat

  datatype State = Disconnected | Connecting | Connected

  /** How `connect` answers, by the group its errno falls in. */
  datatype ConnectResult = InProgress | Retryable | Fatal

  /** What became of a socket. */
  datatype Fate = Open | Closed | Handed

  function Pow2(k: nat): nat {
    if k == 0 then 1 else 2 * Pow2(k - 1)
  }

  function Min(a: nat, b: nat): nat {
    if a < b then a else b
  }

  /** The delay before the k-th consecutive retry, counting from 0. */
  function Delay(k: nat): nat {
    Min(INIT_RETRY_DELAY_MS * Pow2(k), MAX_RETRY_DELAY_MS)
  }

  /** Doubling and capping step by step keeps to the closed form. */
  lemma DelayStep(k: nat)
    ensures Delay(k + 1) == Min(Delay(k) * 2, MAX_RETRY_DELAY_MS)
  {
  }

  class Connector {
    var connect: bool                 // connect_
    var state: State
    var channel: Option<Socket>       // channel_
    var retryDelayMs: nat
    var timers: nat                   // startInLoop calls waiting in the timer queue
    var resets: nat                   // resetChannel functors waiting in the loop's queue
    var sockets: nat                  // how many have been opened
    ghost var fates: seq<Fate>        // what became of each
    ghost var delays: seq<nat>        // the retry delays since construction or the last restart

    /**
     Every socket ever opened, but for the one of an attempt under way, has been closed once or handed over once;
     and the delays so far are the closed form's.
     */
    ghost predicate Valid()
      reads this
    {
      && |fates| == sockets && (channel.Some? ==> channel.value < sockets)
      && (channel.Some? <==> state == Connecting || resets == 1)
      && resets + (if state == Connecting then 1 else 0) <= 1
      && (forall s :: 0 <= s < |fates| ==> (fates[s] == Open <==> state == Connecting && channel == Some(s)))
      && retryDelayMs == Delay(|delays|)
      && (forall k :: 0 <= k < |delays| ==> delays[k] == Delay(k))
    }

    /** No attempt under way, and the last attempt's channel gone. */
    predicate Idle()
      reads this
    {
      state == Disconnected && resets == 0
    }

    constructor ()
      ensures Valid() && Idle() && !connect && timers == 0 && fates == [] && delays == []
    {
      connect, state, channel, retryDelayMs := false, Disconnected, None, INIT_RETRY_DELAY_MS;
      timers, resets, sockets := 0, 0, 0;
      fates, delays := [], [];
    }

    /** A socket that is still open is closed or handed over. */
    ghost method Settle(s: Socket, fate: Fate)
      requires s < |fates| && fates[s] == Open && fate != Open
      modifies this`fates
      ensures fates == old(fates)[s := fate]
    {
      fates := fates[s := fate];
    }

    /** `start` from the loop thread. */
    method Start(k: ConnectResult)
      requires Valid() && Idle()
      modifies this
      ensures Valid() && connect && Attempted(old(fates), old(delays), old(retryDelayMs), old(timers), k)
    {
      connect := true;
      StartInLoop(k);
    }

    /** One more attempt: its socket is under way, or closed, and in one case another attempt is ahead. */
    ghost predicate Attempted(was: seq<Fate>, wasDelays: seq<nat>, delay: nat, wasTimers: nat, k: ConnectResult)
      reads this
    {
      && fates == was + [if k == InProgress then Open else Closed]
      && state == (if k == InProgress then Connecting else Disconnected)
      && timers == wasTimers + (if k == Retryable then 1 else 0) && resets == 0
      && delays == if k == Retryable then wasDelays + [delay] else wasDelays
    }

    method StartInLoop(k: ConnectResult)
      requires Valid() && Idle()
      modifies this
      ensures Valid() && connect == old(connect)
      ensures !connect ==> fates == old(fates) && delays == old(delays) && timers == old(timers) && Idle()
      ensures connect ==> Attempted(old(fates), old(delays), old(retryDelayMs), old(timers), k)
    {
      if connect {
        Connect(k);
      }
    }

    method Connect(k: ConnectResult)
      requires Valid() && Idle() && connect
      modifies this
      ensures Valid() && connect && Attempted(old(fates), old(delays), old(retryDelayMs), old(timers), k)
    {
      var s := sockets;
      sockets := sockets + 1;
      fates := fates + [Open];
      match k
      case InProgress =>
        state := Connecting;
        channel := Some(s);
      case Retryable =>
        Retry(s);
      case Fatal =>
        Settle(s, Closed);
    }

    /** Every other socket is settled, and the delays are in order. */
    ghost predicate OnlyOpen(s: Socket)
      reads this
    {
      && |fates| == sockets && s < sockets
      && (forall i :: 0 <= i < |fates| ==> (fates[i] == Open <==> i == s))
      && retryDelayMs == Delay(|delays|)
      && (forall k :: 0 <= k < |delays| ==> delays[k] == Delay(k))
    }

    /** Closes the socket; if still wanted, asks for another attempt after the current delay and doubles it. */
    method Retry(s: Socket)
      requires OnlyOpen(s) && resets <= 1
      requires (channel.Some? <==> resets == 1) && (channel.Some? ==> channel.value < sockets)
      modifies this`state, this`timers, this`retryDelayMs, this`fates, this`delays
      ensures Valid() && state == Disconnected && fates == old(fates)[s := Closed]
      ensures connect ==> timers == old(timers) + 1 && delays == old(delays) + [old(retryDelayMs)]
      ensures !connect ==> timers == old(timers) && delays == old(delays)
    {
      Settle(s, Closed);
      state := Disconnected;
      if connect {
        timers := timers + 1;
        DelayStep(|delays|);
        delays := delays + [retryDelayMs];
        retryDelayMs := Min(retryDelayMs * 2, MAX_RETRY_DELAY_MS);
      }
    }

    /** The channel leaves the poller now and is destroyed by a functor, after its own handler returns. */
    method RemoveAndResetChannel() returns (s: Socket)
      requires Valid() && state == Connecting
      modifies this`resets
      ensures resets == 1 && Some(s) == channel && OnlyOpen(s)
    {
      s := channel.value;
      resets := resets + 1;
    }

    /** The socket became writable: its error, a self-connection or a stop decide its fate. */
    method HandleWrite(err: bool, selfConnect: bool)
      requires Valid() && state in {Connecting, Disconnected}
      modifies this`state, this`resets, this`timers, this`retryDelayMs, this`fates, this`delays
      ensures Valid()
      ensures old(state) == Disconnected ==>
                fates == old(fates) && state == Disconnected && delays == old(delays)
                && timers == old(timers) && resets == old(resets)
      ensures old(state) == Connecting ==>
                fates == old(fates)[old(channel).value := if !err && !selfConnect && connect then Handed else Closed]
                && state == (if err || selfConnect then Disconnected else Connected) && resets == 1
                && timers == old(timers) + (if (err || selfConnect) && connect then 1 else 0)
                && delays == if (err || selfConnect) && connect then old(delays) + [old(retryDelayMs)] else old(delays)
    {
      if state == Connecting {
        var s := RemoveAndResetChannel();
        if err || selfConnect {
          Retry(s);
        } else {
          state := Connected;
          Settle(s, if connect then Handed else Closed);
        }
      }
    }

    method HandleError()
      requires Valid() && state == Connecting
      modifies this`state, this`resets, this`timers, this`retryDelayMs, this`fates, this`delays
      ensures Valid() && state == Disconnected && resets == 1 && timers == old(timers) + (if connect then 1 else 0)
      ensures fates == old(fates)[old(channel).value := Closed]
      ensures delays == if connect then old(delays) + [old(retryDelayMs)] else old(delays)
    {
      var s := RemoveAndResetChannel();
      Retry(s);
    }

    /** One dispatch of the channel's events: the error handler runs first, then the write handler. */
    method HandleEvent(error: bool, write: bool, err: bool, selfConnect: bool)
      requires Valid() && state == Connecting
      modifies this`state, this`resets, this`timers, this`retryDelayMs, this`fates, this`delays
      ensures Valid()
      ensures error || write ==>
                state != Connecting
                && fates == old(fates)[old(channel).value :=
                     if !error && !err && !selfConnect && connect then Handed else Closed]
      ensures delays == if connect && (error || (write && (err || selfConnect))) then old(delays) + [old(retryDelayMs)]
                        else old(delays)
      ensures timers == old(timers) + |delays| - |old(delays)|
    {
      if error {
        HandleError();
      }
      if write {
        HandleWrite(err, selfConnect);
      }
    }

    method ResetChannel()
      requires Valid() && resets == 1
      modifies this`channel, this`resets
      ensures Valid() && channel == None
    {
      channel := None;
      resets := resets - 1;
    }

    /** A retry timer fires, in a later pass of the loop than the functor that destroyed the channel. */
    method TimerFires(k: ConnectResult)
      requires Valid() && timers > 0 && Idle()
      modifies this
      ensures Valid() && connect == old(connect)
      ensures !connect ==> fates == old(fates) && delays == old(delays) && timers == old(timers) - 1 && Idle()
      ensures connect ==> Attempted(old(fates), old(delays), old(retryDelayMs), old(timers) - 1, k)
    {
      timers := timers - 1;
      StartInLoop(k);
    }

    /** Cancelling the timer does nothing; a later `startInLoop` finds `connect` down. */
    method Stop()
      requires Valid()
      modifies this`connect
      ensures Valid() && !connect
    {
      connect := false;
    }

    /** After a connection was lost, or from an idle connector: the delays start again. */
    method Restart(k: ConnectResult)
      requires Valid() && state != Connecting && resets == 0
      modifies this
      ensures Valid() && connect && Attempted(old(fates), [], INIT_RETRY_DELAY_MS, old(timers), k)
    {
      state := Disconnected;
      retryDelayMs := INIT_RETRY_DELAY_MS;
      delays := [];
      connect := true;
      StartInLoop(k);
    }
  }
}
