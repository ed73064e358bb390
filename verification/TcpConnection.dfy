/**
 The output side of a connection: direct writes, the output buffer, write interest and half-close.
 The kernel's answer to each `write` is a parameter; functors queued from other threads run in order.
 */
module TcpConnections {
  import opened Bytes

  datatype State = Connecting | Connected | Disconnecting | Disconnected

  /** The outcome of one `write`. Any other errno leaves the connection as EWOULDBLOCK does. */
  datatype WriteResult = Wrote(n: nat) | WouldBlock | BrokenPipe | ConnectionReset | OtherError

  predicate IsFault(k: WriteResult) {
    k.BrokenPipe? || k.ConnectionReset?
  }

  datatype Functor = SendLater(message: seq<Byte>) | ShutdownLater | ForceCloseLater

  /** User callbacks handed to `queueInLoop`. */
  datatype Notice = WriteComplete | HighWater(size: nat)

  function Concat(ms: seq<seq<Byte>>): seq<Byte> {
    if ms == [] then [] else Concat(ms[..|ms| - 1]) + ms[|ms| - 1]
  }

  lemma ConcatAppend(ms: seq<seq<Byte>>, m: seq<Byte>)
    ensures Concat(ms + [m]) == Concat(ms) + m
  {
  }

  /** The kernel takes the first `n` bytes of a message, the buffer the rest. */
  lemma ConserveSend(accepted: seq<Byte>, output: seq<Byte>, kept: seq<seq<Byte>>, m: seq<Byte>, n: nat)
    requires accepted + output == Concat(kept) && n <= |m| && (n > 0 ==> output == [])
    ensures accepted + m[..n] + (output + m[n..]) == Concat(kept + [m])
  {
    ConcatAppend(kept, m);
    if n == 0 {
      assert m[..n] == [] && m[n..] == m;
    } else {
      assert m[..n] + m[n..] == m;
    }
  }

  function Count(b: bool): nat {
    if b then 1 else 0
  }

  function QueuedShutdowns(queue: seq<Functor>): nat {
    if queue == [] then 0 else QueuedShutdowns(queue[1..]) + Count(queue[0].ShutdownLater?)
  }

  function QueuedMail(queue: seq<Functor>): nat {
    if queue == [] then 0 else QueuedMail(queue[1..]) + Count(queue[0].SendLater?)
  }

  lemma {:induction false} QueuedAppend(queue: seq<Functor>, f: Functor)
    ensures QueuedShutdowns(queue + [f]) == QueuedShutdowns(queue) + Count(f.ShutdownLater?)
    ensures QueuedMail(queue + [f]) == QueuedMail(queue) + Count(f.SendLater?)
  {
    if queue == [] {
      assert queue + [f] == [f];
    } else {
      QueuedAppend(queue[1..], f);
      assert (queue + [f])[1..] == queue[1..] + [f];
    }
  }

  /** The course of the half-close, by the calls of `shutdown` that found the connection up. */
  datatype Half = Half(
    asked: nat,         // the calls
    early: nat,         // those that reached the loop while the buffer was being written, and did nothing
    drained: bool,      // handleWrite shut the write side on draining the buffer
    behind: nat)        // the calls still under way when the write side was first shut

  /**
   `asking` calls are past their test of the state, `posted` past their change of it. Every call is under way, was
   early, or has shut the write side, which otherwise only a drain does. It is shut only with nothing left to write,
   and as soon as nothing stands in the way. Every shut but the first is by a call that was under way at the first.
   */
  predicate HalfClosed(state: State, empty: bool, shutdowns: nat, half: Half, asking: nat, posted: nat) {
    && half.asked + Count(half.drained) == asking + posted + half.early + shutdowns
    && (half.drained ==> shutdowns > 0)
    && (half.asked > asking || shutdowns > 0 ==> state.Disconnecting?)
    && (shutdowns > 0 ==> empty && shutdowns + asking + posted == 1 + half.behind)
    && (empty && half.asked > asking + posted ==> shutdowns > 0)
  }

  /** The write side is shut, with `underWay` calls of `shutdown` still under way. */
  function ShutOnce(half: Half, drain: bool, shutdowns: nat, underWay: nat): Half {
    Half(half.asked, half.early, half.drained || drain, if shutdowns == 0 then underWay else half.behind)
  }

  lemma NothingShut(state: State, half: Half, asking: nat, posted: nat, empty: bool)
    requires HalfClosed(state, true, 0, half, asking, posted)
    ensures HalfClosed(state, empty, 0, half, asking, posted)
  {
  }

  /** The buffer has been drained. */
  lemma DrainShuts(state: State, shutdowns: nat, half: Half, asking: nat, posted: nat)
    requires HalfClosed(state, false, shutdowns, half, asking, posted)
    ensures state.Disconnecting? ==>
              HalfClosed(state, true, shutdowns + 1, ShutOnce(half, true, shutdowns, asking + posted), asking, posted)
    ensures !state.Disconnecting? ==> HalfClosed(state, true, shutdowns, half, asking, posted)
  {
  }

  /** A call of `shutdown` reaches the loop. */
  lemma RequestShuts(shutdowns: nat, half: Half, asking: nat, posted: nat, empty: bool)
    requires HalfClosed(Disconnecting, empty, shutdowns, half, asking, posted + 1)
    ensures !empty ==> HalfClosed(Disconnecting, empty, shutdowns, half.(early := half.early + 1), asking, posted)
    ensures empty ==>
              HalfClosed(Disconnecting, empty, shutdowns + 1,
                         ShutOnce(half, false, shutdowns, asking + posted), asking, posted)
  {
  }

  /** Once no call is under way: the write side was shut once more for each call that was so at the first shut. */
  lemma ShutsInAll(state: State, empty: bool, shutdowns: nat, half: Half)
    requires HalfClosed(state, empty, shutdowns, half, 0, 0)
    ensures shutdowns == if shutdowns == 0 then 0 else 1 + half.behind
    ensures shutdowns >= 2 <==> shutdowns > 0 && half.behind > 0
    ensures half.asked + Count(half.drained) == half.early + shutdowns
  {
  }

  /** The messages other threads sent to a connection that was up. */
  datatype Mail = Mail(
    shutOut: nat,       // those that reached the loop when the write side was shut
    doomed: nat)        // those under way when it was first shut

  /** Shut out are those, and only those, that the shut came upon. */
  predicate MailKept(shutdowns: nat, mail: Mail, underWay: nat) {
    if shutdowns == 0 then mail.shutOut == 0 else mail.shutOut + underWay == mail.doomed
  }

  function MailAtShut(mail: Mail, shutdowns: nat, underWay: nat): Mail {
    if shutdowns == 0 then mail.(doomed := underWay) else mail
  }

  lemma ShutKeepsMail(shutdowns: nat, mail: Mail, underWay: nat)
    requires MailKept(shutdowns, mail, underWay)
    ensures MailKept(shutdowns + 1, MailAtShut(mail, shutdowns, underWay), underWay)
  {
  }

  function Delivered(mail: Mail, shut: bool): Mail {
    mail.(shutOut := mail.shutOut + Count(shut))
  }

  lemma DeliveryKeepsMail(shutdowns: nat, mail: Mail, underWay: nat)
    requires MailKept(shutdowns, mail, underWay + 1)
    ensures MailKept(shutdowns, Delivered(mail, shutdowns > 0), underWay)
  {
  }

  /** Where bytes go. */
  datatype Sink = Sink(output: seq<Byte>, accepted: seq<Byte>, kept: seq<seq<Byte>>, notices: seq<Notice>)

  class Connection {
    var state: State
    var output: seq<Byte>             // outputBuffer_'s readable bytes
    var writing: bool                 // channel_->isWriting()
    var queue: seq<Functor>           // this connection's functors in the loop's queue
    var notices: seq<Notice>
    var shutdowns: nat                // calls of socket_->shutdownWrite()
    var sending: nat                  // other threads in send(), past the test of the state
    var asking: nat                   // other threads in shutdown(), past the test of the state
    var marked: nat                   // ... past the change of the state, the functor not yet queued
    var forcing: nat                  // threads in forceClose(), past the test of the state
    var forced: nat                   // ... past the change of the state, the functor not yet queued
    const highWaterMark: nat
    const hasWriteComplete: bool
    const hasHighWater: bool
    ghost var accepted: seq<Byte>     // everything the kernel took
    ghost var kept: seq<seq<Byte>>    // the messages given to sendInLoop and not dropped
    ghost var closed: bool            // the channel has been disabled
    ghost var half: Half
    ghost var mail: Mail

    /** Nothing is lost, doubled or reordered. */
    ghost predicate Conserves()
      reads this
    {
      accepted + output == Concat(kept)
    }

    /** The calls of `shutdown` whose functor is queued or about to be. */
    function Posted(): nat
      reads this
    {
      marked + QueuedShutdowns(queue)
    }

    /** The messages of other threads that have not reached `sendInLoop`. */
    function MailUnderWay(): nat
      reads this
    {
      sending + QueuedMail(queue)
    }

    /** Half-close and the other threads' messages are accounted for. */
    ghost predicate Accounted(empty: bool)
      reads this
    {
      HalfClosed(state, empty, shutdowns, half, asking, Posted()) && MailKept(shutdowns, mail, MailUnderWay())
    }

    /** Until the channel is disabled: write interest is exactly "something to write", and half-close is exact. */
    ghost predicate Orderly()
      reads this
    {
      state != Disconnected && (writing <==> output != []) && Accounted(output == [])
    }

    ghost predicate Valid()
      reads this
    {
      Conserves() && (!closed ==> Orderly())
    }

    constructor (mark: nat, wc: bool, hw: bool)
      ensures highWaterMark == mark && hasWriteComplete == wc && hasHighWater == hw
      ensures Valid() && state == Connecting && !closed && !writing && output == [] && kept == [] && accepted == []
      ensures shutdowns == asking == marked == forcing == forced == sending == 0 && queue == []
    {
      highWaterMark, hasWriteComplete, hasHighWater := mark, wc, hw;
      state, output, writing, queue, notices, shutdowns := Connecting, [], false, [], [], 0;
      accepted, kept := [], [];
      sending, asking, marked, forcing, forced := 0, 0, 0, 0, 0;
      closed, half, mail := false, Half(0, 0, false, 0), Mail(0, 0);
    }

    /** When nothing is under way any more: how often the write side was shut, and how many messages that cost. */
    lemma AllIn()
      requires Valid() && !closed && queue == [] && asking == marked == sending == 0
      ensures shutdowns == if shutdowns == 0 then 0 else 1 + half.behind
      ensures mail.shutOut == if shutdowns == 0 then 0 else mail.doomed
    {
      ShutsInAll(state, output == [], shutdowns, half);
    }

    method ConnectEstablished()
      requires Valid() && state == Connecting
      modifies this`state
      ensures Valid() && state == Connected
    {
      state := Connected;
    }

    /** What the kernel may answer: at most what it was offered, and a fault once the write side is shut. */
    predicate Answers(k: WriteResult, offered: nat)
      reads this
    {
      (k.Wrote? ==> k.n <= offered) && (shutdowns > 0 ==> IsFault(k))
    }

    /** The message bypasses the buffer exactly when nothing is waiting in it. */
    predicate Direct()
      reads this
    {
      !writing && output == []
    }

    predicate Drops(k: WriteResult)
      reads this
    {
      state.Disconnected? || (Direct() && IsFault(k))
    }

    /** The notice for a buffer that grows from `before` to `after` bytes: once, on crossing the mark. */
    function Crossing(before: nat, after: nat): seq<Notice> {
      if before < highWaterMark <= after && hasHighWater then [HighWater(after)] else []
    }

    /** The notice for a direct write that took the whole message. */
    function Completed(k: WriteResult, len: nat): seq<Notice> {
      if k == Wrote(len) && hasWriteComplete then [WriteComplete] else []
    }

    ghost function Flow(): Sink
      reads this
    {
      Sink(output, accepted, kept, notices)
    }

    /** What `sendInLoop` has done to a message since the connection stood as given. */
    ghost predicate Sent(message: seq<Byte>, k: WriteResult, was: State, wasWriting: bool, from: Sink)
      reads this
    {
      var direct := !wasWriting && from.output == [];
      if was.Disconnected? || (direct && IsFault(k)) then Flow() == from
      else
        && kept == from.kept + [message]
        && (direct ==> |accepted| == |from.accepted| + (if k.Wrote? then k.n else 0))
        && (!direct ==> accepted == from.accepted && output == from.output + message)
        && notices == from.notices + (if direct then Completed(k, |message|) else [])
                      + Crossing(|from.output|, |output|)
    }

    /**
     A message is dropped whole or kept whole; what the kernel took and what waits are the kept messages in
     order. The write-complete notice follows a full direct write; the high-water one, the mark being crossed.
     */
    method SendInLoop(message: seq<Byte>, k: WriteResult)
      requires Valid() && Answers(k, |message|)
      modifies this`output, this`writing, this`notices, this`accepted, this`kept
      ensures Valid()
      ensures Sent(message, k, old(state), old(writing), old(Flow()))
    {
      if state == Disconnected {
        return;
      }
      if !writing && output == [] {
        SendDirectly(message, k);
      } else {
        KeepAll(message);
      }
    }

    method SendDirectly(message: seq<Byte>, k: WriteResult)
      requires Valid() && Answers(k, |message|) && Direct()
      modifies this`output, this`writing, this`notices, this`accepted, this`kept
      ensures Valid()
      ensures kept == if IsFault(k) then old(kept) else old(kept) + [message]
      ensures IsFault(k) ==> output == [] && accepted == old(accepted) && notices == old(notices)
      ensures !IsFault(k) ==> |accepted| == |old(accepted)| + (if k.Wrote? then k.n else 0)
      ensures !IsFault(k) ==> notices == old(notices) + Completed(k, |message|) + Crossing(0, |output|)
    {
      var nwrote, faultError := WriteDirectly(message, k);
      if !faultError {
        KeepRest(message, nwrote);
      }
    }

    /** The rest of `sendInLoop`, once `nwrote` bytes are with the kernel and there was no fault. */
    method Keep(message: seq<Byte>, nwrote: nat)
      requires Conserves() && nwrote <= |message| && (nwrote > 0 ==> output == [])
      modifies this`output, this`writing, this`notices, this`accepted, this`kept
      ensures Conserves() && kept == old(kept) + [message]
      ensures accepted == old(accepted) + message[..nwrote] && output == old(output) + message[nwrote..]
      ensures writing == (old(writing) || nwrote < |message|)
      ensures notices == old(notices) + Crossing(|old(output)|, |output|)
    {
      ConserveSend(accepted, output, kept, message, nwrote);
      kept := kept + [message];
      accepted := accepted + message[..nwrote];
      if |message| - nwrote > 0 {
        Buffer(message[nwrote..]);
      }
    }

    /** `Keep` behind what waits already, in the terms its caller needs. */
    method KeepAll(message: seq<Byte>)
      requires Valid() && !Direct() && state != Disconnected
      modifies this`output, this`writing, this`notices, this`accepted, this`kept
      ensures Valid() && kept == old(kept) + [message]
      ensures accepted == old(accepted) && output == old(output) + message
      ensures notices == old(notices) + Crossing(|old(output)|, |output|)
    {
      Keep(message, 0);
      assert message[..0] == [] && message[0..] == message;
    }

    /** `Keep` after a direct write, in the terms its caller needs. */
    method KeepRest(message: seq<Byte>, nwrote: nat)
      requires Valid() && nwrote <= |message| && Direct() && (!closed ==> shutdowns == 0)
      modifies this`output, this`writing, this`notices, this`accepted, this`kept
      ensures Valid() && kept == old(kept) + [message]
      ensures |accepted| == |old(accepted)| + nwrote
      ensures notices == old(notices) + Crossing(0, |output|)
    {
      Keep(message, nwrote);
      assert |output| == |message| - nwrote;
      if !closed {
        NothingShut(state, half, asking, Posted(), output == []);
      }
    }

    method WriteDirectly(message: seq<Byte>, k: WriteResult) returns (nwrote: nat, faultError: bool)
      requires k.Wrote? ==> k.n <= |message|
      modifies this`notices
      ensures faultError == IsFault(k) && nwrote == if k.Wrote? then k.n else 0
      ensures notices == old(notices) + Completed(k, |message|) && (faultError ==> notices == old(notices))
    {
      nwrote, faultError := 0, false;
      match k
      case Wrote(n) =>
        nwrote := n;
        if |message| - n == 0 && hasWriteComplete {
          notices := notices + [WriteComplete];
        }
      case _ =>
        faultError := IsFault(k);
    }

    /** Appends what the kernel did not take and asks for write events. */
    method Buffer(rest: seq<Byte>)
      requires rest != []
      modifies this`output, this`writing, this`notices
      ensures output == old(output) + rest && writing
      ensures notices == old(notices) + Crossing(|old(output)|, |output|)
    {
      var oldLen := |output|;
      if oldLen + |rest| >= highWaterMark && oldLen < highWaterMark && hasHighWater {
        notices := notices + [HighWater(oldLen + |rest|)];
      }
      output := output + rest;
      if !writing {
        writing := true;
      }
    }

    /** `send` from the loop thread: only a connected socket takes a message. */
    method Send(message: seq<Byte>, k: WriteResult)
      requires Valid() && Answers(k, |message|)
      modifies this`output, this`writing, this`notices, this`accepted, this`kept
      ensures Valid()
      ensures state == Connected ==> Sent(message, k, old(state), old(writing), old(Flow()))
      ensures state != Connected ==> Flow() == old(Flow()) && writing == old(writing)
    {
      if state == Connected {
        SendInLoop(message, k);
      }
    }

    /** `send` from another thread, first step: the test of the state. */
    method AskSend() returns (passed: bool)
      requires Valid()
      modifies this`sending
      ensures Valid() && passed == (state == Connected) && sending == old(sending) + Count(passed)
      ensures passed && !closed ==> shutdowns == 0
    {
      passed := state == Connected;
      sending := sending + Count(passed);
    }

    /** ... second step: the functor joins the loop's queue. */
    method PostSend(message: seq<Byte>)
      requires Valid() && sending > 0
      modifies this`queue, this`sending
      ensures Valid() && sending == old(sending) - 1 && queue == old(queue) + [SendLater(message)]
    {
      QueuedAppend(queue, SendLater(message));
      queue, sending := queue + [SendLater(message)], sending - 1;
    }

    /** `send` from another thread, undisturbed: the message waits its turn in the loop's queue. */
    method SendElsewhere(message: seq<Byte>)
      requires Valid()
      modifies this`queue, this`sending
      ensures Valid() && sending == old(sending)
      ensures queue == if state == Connected then old(queue) + [SendLater(message)] else old(queue)
    {
      var passed := AskSend();
      if passed {
        PostSend(message);
      }
    }

    /** What `handleWrite` gets rid of. */
    ghost function Taken(k: WriteResult): nat
      reads this
    {
      if writing && k.Wrote? then k.n else 0
    }

    /** The buffer's last bytes leave with this write. */
    predicate Drains(k: WriteResult)
      reads this
    {
      writing && output != [] && k == Wrote(|output|)
    }

    /**
     The kernel takes a prefix of the buffer. Draining it stops write events, announces completion, and shuts
     the write side exactly when the connection is disconnecting.
     */
    method HandleWrite(k: WriteResult)
      requires Valid() && Answers(k, |output|)
      modifies this`output, this`writing, this`notices, this`accepted, this`shutdowns, this`half, this`mail
      ensures Valid()
      ensures accepted == old(accepted) + old(output)[..old(Taken(k))] && output == old(output)[old(Taken(k))..]
      ensures writing == (old(writing) && !old(Drains(k)))
      ensures notices == old(notices) + (if old(Drains(k)) && hasWriteComplete then [WriteComplete] else [])
      ensures shutdowns == old(shutdowns) + Count(old(Drains(k)) && state.Disconnecting?)
      ensures half == if old(Drains(k)) && state.Disconnecting?
                      then ShutOnce(old(half), true, old(shutdowns), asking + Posted()) else old(half)
      ensures mail == if old(Drains(k)) && state.Disconnecting?
                      then MailAtShut(old(mail), old(shutdowns), MailUnderWay()) else old(mail)
    {
      if writing && k.Wrote? && k.n > 0 {
        Retrieve(k.n);
        if output == [] {
          Drained();
        }
      }
    }

    method Retrieve(n: nat)
      requires Conserves() && n <= |output|
      modifies this`output, this`accepted
      ensures Conserves()
      ensures accepted == old(accepted) + old(output)[..n] && output == old(output)[n..]
    {
      assert accepted + output[..n] + output[n..] == accepted + output;
      accepted := accepted + output[..n];
      output := output[n..];
    }

    /** What `handleWrite` does when the buffer has just become empty. */
    method Drained()
      requires Conserves() && output == [] && writing && (!closed ==> state != Disconnected && Accounted(false))
      modifies this`writing, this`notices, this`shutdowns, this`half, this`mail
      ensures Valid() && !writing
      ensures notices == old(notices) + (if hasWriteComplete then [WriteComplete] else [])
      ensures shutdowns == old(shutdowns) + Count(state.Disconnecting?)
      ensures half == if state.Disconnecting? then ShutOnce(old(half), true, old(shutdowns), asking + Posted())
                      else old(half)
      ensures mail == if state.Disconnecting? then MailAtShut(old(mail), old(shutdowns), MailUnderWay()) else old(mail)
    {
      if !closed {
        DrainShuts(state, shutdowns, half, asking, Posted());
        ShutKeepsMail(shutdowns, mail, MailUnderWay());
      }
      writing := false;
      if hasWriteComplete {
        notices := notices + [WriteComplete];
      }
      if state == Disconnecting {
        ShutdownInLoop(true);
      }
    }

    /** Shuts the write side if nothing is being written. */
    method ShutdownInLoop(ghost drain: bool)
      modifies this`shutdowns, this`half, this`mail
      ensures shutdowns == old(shutdowns) + Count(!writing)
      ensures !writing ==> half == ShutOnce(old(half), drain, old(shutdowns), asking + Posted())
                           && mail == MailAtShut(old(mail), old(shutdowns), MailUnderWay())
      ensures writing ==> half == old(half).(early := old(half).early + Count(!drain)) && mail == old(mail)
    {
      if !writing {
        half := ShutOnce(half, drain, shutdowns, asking + Posted());
        mail := MailAtShut(mail, shutdowns, MailUnderWay());
        shutdowns := shutdowns + 1;
      } else {
        half := half.(early := half.early + Count(!drain));
      }
    }

    /** A call of `shutdown` reaches the loop: it shuts the write side, or leaves that to the drain. */
    method Request()
      requires Conserves()
      requires !closed ==> state == Disconnecting && (writing <==> output != [])
      requires !closed ==> HalfClosed(state, output == [], shutdowns, half, asking, Posted() + 1)
      requires !closed ==> MailKept(shutdowns, mail, MailUnderWay())
      modifies this`shutdowns, this`half, this`mail
      ensures Valid() && shutdowns == old(shutdowns) + Count(!writing)
      ensures half == if writing then old(half).(early := old(half).early + 1)
                      else ShutOnce(old(half), false, old(shutdowns), asking + Posted())
      ensures mail == if writing then old(mail) else MailAtShut(old(mail), old(shutdowns), MailUnderWay())
    {
      if !closed {
        RequestShuts(shutdowns, half, asking, Posted(), output == []);
        ShutKeepsMail(shutdowns, mail, MailUnderWay());
      }
      ShutdownInLoop(false);
    }

    /** `shutdown` from the loop thread: at once if nothing waits, else left to the drain. */
    method Shutdown()
      requires Valid()
      modifies this`state, this`shutdowns, this`half, this`mail
      ensures Valid()
      ensures state == if old(state) == Connected then Disconnecting else old(state)
      ensures shutdowns == old(shutdowns) + Count(old(state) == Connected && !writing)
      ensures half.asked == old(half).asked + Count(old(state) == Connected)
    {
      if state == Connected {
        state := Disconnecting;
        half := half.(asked := half.asked + 1);
        Request();
      }
    }

    /** `shutdown` from another thread, first step: the test of the state. */
    method AskShutdown() returns (passed: bool)
      requires Valid()
      modifies this`asking, this`half
      ensures Valid() && passed == (state == Connected)
      ensures asking == old(asking) + Count(passed)
      ensures half == if passed then old(half).(asked := old(half).asked + 1) else old(half)
    {
      passed := state == Connected;
      if passed {
        asking := asking + 1;
        half := half.(asked := half.asked + 1);
      }
    }

    /** ... second step: the change of the state, whatever it is by now. */
    method MarkShutdown()
      requires Valid() && asking > 0
      modifies this`state, this`asking, this`marked
      ensures Valid() && state == Disconnecting && asking == old(asking) - 1 && marked == old(marked) + 1
    {
      state, asking, marked := Disconnecting, asking - 1, marked + 1;
    }

    /** ... third step: the functor joins the loop's queue. */
    method PostShutdown()
      requires Valid() && marked > 0
      modifies this`queue, this`marked
      ensures Valid() && marked == old(marked) - 1 && queue == old(queue) + [ShutdownLater]
    {
      QueuedAppend(queue, ShutdownLater);
      queue, marked := queue + [ShutdownLater], marked - 1;
    }

    /** `shutdown` from another thread, undisturbed: the state changes now, the rest waits in the loop's queue. */
    method ShutdownElsewhere()
      requires Valid()
      modifies this`state, this`queue, this`half, this`asking, this`marked
      ensures Valid() && asking == old(asking) && marked == old(marked)
      ensures state == if old(state) == Connected then Disconnecting else old(state)
      ensures queue == if old(state) == Connected then old(queue) + [ShutdownLater] else old(queue)
      ensures half == old(half).(asked := old(half).asked + Count(old(state) == Connected))
    {
      var passed := AskShutdown();
      if passed {
        MarkShutdown();
        PostShutdown();
      }
    }

    /** `forceClose`, first step: the test of the state. */
    method AskForceClose() returns (passed: bool)
      requires Valid()
      modifies this`forcing
      ensures Valid() && passed == (state in {Connected, Disconnecting}) && forcing == old(forcing) + Count(passed)
    {
      passed := state == Connected || state == Disconnecting;
      forcing := forcing + Count(passed);
    }

    /** ... second step: the change of the state, whatever it is by now. */
    method MarkForceClose()
      requires Valid() && forcing > 0
      modifies this`state, this`forcing, this`forced
      ensures Valid() && state == Disconnecting && forcing == old(forcing) - 1 && forced == old(forced) + 1
    {
      state, forcing, forced := Disconnecting, forcing - 1, forced + 1;
    }

    /** ... third step: the functor joins the loop's queue. */
    method PostForceClose()
      requires Valid() && forced > 0
      modifies this`queue, this`forced
      ensures Valid() && forced == old(forced) - 1 && queue == old(queue) + [ForceCloseLater]
    {
      QueuedAppend(queue, ForceCloseLater);
      queue, forced := queue + [ForceCloseLater], forced - 1;
    }

    /** `forceClose`, undisturbed. */
    method ForceClose()
      requires Valid()
      modifies this`state, this`queue, this`forcing, this`forced
      ensures Valid() && forcing == old(forcing) && forced == old(forced)
      ensures old(state) in {Connected, Disconnecting} ==>
                state == Disconnecting && queue == old(queue) + [ForceCloseLater]
      ensures old(state) !in {Connected, Disconnecting} ==> state == old(state) && queue == old(queue)
    {
      var passed := AskForceClose();
      if passed {
        MarkForceClose();
        PostForceClose();
      }
    }

    method HandleClose()
      requires Valid() && state in {Connected, Disconnecting}
      modifies this`writing, this`closed
      ensures Valid() && closed && !writing
    {
      writing := false;
      closed := true;
    }

    method ConnectDestroyed()
      requires Valid() && state in {Connected, Disconnecting}
      modifies this`state, this`writing, this`closed
      ensures Valid() && closed && !writing && state == Disconnected
    {
      state := Disconnected;
      writing := false;
      closed := true;
    }

    /**
     The loop runs this connection's next functor. A queued message is lost exactly if it was under way when the
     write side was shut, or a direct write of it fails. A queued shutdown does nothing while the buffer is being
     written; else it shuts the write side, again exactly if it was under way at the first shut.
     */
    method RunNext(k: WriteResult)
      requires Valid() && queue != []
      requires queue[0].SendLater? ==> Answers(k, |queue[0].message|)
      modifies this
      ensures Valid() && queue == old(queue)[1..]
      ensures state == old(state)
      ensures !old(queue)[0].ForceCloseLater? ==> closed == old(closed)
      ensures old(queue)[0].SendLater? ==> Sent(old(queue)[0].message, k, old(state), old(writing), old(Flow()))
      ensures old(queue)[0].SendLater? && !closed ==>
                && mail == Delivered(old(mail), old(shutdowns) > 0)
                && (old(Drops(k)) <==>
                    mail.shutOut > old(mail).shutOut || (old(shutdowns) == 0 && old(output) == [] && IsFault(k)))
      ensures !old(queue)[0].ShutdownLater? ==> shutdowns == old(shutdowns) && half == old(half)
      ensures old(queue)[0].ShutdownLater? && !closed ==>
                && shutdowns == old(shutdowns) + Count(old(output) == [])
                && (shutdowns >= 2 <==> old(shutdowns) > 0)
      ensures !old(queue)[0].SendLater? ==>
                Flow() == old(Flow()) && mail.shutOut == old(mail).shutOut
      ensures old(queue)[0].ShutdownLater? ==> writing == old(writing)
      ensures old(queue)[0].ForceCloseLater? ==>
                && mail == old(mail)
                && (if state in {Connected, Disconnecting} then closed && !writing
                    else closed == old(closed) && writing == old(writing))
    {
      var f := queue[0];
      match f
      case SendLater(m) =>
        if !closed && shutdowns > 0 {
          ShutDrops(k);
        }
        RunSend(k);
      case ShutdownLater =>
        RunShutdown();
      case ForceCloseLater =>
        RunForceClose();
    }

    method RunForceClose()
      requires Valid() && queue != [] && queue[0].ForceCloseLater?
      modifies this`queue, this`writing, this`closed
      ensures Valid() && queue == old(queue)[1..]
      ensures if state in {Connected, Disconnecting} then closed && !writing
              else closed == old(closed) && writing == old(writing)
    {
      queue := queue[1..];
      if state == Connected || state == Disconnecting {
        HandleClose();
      }
    }

    method RunSend(k: WriteResult)
      requires Valid() && queue != [] && queue[0].SendLater? && Answers(k, |queue[0].message|)
      modifies this`queue, this`output, this`writing, this`notices, this`accepted, this`kept, this`mail
      ensures Valid() && queue == old(queue)[1..]
      ensures Sent(old(queue)[0].message, k, old(state), old(writing), old(Flow()))
      ensures mail == Delivered(old(mail), old(shutdowns) > 0)
    {
      var m := TakeMessage();
      Offer(m, k);
    }

    /** `sendInLoop`, in the terms its caller needs. */
    method Offer(message: seq<Byte>, k: WriteResult)
      requires Valid() && Answers(k, |message|)
      modifies this`output, this`writing, this`notices, this`accepted, this`kept
      ensures Valid() && Sent(message, k, old(state), old(writing), old(Flow()))
    {
      SendInLoop(message, k);
    }

    /** Nothing is sent once the write side is shut. */
    lemma ShutDrops(k: WriteResult)
      requires Valid() && !closed && shutdowns > 0 && IsFault(k)
      ensures Drops(k)
    {
    }

    /** The next functor is a message, and leaves the queue. */
    method TakeMessage() returns (m: seq<Byte>)
      requires Valid() && queue != [] && queue[0].SendLater?
      modifies this`queue, this`mail
      ensures Valid() && m == old(queue)[0].message && queue == old(queue)[1..]
      ensures mail == Delivered(old(mail), shutdowns > 0)
    {
      m := queue[0].message;
      queue := queue[1..];
      if !closed {
        DeliveryKeepsMail(shutdowns, mail, MailUnderWay());
      }
      mail := Delivered(mail, shutdowns > 0);
    }

    method RunShutdown()
      requires Valid() && queue != [] && queue[0].ShutdownLater?
      modifies this`queue, this`shutdowns, this`half, this`mail
      ensures Valid() && queue == old(queue)[1..]
      ensures shutdowns == old(shutdowns) + Count(!writing)
      ensures !closed ==> (shutdowns >= 2 <==> old(shutdowns) > 0)
      ensures mail.shutOut == old(mail).shutOut
    {
      queue := queue[1..];
      Request();
    }
  }

  method Established() returns (c: Connection)
    ensures fresh(c) && c.Valid() && !c.closed && c.state == Connected && c.queue == [] && c.Direct()
    ensures c.kept == [] && c.accepted == [] && c.shutdowns == c.asking == 0
  {
    c := new Connection(0, false, false);
    c.ConnectEstablished();
  }

  /** A new connection whose first message meets a full socket and waits in the buffer. */
  method Blocked(m: seq<Byte>) returns (c: Connection)
    requires m != []
    ensures fresh(c) && c.Valid() && !c.closed && c.state == Connected && c.queue == []
    ensures c.output == m && c.kept == [m] && c.shutdowns == 0
  {
    c := Established();
    c.SendInLoop(m, WouldBlock);
    OnlyMessage(c.accepted, c.output, c.kept, m);
  }

  lemma OnlyMessage(accepted: seq<Byte>, output: seq<Byte>, kept: seq<seq<Byte>>, m: seq<Byte>)
    requires kept == [] + [m] && accepted + output == Concat(kept) && |accepted| == 0
    ensures accepted == [] && output == m
  {
    ConcatAppend([], m);
    assert Concat([]) + m == m;
    assert accepted + output == output;
  }

  /** A message waits in the buffer, another in the loop's queue, and behind it a shutdown. */
  method Backed(m: seq<Byte>, n: seq<Byte>) returns (c: Connection)
    requires m != []
    ensures fresh(c) && c.Valid() && !c.closed && c.state == Disconnecting && c.shutdowns == 0
    ensures c.output == m && c.kept == [m] && c.queue == [SendLater(n)] + [ShutdownLater]
  {
    c := Blocked(m);
    c.SendElsewhere(n);
    c.ShutdownElsewhere();
  }

  /**
   A message another thread sent before its shutdown can be lost: the buffer drains and shuts the write side
   before the message's functor runs.
   */
  method LostToDrain() returns (c: Connection)
    ensures fresh(c) && c.Valid() && !c.closed && c.state == Disconnecting && c.shutdowns == 1
    ensures c.queue == [ShutdownLater] && c.kept == [[65]] && c.output == [] && c.mail.shutOut == 1
  {
    c := Backed([65], [66]);
    c.HandleWrite(Wrote(1));
    c.RunNext(BrokenPipe);
  }

  /** The write side can be shut twice: by a drain, and by another thread's request that runs only then ... */
  method ShutTwice() returns (shutdowns: nat)
    ensures shutdowns == 2
  {
    var c := LostToDrain();
    c.RunNext(WouldBlock);
    shutdowns := c.shutdowns;
  }

  /** ... or with nothing ever written, by two threads that both find the connection up. */
  method ShutByTwo() returns (shutdowns: nat)
    ensures shutdowns == 2
  {
    var c := TwoAsk();
    TwoPost(c);
    c.RunNext(WouldBlock);
    c.RunNext(WouldBlock);
    shutdowns := c.shutdowns;
  }

  method TwoAsk() returns (c: Connection)
    ensures fresh(c) && c.Valid() && !c.closed && c.output == [] && c.queue == []
    ensures c.shutdowns == 0 && c.asking == 2
  {
    c := Established();
    var first := c.AskShutdown();
    var second := c.AskShutdown();
  }

  /** Both change the state, and both queue their request. */
  method TwoPost(c: Connection)
    requires c.Valid() && c.asking == 2
    modifies c`state, c`asking, c`marked, c`queue
    ensures c.Valid() && c.queue == old(c.queue) + [ShutdownLater] + [ShutdownLater]
  {
    c.MarkShutdown();
    c.MarkShutdown();
    c.PostShutdown();
    c.PostShutdown();
  }
}
