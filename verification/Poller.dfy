/** The poll(2) table: a slot per channel, found through the channel's index, removed by swapping with the last. */
module Pollers {

  class Channel {
    const fd: nat
    var events: int
    var revents: int
    var index: int      // the channel's slot; -1 before it is first added

    constructor (fd: nat)
      ensures this.fd == fd && events == revents == 0 && index == -1
    {
      this.fd := fd;
      events, revents, index := 0, 0, -1;
    }

    predicate IsNoneEvent()
      reads this
    {
      events == 0
    }
  }

  /** `struct pollfd`; a negative `fd` is ignored by the kernel. */
  datatype PollFd = PollFd(fd: int, events: int, revents: int)

  /** The ignored form of a descriptor; descriptor 0 has one too. */
  function Ignored(fd: int): int {
    -fd - 1
  }

  function FdOf(p: PollFd): nat {
    if p.fd < 0 then -p.fd - 1 else p.fd
  }

  lemma FdOfIgnored(fd: nat, events: int, revents: int)
    ensures FdOf(PollFd(Ignored(fd), events, revents)) == fd == FdOf(PollFd(fd, events, revents))
    ensures forall p :: FdOf(p) == fd <==> p.fd == fd || p.fd == Ignored(fd)
  {
  }

  /** Descriptors and slots are in bijection; the slots in the ignored form are those of `off`. */
  ghost predicate Table(ps: seq<PollFd>, index: map<nat, int>, off: set<nat>) {
    && (forall fd :: fd in index ==> FiledAt(ps, index[fd], fd))
    && (forall i :: 0 <= i < |ps| ==> PlacedAt(ps[i], index, i))
    && (forall i :: 0 <= i < |ps| ==> (ps[i].fd < 0 <==> FdOf(ps[i]) in off))
  }

  predicate FiledAt(ps: seq<PollFd>, i: int, fd: nat) {
    0 <= i < |ps| && FdOf(ps[i]) == fd
  }

  predicate PlacedAt(p: PollFd, index: map<nat, int>, i: int) {
    FdOf(p) in index && index[FdOf(p)] == i
  }

  lemma TableAdd(ps: seq<PollFd>, index: map<nat, int>, off: set<nat>, p: PollFd)
    requires Table(ps, index, off) && p.fd >= 0 && p.fd !in index
    ensures Table(ps + [p], index[p.fd := |ps|], off - {p.fd})
  {
  }

  lemma TableSet(ps: seq<PollFd>, index: map<nat, int>, off: set<nat>, fd: nat, p: PollFd)
    requires Table(ps, index, off) && fd in index && FdOf(p) == fd
    ensures 0 <= index[fd] < |ps|
    ensures p.fd < 0 ==> Table(ps[index[fd] := p], index, off + {fd})
    ensures p.fd == ps[index[fd]].fd ==> Table(ps[index[fd] := p], index, off)
  {
  }

  /** The table without the slot of `fd`, whose place the last slot takes. */
  ghost function Removed(ps: seq<PollFd>, i: nat): seq<PollFd>
    requires i < |ps|
  {
    if i == |ps| - 1 then ps[..i] else ps[i := ps[|ps| - 1]][..|ps| - 1]
  }

  lemma SwapRemoves(ps: seq<PollFd>, i: nat)
    requires i < |ps| - 1
    ensures ps[i := ps[|ps| - 1]][|ps| - 1 := ps[i]][..|ps| - 1] == Removed(ps, i)
  {
  }

  lemma TableRemoveLast(ps: seq<PollFd>, index: map<nat, int>, off: set<nat>, fd: nat)
    requires Table(ps, index, off) && fd in index && index[fd] == |ps| - 1
    ensures Table(ps[..|ps| - 1], index - {fd}, off)
  {
  }

  lemma TableRemove(ps: seq<PollFd>, index: map<nat, int>, off: set<nat>, fd: nat)
    requires Table(ps, index, off) && fd in index && 0 <= index[fd] < |ps| - 1
    ensures FdOf(ps[|ps| - 1]) in index && FdOf(ps[|ps| - 1]) != fd
    ensures Table(Removed(ps, index[fd]), (index - {fd})[FdOf(ps[|ps| - 1]) := index[fd]], off)
  {
  }

  class Poller {
    var pollfds: seq<PollFd>
    var channels: map<nat, Channel>
    ghost var off: set<nat>     // descriptors updated without events since they were added

    /** Where each channel believes its slot to be. */
    ghost function Indexes(): map<nat, int>
      reads this`channels, channels.Values`index
    {
      map fd | fd in channels :: channels[fd].index
    }

    /** Every channel is filed under its own descriptor, and the table is in order. */
    ghost predicate Valid()
      reads this`pollfds, this`channels, this`off, channels.Values`index
    {
      && (forall fd :: fd in channels ==> channels[fd].fd == fd)
      && Table(pollfds, Indexes(), off)
    }

    constructor ()
      ensures Valid() && pollfds == [] && channels == map[] && off == {}
    {
      pollfds, channels, off := [], map[], {};
    }

    /** No two channels share a slot. */
    lemma Bijection(fd: nat, fd': nat)
      requires Valid() && fd in channels && fd' in channels && channels[fd].index == channels[fd'].index
      ensures fd == fd'
    {
      assert Indexes()[fd] == Indexes()[fd'];
    }

    /** Adds a new channel, or refreshes its slot; a slot without events is turned to its ignored form. */
    method UpdateChannel(ch: Channel)
      requires Valid()
      requires if ch.index < 0 then ch.fd !in channels && ch !in channels.Values
               else ch.fd in channels && channels[ch.fd] == ch
      modifies this, ch`index
      ensures Valid() && channels == old(channels)[ch.fd := ch]
      ensures off == if old(ch.index) < 0 then old(off) - {ch.fd}
                     else if ch.events == 0 then old(off) + {ch.fd} else old(off)
      ensures old(ch.index) < 0 ==> pollfds == old(pollfds) + [PollFd(ch.fd, ch.events, 0)]
      ensures old(ch.index) >= 0 ==>
                ch.index == old(ch.index) < |old(pollfds)|
                && pollfds == old(pollfds)[ch.index := PollFd(
                     if ch.events == 0 then Ignored(ch.fd) else old(pollfds)[ch.index].fd, ch.events, 0)]
    {
      if ch.index < 0 {
        AddChannel(ch);
      } else {
        RefreshChannel(ch);
      }
    }

    method AddChannel(ch: Channel)
      requires Valid() && ch.fd !in channels && ch !in channels.Values
      modifies this, ch`index
      ensures Valid() && channels == old(channels)[ch.fd := ch] && off == old(off) - {ch.fd}
      ensures pollfds == old(pollfds) + [PollFd(ch.fd, ch.events, 0)]
    {
      var pfd := PollFd(ch.fd, ch.events, 0);
      TableAdd(pollfds, Indexes(), off, pfd);
      ghost var index := Indexes()[ch.fd := |pollfds|];
      pollfds := pollfds + [pfd];
      ch.index := |pollfds| - 1;
      channels := channels[ch.fd := ch];
      off := off - {ch.fd};
      assert Indexes() == index;
    }

    method RefreshChannel(ch: Channel)
      requires Valid() && ch.fd in channels && channels[ch.fd] == ch
      modifies this`pollfds, this`off
      ensures Valid() && 0 <= ch.index < |old(pollfds)|
      ensures off == if ch.events == 0 then old(off) + {ch.fd} else old(off)
      ensures pollfds == old(pollfds)[ch.index := PollFd(
                if ch.events == 0 then Ignored(ch.fd) else old(pollfds)[ch.index].fd, ch.events, 0)]
    {
      var idx := ch.index;
      assert idx == Indexes()[ch.fd];
      var pfd := pollfds[idx].(events := ch.events, revents := 0);
      if ch.IsNoneEvent() {
        pfd := pfd.(fd := Ignored(ch.fd));
      }
      TableSet(pollfds, Indexes(), off, ch.fd, pfd);
      pollfds := pollfds[idx := pfd];
      off := if ch.IsNoneEvent() then off + {ch.fd} else off;
    }

    /**
     Takes a channel out; the last slot moves into its place. `asserted` says whether the source's assertion
     on the slot holds: exactly if the channel was updated without events since it was added, and last so.
     */
    method RemoveChannel(ch: Channel) returns (asserted: bool)
      requires Valid() && ch.fd in channels && channels[ch.fd] == ch && ch.IsNoneEvent()
      modifies this, channels.Values`index
      ensures Valid() && channels == old(channels) - {ch.fd} && off == old(off)
      ensures 0 <= old(ch.index) < |old(pollfds)|
      ensures asserted <==> ch.fd in off && old(pollfds)[old(ch.index)].events == 0
      ensures pollfds == Removed(old(pollfds), old(ch.index))
    {
      var idx := ch.index;
      assert idx == Indexes()[ch.fd];
      asserted := pollfds[idx].fd == Ignored(ch.fd) && pollfds[idx].events == ch.events;
      if idx == |pollfds| - 1 {
        DropLast(ch.fd);
      } else {
        SwapOut(ch.fd, idx);
      }
    }

    method DropLast(fd: nat)
      requires Valid() && fd in channels && channels[fd].index == |pollfds| - 1
      modifies this`pollfds, this`channels
      ensures Valid() && channels == old(channels) - {fd}
      ensures |old(pollfds)| > 0 && pollfds == old(pollfds)[..|old(pollfds)| - 1]
    {
      TableRemoveLast(pollfds, Indexes(), off, fd);
      ghost var index := Indexes() - {fd};
      channels := channels - {fd};
      pollfds := pollfds[..|pollfds| - 1];
      assert Indexes() == index;
    }

    method SwapOut(fd: nat, idx: nat)
      requires Valid() && fd in channels && channels[fd].index == idx < |pollfds| - 1
      modifies this`pollfds, this`channels, channels.Values`index
      ensures Valid() && channels == old(channels) - {fd} && pollfds == Removed(old(pollfds), idx)
    {
      TableRemove(pollfds, Indexes(), off, fd);
      SwapRemoves(pollfds, idx);
      var end := |pollfds| - 1;
      ghost var index := (Indexes() - {fd})[FdOf(pollfds[end]) := idx];
      var channelAtEnd := pollfds[end].fd;
      if channelAtEnd < 0 {
        channelAtEnd := -channelAtEnd - 1;
      }
      channels := channels - {fd};
      channels[channelAtEnd].index := idx;
      pollfds := pollfds[idx := pollfds[end]][end := pollfds[idx]][..end];
      assert Indexes() == index;
    }

    /** The channel of slot `i`. */
    ghost function ChannelAt(i: nat): Channel
      requires Valid() && i < |pollfds|
      reads this`pollfds, this`channels, this`off, channels.Values`index
    {
      channels[FdOf(pollfds[i])]
    }

    /** `active` are the channels of `slots`, each with its slot's events. */
    ghost predicate Collected(active: seq<Channel>, slots: seq<nat>)
      requires Valid()
      reads this, channels.Values
    {
      && |active| == |slots|
      && forall k :: 0 <= k < |slots| ==>
           slots[k] < |pollfds| && active[k] == ChannelAt(slots[k]) && active[k].revents == pollfds[slots[k]].revents
    }

    /** Channels outside `active` keep the events they had. */
    ghost predicate Untouched(active: seq<Channel>, was: map<nat, int>)
      reads this, channels.Values
    {
      forall fd :: fd in channels && channels[fd] !in active ==> fd in was && channels[fd].revents == was[fd]
    }

    /** What the scan of the first `i` slots has established. */
    ghost predicate Scanned(i: nat, active: seq<Channel>, was: map<nat, int>)
      requires Valid()
      reads this, channels.Values
    {
      && i <= |pollfds| && Collected(active, Eventful(pollfds[..i])) && Untouched(active, was)
      && forall k :: 0 <= k < |Eventful(pollfds[..i])| ==> Eventful(pollfds[..i])[k] < i
    }

    /** Hands slot `i`'s events to its channel. */
    method Activate(i: nat, active: seq<Channel>, ghost slots: seq<nat>, ghost was: map<nat, int>)
      returns (channel: Channel)
      requires Valid() && i < |pollfds| && pollfds[i].fd >= 0
      requires Collected(active, slots) && forall k :: 0 <= k < |slots| ==> slots[k] < i
      requires Untouched(active, was)
      modifies ChannelAt(i)`revents
      ensures Valid() && Collected(active + [channel], slots + [i]) && Untouched(active + [channel], was)
    {
      channel := channels[pollfds[i].fd];
      assert channel.index == i;
      channel.revents := pollfds[i].revents;
      forall k | 0 <= k < |slots| ensures active[k].revents == pollfds[slots[k]].revents {
        assert active[k].index == slots[k];
      }
    }

    /** The turn of the loop on a slot with events. */
    method ScanHit(i: nat, active: seq<Channel>, ghost was: map<nat, int>) returns (active': seq<Channel>)
      requires Valid() && i < |pollfds| && Scanned(i, active, was) && pollfds[i].revents > 0 && pollfds[i].fd >= 0
      modifies channels.Values`revents
      ensures Valid() && Scanned(i + 1, active', was) && |active'| == |active| + 1
    {
      EventfulPrefix(pollfds, i);
      assert ChannelAt(i) in channels.Values;
      var channel := Activate(i, active, Eventful(pollfds[..i]), was);
      active' := active + [channel];
    }

    lemma ScanMiss(i: nat, active: seq<Channel>, was: map<nat, int>)
      requires Valid() && i < |pollfds| && Scanned(i, active, was) && pollfds[i].revents <= 0
      ensures Scanned(i + 1, active, was)
    {
      EventfulPrefix(pollfds, i);
    }

    /**
     Collects, in slot order, the channels of the first `numEvents` slots with events and hands each its events.
     The kernel reports events only on slots it does not ignore.
     */
    method FillActiveChannels(numEvents: int) returns (active: seq<Channel>)
      requires Valid()
      requires forall i :: 0 <= i < |pollfds| && pollfds[i].revents > 0 ==> pollfds[i].fd >= 0
      modifies channels.Values`revents
      ensures Valid() && Collected(active, Eventful(pollfds)[..Least(|Eventful(pollfds)|, numEvents)])
      ensures Untouched(active, old(map fd | fd in channels :: channels[fd].revents))
    {
      ghost var was := map fd | fd in channels :: channels[fd].revents;
      ghost var i;
      active, i := ScanSlots(numEvents, was);
      ScanFound(pollfds, i, Eventful(pollfds[..i]), numEvents);
    }

    /** The loop: it stops at the end of the table or once it has found as many as the kernel counted. */
    method ScanSlots(numEvents: int, ghost was: map<nat, int>) returns (active: seq<Channel>, ghost stop: nat)
      requires Valid() && Untouched([], was)
      requires forall i :: 0 <= i < |pollfds| && pollfds[i].revents > 0 ==> pollfds[i].fd >= 0
      modifies channels.Values`revents
      ensures Valid() && Scanned(stop, active, was) && (stop == |pollfds| || numEvents <= |active|)
      ensures numEvents >= |active| || active == []
    {
      active := [];
      var left := numEvents;
      var i := 0;
      EventfulPrefix(pollfds, 0);
      while i < |pollfds| && left > 0
        invariant Valid() && Scanned(i, active, was)
        invariant left == numEvents - |active| && (left >= 0 || active == [])
        decreases |pollfds| - i
      {
        if pollfds[i].revents > 0 {
          left := left - 1;
          active := ScanHit(i, active, was);
        } else {
          ScanMiss(i, active, was);
        }
        i := i + 1;
      }
      stop := i;
    }
  }

  /** A channel added without events and removed: the source's assertion fails. */
  method RemovedAtOnce() returns (asserted: bool)
    ensures !asserted
  {
    var poller := new Poller();
    var ch := new Channel(3);
    poller.UpdateChannel(ch);
    asserted := poller.RemoveChannel(ch);
  }

  function Least(a: nat, b: int): nat {
    if b < 0 then 0 else if a < b then a else b
  }

  /** The slots with events, in order. */
  function Eventful(ps: seq<PollFd>): seq<nat> {
    if ps == [] then []
    else
      var n := |ps| - 1;
      var before := Eventful(ps[..n]);
      if ps[n].revents > 0 then before + [n] else before
  }

  /** Exactly the slots with events are there, each once. */
  lemma {:induction false} EventfulExact(ps: seq<PollFd>)
    ensures forall i :: i in Eventful(ps) <==> 0 <= i < |ps| && ps[i].revents > 0
    ensures forall j, k :: 0 <= j < k < |Eventful(ps)| ==> Eventful(ps)[j] < Eventful(ps)[k]
  {
    if ps != [] {
      var n := |ps| - 1;
      EventfulExact(ps[..n]);
      var before := Eventful(ps[..n]);
      assert forall k :: 0 <= k < |before| ==> before[k] in before;
    }
  }

  /** A scan of the first `i` slots that stopped at the end or at the count found the first `numEvents`. */
  lemma ScanFound(ps: seq<PollFd>, i: nat, slots: seq<nat>, numEvents: int)
    requires i <= |ps| && slots == Eventful(ps[..i]) && (numEvents >= |slots| || slots == [])
    requires i == |ps| || numEvents <= |slots|
    ensures slots == Eventful(ps)[..Least(|Eventful(ps)|, numEvents)]
  {
    EventfulStart(ps, i);
    assert i == |ps| ==> ps[..i] == ps;
    assert slots == Eventful(ps)[..|slots|];
  }

  lemma EventfulPrefix(ps: seq<PollFd>, i: nat)
    requires i <= |ps|
    ensures i == 0 ==> Eventful(ps[..i]) == []
    ensures i < |ps| ==>
              Eventful(ps[..i + 1]) == if ps[i].revents > 0 then Eventful(ps[..i]) + [i] else Eventful(ps[..i])
  {
    if i < |ps| {
      assert ps[..i + 1][..i] == ps[..i];
    }
  }

  /** The slots with events among the first `i` come first. */
  lemma {:induction false} EventfulStart(ps: seq<PollFd>, i: nat)
    requires i <= |ps|
    ensures Eventful(ps[..i]) <= Eventful(ps)
  {
    if i == |ps| {
      assert ps[..i] == ps;
    } else {
      var n := |ps| - 1;
      EventfulStart(ps[..n], i);
      assert ps[..n][..i] == ps[..i];
    }
  }
}
