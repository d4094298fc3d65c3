/**
 The mock host's terminal streams: a subscription replaces the one before it
 for the same socket and terminal, and frames may be delivered late.
*/
module TerminalStreams {
  import opened Wrappers

  type Socket = nat

  /** What a subscription is for. */
  datatype Target = Target(socket: Socket, terminal: string)

  /** A stream object; `chunkIndex` is the variable its timer closes over. */
  datatype Stream = Stream(target: Target, timer: bool, chunkIndex: nat)

  /** Frame 0 of a stream is its scrollback, frame n + 1 its chunk n. Streams are known by their number. */
  datatype Frame = Frame(stream: nat, number: nat)

  /**
   `registered` is the map of streams by socket and terminal, `pending` the
   frames whose delayed delivery is outstanding, `sent` all frames ever sent.
  */
  datatype Host = Host(
    chunks: nat,
    delayed: bool,
    streams: seq<Stream>,
    registered: map<Target, nat>,
    pending: seq<Frame>,
    sent: seq<Frame>,
    closed: set<Socket>)

  function NewHost(chunks: nat, delayed: bool): Host {
    Host(chunks, delayed, [], map[], [], [], {})
  }

  /** Every stream that anything refers to exists. */
  predicate Known(h: Host) {
    && (forall t :: t in h.registered ==> h.registered[t] < |h.streams|)
    && (forall i :: 0 <= i < |h.pending| ==> h.pending[i].stream < |h.streams|)
    && (forall i :: 0 <= i < |h.sent| ==> h.sent[i].stream < |h.streams|)
  }

  predicate IsCurrent(h: Host, s: nat)
    requires s < |h.streams|
  {
    var target := h.streams[s].target;
    target in h.registered && h.registered[target] == s && target.socket !in h.closed
  }

  function Stopped(h: Host, s: nat): Host
    requires s < |h.streams|
  {
    h.(streams := h.streams[s := h.streams[s].(timer := false)])
  }

  function Cleared(h: Host, target: Target): Host
    requires Known(h)
  {
    if target !in h.registered then h
    else Stopped(h, h.registered[target]).(registered := h.registered - {target})
  }

  function Begun(h: Host, target: Target): Host
    requires Known(h)
  {
    var c := Cleared(h, target);
    c.(streams := c.streams + [Stream(target, false, 0)], registered := c.registered[target := |c.streams|])
  }

  /** The delivery of a frame: it is sent if its stream is still the current one. */
  function Delivered(h: Host, frame: Frame): Host
    requires frame.stream < |h.streams|
  {
    if IsCurrent(h, frame.stream) then h.(sent := h.sent + [frame]) else h
  }

  function Responded(h: Host, frame: Frame): Host
    requires frame.stream < |h.streams|
  {
    if h.delayed then h.(pending := h.pending + [frame]) else Delivered(h, frame)
  }

  function Subscribed(h: Host, target: Target): Host
    requires Known(h)
  {
    var s := |h.streams|;
    var r := Responded(Begun(h, target), Frame(s, 0));
    r.(streams := r.streams[s := r.streams[s].(timer := true)])
  }

  /** One run of the timer of stream `s`. */
  function Ticked(h: Host, s: nat): Host
    requires s < |h.streams|
  {
    if !IsCurrent(h, s) || h.streams[s].chunkIndex >= h.chunks then Stopped(h, s)
    else
      var n := h.streams[s].chunkIndex;
      var r := Responded(h, Frame(s, n + 1));
      r.(streams := r.streams[s := r.streams[s].(chunkIndex := n + 1)])
  }

  function DeliveredAt(h: Host, k: nat): Host
    requires k < |h.pending| && h.pending[k].stream < |h.streams|
  {
    Delivered(h.(pending := h.pending[..k] + h.pending[k + 1..]), h.pending[k])
  }

  // ---- The module's state and its handlers ----

  class TerminalBackend {
    const chunks: nat
    const delayed: bool
    var streams: seq<Stream>
    var registered: map<Target, nat>
    var pending: seq<Frame>
    var sent: seq<Frame>
    var closed: set<Socket>

    function State(): Host
      reads this
    {
      Host(chunks, delayed, streams, registered, pending, sent, closed)
    }

    constructor (chunks: nat, delayed: bool)
      ensures State() == NewHost(chunks, delayed)
    {
      this.chunks := chunks;
      this.delayed := delayed;
      streams, registered, pending, sent, closed := [], map[], [], [], {};
    }

    method StopTerminalStreamInterval(s: nat)
      requires s < |streams|
      modifies this
      ensures State() == Stopped(old(State()), s)
    {
      if streams[s].timer {
        streams := streams[s := streams[s].(timer := false)];
      } else {
        assert streams[s := streams[s].(timer := false)] == streams;
      }
    }

    method ClearTerminalStream(target: Target)
      requires Known(State())
      modifies this
      ensures State() == Cleared(old(State()), target)
    {
      if target in registered {
        StopTerminalStreamInterval(registered[target]);
        registered := registered - {target};
      }
    }

    method BeginTerminalStream(target: Target) returns (stream: nat)
      requires Known(State())
      modifies this
      ensures State() == Begun(old(State()), target) && stream == |old(streams)|
    {
      ClearTerminalStream(target);
      stream := |streams|;
      streams := streams + [Stream(target, false, 0)];
      registered := registered[target := stream];
    }

    method Deliver(frame: Frame)
      requires frame.stream < |streams|
      modifies this
      ensures State() == Delivered(old(State()), frame)
    {
      if IsCurrent(State(), frame.stream) {
        sent := sent + [frame];
      }
    }

    method Respond(frame: Frame)
      requires frame.stream < |streams|
      modifies this
      ensures State() == Responded(old(State()), frame)
    {
      if delayed {
        pending := pending + [frame];
        return;
      }
      Deliver(frame);
    }

    method Subscribe(target: Target)
      requires Known(State())
      modifies this
      ensures State() == Subscribed(old(State()), target)
    {
      var stream := BeginTerminalStream(target);
      Respond(Frame(stream, 0));
      streams := streams[stream := streams[stream].(timer := true)];
    }

    method Tick(stream: nat)
      requires stream < |streams|
      modifies this
      ensures State() == Ticked(old(State()), stream)
    {
      if !IsCurrent(State(), stream) {
        StopTerminalStreamInterval(stream);
        return;
      }
      var chunkIndex := streams[stream].chunkIndex;
      if chunkIndex >= chunks {
        StopTerminalStreamInterval(stream);
        return;
      }
      Respond(Frame(stream, chunkIndex + 1));
      streams := streams[stream := streams[stream].(chunkIndex := chunkIndex + 1)];
    }

    method DeliverPending(k: nat)
      requires k < |pending| && pending[k].stream < |streams|
      modifies this
      ensures State() == DeliveredAt(old(State()), k)
    {
      var frame := pending[k];
      pending := pending[..k] + pending[k + 1..];
      Deliver(frame);
    }

    method Close(socket: Socket)
      modifies this
      ensures State() == old(State()).(closed := old(closed) + {socket})
    {
      closed := closed + {socket};
    }
  }

  // ---- Runs ----

  datatype Event =
    | Subscribe(target: Target)
    | Unsubscribe(target: Target)
    | Tick(stream: nat)
    | Deliver(position: nat)
    | Close(socket: Socket)

  /**
   A timer runs while it is set. Outstanding frames of one stream have the same
   delay, so they come up for delivery in the order in which they were made.
  */
  predicate CanHappen(h: Host, e: Event) {
    match e
    case Tick(s) => s < |h.streams| && h.streams[s].timer
    case Deliver(k) => k < |h.pending| && forall j :: 0 <= j < k ==> h.pending[j].stream != h.pending[k].stream
    case _ => true
  }

  function Next(h: Host, e: Event): Host
    requires Known(h) && CanHappen(h, e)
  {
    match e
    case Subscribe(target) => Subscribed(h, target)
    case Unsubscribe(target) => Cleared(h, target)
    case Tick(s) => Ticked(h, s)
    case Deliver(k) => DeliveredAt(h, k)
    case Close(socket) => h.(closed := h.closed + {socket})
  }

  ghost predicate IsRun(hosts: seq<Host>, events: seq<Event>) {
    && |hosts| == |events| + 1
    && (exists chunks, delayed :: hosts[0] == NewHost(chunks, delayed))
    && forall i {:trigger events[i]} :: 0 <= i < |events| ==>
                                          && Known(hosts[i]) && CanHappen(hosts[i], events[i])
                                          && hosts[i + 1] == Next(hosts[i], events[i])
  }

  /** The numbers of the frames of stream `s`, in order. */
  function Numbers(frames: seq<Frame>, s: nat): seq<nat> {
    if frames == [] then []
    else Numbers(frames[..|frames| - 1], s)
         + if frames[|frames| - 1].stream == s then [frames[|frames| - 1].number] else []
  }

  /** 0, 1, 2 and so on. */
  predicate InOrder(numbers: seq<nat>) {
    forall i :: 0 <= i < |numbers| ==> numbers[i] == i
  }

  predicate StreamInv(h: Host, s: nat)
    requires s < |h.streams|
  {
    var stream := h.streams[s];
    && (stream.timer ==> stream.target in h.registered && h.registered[stream.target] == s)
    && stream.chunkIndex <= h.chunks
    && InOrder(Numbers(h.sent, s)) && |Numbers(h.sent, s)| <= stream.chunkIndex + 1
    && (IsCurrent(h, s) ==>
          && InOrder(Numbers(h.sent, s) + Numbers(h.pending, s))
          && |Numbers(h.sent, s) + Numbers(h.pending, s)| == stream.chunkIndex + 1)
  }

  ghost predicate Inv(h: Host) {
    && Known(h)
    && (!h.delayed ==> h.pending == [])
    && (forall t :: t in h.registered ==> h.streams[h.registered[t]].target == t)
    && forall s :: 0 <= s < |h.streams| ==> StreamInv(h, s)
  }

  lemma NumbersAppend(frames: seq<Frame>, f: Frame, s: nat)
    ensures Numbers(frames + [f], s) == Numbers(frames, s) + if f.stream == s then [f.number] else []
  {
    assert (frames + [f])[..|frames|] == frames;
  }

  lemma {:induction false} NumbersConcat(a: seq<Frame>, b: seq<Frame>, s: nat)
    ensures Numbers(a + b, s) == Numbers(a, s) + Numbers(b, s)
    decreases |b|
  {
    if b == [] {
      assert a + b == a;
    } else {
      var n := |b| - 1;
      NumbersConcat(a, b[..n], s);
      assert a + b == (a + b[..n]) + [b[n]];
      NumbersAppend(a + b[..n], b[n], s);
    }
  }

  lemma {:induction false} NumbersOfNone(frames: seq<Frame>, s: nat)
    requires forall i :: 0 <= i < |frames| ==> frames[i].stream != s
    ensures Numbers(frames, s) == []
    decreases |frames|
  {
    if frames != [] {
      NumbersOfNone(frames[..|frames| - 1], s);
    }
  }

  /** Taking the first frame of a stream out of the queue. */
  lemma NumbersRemove(frames: seq<Frame>, k: nat, s: nat)
    requires k < |frames| && forall j :: 0 <= j < k ==> frames[j].stream != frames[k].stream
    ensures var rest := frames[..k] + frames[k + 1..];
            Numbers(frames, s) == (if s == frames[k].stream then [frames[k].number] else []) + Numbers(rest, s)
  {
    var f := frames[k];
    NumbersConcat(frames[..k], frames[k + 1..], s);
    NumbersConcat(frames[..k] + [f], frames[k + 1..], s);
    NumbersAppend(frames[..k], f, s);
    assert frames == frames[..k] + [f] + frames[k + 1..];
    if s == f.stream {
      NumbersOfNone(frames[..k], s);
    }
  }

  // ---- What every step keeps ----

  /** The order of the frames of stream `t`: those sent, and with those outstanding if it is current. */
  predicate Ordered(h: Host, t: nat)
    requires t < |h.streams|
  {
    && InOrder(Numbers(h.sent, t))
    && (IsCurrent(h, t) ==> InOrder(Numbers(h.sent, t) + Numbers(h.pending, t)))
  }

  function Made(h: Host, t: nat): nat {
    |Numbers(h.sent, t) + Numbers(h.pending, t)|
  }

  /** Everything but the frames. */
  predicate SameStreams(h: Host, m: Host) {
    && h.streams == m.streams && h.registered == m.registered && h.closed == m.closed
    && h.chunks == m.chunks && h.delayed == m.delayed
  }

  /** Responding with the next frame of its stream keeps the frames of every stream in order. */
  lemma RespondedKeepsOrder(h: Host, f: Frame, t: nat)
    requires f.stream < |h.streams| && t < |h.streams| && (!h.delayed ==> h.pending == [])
    requires Ordered(h, t)
    requires t == f.stream && IsCurrent(h, t) ==> f.number == Made(h, t)
    ensures var r := Responded(h, f);
            && SameStreams(h, r) && Ordered(r, t)
            && |Numbers(r.sent, t)| <= |Numbers(h.sent, t)| + (if t == f.stream then 1 else 0)
            && (IsCurrent(h, t) ==> Made(r, t) == Made(h, t) + if t == f.stream then 1 else 0)
  {
    hide InOrder, Numbers;
    var ns, np := Numbers(h.sent, t), Numbers(h.pending, t);
    var more := if t == f.stream then [f.number] else [];
    NumbersAppend(h.sent, f, t);
    NumbersAppend(h.pending, f, t);
    assert ns + (np + more) == (ns + np) + more;
    assert ns + [] == ns && (ns + np) + [] == ns + np;
    if t == f.stream && IsCurrent(h, t) {
      OrderFacts(ns + np, []);
      if !h.delayed {
        NumbersOfNone(h.pending, t);
        assert np == [] && (ns + more) + np == (ns + np) + more == ns + more;
      }
    }
  }

  lemma OrderFacts(a: seq<nat>, b: seq<nat>)
    ensures InOrder([])
    ensures InOrder(a) ==> InOrder(a + [|a|])
    ensures InOrder(a + b) ==> InOrder(a)
  {
    assert forall i :: 0 <= i < |a| ==> a[i] == (a + b)[i];
  }

  /** Delivering the first outstanding frame of its stream keeps the frames of every stream in order. */
  lemma DeliveredKeepsOrder(h: Host, k: nat, t: nat)
    requires k < |h.pending| && h.pending[k].stream < |h.streams| && t < |h.streams|
    requires forall j :: 0 <= j < k ==> h.pending[j].stream != h.pending[k].stream
    requires Ordered(h, t)
    ensures var d := DeliveredAt(h, k);
            && SameStreams(h, d) && Ordered(d, t)
            && (IsCurrent(h, t) ==> Made(d, t) == Made(h, t) && |Numbers(d.sent, t)| <= Made(h, t))
            && (!IsCurrent(h, t) ==> Numbers(d.sent, t) == Numbers(h.sent, t))
  {
    hide InOrder, Numbers;
    var f := h.pending[k];
    var ns := Numbers(h.sent, t);
    var rest := Numbers(h.pending[..k] + h.pending[k + 1..], t);
    NumbersAppend(h.sent, f, t);
    NumbersRemove(h.pending, k, t);
    assert ns + [] == ns && [] + rest == rest;
    if t == f.stream {
      assert (ns + [f.number]) + rest == ns + Numbers(h.pending, t);
      if IsCurrent(h, t) {
        OrderFacts(ns + [f.number], rest);
      }
    }
  }

  lemma StoppedKeepsInv(h: Host, s: nat)
    requires Inv(h) && s < |h.streams|
    ensures Inv(Stopped(h, s))
  {
    hide Numbers, InOrder;
    var m := Stopped(h, s);
    forall t | 0 <= t < |m.streams|
      ensures StreamInv(m, t)
    {
      assert StreamInv(h, t) && IsCurrent(m, t) == IsCurrent(h, t);
    }
  }

  lemma ClearedKeepsInv(h: Host, target: Target)
    requires Inv(h)
    ensures Inv(Cleared(h, target)) && target !in Cleared(h, target).registered
  {
    hide Numbers, InOrder;
    var m := Cleared(h, target);
    forall t | 0 <= t < |m.streams|
      ensures StreamInv(m, t)
    {
      assert StreamInv(h, t);
    }
  }

  lemma SubscribedKeepsInv(h: Host, target: Target)
    requires Inv(h)
    ensures Inv(Subscribed(h, target))
  {
    hide Numbers, InOrder, StreamInv, Cleared;
    ClearedKeepsInv(h, target);
    var c := Cleared(h, target);
    var b := Begun(h, target);
    var s := |c.streams|;
    var m := Subscribed(h, target);
    assert s == |h.streams| by { ClearedKeepsLength(h, target); }
    assert m.registered == c.registered[target := s];
    forall t | 0 <= t < |m.streams|
      ensures StreamInv(m, t)
    {
      SubscribedStream(c, target, t);
    }
    SubscribedKnown(c, target);
  }

  lemma ClearedKeepsLength(h: Host, target: Target)
    requires Known(h)
    ensures |Cleared(h, target).streams| == |h.streams| && Cleared(h, target).closed == h.closed
  {
  }

  /** The subscription proper, once the old stream is cleared away. */
  function Opened(c: Host, target: Target): Host {
    c.(streams := c.streams + [Stream(target, false, 0)], registered := c.registered[target := |c.streams|])
  }

  lemma SubscribedStream(c: Host, target: Target, t: nat)
    requires Inv(c) && target !in c.registered && t <= |c.streams|
    ensures var s := |c.streams|;
            var r := Responded(Opened(c, target), Frame(s, 0));
            StreamInv(r.(streams := r.streams[s := r.streams[s].(timer := true)]), t)
  {
    hide Numbers, InOrder, Responded;
    var s, b := |c.streams|, Opened(c, target);
    NumbersOfNone(c.sent, s);
    NumbersOfNone(c.pending, s);
    if t < s {
      assert StreamInv(c, t);
      assert IsCurrent(b, t) == IsCurrent(c, t);
    } else {
      assert Numbers(b.sent, t) + Numbers(b.pending, t) == [];
      OrderFacts([], []);
    }
    RespondedKeepsOrder(b, Frame(s, 0), t);
    var r := Responded(b, Frame(s, 0));
    assert forall u {:trigger IsCurrent(r, u)} :: 0 <= u <= s ==>
        IsCurrent(r.(streams := r.streams[s := r.streams[s].(timer := true)]), u) == IsCurrent(r, u);
  }

  lemma SubscribedKnown(c: Host, target: Target)
    requires Inv(c) && target !in c.registered
    ensures var s := |c.streams|;
            var r := Responded(Opened(c, target), Frame(s, 0));
            var m := r.(streams := r.streams[s := r.streams[s].(timer := true)]);
            && Known(m) && (!m.delayed ==> m.pending == [])
            && forall t :: t in m.registered ==> m.streams[m.registered[t]].target == t
  {
    hide StreamInv;
  }

  lemma TickedKeepsInv(h: Host, s: nat)
    requires Inv(h) && s < |h.streams| && h.streams[s].timer
    ensures Inv(Ticked(h, s))
  {
    hide Numbers, InOrder, Responded;
    if !IsCurrent(h, s) || h.streams[s].chunkIndex >= h.chunks {
      StoppedKeepsInv(h, s);
    } else {
      var f := Frame(s, h.streams[s].chunkIndex + 1);
      var r := Responded(h, f);
      var m := Ticked(h, s);
      assert StreamInv(h, s);
      RespondedKeepsOrder(h, f, s);
      forall t | 0 <= t < |m.streams|
        ensures StreamInv(m, t)
      {
        assert StreamInv(h, t);
        RespondedKeepsOrder(h, f, t);
        assert IsCurrent(m, t) == IsCurrent(h, t);
      }
      RespondedProgress(h, f);
    }
  }

  lemma DeliveredKeepsInv(h: Host, k: nat)
    requires Inv(h) && CanHappen(h, Deliver(k))
    ensures Inv(DeliveredAt(h, k))
  {
    hide Numbers, InOrder;
    var m := DeliveredAt(h, k);
    forall t | 0 <= t < |m.streams|
      ensures StreamInv(m, t)
    {
      assert StreamInv(h, t);
      DeliveredKeepsOrder(h, k, t);
    }
  }

  lemma StepKeepsInv(h: Host, e: Event)
    requires Inv(h) && CanHappen(h, e)
    ensures Inv(Next(h, e))
  {
    match e
    case Subscribe(target) => SubscribedKeepsInv(h, target);
    case Unsubscribe(target) => ClearedKeepsInv(h, target);
    case Tick(s) => TickedKeepsInv(h, s);
    case Deliver(k) => DeliveredKeepsInv(h, k);
    case Close(socket) =>
      var m := Next(h, e);
      forall t | 0 <= t < |m.streams|
        ensures StreamInv(m, t)
      {
        assert StreamInv(h, t);
      }
  }

  lemma {:induction false} RunKeepsInv(hosts: seq<Host>, events: seq<Event>, i: nat)
    requires IsRun(hosts, events) && i < |hosts|
    ensures Inv(hosts[i])
  {
    hide StreamInv, Next, CanHappen;
    if i > 0 {
      RunKeepsInv(hosts, events, i - 1);
      assert events[i - 1] == events[i - 1] && hosts[i] == Next(hosts[i - 1], events[i - 1]);
      StepKeepsInv(hosts[i - 1], events[i - 1]);
    }
  }

  // ---- What every run keeps ----

  /** At most one timer runs for a socket and terminal, and it is that of the registered stream. */
  lemma OneTimerPerTarget(hosts: seq<Host>, events: seq<Event>, i: nat, s: nat, t: nat)
    requires IsRun(hosts, events) && i < |hosts| && s < |hosts[i].streams| && t < |hosts[i].streams|
    requires hosts[i].streams[s].timer && hosts[i].streams[t].timer
    requires hosts[i].streams[s].target == hosts[i].streams[t].target
    ensures s == t
    ensures hosts[i].streams[s].target in hosts[i].registered && hosts[i].registered[hosts[i].streams[s].target] == s
  {
    RunKeepsInv(hosts, events, i);
    assert StreamInv(hosts[i], s) && StreamInv(hosts[i], t);
  }

  /** The frames of any stream are sent in the order scrollback, chunk 0, chunk 1, none twice and none left out. */
  lemma FramesSentInOrder(hosts: seq<Host>, events: seq<Event>, i: nat, s: nat)
    requires IsRun(hosts, events) && i < |hosts| && s < |hosts[i].streams|
    ensures InOrder(Numbers(hosts[i].sent, s))
    ensures |Numbers(hosts[i].sent, s)| <= hosts[i].chunks + 1
  {
    RunKeepsInv(hosts, events, i);
    assert StreamInv(hosts[i], s);
  }

  /** Nothing is sent between the two, or one frame of a stream that is current. */
  predicate SendsCurrent(h: Host, m: Host) {
    || m.sent == h.sent
    || (&& |m.sent| == |h.sent| + 1 && m.sent[..|h.sent|] == h.sent
        && m.sent[|h.sent|].stream < |m.streams| && IsCurrent(m, m.sent[|h.sent|].stream))
  }

  /** Streams stay, and one that is not current does not become current again. */
  predicate Supersedes(h: Host, m: Host) {
    && |m.streams| >= |h.streams|
    && forall s :: 0 <= s < |h.streams| && !IsCurrent(h, s) ==> !IsCurrent(m, s)
  }

  lemma RespondedProgress(h: Host, f: Frame)
    requires f.stream < |h.streams|
    ensures var r := Responded(h, f);
            && SameStreams(h, r) && SendsCurrent(h, r)
            && (Known(h) && (!h.delayed ==> h.pending == []) ==> Known(r) && (!r.delayed ==> r.pending == []))
  {
  }

  lemma ClearedProgress(h: Host, target: Target)
    requires Inv(h)
    ensures SendsCurrent(h, Cleared(h, target)) && Supersedes(h, Cleared(h, target))
  {
    hide StreamInv;
  }

  lemma SubscribedProgress(h: Host, target: Target)
    requires Inv(h)
    ensures SendsCurrent(h, Subscribed(h, target)) && Supersedes(h, Subscribed(h, target))
  {
    assert Cleared(h, target).sent == h.sent;
    hide StreamInv, Cleared, Responded;
    ClearedKeepsInv(h, target);
    ClearedKeepsLength(h, target);
    ClearedProgress(h, target);
    var c := Cleared(h, target);
    var s := |c.streams|;
    RespondedProgress(Begun(h, target), Frame(s, 0));
    OpenedSupersedes(c, target);
  }

  lemma OpenedSupersedes(c: Host, target: Target)
    requires Inv(c) && target !in c.registered
    ensures Supersedes(c, Opened(c, target))
  {
    hide StreamInv;
  }

  lemma TickedProgress(h: Host, s: nat)
    requires s < |h.streams|
    ensures SendsCurrent(h, Ticked(h, s)) && Supersedes(h, Ticked(h, s))
  {
    hide Responded;
    RespondedProgress(h, Frame(s, h.streams[s].chunkIndex + 1));
  }

  lemma DeliveredProgress(h: Host, k: nat)
    requires k < |h.pending| && h.pending[k].stream < |h.streams|
    ensures SendsCurrent(h, DeliveredAt(h, k)) && Supersedes(h, DeliveredAt(h, k))
  {
  }

  lemma StepProgress(h: Host, e: Event)
    requires Inv(h) && CanHappen(h, e)
    ensures SendsCurrent(h, Next(h, e)) && Supersedes(h, Next(h, e))
  {
    hide StreamInv, Cleared, Subscribed, Ticked, DeliveredAt;
    assert e.Close? ==> SendsCurrent(h, Next(h, e)) && Supersedes(h, Next(h, e));
    hide SendsCurrent, Supersedes;
    match e
    case Subscribe(target) => SubscribedProgress(h, target);
    case Unsubscribe(target) => ClearedProgress(h, target);
    case Tick(s) => TickedProgress(h, s);
    case Deliver(k) => DeliveredProgress(h, k);
    case Close(_) =>
  }

  /** A frame is sent only while its stream is the registered one of an open socket. */
  lemma SentOnlyWhileCurrent(hosts: seq<Host>, events: seq<Event>, i: nat)
    requires IsRun(hosts, events) && i < |events|
    ensures SendsCurrent(hosts[i], hosts[i + 1])
  {
    hide StreamInv, Next, CanHappen, IsCurrent, SendsCurrent;
    RunKeepsInv(hosts, events, i);
    assert hosts[i + 1] == Next(hosts[i], events[i]);
    StepProgress(hosts[i], events[i]);
  }

  /**
   Once a stream is superseded, by a resubscription or otherwise, nothing of it
   is sent any more: not by its timer and not by a delivery still outstanding.
  */
  lemma {:induction false} NothingSentOnceSuperseded(hosts: seq<Host>, events: seq<Event>, i: nat, j: nat, s: nat)
    requires IsRun(hosts, events) && i <= j < |hosts| && s < |hosts[i].streams| && !IsCurrent(hosts[i], s)
    ensures s < |hosts[j].streams| && !IsCurrent(hosts[j], s)
    ensures Numbers(hosts[j].sent, s) == Numbers(hosts[i].sent, s)
    decreases j
  {
    hide StreamInv, Next, CanHappen, IsCurrent, Numbers;
    if i < j {
      NothingSentOnceSuperseded(hosts, events, i, j - 1, s);
      RunKeepsInv(hosts, events, j - 1);
      assert hosts[j] == Next(hosts[j - 1], events[j - 1]);
      StepProgress(hosts[j - 1], events[j - 1]);
      if hosts[j].sent != hosts[j - 1].sent {
        var n := |hosts[j - 1].sent|;
        assert hosts[j].sent == hosts[j - 1].sent + [hosts[j].sent[n]];
        NumbersAppend(hosts[j - 1].sent, hosts[j].sent[n], s);
      }
    }
  }

  /** A subscription supersedes every stream there was for its socket and terminal. */
  lemma SubscribeSupersedes(hosts: seq<Host>, events: seq<Event>, i: nat, s: nat)
    requires IsRun(hosts, events) && i < |events| && events[i].Subscribe?
    requires s < |hosts[i].streams| && hosts[i].streams[s].target == events[i].target
    ensures s < |hosts[i + 1].streams| && !IsCurrent(hosts[i + 1], s) && !hosts[i + 1].streams[s].timer
  {
    hide Numbers, InOrder;
    RunKeepsInv(hosts, events, i);
    assert hosts[i + 1] == Next(hosts[i], events[i]);
    assert StreamInv(hosts[i], s);
  }

  /**
   A stream left alone delivers everything: while it stays current, the frames
   sent and those still outstanding are together all it has made.
  */
  lemma NothingLostWhileCurrent(hosts: seq<Host>, events: seq<Event>, i: nat, s: nat)
    requires IsRun(hosts, events) && i < |hosts| && s < |hosts[i].streams| && IsCurrent(hosts[i], s)
    ensures var made := Numbers(hosts[i].sent, s) + Numbers(hosts[i].pending, s);
            InOrder(made) && |made| == hosts[i].streams[s].chunkIndex + 1
  {
    RunKeepsInv(hosts, events, i);
    assert StreamInv(hosts[i], s);
  }

  // ---- What every run gets done ----

  /** A current stream whose timer does not run has made all its frames. */
  ghost predicate AllMade(h: Host) {
    forall s :: 0 <= s < |h.streams| && IsCurrent(h, s) && !h.streams[s].timer ==> h.streams[s].chunkIndex >= h.chunks
  }

  lemma StoppedKeepsAllMade(h: Host, s: nat)
    requires AllMade(h) && s < |h.streams| && (!IsCurrent(h, s) || h.streams[s].chunkIndex >= h.chunks)
    ensures AllMade(Stopped(h, s))
  {
    var m := Stopped(h, s);
    assert forall t :: 0 <= t < |m.streams| ==> IsCurrent(m, t) == IsCurrent(h, t);
  }

  lemma ClearedKeepsAllMade(h: Host, target: Target)
    requires Inv(h) && AllMade(h)
    ensures AllMade(Cleared(h, target))
  {
    hide StreamInv;
    var m := Cleared(h, target);
    assert forall t :: 0 <= t < |m.streams| && IsCurrent(m, t) ==> IsCurrent(h, t) && m.streams[t] == h.streams[t];
  }

  lemma TickedKeepsAllMade(h: Host, s: nat)
    requires AllMade(h) && s < |h.streams| && h.streams[s].timer
    ensures AllMade(Ticked(h, s))
  {
    hide Responded;
    if !IsCurrent(h, s) || h.streams[s].chunkIndex >= h.chunks {
      StoppedKeepsAllMade(h, s);
    } else {
      var m := Ticked(h, s);
      RespondedProgress(h, Frame(s, h.streams[s].chunkIndex + 1));
      assert forall t :: 0 <= t < |m.streams| ==> IsCurrent(m, t) == IsCurrent(h, t);
    }
  }

  lemma SubscribedKeepsAllMade(h: Host, target: Target)
    requires Inv(h) && AllMade(h)
    ensures AllMade(Subscribed(h, target))
  {
    hide Cleared, Responded, StreamInv;
    ClearedKeepsAllMade(h, target);
    ClearedKeepsInv(h, target);
    ClearedKeepsLength(h, target);
    var c, m := Cleared(h, target), Subscribed(h, target);
    RespondedProgress(Begun(h, target), Frame(|h.streams|, 0));
    assert forall t :: 0 <= t < |c.streams| && IsCurrent(m, t) ==> IsCurrent(c, t) && m.streams[t] == c.streams[t];
  }

  lemma StepKeepsAllMade(h: Host, e: Event)
    requires Inv(h) && AllMade(h) && CanHappen(h, e)
    ensures AllMade(Next(h, e))
  {
    hide StreamInv, Cleared, Subscribed, Ticked;
    match e
    case Subscribe(target) => SubscribedKeepsAllMade(h, target);
    case Unsubscribe(target) => ClearedKeepsAllMade(h, target);
    case Tick(s) => TickedKeepsAllMade(h, s);
    case Deliver(k) => assert forall t :: 0 <= t < |h.streams| ==> IsCurrent(DeliveredAt(h, k), t) == IsCurrent(h, t);
    case Close(socket) =>
      assert forall t :: 0 <= t < |h.streams| && IsCurrent(Next(h, e), t) ==> IsCurrent(h, t);
  }

  lemma {:induction false} RunKeepsAllMade(hosts: seq<Host>, events: seq<Event>, i: nat)
    requires IsRun(hosts, events) && i < |hosts|
    ensures AllMade(hosts[i])
  {
    hide Next, CanHappen, IsCurrent, Inv;
    if i > 0 {
      RunKeepsAllMade(hosts, events, i - 1);
      RunKeepsInv(hosts, events, i - 1);
      assert hosts[i] == Next(hosts[i - 1], events[i - 1]);
      StepKeepsAllMade(hosts[i - 1], events[i - 1]);
    }
  }

  /** The timer of a current stream stops only when scrollback and all chunks have been made, sent or outstanding. */
  lemma EveryFrameIsMade(hosts: seq<Host>, events: seq<Event>, i: nat, s: nat)
    requires IsRun(hosts, events) && i < |hosts| && s < |hosts[i].streams| && IsCurrent(hosts[i], s)
    ensures hosts[i].streams[s].timer || Made(hosts[i], s) == hosts[i].chunks + 1
  {
    RunKeepsAllMade(hosts, events, i);
    RunKeepsInv(hosts, events, i);
    assert StreamInv(hosts[i], s);
  }

  /** And while it runs each of its ticks makes the next frame, if there is one left. */
  lemma TickMakesTheNext(hosts: seq<Host>, events: seq<Event>, i: nat, s: nat)
    requires IsRun(hosts, events) && i < |events| && events[i] == Tick(s)
    requires s < |hosts[i].streams| && IsCurrent(hosts[i], s) && Made(hosts[i], s) <= hosts[i].chunks
    ensures s < |hosts[i + 1].streams| && IsCurrent(hosts[i + 1], s) && hosts[i + 1].streams[s].timer
    ensures Made(hosts[i + 1], s) == Made(hosts[i], s) + 1
  {
    hide Numbers, InOrder, Responded;
    var h := hosts[i];
    RunKeepsInv(hosts, events, i);
    assert StreamInv(h, s) && hosts[i + 1] == Next(h, events[i]);
    RespondedKeepsOrder(h, Frame(s, h.streams[s].chunkIndex + 1), s);
  }

  function Subscriptions(events: seq<Event>): nat {
    if events == [] then 0
    else Subscriptions(events[..|events| - 1]) + if events[|events| - 1].Subscribe? then 1 else 0
  }

  /** The stream a target was subscribed to last, unless it was unsubscribed since; streams are counted from 0. */
  function WantedStream(events: seq<Event>, target: Target): Option<nat> {
    if events == [] then None
    else
      var before, last := events[..|events| - 1], events[|events| - 1];
      if last == Subscribe(target) then Some(Subscriptions(before))
      else if last == Unsubscribe(target) then None
      else WantedStream(before, target)
  }

  function RegisteredStream(h: Host, target: Target): Option<nat> {
    if target in h.registered then Some(h.registered[target]) else None
  }

  lemma StepRegisters(h: Host, e: Event, target: Target)
    requires Inv(h) && CanHappen(h, e)
    ensures var m := Next(h, e);
            && |m.streams| == |h.streams| + (if e.Subscribe? then 1 else 0)
            && m.closed == h.closed + (if e.Close? then {e.socket} else {})
            && RegisteredStream(m, target) == if e == Subscribe(target) then Some(|h.streams|)
                                             else if e == Unsubscribe(target) then None
                                             else RegisteredStream(h, target)
  {
    hide StreamInv;
    if e.Subscribe? {
      ClearedKeepsLength(h, e.target);
    }
  }

  /**
   In every run the registered stream of a target is the one it was last
   subscribed to, if it was not unsubscribed since; and that stream is current,
   and no other, unless its socket was closed.
  */
  lemma {:induction false} LastSubscriptionIsCurrent(hosts: seq<Host>, events: seq<Event>, i: nat, target: Target)
    requires IsRun(hosts, events) && i < |hosts|
    ensures |hosts[i].streams| == Subscriptions(events[..i])
    ensures RegisteredStream(hosts[i], target) == WantedStream(events[..i], target)
    ensures forall socket :: socket in hosts[i].closed <==> Close(socket) in events[..i]
  {
    hide Next, CanHappen, Inv, RegisteredStream;
    if i == 0 {
      assert RegisteredStream(hosts[0], target) == None by {
        NothingRegistered(hosts[0], target);
      }
    } else {
      LastSubscriptionIsCurrent(hosts, events, i - 1, target);
      RunKeepsInv(hosts, events, i - 1);
      assert hosts[i] == Next(hosts[i - 1], events[i - 1]);
      assert events[..i][..i - 1] == events[..i - 1] && events[..i] == events[..i - 1] + [events[i - 1]];
      StepRegisters(hosts[i - 1], events[i - 1], target);
    }
  }

  lemma NothingRegistered(h: Host, target: Target)
    requires h.registered == map[]
    ensures RegisteredStream(h, target) == None
  {
  }

  /** So a stream is current exactly when it is the one last asked for, and its socket was not closed. */
  lemma CurrentExactlyWhenWanted(hosts: seq<Host>, events: seq<Event>, i: nat, s: nat)
    requires IsRun(hosts, events) && i < |hosts| && s < |hosts[i].streams|
    ensures var target := hosts[i].streams[s].target;
            IsCurrent(hosts[i], s) <==>
            WantedStream(events[..i], target) == Some(s) && Close(target.socket) !in events[..i]
  {
    hide IsRun;
    LastSubscriptionIsCurrent(hosts, events, i, hosts[i].streams[s].target);
  }
}
