/**
 The push loops of the mock host's session tabs: one timer per socket and
 worktree, and the version numbers of the snapshots that they push.
*/
module TabsPush {
  import opened Wrappers

  type Socket = nat

  /** A timer, with the socket and worktree that its callback closes over. */
  datatype Timer = Timer(socket: Socket, worktree: string, running: bool)

  /** A snapshot: its version and the text of its content. */
  datatype Snapshot = Snapshot(version: nat, signature: string)

  /**
   `loops` is the map of push loops by socket and worktree. A socket in it has a
   listener that waits for its closing. Timers are known by their number. A
   socket that is not open may still be waiting for its closing to be reported.
  */
  datatype Host = Host(
    loops: map<Socket, map<string, nat>>,
    timers: seq<Timer>,
    snapshots: map<string, Snapshot>,
    notOpen: set<Socket>,
    closed: set<Socket>)

  const NEW_HOST := Host(map[], [], map[], {}, {})

  // ---- Snapshots ----

  /** The snapshot of a worktree whose content is now `content`. */
  function Current(snapshots: map<string, Snapshot>, worktree: string, content: string): Snapshot {
    if worktree in snapshots && snapshots[worktree].signature == content then snapshots[worktree]
    else Snapshot((if worktree in snapshots then snapshots[worktree].version else 0) + 1, content)
  }

  function Built(h: Host, worktree: string, content: string): Host {
    h.(snapshots := h.snapshots[worktree := Current(h.snapshots, worktree, content)])
  }

  // ---- Loops ----

  predicate Known(h: Host) {
    forall ws :: ws in h.loops ==> forall wt :: wt in h.loops[ws] ==> h.loops[ws][wt] < |h.timers|
  }

  predicate HasLoop(h: Host, ws: Socket, wt: string) {
    ws in h.loops && wt in h.loops[ws]
  }

  function Silenced(timers: seq<Timer>, t: nat): seq<Timer>
    requires t < |timers|
  {
    timers[t := timers[t].(running := false)]
  }

  function Stopped(h: Host, ws: Socket, wt: string): Host
    requires Known(h)
  {
    if !HasLoop(h, ws, wt) then h
    else h.(timers := Silenced(h.timers, h.loops[ws][wt]), loops := h.loops[ws := h.loops[ws] - {wt}])
  }

  function Started(h: Host, ws: Socket, wt: string): Host
    requires Known(h)
  {
    var s := Stopped(h, ws, wt);
    var loops := if ws in s.loops then s.loops[ws] else map[];
    s.(timers := s.timers + [Timer(ws, wt, true)], loops := s.loops[ws := loops[wt := |s.timers|]])
  }

  /** All timers of a socket's loops cleared, and the socket forgotten. */
  function Forgotten(h: Host, ws: Socket): Host
    requires Known(h)
  {
    if ws !in h.loops then h
    else
      h.(timers := seq(|h.timers|, t requires 0 <= t < |h.timers| =>
                     if t in h.loops[ws].Values then h.timers[t].(running := false) else h.timers[t]),
         loops := h.loops - {ws})
  }

  /** One run of timer `t`, and the version it pushes, if any. */
  function Fired(h: Host, t: nat, content: string): (Host, Option<nat>)
    requires Known(h) && t < |h.timers|
  {
    var timer := h.timers[t];
    if timer.socket in h.notOpen then (Stopped(h, timer.socket, timer.worktree), None)
    else
      var b := Built(h, timer.worktree, content);
      var version := b.snapshots[timer.worktree].version;
      if timer.worktree in h.snapshots && h.snapshots[timer.worktree].version == version then (b, None)
      else (b, Some(version))
  }

  // ---- The module's state and its handlers ----

  class TabsBackend {
    var loops: map<Socket, map<string, nat>>
    var timers: seq<Timer>
    var snapshots: map<string, Snapshot>
    var notOpen: set<Socket>
    var closed: set<Socket>

    function State(): Host
      reads this
    {
      Host(loops, timers, snapshots, notOpen, closed)
    }

    constructor ()
      ensures State() == NEW_HOST
    {
      loops, timers, snapshots, notOpen, closed := map[], [], map[], {}, {};
    }

    method BuildTabsResult(worktree: string, content: string) returns (version: nat)
      modifies this
      ensures State() == Built(old(State()), worktree, content)
      ensures worktree in snapshots && version == snapshots[worktree].version
    {
      var current := Snapshot(1, content);
      if worktree in snapshots {
        var previous := snapshots[worktree];
        current := if previous.signature == content then previous else Snapshot(previous.version + 1, content);
      }
      snapshots := snapshots[worktree := current];
      version := current.version;
    }

    method StopTabsPushLoop(ws: Socket, worktree: string)
      requires Known(State())
      modifies this
      ensures State() == Stopped(old(State()), ws, worktree)
    {
      if ws in loops && worktree in loops[ws] {
        var existing := loops[ws][worktree];
        timers := timers[existing := timers[existing].(running := false)];
        loops := loops[ws := loops[ws] - {worktree}];
      }
    }

    method StartTabsPushLoop(ws: Socket, worktree: string)
      requires Known(State())
      modifies this
      ensures State() == Started(old(State()), ws, worktree)
    {
      StopTabsPushLoop(ws, worktree);
      var interval := |timers|;
      timers := timers + [Timer(ws, worktree, true)];
      if ws !in loops {
        loops := loops[ws := map[]];
      }
      loops := loops[ws := loops[ws][worktree := interval]];
    }

    method FireTimer(t: nat, content: string) returns (pushed: Option<nat>)
      requires Known(State()) && t < |timers|
      modifies this
      ensures (State(), pushed) == Fired(old(State()), t, content)
    {
      var ws, worktree := timers[t].socket, timers[t].worktree;
      if ws in notOpen {
        StopTabsPushLoop(ws, worktree);
        return None;
      }
      var before := if worktree in snapshots then Some(snapshots[worktree].version) else None;
      var version := BuildTabsResult(worktree, content);
      pushed := if before == Some(version) then None else Some(version);
    }

    method OnClose(ws: Socket)
      requires Known(State())
      modifies this
      ensures State() == Forgotten(old(State()), ws).(notOpen := old(notOpen) + {ws}, closed := old(closed) + {ws})
    {
      notOpen := notOpen + {ws};
      closed := closed + {ws};
      if ws !in loops {
        return;
      }
      ghost var before := timers;
      var worktrees := loops[ws].Keys;
      var left := worktrees;
      while left != {}
        invariant left <= worktrees && |timers| == |before|
        invariant loops == old(loops) && snapshots == old(snapshots)
        invariant notOpen == old(notOpen) + {ws} && closed == old(closed) + {ws}
        invariant forall t :: 0 <= t < |timers| ==>
                                timers[t] == if exists wt :: wt in worktrees - left && loops[ws][wt] == t
                                             then before[t].(running := false) else before[t]
        decreases left
      {
        var wt :| wt in left;
        var t := loops[ws][wt];
        ghost var was := timers;
        timers := timers[t := timers[t].(running := false)];
        left := left - {wt};
        assert worktrees - left == worktrees - (left + {wt}) + {wt};
      }
      assert worktrees - left == worktrees;
      assert forall t :: t in loops[ws].Values <==> exists wt :: wt in worktrees && loops[ws][wt] == t;
      loops := loops - {ws};
    }
  }

  // ---- Runs ----

  datatype Event =
    | List(worktree: string, content: string)
    | Subscribe(socket: Socket, worktree: string, content: string)
    | Unsubscribe(socket: Socket, worktree: string)
    | Fire(timer: nat, content: string)
    | BeginsClosing(socket: Socket)
    | Close(socket: Socket)

  /** A timer fires while it runs; a socket makes no request once its closing has been reported. */
  predicate CanHappen(h: Host, e: Event) {
    match e
    case Subscribe(ws, _, _) => ws !in h.closed
    case Unsubscribe(ws, _) => ws !in h.closed
    case Fire(t, _) => t < |h.timers| && h.timers[t].running
    case Close(ws) => ws !in h.closed
    case _ => true
  }

  function Next(h: Host, e: Event): Host
    requires Known(h) && CanHappen(h, e)
  {
    match e
    case List(wt, content) => Built(h, wt, content)
    case Subscribe(ws, wt, content) => Started(Built(h, wt, content), ws, wt)
    case Unsubscribe(ws, wt) => Stopped(h, ws, wt)
    case Fire(t, content) => Fired(h, t, content).0
    case BeginsClosing(ws) => h.(notOpen := h.notOpen + {ws})
    case Close(ws) => Forgotten(h, ws).(notOpen := h.notOpen + {ws}, closed := h.closed + {ws})
  }

  ghost predicate IsRun(hosts: seq<Host>, events: seq<Event>) {
    && |hosts| == |events| + 1
    && hosts[0] == NEW_HOST
    && forall i {:trigger events[i]} :: 0 <= i < |events| ==>
                                          && Known(hosts[i]) && CanHappen(hosts[i], events[i])
                                          && hosts[i + 1] == Next(hosts[i], events[i])
  }

  /** A running timer is the one in the map for its socket and worktree. */
  predicate TimerInv(h: Host, t: nat)
    requires t < |h.timers|
  {
    var timer := h.timers[t];
    timer.running ==> HasLoop(h, timer.socket, timer.worktree) && h.loops[timer.socket][timer.worktree] == t
  }

  ghost predicate Inv(h: Host) {
    && Known(h)
    && (forall ws :: ws in h.loops ==> ws !in h.closed)
    && (forall ws :: ws in h.loops ==>
          forall wt :: wt in h.loops[ws] ==> h.timers[h.loops[ws][wt]] == Timer(ws, wt, true))
    && forall t :: 0 <= t < |h.timers| ==> TimerInv(h, t)
  }

  lemma StoppedKeepsInv(h: Host, ws: Socket, wt: string)
    requires Inv(h)
    ensures Inv(Stopped(h, ws, wt)) && !HasLoop(Stopped(h, ws, wt), ws, wt)
    ensures Stopped(h, ws, wt).closed == h.closed
  {
    var m := Stopped(h, ws, wt);
    forall t | 0 <= t < |m.timers|
      ensures TimerInv(m, t)
    {
      assert TimerInv(h, t);
    }
  }

  lemma StartedKeepsInv(h: Host, ws: Socket, wt: string)
    requires Inv(h) && ws !in h.closed
    ensures Inv(Started(h, ws, wt))
  {
    hide Stopped;
    StoppedKeepsInv(h, ws, wt);
    var s := Stopped(h, ws, wt);
    var m := Started(h, ws, wt);
    forall t | 0 <= t < |m.timers|
      ensures TimerInv(m, t)
    {
      assert t < |s.timers| ==> TimerInv(s, t);
    }
    StartedLoops(s, ws, wt, m);
  }

  lemma StartedLoops(s: Host, ws: Socket, wt: string, m: Host)
    requires Inv(s) && ws !in s.closed && !HasLoop(s, ws, wt)
    requires m.loops == s.loops[ws := (if ws in s.loops then s.loops[ws] else map[])[wt := |s.timers|]]
    requires m.timers == s.timers + [Timer(ws, wt, true)] && m.closed == s.closed
    ensures Known(m) && (forall v :: v in m.loops ==> v !in m.closed)
    ensures forall v :: v in m.loops ==> forall u :: u in m.loops[v] ==> m.timers[m.loops[v][u]] == Timer(v, u, true)
  {
    hide TimerInv;
    forall v, u | v in m.loops && u in m.loops[v]
      ensures m.loops[v][u] < |m.timers| && m.timers[m.loops[v][u]] == Timer(v, u, true)
    {
      if v != ws || u != wt {
        assert HasLoop(s, v, u) && m.loops[v][u] == s.loops[v][u];
      }
    }
  }

  lemma ForgottenKeepsInv(h: Host, ws: Socket)
    requires Inv(h)
    ensures var m := Forgotten(h, ws).(notOpen := h.notOpen + {ws}, closed := h.closed + {ws});
            Inv(m) && forall t :: 0 <= t < |m.timers| && m.timers[t].running ==> m.timers[t].socket != ws
  {
    var m := Forgotten(h, ws).(notOpen := h.notOpen + {ws}, closed := h.closed + {ws});
    forall t | 0 <= t < |m.timers|
      ensures TimerInv(m, t) && (m.timers[t].running ==> m.timers[t].socket != ws)
    {
      assert TimerInv(h, t);
      if h.timers[t].running && h.timers[t].socket == ws {
        assert h.loops[ws][h.timers[t].worktree] in h.loops[ws].Values;
      }
    }
    ForgottenLoops(h, ws);
  }

  lemma LoopTimerSocket(h: Host, ws: Socket, t: nat)
    requires Inv(h) && ws in h.loops && t in h.loops[ws].Values
    ensures t < |h.timers| && h.timers[t].socket == ws
  {
    var w :| w in h.loops[ws] && h.loops[ws][w] == t;
    assert h.timers[h.loops[ws][w]] == Timer(ws, w, true);
  }

  lemma ForgottenLoops(h: Host, ws: Socket)
    requires Inv(h)
    ensures var m := Forgotten(h, ws);
            && Known(m) && ws !in m.loops
            && forall v :: v in m.loops ==> forall u :: u in m.loops[v] ==> m.timers[m.loops[v][u]] == Timer(v, u, true)
  {
    hide TimerInv;
    var m := Forgotten(h, ws);
    forall v, u | v in m.loops && u in m.loops[v]
      ensures m.loops[v][u] < |m.timers| && m.timers[m.loops[v][u]] == Timer(v, u, true)
    {
      assert h.timers[h.loops[v][u]] == Timer(v, u, true);
      if ws in h.loops && m.loops[v][u] in h.loops[ws].Values {
        LoopTimerSocket(h, ws, m.loops[v][u]);
      }
    }
  }

  lemma BuiltKeepsInv(h: Host, wt: string, content: string)
    requires Inv(h)
    ensures Inv(Built(h, wt, content))
  {
    var m := Built(h, wt, content);
    forall t | 0 <= t < |m.timers|
      ensures TimerInv(m, t)
    {
      assert TimerInv(h, t);
    }
  }

  lemma StepKeepsInv(h: Host, e: Event)
    requires Inv(h) && CanHappen(h, e)
    ensures Inv(Next(h, e))
  {
    assert forall wt, content :: Built(h, wt, content).closed == h.closed;
    assert Known(h);
    hide Inv, Started, Stopped, Built, Forgotten, TimerInv;
    match e
    case List(wt, content) => BuiltKeepsInv(h, wt, content);
    case Subscribe(ws, wt, content) =>
      BuiltKeepsInv(h, wt, content);
      StartedKeepsInv(Built(h, wt, content), ws, wt);
    case Unsubscribe(ws, wt) => StoppedKeepsInv(h, ws, wt);
    case Fire(t, content) =>
      StoppedKeepsInv(h, h.timers[t].socket, h.timers[t].worktree);
      BuiltKeepsInv(h, h.timers[t].worktree, content);
    case BeginsClosing(ws) => NotOpenKeepsInv(h, ws);
    case Close(ws) => ForgottenKeepsInv(h, ws);
  }

  lemma NotOpenKeepsInv(h: Host, ws: Socket)
    requires Inv(h)
    ensures Inv(h.(notOpen := h.notOpen + {ws}))
  {
    var m := h.(notOpen := h.notOpen + {ws});
    forall t | 0 <= t < |m.timers|
      ensures TimerInv(m, t)
    {
      assert TimerInv(h, t);
    }
  }

  lemma {:induction false} RunKeepsInv(hosts: seq<Host>, events: seq<Event>, i: nat)
    requires IsRun(hosts, events) && i < |hosts|
    ensures Inv(hosts[i])
  {
    hide Next, CanHappen;
    if i > 0 {
      RunKeepsInv(hosts, events, i - 1);
      assert hosts[i] == Next(hosts[i - 1], events[i - 1]);
      StepKeepsInv(hosts[i - 1], events[i - 1]);
    }
  }

  /** At most one push loop runs for a socket and worktree, and none for a socket whose closing was reported. */
  lemma OneLoopPerTargetNoneAfterClose(hosts: seq<Host>, events: seq<Event>, i: nat, s: nat, t: nat)
    requires IsRun(hosts, events) && i < |hosts| && s < |hosts[i].timers| && t < |hosts[i].timers|
    requires hosts[i].timers[s].running
    ensures hosts[i].timers[s].socket !in hosts[i].closed
    ensures hosts[i].timers[t] == hosts[i].timers[s] ==> s == t
  {
    RunKeepsInv(hosts, events, i);
    assert TimerInv(hosts[i], s) && TimerInv(hosts[i], t);
  }

  // ---- Versions ----

  /** The content that the step builds a snapshot of the worktree from, if it builds one. */
  function BuildOf(h: Host, e: Event, worktree: string): Option<string> {
    match e
    case List(wt, content) => if wt == worktree then Some(content) else None
    case Subscribe(_, wt, content) => if wt == worktree then Some(content) else None
    case Fire(t, content) =>
      if t < |h.timers| && h.timers[t].socket !in h.notOpen && h.timers[t].worktree == worktree then Some(content)
      else None
    case _ => None
  }

  /** The contents that the worktree was built from, in order, before step `i`. */
  function Contents(hosts: seq<Host>, events: seq<Event>, i: nat, worktree: string): seq<string>
    requires i <= |events| && i < |hosts|
  {
    if i == 0 then []
    else
      var built := BuildOf(hosts[i - 1], events[i - 1], worktree);
      Contents(hosts, events, i - 1, worktree) + if built.Some? then [built.value] else []
  }

  /** How often the content differs from the one before it, the first counted too. */
  function Changes(contents: seq<string>): nat {
    if contents == [] then 0
    else
      var n := |contents| - 1;
      Changes(contents[..n]) + if n == 0 || contents[n] != contents[n - 1] then 1 else 0
  }

  function SnapshotOf(contents: seq<string>): Option<Snapshot> {
    if contents == [] then None else Some(Snapshot(Changes(contents), contents[|contents| - 1]))
  }

  function SnapshotIn(h: Host, worktree: string): Option<Snapshot> {
    if worktree in h.snapshots then Some(h.snapshots[worktree]) else None
  }

  lemma SnapshotGrows(contents: seq<string>, content: string)
    ensures SnapshotOf(contents + [content])
         == (match SnapshotOf(contents)
             case None => Some(Snapshot(1, content))
             case Some(last) => Some(if last.signature == content then last else Snapshot(last.version + 1, content)))
  {
    var grown := contents + [content];
    assert grown[..|contents|] == contents && grown[|contents|] == content;
    if contents != [] {
      assert grown[|contents| - 1] == contents[|contents| - 1];
      assert Changes(grown) == Changes(contents) + if content != contents[|contents| - 1] then 1 else 0;
    } else {
      assert Changes(grown) == Changes([]) + 1 == 1;
    }
  }

  lemma StepBuilds(h: Host, e: Event, worktree: string)
    requires Known(h) && CanHappen(h, e)
    ensures SnapshotIn(Next(h, e), worktree)
         == (match BuildOf(h, e, worktree)
             case None => SnapshotIn(h, worktree)
             case Some(content) => Some(Current(h.snapshots, worktree, content)))
  {
    hide Current;
  }

  /** A worktree's version is the number of times its content has changed. */
  lemma {:induction false} VersionsCountChanges(hosts: seq<Host>, events: seq<Event>, i: nat, worktree: string)
    requires IsRun(hosts, events) && i < |hosts|
    ensures SnapshotIn(hosts[i], worktree) == SnapshotOf(Contents(hosts, events, i, worktree))
  {
    assert SnapshotOf([]) == None;
    hide Next, CanHappen, Known, SnapshotOf, BuildOf;
    if i == 0 {
    } else {
      VersionsCountChanges(hosts, events, i - 1, worktree);
      assert hosts[i] == Next(hosts[i - 1], events[i - 1]) && Known(hosts[i - 1]);
      StepBuilds(hosts[i - 1], events[i - 1], worktree);
      var contents := Contents(hosts, events, i - 1, worktree);
      var built := BuildOf(hosts[i - 1], events[i - 1], worktree);
      assert contents + [] == contents;
      if built.Some? {
        SnapshotGrows(contents, built.value);
      }
    }
  }

  /**
   A loop that fires for an open socket pushes exactly when the content differs
   from the one last built for its worktree, by whatever request or loop, and
   then pushes the version that counts this change.
  */
  lemma PushesExactlyOnChange(hosts: seq<Host>, events: seq<Event>, i: nat, t: nat, content: string)
    requires IsRun(hosts, events) && i < |hosts| && t < |hosts[i].timers|
    requires hosts[i].timers[t].socket !in hosts[i].notOpen
    ensures Known(hosts[i])
    ensures var contents := Contents(hosts, events, i, hosts[i].timers[t].worktree);
            Fired(hosts[i], t, content).1
            == if contents != [] && contents[|contents| - 1] == content then None
               else Some(Changes(contents + [content]))
  {
    RunKeepsInv(hosts, events, i);
    VersionsCountChanges(hosts, events, i, hosts[i].timers[t].worktree);
    var contents := Contents(hosts, events, i, hosts[i].timers[t].worktree);
    assert (contents + [content])[..|contents|] == contents;
  }

  /** The contents a worktree is built from between two steps that build it next to each other. */
  lemma {:induction false} NothingBuiltBetween(
    hosts: seq<Host>, events: seq<Event>, i: nat, j: nat, worktree: string)
    requires i <= j <= |events| && j < |hosts|
    requires forall k :: i <= k < j ==> BuildOf(hosts[k], events[k], worktree).None?
    ensures Contents(hosts, events, j, worktree) == Contents(hosts, events, i, worktree)
    decreases j
  {
    hide BuildOf;
    if i < j {
      NothingBuiltBetween(hosts, events, i, j - 1, worktree);
      assert Contents(hosts, events, j, worktree) == Contents(hosts, events, j - 1, worktree) + [];
    }
  }

  /**
   Of two loops on one worktree, of whatever sockets, that fire one after the
   other, the second pushes exactly when the content has changed since the
   first fired; so a change that the first one pushes is kept from the second.
  */
  lemma OnlyTheFirstLoopPushes(
    hosts: seq<Host>, events: seq<Event>, i: nat, first: nat, shown: string, j: nat, second: nat, now: string)
    requires IsRun(hosts, events) && i < j < |events|
    requires events[i] == Fire(first, shown) && events[j] == Fire(second, now)
    requires first < |hosts[i].timers| && hosts[i].timers[first].socket !in hosts[i].notOpen
    requires second < |hosts[j].timers| && hosts[j].timers[second].socket !in hosts[j].notOpen
    requires hosts[j].timers[second].worktree == hosts[i].timers[first].worktree
    requires forall k :: i < k < j ==> BuildOf(hosts[k], events[k], hosts[i].timers[first].worktree).None?
    ensures Known(hosts[j])
    ensures Fired(hosts[j], second, now).1.Some? <==> now != shown
  {
    hide Fired, Changes, Next, CanHappen, Known;
    assert |hosts| == |events| + 1;
    hide IsRun;
    var worktree := hosts[i].timers[first].worktree;
    PushesExactlyOnChange(hosts, events, j, second, now);
    assert Contents(hosts, events, i + 1, worktree) == Contents(hosts, events, i, worktree) + [shown];
    NothingBuiltBetween(hosts, events, i + 1, j, worktree);
  }

  // ---- Which loops run ----

  /** Whether a socket's last word on a worktree was to subscribe to it, no closing having come in between. */
  function Wants(hosts: seq<Host>, events: seq<Event>, i: nat, ws: Socket, wt: string): bool
    requires i <= |events| && i < |hosts|
  {
    if i == 0 then false
    else
      match events[i - 1]
      case Subscribe(socket, worktree, _) =>
        (socket == ws && worktree == wt) || Wants(hosts, events, i - 1, ws, wt)
      case Unsubscribe(socket, worktree) =>
        !(socket == ws && worktree == wt) && Wants(hosts, events, i - 1, ws, wt)
      case Close(socket) => socket != ws && Wants(hosts, events, i - 1, ws, wt)
      case Fire(t, _) =>
        !(FiresFor(hosts[i - 1], t, ws, wt) && ws in hosts[i - 1].notOpen) && Wants(hosts, events, i - 1, ws, wt)
      case _ => Wants(hosts, events, i - 1, ws, wt)
  }

  predicate FiresFor(h: Host, t: nat, ws: Socket, wt: string) {
    t < |h.timers| && h.timers[t].socket == ws && h.timers[t].worktree == wt
  }

  lemma StepLoops(h: Host, e: Event, ws: Socket, wt: string)
    requires Inv(h) && CanHappen(h, e)
    ensures HasLoop(Next(h, e), ws, wt) <==>
            match e
            case Subscribe(socket, worktree, _) => (socket == ws && worktree == wt) || HasLoop(h, ws, wt)
            case Unsubscribe(socket, worktree) => !(socket == ws && worktree == wt) && HasLoop(h, ws, wt)
            case Close(socket) => socket != ws && HasLoop(h, ws, wt)
            case Fire(t, _) => !(FiresFor(h, t, ws, wt) && ws in h.notOpen) && HasLoop(h, ws, wt)
            case _ => HasLoop(h, ws, wt)
    ensures Next(h, e).notOpen == h.notOpen + if e.BeginsClosing? || e.Close? then {e.socket} else {}
  {
    hide TimerInv;
  }

  lemma {:induction false} LoopsAreWanted(hosts: seq<Host>, events: seq<Event>, i: nat, ws: Socket, wt: string)
    requires IsRun(hosts, events) && i < |hosts|
    ensures HasLoop(hosts[i], ws, wt) <==> Wants(hosts, events, i, ws, wt)
  {
    hide Next, CanHappen, Inv, FiresFor;
    if i > 0 {
      LoopsAreWanted(hosts, events, i - 1, ws, wt);
      RunKeepsInv(hosts, events, i - 1);
      assert hosts[i] == Next(hosts[i - 1], events[i - 1]);
      StepLoops(hosts[i - 1], events[i - 1], ws, wt);
    }
  }

  /**
   In every run a timer runs for a socket and worktree exactly while they are
   subscribed: since the last subscription there was no unsubscription, the
   closing was not reported, and the timer did not fire for a socket not open.
  */
  lemma RunsWhileSubscribed(hosts: seq<Host>, events: seq<Event>, i: nat, ws: Socket, wt: string)
    requires IsRun(hosts, events) && i < |hosts|
    ensures (exists t :: 0 <= t < |hosts[i].timers| && hosts[i].timers[t] == Timer(ws, wt, true))
            <==> Wants(hosts, events, i, ws, wt)
  {
    hide IsRun, Wants;
    LoopsAreWanted(hosts, events, i, ws, wt);
    RunKeepsInv(hosts, events, i);
    var h := hosts[i];
    if HasLoop(h, ws, wt) {
      assert h.timers[h.loops[ws][wt]] == Timer(ws, wt, true);
    }
    if t :| 0 <= t < |h.timers| && h.timers[t] == Timer(ws, wt, true) {
      assert TimerInv(h, t);
    }
  }
}
