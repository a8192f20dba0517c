/**
 The socket protocol between one-shot clients and the daemon, step by step: a
 client sends a mutating command and then asks for a snapshot; the connection's
 server loop forwards the command to the mesh task and waits for its reply or a
 deadline; the mesh task applies it, refreshes the contacts and replies.

 Any number of connections run side by side; a connection's number stands for
 the one command its client sends.
 */
module IpcProtocol {
  const CHANNEL_CAPACITY := 8

  /** A snapshot's contact list: the number of the refresh that built it, the
      commands whose effect it reflects, and whether that refresh could read the
      node (a failed read falls back to a stale cache). */
  datatype View = View(serial: nat, reflects: set<nat>, current: bool)

  datatype ClientMessage = Command | RequestSnapshot
  datatype ServerMessage = Hello | Snapshot(view: View) | Backlog | Event | Error

  datatype Client =
    | AwaitInitial | HaveInitial | SentCommand | AwaitOutcome
    | Succeeded(view: View) | Failed | Disconnected

  datatype Server = Greeting | SendingSnapshot | SendingBacklog | Serving | Enqueueing | AwaitReply

  /** How the server loop has answered the connection's command. */
  datatype Answer = NotYet | Accepted | Rejected

  datatype Conn = Conn(
    client: Client, server: Server, open: bool,
    toServer: seq<ClientMessage>, toClient: seq<ServerMessage>, answer: Answer)

  /** An entry of the mesh task's command channel. */
  datatype Item = FromClient(id: nat) | Internal

  datatype Mesh = Idle | Applying(item: Item) | Refreshing(item: Item) | Replying(item: Item, ok: bool)

  /** `applied` holds the commands that took effect, `refreshedAt` the number of
      the contact refresh each of them made, `replies` the outcomes sent back. */
  datatype Sys = Sys(
    conns: map<nat, Conn>, channel: seq<Item>, mesh: Mesh, alive: bool,
    applied: set<nat>, snapshot: View, refreshedAt: map<nat, nat>, replies: map<nat, bool>)

  ghost predicate Init(s: Sys) {
    s == Sys(map[], [], Idle, true, {}, View(0, {}, true), map[], map[])
  }

  // ----- steps of one connection

  /** The server loop writes `m`. */
  function Wrote(c: Conn, m: ServerMessage): Conn {
    c.(toClient := c.toClient + [m])
  }

  /** The server loop reports the command's failure and goes back to serving. */
  function Reject(c: Conn): Conn {
    Wrote(c, Error).(server := Serving, answer := Rejected)
  }

  ghost predicate Greet(s: Sys, c: Conn, c': Conn) {
    match c.server
    case Greeting => c' == Wrote(c, Hello).(server := SendingSnapshot)
    case SendingSnapshot => c' == Wrote(c, Snapshot(s.snapshot)).(server := SendingBacklog)
    case SendingBacklog => c' == Wrote(c, Backlog).(server := Serving)
    case _ => false
  }

  ghost predicate Serve(s: Sys, c: Conn, c': Conn) {
    c.server == Serving
    && (c' == Wrote(c, Event)
        || (c.toServer != []
            && var rest := c.(toServer := c.toServer[1..]);
               match c.toServer[0]
               case RequestSnapshot => c' == Wrote(rest, Snapshot(s.snapshot))
               case Command => c' == rest.(server := Enqueueing)))
  }

  /** The reply, the deadline, or a mesh task that is gone. */
  ghost predicate HearBack(s: Sys, i: nat, c: Conn, c': Conn) {
    match c.server
    case Enqueueing => !s.alive && c' == Reject(c)
    case AwaitReply =>
      if i in s.replies && s.replies[i] then
        c' == c.(server := Serving, answer := Accepted) || c' == Reject(c)
      else c' == Reject(c)
    case _ => false
  }

  ghost predicate ClientSends(c: Conn, c': Conn) {
    match c.client
    case HaveInitial => c' == c.(client := SentCommand, toServer := c.toServer + [Command])
    case SentCommand => c' == c.(client := AwaitOutcome, toServer := c.toServer + [RequestSnapshot])
    case _ => false
  }

  /** Waiting for the first snapshot skips everything else; waiting for the
      outcome stops at the first error or snapshot. */
  ghost predicate ClientReceives(c: Conn, c': Conn) {
    c.toClient != []
    && var rest := c.(toClient := c.toClient[1..]);
       match (c.client, c.toClient[0])
       case (AwaitInitial, Snapshot(_)) => c' == rest.(client := HaveInitial)
       case (AwaitInitial, _) => c' == rest
       case (AwaitOutcome, Error) => c' == rest.(client := Failed)
       case (AwaitOutcome, Snapshot(v)) => c' == rest.(client := Succeeded(v))
       case (AwaitOutcome, _) => c' == rest
       case _ => false
  }

  ghost predicate ConnStep(s: Sys, i: nat, c: Conn, c': Conn) {
    || (c.open && (Greet(s, c, c') || Serve(s, c, c') || HearBack(s, i, c, c')))
    || ClientSends(c, c') || ClientReceives(c, c')
    || c' == c.(open := false)
    || (!c.open && c.client !in {Failed, Disconnected} && !c.client.Succeeded? && c' == c.(client := Disconnected))
  }

  // ----- steps of the whole system

  ghost predicate Connects(s: Sys, s': Sys, i: nat) {
    i !in s.conns && s' == s.(conns := s.conns[i := Conn(AwaitInitial, Greeting, true, [], [], NotYet)])
  }

  ghost predicate Moves(s: Sys, s': Sys, i: nat) {
    i in s.conns && exists c' :: ConnStep(s, i, s.conns[i], c') && s' == s.(conns := s.conns[i := c'])
  }

  ghost predicate Enqueues(s: Sys, s': Sys, i: nat) {
    && i in s.conns && s.conns[i].open && s.conns[i].server == Enqueueing
    && s.alive && |s.channel| < CHANNEL_CAPACITY
    && s' == s.(channel := s.channel + [FromClient(i)], conns := s.conns[i := s.conns[i].(server := AwaitReply)])
  }

  ghost predicate InternalEnqueues(s: Sys, s': Sys) {
    s.alive && |s.channel| < CHANNEL_CAPACITY && s' == s.(channel := s.channel + [Internal])
  }

  /** The contacts are rebuilt: every refresh tries a read of its own, and what it
      shows reflects all that was applied unless that very read failed. */
  ghost predicate Refreshed(s: Sys, v: View) {
    && v.serial == s.snapshot.serial + 1
    && (v.current ==> v.reflects == s.applied)
  }

  function Effect(item: Item): set<nat> {
    if item.FromClient? then {item.id} else {}
  }

  ghost predicate MeshTakes(s: Sys, s': Sys) {
    s.mesh == Idle && s.channel != [] && s' == s.(mesh := Applying(s.channel[0]), channel := s.channel[1..])
  }

  /** The command fails without effect, takes effect and fails all the same (the
      configuration was changed but could not be saved), or succeeds. */
  ghost predicate MeshApplies(s: Sys, s': Sys) {
    s.mesh.Applying?
    && (s' == s.(mesh := Replying(s.mesh.item, false))
        || s' == s.(mesh := Replying(s.mesh.item, false), applied := s.applied + Effect(s.mesh.item))
        || s' == s.(mesh := Refreshing(s.mesh.item), applied := s.applied + Effect(s.mesh.item)))
  }

  ghost predicate MeshRefreshes(s: Sys, s': Sys) {
    && s.mesh.Refreshing? && Refreshed(s, s'.snapshot)
    && s' == s.(snapshot := s'.snapshot, mesh := Replying(s.mesh.item, true),
                refreshedAt := if s.mesh.item.FromClient? then s.refreshedAt[s.mesh.item.id := s'.snapshot.serial]
                               else s.refreshedAt)
  }

  ghost predicate MeshReplies(s: Sys, s': Sys) {
    s.mesh.Replying?
    && s' == s.(mesh := Idle, replies := if s.mesh.item.FromClient? then s.replies[s.mesh.item.id := s.mesh.ok]
                                         else s.replies)
  }

  /** A refresh prompted by a radio event. */
  ghost predicate MeshRefreshesUnprompted(s: Sys, s': Sys) {
    s.mesh == Idle && Refreshed(s, s'.snapshot) && s' == s.(snapshot := s'.snapshot)
  }

  ghost predicate MeshStep(s: Sys, s': Sys) {
    s.alive && (MeshTakes(s, s') || MeshApplies(s, s') || MeshRefreshes(s, s') || MeshReplies(s, s')
                || MeshRefreshesUnprompted(s, s') || s' == s.(alive := false))
  }

  ghost predicate Next(s: Sys, s': Sys) {
    (exists i :: Connects(s, s', i) || Moves(s, s', i) || Enqueues(s, s', i))
    || InternalEnqueues(s, s') || MeshStep(s, s')
  }

  ghost predicate Behaviour(run: seq<Sys>) {
    run != [] && Init(run[0]) && forall n :: 0 <= n < |run| - 1 ==> Next(run[n], run[n + 1])
  }

  // ----- the messages a waiting client stops at

  predicate Decisive(m: ServerMessage) {
    m.Snapshot? || m.Error?
  }

  function Decisives(ms: seq<ServerMessage>): seq<ServerMessage> {
    if ms == [] then []
    else Decisives(ms[..|ms| - 1]) + if Decisive(ms[|ms| - 1]) then [ms[|ms| - 1]] else []
  }

  lemma DecisivesWritten(ms: seq<ServerMessage>, m: ServerMessage)
    ensures Decisives(ms + [m]) == Decisives(ms) + if Decisive(m) then [m] else []
  {
  }

  lemma {:induction false} DecisivesRead(ms: seq<ServerMessage>)
    requires ms != []
    ensures Decisives(ms) == (if Decisive(ms[0]) then [ms[0]] else []) + Decisives(ms[1..])
  {
    if |ms| > 1 {
      var n := |ms| - 1;
      DecisivesRead(ms[..n]);
      assert ms[1..][..n - 1] == ms[..n][1..];
    }
  }

  // ----- what holds at every step

  /** The command of connection `i` is nowhere in the daemon yet. */
  ghost predicate Untouched(s: Sys, i: nat) {
    && FromClient(i) !in s.channel && (s.mesh.Idle? || s.mesh.item != FromClient(i))
    && i !in s.refreshedAt && i !in s.replies
  }

  /** View `v` was read after the refresh command `i` made. */
  ghost predicate After(s: Sys, i: nat, v: View) {
    i in s.refreshedAt && v.serial >= s.refreshedAt[i] && (v.current ==> i in v.reflects)
  }

  /** The command took effect, its refresh is done, and the snapshot shows it. */
  ghost predicate Settled(s: Sys, i: nat) {
    i in s.applied && After(s, i, s.snapshot) && i in s.replies && s.replies[i]
  }

  /** Queues and program counters before the command is answered. */
  ghost predicate PendingShape(c: Conn) {
    var ds := Decisives(c.toClient);
    var taken := c.server == Enqueueing || c.server == AwaitReply;
    match c.client
    case AwaitInitial =>
      c.toServer == [] && !taken
      && if c.server == Greeting || c.server == SendingSnapshot then ds == [] else |ds| == 1 && ds[0].Snapshot?
    case HaveInitial => c.toServer == [] && ds == [] && (c.server == SendingBacklog || c.server == Serving)
    case SentCommand =>
      ds == [] && c.server != Greeting && c.server != SendingSnapshot
      && c.toServer == if taken then [] else [Command]
    case AwaitOutcome =>
      ds == [] && c.server != Greeting && c.server != SendingSnapshot
      && c.toServer == if taken then [RequestSnapshot] else [Command, RequestSnapshot]
    case Disconnected => !c.open
    case _ => false
  }

  /** After success: nothing decisive but a snapshot read once the command settled. */
  ghost predicate AcceptedShape(s: Sys, i: nat, c: Conn) {
    var ds := Decisives(c.toClient);
    c.server == Serving
    && match c.client
       case SentCommand => c.toServer == [] && ds == []
       case AwaitOutcome =>
         || (c.toServer == [RequestSnapshot] && ds == [])
         || (c.toServer == [] && |ds| == 1 && ds[0].Snapshot? && After(s, i, ds[0].view))
       case Succeeded(v) => c.toServer == [] && After(s, i, v)
       case Disconnected => !c.open
       case _ => false
  }

  /** After failure: the error comes before anything else decisive. */
  ghost predicate RejectedShape(c: Conn) {
    var ds := Decisives(c.toClient);
    var asked := c.toServer == [] || c.toServer == [RequestSnapshot];
    c.server == Serving
    && match c.client
       case SentCommand => c.toServer == [] && ds == [Error]
       case AwaitOutcome => asked && ds != [] && ds[0] == Error
       case Failed => asked
       case Disconnected => !c.open
       case _ => false
  }

  ghost predicate ConnInv(s: Sys, i: nat, c: Conn) {
    match c.answer
    case NotYet => PendingShape(c) && (c.server != AwaitReply ==> Untouched(s, i))
    case Accepted => AcceptedShape(s, i, c) && Settled(s, i)
    case Rejected => RejectedShape(c)
  }

  ghost predicate MeshInv(s: Sys) {
    && (forall j, k :: 0 <= j < k < |s.channel| && s.channel[j].FromClient? ==> s.channel[j] != s.channel[k])
    && (forall i :: FromClient(i) in s.channel ==> i in s.conns && i !in s.refreshedAt && i !in s.replies)
    && (!s.mesh.Idle? && s.mesh.item.FromClient? ==>
          s.mesh.item !in s.channel && s.mesh.item.id in s.conns && s.mesh.item.id !in s.replies)
    && (s.mesh.Applying? && s.mesh.item.FromClient? ==> s.mesh.item.id !in s.refreshedAt)
    && (s.mesh.Refreshing? && s.mesh.item.FromClient? ==>
          s.mesh.item.id in s.applied && s.mesh.item.id !in s.refreshedAt)
    && (s.mesh.Replying? && s.mesh.ok && s.mesh.item.FromClient? ==> s.mesh.item.id in s.refreshedAt)
    && (forall i :: i in s.refreshedAt ==> i in s.conns && i in s.applied && After(s, i, s.snapshot))
    && (forall i :: i in s.replies ==> i in s.conns && (s.replies[i] ==> i in s.refreshedAt))
  }

  ghost predicate Inv(s: Sys) {
    MeshInv(s) && forall i :: i in s.conns ==> ConnInv(s, i, s.conns[i])
  }

  // ----- the invariant is kept

  lemma GreetKeeps(s: Sys, i: nat, c: Conn, c': Conn)
    requires ConnInv(s, i, c) && c.open && Greet(s, c, c')
    ensures ConnInv(s, i, c')
  {
    DecisivesWritten(c.toClient, Hello);
    DecisivesWritten(c.toClient, Backlog);
    DecisivesWritten(c.toClient, Snapshot(s.snapshot));
  }

  lemma EventKeeps(s: Sys, i: nat, c: Conn)
    requires ConnInv(s, i, c) && c.open
    ensures ConnInv(s, i, Wrote(c, Event))
  {
  }

  lemma SnapshotKeeps(s: Sys, i: nat, c: Conn, rest: Conn)
    requires ConnInv(s, i, c) && c.open && c.server == Serving && c.toServer != [] && c.toServer[0] == RequestSnapshot
    requires rest == c.(toServer := c.toServer[1..])
    ensures ConnInv(s, i, Wrote(rest, Snapshot(s.snapshot)))
  {
    DecisivesWritten(c.toClient, Snapshot(s.snapshot));
  }

  lemma TakingKeeps(s: Sys, i: nat, c: Conn)
    requires ConnInv(s, i, c) && c.open && c.server == Serving && c.toServer != [] && c.toServer[0] == Command
    ensures ConnInv(s, i, c.(toServer := c.toServer[1..], server := Enqueueing))
  {
  }

  lemma ServeKeeps(s: Sys, i: nat, c: Conn, c': Conn)
    requires ConnInv(s, i, c) && c.open && Serve(s, c, c')
    ensures ConnInv(s, i, c')
  {
    if c' == Wrote(c, Event) {
      EventKeeps(s, i, c);
    } else if c.toServer[0] == RequestSnapshot {
      SnapshotKeeps(s, i, c, c.(toServer := c.toServer[1..]));
    } else {
      TakingKeeps(s, i, c);
    }
  }

  lemma HearBackKeeps(s: Sys, i: nat, c: Conn, c': Conn)
    requires MeshInv(s) && ConnInv(s, i, c) && c.open && HearBack(s, i, c, c')
    ensures ConnInv(s, i, c')
  {
    DecisivesWritten(c.toClient, Error);
    if c' == Reject(c) {
      assert RejectedShape(c');
    } else {
      assert Settled(s, i) && AcceptedShape(s, i, c');
    }
  }

  lemma SendingKeeps(s: Sys, i: nat, c: Conn, c': Conn)
    requires ConnInv(s, i, c) && ClientSends(c, c')
    ensures ConnInv(s, i, c')
  {
  }

  /** `first` is what reading the first message takes off the decisive ones. */
  lemma ReceivingKeeps(s: Sys, i: nat, c: Conn, c': Conn, first: seq<ServerMessage>)
    requires ConnInv(s, i, c) && ClientReceives(c, c')
    requires first == if Decisive(c.toClient[0]) then [c.toClient[0]] else []
    requires Decisives(c.toClient) == first + Decisives(c'.toClient)
    ensures ConnInv(s, i, c')
  {
  }

  lemma ConnStepKeeps(s: Sys, i: nat, c: Conn, c': Conn)
    requires MeshInv(s) && ConnInv(s, i, c) && ConnStep(s, i, c, c')
    ensures ConnInv(s, i, c')
  {
    if c.open && Greet(s, c, c') {
      GreetKeeps(s, i, c, c');
    } else if c.open && Serve(s, c, c') {
      ServeKeeps(s, i, c, c');
    } else if c.open && HearBack(s, i, c, c') {
      HearBackKeeps(s, i, c, c');
    } else if ClientSends(c, c') {
      SendingKeeps(s, i, c, c');
    } else if ClientReceives(c, c') {
      DecisivesRead(c.toClient);
      ReceivingKeeps(s, i, c, c', if Decisive(c.toClient[0]) then [c.toClient[0]] else []);
    }
  }

  /** What a connection relies on survives a step that only adds to it. */
  lemma ConnInvFrame(s: Sys, s': Sys, i: nat, c: Conn)
    requires ConnInv(s, i, c)
    requires Untouched(s, i) ==> Untouched(s', i)
    requires i in s.refreshedAt ==> i in s'.refreshedAt && s'.refreshedAt[i] == s.refreshedAt[i]
    requires Settled(s, i) ==> Settled(s', i)
    ensures ConnInv(s', i, c)
  {
  }

  lemma MovedKeeps(s: Sys, s': Sys, i: nat, c': Conn)
    requires Inv(s) && i in s.conns && ConnInv(s, i, c') && s' == s.(conns := s.conns[i := c'])
    ensures Inv(s')
  {
    forall j | j in s'.conns ensures ConnInv(s', j, s'.conns[j]) {
      ConnInvFrame(s, s', j, s'.conns[j]);
    }
  }

  lemma MovesKeeps(s: Sys, s': Sys, i: nat, c': Conn)
    requires Inv(s) && i in s.conns && ConnStep(s, i, s.conns[i], c') && s' == s.(conns := s.conns[i := c'])
    ensures Inv(s')
  {
    ConnStepKeeps(s, i, s.conns[i], c');
    MovedKeeps(s, s', i, c');
  }

  lemma ConnectsKeeps(s: Sys, s': Sys, i: nat)
    requires Inv(s) && Connects(s, s', i)
    ensures Inv(s')
  {
    forall j | j in s.conns ensures ConnInv(s', j, s.conns[j]) {
      ConnInvFrame(s, s', j, s.conns[j]);
    }
  }

  lemma EnqueuesKeeps(s: Sys, s': Sys, i: nat)
    requires Inv(s) && Enqueues(s, s', i)
    ensures Inv(s')
  {
    assert ConnInv(s, i, s.conns[i]);
    forall j | j in s.conns && j != i ensures ConnInv(s', j, s.conns[j]) {
      ConnInvFrame(s, s', j, s.conns[j]);
    }
  }

  lemma InternalKeeps(s: Sys, s': Sys)
    requires Inv(s) && InternalEnqueues(s, s')
    ensures Inv(s')
  {
    forall j | j in s.conns ensures ConnInv(s', j, s.conns[j]) {
      ConnInvFrame(s, s', j, s.conns[j]);
    }
  }

  lemma TakeKeepsMeshInv(s: Sys, s': Sys)
    requires MeshInv(s) && MeshTakes(s, s')
    ensures MeshInv(s')
  {
  }

  lemma RefreshKeepsMeshInv(s: Sys, s': Sys)
    requires MeshInv(s) && (MeshRefreshes(s, s') || MeshRefreshesUnprompted(s, s'))
    ensures MeshInv(s')
  {
  }

  lemma ApplyKeepsMeshInv(s: Sys, s': Sys)
    requires MeshInv(s) && (MeshApplies(s, s') || MeshReplies(s, s'))
    ensures MeshInv(s')
  {
  }

  /** A mesh step takes nothing away from any connection. */
  lemma MeshFrames(s: Sys, s': Sys, j: nat)
    requires MeshInv(s) && MeshStep(s, s')
    ensures Untouched(s, j) ==> Untouched(s', j)
    ensures j in s.refreshedAt ==> j in s'.refreshedAt && s'.refreshedAt[j] == s.refreshedAt[j]
    ensures Settled(s, j) ==> Settled(s', j)
  {
    if MeshTakes(s, s') {
      assert s.channel[0] in s.channel;
      assert forall k :: 0 <= k < |s'.channel| ==> s'.channel[k] == s.channel[k + 1];
    }
  }

  lemma MeshKeepsMeshInv(s: Sys, s': Sys)
    requires MeshInv(s) && MeshStep(s, s')
    ensures MeshInv(s')
  {
    if MeshTakes(s, s') {
      TakeKeepsMeshInv(s, s');
    } else if MeshRefreshes(s, s') || MeshRefreshesUnprompted(s, s') {
      RefreshKeepsMeshInv(s, s');
    } else if MeshApplies(s, s') || MeshReplies(s, s') {
      ApplyKeepsMeshInv(s, s');
    }
  }

  lemma MeshKeeps(s: Sys, s': Sys)
    requires Inv(s) && MeshStep(s, s')
    ensures Inv(s')
  {
    MeshKeepsMeshInv(s, s');
    assert s'.conns == s.conns;
    forall j | j in s.conns ensures ConnInv(s', j, s.conns[j]) {
      MeshFrames(s, s', j);
      ConnInvFrame(s, s', j, s.conns[j]);
    }
  }

  lemma NextKeeps(s: Sys, s': Sys)
    requires Inv(s) && Next(s, s')
    ensures Inv(s')
  {
    if InternalEnqueues(s, s') {
      InternalKeeps(s, s');
    } else if MeshStep(s, s') {
      MeshKeeps(s, s');
    } else {
      var i :| Connects(s, s', i) || Moves(s, s', i) || Enqueues(s, s', i);
      if Connects(s, s', i) {
        ConnectsKeeps(s, s', i);
      } else if Moves(s, s', i) {
        var c' :| ConnStep(s, i, s.conns[i], c') && s' == s.(conns := s.conns[i := c']);
        MovesKeeps(s, s', i, c');
      } else {
        EnqueuesKeeps(s, s', i);
      }
    }
  }

  lemma {:induction false} AlwaysInv(run: seq<Sys>, n: nat)
    requires Behaviour(run) && n < |run|
    ensures Inv(run[n])
  {
    if n > 0 {
      AlwaysInv(run, n - 1);
      NextKeeps(run[n - 1], run[n]);
    }
  }

  // ----- what a client can conclude

  /** In every interleaving, a client whose wait ended with a snapshot knows that
      its command took effect and was reported successful, and that the snapshot
      was read after the contact refresh made for it: it shows the command's
      effect unless the refresh that built it could not read the node. */
  lemma SnapshotMeansDone(run: seq<Sys>, n: nat, i: nat)
    requires Behaviour(run) && n < |run| && i in run[n].conns && run[n].conns[i].client.Succeeded?
    ensures var s := run[n]; var v := s.conns[i].client.view;
            && i in s.applied && i in s.replies && s.replies[i]
            && i in s.refreshedAt && v.serial >= s.refreshedAt[i]
            && (v.current ==> i in v.reflects)
  {
    AlwaysInv(run, n);
    assert ConnInv(run[n], i, run[n].conns[i]);
  }

  /** A command the server loop reported failed or timed out never ends the wait
      with a snapshot: the client stops at the error, and only such a client does. */
  lemma ErrorComesFirst(run: seq<Sys>, n: nat, i: nat)
    requires Behaviour(run) && n < |run| && i in run[n].conns
    ensures var c := run[n].conns[i];
            && (c.client.Failed? ==> c.answer == Rejected)
            && (c.answer == Rejected ==>
                  !c.client.Succeeded?
                  && (c.client.AwaitOutcome? ==> Decisives(c.toClient) != [] && Decisives(c.toClient)[0] == Error))
  {
    AlwaysInv(run, n);
    assert ConnInv(run[n], i, run[n].conns[i]);
  }

  // ----- what an error leaves open

  ghost predicate ReportedFailed(s: Sys, i: nat) {
    i in s.conns && s.conns[i].answer == Rejected
  }

  /** The command is queued for a mesh task that is alive, or being applied by it. */
  ghost predicate StillPending(s: Sys, i: nat) {
    s.alive && (FromClient(i) in s.channel || s.mesh == Applying(FromClient(i)))
  }

  ghost predicate Steps(run: seq<Sys>) {
    run != [] && forall n :: 0 <= n < |run| - 1 ==> Next(run[n], run[n + 1])
  }

  /** Some steps, or none, lead from `s` to `s'`. */
  ghost predicate Leads(s: Sys, s': Sys) {
    exists run :: Steps(run) && run[0] == s && run[|run| - 1] == s'
  }

  lemma LeadsNowhere(s: Sys)
    ensures Leads(s, s)
  {
    assert Steps([s]) && [s][0] == s;
  }

  lemma LeadsOn(s: Sys, s': Sys, s'': Sys)
    requires Leads(s, s') && Next(s', s'')
    ensures Leads(s, s'')
  {
    var run :| Steps(run) && run[0] == s && run[|run| - 1] == s';
    var longer := run + [s''];
    forall n | 0 <= n < |longer| - 1 ensures Next(longer[n], longer[n + 1]) {
      assert n < |run| - 1 ==> Next(run[n], run[n + 1]);
    }
    assert Steps(longer) && longer[0] == s && longer[|longer| - 1] == s'';
  }

  /** A rejected command that is neither applied nor pending is out for good. */
  ghost predicate OutForGood(s: Sys, i: nat) {
    Inv(s) && ReportedFailed(s, i) && i !in s.applied && !StillPending(s, i)
  }

  lemma ConnectionLeavesItOut(s: Sys, s': Sys, i: nat, j: nat)
    requires OutForGood(s, i) && (Connects(s, s', j) || Moves(s, s', j) || Enqueues(s, s', j))
    ensures ReportedFailed(s', i) && i !in s'.applied && !StillPending(s', i)
  {
    assert ConnInv(s, i, s.conns[i]);
    if j == i && Moves(s, s', i) {
      var c' :| ConnStep(s, i, s.conns[i], c') && s' == s.(conns := s.conns[i := c']);
    }
  }

  lemma TakeLeavesItOut(s: Sys, s': Sys, i: nat)
    requires OutForGood(s, i) && s.alive && MeshTakes(s, s')
    ensures ReportedFailed(s', i) && i !in s'.applied && !StillPending(s', i)
  {
    assert s.channel[0] in s.channel;
    assert forall k :: 0 <= k < |s'.channel| ==> s'.channel[k] in s.channel;
  }

  lemma MeshLeavesItOut(s: Sys, s': Sys, i: nat)
    requires OutForGood(s, i) && (MeshStep(s, s') || InternalEnqueues(s, s'))
    ensures ReportedFailed(s', i) && i !in s'.applied && !StillPending(s', i)
  {
    if s.alive && MeshTakes(s, s') {
      TakeLeavesItOut(s, s', i);
    }
  }

  lemma NextLeavesItOut(s: Sys, s': Sys, i: nat)
    requires OutForGood(s, i) && Next(s, s')
    ensures ReportedFailed(s', i) && i !in s'.applied && !StillPending(s', i)
  {
    if MeshStep(s, s') || InternalEnqueues(s, s') {
      MeshLeavesItOut(s, s', i);
    } else {
      var j :| Connects(s, s', j) || Moves(s, s', j) || Enqueues(s, s', j);
      ConnectionLeavesItOut(s, s', i, j);
    }
  }

  lemma {:induction false} StaysOut(run: seq<Sys>, n: nat, i: nat)
    requires Steps(run) && n < |run| && OutForGood(run[0], i)
    ensures OutForGood(run[n], i)
  {
    if n > 0 {
      StaysOut(run, n - 1, i);
      assert Next(run[n - 1], run[n]);
      NextKeeps(run[n - 1], run[n]);
      NextLeavesItOut(run[n - 1], run[n], i);
    }
  }

  /** The mesh task can always finish what it is at. */
  lemma MeshCanFinish(start: Sys, s: Sys) returns (s': Sys)
    requires Leads(start, s) && s.alive
    ensures Leads(start, s') && s'.mesh == Idle && s'.alive && s'.channel == s.channel
    decreases if s.mesh.Idle? then 0 else if s.mesh.Replying? then 1 else 2
  {
    match s.mesh
    case Idle =>
      s' := s;
    case Replying(item, ok) =>
      s' := s.(mesh := Idle, replies := if item.FromClient? then s.replies[item.id := ok] else s.replies);
      assert MeshReplies(s, s');
      LeadsOn(start, s, s');
    case Applying(item) =>
      var s1 := s.(mesh := Replying(item, false));
      assert MeshApplies(s, s1);
      LeadsOn(start, s, s1);
      s' := MeshCanFinish(start, s1);
    case Refreshing(item) =>
      var v := View(s.snapshot.serial + 1, s.applied, true);
      var s1 := s.(snapshot := v, mesh := Replying(item, true),
                   refreshedAt := if item.FromClient? then s.refreshedAt[item.id := v.serial] else s.refreshedAt);
      assert Refreshed(s, s1.snapshot) && MeshRefreshes(s, s1);
      LeadsOn(start, s, s1);
      s' := MeshCanFinish(start, s1);
  }

  /** A pending command can always come to be applied. */
  lemma {:induction false} PendingCanApply(start: Sys, s: Sys, i: nat) returns (s': Sys)
    requires Leads(start, s) && StillPending(s, i)
    ensures Leads(start, s') && i in s'.applied
    decreases |s.channel|
  {
    if s.mesh == Applying(FromClient(i)) {
      s' := s.(mesh := Refreshing(s.mesh.item), applied := s.applied + {i});
      assert MeshApplies(s, s');
      LeadsOn(start, s, s');
    } else {
      var idle := MeshCanFinish(start, s);
      var taken := idle.(mesh := Applying(idle.channel[0]), channel := idle.channel[1..]);
      assert MeshTakes(idle, taken);
      LeadsOn(start, idle, taken);
      s' := PendingCanApply(start, taken, i);
    }
  }

  /** An error is no promise that nothing happened, and this is all it leaves open:
      in any run, a rejected command that has not taken effect still can exactly
      while it is queued for a mesh task that is alive or being applied by it. */
  lemma RejectedCanApplyIff(run: seq<Sys>, n: nat, i: nat)
    requires Behaviour(run) && n < |run| && ReportedFailed(run[n], i) && i !in run[n].applied
    ensures (exists s' :: Leads(run[n], s') && i in s'.applied) <==> StillPending(run[n], i)
  {
    var s := run[n];
    if StillPending(s, i) {
      LeadsNowhere(s);
      var s' := PendingCanApply(s, s, i);
    } else {
      AlwaysInv(run, n);
      forall s' | Leads(s, s') ensures i !in s'.applied {
        var rest :| Steps(rest) && rest[0] == s && rest[|rest| - 1] == s';
        StaysOut(rest, |rest| - 1, i);
      }
    }
  }

  // ----- how a wait can end

  /** System `s` with connection `i` in state `c`. */
  function At(s: Sys, i: nat, c: Conn): Sys {
    s.(conns := s.conns[i := c])
  }

  lemma LeadsMove(start: Sys, s: Sys, i: nat, c: Conn, c': Conn)
    requires Leads(start, At(s, i, c)) && ConnStep(At(s, i, c), i, c, c')
    ensures Leads(start, At(s, i, c'))
  {
    var a, b := At(s, i, c), At(s, i, c');
    assert a.conns[i := c'] == b.conns;
    assert Moves(a, b, i);
    LeadsOn(start, a, b);
  }

  /** How a wait ends at a decisive message. */
  function EndedBy(m: ServerMessage): Client {
    if m.Snapshot? then Succeeded(m.view) else Failed
  }

  /** A waiting client can read on to the first decisive message and stop there. */
  lemma {:induction false} CanReadOn(start: Sys, s: Sys, i: nat, c: Conn) returns (c': Conn)
    requires Leads(start, At(s, i, c)) && c.client == AwaitOutcome && Decisives(c.toClient) != []
    ensures Leads(start, At(s, i, c'))
    ensures c'.client == EndedBy(Decisives(c.toClient)[0])
    decreases |c.toClient|
  {
    var rest := c.(toClient := c.toClient[1..]);
    DecisivesRead(c.toClient);
    match c.toClient[0]
    case Error =>
      c' := rest.(client := Failed);
      assert ClientReceives(c, c');
      LeadsMove(start, s, i, c, c');
    case Snapshot(v) =>
      c' := rest.(client := Succeeded(v));
      assert ClientReceives(c, c');
      LeadsMove(start, s, i, c, c');
    case _ =>
      assert ClientReceives(c, rest);
      LeadsMove(start, s, i, c, rest);
      c' := CanReadOn(start, s, i, rest);
  }

  /** A client whose command was sent can have asked for its snapshot as well. */
  lemma CanAsk(start: Sys, s: Sys, i: nat, c: Conn) returns (c': Conn)
    requires Leads(start, At(s, i, c)) && (c.client == SentCommand || c.client == AwaitOutcome)
    ensures Leads(start, At(s, i, c'))
    ensures c' == if c.client == AwaitOutcome then c
                  else c.(client := AwaitOutcome, toServer := c.toServer + [RequestSnapshot])
  {
    if c.client == AwaitOutcome {
      c' := c;
    } else {
      c' := c.(client := AwaitOutcome, toServer := c.toServer + [RequestSnapshot]);
      assert ClientSends(c, c');
      LeadsMove(start, s, i, c, c');
    }
  }

  ghost predicate CanFail(s: Sys, i: nat) {
    exists s' :: Leads(s, s') && i in s'.conns && s'.conns[i].client.Failed?
  }

  ghost predicate CanSucceed(s: Sys, i: nat) {
    exists s' :: Leads(s, s') && i in s'.conns && s'.conns[i].client.Succeeded?
  }

  /** The server loop has connection `i`'s command in hand, and a socket to answer on. */
  ghost predicate InHand(s: Sys, i: nat) {
    i in s.conns && s.conns[i].open && (s.conns[i].server == AwaitReply || s.conns[i].server == Enqueueing)
  }

  lemma InHandShape(run: seq<Sys>, n: nat, i: nat)
    requires Behaviour(run) && n < |run| && InHand(run[n], i)
    ensures var c := run[n].conns[i];
            && Decisives(c.toClient) == [] && (c.client == SentCommand || c.client == AwaitOutcome)
            && c.toServer == if c.client == SentCommand then [] else [RequestSnapshot]
    ensures Leads(run[n], At(run[n], i, run[n].conns[i]))
  {
    AlwaysInv(run, n);
    assert ConnInv(run[n], i, run[n].conns[i]);
    assert At(run[n], i, run[n].conns[i]) == run[n];
    LeadsNowhere(run[n]);
  }

  /** A failed command is answered with an error and with nothing else: that is the
      one thing the server loop can do about a reply of failure. */
  lemma FailureIsReported(s: Sys, i: nat, c: Conn, c': Conn)
    requires c.server == AwaitReply && i in s.replies && !s.replies[i]
    ensures HearBack(s, i, c, c') <==>
              c' == c.(toClient := c.toClient + [Error], server := Serving, answer := Rejected)
  {
  }

  /** A client whose command was answered with an error can come to stop at it. */
  lemma CanStopAtError(start: Sys, s: Sys, i: nat, c: Conn) returns (c': Conn)
    requires Leads(start, At(s, i, c)) && (c.client == SentCommand || c.client == AwaitOutcome)
    requires Decisives(c.toClient) == [Error]
    ensures Leads(start, At(s, i, c')) && c'.client == Failed
  {
    var asked := CanAsk(start, s, i, c);
    c' := CanReadOn(start, s, i, asked);
  }

  lemma CanBeTold(s: Sys, i: nat, c: Conn)
    requires Leads(s, At(s, i, c)) && c.open
    requires c.server == AwaitReply || (c.server == Enqueueing && !s.alive)
    ensures Leads(s, At(s, i, c.(toClient := c.toClient + [Error], server := Serving, answer := Rejected)))
  {
    var told := c.(toClient := c.toClient + [Error], server := Serving, answer := Rejected);
    assert HearBack(At(s, i, c), i, c, told);
    LeadsMove(s, s, i, c, told);
  }

  /** A command in hand can come to be reported failed, when it waits for its reply
      or the mesh task is gone. */
  lemma FailureIsPossible(run: seq<Sys>, n: nat, i: nat)
    requires Behaviour(run) && n < |run| && InHand(run[n], i)
    requires run[n].conns[i].server == AwaitReply || !run[n].alive
    ensures CanFail(run[n], i)
  {
    var s := run[n];
    var c := s.conns[i];
    InHandShape(run, n, i);
    CanBeTold(s, i, c);
    DecisivesWritten(c.toClient, Error);
    var done := CanStopAtError(s, s, i, c.(toClient := c.toClient + [Error], server := Serving, answer := Rejected));
    assert At(s, i, done).conns[i] == done;
  }

  /** A client waiting for its outcome can be sent the snapshot it asked for. */
  lemma CanBeServed(start: Sys, s: Sys, i: nat, c: Conn) returns (c': Conn)
    requires Leads(start, At(s, i, c)) && c.open && c.server == Serving
    requires c.client == AwaitOutcome && c.toServer == [RequestSnapshot] && Decisives(c.toClient) == []
    ensures Leads(start, At(s, i, c')) && c'.client == Succeeded(s.snapshot)
  {
    var answered := c.(toServer := [], toClient := c.toClient + [Snapshot(s.snapshot)]);
    DecisivesWritten(c.toClient, Snapshot(s.snapshot));
    assert c.toServer[1..] == [];
    assert Serve(At(s, i, c), c, answered);
    LeadsMove(start, s, i, c, answered);
    c' := CanReadOn(start, s, i, answered);
  }

  lemma SuccessIsPossible(run: seq<Sys>, n: nat, i: nat)
    requires Behaviour(run) && n < |run| && InHand(run[n], i) && run[n].conns[i].server == AwaitReply
    requires i in run[n].replies && run[n].replies[i]
    ensures CanSucceed(run[n], i)
  {
    var s := run[n];
    var c := s.conns[i];
    var told := c.(server := Serving, answer := Accepted);
    InHandShape(run, n, i);
    assert HearBack(At(s, i, c), i, c, told);
    LeadsMove(s, s, i, c, told);
    var asked := CanAsk(s, s, i, told);
    var done := CanBeServed(s, s, i, asked);
    assert At(s, i, done).conns[i] == done;
  }

  /** A reply, once given, is never taken back. */
  lemma MeshKeepsReply(s: Sys, s': Sys, i: nat)
    requires MeshInv(s) && MeshStep(s, s') && i in s.replies
    ensures i in s'.replies && s'.replies[i] == s.replies[i]
  {
  }

  lemma NextKeepsReply(s: Sys, s': Sys, i: nat)
    requires MeshInv(s) && Next(s, s') && i in s.replies
    ensures i in s'.replies && s'.replies[i] == s.replies[i]
  {
    if MeshStep(s, s') {
      MeshKeepsReply(s, s', i);
    } else if !InternalEnqueues(s, s') {
      var j :| Connects(s, s', j) || Moves(s, s', j) || Enqueues(s, s', j);
      assert s'.replies == s.replies;
    }
  }

  lemma {:induction false} KeepsReply(run: seq<Sys>, n: nat, i: nat)
    requires Steps(run) && n < |run| && Inv(run[0]) && i in run[0].replies
    ensures Inv(run[n]) && i in run[n].replies && run[n].replies[i] == run[0].replies[i]
  {
    if n > 0 {
      KeepsReply(run, n - 1, i);
      assert Next(run[n - 1], run[n]);
      NextKeepsReply(run[n - 1], run[n], i);
      NextKeeps(run[n - 1], run[n]);
    }
  }

  /** Once the mesh task has replied to a command whose server loop is listening,
      in whatever run: its client can still be told that it failed (the deadline
      may strike first), and can be told of success exactly when the reply says so. */
  lemma OutcomeFollowsReply(run: seq<Sys>, n: nat, i: nat)
    requires Behaviour(run) && n < |run| && InHand(run[n], i) && run[n].conns[i].server == AwaitReply
    requires i in run[n].replies
    ensures CanFail(run[n], i)
    ensures CanSucceed(run[n], i) <==> run[n].replies[i]
  {
    FailureIsPossible(run, n, i);
    if run[n].replies[i] {
      SuccessIsPossible(run, n, i);
    } else {
      AlwaysInv(run, n);
      forall s' | Leads(run[n], s') && i in s'.conns ensures !s'.conns[i].client.Succeeded? {
        var rest :| Steps(rest) && rest[0] == run[n] && rest[|rest| - 1] == s';
        KeepsReply(rest, |rest| - 1, i);
        assert ConnInv(s', i, s'.conns[i]);
      }
    }
  }

  /** What can go wrong, or happen unprompted, can do so at any moment: the
      connection breaks and its client notices, an event is broadcast, the mesh task
      ends and a command in hand is then rejected, or its channel takes in one more
      command, as long as fewer than eight are waiting. */
  lemma AnyMoment(s: Sys, i: nat)
    requires i in s.conns
    ensures var c := s.conns[i];
            && Next(s, At(s, i, c.(open := false)))
            && (!c.open && !c.client.Succeeded? && !c.client.Failed? && !c.client.Disconnected? ==>
                  Next(s, At(s, i, c.(client := Disconnected))))
            && (c.open && c.server == Serving ==> Next(s, At(s, i, c.(toClient := c.toClient + [Event]))))
            && (c.open && c.server == Enqueueing && !s.alive ==>
                  Next(s, At(s, i, c.(toClient := c.toClient + [Error], server := Serving, answer := Rejected))))
            && (c.open && c.server == Enqueueing && s.alive && |s.channel| < 8 ==>
                  Next(s, At(s, i, c.(server := AwaitReply)).(channel := s.channel + [FromClient(i)])))
    ensures s.alive ==> Next(s, s.(alive := false))
    ensures s.alive && |s.channel| < 8 ==> Next(s, s.(channel := s.channel + [Internal]))
  {
    var c := s.conns[i];
    CanMove(s, i, c.(open := false));
    if !c.open && !c.client.Succeeded? && !c.client.Failed? && !c.client.Disconnected? {
      CanMove(s, i, c.(client := Disconnected));
    }
    if c.open && c.server == Serving {
      assert Serve(s, c, Wrote(c, Event));
      CanMove(s, i, c.(toClient := c.toClient + [Event]));
    }
    if c.open && c.server == Enqueueing && !s.alive {
      assert HearBack(s, i, c, Reject(c));
      CanMove(s, i, c.(toClient := c.toClient + [Error], server := Serving, answer := Rejected));
    }
    if c.open && c.server == Enqueueing && s.alive && |s.channel| < 8 {
      assert Enqueues(s, At(s, i, c.(server := AwaitReply)).(channel := s.channel + [FromClient(i)]), i);
    }
  }

  lemma CanMove(s: Sys, i: nat, c': Conn)
    requires i in s.conns && ConnStep(s, i, s.conns[i], c')
    ensures Next(s, At(s, i, c'))
  {
    assert Moves(s, At(s, i, c'), i);
  }

  /** The contacts can be refreshed whenever the mesh task is free, and the read
      behind a refresh can fail, also right after a command: whatever view then
      results is stale, and one that is not shows all that was applied. */
  lemma AnyRefresh(s: Sys, v: View)
    requires s.alive && v.serial == s.snapshot.serial + 1 && (v.current ==> v.reflects == s.applied)
    ensures s.mesh == Idle ==> Next(s, s.(snapshot := v))
    ensures s.mesh.Refreshing? && s.mesh.item.FromClient? ==>
              Next(s, s.(snapshot := v, mesh := Replying(s.mesh.item, true),
                         refreshedAt := s.refreshedAt[s.mesh.item.id := v.serial]))
  {
    if s.mesh == Idle {
      assert MeshRefreshesUnprompted(s, s.(snapshot := v));
    }
  }

  /** The command channel never holds more than eight commands. */
  lemma {:induction false} ChannelBounded(run: seq<Sys>, n: nat)
    requires Behaviour(run) && n < |run|
    ensures |run[n].channel| <= 8
  {
    if n > 0 {
      ChannelBounded(run, n - 1);
      assert Next(run[n - 1], run[n]);
    }
  }

  /** Some run leads to a reply `ok` to command `i`, the command applied or not. */
  ghost predicate CanBeRepliedTo(s: Sys, i: nat, ok: bool, applied: bool) {
    exists s' :: Leads(s, s') && i in s'.replies && s'.replies[i] == ok && (i in s'.applied <==> applied)
  }

  lemma ReplyFollows(start: Sys, s: Sys, i: nat)
    requires Leads(start, s) && s.alive && s.mesh.Replying? && s.mesh.item == FromClient(i)
    ensures CanBeRepliedTo(start, i, s.mesh.ok, i in s.applied)
  {
    var s' := s.(mesh := Idle, replies := s.replies[i := s.mesh.ok]);
    assert MeshReplies(s, s');
    LeadsOn(start, s, s');
  }

  lemma FailureFollows(s: Sys, i: nat, effect: bool)
    requires s.alive && s.mesh == Applying(FromClient(i)) && i !in s.applied
    ensures CanBeRepliedTo(s, i, false, effect)
  {
    var failed := s.(mesh := Replying(s.mesh.item, false), applied := if effect then s.applied + {i} else s.applied);
    LeadsNowhere(s);
    assert MeshApplies(s, failed);
    LeadsOn(s, s, failed);
    ReplyFollows(s, failed, i);
  }

  /** A command the mesh task is applying can succeed and can fail, and when it fails
      it can have taken effect or not. */
  lemma AnyReplyIsPossible(s: Sys, i: nat)
    requires s.alive && s.mesh == Applying(FromClient(i)) && i !in s.applied
    ensures CanBeRepliedTo(s, i, true, true)
    ensures CanBeRepliedTo(s, i, false, true) && CanBeRepliedTo(s, i, false, false)
  {
    FailureFollows(s, i, false);
    FailureFollows(s, i, true);
    var applied := s.(mesh := Refreshing(s.mesh.item), applied := s.applied + {i});
    var v := View(s.snapshot.serial + 1, applied.applied, true);
    var shown := applied.(snapshot := v, mesh := Replying(s.mesh.item, true),
                          refreshedAt := s.refreshedAt[i := v.serial]);
    LeadsNowhere(s);
    assert MeshApplies(s, applied);
    LeadsOn(s, s, applied);
    assert Refreshed(applied, shown.snapshot) && MeshRefreshes(applied, shown);
    LeadsOn(s, applied, shown);
    ReplyFollows(s, shown, i);
  }

  // ----- the ordinary course of events

  /** Steps lead from the initial state to `s`. */
  ghost predicate Reachable(s: Sys) {
    exists run :: Behaviour(run) && run[|run| - 1] == s
  }

  lemma ReachNext(s: Sys, s': Sys)
    requires Reachable(s) && Next(s, s')
    ensures Reachable(s')
  {
    var run :| Behaviour(run) && run[|run| - 1] == s;
    var longer := run + [s'];
    forall n | 0 <= n < |longer| - 1 ensures Next(longer[n], longer[n + 1]) {
      assert n < |run| - 1 ==> Next(run[n], run[n + 1]);
    }
    assert Behaviour(longer) && longer[|longer| - 1] == s';
  }

  /** System `s` with connection 0 alone, in state `c`. */
  function With(s: Sys, c: Conn): Sys {
    s.(conns := map[0 := c])
  }

  lemma ReachMove(s: Sys, c: Conn, c': Conn)
    requires Reachable(With(s, c)) && ConnStep(With(s, c), 0, c, c')
    ensures Reachable(With(s, c'))
  {
    var a, b := With(s, c), With(s, c');
    assert a.conns[0 := c'] == b.conns;
    assert Moves(a, b, 0);
    ReachNext(a, b);
  }

  const FIRST_VIEW := View(0, {}, true)
  const FIRST := Sys(map[], [], Idle, true, {}, FIRST_VIEW, map[], map[])

  /** The one connection of the scenario, its socket queues given. */
  function Talking(client: Client, server: Server, up: seq<ClientMessage>, down: seq<ServerMessage>): Conn {
    Conn(client, server, true, up, down, NotYet)
  }

  lemma ReachGreeted()
    ensures Reachable(With(FIRST, Talking(HaveInitial, Serving, [], [Backlog])))
  {
    var s := FIRST;
    var c0, c1 := Talking(AwaitInitial, Greeting, [], []), Talking(AwaitInitial, SendingSnapshot, [], [Hello]);
    var c2 := Talking(AwaitInitial, SendingSnapshot, [], []);
    var c3 := Talking(AwaitInitial, SendingBacklog, [], [Snapshot(FIRST_VIEW)]);
    var c4, c5 := Talking(HaveInitial, SendingBacklog, [], []), Talking(HaveInitial, Serving, [], [Backlog]);
    assert Behaviour([s]) && [s][|[s]| - 1] == s;
    assert Connects(s, With(s, c0), 0);
    ReachNext(s, With(s, c0));
    assert Greet(With(s, c0), c0, c1);
    ReachMove(s, c0, c1);
    assert ClientReceives(c1, c2);
    ReachMove(s, c1, c2);
    assert Greet(With(s, c2), c2, c3);
    ReachMove(s, c2, c3);
    assert ClientReceives(c3, c4);
    ReachMove(s, c3, c4);
    assert Greet(With(s, c4), c4, c5);
    ReachMove(s, c4, c5);
  }

  lemma ReachTaken()
    ensures Reachable(With(FIRST, Talking(AwaitOutcome, Enqueueing, [RequestSnapshot], [Backlog])))
  {
    var c0, c1 := Talking(HaveInitial, Serving, [], [Backlog]), Talking(SentCommand, Serving, [Command], [Backlog]);
    var c2 := Talking(AwaitOutcome, Serving, [Command, RequestSnapshot], [Backlog]);
    var c3 := Talking(AwaitOutcome, Enqueueing, [RequestSnapshot], [Backlog]);
    ReachGreeted();
    assert ClientSends(c0, c1);
    ReachMove(FIRST, c0, c1);
    assert ClientSends(c1, c2);
    ReachMove(FIRST, c1, c2);
    assert c2.toServer[1..] == [RequestSnapshot];
    assert Serve(With(FIRST, c2), c2, c3);
    ReachMove(FIRST, c2, c3);
  }

  const LAST_VIEW := View(1, {0}, true)
  const LAST := Sys(map[], [], Idle, true, {0}, LAST_VIEW, map[0 := 1], map[0 := true])

  lemma ReachMesh(s: Sys, s': Sys, c: Conn)
    requires Reachable(With(s, c)) && MeshStep(With(s, c), With(s', c))
    ensures Reachable(With(s', c))
  {
    ReachNext(With(s, c), With(s', c));
  }

  lemma ReachApplying()
    ensures Reachable(With(FIRST.(mesh := Applying(FromClient(0))),
                           Talking(AwaitOutcome, AwaitReply, [RequestSnapshot], [Backlog])))
  {
    var c0 := Talking(AwaitOutcome, Enqueueing, [RequestSnapshot], [Backlog]);
    var c := Talking(AwaitOutcome, AwaitReply, [RequestSnapshot], [Backlog]);
    var s1 := FIRST.(channel := [FromClient(0)]);
    var s2 := FIRST.(mesh := Applying(FromClient(0)));
    ReachTaken();
    assert With(FIRST, c0).conns[0 := c] == With(s1, c).conns;
    assert Enqueues(With(FIRST, c0), With(s1, c), 0);
    ReachNext(With(FIRST, c0), With(s1, c));
    assert MeshTakes(With(s1, c), With(s2, c));
    ReachMesh(s1, s2, c);
  }

  lemma ReachApplied()
    ensures Reachable(With(LAST, Talking(AwaitOutcome, AwaitReply, [RequestSnapshot], [Backlog])))
  {
    var c := Talking(AwaitOutcome, AwaitReply, [RequestSnapshot], [Backlog]);
    var s2 := FIRST.(mesh := Applying(FromClient(0)));
    var s3 := FIRST.(mesh := Refreshing(FromClient(0)), applied := {0});
    var s4 := s3.(snapshot := LAST_VIEW, mesh := Replying(FromClient(0), true), refreshedAt := map[0 := 1]);
    ReachApplying();
    assert {} + {0} == {0};
    assert MeshApplies(With(s2, c), With(s3, c));
    ReachMesh(s2, s3, c);
    assert MeshRefreshes(With(s3, c), With(s4, c));
    ReachMesh(s3, s4, c);
    assert MeshReplies(With(s4, c), With(LAST, c));
    ReachMesh(s4, LAST, c);
  }

  /** The ordinary course ends well: some run brings a client to its snapshot, so
      what is proved of such clients is proved of something. */
  lemma SuccessIsReachable()
    ensures exists s :: Reachable(s) && 0 in s.conns && s.conns[0].client.Succeeded?
  {
    var c1 := Talking(AwaitOutcome, AwaitReply, [RequestSnapshot], [Backlog]);
    var c2 := c1.(server := Serving, answer := Accepted);
    var c3 := c2.(toServer := [], toClient := [Backlog, Snapshot(LAST_VIEW)]);
    var c4 := c3.(toClient := [Snapshot(LAST_VIEW)]);
    var c5 := c4.(toClient := [], client := Succeeded(LAST_VIEW));
    ReachApplied();
    assert HearBack(With(LAST, c1), 0, c1, c2);
    ReachMove(LAST, c1, c2);
    assert Serve(With(LAST, c2), c2, c3);
    ReachMove(LAST, c2, c3);
    assert c3.toClient[1..] == c4.toClient;
    assert ClientReceives(c3, c4);
    ReachMove(LAST, c3, c4);
    assert ClientReceives(c4, c5);
    ReachMove(LAST, c4, c5);
    assert With(LAST, c5).conns[0] == c5;
  }

  /** Some run ends with a command that was reported failed and yet took effect. */
  lemma TimedOutMayStillApply()
    ensures exists s :: Reachable(s) && ReportedFailed(s, 0) && 0 in s.applied
  {
    var c := Talking(AwaitOutcome, AwaitReply, [RequestSnapshot], [Backlog]);
    var s := FIRST.(mesh := Applying(FromClient(0)));
    var s' := FIRST.(mesh := Refreshing(FromClient(0)), applied := {0});
    ReachApplying();
    assert HearBack(With(s, c), 0, c, Reject(c));
    ReachMove(s, c, Reject(c));
    assert {} + {0} == {0};
    assert MeshApplies(With(s, Reject(c)), With(s', Reject(c)));
    ReachMesh(s, s', Reject(c));
    assert ReportedFailed(With(s', Reject(c)), 0);
  }
}
