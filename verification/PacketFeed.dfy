/**
 From the radio to a client's packet page: the daemon's rotating log, and the
 hand-over between the backlog a client is sent on connecting and the live
 entries broadcast from then on.
 */
module PacketFeed {
  import opened PacketView
  import opened Sequences

  /** The log's content: the last `capacity` recorded entries, newest first. */
  function Kept(recorded: seq<Entry>, capacity: nat): seq<Entry> {
    Reversed(recorded[|recorded| - Min(|recorded|, capacity)..])
  }

  ghost predicate IdsIncrease(recorded: seq<Entry>) {
    forall i, j :: 0 <= i < j < |recorded| ==> recorded[i].id < recorded[j].id
  }

  class PacketLog {
    const capacity: nat
    var log: seq<Entry>
    var nextId: nat
    /** Everything ever recorded, oldest first. */
    ghost var recorded: seq<Entry>

    ghost predicate Valid()
      reads this
    {
      && capacity >= 1
      && log == Kept(recorded, capacity)
      && IdsIncrease(recorded)
      && (forall i :: 0 <= i < |recorded| ==> recorded[i].id < nextId)
    }

    constructor (configured: nat)
      ensures Valid() && recorded == [] && nextId == 1 && capacity == (if configured == 0 then 1 else configured)
    {
      capacity := if configured == 0 then 1 else configured;
      log, nextId, recorded := [], 1, [];
    }

    method NextPacketId() returns (id: nat)
      requires Valid()
      modifies this`nextId
      ensures Valid() && id == old(nextId) && nextId == old(nextId) + 1
    {
      id := nextId;
      nextId := nextId + 1;
    }

    method RecordPacket(e: Entry)
      requires Valid() && e.id < nextId
      requires forall i :: 0 <= i < |recorded| ==> recorded[i].id < e.id
      modifies this`log, this`recorded
      ensures Valid() && recorded == old(recorded) + [e]
      ensures log == [e] + if |old(log)| < capacity then old(log) else old(log)[..capacity - 1]
      ensures forall i, j :: 0 <= i < j < |log| ==> log[i].id > log[j].id
    {
      KeptStep(recorded, e, capacity);
      IdsAppend(recorded, e);
      if |log| >= capacity {
        log := log[..|log| - 1];
      }
      log := [e] + log;
      recorded := recorded + [e];
      forall i, j | 0 <= i < j < |log| ensures log[i].id > log[j].id {
        KeptDescends(recorded, capacity, i, j);
      }
    }

    /** One radio event: an id is drawn for every event, but only RF log data is
        recorded. */
    method OnEvent(isLogData: bool, data: int)
      requires Valid()
      modifies this
      ensures Valid() && nextId == old(nextId) + 1
      ensures recorded == old(recorded) + if isLogData then [Entry(old(nextId), data)] else []
    {
      var id := NextPacketId();
      if isLogData {
        RecordPacket(Entry(id, data));
      }
    }
  }

  lemma IdsAppend(recorded: seq<Entry>, e: Entry)
    requires IdsIncrease(recorded) && forall i :: 0 <= i < |recorded| ==> recorded[i].id < e.id
    ensures IdsIncrease(recorded + [e])
    ensures forall i :: 0 <= i <= |recorded| ==> (recorded + [e])[i].id <= e.id
  {
  }

  lemma KeptStep(recorded: seq<Entry>, e: Entry, capacity: nat)
    requires capacity >= 1
    ensures var log := Kept(recorded, capacity);
            Kept(recorded + [e], capacity) == [e] + if |log| >= capacity then log[..|log| - 1] else log
  {
  }

  /** The log never holds two entries of one id and lists ids newest first. */
  lemma KeptDescends(recorded: seq<Entry>, capacity: nat, i: nat, j: nat)
    requires IdsIncrease(recorded) && i < j < |Kept(recorded, capacity)|
    ensures Kept(recorded, capacity)[i].id > Kept(recorded, capacity)[j].id
  {
  }

  // ----- one client's connection, step by step

  /** The broadcast channel keeps this many entries; a receiver further behind skips
      to the oldest one kept. */
  const BROADCAST_CAPACITY := 256

  datatype Message = Backlog(entries: seq<Entry>) | Live(entry: Entry)

  datatype Phase = Connecting | Subscribed | Serving

  /** `recorded` is what the log has taken in, `sent` how many of those have been
      broadcast; `next` is the entry the connection's broadcast receiver stands at,
      `socket` what was written and not yet read, `shown` what the client has put
      on its page, oldest first. The rest is history: `from` is where the receiver
      began, `at` the number recorded when the backlog was read, `live` the entries
      forwarded since, by index, and `delivered` how many of those are shown. */
  datatype Feed = Feed(
    recorded: seq<Entry>, sent: nat, phase: Phase, next: nat, socket: seq<Message>,
    gotBacklog: bool, shown: seq<Entry>,
    from: nat, at: nat, live: seq<nat>, delivered: nat)

  ghost predicate Init(s: Feed) {
    s.phase == Connecting && s.sent == |s.recorded| && s.socket == []
    && !s.gotBacklog && s.shown == [] && s.live == [] && s.delivered == 0
  }

  /** The mesh task stores an entry, then broadcasts it: two separate steps. */
  ghost predicate Record(s: Feed, s': Feed) {
    s.sent == |s.recorded| && exists e :: s' == s.(recorded := s.recorded + [e])
  }

  /** A broadcast never waits for a receiver. */
  ghost predicate Broadcast(s: Feed, s': Feed) {
    s.sent < |s.recorded| && s' == s.(sent := s.sent + 1)
  }

  ghost predicate Subscribe(s: Feed, s': Feed) {
    s.phase == Connecting && s' == s.(phase := Subscribed, next := s.sent, from := s.sent)
  }

  ghost predicate ReadBacklog(s: Feed, s': Feed, capacity: nat) {
    && s.phase == Subscribed
    && s' == s.(phase := Serving, at := |s.recorded|, socket := s.socket + [Backlog(Kept(s.recorded, capacity))])
  }

  ghost predicate Forward(s: Feed, s': Feed) {
    && s.phase == Serving && s.next < s.sent <= |s.recorded| && s.sent - s.next <= BROADCAST_CAPACITY
    && s' == s.(next := s.next + 1, socket := s.socket + [Live(s.recorded[s.next])], live := s.live + [s.next])
  }

  /** The receiver has fallen too far behind: what it missed is skipped with a
      warning in the daemon's log. */
  ghost predicate Lag(s: Feed, s': Feed) {
    && s.phase == Serving && s.sent - s.next > BROADCAST_CAPACITY
    && s' == s.(next := s.sent - BROADCAST_CAPACITY)
  }

  ghost predicate Deliver(s: Feed, s': Feed) {
    && s.socket != []
    && match s.socket[0]
       case Backlog(es) => s' == s.(socket := s.socket[1..], gotBacklog := true, shown := Reversed(es))
       case Live(e) => s' == s.(socket := s.socket[1..], shown := s.shown + [e], delivered := s.delivered + 1)
  }

  ghost predicate Next(s: Feed, s': Feed, capacity: nat) {
    Record(s, s') || Broadcast(s, s') || Subscribe(s, s') || ReadBacklog(s, s', capacity)
    || Forward(s, s') || Lag(s, s') || Deliver(s, s')
  }

  ghost predicate Behaviour(run: seq<Feed>, capacity: nat) {
    && run != [] && Init(run[0])
    && forall i :: 0 <= i < |run| - 1 ==> Next(run[i], run[i + 1], capacity)
  }

  // ----- what holds at every step

  ghost predicate Within(idx: seq<nat>, n: nat) {
    forall j :: 0 <= j < |idx| ==> idx[j] < n
  }

  function Pick(recorded: seq<Entry>, idx: seq<nat>): (es: seq<Entry>)
    requires Within(idx, |recorded|)
    ensures |es| == |idx|
    ensures forall j {:trigger es[j]} :: 0 <= j < |idx| ==> es[j] == recorded[idx[j]]
  {
    seq(|idx|, j requires 0 <= j < |idx| => recorded[idx[j]])
  }

  function PickLive(recorded: seq<Entry>, idx: seq<nat>): (ms: seq<Message>)
    requires Within(idx, |recorded|)
    ensures |ms| == |idx|
    ensures forall j {:trigger ms[j]} :: 0 <= j < |idx| ==> ms[j] == Live(recorded[idx[j]])
  {
    seq(|idx|, j requires 0 <= j < |idx| => Live(recorded[idx[j]]))
  }

  /** Where the backlog begins among the recorded entries. */
  function BacklogStart(s: Feed, capacity: nat): nat {
    s.at - Min(s.at, capacity)
  }

  /** Entry `k` was passed over by a receiver that had fallen behind. */
  ghost predicate Skipped(s: Feed, k: nat) {
    s.from <= k < s.next && k !in s.live
  }

  ghost predicate Inv(s: Feed, capacity: nat) {
    && s.sent <= |s.recorded| <= s.sent + 1
    && match s.phase
       case Connecting => s.socket == [] && !s.gotBacklog && s.live == [] && s.delivered == 0
       case Subscribed =>
         s.next == s.from <= s.sent && s.socket == [] && !s.gotBacklog && s.live == [] && s.delivered == 0
       case Serving => Cursors(s) && Skips(s) && InFlight(s, capacity) && Page(s, capacity)
  }

  ghost predicate Cursors(s: Feed) {
    && s.from <= s.at <= |s.recorded| && s.from <= s.next <= s.sent <= |s.recorded|
    && s.delivered <= |s.live| && (!s.gotBacklog ==> s.delivered == 0)
    && (forall j :: 0 <= j < |s.live| ==> s.from <= s.live[j] < s.next)
    && (forall i, j :: 0 <= i < j < |s.live| ==> s.live[i] < s.live[j])
    && (s.live != [] ==> s.at <= s.live[0] + BROADCAST_CAPACITY + 1)
  }

  /** Only entries the channel no longer keeps are skipped. */
  ghost predicate Skips(s: Feed) {
    forall k: nat :: Skipped(s, k) ==> k + BROADCAST_CAPACITY < s.sent
  }

  /** What is written but not shown: the backlog until it is read, then the live
      entries in order. */
  ghost predicate InFlight(s: Feed, capacity: nat)
    requires Cursors(s)
  {
    s.socket == (if s.gotBacklog then [] else [Backlog(Kept(s.recorded[..s.at], capacity))])
                + PickLive(s.recorded, s.live[s.delivered..])
  }

  /** What is shown: the backlog, then the live entries delivered so far. */
  ghost predicate Page(s: Feed, capacity: nat)
    requires Cursors(s)
  {
    s.gotBacklog ==>
      s.shown == s.recorded[BacklogStart(s, capacity)..s.at] + Pick(s.recorded, s.live[..s.delivered])
  }

  lemma SlicesGrow(r: seq<Entry>, e: Entry, a: nat, b: nat)
    requires a <= b <= |r|
    ensures (r + [e])[a..b] == r[a..b]
  {
  }

  lemma PicksGrow(r: seq<Entry>, e: Entry, idx: seq<nat>)
    requires Within(idx, |r|)
    ensures Pick(r + [e], idx) == Pick(r, idx) && PickLive(r + [e], idx) == PickLive(r, idx)
  {
  }

  lemma SkipsStay(s: Feed, s': Feed)
    requires Skips(s) && s'.from == s.from && s'.next == s.next && s'.live == s.live && s.sent <= s'.sent
    ensures Skips(s')
  {
    assert forall k: nat :: Skipped(s', k) ==> Skipped(s, k);
  }

  lemma RecordKeepsInv(s: Feed, s': Feed, capacity: nat)
    requires Inv(s, capacity) && Record(s, s')
    ensures Inv(s', capacity)
  {
    var e :| s' == s.(recorded := s.recorded + [e]);
    if s.phase == Serving {
      PicksGrow(s.recorded, e, s.live[s.delivered..]);
      PicksGrow(s.recorded, e, s.live[..s.delivered]);
      SlicesGrow(s.recorded, e, BacklogStart(s, capacity), s.at);
      SlicesGrow(s.recorded, e, 0, s.at);
      SkipsStay(s, s');
    }
  }

  lemma BacklogKeepsInv(s: Feed, s': Feed, capacity: nat)
    requires Inv(s, capacity) && ReadBacklog(s, s', capacity)
    ensures Inv(s', capacity)
  {
    assert s.recorded[..s'.at] == s.recorded;
    assert PickLive(s.recorded, []) == [];
  }

  /** One more index forwarded: it waits at the end. */
  lemma ForwardOne(r: seq<Entry>, live: seq<nat>, d: nat, k: nat, more: seq<nat>)
    requires d <= |live| && Within(live, |r|) && k < |r| && more == live + [k]
    ensures Within(more, |r|)
    ensures PickLive(r, more[d..]) == PickLive(r, live[d..]) + [Live(r[k])]
    ensures Pick(r, more[..d]) == Pick(r, live[..d])
  {
    assert more[..d] == live[..d];
  }

  lemma ForwardCursors(s: Feed, s': Feed)
    requires Cursors(s) && Skips(s) && Forward(s, s') && |s.recorded| <= s.sent + 1
    ensures Cursors(s') && Skips(s')
  {
    forall k: nat | Skipped(s', k) ensures Skipped(s, k) {
      assert k in s.live ==> k in s'.live;
      assert s'.live[|s.live|] == s.next;
    }
  }

  lemma ForwardKeepsInv(s: Feed, s': Feed, capacity: nat)
    requires Inv(s, capacity) && Forward(s, s')
    ensures Inv(s', capacity)
  {
    ForwardCursors(s, s');
    ForwardOne(s.recorded, s.live, s.delivered, s.next, s'.live);
  }

  lemma LagKeepsInv(s: Feed, s': Feed, capacity: nat)
    requires Inv(s, capacity) && Lag(s, s')
    ensures Inv(s', capacity)
  {
  }

  /** One more index delivered: it moves from the waiting ones to the shown ones. */
  lemma DeliverOne(r: seq<Entry>, live: seq<nat>, d: nat, next: nat)
    requires d < |live| && next == d + 1 && Within(live, |r|)
    ensures PickLive(r, live[d..]) == [Live(r[live[d]])] + PickLive(r, live[next..])
    ensures Pick(r, live[..next]) == Pick(r, live[..d]) + [r[live[d]]]
  {
    assert live[..next] == live[..d] + [live[d]];
  }

  lemma DeliverLiveKeepsInv(s: Feed, s': Feed, capacity: nat)
    requires Inv(s, capacity) && s.phase == Serving && Deliver(s, s') && s.gotBacklog
    ensures Inv(s', capacity)
  {
    LiveWaits(s);
    SkipsStay(s, s');
    DeliverOne(s.recorded, s.live, s.delivered, s.delivered + 1);
    var e := s.recorded[s.live[s.delivered]];
    assert s' == s.(socket := s.socket[1..], shown := s.shown + [e], delivered := s.delivered + 1);
    ConcatAssociates(s.recorded[BacklogStart(s, capacity)..s.at], Pick(s.recorded, s.live[..s.delivered]), [e]);
  }

  lemma LiveWaits(s: Feed)
    requires Cursors(s) && s.socket != [] && s.socket == PickLive(s.recorded, s.live[s.delivered..])
    ensures s.delivered < |s.live| && s.socket[0] == Live(s.recorded[s.live[s.delivered]])
  {
  }

  lemma DeliverBacklogKeepsInv(s: Feed, s': Feed, capacity: nat)
    requires Inv(s, capacity) && s.phase == Serving && Deliver(s, s') && !s.gotBacklog
    ensures Inv(s', capacity)
  {
    var head, live := Backlog(Kept(s.recorded[..s.at], capacity)), PickLive(s.recorded, s.live[s.delivered..]);
    assert ([head] + live)[0] == head && ([head] + live)[1..] == live;
    SkipsStay(s, s');
    assert Pick(s.recorded, s.live[..0]) == [];
    assert s'.shown == s.recorded[BacklogStart(s, capacity)..s.at];
  }

  lemma NextKeepsInv(s: Feed, s': Feed, capacity: nat)
    requires Inv(s, capacity) && Next(s, s', capacity)
    ensures Inv(s', capacity)
  {
    if Record(s, s') {
      RecordKeepsInv(s, s', capacity);
    } else if Broadcast(s, s') {
      if s.phase == Serving {
        SkipsStay(s, s');
      }
    } else if ReadBacklog(s, s', capacity) {
      BacklogKeepsInv(s, s', capacity);
    } else if Forward(s, s') {
      ForwardKeepsInv(s, s', capacity);
    } else if Lag(s, s') {
      LagKeepsInv(s, s', capacity);
    } else if Deliver(s, s') {
      if s.gotBacklog {
        DeliverLiveKeepsInv(s, s', capacity);
      } else {
        DeliverBacklogKeepsInv(s, s', capacity);
      }
    }
  }

  lemma {:induction false} AlwaysInv(run: seq<Feed>, capacity: nat, n: nat)
    requires Behaviour(run, capacity) && n < |run|
    ensures Inv(run[n], capacity)
  {
    if n > 0 {
      AlwaysInv(run, capacity, n - 1);
      NextKeepsInv(run[n - 1], run[n], capacity);
    }
  }

  // ----- which entries a page shows, and whether it has a gap

  /** `page` holds exactly the entries `recorded[lo..hi]`, repeats aside. */
  ghost predicate Covers(page: seq<Entry>, recorded: seq<Entry>, lo: nat, hi: nat) {
    && lo <= hi <= |recorded|
    && (forall k :: lo <= k < hi ==> recorded[k] in page)
    && (forall i :: 0 <= i < |page| ==> page[i] in recorded[lo..hi])
  }

  /** The page shows an unbroken run of what was recorded, repeats aside. */
  ghost predicate Unbroken(page: seq<Entry>, recorded: seq<Entry>) {
    exists lo, hi :: Covers(page, recorded, lo, hi)
  }

  ghost predicate InBacklog(s: Feed, capacity: nat, k: nat) {
    BacklogStart(s, capacity) <= k < s.at
  }

  /** Entry `k` is on the page, from the backlog or as a live entry. */
  ghost predicate Shows(s: Feed, capacity: nat, k: nat)
    requires s.delivered <= |s.live|
  {
    InBacklog(s, capacity, k) || k in s.live[..s.delivered]
  }

  /** Something on the page is older than entry `k`, and something newer. */
  ghost predicate Between(s: Feed, capacity: nat, k: nat)
    requires s.delivered <= |s.live|
  {
    (exists a: nat :: a < k && Shows(s, capacity, a)) && (exists b: nat :: b > k && Shows(s, capacity, b))
  }

  ghost predicate NoHole(s: Feed, capacity: nat)
    requires s.delivered <= |s.live|
  {
    forall k: nat :: Between(s, capacity, k) ==> Shows(s, capacity, k)
  }

  /** A client being served that has read its backlog. */
  ghost predicate Reading(s: Feed, capacity: nat) {
    s.phase == Serving && s.gotBacklog && Inv(s, capacity)
  }

  lemma ShownIsRecorded(s: Feed, capacity: nat, i: nat) returns (k: nat)
    requires Reading(s, capacity) && i < |s.shown|
    ensures k < |s.recorded| && s.shown[i] == s.recorded[k] && Shows(s, capacity, k)
  {
    var start := BacklogStart(s, capacity);
    if i < s.at - start {
      k := start + i;
    } else {
      k := s.live[..s.delivered][i - (s.at - start)];
    }
  }

  lemma RecordedIsShown(s: Feed, capacity: nat, k: nat)
    requires Reading(s, capacity) && Shows(s, capacity, k)
    ensures k < |s.recorded| && s.recorded[k] in s.shown
  {
    var start, picked := BacklogStart(s, capacity), s.live[..s.delivered];
    if InBacklog(s, capacity, k) {
      assert s.shown[k - start] == s.recorded[k];
    } else {
      var j :| 0 <= j < |picked| && picked[j] == k;
      assert s.shown[s.at - start + j] == Pick(s.recorded, picked)[j];
    }
  }

  lemma ShownIff(s: Feed, capacity: nat, k: nat)
    requires Reading(s, capacity) && IdsIncrease(s.recorded) && k < |s.recorded|
    ensures s.recorded[k] in s.shown <==> Shows(s, capacity, k)
  {
    if s.recorded[k] in s.shown {
      var i :| 0 <= i < |s.shown| && s.shown[i] == s.recorded[k];
      var m := ShownIsRecorded(s, capacity, i);
      assert m < k || m == k || k < m;
    }
    if Shows(s, capacity, k) {
      RecordedIsShown(s, capacity, k);
    }
  }

  /** The oldest entry shown and one past the newest; both at the end when nothing is. */
  lemma ShownBounds(s: Feed, capacity: nat) returns (lo: nat, hi: nat)
    requires Reading(s, capacity)
    ensures lo <= hi <= |s.recorded|
    ensures forall k :: 0 <= k < |s.recorded| && Shows(s, capacity, k) ==> lo <= k < hi
    ensures lo < hi ==> Shows(s, capacity, lo) && Shows(s, capacity, hi - 1)
  {
    lo, hi := 0, |s.recorded|;
    while lo < |s.recorded| && !Shows(s, capacity, lo)
      invariant lo <= |s.recorded| && forall k :: 0 <= k < lo ==> !Shows(s, capacity, k)
    {
      lo := lo + 1;
    }
    while hi > lo && !Shows(s, capacity, hi - 1)
      invariant lo <= hi <= |s.recorded| && forall k :: hi <= k < |s.recorded| ==> !Shows(s, capacity, k)
    {
      hi := hi - 1;
    }
  }

  lemma HolelessIsUnbroken(s: Feed, capacity: nat)
    requires Reading(s, capacity) && NoHole(s, capacity)
    ensures Unbroken(s.shown, s.recorded)
  {
    var lo, hi := ShownBounds(s, capacity);
    forall k | lo <= k < hi ensures s.recorded[k] in s.shown {
      assert lo < k < hi - 1 ==> Between(s, capacity, k);
      RecordedIsShown(s, capacity, k);
    }
    forall i | 0 <= i < |s.shown| ensures s.shown[i] in s.recorded[lo..hi] {
      var k := ShownIsRecorded(s, capacity, i);
      SliceHas(s.recorded, lo, hi, k);
    }
    assert Covers(s.shown, s.recorded, lo, hi);
  }

  lemma SliceHas(r: seq<Entry>, lo: nat, hi: nat, k: nat)
    requires lo <= k < hi <= |r|
    ensures r[k] in r[lo..hi]
  {
    assert r[lo..hi][k - lo] == r[k];
  }

  lemma InSlice(r: seq<Entry>, lo: nat, hi: nat, k: nat)
    requires IdsIncrease(r) && lo <= hi <= |r| && k < |r| && r[k] in r[lo..hi]
    ensures lo <= k < hi
  {
    var j :| 0 <= j < hi - lo && r[lo..hi][j] == r[k];
    assert lo + j < k || lo + j == k || k < lo + j;
  }

  /** A page is unbroken exactly when it shows everything between any two entries
      it shows. */
  lemma UnbrokenIff(s: Feed, capacity: nat)
    requires Reading(s, capacity) && IdsIncrease(s.recorded)
    ensures Unbroken(s.shown, s.recorded) <==> NoHole(s, capacity)
  {
    if NoHole(s, capacity) {
      HolelessIsUnbroken(s, capacity);
    }
    if Unbroken(s.shown, s.recorded) {
      var lo, hi :| Covers(s.shown, s.recorded, lo, hi);
      forall k: nat | Between(s, capacity, k) ensures Shows(s, capacity, k) {
        var a: nat :| a < k && Shows(s, capacity, a);
        var b: nat :| b > k && Shows(s, capacity, b);
        RecordedIsShown(s, capacity, a);
        RecordedIsShown(s, capacity, b);
        InSlice(s.recorded, lo, hi, a);
        InSlice(s.recorded, lo, hi, b);
        ShownIff(s, capacity, k);
      }
    }
  }

  /** A log at least as large as the broadcast buffer reaches back to the first live
      entry. */
  lemma BacklogReaches(s: Feed, capacity: nat, a: nat)
    requires Cursors(s) && capacity >= BROADCAST_CAPACITY && a in s.live
    ensures BacklogStart(s, capacity) <= a + 1
  {
    assert s.live[0] <= a;
  }

  /** With such a log, whatever is missing between two shown entries was skipped. */
  lemma HolesAreSkipped(s: Feed, capacity: nat, k: nat, a: nat, b: nat)
    requires Reading(s, capacity) && capacity >= BROADCAST_CAPACITY && a < k < b
    requires Shows(s, capacity, a) && Shows(s, capacity, b) && !Shows(s, capacity, k)
    ensures Skipped(s, k) && !InBacklog(s, capacity, k)
  {
    DeliveredAreLive(s, a);
    DeliveredAreLive(s, b);
    if a in s.live {
      BacklogReaches(s, capacity, a);
    }
    if k in s.live {
      WaitingIsNewer(s, k, b);
    }
  }

  lemma HoleIsSkipped(s: Feed, capacity: nat, k: nat)
    requires Reading(s, capacity) && capacity >= BROADCAST_CAPACITY
    requires Between(s, capacity, k) && !Shows(s, capacity, k)
    ensures Skipped(s, k) && !InBacklog(s, capacity, k)
  {
    var a: nat :| a < k && Shows(s, capacity, a);
    var b: nat :| b > k && Shows(s, capacity, b);
    HolesAreSkipped(s, capacity, k, a, b);
  }

  lemma DeliveredAreLive(s: Feed, k: nat)
    requires Cursors(s)
    ensures k in s.live[..s.delivered] ==> k in s.live && s.from <= k < s.next
  {
  }

  /** A live entry still on its way is newer than all those shown. */
  lemma WaitingIsNewer(s: Feed, k: nat, b: nat)
    requires Cursors(s) && k in s.live && k !in s.live[..s.delivered]
    ensures b in s.live[..s.delivered] ==> b < k
  {
    assert s.live == s.live[..s.delivered] + s.live[s.delivered..];
    assert k in s.live[s.delivered..];
  }

  /** Everything sent has been read. */
  ghost predicate CaughtUp(s: Feed) {
    s.phase == Serving && s.gotBacklog && s.socket == [] && s.next == s.sent == |s.recorded|
  }

  lemma CaughtUpShows(s: Feed, capacity: nat, k: nat)
    requires CaughtUp(s) && Inv(s, capacity) && s.from <= k < |s.recorded|
    ensures Shows(s, capacity, k) <==> InBacklog(s, capacity, k) || !Skipped(s, k)
  {
    assert |PickLive(s.recorded, s.live[s.delivered..])| == |s.live| - s.delivered;
    assert s.live[..s.delivered] == s.live;
  }

  /** Once everything sent has been read, the page ends with the very last entry
      recorded, and it is unbroken exactly when every entry skipped on the way is in
      the backlog or older than everything shown; so always when none was. */
  lemma NoGapWhenCaughtUp(run: seq<Feed>, capacity: nat, n: nat)
    requires Behaviour(run, capacity) && n < |run| && capacity >= 1
    requires CaughtUp(run[n]) && IdsIncrease(run[n].recorded)
    ensures var s := run[n];
            && s.delivered <= |s.live|
            && (s.recorded != [] ==> Shows(s, capacity, |s.recorded| - 1))
            && (Unbroken(s.shown, s.recorded)
                <==> forall k: nat, a: nat :: Skipped(s, k) && !InBacklog(s, capacity, k) && a < k
                       ==> !Shows(s, capacity, a))
  {
    var s := run[n];
    AlwaysInv(run, capacity, n);
    UnbrokenIff(s, capacity);
    var last := |s.recorded| - 1;
    if s.recorded != [] && last >= s.from {
      CaughtUpShows(s, capacity, last);
    }
    CaughtUpHoles(s, capacity);
  }

  lemma CaughtUpHoles(s: Feed, capacity: nat)
    requires CaughtUp(s) && Inv(s, capacity) && capacity >= 1
    ensures NoHole(s, capacity)
        <==> forall k: nat, a: nat :: Skipped(s, k) && !InBacklog(s, capacity, k) && a < k ==> !Shows(s, capacity, a)
  {
    var last := |s.recorded| - 1;
    forall k: nat, a: nat | NoHole(s, capacity) && Skipped(s, k) && !InBacklog(s, capacity, k) && a < k
      ensures !Shows(s, capacity, a)
    {
      CaughtUpShows(s, capacity, k);
      CaughtUpShows(s, capacity, last);
      assert k < last && Shows(s, capacity, last);
      assert Shows(s, capacity, a) ==> Between(s, capacity, k);
    }
    forall k: nat | Between(s, capacity, k) && !Shows(s, capacity, k)
      ensures Skipped(s, k) && !InBacklog(s, capacity, k) && exists a: nat :: a < k && Shows(s, capacity, a)
    {
      var a: nat :| a < k && Shows(s, capacity, a);
      var b: nat :| b > k && Shows(s, capacity, b);
      assert k < s.from ==> InBacklog(s, capacity, a) && InBacklog(s, capacity, k);
      CaughtUpShows(s, capacity, k);
    }
  }

  /** With a log at least as large as the broadcast buffer, the page has a gap at a
      given moment exactly when an entry was skipped that the backlog does not hold
      and something both older and newer is on the page. */
  lemma GapIff(run: seq<Feed>, capacity: nat, n: nat)
    requires Behaviour(run, capacity) && n < |run| && capacity >= 256
    requires run[n].gotBacklog && IdsIncrease(run[n].recorded)
    ensures var s := run[n];
            && s.delivered <= |s.live|
            && (!Unbroken(s.shown, s.recorded)
                <==> exists k: nat :: Skipped(s, k) && !InBacklog(s, capacity, k) && Between(s, capacity, k))
  {
    var s := run[n];
    AlwaysInv(run, capacity, n);
    UnbrokenIff(s, capacity);
    forall k: nat | Between(s, capacity, k) && !Shows(s, capacity, k)
      ensures Skipped(s, k) && !InBacklog(s, capacity, k)
    {
      HoleIsSkipped(s, capacity, k);
    }
    forall k: nat | Skipped(s, k) && !InBacklog(s, capacity, k) ensures !Shows(s, capacity, k) {
      assert k in s.live[..s.delivered] ==> k in s.live;
    }
  }

  // ----- clients that never lag

  /** The receiver has skipped nothing so far. */
  ghost predicate NoSkip(s: Feed) {
    forall k: nat :: !Skipped(s, k)
  }

  /** No client whose receiver kept up ever looks at a page with a gap. */
  ghost predicate NeverGaps(capacity: nat) {
    forall run: seq<Feed>, n: nat :: Behaviour(run, capacity) && n < |run| && run[n].gotBacklog && NoSkip(run[n])
      ==> Unbroken(run[n].shown, run[n].recorded)
  }

  /** While nothing is skipped there is never a gap exactly when the log keeps at
      least as many entries as the broadcast buffer: with a smaller one the backlog
      may start after the first live entries waiting behind it. */
  lemma NeverGapsIff(capacity: nat)
    requires capacity >= 1
    ensures NeverGaps(capacity) <==> capacity >= 256
  {
    if capacity >= BROADCAST_CAPACITY {
      forall run: seq<Feed>, n: nat
        | Behaviour(run, capacity) && n < |run| && run[n].gotBacklog && NoSkip(run[n])
        ensures Unbroken(run[n].shown, run[n].recorded)
      {
        var s := run[n];
        AlwaysInv(run, capacity, n);
        forall k: nat | Between(s, capacity, k) ensures Shows(s, capacity, k) {
          if !Shows(s, capacity, k) {
            HoleIsSkipped(s, capacity, k);
          }
        }
        HolelessIsUnbroken(s, capacity);
      }
    } else {
      GapReached(capacity);
    }
  }

  // ----- runs that end with a gap

  /** Some run leads to `s`. */
  ghost predicate Reachable(s: Feed, capacity: nat) {
    exists run :: Behaviour(run, capacity) && run[|run| - 1] == s
  }

  lemma ReachNext(s: Feed, s': Feed, capacity: nat)
    requires Reachable(s, capacity) && Next(s, s', capacity)
    ensures Reachable(s', capacity)
  {
    var run :| Behaviour(run, capacity) && run[|run| - 1] == s;
    var longer := run + [s'];
    forall n | 0 <= n < |longer| - 1 ensures Next(longer[n], longer[n + 1], capacity) {
      assert n < |run| - 1 ==> Next(run[n], run[n + 1], capacity);
    }
    assert Behaviour(longer, capacity) && longer[|longer| - 1] == s';
  }

  lemma ReachBacklogRead(s: Feed, capacity: nat)
    requires Reachable(s, capacity) && s.phase == Subscribed && s.socket == []
    ensures var backlog := Kept(s.recorded, capacity);
            Reachable(s.(phase := Serving, at := |s.recorded|, socket := [Backlog(backlog)]), capacity)
  {
    var backlog := Kept(s.recorded, capacity);
    assert [] + [Backlog(backlog)] == [Backlog(backlog)];
    var s' := s.(phase := Serving, at := |s.recorded|, socket := [Backlog(backlog)]);
    assert ReadBacklog(s, s', capacity);
    ReachNext(s, s', capacity);
  }

  lemma ReachForwarded(s: Feed, capacity: nat, socket: seq<Message>, live: seq<nat>)
    requires Reachable(s, capacity) && s.phase == Serving
    requires s.next < s.sent <= |s.recorded| && s.sent - s.next <= BROADCAST_CAPACITY
    requires socket == s.socket + [Live(s.recorded[s.next])] && live == s.live + [s.next]
    ensures Reachable(s.(next := s.next + 1, socket := socket, live := live), capacity)
  {
    var s' := s.(next := s.next + 1, socket := socket, live := live);
    assert Forward(s, s');
    ReachNext(s, s', capacity);
  }

  lemma ReachBacklogShown(s: Feed, capacity: nat, backlog: seq<Entry>, rest: seq<Message>)
    requires Reachable(s, capacity) && s.socket == [Backlog(backlog)] + rest
    ensures Reachable(s.(socket := rest, gotBacklog := true, shown := Reversed(backlog)), capacity)
  {
    var s' := s.(socket := rest, gotBacklog := true, shown := Reversed(backlog));
    assert s.socket[0] == Backlog(backlog) && s.socket[1..] == rest;
    assert Deliver(s, s');
    ReachNext(s, s', capacity);
  }

  lemma ReachLiveShown(s: Feed, capacity: nat, e: Entry, shown: seq<Entry>)
    requires Reachable(s, capacity) && s.socket == [Live(e)] && shown == s.shown + [e]
    ensures Reachable(s.(socket := [], shown := shown, delivered := s.delivered + 1), capacity)
  {
    var s' := s.(socket := [], shown := shown, delivered := s.delivered + 1);
    assert s.socket[1..] == [] && Deliver(s, s');
    ReachNext(s, s', capacity);
  }

  function Heard(k: nat): (es: seq<Entry>)
    ensures |es| == k && forall i :: 0 <= i < k ==> es[i] == Entry(i, 0)
  {
    seq(k, i => Entry(i, 0))
  }

  /** State `s` once `k` entries are recorded and `sent` of them broadcast. */
  function After(s: Feed, k: nat, sent: nat): Feed {
    s.(recorded := Heard(k), sent := sent)
  }

  /** From any state more entries can be recorded and broadcast. */
  lemma {:induction false} ReachMore(s: Feed, j: nat, k: nat, capacity: nat)
    requires j <= k && Reachable(After(s, j, j), capacity)
    ensures Reachable(After(s, k, k), capacity)
  {
    if j < k {
      ReachMore(s, j, k - 1, capacity);
      ReachOneRecorded(s, k - 1, capacity);
      assert Broadcast(After(s, k, k - 1), After(s, k, k));
      ReachNext(After(s, k, k - 1), After(s, k, k), capacity);
    }
  }

  lemma ReachOneRecorded(s: Feed, k: nat, capacity: nat)
    requires Reachable(After(s, k, k), capacity)
    ensures Reachable(After(s, k + 1, k), capacity)
  {
    assert Heard(k + 1) == Heard(k) + [Entry(k, 0)];
    assert Record(After(s, k, k), After(s, k + 1, k));
    ReachNext(After(s, k, k), After(s, k + 1, k), capacity);
  }

  const SUBSCRIBED := Feed([], 0, Subscribed, 0, [], false, [], 0, 0, [], 0)

  lemma ReachSubscribed(capacity: nat)
    ensures Reachable(After(SUBSCRIBED, 0, 0), capacity)
  {
    var s := SUBSCRIBED.(phase := Connecting);
    assert Heard(0) == [];
    assert Behaviour([s], capacity) && [s][|[s]| - 1] == s;
    assert Subscribe(s, SUBSCRIBED);
    ReachNext(s, SUBSCRIBED, capacity);
  }

  /** Without entry `gap` on the page, but with an older and a newer one, there is a
      gap. */
  lemma GapShown(page: seq<Entry>, k: nat, a: nat, gap: nat, b: nat)
    requires a < gap < b < k
    requires Heard(k)[a] in page && Heard(k)[gap] !in page && Heard(k)[b] in page
    ensures !Unbroken(page, Heard(k))
  {
    forall lo: nat, hi: nat ensures !Covers(page, Heard(k), lo, hi) {
      if lo <= hi <= k && !(lo <= gap < hi) {
        NotInSlice(k, lo, hi, if lo > gap then a else b);
      }
    }
  }

  lemma NotInSlice(k: nat, lo: nat, hi: nat, i: nat)
    requires lo <= hi <= k && i < k && !(lo <= i < hi)
    ensures Heard(k)[i] !in Heard(k)[lo..hi]
  {
    assert forall j :: 0 <= j < hi - lo ==> Heard(k)[lo..hi][j] == Heard(k)[lo + j];
  }

  /** A small log keeps all but the first two of `capacity + 2` entries; the client
      is shown those, then the first one. */
  function SmallLogEnd(capacity: nat): Feed {
    var k := capacity + 2;
    Feed(Heard(k), k - 1, Serving, 1, [], true, Reversed(Kept(Heard(k), capacity)) + [Entry(0, 0)], 0, k, [0], 1)
  }

  lemma ReachSmallLogEnd(capacity: nat)
    requires 1 <= capacity < BROADCAST_CAPACITY
    ensures Reachable(SmallLogEnd(capacity), capacity)
  {
    var k := capacity + 2;
    var first, kept := Entry(0, 0), Kept(Heard(k), capacity);
    var s0 := After(SUBSCRIBED, k, k - 1);
    var s1 := s0.(phase := Serving, at := k, socket := [Backlog(kept)]);
    var s2 := s1.(next := 1, live := [0], socket := [Backlog(kept), Live(first)]);
    var s3 := s2.(socket := [Live(first)], gotBacklog := true, shown := Reversed(kept));
    ReachSubscribed(capacity);
    ReachMore(SUBSCRIBED, 0, k - 1, capacity);
    ReachOneRecorded(SUBSCRIBED, k - 1, capacity);
    ReachBacklogRead(s0, capacity);
    ReachForwarded(s1, capacity, s2.socket, [0]);
    ReachBacklogShown(s2, capacity, kept, [Live(first)]);
    ReachLiveShown(s3, capacity, first, Reversed(kept) + [first]);
  }

  lemma GapReached(capacity: nat)
    requires 1 <= capacity < BROADCAST_CAPACITY
    ensures !NeverGaps(capacity)
  {
    var end := SmallLogEnd(capacity);
    ReachSmallLogEnd(capacity);
    SmallLogPage(capacity, end.shown);
    OnlyFirst(end);
    GapIsGap(end, capacity);
  }

  lemma OnlyFirst(s: Feed)
    requires s.from == 0 && s.next == 1 && s.live == [0]
    ensures NoSkip(s)
  {
  }

  lemma GapIsGap(s: Feed, capacity: nat)
    requires Reachable(s, capacity) && s.gotBacklog && NoSkip(s) && !Unbroken(s.shown, s.recorded)
    ensures !NeverGaps(capacity)
  {
    var run: seq<Feed> :| Behaviour(run, capacity) && run[|run| - 1] == s;
    var n := |run| - 1;
    assert run[n].gotBacklog && NoSkip(run[n]) && !Unbroken(run[n].shown, run[n].recorded);
  }

  lemma SmallLogPage(capacity: nat, page: seq<Entry>)
    requires capacity >= 1 && page == Reversed(Kept(Heard(capacity + 2), capacity)) + [Entry(0, 0)]
    ensures !Unbroken(page, Heard(capacity + 2))
  {
    var k := capacity + 2;
    assert forall i :: 0 <= i < capacity ==> page[i] == Heard(k)[i + 2];
    assert page[capacity] == Heard(k)[0] && page[capacity - 1] == Heard(k)[k - 1];
    GapShown(page, k, 0, 1, k - 1);
  }

  lemma ReachFirstShown(s5: Feed, capacity: nat)
    requires s5 == Feed([Entry(0, 0)], 1, Serving, 1, [], true, [Entry(0, 0)], 0, 0, [0], 1)
    ensures Reachable(s5, capacity)
  {
    var e0 := Entry(0, 0);
    var s1 := SUBSCRIBED.(phase := Serving, socket := [Backlog([])]);
    var s2 := s1.(socket := [], gotBacklog := true);
    var s3 := After(s2, 1, 1);
    var s4 := s3.(next := 1, live := [0], socket := [Live(e0)]);
    ReachSubscribed(capacity);
    assert After(SUBSCRIBED, 0, 0) == SUBSCRIBED && Kept([], capacity) == [];
    ReachBacklogRead(SUBSCRIBED, capacity);
    ReachBacklogShown(s1, capacity, [], []);
    assert Reversed<Entry>([]) == [] && After(s2, 0, 0) == s2;
    ReachMore(s2, 0, 1, capacity);
    ReachForwarded(s3, capacity, [Live(e0)], [0]);
    ReachLiveShown(s4, capacity, e0, [e0]);
    assert Heard(1) == [e0];
  }

  /** However large the log, a receiver that falls behind can leave a gap: one live
      entry is shown, the next is skipped, the one after it shown. */
  lemma LagCanGap(capacity: nat)
    ensures exists s :: Reachable(s, capacity) && s.gotBacklog && !Unbroken(s.shown, s.recorded)
  {
    var e0, e2, k := Entry(0, 0), Entry(2, 0), BROADCAST_CAPACITY + 2;
    var s5 := Feed([e0], 1, Serving, 1, [], true, [e0], 0, 0, [0], 1);
    var s6 := After(s5, k, k);
    var s7 := s6.(next := 2);
    var s8 := s7.(next := 3, live := [0, 2], socket := [Live(e2)]);
    var s9 := s8.(socket := [], shown := [e0, e2], delivered := 2);
    ReachFirstShown(s5, capacity);
    assert After(s5, 1, 1) == s5;
    ReachMore(s5, 1, k, capacity);
    assert Lag(s6, s7);
    ReachNext(s6, s7, capacity);
    ReachForwarded(s7, capacity, [Live(e2)], [0, 2]);
    ReachLiveShown(s8, capacity, e2, [e0, e2]);
    assert s9.shown[0] == Heard(k)[0] && s9.shown[1] == Heard(k)[2];
    GapShown(s9.shown, k, 0, 1, 2);
  }

  /** What the client's capped buffer holds is the newest part of what it was
      shown: the backlog set first, then every live entry pushed in front. */
  lemma BufferHoldsNewestShown(backlog: seq<Entry>, live: seq<Entry>)
    ensures PushedAll(Truncated(backlog), live) == Truncated(Reversed(Reversed(backlog) + live))
  {
    PushedAllIs(Truncated(backlog), live);
    assert Reversed(Reversed(backlog) + live) == Reversed(live) + backlog;
  }
}
