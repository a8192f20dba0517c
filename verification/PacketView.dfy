/**
 The TUI's packet buffer: capped, newest first, with a frozen copy while scroll
 lock is on and a count of what arrived since.
 */
module PacketView {
  import opened Sequences
  import opened Wrappers

  /** A packet log entry: the daemon's id and everything else. */
  datatype Entry = Entry(id: int, data: int)

  const MAX_PACKETS := 2000

  function Min(a: nat, b: nat): nat {
    if a < b then a else b
  }

  function Truncated(ps: seq<Entry>): seq<Entry> {
    ps[..Min(|ps|, MAX_PACKETS)]
  }

  /** The buffer after one push, and after a run of pushes (oldest first). */
  function Pushed(ps: seq<Entry>, e: Entry): seq<Entry> {
    Truncated([e] + ps)
  }

  function PushedAll(ps: seq<Entry>, es: seq<Entry>): seq<Entry> {
    if es == [] then ps else Pushed(PushedAll(ps, es[..|es| - 1]), es[|es| - 1])
  }

  /** How many entries lead `ps` with an id above `id`. */
  function CountNewer(ps: seq<Entry>, id: int): nat {
    if ps == [] || ps[0].id <= id then 0 else 1 + CountNewer(ps[1..], id)
  }

  function SinceLock(ps: seq<Entry>, locked: Option<seq<Entry>>): nat {
    match locked
    case None => 0
    case Some(frozen) => if frozen == [] then |ps| else CountNewer(ps, frozen[0].id)
  }

  class App {
    var packets: seq<Entry>
    var lockedView: Option<seq<Entry>>

    predicate Valid()
      reads this
    {
      |packets| <= MAX_PACKETS
    }

    constructor ()
      ensures Valid() && packets == [] && lockedView == None
    {
      packets, lockedView := [], None;
    }

    method SetPacketLog(backlog: seq<Entry>)
      modifies this`packets
      ensures Valid() && packets == if |backlog| <= 2000 then backlog else backlog[..2000]
    {
      packets := backlog;
      packets := packets[..Min(|packets|, MAX_PACKETS)];
    }

    method PushPacket(e: Entry)
      modifies this`packets
      ensures Valid() && packets == Pushed(old(packets), e)
      ensures packets == if |old(packets)| < 2000 then [e] + old(packets) else ([e] + old(packets))[..2000]
    {
      packets := [e] + packets;
      packets := packets[..Min(|packets|, MAX_PACKETS)];
    }

    method ToggleScrollLock()
      modifies this`lockedView
      ensures lockedView == if old(lockedView).Some? then None else Some(packets)
    {
      if lockedView.Some? {
        lockedView := None;
      } else {
        lockedView := Some(packets);
      }
    }

    method NewPacketsSinceLock() returns (count: nat)
      ensures count == SinceLock(packets, lockedView)
      ensures lockedView.None? ==> count == 0
      ensures lockedView == Some([]) ==> count == |packets|
    {
      if lockedView.None? {
        return 0;
      }
      var frozen := lockedView.value;
      if frozen == [] {
        return |packets|;
      }
      count := 0;
      while count < |packets| && packets[count].id > frozen[0].id
        invariant count <= |packets|
        invariant count + CountNewer(packets[count..], frozen[0].id) == CountNewer(packets, frozen[0].id)
      {
        assert packets[count..][1..] == packets[count + 1..];
        count := count + 1;
      }
    }

    /** Pushes arriving while the view is locked. */
    method PushWhileLocked(es: seq<Entry>) returns (count: nat)
      requires Valid() && lockedView == Some(packets)
      modifies this`packets
      ensures packets == PushedAll(old(packets), es) && lockedView == old(lockedView)
      ensures count == SinceLock(PushedAll(old(packets), es), Some(old(packets)))
    {
      for i := 0 to |es|
        invariant packets == PushedAll(old(packets), es[..i])
      {
        assert es[..i + 1][..i] == es[..i];
        PushPacket(es[i]);
      }
      assert es[..|es|] == es;
      count := NewPacketsSinceLock();
    }
  }

  lemma {:induction false} PushedAllIs(ps: seq<Entry>, es: seq<Entry>)
    requires |ps| <= MAX_PACKETS
    ensures PushedAll(ps, es) == Truncated(Reversed(es) + ps)
  {
    if es == [] {
      assert Reversed(es) + ps == ps;
    } else {
      var n := |es| - 1;
      PushedAllIs(ps, es[..n]);
      assert Reversed(es) + ps == [es[n]] + (Reversed(es[..n]) + ps);
    }
  }

  lemma {:induction false} CountNewerIs(ps: seq<Entry>, id: int, n: nat)
    requires n <= |ps|
    ensures CountNewer(ps, id) >= n <==> forall i :: 0 <= i < n ==> ps[i].id > id
  {
    if n > 0 {
      if ps[0].id > id {
        CountNewerIs(ps[1..], id, n - 1);
        if forall i :: 0 <= i < n - 1 ==> ps[1..][i].id > id {
          forall i | 0 <= i < n ensures ps[i].id > id {
            assert i > 0 ==> ps[1..][i - 1] == ps[i];
          }
        }
        assert forall i :: 0 <= i < n - 1 ==> ps[1..][i] == ps[i + 1];
      }
    }
  }

  lemma {:induction false} CountNewerStops(ps: seq<Entry>, id: int, n: nat)
    requires n < |ps| && ps[n].id <= id
    ensures CountNewer(ps, id) <= n
  {
    if n > 0 && ps[0].id > id {
      CountNewerStops(ps[1..], id, n - 1);
    }
  }

  lemma {:induction false} CountNewerBound(ps: seq<Entry>, id: int)
    ensures CountNewer(ps, id) <= |ps|
  {
    if ps != [] {
      CountNewerBound(ps[1..], id);
    }
  }

  /** The scroll-lock counter is the number of pushes since the lock, capped at
      the buffer size, exactly when every push still in the buffer has an id
      above the newest locked one. */
  lemma SinceLockCountsPushes(frozen: seq<Entry>, es: seq<Entry>)
    requires |frozen| <= MAX_PACKETS
    ensures SinceLock(PushedAll(frozen, es), Some(frozen)) == Min(|es|, MAX_PACKETS)
        <==> frozen == [] || forall i :: |es| - Min(|es|, MAX_PACKETS) <= i < |es| ==> es[i].id > frozen[0].id
  {
    var ps, n := PushedAll(frozen, es), Min(|es|, MAX_PACKETS);
    PushedAllIs(frozen, es);
    assert forall i :: 0 <= i < n ==> ps[i] == es[|es| - 1 - i];
    if frozen != [] {
      var id := frozen[0].id;
      CountNewerIs(ps, id, n);
      if n < |ps| {
        assert ps[n] == frozen[0];
        CountNewerStops(ps, id, n);
      }
      CountNewerBound(ps, id);
      if forall i :: 0 <= i < n ==> ps[i].id > id {
        forall i | |es| - n <= i < |es| ensures es[i].id > id {
          assert ps[|es| - 1 - i] == es[i];
        }
      }
    } else {
      assert |ps| == n;
    }
  }

  /** The case the daemon's increasing ids give: every push is counted. */
  lemma IncreasingIdsAreCounted(frozen: seq<Entry>, es: seq<Entry>)
    requires |frozen| <= MAX_PACKETS
    requires frozen != [] && es != [] ==> frozen[0].id < es[0].id
    requires forall i, j :: 0 <= i < j < |es| ==> es[i].id < es[j].id
    ensures SinceLock(PushedAll(frozen, es), Some(frozen)) == Min(|es|, MAX_PACKETS)
  {
    SinceLockCountsPushes(frozen, es);
  }
}
