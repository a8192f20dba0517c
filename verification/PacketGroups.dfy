/**
 Grouping repeated receptions of one transmission: the one-pass loop with its
 map of open groups, against the plain definition "same key, and no gap of more
 than 90 seconds between consecutive receptions in between".
 */
module PacketGroups {
  import opened Sequences
  import opened Wrappers

  const GROUP_WINDOW_SECS := 90

  /** A packet log entry; `kind` is the payload type when the header was decoded. */
  datatype Packet = Packet(id: int, at: int, kind: Option<string>, payload: string)

  function GroupKey(p: Packet): Option<string> {
    if p.kind.None? then None else Some(p.kind.value + ":" + p.payload)
  }

  // ----- the plain definition

  predicate HasKey(xs: seq<Packet>, i: nat, key: string)
    requires i < |xs|
  {
    GroupKey(xs[i]) == Some(key)
  }

  /** Two receptions of one message: the headers of both were decoded, with the same
      payload type, and the payloads are the same. */
  predicate SameMessage(p: Packet, q: Packet) {
    p.kind.Some? && q.kind.Some? && p.kind.value == q.kind.value && p.payload == q.payload
  }

  /** `a` and `b` are receptions of the message of `j`, and nothing between them is. */
  ghost predicate Consecutive(xs: seq<Packet>, a: nat, b: nat, j: nat)
    requires a < b < |xs| && j < |xs|
  {
    && SameMessage(xs[a], xs[j]) && SameMessage(xs[b], xs[j])
    && forall m :: a < m < b ==> !SameMessage(xs[m], xs[j])
  }

  /** `i` and `j` are receptions of one transmission: the same message, and every
      consecutive pair of its receptions from `i` to `j` is at most 90 seconds apart. */
  ghost predicate SameTransmission(xs: seq<Packet>, i: nat, j: nat)
    requires i < j < |xs|
  {
    && SameMessage(xs[i], xs[j])
    && forall a, b :: i <= a < b <= j && Consecutive(xs, a, b, j) ==> xs[b].at - xs[a].at <= 90
  }

  /** Payload type names hold no colon, as the program's never do. */
  ghost predicate PlainKinds(xs: seq<Packet>) {
    forall p :: p in xs && p.kind.Some? ==> ':' !in p.kind.value
  }

  // ----- groups by their oldest member

  /** The last index before `n` with `key`, or -1. */
  function Prev(xs: seq<Packet>, n: nat, key: string): (p: int)
    requires n <= |xs|
    ensures -1 <= p < n
    ensures p >= 0 ==> HasKey(xs, p, key)
    ensures forall m :: p < m < n ==> !HasKey(xs, m, key)
  {
    if n == 0 then -1 else if HasKey(xs, n - 1, key) then n - 1 else Prev(xs, n - 1, key)
  }

  /** The oldest entry of the group entry `i` belongs to. */
  function Leader(xs: seq<Packet>, i: nat): (l: nat)
    requires i < |xs|
    ensures l <= i
    ensures GroupKey(xs[l]) == GroupKey(xs[i])
    decreases i
  {
    match GroupKey(xs[i])
    case None => i
    case Some(key) =>
      var p := Prev(xs, i, key);
      if p >= 0 && xs[i].at - xs[p].at <= GROUP_WINDOW_SECS then Leader(xs, p) else i
  }

  /** The oldest entries of all groups among the first `n`, in order. */
  function Leaders(xs: seq<Packet>, n: nat): (ls: seq<nat>)
    requires n <= |xs|
    ensures forall r :: 0 <= r < |ls| ==> ls[r] < n
  {
    if n == 0 then [] else Leaders(xs, n - 1) + if Leader(xs, n - 1) == n - 1 then [n - 1] else []
  }

  lemma {:induction false} LeadersAscend(xs: seq<Packet>, n: nat)
    requires n <= |xs|
    ensures forall r :: 0 <= r < |Leaders(xs, n)| ==> Leader(xs, Leaders(xs, n)[r]) == Leaders(xs, n)[r]
    ensures forall r, s :: 0 <= r < s < |Leaders(xs, n)| ==> Leaders(xs, n)[r] < Leaders(xs, n)[s]
  {
    if n > 0 {
      LeadersAscend(xs, n - 1);
    }
  }

  lemma {:induction false} LeaderListed(xs: seq<Packet>, n: nat, l: nat)
    requires l < n <= |xs| && Leader(xs, l) == l
    ensures l in Leaders(xs, n)
  {
    if l < n - 1 {
      LeaderListed(xs, n - 1, l);
    }
  }

  /** The group led by `l` among the first `n` entries, as indices, newest first. */
  function MemberIndices(xs: seq<Packet>, n: nat, l: nat): (ix: seq<nat>)
    requires n <= |xs|
    ensures forall k :: 0 <= k < |ix| ==> ix[k] < n
  {
    if n == 0 then []
    else if Leader(xs, n - 1) == l then [n - 1] + MemberIndices(xs, n - 1, l)
    else MemberIndices(xs, n - 1, l)
  }

  /** The members are exactly the entries with that leader, newest first. */
  lemma {:induction false} MembersExact(xs: seq<Packet>, n: nat, l: nat, i: nat)
    requires i < n <= |xs|
    ensures i in MemberIndices(xs, n, l) <==> Leader(xs, i) == l
  {
    var rest := MemberIndices(xs, n - 1, l);
    if i < n - 1 {
      MembersExact(xs, n - 1, l, i);
    } else {
      assert i !in rest;
    }
  }

  lemma {:induction false} MembersDescend(xs: seq<Packet>, n: nat, l: nat)
    requires n <= |xs|
    ensures forall j, k :: 0 <= j < k < |MemberIndices(xs, n, l)| ==>
              MemberIndices(xs, n, l)[j] > MemberIndices(xs, n, l)[k]
  {
    if n > 0 {
      MembersDescend(xs, n - 1, l);
    }
  }

  function Members(xs: seq<Packet>, n: nat, l: nat): seq<Packet>
    requires n <= |xs|
  {
    var ix := MemberIndices(xs, n, l);
    seq(|ix|, k requires 0 <= k < |ix| => xs[ix[k]])
  }

  /** All groups of the first `n` entries, in order of their oldest member. */
  function GroupsOf(xs: seq<Packet>, n: nat): (gs: seq<seq<Packet>>)
    requires n <= |xs|
    ensures |gs| == |Leaders(xs, n)|
    ensures forall r {:trigger gs[r]} :: 0 <= r < |gs| ==> gs[r] == Members(xs, n, Leaders(xs, n)[r])
  {
    var ls := Leaders(xs, n);
    seq(|ls|, r requires 0 <= r < |ls| => Members(xs, n, ls[r]))
  }

  /** What the packet page shows: the groups, newest first by their oldest member. */
  function Grouped(packets: seq<Packet>): seq<seq<Packet>> {
    var xs := Reversed(packets);
    Reversed(GroupsOf(xs, |xs|))
  }

  // ----- the loop

  datatype OpenGroup = OpenGroup(index: nat, lastAt: int)

  /** `open` remembers, for every key seen, the group and time of its last entry. */
  ghost predicate OpenMatches(xs: seq<Packet>, n: nat, open: map<string, OpenGroup>)
    requires n <= |xs|
  {
    forall key :: KeyTracked(xs, n, open, key)
  }

  ghost predicate KeyTracked(xs: seq<Packet>, n: nat, open: map<string, OpenGroup>, key: string)
    requires n <= |xs|
  {
    if key in open then OpenFor(xs, n, key, open[key]) else Prev(xs, n, key) < 0
  }

  ghost predicate OpenFor(xs: seq<Packet>, n: nat, key: string, g: OpenGroup)
    requires n <= |xs|
  {
    var p, ls := Prev(xs, n, key), Leaders(xs, n);
    p >= 0 && g.lastAt == xs[p].at && g.index < |ls| && ls[g.index] == Leader(xs, p)
  }

  lemma MembersStep(xs: seq<Packet>, n: nat, l: nat)
    requires n < |xs|
    ensures Members(xs, n + 1, l) == if Leader(xs, n) == l then [xs[n]] + Members(xs, n, l) else Members(xs, n, l)
  {
  }

  lemma NoMembersYet(xs: seq<Packet>, n: nat)
    requires n < |xs|
    ensures Members(xs, n, n) == []
  {
    if MemberIndices(xs, n, n) != [] {
      MembersExact(xs, n, n, MemberIndices(xs, n, n)[0]);
      assert false;
    }
  }

  lemma StepJoins(xs: seq<Packet>, n: nat, r: nat)
    requires n < |xs| && r < |Leaders(xs, n)| && Leaders(xs, n)[r] == Leader(xs, n)
    ensures Leaders(xs, n + 1) == Leaders(xs, n)
    ensures GroupsOf(xs, n + 1) == GroupsOf(xs, n)[r := [xs[n]] + GroupsOf(xs, n)[r]]
  {
    var ls := Leaders(xs, n);
    LeadersAscend(xs, n);
    assert ls[r] < n;
    forall s | 0 <= s < |ls|
      ensures Members(xs, n + 1, ls[s]) == if s == r then [xs[n]] + Members(xs, n, ls[s]) else Members(xs, n, ls[s])
    {
      MembersStep(xs, n, ls[s]);
    }
  }

  lemma StepOpens(xs: seq<Packet>, n: nat)
    requires n < |xs| && Leader(xs, n) == n
    ensures Leaders(xs, n + 1) == Leaders(xs, n) + [n]
    ensures GroupsOf(xs, n + 1) == GroupsOf(xs, n) + [[xs[n]]]
  {
    var ls := Leaders(xs, n);
    forall s | 0 <= s < |ls| ensures Members(xs, n + 1, ls[s]) == Members(xs, n, ls[s]) {
      MembersStep(xs, n, ls[s]);
      assert ls[s] < n;
    }
    MembersStep(xs, n, n);
    NoMembersYet(xs, n);
    var gs, gs' := GroupsOf(xs, n), GroupsOf(xs, n + 1);
    assert Leaders(xs, n + 1)[|ls|] == n && gs'[|ls|] == Members(xs, n + 1, n) == [xs[n]];
    forall s | 0 <= s < |ls| ensures gs'[s] == gs[s] {
      assert Leaders(xs, n + 1)[s] == ls[s];
    }
  }

  lemma OpenStep(xs: seq<Packet>, n: nat, open: map<string, OpenGroup>, key: string, g: OpenGroup)
    requires n < |xs| && OpenMatches(xs, n, open) && Leaders(xs, n) <= Leaders(xs, n + 1)
    requires HasKey(xs, n, key) && OpenFor(xs, n + 1, key, g)
    ensures OpenMatches(xs, n + 1, open[key := g])
  {
    var n', open' := n + 1, open[key := g];
    forall k ensures KeyTracked(xs, n', open', k) {
      if k != key {
        assert KeyTracked(xs, n, open, k) && Prev(xs, n + 1, k) == Prev(xs, n, k);
      }
    }
  }

  /** The loop's first branch: the entry joins the group its key has open. */
  lemma EntryJoins(xs: seq<Packet>, n: nat, open: map<string, OpenGroup>, key: string)
    requires n < |xs| && OpenMatches(xs, n, open) && HasKey(xs, n, key)
    requires key in open && xs[n].at - open[key].lastAt <= GROUP_WINDOW_SECS
    ensures var g := open[key];
            && g.index < |GroupsOf(xs, n)|
            && GroupsOf(xs, n + 1) == GroupsOf(xs, n)[g.index := [xs[n]] + GroupsOf(xs, n)[g.index]]
            && OpenMatches(xs, n + 1, open[key := OpenGroup(g.index, xs[n].at)])
  {
    var g := open[key];
    assert KeyTracked(xs, n, open, key);
    assert Leader(xs, n) == Leader(xs, Prev(xs, n, key));
    StepJoins(xs, n, g.index);
    OpenStep(xs, n, open, key, OpenGroup(g.index, xs[n].at));
  }

  /** The loop's second branch: the entry opens a group of its own. */
  lemma EntryOpens(xs: seq<Packet>, n: nat, open: map<string, OpenGroup>)
    requires n < |xs| && OpenMatches(xs, n, open)
    requires var key := GroupKey(xs[n]);
             key.Some? && key.value in open ==> xs[n].at - open[key.value].lastAt > GROUP_WINDOW_SECS
    ensures GroupsOf(xs, n + 1) == GroupsOf(xs, n) + [[xs[n]]]
    ensures match GroupKey(xs[n])
            case None => OpenMatches(xs, n + 1, open)
            case Some(key) => OpenMatches(xs, n + 1, open[key := OpenGroup(|GroupsOf(xs, n)|, xs[n].at)])
  {
    match GroupKey(xs[n])
    case None =>
      StepOpens(xs, n);
      var n' := n + 1;
      forall k ensures KeyTracked(xs, n', open, k) {
        assert KeyTracked(xs, n, open, k);
      }
    case Some(key) =>
      assert HasKey(xs, n, key);
      assert KeyTracked(xs, n, open, key);
      StepOpens(xs, n);
      OpenStep(xs, n, open, key, OpenGroup(|GroupsOf(xs, n)|, xs[n].at));
  }

  method GroupPackets(packets: seq<Packet>) returns (groups: seq<seq<Packet>>)
    ensures groups == Grouped(packets)
  {
    ghost var xs := Reversed(packets);
    groups := [];
    var open: map<string, OpenGroup> := map[];
    for i := 0 to |packets|
      invariant groups == GroupsOf(xs, i)
      invariant OpenMatches(xs, i, open)
    {
      var entry := packets[|packets| - 1 - i];
      assert entry == xs[i];
      var key := GroupKey(entry);
      if key.Some? && key.value in open && entry.at - open[key.value].lastAt <= GROUP_WINDOW_SECS {
        EntryJoins(xs, i, open, key.value);
        var index := open[key.value].index;
        groups := groups[index := [entry] + groups[index]];
        open := open[key.value := OpenGroup(index, entry.at)];
      } else {
        EntryOpens(xs, i, open);
        groups := groups + [[entry]];
        if key.Some? {
          open := open[key.value := OpenGroup(|groups| - 1, entry.at)];
        }
      }
    }
    groups := Reversed(groups);
  }

  // ----- what the groups are

  lemma {:induction false} LeaderIsLeader(xs: seq<Packet>, i: nat)
    requires i < |xs|
    ensures Leader(xs, Leader(xs, i)) == Leader(xs, i)
    decreases i
  {
    match GroupKey(xs[i])
    case None =>
    case Some(key) =>
      var p := Prev(xs, i, key);
      if p >= 0 && xs[i].at - xs[p].at <= GROUP_WINDOW_SECS {
        LeaderIsLeader(xs, p);
      }
  }

  /** The key is there exactly when the header was decoded, and separates payload
      type and payload: packets whose type names hold no colon share a key exactly
      when they agree on both. */
  lemma GroupKeyIff(p: Packet, q: Packet)
    requires p.kind.Some? ==> ':' !in p.kind.value
    requires q.kind.Some? ==> ':' !in q.kind.value
    ensures GroupKey(p).Some? <==> p.kind.Some?
    ensures GroupKey(p).Some? && GroupKey(p) == GroupKey(q) <==> SameMessage(p, q)
  {
    if p.kind.Some? && q.kind.Some? && GroupKey(p) == GroupKey(q) {
      FirstColon(p.kind.value, p.payload, q.kind.value, q.payload);
      FirstColon(q.kind.value, q.payload, p.kind.value, p.payload);
    }
  }

  lemma FirstColon(a: string, x: string, b: string, y: string)
    requires ':' !in a && a + ":" + x == b + ":" + y
    ensures |a| <= |b|
    ensures |a| == |b| ==> a == b && x == y
  {
    var s := a + ":" + x;
    assert forall k :: 0 <= k < |a| ==> s[k] == a[k] && a[k] in a;
    assert s[|b|] == ':';
    assert s[..|a|] == a && s[..|b|] == b;
    assert s[|a| + 1..] == x && s[|b| + 1..] == y;
  }

  lemma KeyIsMessage(xs: seq<Packet>, j: nat, key: string, m: nat)
    requires PlainKinds(xs) && j < |xs| && m < |xs| && HasKey(xs, j, key)
    ensures HasKey(xs, m, key) <==> SameMessage(xs[m], xs[j])
  {
    GroupKeyIff(xs[m], xs[j]);
  }

  /** The entry before `j` of the same message, by its key. */
  lemma PrevIsMessage(xs: seq<Packet>, j: nat, key: string)
    requires PlainKinds(xs) && j < |xs| && HasKey(xs, j, key)
    ensures var p := Prev(xs, j, key);
            && (p >= 0 ==> Consecutive(xs, p, j, j))
            && forall m :: p < m < j ==> !SameMessage(xs[m], xs[j])
  {
    forall m | 0 <= m <= j ensures HasKey(xs, m, key) <==> SameMessage(xs[m], xs[j]) {
      KeyIsMessage(xs, j, key, m);
    }
  }

  lemma SameConsecutive(xs: seq<Packet>, a: nat, b: nat, j: nat, p: nat)
    requires a < b < |xs| && j < |xs| && p < |xs| && SameMessage(xs[p], xs[j])
    ensures Consecutive(xs, a, b, p) <==> Consecutive(xs, a, b, j)
  {
  }

  /** Two entries are in one group exactly when they are receptions of one
      transmission by the plain definition. */
  lemma {:induction false} SameGroupIff(xs: seq<Packet>, i: nat, j: nat)
    requires i < j < |xs| && PlainKinds(xs)
    ensures Leader(xs, i) == Leader(xs, j) <==> SameTransmission(xs, i, j)
    decreases j
  {
    GroupKeyIff(xs[i], xs[j]);
    GroupKeyIff(xs[j], xs[j]);
    if SameMessage(xs[i], xs[j]) {
      var key := GroupKey(xs[j]).value;
      var p := Prev(xs, j, key);
      PrevIsMessage(xs, j, key);
      assert p >= i;
      if p > i {
        SameGroupIff(xs, i, p);
        LastGap(xs, i, j, p);
      } else {
        OnlyGap(xs, i, j);
      }
      JoinsPrev(xs, i, j, p);
    } else {
      assert GroupKey(xs[Leader(xs, i)]) == GroupKey(xs[i]) && GroupKey(xs[Leader(xs, j)]) == GroupKey(xs[j]);
      if GroupKey(xs[j]).None? {
        HeaderlessAlone(xs, i, j);
      }
    }
  }

  /** An entry shares a group with an earlier one of its message exactly when the
      reception just before it does and is at most 90 seconds older. */
  lemma JoinsPrev(xs: seq<Packet>, i: nat, j: nat, p: nat)
    requires i <= p < j < |xs| && GroupKey(xs[j]).Some? && p == Prev(xs, j, GroupKey(xs[j]).value)
    ensures Leader(xs, i) == Leader(xs, j) <==> Leader(xs, i) == Leader(xs, p) && xs[j].at - xs[p].at <= 90
  {
  }

  lemma HeaderlessAlone(xs: seq<Packet>, i: nat, j: nat)
    requires i < j < |xs| && GroupKey(xs[j]).None?
    ensures Leader(xs, i) != Leader(xs, j)
  {
  }

  lemma OnlyGap(xs: seq<Packet>, i: nat, j: nat)
    requires i < j < |xs| && Consecutive(xs, i, j, j)
    ensures SameTransmission(xs, i, j) <==> xs[j].at - xs[i].at <= 90
  {
    forall a, b | i <= a < b <= j && Consecutive(xs, a, b, j) ensures a == i && b == j {
    }
  }

  lemma LastGap(xs: seq<Packet>, i: nat, j: nat, p: nat)
    requires i < p < j < |xs| && SameMessage(xs[i], xs[j]) && Consecutive(xs, p, j, j)
    ensures SameTransmission(xs, i, j) <==> SameTransmission(xs, i, p) && xs[j].at - xs[p].at <= 90
  {
    forall a, b | i <= a < b <= j ensures Consecutive(xs, a, b, p) <==> Consecutive(xs, a, b, j) {
      SameConsecutive(xs, a, b, j, p);
    }
    forall a, b | i <= a < b <= j && Consecutive(xs, a, b, j) ensures b <= p || (a == p && b == j) {
    }
  }

  /** Every entry is in the group its leader opened; that group's entries run
      newest first down to the leader; a headerless entry is alone. */
  lemma GroupShape(xs: seq<Packet>, i: nat)
    requires i < |xs|
    ensures Leader(xs, i) in Leaders(xs, |xs|)
    ensures var ix := MemberIndices(xs, |xs|, Leader(xs, i));
            i in ix && ix[|ix| - 1] == Leader(xs, i)
            && (xs[i].kind.None? ==> ix == [i])
  {
    var l := Leader(xs, i);
    var ix := MemberIndices(xs, |xs|, l);
    LeaderIsLeader(xs, i);
    LeaderListed(xs, |xs|, l);
    MembersExact(xs, |xs|, l, i);
    MembersExact(xs, |xs|, l, l);
    MembersDescend(xs, |xs|, l);
    MembersExact(xs, |xs|, l, ix[|ix| - 1]);
    if GroupKey(xs[i]).None? {
      MembersExact(xs, |xs|, l, ix[0]);
      assert GroupKey(xs[ix[0]]).None? && ix[0] == i;
    }
  }

  /** The oldest entry of the group shown at place `r`. */
  function OldestAt(packets: seq<Packet>, r: nat): (i: nat)
    requires r < |Grouped(packets)|
    ensures i < |packets| && Leader(Reversed(packets), i) == i
  {
    var xs := Reversed(packets);
    LeadersAscend(xs, |xs|);
    var ls := Leaders(xs, |xs|);
    ls[|ls| - 1 - r]
  }

  /** Each group on the page is the group of its oldest entry. */
  lemma PageGroup(packets: seq<Packet>, r: nat)
    requires r < |Grouped(packets)|
    ensures var xs, l := Reversed(packets), OldestAt(packets, r);
            var g, ix := Grouped(packets)[r], MemberIndices(xs, |xs|, l);
            && Leader(xs, l) == l && g == Members(xs, |xs|, l)
            && |g| == |ix| && forall k :: 0 <= k < |g| ==> g[k] == xs[ix[k]]
  {
  }

  /** The last entry before `n` of the group led by `l`. */
  function LastLed(xs: seq<Packet>, n: nat, l: nat): (k: nat)
    requires l < n <= |xs| && Leader(xs, l) == l
    ensures l <= k < n && Leader(xs, k) == l
    ensures forall m :: k < m < n ==> Leader(xs, m) != l
  {
    if Leader(xs, n - 1) == l then n - 1 else LastLed(xs, n - 1, l)
  }

  lemma {:induction false} NewestFirstMember(xs: seq<Packet>, n: nat, l: nat)
    requires l < n <= |xs| && Leader(xs, l) == l
    ensures var ix := MemberIndices(xs, n, l); |ix| > 0 && ix[0] == LastLed(xs, n, l)
  {
    if Leader(xs, n - 1) != l {
      NewestFirstMember(xs, n - 1, l);
    }
  }

  /** The newest entry of the group shown at place `r`. */
  function NewestAt(packets: seq<Packet>, r: nat): (i: nat)
    requires r < |Grouped(packets)|
    ensures i < |packets|
  {
    LastLed(Reversed(packets), |packets|, OldestAt(packets, r))
  }

  lemma GroupEnds(xs: seq<Packet>, l: nat)
    requires l < |xs| && Leader(xs, l) == l
    ensures var g := Members(xs, |xs|, l);
            |g| > 0 && g[0] == xs[LastLed(xs, |xs|, l)] && g[|g| - 1] == xs[l]
  {
    GroupShape(xs, l);
    NewestFirstMember(xs, |xs|, l);
  }

  /** No group on the page is empty; each begins with its newest entry and ends with
      its oldest. */
  lemma PageGroupEnds(packets: seq<Packet>, r: nat)
    requires r < |Grouped(packets)|
    ensures var g, xs := Grouped(packets)[r], Reversed(packets);
            |g| > 0 && g[0] == xs[NewestAt(packets, r)] && g[|g| - 1] == xs[OldestAt(packets, r)]
  {
    PageGroup(packets, r);
    GroupEnds(Reversed(packets), OldestAt(packets, r));
  }

  /** The page lists the groups newest first by their oldest entry. */
  lemma PageOrder(packets: seq<Packet>, r: nat, s: nat)
    requires r < s < |Grouped(packets)|
    ensures OldestAt(packets, r) > OldestAt(packets, s)
  {
    LeadersAscend(Reversed(packets), |packets|);
  }

  function Flat(gs: seq<seq<Packet>>): seq<Packet> {
    if gs == [] then [] else Flat(gs[..|gs| - 1]) + gs[|gs| - 1]
  }

  lemma {:induction false} FlatJoin(gs: seq<seq<Packet>>, r: nat, e: Packet)
    requires r < |gs|
    ensures multiset(Flat(gs[r := [e] + gs[r]])) == multiset(Flat(gs)) + multiset{e}
  {
    var n := |gs| - 1;
    var gs' := gs[r := [e] + gs[r]];
    if r == n {
      assert gs'[..n] == gs[..n];
    } else {
      assert gs'[..n] == gs[..n][r := [e] + gs[..n][r]];
      FlatJoin(gs[..n], r, e);
    }
  }

  lemma StepKeepsAll(xs: seq<Packet>, n: nat)
    requires n < |xs|
    ensures multiset(Flat(GroupsOf(xs, n + 1))) == multiset(Flat(GroupsOf(xs, n))) + multiset{xs[n]}
  {
    var gs := GroupsOf(xs, n);
    if Leader(xs, n) == n {
      StepOpens(xs, n);
      assert (gs + [[xs[n]]])[..|gs|] == gs;
    } else {
      LeaderIsLeader(xs, n);
      LeaderListed(xs, n, Leader(xs, n));
      var r :| 0 <= r < |gs| && Leaders(xs, n)[r] == Leader(xs, n);
      StepJoins(xs, n, r);
      FlatJoin(gs, r, xs[n]);
    }
  }

  /** The groups of the first `n` entries hold exactly those entries. */
  ghost predicate KeepsAll(xs: seq<Packet>, n: nat)
    requires n <= |xs|
  {
    multiset(Flat(GroupsOf(xs, n))) == multiset(xs[..n])
  }

  lemma KeepsOneMore(xs: seq<Packet>, n: nat)
    requires n < |xs| && KeepsAll(xs, n)
    ensures KeepsAll(xs, n + 1)
  {
    StepKeepsAll(xs, n);
    OneMoreEntry(xs, n);
  }

  lemma OneMoreEntry(xs: seq<Packet>, n: nat)
    requires n < |xs|
    ensures multiset(xs[..n + 1]) == multiset(xs[..n]) + multiset{xs[n]}
  {
    assert xs[..n + 1] == xs[..n] + [xs[n]];
  }

  lemma GroupsKeepAll(xs: seq<Packet>)
    ensures KeepsAll(xs, |xs|)
  {
    assert GroupsOf(xs, 0) == [];
    for n := 0 to |xs|
      invariant KeepsAll(xs, n)
    {
      KeepsOneMore(xs, n);
    }
  }

  lemma FlatSnoc(gs: seq<seq<Packet>>, g: seq<Packet>)
    ensures multiset(Flat(gs + [g])) == multiset(Flat(gs)) + multiset(g)
  {
  }

  lemma {:induction false} FlatAppend(gs: seq<seq<Packet>>, hs: seq<seq<Packet>>)
    ensures multiset(Flat(gs + hs)) == multiset(Flat(gs)) + multiset(Flat(hs))
  {
    if hs == [] {
      assert gs + hs == gs;
    } else {
      var all, before, last := gs + hs, hs[..|hs| - 1], hs[|hs| - 1];
      FlatAppend(gs, before);
      assert all == gs + before + [last];
      FlatSnoc(gs + before, last);
    }
  }

  lemma {:induction false} FlatReversed(gs: seq<seq<Packet>>)
    ensures multiset(Flat(Reversed(gs))) == multiset(Flat(gs))
  {
    if gs != [] {
      var n := |gs| - 1;
      assert Reversed(gs) == [gs[n]] + Reversed(gs[..n]);
      FlatReversed(gs[..n]);
      FlatAppend([gs[n]], Reversed(gs[..n]));
      assert Flat([gs[n]]) == Flat([]) + gs[n];
    }
  }

  lemma {:induction false} ReversedMultiset(s: seq<Packet>)
    ensures multiset(Reversed(s)) == multiset(s)
  {
    if s != [] {
      var n := |s| - 1;
      assert Reversed(s) == [s[n]] + Reversed(s[..n]);
      ReversedMultiset(s[..n]);
      assert s == s[..n] + [s[n]];
    }
  }

  /** Grouping neither loses nor repeats an entry. */
  lemma GroupingIsPartition(packets: seq<Packet>)
    ensures multiset(Flat(Grouped(packets))) == multiset(packets)
  {
    var xs := Reversed(packets);
    FlatReversed(GroupsOf(xs, |xs|));
    GroupsKeepAll(xs);
    assert xs[..|xs|] == xs;
    ReversedMultiset(packets);
  }

  /** The order the documentation promises: newest first by most recent entry. */
  ghost predicate ByMostRecent(packets: seq<Packet>) {
    forall r, s :: 0 <= r < s < |Grouped(packets)| ==> NewestAt(packets, r) > NewestAt(packets, s)
  }

  /** The group led by `j` begins after the one led by `i`, and has no entry from
      `k` on, where that group has one: it lies wholly between two of its entries. */
  ghost predicate Encloses(xs: seq<Packet>, i: nat, j: nat, k: nat)
    requires i < j < k < |xs|
  {
    && Leader(xs, i) == i && Leader(xs, j) == j && Leader(xs, k) == i
    && forall m :: k <= m < |xs| ==> Leader(xs, m) != j
  }

  lemma OldestListed(packets: seq<Packet>, l: nat) returns (r: nat)
    requires l < |packets| && Leader(Reversed(packets), l) == l
    ensures r < |Grouped(packets)| && OldestAt(packets, r) == l
  {
    var xs := Reversed(packets);
    var ls := Leaders(xs, |xs|);
    LeaderListed(xs, |xs|, l);
    var q :| 0 <= q < |ls| && ls[q] == l;
    r := |ls| - 1 - q;
  }

  /** The page is in the documented order exactly when no group lies wholly between
      two receptions of another. */
  lemma ByMostRecentIff(packets: seq<Packet>)
    ensures ByMostRecent(packets)
        <==> !exists i, j, k :: 0 <= i < j < k < |packets| && Encloses(Reversed(packets), i, j, k)
  {
    var xs := Reversed(packets);
    forall i, j, k | 0 <= i < j < k < |packets| && Encloses(xs, i, j, k) ensures !ByMostRecent(packets) {
      var r := OldestListed(packets, j);
      var s := OldestListed(packets, i);
      if s <= r {
        OrderedPlaces(packets, s, r);
      }
      assert NewestAt(packets, r) < k <= NewestAt(packets, s);
    }
    forall r, s | 0 <= r < s < |Grouped(packets)| && NewestAt(packets, r) <= NewestAt(packets, s)
      ensures exists i, j, k :: 0 <= i < j < k < |packets| && Encloses(xs, i, j, k)
    {
      PageOrder(packets, r, s);
      assert Encloses(xs, OldestAt(packets, s), OldestAt(packets, r), NewestAt(packets, s));
    }
  }

  lemma OrderedPlaces(packets: seq<Packet>, r: nat, s: nat)
    requires r <= s < |Grouped(packets)|
    ensures OldestAt(packets, r) >= OldestAt(packets, s)
  {
    if r < s {
      PageOrder(packets, r, s);
    }
  }

  /** The page is not ordered by each group's most recent entry: a group that
      started earlier stays below one heard only once in between. */
  lemma NotByMostRecent(first: Packet, between: Packet, again: Packet)
    requires first.kind == Some("Advert") && again.kind == first.kind && again.payload == first.payload
    requires between.kind == Some("Ack")
    requires first.at <= between.at <= again.at <= first.at + 90
    ensures Grouped([again, between, first]) == [[between], [again, first]]
  {
    var xs := Reversed([again, between, first]);
    assert xs == [first, between, again];
    GroupKeyIff(first, between);
    var key, ack := GroupKey(first).value, GroupKey(between).value;
    assert HasKey(xs, 0, key) && !HasKey(xs, 1, key) && HasKey(xs, 2, key);
    assert Prev(xs, 2, key) == 0;
    assert HasKey(xs, 1, ack) && !HasKey(xs, 0, ack) && Prev(xs, 1, ack) == -1;
    assert Leader(xs, 0) == 0 && Leader(xs, 1) == 1 && Leader(xs, 2) == 0;
    ThreeGroups(xs);
  }

  lemma ThreeGroups(xs: seq<Packet>)
    requires |xs| == 3 && Leader(xs, 0) == 0 && Leader(xs, 1) == 1 && Leader(xs, 2) == 0
    ensures GroupsOf(xs, 3) == [[xs[2], xs[0]], [xs[1]]]
  {
    assert GroupsOf(xs, 0) == [];
    StepOpens(xs, 0);
    StepOpens(xs, 1);
    assert GroupsOf(xs, 2) == [[xs[0]], [xs[1]]];
    assert Leaders(xs, 0) == [] && Leaders(xs, 2) == [0, 1];
    StepJoins(xs, 2, 0);
    assert [xs[2]] + [xs[0]] == [xs[2], xs[0]];
    assert GroupsOf(xs, 3) == [[xs[2]] + [xs[0]], [xs[1]]];
  }
}
