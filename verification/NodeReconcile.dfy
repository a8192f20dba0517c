/**
 Keeping the node and the configuration in step: managed repeaters declared as
 contacts, everything else pruned, and the managed list edited by status changes.
 Any call to the node may fail.
 */
module NodeReconcile {
  import opened Wrappers

  datatype Status = Managed | Known | Supervised

  /** A configured repeater; `key` is its full public key or just a prefix. */
  datatype Repeater = Repeater(name: string, key: string, password: Option<string>, status: Status)

  /** The node's contacts: name by full public key, 64 lower-case hex digits. */
  type Contacts = map<string, string>

  const PREFIX_LEN := 12

  function LowerChar(c: char): char {
    if 'A' <= c <= 'Z' then c - 'A' + 'a' else c
  }

  /** ASCII lower case. */
  function Lower(s: string): (r: string)
    ensures |r| == |s|
    ensures forall i {:trigger r[i]} :: 0 <= i < |r| ==> r[i] == LowerChar(s[i])
  {
    seq(|s|, i requires 0 <= i < |s| => LowerChar(s[i]))
  }

  /** `ManagedRepeater::matches`. */
  predicate Matches(r: Repeater, prefix: string) {
    Lower(prefix) <= Lower(r.key)
  }

  /** The same letter or digit, upper and lower case being one. */
  predicate SameDigit(c: char, d: char) {
    c == d || ('A' <= c <= 'Z' && d as int == c as int + 32) || ('A' <= d <= 'Z' && c as int == d as int + 32)
  }

  /** An entry matches a prefix exactly when its key begins with it, upper and lower
      case being one. */
  lemma MatchesMeans(r: Repeater, prefix: string)
    ensures Matches(r, prefix) <==>
              |prefix| <= |r.key| && forall i :: 0 <= i < |prefix| ==> SameDigit(prefix[i], r.key[i])
  {
    forall c, d ensures LowerChar(c) == LowerChar(d) <==> SameDigit(c, d) {
    }
    if |prefix| <= |r.key| {
      assert forall i :: 0 <= i < |prefix| ==> Lower(r.key)[..|prefix|][i] == LowerChar(r.key[i]);
    }
  }

  /** Keys are folded to lower case, so the node lists them as it sends them. */
  lemma LowerMeans(s: string, i: nat)
    requires i < |s|
    ensures SameDigit(Lower(s)[i], s[i]) && !('A' <= Lower(s)[i] <= 'Z')
  {
  }

  predicate IsHexDigit(c: char) {
    '0' <= c <= '9' || 'a' <= c <= 'f' || 'A' <= c <= 'F'
  }

  /** A key the node accepts: 32 bytes of hex, in either case. */
  predicate IsFullKey(key: string) {
    |key| == 64 && forall i :: 0 <= i < |key| ==> IsHexDigit(key[i])
  }

  /** A key is full exactly when it is 64 of the sixteen digits, in either case. */
  lemma FullKeyMeans(key: string)
    ensures IsFullKey(key) <==> |key| == 64 && forall i :: 0 <= i < |key| ==> key[i] in "0123456789abcdefABCDEF"
  {
    forall c ensures IsHexDigit(c) <==> c in "0123456789abcdefABCDEF" {
      HexDigitMeans(c);
    }
  }

  lemma HexDigitMeans(c: char)
    ensures IsHexDigit(c) <==> c in "0123456789abcdefABCDEF"
  {
    var digits := "0123456789abcdefABCDEF";
    if '0' <= c <= '9' {
      assert digits[c as int - '0' as int] == c;
    } else if 'a' <= c <= 'f' {
      assert digits[c as int - 'a' as int + 10] == c;
    } else if 'A' <= c <= 'F' {
      assert digits[c as int - 'A' as int + 16] == c;
    }
  }

  function Prefix(key: string): (p: string)
    ensures |key| >= 12 ==> |p| == 12 && p <= key
    ensures |key| < 12 ==> p == key
  {
    if |key| <= PREFIX_LEN then key else key[..PREFIX_LEN]
  }

  predicate MatchedBy(managed: seq<Repeater>, key: string) {
    exists i :: 0 <= i < |managed| && Matches(managed[i], Prefix(key))
  }

  predicate HasContact(r: Repeater, keys: set<string>) {
    exists k :: k in keys && Matches(r, Prefix(k))
  }

  /** Two keys with the same first twelve digits, upper and lower case being one. */
  ghost predicate SamePrefix(a: string, b: string) {
    |a| >= 12 && |b| >= 12 && forall i :: 0 <= i < 12 ==> SameDigit(a[i], b[i])
  }

  lemma MatchesPrefixOf(r: Repeater, key: string)
    requires |key| >= 12
    ensures Matches(r, Prefix(key)) <==> SamePrefix(key, r.key)
  {
    MatchesMeans(r, Prefix(key));
    assert forall i :: 0 <= i < 12 ==> Prefix(key)[i] == key[i];
  }

  /** A contact belongs to an entry, of whatever tier, exactly when their keys agree in
      the first twelve digits. */
  lemma MatchedMeans(managed: seq<Repeater>, keys: set<string>, i: nat, key: string)
    requires i < |managed| && key in keys && forall k :: k in keys ==> |k| >= 12
    ensures MatchedBy(managed, key) <==> exists j :: 0 <= j < |managed| && SamePrefix(key, managed[j].key)
    ensures HasContact(managed[i], keys) <==> exists k :: k in keys && SamePrefix(k, managed[i].key)
  {
    forall r, k | k in keys ensures Matches(r, Prefix(k)) <==> SamePrefix(k, r.key) {
      MatchesPrefixOf(r, k);
    }
  }

  /** The keys no entry of any tier matches. */
  function Unmatched(keys: set<string>, managed: seq<Repeater>): set<string> {
    set k | k in keys && !MatchedBy(managed, k)
  }

  /** The full keys configured, as the node would list them. */
  function FullKeys(managed: seq<Repeater>): set<string> {
    set i | 0 <= i < |managed| && IsFullKey(managed[i].key) :: Lower(managed[i].key)
  }

  /** A 12-digit prefix stands for one key only. */
  ghost predicate DistinctPrefixes(keys: set<string>) {
    forall a, b :: a in keys && b in keys && Prefix(a) == Prefix(b) ==> a == b
  }

  /** Nothing left to do: every contact is managed, and every repeater whose full
      key is configured is a contact. */
  ghost predicate Converged(contacts: Contacts, managed: seq<Repeater>) {
    && (forall k :: k in contacts ==> MatchedBy(managed, k))
    && (forall i :: 0 <= i < |managed| && IsFullKey(managed[i].key) ==> HasContact(managed[i], contacts.Keys))
  }

  /** A repeater declared under its own key is matched by its own entry. */
  lemma OwnKeyMatches(r: Repeater)
    ensures Matches(r, Prefix(Lower(r.key)))
  {
  }

  function Listed(cache: seq<string>): set<string> {
    set k | k in cache
  }

  /** The first key of a list with the prefix: what a lookup resolves it to. */
  function First(cache: seq<string>, prefix: string): (r: Option<string>)
    ensures r.None? <==> forall k :: k in cache ==> Prefix(k) != prefix
    ensures r.Some? ==> r.value in cache && Prefix(r.value) == prefix
  {
    if cache == [] then None else if Prefix(cache[0]) == prefix then Some(cache[0]) else First(cache[1..], prefix)
  }

  datatype Outcome = Done | Refused | Failed

  class MeshNode {
    /** Whether the node adds contacts it hears by itself. */
    var autoAdd: bool
    /** The channel slots' contents; an empty slot holds the empty string. */
    var channels: seq<string>
    var contacts: Contacts
    /** The keys of the client's cached contact list, in the order in which lookups
        go through them. */
    var cache: seq<string>

    /** Reads the list from the node again; its order may be any. */
    method Refresh()
      modifies this`cache
      ensures Listed(cache) == contacts.Keys
    {
      cache := [];
      var todo := contacts.Keys;
      while todo != {}
        invariant todo <= contacts.Keys && Listed(cache) == contacts.Keys - todo
        decreases todo
      {
        var k :| k in todo;
        assert Listed(cache + [k]) == Listed(cache) + {k};
        cache, todo := cache + [k], todo - {k};
      }
    }

    method AutoAddEnabled() returns (r: Option<bool>)
      ensures r.Some? ==> r.value == autoAdd
    {
      if * {
        return None;
      }
      return Some(autoAdd);
    }

    method DisableAutoAdd() returns (ok: bool)
      modifies this`autoAdd
      ensures autoAdd == if ok then false else old(autoAdd)
    {
      if * {
        return false;
      }
      autoAdd := false;
      return true;
    }

    method MaxChannels() returns (r: Option<nat>)
      ensures r.Some? ==> r.value == |channels|
    {
      if * {
        return None;
      }
      return Some(|channels|);
    }

    method GetChannel(i: nat) returns (r: Option<string>)
      requires i < |channels|
      ensures r.Some? ==> r.value == channels[i]
    {
      if * {
        return None;
      }
      return Some(channels[i]);
    }

    method RemoveChannel(i: nat) returns (ok: bool)
      requires i < |channels|
      modifies this`channels
      ensures channels == if ok then old(channels)[i := ""] else old(channels)
    {
      if * {
        return false;
      }
      channels := channels[i := ""];
      return true;
    }

    /** Refuses a key that is not a full one; otherwise the node call may fail. */
    method DeclareContact(r: Repeater) returns (o: Outcome)
      modifies this`contacts
      ensures o == Refused <==> !IsFullKey(r.key)
      ensures contacts == if o == Done then old(contacts)[Lower(r.key) := r.name] else old(contacts)
    {
      if !IsFullKey(r.key) {
        return Refused;
      }
      if * {
        return Failed;
      }
      contacts := contacts[Lower(r.key) := r.name];
      return Done;
    }

    /** Resolves the prefix in the cache, then asks the node, which may fail. */
    method RemoveContact(prefix: string) returns (o: Outcome)
      modifies this`contacts
      ensures o == Refused <==> First(cache, prefix).None?
      ensures contacts == if o == Done then old(contacts) - {First(cache, prefix).value} else old(contacts)
    {
      var found := First(cache, prefix);
      if found.None? {
        return Refused;
      }
      if * {
        return Failed;
      }
      contacts := contacts - {found.value};
      return Done;
    }
  }

  // ----- one pass

  /** `after` is `before` with nothing removed, only configured keys added, and every
      cached contact under its old name. */
  ghost predicate OnlyDeclares(before: Contacts, after: Contacts, managed: seq<Repeater>, cached: set<string>) {
    && before.Keys <= after.Keys <= before.Keys + FullKeys(managed)
    && forall k :: k in before && k in cached ==> after[k] == before[k]
  }

  /** Each of the first `n` entries with a full key has a contact. */
  ghost predicate Covered(managed: seq<Repeater>, n: nat, cached: set<string>, contacts: Contacts)
    requires n <= |managed|
  {
    forall i :: 0 <= i < n && IsFullKey(managed[i].key) ==>
      HasContact(managed[i], cached) || HasContact(managed[i], contacts.Keys)
  }

  /** The cached list has a contact for each of the first `n` entries with a full key. */
  ghost predicate AllCached(managed: seq<Repeater>, n: nat, cached: set<string>)
    requires n <= |managed|
  {
    forall i :: 0 <= i < n && IsFullKey(managed[i].key) ==> HasContact(managed[i], cached)
  }

  lemma DeclaredOne(managed: seq<Repeater>, n: nat, cached: set<string>,
                    before: Contacts, now: Contacts, after: Contacts)
    requires n < |managed| && IsFullKey(managed[n].key) && !HasContact(managed[n], cached)
    requires OnlyDeclares(before, now, managed, cached) && after == now[Lower(managed[n].key) := managed[n].name]
    ensures OnlyDeclares(before, after, managed, cached)
    ensures HasContact(managed[n], after.Keys)
    ensures Covered(managed, n, cached, now) ==> Covered(managed, n + 1, cached, after)
  {
    var key := Lower(managed[n].key);
    OwnKeyMatches(managed[n]);
    assert key in FullKeys(managed) && key !in cached && key in after.Keys;
    if Covered(managed, n, cached, now) {
      forall i | 0 <= i < n && HasContact(managed[i], now.Keys) ensures HasContact(managed[i], after.Keys) {
        var k :| k in now.Keys && Matches(managed[i], Prefix(k));
        assert k in after.Keys;
      }
    }
  }

  /** How far declaring has come after the first `n` entries. */
  ghost predicate Reconciled(managed: seq<Repeater>, n: nat, cached: set<string>,
                             before: Contacts, now: Contacts, failed: bool)
    requires n <= |managed|
  {
    && OnlyDeclares(before, now, managed, cached)
    && (!failed ==> Covered(managed, n, cached, now))
    && (AllCached(managed, n, cached) ==> now == before)
  }

  lemma ReconciledOneMore(managed: seq<Repeater>, n: nat, cached: set<string>,
                          before: Contacts, now: Contacts, after: Contacts, failed: bool, o: Outcome)
    requires n < |managed| && Reconciled(managed, n, cached, before, now, failed)
    requires if HasContact(managed[n], cached) then o == Done && after == now
             else (o == Refused <==> !IsFullKey(managed[n].key))
                  && after == if o == Done then now[Lower(managed[n].key) := managed[n].name] else now
    ensures Reconciled(managed, n + 1, cached, before, after, failed || o == Failed)
  {
    if !HasContact(managed[n], cached) && o == Done {
      DeclaredOne(managed, n, cached, before, now, after);
    }
  }

  /** Declares every managed repeater the cached list lacks. */
  method ReconcileManagedRepeaters(node: MeshNode, managed: seq<Repeater>) returns (failed: bool)
    modifies node`contacts
    ensures Reconciled(managed, |managed|, Listed(node.cache), old(node.contacts), node.contacts, failed)
  {
    failed := false;
    var cached := Listed(node.cache);
    for n := 0 to |managed|
      invariant Reconciled(managed, n, cached, old(node.contacts), node.contacts, failed)
    {
      ghost var now := node.contacts;
      var o := Done;
      if !HasContact(managed[n], cached) {
        o := node.DeclareContact(managed[n]);
      }
      ReconciledOneMore(managed, n, cached, old(node.contacts), now, node.contacts, failed, o);
      failed := failed || o == Failed;
    }
  }

  /** The contacts to prune that a lookup of their own prefix resolves to: the first
      of the cached list among all that share it. */
  function Resolvable(cache: seq<string>, managed: seq<Repeater>): set<string> {
    set k | k in Unmatched(Listed(cache), managed) && First(cache, Prefix(k)) == Some(k)
  }

  /** Pruning can reach every contact it should exactly when no two of them share a
      prefix: of those that do, every lookup resolves to the same one. */
  lemma ResolvableIff(cache: seq<string>, managed: seq<Repeater>)
    ensures Resolvable(cache, managed) == Unmatched(Listed(cache), managed)
        <==> DistinctPrefixes(Unmatched(Listed(cache), managed))
  {
    var todo := Unmatched(Listed(cache), managed);
    forall k | k in todo ensures First(cache, Prefix(k)).Some? && First(cache, Prefix(k)).value in todo {
      assert First(cache, Prefix(k)).value in Listed(cache);
    }
    if DistinctPrefixes(todo) {
      assert forall k :: k in todo ==> k in Resolvable(cache, managed);
    }
  }

  /** `after` is `before` without some of the contacts pruning can reach. */
  ghost predicate OnlyPrunes(before: Contacts, after: Contacts, managed: seq<Repeater>, cache: seq<string>) {
    && after.Keys <= before.Keys
    && forall k :: k in before && k !in Resolvable(cache, managed) ==> k in after && after[k] == before[k]
  }

  /** What pruning does: only unmatched contacts go, and without failures all that
      it can reach. */
  ghost predicate Pruned(before: Contacts, after: Contacts, managed: seq<Repeater>, cache: seq<string>, failed: bool) {
    && OnlyPrunes(before, after, managed, cache)
    && (!failed ==> forall k :: k in Resolvable(cache, managed) ==> k !in after)
    && (Unmatched(Listed(cache), managed) == {} ==> after == before)
  }

  /** Removes, one by one, every cached contact no managed entry matches. Whatever
      calls fail, only those can go; if none fails, exactly those go that a lookup
      can resolve to. */
  method PruneContacts(node: MeshNode, managed: seq<Repeater>) returns (failed: bool)
    modifies node`contacts
    ensures Pruned(old(node.contacts), node.contacts, managed, node.cache, failed)
  {
    failed := false;
    ghost var gone := Resolvable(node.cache, managed);
    var todo := Unmatched(Listed(node.cache), managed);
    ghost var all := todo;
    while todo != {}
      invariant todo <= all
      invariant node.contacts.Keys <= old(node.contacts).Keys
      invariant forall k :: k in old(node.contacts) && k !in gone ==>
                  k in node.contacts && node.contacts[k] == old(node.contacts)[k]
      invariant !failed ==> forall k :: k in gone && k !in todo ==> k !in node.contacts
      invariant all == {} ==> node.contacts == old(node.contacts)
      decreases todo
    {
      var k :| k in todo;
      todo := todo - {k};
      ResolvesToPruned(node.cache, managed, k);
      var o := node.RemoveContact(Prefix(k));
      failed := failed || o != Done;
    }
  }

  lemma ResolvesToPruned(cache: seq<string>, managed: seq<Repeater>, k: string)
    requires k in Unmatched(Listed(cache), managed)
    ensures var found := First(cache, Prefix(k)); found.Some? && found.value in Resolvable(cache, managed)
  {
    var found := First(cache, Prefix(k));
    assert found.value in Listed(cache) && Prefix(found.value) == Prefix(k);
  }

  lemma FullKeyMatched(managed: seq<Repeater>, k: string)
    requires k in FullKeys(managed)
    ensures MatchedBy(managed, k)
  {
  }

  /** The other half of the observer lock: contact auto-add off, every channel
      slot empty. Each correction is attempted whatever happened to the others. */
  method LockObserver(node: MeshNode) returns (failed: bool)
    modifies node`autoAdd, node`channels
    ensures |node.channels| == |old(node.channels)|
    ensures forall i :: 0 <= i < |node.channels| ==> node.channels[i] in ["", old(node.channels)[i]]
    ensures node.autoAdd ==> old(node.autoAdd)
    ensures !failed ==> Locked(node)
    ensures old(Locked(node)) ==> Locked(node) && node.channels == old(node.channels)
  {
    failed := false;
    var auto := node.AutoAddEnabled();
    if auto.None? {
      failed := true;
    } else if auto.value {
      var ok := node.DisableAutoAdd();
      failed := !ok;
    }
    var slots := node.MaxChannels();
    if slots.None? {
      return true;
    }
    for i := 0 to slots.value
      invariant |node.channels| == |old(node.channels)| == slots.value
      invariant forall j :: 0 <= j < |node.channels| ==> node.channels[j] in ["", old(node.channels)[j]]
      invariant node.autoAdd ==> old(node.autoAdd)
      invariant !failed ==> !node.autoAdd && forall j :: 0 <= j < i ==> node.channels[j] == ""
      invariant old(Locked(node)) ==> !node.autoAdd && node.channels == old(node.channels)
    {
      var channel := node.GetChannel(i);
      if channel.None? {
        failed := true;
      } else if channel.value != "" {
        var ok := node.RemoveChannel(i);
        failed := failed || !ok;
      }
    }
  }

  ghost predicate Locked(node: MeshNode)
    reads node
  {
    !node.autoAdd && forall i :: 0 <= i < |node.channels| ==> node.channels[i] == ""
  }

  /** Declaring changes nothing about which contacts are unmatched. */
  lemma DeclaresOnlyMatched(before: Contacts, after: Contacts, managed: seq<Repeater>, cached: set<string>)
    requires OnlyDeclares(before, after, managed, cached)
    ensures Unmatched(after.Keys, managed) == Unmatched(before.Keys, managed)
    ensures forall k :: k in after ==> k in before || MatchedBy(managed, k)
  {
    forall k | k in after && k !in before ensures MatchedBy(managed, k) {
      FullKeyMatched(managed, k);
    }
  }

  /** After declaring and pruning without failures, the node has converged exactly
      when no two of the contacts to prune shared a prefix. */
  lemma ConvergedIff(managed: seq<Repeater>, cached: set<string>, middle: Contacts, cache: seq<string>, after: Contacts)
    requires cached <= middle.Keys && Covered(managed, |managed|, cached, middle) && Listed(cache) == middle.Keys
    requires OnlyPrunes(middle, after, managed, cache) && forall k :: k in Resolvable(cache, managed) ==> k !in after
    ensures Converged(after, managed) <==> DistinctPrefixes(Unmatched(middle.Keys, managed))
  {
    ResolvableIff(cache, managed);
    forall i | 0 <= i < |managed| && IsFullKey(managed[i].key) ensures HasContact(managed[i], after.Keys) {
      var k :| (k in cached || k in middle.Keys) && Matches(managed[i], Prefix(k));
      assert MatchedBy(managed, k) && k in after.Keys;
    }
  }

  /** No contact matched by an entry of any tier is lost or renamed, and no unmatched
      one appears. */
  ghost predicate KeepsManaged(before: Contacts, after: Contacts, managed: seq<Repeater>) {
    && (forall k :: k in before && MatchedBy(managed, k) ==> k in after && after[k] == before[k])
    && (forall k :: k in after ==> k in before || MatchedBy(managed, k))
  }

  lemma BothHalves(managed: seq<Repeater>, start: Contacts, middle: Contacts, cache: seq<string>, after: Contacts,
                   failed0: bool, failed1: bool)
    requires Reconciled(managed, |managed|, start.Keys, start, middle, failed0)
    requires Listed(cache) == middle.Keys && Pruned(middle, after, managed, cache, failed1)
    ensures KeepsManaged(start, after, managed)
    ensures !failed0 && !failed1 ==>
              (Converged(after, managed) <==> DistinctPrefixes(Unmatched(start.Keys, managed)))
    ensures Converged(start, managed) ==> after == start
  {
    DeclaresOnlyMatched(start, middle, managed, start.Keys);
    if !failed0 && !failed1 {
      ConvergedIff(managed, start.Keys, middle, cache, after);
    }
    if Converged(start, managed) {
      ConvergedStays(managed, start, middle, failed0);
    }
  }

  lemma ConvergedStays(managed: seq<Repeater>, start: Contacts, middle: Contacts, failed: bool)
    requires Converged(start, managed) && Reconciled(managed, |managed|, start.Keys, start, middle, failed)
    ensures middle == start && Unmatched(middle.Keys, managed) == {}
  {
  }

  /** Reconcile and enforce, as on every connection, with the contact list read
      afresh before each half. Whatever node calls fail, no contact matched by an
      entry of any tier is lost and no unmatched one appears. On an observer, if
      none fails, the node is locked, and it has converged exactly when no two of
      the unmatched contacts shared a prefix; and on a converged and locked node a
      pass, failing calls or not, changes nothing. */
  method Pass(node: MeshNode, managed: seq<Repeater>, observer: bool) returns (failed: bool)
    modifies node
    ensures KeepsManaged(old(node.contacts), node.contacts, managed)
    ensures observer && !failed ==> Locked(node)
    ensures observer && !failed ==>
              (Converged(node.contacts, managed)
               <==> DistinctPrefixes(Unmatched(old(node.contacts).Keys, managed)))
    ensures old(Converged(node.contacts, managed)) ==> node.contacts == old(node.contacts)
    ensures old(Locked(node)) ==> node.channels == old(node.channels) && node.autoAdd == old(node.autoAdd)
    ensures !observer ==> OnlyDeclares(old(node.contacts), node.contacts, managed, old(node.contacts).Keys)
                          && node.channels == old(node.channels) && node.autoAdd == old(node.autoAdd)
  {
    ghost var start, channels, auto := node.contacts, node.channels, node.autoAdd;
    node.Refresh();
    assert node.channels == channels && node.autoAdd == auto;
    failed := ReconcileManagedRepeaters(node, managed);
    assert node.channels == channels && node.autoAdd == auto;
    if observer {
      failed := EnforceObserver(node, managed, start, failed);
    } else {
      DeclaresOnlyMatched(start, node.contacts, managed, start.Keys);
      if Converged(start, managed) {
        ConvergedStays(managed, start, node.contacts, failed);
      }
    }
  }

  /** The second half of a pass, on an observer node; `start` is what the first half
      began with, `before` whether it failed. */
  method EnforceObserver(node: MeshNode, managed: seq<Repeater>, ghost start: Contacts, before: bool)
    returns (failed: bool)
    requires Reconciled(managed, |managed|, start.Keys, start, node.contacts, before)
    modifies node
    ensures KeepsManaged(start, node.contacts, managed)
    ensures !failed ==> Locked(node)
    ensures !failed ==> (Converged(node.contacts, managed) <==> DistinctPrefixes(Unmatched(start.Keys, managed)))
    ensures Converged(start, managed) ==> node.contacts == start
    ensures old(Locked(node)) ==> node.channels == old(node.channels) && node.autoAdd == old(node.autoAdd)
  {
    ghost var middle := node.contacts;
    var failed1 := LockObserver(node);
    node.Refresh();
    var failed2 := PruneContacts(node, managed);
    BothHalves(managed, start, middle, node.cache, node.contacts, before, failed2);
    failed := before || failed1 || failed2;
  }

  /** Two passes in a row: if no call of the first failed and it converged, the
      second, whatever fails in it, leaves the contacts exactly as it found them. */
  method PassTwice(node: MeshNode, managed: seq<Repeater>) returns (failed: bool, afterOne: Contacts)
    modifies node
    ensures !failed ==>
              (Converged(afterOne, managed) <==> DistinctPrefixes(Unmatched(old(node.contacts).Keys, managed)))
    ensures !failed && Converged(afterOne, managed) ==> node.contacts == afterOne && Locked(node)
  {
    failed := Pass(node, managed, true);
    afterOne := node.contacts;
    var _ := Pass(node, managed, true);
  }

  // ----- the managed list

  function FindIndex(managed: seq<Repeater>, prefix: string): (i: nat)
    ensures i <= |managed|
    ensures i < |managed| ==> Matches(managed[i], prefix)
    ensures forall j :: 0 <= j < i ==> !Matches(managed[j], prefix)
  {
    if managed == [] || Matches(managed[0], prefix) then 0 else 1 + FindIndex(managed[1..], prefix)
  }

  /** The entry a lookup by prefix finds: the first that matches. */
  function EntryFor(managed: seq<Repeater>, prefix: string): Option<Repeater> {
    var i := FindIndex(managed, prefix);
    if i < |managed| then Some(managed[i]) else None
  }

  function StatusFor(managed: seq<Repeater>, prefix: string): Option<Status> {
    match EntryFor(managed, prefix)
    case Some(r) => Some(r.status)
    case None => None
  }

  /** The list after setting (`Some`) or clearing (`None`) a status. */
  function Upserted(managed: seq<Repeater>, prefix: string, name: string, status: Option<Status>,
                    fullKey: Option<string>): seq<Repeater> {
    var i := FindIndex(managed, prefix);
    match status
    case Some(st) =>
      if i < |managed| then
        managed[i := Repeater(name, if fullKey.Some? then fullKey.value else managed[i].key, managed[i].password, st)]
      else
        managed + [Repeater(name, if fullKey.Some? then fullKey.value else prefix, None, st)]
    case None =>
      if i < |managed| then managed[..i] + managed[i + 1..] else managed
  }

  class Config {
    var managed: seq<Repeater>

    /** `saved` is whether writing the file succeeds: the list in memory changes
        either way. */
    method UpsertManagedRepeater(prefix: string, name: string, status: Option<Status>, fullKey: Option<string>,
                                 saved: bool) returns (ok: bool)
      modifies this
      ensures managed == Upserted(old(managed), prefix, name, status, fullKey)
      ensures ok == saved
    {
      var index := FindIndex(managed, prefix);
      if status.Some? && index < |managed| {
        managed := managed[index := managed[index].(name := name)];
        managed := managed[index := managed[index].(status := status.value)];
        if fullKey.Some? {
          managed := managed[index := managed[index].(key := fullKey.value)];
        }
      } else if status.Some? {
        managed := managed + [Repeater(name, if fullKey.Some? then fullKey.value else prefix, None, status.value)];
      } else if index < |managed| {
        managed := managed[..index] + managed[index + 1..];
      }
      return saved;
    }
  }

  /** The case-folded 12-digit prefix an entry answers to; none when its key is
      shorter, for then it never matches a contact. */
  function Slot(r: Repeater): Option<string> {
    if |r.key| >= PREFIX_LEN then Some(Lower(Prefix(r.key))) else None
  }

  /** At most one entry per slot. */
  ghost predicate OnePerPrefix(managed: seq<Repeater>) {
    forall i, j :: 0 <= i < j < |managed| && Slot(managed[i]).Some? ==> Slot(managed[i]) != Slot(managed[j])
  }

  lemma MatchesIsSlot(r: Repeater, prefix: string)
    requires |prefix| == PREFIX_LEN
    ensures Matches(r, prefix) <==> Slot(r) == Some(Lower(prefix))
  {
    if |r.key| >= PREFIX_LEN {
      assert Lower(Prefix(r.key)) == Lower(r.key)[..PREFIX_LEN];
      assert Matches(r, prefix) <==> Lower(prefix) == Lower(r.key)[..PREFIX_LEN];
    }
  }

  /** `i` is where a lookup of `slot` stops in `managed`. */
  ghost predicate FirstAt(managed: seq<Repeater>, slot: string, i: nat) {
    && i <= |managed|
    && (i < |managed| ==> Slot(managed[i]) == Some(slot))
    && forall j :: 0 <= j < i ==> Slot(managed[j]) != Some(slot)
  }

  lemma FindIndexBySlot(managed: seq<Repeater>, prefix: string, i: nat)
    requires |prefix| == PREFIX_LEN
    ensures FindIndex(managed, prefix) == i <==> FirstAt(managed, Lower(prefix), i)
  {
    var n := FindIndex(managed, prefix);
    forall j | 0 <= j < |managed| ensures Matches(managed[j], prefix) <==> Slot(managed[j]) == Some(Lower(prefix)) {
      MatchesIsSlot(managed[j], prefix);
    }
    assert FirstAt(managed, Lower(prefix), n);
  }

  /** What a lookup finds before and after an update, slot by slot. */
  ghost predicate MapUpdated(was: Option<Repeater>, now: Option<Repeater>, same: bool, prefix: string,
                             name: string, status: Option<Status>, fullKey: Option<string>) {
    if !same then now == was
    else
      match status
      case None => now == None
      case Some(st) =>
        && now.Some? && now.value.name == name && now.value.status == st
        && now.value.password == (if was.Some? then was.value.password else None)
        && now.value.key == (if fullKey.Some? then fullKey.value else if was.Some? then was.value.key else prefix)
  }

  lemma SetIsMapUpdate(managed: seq<Repeater>, prefix: string, name: string, st: Status,
                       fullKey: Option<string>, other: string)
    requires OnePerPrefix(managed) && |prefix| == PREFIX_LEN == |other|
    requires fullKey.Some? ==> |fullKey.value| >= PREFIX_LEN && Lower(Prefix(fullKey.value)) == Lower(prefix)
    ensures var now := Upserted(managed, prefix, name, Some(st), fullKey);
            && OnePerPrefix(now)
            && MapUpdated(EntryFor(managed, other), EntryFor(now, other), Lower(other) == Lower(prefix), prefix,
                          name, Some(st), fullKey)
  {
    var i, o := FindIndex(managed, prefix), FindIndex(managed, other);
    var now := Upserted(managed, prefix, name, Some(st), fullKey);
    FindIndexBySlot(managed, prefix, i);
    FindIndexBySlot(managed, other, o);
    assert Slot(now[i]) == Some(Lower(prefix));
    if Lower(other) == Lower(prefix) {
      FindIndexBySlot(managed, other, i);
      FindIndexBySlot(now, other, i);
    } else {
      FindIndexBySlot(now, other, if o < |managed| then o else |now|);
    }
  }

  /** Where a lookup that stopped at `o` stops once entry `i` is gone. */
  function AfterRemoval(managed: seq<Repeater>, i: nat, o: nat): int {
    if o == i || o >= |managed| then |managed| - 1 else if o < i then o else o - 1
  }

  lemma RemovedAt(managed: seq<Repeater>, i: nat, slot: string, o: nat)
    requires OnePerPrefix(managed) && i < |managed| && FirstAt(managed, slot, o)
    ensures var now, at := managed[..i] + managed[i + 1..], AfterRemoval(managed, i, o);
            && FirstAt(now, slot, at)
            && (o < |managed| && o != i ==> now[at] == managed[o])
  {
  }

  lemma RemovalKeepsSlots(managed: seq<Repeater>, i: nat)
    requires OnePerPrefix(managed) && i < |managed|
    ensures OnePerPrefix(managed[..i] + managed[i + 1..])
  {
  }

  lemma ClearIsMapUpdate(managed: seq<Repeater>, prefix: string, name: string, fullKey: Option<string>, other: string)
    requires OnePerPrefix(managed) && |prefix| == PREFIX_LEN == |other|
    ensures var now := Upserted(managed, prefix, name, None, fullKey);
            MapUpdated(EntryFor(managed, other), EntryFor(now, other), Lower(other) == Lower(prefix), prefix,
                       name, None, fullKey)
  {
    var i, o := FindIndex(managed, prefix), FindIndex(managed, other);
    FindIndexBySlot(managed, prefix, i);
    FindIndexBySlot(managed, other, o);
    if Lower(other) == Lower(prefix) {
      FindIndexBySlot(managed, other, i);
    }
    if i < |managed| {
      RemovedAt(managed, i, Lower(other), o);
      FindIndexBySlot(managed[..i] + managed[i + 1..], other, AfterRemoval(managed, i, o));
    }
  }

  /** The list behaves as a map from prefix to entry: a lookup after an update
      finds exactly what was set or cleared, with the password kept and the key
      replaced only by a resolved one; every other prefix finds what it found
      before; and the prefixes stay distinct. */
  lemma UpsertIsMapUpdate(managed: seq<Repeater>, prefix: string, name: string, status: Option<Status>,
                          fullKey: Option<string>, other: string)
    requires OnePerPrefix(managed) && |prefix| == PREFIX_LEN == |other|
    requires fullKey.Some? ==> |fullKey.value| >= PREFIX_LEN && Lower(Prefix(fullKey.value)) == Lower(prefix)
    ensures var now := Upserted(managed, prefix, name, status, fullKey);
            && OnePerPrefix(now)
            && MapUpdated(EntryFor(managed, other), EntryFor(now, other), Lower(other) == Lower(prefix), prefix,
                          name, status, fullKey)
  {
    match status
    case Some(st) => SetIsMapUpdate(managed, prefix, name, st, fullKey, other);
    case None =>
      ClearIsMapUpdate(managed, prefix, name, fullKey, other);
      if FindIndex(managed, prefix) < |managed| {
        RemovalKeepsSlots(managed, FindIndex(managed, prefix));
      }
  }

  /** The entries that do not answer to the prefix, in order. */
  function Others(managed: seq<Repeater>, prefix: string): seq<Repeater> {
    if managed == [] then []
    else (if Matches(managed[0], prefix) then [] else [managed[0]]) + Others(managed[1..], prefix)
  }

  lemma {:induction false} OthersConcat(a: seq<Repeater>, b: seq<Repeater>, prefix: string)
    ensures Others(a + b, prefix) == Others(a, prefix) + Others(b, prefix)
  {
    if a == [] {
      assert a + b == b;
    } else {
      assert (a + b)[1..] == a[1..] + b;
      OthersConcat(a[1..], b, prefix);
    }
  }

  lemma OthersAround(before: seq<Repeater>, e: Repeater, after: seq<Repeater>, prefix: string)
    requires Matches(e, prefix)
    ensures Others(before + [e] + after, prefix) == Others(before + after, prefix)
  {
    OthersConcat(before + [e], after, prefix);
    OthersConcat(before, [e], prefix);
    OthersConcat(before, after, prefix);
    assert Others([e], prefix) == [];
  }

  /** Whatever the list holds, no update touches, drops or reorders an entry that does
      not answer to the prefix. */
  lemma OthersUntouched(managed: seq<Repeater>, prefix: string, name: string, status: Option<Status>,
                        fullKey: Option<string>)
    requires |prefix| == PREFIX_LEN
    requires fullKey.Some? ==> |fullKey.value| >= PREFIX_LEN && Lower(Prefix(fullKey.value)) == Lower(prefix)
    ensures Others(Upserted(managed, prefix, name, status, fullKey), prefix) == Others(managed, prefix)
  {
    var i, now := FindIndex(managed, prefix), Upserted(managed, prefix, name, status, fullKey);
    if i < |managed| {
      assert managed == managed[..i] + [managed[i]] + managed[i + 1..];
      OthersAround(managed[..i], managed[i], managed[i + 1..], prefix);
      if status.Some? {
        MatchesIsSlot(managed[i], prefix);
        MatchesIsSlot(now[i], prefix);
        assert now == managed[..i] + [now[i]] + managed[i + 1..];
        OthersAround(managed[..i], now[i], managed[i + 1..], prefix);
      }
    } else if status.Some? {
      MatchesIsSlot(now[i], prefix);
      OthersAround(managed, now[i], [], prefix);
      assert now == managed + [now[i]] + [] && managed + [] == managed;
    }
  }

  /** Setting a status loses no full key, so the repeater can still be declared: only
      a newly resolved key replaces one, and then for the same prefix. */
  lemma SettingKeepsFullKeys(managed: seq<Repeater>, prefix: string, name: string, st: Status, fullKey: Option<string>)
    requires |prefix| == PREFIX_LEN
    ensures var now := Upserted(managed, prefix, name, Some(st), fullKey);
            && (fullKey.Some? && IsFullKey(fullKey.value) ==> Lower(fullKey.value) in FullKeys(now))
            && forall k :: k in FullKeys(managed) ==>
                 k in FullKeys(now) || (fullKey.Some? && Lower(prefix) <= k)
  {
    var i, now := FindIndex(managed, prefix), Upserted(managed, prefix, name, Some(st), fullKey);
    assert fullKey.Some? ==> now[i].key == fullKey.value;
    forall k | k in FullKeys(managed) ensures k in FullKeys(now) || (fullKey.Some? && Lower(prefix) <= k) {
      var j :| 0 <= j < |managed| && IsFullKey(managed[j].key) && Lower(managed[j].key) == k;
      assert j != i || fullKey.None? ==> now[j].key == managed[j].key;
    }
  }

  /** No two entries answer to the prefix. */
  ghost predicate AtMostOneFor(managed: seq<Repeater>, prefix: string) {
    forall i, j :: 0 <= i < j < |managed| ==> !(Matches(managed[i], prefix) && Matches(managed[j], prefix))
  }

  /** Clearing a status clears it for lookups exactly when at most one entry
      matched: with two, the second takes over. */
  lemma ClearClears(managed: seq<Repeater>, prefix: string, name: string, fullKey: Option<string>)
    ensures StatusFor(Upserted(managed, prefix, name, None, fullKey), prefix) == None <==> AtMostOneFor(managed, prefix)
  {
    var i, now := FindIndex(managed, prefix), Upserted(managed, prefix, name, None, fullKey);
    if i < |managed| {
      assert forall j :: 0 <= j < |now| ==> now[j] == managed[if j < i then j else j + 1];
      var n := FindIndex(now, prefix);
      if n < |now| {
        assert Matches(managed[i], prefix) && n >= i && Matches(managed[n + 1], prefix);
      } else {
        assert forall b :: i < b < |managed| ==> managed[b] == now[b - 1];
      }
    }
  }

  /** Setting a status sets it for lookups whatever else the list holds. */
  lemma SetSets(managed: seq<Repeater>, prefix: string, name: string, st: Status, fullKey: Option<string>)
    requires |prefix| == PREFIX_LEN
    requires fullKey.Some? ==> |fullKey.value| >= PREFIX_LEN && Lower(Prefix(fullKey.value)) == Lower(prefix)
    ensures StatusFor(Upserted(managed, prefix, name, Some(st), fullKey), prefix) == Some(st)
  {
    var i, now := FindIndex(managed, prefix), Upserted(managed, prefix, name, Some(st), fullKey);
    FindIndexBySlot(managed, prefix, i);
    assert Slot(now[i]) == Some(Lower(prefix));
    FindIndexBySlot(now, prefix, i);
  }

  // ----- a status change end to end

  /** Discovered nodes by prefix: their full keys. */
  type Discovered = map<string, string>

  ghost predicate PrefixesOf(discovered: Discovered) {
    forall p :: p in discovered ==>
      |p| == PREFIX_LEN && |discovered[p]| >= PREFIX_LEN && Lower(Prefix(discovered[p])) == Lower(p)
  }

  /** A status is to be set on a repeater the cached list does not have. */
  ghost predicate NeedsRegistering(node: MeshNode, prefix: string, status: Option<Status>)
    reads node
  {
    status.Some? && forall k :: k in node.cache ==> Prefix(k) != prefix
  }

  /** `set_repeater_status`: a repeater that is not yet a contact is registered
      before any status is stored, and if it cannot be, nothing is stored. */
  method SetRepeaterStatus(node: MeshNode, config: Config, discovered: Discovered,
                           prefix: string, name: string, status: Option<Status>, saved: bool) returns (ok: bool)
    requires PrefixesOf(discovered) && |prefix| == PREFIX_LEN
    modifies node, config
    ensures old(NeedsRegistering(node, prefix, status)) ==>
              || (!ok && config.managed == old(config.managed) && node.contacts == old(node.contacts))
              || (prefix in discovered && IsFullKey(discovered[prefix]) && ok == saved
                  && node.contacts == old(node.contacts)[Lower(discovered[prefix]) := name]
                  && config.managed == Upserted(old(config.managed), prefix, name, status, Some(discovered[prefix])))
    ensures !old(NeedsRegistering(node, prefix, status)) ==>
              ok == saved && node.contacts == old(node.contacts)
              && config.managed == Upserted(old(config.managed), prefix, name, status, None)
    ensures old(node.contacts).Keys <= node.contacts.Keys
    ensures status.Some? && config.managed != old(config.managed) ==>
              (exists k :: k in old(node.cache) && Prefix(k) == prefix)
              || (exists k :: k in node.contacts && Prefix(k) == Lower(prefix))
    ensures ok ==>
              (StatusFor(config.managed, prefix) == status
               <==> status.Some? || AtMostOneFor(old(config.managed), prefix))
    ensures prefix !in discovered ==> node.contacts == old(node.contacts)
    ensures ok && status.Some? ==> prefix in discovered || exists k :: k in old(node.cache) && Prefix(k) == prefix
    ensures old(OnePerPrefix(config.managed)) ==> OnePerPrefix(config.managed)
  {
    var resolved: Option<string> := None;
    if status.Some? {
      if First(node.cache, prefix).None? {
        if prefix !in discovered {
          return false;
        }
        var key := discovered[prefix];
        var o := node.DeclareContact(Repeater(name, key, None, status.value));
        if o != Done {
          return false;
        }
        resolved := Some(key);
        assert Lower(key) in node.contacts && Prefix(Lower(key)) == Lower(Prefix(key));
      }
    }
    ghost var was := config.managed;
    ok := config.UpsertManagedRepeater(prefix, name, status, resolved, saved);
    match status {
      case Some(st) => SetSets(was, prefix, name, st, resolved);
      case None => ClearClears(was, prefix, name, resolved);
    }
    if OnePerPrefix(was) {
      UpsertIsMapUpdate(was, prefix, name, status, resolved, prefix);
    }
  }

  // ----- what clients are shown

  /** A line of the snapshot's contact list. */
  datatype Shown = Shown(prefix: string, registered: bool, status: Option<Status>, managed: bool)

  /** `Managed` and `Supervised` repeaters count as managed, `Known` ones do not. */
  predicate CountsAsManaged(status: Option<Status>) {
    status == Some(Managed) || status == Some(Supervised)
  }

  function Line(managed: seq<Repeater>, prefix: string, registered: bool): (x: Shown)
    ensures x.prefix == prefix && x.registered == registered
  {
    var status := StatusFor(managed, prefix);
    Shown(prefix, registered, status, CountsAsManaged(status))
  }

  function PrefixSet(contacts: Contacts): set<string> {
    set k | k in contacts :: Prefix(k)
  }

  /** `build_snapshot_contacts`: one line per contact of the node, and one per
      discovered node whose prefix is not among them. */
  method BuildSnapshotContacts(contacts: Contacts, managed: seq<Repeater>, discovered: Discovered)
    returns (shown: seq<Shown>)
    ensures forall x :: x in shown ==> x == Line(managed, x.prefix, x.prefix in PrefixSet(contacts))
    ensures forall x :: x in shown ==>
              x.status == StatusFor(managed, x.prefix)
              && (x.managed <==> x.status == Some(Managed) || x.status == Some(Supervised))
    ensures forall p :: (exists x :: x in shown && x.prefix == p) <==> p in PrefixSet(contacts) || p in discovered
    ensures |shown| == |contacts| + |discovered.Keys - PrefixSet(contacts)|
  {
    shown := [];
    var todo := contacts.Keys;
    while todo != {}
      invariant todo <= contacts.Keys && |shown| + |todo| == |contacts|
      invariant forall x :: x in shown ==> x == Line(managed, x.prefix, true) && x.prefix in PrefixSet(contacts)
      invariant forall k :: k in contacts && k !in todo ==> Line(managed, Prefix(k), true) in shown
      decreases todo
    {
      var k :| k in todo;
      assert Prefix(k) in PrefixSet(contacts);
      shown, todo := shown + [Line(managed, Prefix(k), true)], todo - {k};
    }
    assert |contacts| == |contacts.Keys| && todo == {};
    forall p | p in PrefixSet(contacts) ensures Line(managed, p, true) in shown {
    }
    var unlisted := discovered.Keys - PrefixSet(contacts);
    var rest := unlisted;
    while rest != {}
      invariant rest <= unlisted && |shown| + |rest| == |contacts| + |unlisted|
      invariant forall x :: x in shown ==> x == Line(managed, x.prefix, x.prefix in PrefixSet(contacts))
      invariant forall x :: x in shown ==> x.prefix in PrefixSet(contacts) || x.prefix in unlisted
      invariant forall p :: p in PrefixSet(contacts) ==> Line(managed, p, true) in shown
      invariant forall p :: p in unlisted && p !in rest ==> Line(managed, p, false) in shown
      decreases rest
    {
      var p :| p in rest;
      shown, rest := shown + [Line(managed, p, false)], rest - {p};
    }
    forall p ensures (exists x :: x in shown && x.prefix == p) <==> p in PrefixSet(contacts) || p in discovered {
      if p in PrefixSet(contacts) {
        assert Line(managed, p, true) in shown;
      } else if p in discovered {
        assert p in unlisted && Line(managed, p, false) in shown;
      }
    }
  }

  /** What `wait_for_outcome` returns: the first line with the prefix. */
  function FindShown(shown: seq<Shown>, prefix: string): (r: Option<Shown>)
    ensures r.Some? <==> exists x :: x in shown && x.prefix == prefix
    ensures r.Some? ==> r.value in shown && r.value.prefix == prefix
  {
    if shown == [] then None else if shown[0].prefix == prefix then Some(shown[0]) else FindShown(shown[1..], prefix)
  }

  /** A snapshot asked for and searched for one contact. */
  method LookUp(contacts: Contacts, managed: seq<Repeater>, discovered: Discovered, prefix: string)
    returns (found: Option<Shown>)
    ensures found.Some? <==> prefix in PrefixSet(contacts) || prefix in discovered
    ensures found.Some? ==> found.value == Line(managed, prefix, prefix in PrefixSet(contacts))
  {
    var shown := BuildSnapshotContacts(contacts, managed, discovered);
    found := FindShown(shown, prefix);
  }

  /** `manage` and `unmanage` end to end: the daemon sets or clears the status and
      rebuilds the contact list from a fresh read; the client looks its contact up
      in the snapshot. Whenever the command succeeds, the client finds a line exactly
      when the node had the contact or its advert was overheard, and the line
      carries the status asked for exactly when it was set, or when at most one
      entry answered to the prefix. After setting one, only a cached contact the
      node no longer has can leave it without a line. */
  method ManageEndToEnd(node: MeshNode, config: Config, discovered: Discovered,
                        prefix: string, name: string, status: Option<Status>, saved: bool)
    returns (ok: bool, found: Option<Shown>)
    requires PrefixesOf(discovered) && |prefix| == PREFIX_LEN
    modifies node, config
    ensures ok ==> (found.Some? <==> prefix in discovered || prefix in PrefixSet(old(node.contacts)))
    ensures ok && found.Some? ==>
              (found.value.status == status <==> status.Some? || AtMostOneFor(old(config.managed), prefix))
              && (found.value.managed
                  <==> found.value.status == Some(Managed) || found.value.status == Some(Supervised))
    ensures ok && status.Some? && old(Listed(node.cache)) <= old(node.contacts).Keys ==> found.Some?
  {
    ghost var before, listed := node.contacts, node.cache;
    ok := SetRepeaterStatus(node, config, discovered, prefix, name, status, saved);
    if !ok {
      return false, None;
    }
    if status.Some? && prefix !in discovered {
      StillListed(listed, before, prefix);
    }
    node.Refresh();
    found := LookUp(node.contacts, config.managed, discovered, prefix);
  }

  lemma StillListed(cache: seq<string>, contacts: Contacts, prefix: string)
    requires exists k :: k in cache && Prefix(k) == prefix
    ensures Listed(cache) <= contacts.Keys ==> prefix in PrefixSet(contacts)
  {
    var k :| k in cache && Prefix(k) == prefix;
    assert k in Listed(cache);
  }
}
