/**
 Overheard nodes: the SQLite table keyed by full public key, and the in-memory
 mirror keyed by 12-character prefix that is merged alongside it and rebuilt
 from it at startup.

 Positions are integers here, with (0, 0) meaning "unknown" as in the program.
 */
module NodeMirror {
  import opened Wrappers

  datatype Node = Node(
    fullKey: string, prefix: string, name: string, advType: int, isRepeater: bool,
    lat: int, lon: int, lastSeen: int,
    snr: Option<int>, rssi: Option<int>, hops: Option<int>)

  datatype Row = Row(
    prefix: string, name: string, advType: int, lat: Option<int>, lon: Option<int>,
    snr: Option<int>, rssi: Option<int>, hops: Option<int>,
    firstSeen: int, lastSeen: int, sightings: nat)

  /** Rows by primary key, the full public key. */
  type Table = map<string, Row>

  /** Nodes by public key prefix. */
  type Mirror = map<string, Node>

  function KeyPrefix(key: string): (p: string)
    ensures |key| >= 12 ==> |p| == 12 && p <= key
    ensures |key| < 12 ==> p == key
  {
    if |key| <= 12 then key else key[..12]
  }

  function HasPosition(n: Node): bool {
    n.lat != 0 || n.lon != 0
  }

  function LatOf(n: Node): Option<int> { if HasPosition(n) then Some(n.lat) else None }
  function LonOf(n: Node): Option<int> { if HasPosition(n) then Some(n.lon) else None }

  /** SQL's COALESCE, and the `or` of the in-memory merge. */
  function Coalesce<T>(a: Option<T>, b: Option<T>): Option<T> {
    if a.Some? then a else b
  }

  function OrZero(v: Option<int>): int {
    if v.Some? then v.value else 0
  }

  // ----- the table

  function NewRow(n: Node): Row {
    Row(n.prefix, n.name, n.advType, LatOf(n), LonOf(n), n.snr, n.rssi, n.hops, n.lastSeen, n.lastSeen, 1)
  }

  function MergedRow(n: Node, r: Row): Row {
    Row(n.prefix, n.name, n.advType,
        Coalesce(LatOf(n), r.lat), Coalesce(LonOf(n), r.lon),
        Coalesce(n.snr, r.snr), Coalesce(n.rssi, r.rssi), Coalesce(n.hops, r.hops),
        r.firstSeen, n.lastSeen, r.sightings + 1)
  }

  /** INSERT ... ON CONFLICT(public_key_hex) DO UPDATE. */
  function Upserted(t: Table, n: Node): Table {
    t[n.fullKey := if n.fullKey in t then MergedRow(n, t[n.fullKey]) else NewRow(n)]
  }

  function FromRow(key: string, r: Row): Node {
    Node(key, r.prefix, r.name, r.advType, r.advType == 2, OrZero(r.lat), OrZero(r.lon), r.lastSeen,
         r.snr, r.rssi, r.hops)
  }

  /** What loading every row may return: rows come in no particular order, so two
      rows with one prefix leave either of them. */
  ghost predicate Loads(t: Table, m: Mirror) {
    && (forall k :: k in t ==> t[k].prefix in m)
    && (forall p {:trigger m[p]} :: p in m ==> exists k :: k in t && t[k].prefix == p && m[p] == FromRow(k, t[k]))
  }

  class RepeaterDb {
    var rows: Table

    constructor ()
      ensures rows == map[]
    {
      rows := map[];
    }

    method Upsert(n: Node)
      modifies this
      ensures rows == Upserted(old(rows), n)
    {
      if n.fullKey in rows {
        var r := rows[n.fullKey];
        var (lat, lon) := if n.lat == 0 && n.lon == 0 then (None, None) else (Some(n.lat), Some(n.lon));
        rows := rows[n.fullKey := r.(
          prefix := n.prefix, name := n.name, advType := n.advType,
          lat := Coalesce(lat, r.lat), lon := Coalesce(lon, r.lon),
          snr := Coalesce(n.snr, r.snr), rssi := Coalesce(n.rssi, r.rssi), hops := Coalesce(n.hops, r.hops),
          lastSeen := n.lastSeen, sightings := r.sightings + 1)];
      } else {
        rows := rows[n.fullKey := NewRow(n)];
      }
    }

    method LoadAll() returns (nodes: Mirror)
      ensures Loads(rows, nodes)
    {
      nodes := map[];
      var todo := rows.Keys;
      while todo != {}
        invariant todo <= rows.Keys
        invariant forall k :: k in rows && k !in todo ==> rows[k].prefix in nodes
        invariant forall p :: p in nodes ==>
                    exists k :: k in rows && rows[k].prefix == p && nodes[p] == FromRow(k, rows[k])
      {
        var k :| k in todo;
        var node := FromRow(k, rows[k]);
        nodes := nodes[node.prefix := node];
        todo := todo - {k};
      }
    }
  }

  // ----- the mirror

  /** `n` merged into the entry already there. */
  function MergedNode(n: Node, known: Node): Node {
    known.(
      name := n.name, fullKey := n.fullKey, advType := n.advType, isRepeater := n.isRepeater,
      lat := if HasPosition(n) then n.lat else known.lat,
      lon := if HasPosition(n) then n.lon else known.lon,
      snr := Coalesce(n.snr, known.snr), rssi := Coalesce(n.rssi, known.rssi), hops := Coalesce(n.hops, known.hops),
      lastSeen := n.lastSeen)
  }

  function Merged(m: Mirror, n: Node): Mirror {
    m[n.prefix := if n.prefix in m then MergedNode(n, m[n.prefix]) else n]
  }

  class AppState {
    const db: RepeaterDb
    var discovered: Mirror

    /** Startup: hydrates the mirror from the database. */
    constructor (db: RepeaterDb)
      ensures this.db == db && Loads(db.rows, discovered)
    {
      this.db := db;
      new;
      discovered := db.LoadAll();
    }

    /** `written` is whether the database accepted the write; a failure is
        logged and the mirror is merged all the same. */
    method UpsertDiscoveredNode(n: Node, written: bool) returns (isNew: bool)
      modifies this, db
      ensures db.rows == if written then Upserted(old(db.rows), n) else old(db.rows)
      ensures discovered == Merged(old(discovered), n)
      ensures isNew <==> n.prefix !in old(discovered)
    {
      if written {
        db.Upsert(n);
      }
      if n.prefix in discovered {
        var existing := discovered[n.prefix];
        existing := existing.(name := n.name, fullKey := n.fullKey, advType := n.advType, isRepeater := n.isRepeater);
        if n.lat != 0 || n.lon != 0 {
          existing := existing.(lat := n.lat, lon := n.lon);
        }
        existing := existing.(snr := Coalesce(n.snr, existing.snr), rssi := Coalesce(n.rssi, existing.rssi),
                              hops := Coalesce(n.hops, existing.hops), lastSeen := n.lastSeen);
        discovered := discovered[n.prefix := existing];
        return false;
      } else {
        discovered := discovered[n.prefix := n];
        return true;
      }
    }
  }

  // ----- what one sighting does to what is known

  /** A sighting at (0, 0) has no position: it leaves a known one alone in the table
      and in the mirror. Any other sighting's position replaces it. */
  lemma PositionKept(t: Table, m: Mirror, n: Node)
    requires n.fullKey in t && n.prefix in m
    ensures var row, was := Upserted(t, n)[n.fullKey], t[n.fullKey];
            if n.lat == 0 && n.lon == 0 then row.lat == was.lat && row.lon == was.lon
            else row.lat == Some(n.lat) && row.lon == Some(n.lon)
    ensures var node, was := Merged(m, n)[n.prefix], m[n.prefix];
            if n.lat == 0 && n.lon == 0 then node.lat == was.lat && node.lon == was.lon
            else node.lat == n.lat && node.lon == n.lon
  {
  }

  /** Signal and hops are taken over when carried and kept when not; everything else
      but the first sighting's date is the latest sighting's. No other entry changes. */
  lemma SightingTakenOver(t: Table, m: Mirror, n: Node)
    requires n.fullKey in t && n.prefix in m
    ensures var row, was := Upserted(t, n)[n.fullKey], t[n.fullKey];
            && (n.snr.Some? ==> row.snr == n.snr) && (n.snr.None? ==> row.snr == was.snr)
            && (n.rssi.Some? ==> row.rssi == n.rssi) && (n.rssi.None? ==> row.rssi == was.rssi)
            && (n.hops.Some? ==> row.hops == n.hops) && (n.hops.None? ==> row.hops == was.hops)
            && row.name == n.name && row.advType == n.advType && row.prefix == n.prefix
            && row.lastSeen == n.lastSeen && row.firstSeen == was.firstSeen && row.sightings == was.sightings + 1
    ensures var node, was := Merged(m, n)[n.prefix], m[n.prefix];
            && (n.snr.Some? ==> node.snr == n.snr) && (n.snr.None? ==> node.snr == was.snr)
            && (n.rssi.Some? ==> node.rssi == n.rssi) && (n.rssi.None? ==> node.rssi == was.rssi)
            && (n.hops.Some? ==> node.hops == n.hops) && (n.hops.None? ==> node.hops == was.hops)
            && node.name == n.name && node.advType == n.advType && node.fullKey == n.fullKey
            && node.isRepeater == n.isRepeater && node.lastSeen == n.lastSeen
    ensures forall k :: k != n.fullKey ==>
              (k in Upserted(t, n) <==> k in t) && (k in t ==> Upserted(t, n)[k] == t[k])
    ensures forall p :: p != n.prefix ==> (p in Merged(m, n) <==> p in m) && (p in m ==> Merged(m, n)[p] == m[p])
  {
  }

  // ----- histories

  datatype Happening = Sighting(node: Node, written: bool) | Restart

  /** The table, and the table there would be had every write since the last
      restart succeeded. */
  datatype Tables = Tables(actual: Table, intended: Table)

  function TablesAfter(h: seq<Happening>): Tables {
    if h == [] then Tables(map[], map[])
    else
      var t := TablesAfter(h[..|h| - 1]);
      match h[|h| - 1]
      case Sighting(n, written) =>
        Tables(if written then Upserted(t.actual, n) else t.actual, Upserted(t.intended, n))
      case Restart => Tables(t.actual, t.actual)
  }

  /** The mirrors a daemon may hold: one before each happening and one at the end. */
  ghost predicate Run(h: seq<Happening>, mirrors: seq<Mirror>) {
    && |mirrors| == |h| + 1 && mirrors[0] == map[]
    && forall i :: 0 <= i < |h| ==> MirrorStep(TablesAfter(h[..i]).actual, h[i], mirrors[i], mirrors[i + 1])
  }

  ghost predicate MirrorStep(table: Table, what: Happening, m: Mirror, m': Mirror) {
    match what
    case Sighting(n, _) => m' == Merged(m, n)
    case Restart => Loads(table, m')
  }

  /** No two of `keys` share a prefix. */
  ghost predicate OwnPrefixes(keys: set<string>) {
    forall a, b :: a in keys && b in keys && KeyPrefix(a) == KeyPrefix(b) ==> a == b
  }

  /** Every sighting is of one of `keys`, with the prefix and the repeater flag the
      decoder derives. */
  ghost predicate DecodedFrom(h: seq<Happening>, keys: set<string>) {
    forall i :: 0 <= i < |h| && h[i].Sighting? ==> Decoded(h[i].node, keys)
  }

  ghost predicate AllWritten(h: seq<Happening>) {
    forall i :: 0 <= i < |h| && h[i].Sighting? ==> h[i].written
  }

  ghost predicate Decoded(n: Node, keys: set<string>) {
    n.fullKey in keys && n.prefix == KeyPrefix(n.fullKey) && (n.isRepeater <==> n.advType == 2)
  }

  ghost predicate TableFrom(t: Table, keys: set<string>) {
    forall k :: k in t ==> k in keys && t[k].prefix == KeyPrefix(k)
  }

  lemma {:induction false} TablesFrom(h: seq<Happening>, keys: set<string>)
    requires DecodedFrom(h, keys)
    ensures TableFrom(TablesAfter(h).actual, keys) && TableFrom(TablesAfter(h).intended, keys)
  {
    if h != [] {
      TablesFrom(h[..|h| - 1], keys);
    }
  }

  lemma LoadedEntry(t: Table, m: Mirror, keys: set<string>, k: string)
    requires TableFrom(t, keys) && Loads(t, m) && k in keys
    requires OwnPrefixes(keys)
    ensures KeyPrefix(k) in m <==> k in t
    ensures k in t ==> m[KeyPrefix(k)] == FromRow(k, t[k])
  {
  }

  lemma MergedNodeIsRow(n: Node, key: string, r: Row)
    requires n.fullKey == key && n.prefix == r.prefix && (n.isRepeater <==> n.advType == 2)
    ensures FromRow(key, MergedRow(n, r)) == MergedNode(n, FromRow(key, r))
    ensures FromRow(key, NewRow(n)) == n
  {
  }

  lemma MergeLoads(t: Table, m: Mirror, n: Node)
    requires Loads(t, m) && (n.prefix in m <==> n.fullKey in t) && (n.isRepeater <==> n.advType == 2)
    requires n.fullKey in t ==> t[n.fullKey].prefix == n.prefix && m[n.prefix] == FromRow(n.fullKey, t[n.fullKey])
    ensures Loads(Upserted(t, n), Merged(m, n))
  {
    var t', m' := Upserted(t, n), Merged(m, n);
    MergedNodeIsRow(n, n.fullKey, if n.fullKey in t then t[n.fullKey] else NewRow(n));
    assert m'[n.prefix] == FromRow(n.fullKey, t'[n.fullKey]);
    forall p | p in m' ensures exists k :: k in t' && t'[k].prefix == p && m'[p] == FromRow(k, t'[k]) {
      if p == n.prefix {
        assert t'[n.fullKey].prefix == p;
      } else {
        var k :| k in t && t[k].prefix == p && m[p] == FromRow(k, t[k]);
        assert t'[k] == t[k];
      }
    }
  }

  /** Merging a sighting into the mirror is what upserting it into the table and
      loading everything again would give. */
  lemma MergeIsUpsert(t: Table, m: Mirror, keys: set<string>, n: Node)
    requires TableFrom(t, keys) && Loads(t, m) && Decoded(n, keys)
    requires OwnPrefixes(keys)
    ensures Loads(Upserted(t, n), Merged(m, n))
  {
    LoadedEntry(t, m, keys, n.fullKey);
    MergeLoads(t, m, n);
  }

  /** After any history of sightings, failed writes and restarts, the mirror is
      exactly what loading the intended table gives. */
  lemma {:induction false} MirrorTracksIntended(h: seq<Happening>, mirrors: seq<Mirror>, keys: set<string>)
    requires OwnPrefixes(keys) && DecodedFrom(h, keys) && Run(h, mirrors)
    ensures Loads(TablesAfter(h).intended, mirrors[|h|])
  {
    if h != [] {
      var n := |h| - 1;
      assert forall i :: 0 <= i < n ==> h[..n][..i] == h[..i];
      MirrorTracksIntended(h[..n], mirrors[..n + 1], keys);
      TablesFrom(h[..n], keys);
      assert MirrorStep(TablesAfter(h[..n]).actual, h[n], mirrors[n], mirrors[n + 1]);
      if h[n].Sighting? {
        MergeIsUpsert(TablesAfter(h[..n]).intended, mirrors[n], keys, h[n].node);
      }
    }
  }

  lemma {:induction false} NoFailureNoDifference(h: seq<Happening>)
    requires AllWritten(h)
    ensures TablesAfter(h).intended == TablesAfter(h).actual
  {
    if h != [] {
      NoFailureNoDifference(h[..|h| - 1]);
    }
  }

  /** The refinement: while writes succeed, the mirror at any moment is the one
      and only result a restart at that moment would load. */
  lemma MirrorIsReload(h: seq<Happening>, mirrors: seq<Mirror>, keys: set<string>, reloaded: Mirror)
    requires OwnPrefixes(keys) && DecodedFrom(h, keys) && Run(h, mirrors)
    requires AllWritten(h)
    ensures Loads(TablesAfter(h).actual, reloaded) <==> reloaded == mirrors[|h|]
  {
    var t, m := TablesAfter(h).actual, mirrors[|h|];
    MirrorTracksIntended(h, mirrors, keys);
    NoFailureNoDifference(h);
    TablesFrom(h, keys);
    if Loads(t, reloaded) {
      forall p | p in m || p in reloaded ensures p in m && p in reloaded && m[p] == reloaded[p] {
        var k :| k in t && t[k].prefix == p;
        LoadedEntry(t, m, keys, k);
        LoadedEntry(t, reloaded, keys, k);
      }
      assert m == reloaded;
    }
  }

  /** Two sightings, both written, of nodes whose keys share a prefix: the mirror
      lends the first node's position to the second, which a reload never does. */
  lemma SharedPrefixDiverges(a: Node, b: Node)
    requires a.prefix == b.prefix && a.fullKey != b.fullKey
    requires (a.lat != 0 || a.lon != 0) && b.lat == 0 && b.lon == 0
    ensures var h := [Sighting(a, true), Sighting(b, true)];
            var mirrors := [map[], Merged(map[], a), Merged(Merged(map[], a), b)];
            Run(h, mirrors) && !Loads(TablesAfter(h).actual, mirrors[2])
  {
    var h := [Sighting(a, true), Sighting(b, true)];
    assert h[..0] == [] && h[..1] == [Sighting(a, true)] && h[..1][..0] == [];
    assert TablesAfter(h[..1]).actual == Upserted(map[], a);
    var t, m := TablesAfter(h).actual, Merged(Merged(map[], a), b);
    assert t == Upserted(Upserted(map[], a), b);
    assert m[b.prefix].fullKey == b.fullKey && HasPosition(m[b.prefix]);
    assert !HasPosition(FromRow(b.fullKey, t[b.fullKey]));
  }

  /** In every history of written sightings from `keys`, restarts included, the
      mirror is one that loading the table gives. */
  ghost predicate AlwaysReload(keys: set<string>) {
    forall h, mirrors :: DecodedFrom(h, keys) && AllWritten(h) && Run(h, mirrors)
      ==> Loads(TablesAfter(h).actual, mirrors[|h|])
  }

  function NodeAt(key: string, lat: int): Node {
    Node(key, KeyPrefix(key), "", 0, false, lat, 0, 0, None, None, None)
  }

  /** The refinement holds of every history exactly when no two keys share a
      prefix. */
  lemma AlwaysReloadIff(keys: set<string>)
    ensures AlwaysReload(keys) <==> OwnPrefixes(keys)
  {
    if OwnPrefixes(keys) {
      forall h, mirrors | DecodedFrom(h, keys) && AllWritten(h) && Run(h, mirrors)
        ensures Loads(TablesAfter(h).actual, mirrors[|h|])
      {
        MirrorIsReload(h, mirrors, keys, mirrors[|h|]);
      }
    } else {
      var a, b :| a in keys && b in keys && KeyPrefix(a) == KeyPrefix(b) && a != b;
      var n, m := NodeAt(a, 1), NodeAt(b, 0);
      SharedPrefixDiverges(n, m);
      var h := [Sighting(n, true), Sighting(m, true)];
      var mirrors: seq<Mirror> := [map[], Merged(map[], n), Merged(Merged(map[], n), m)];
      assert DecodedFrom(h, keys) && AllWritten(h) && Run(h, mirrors);
      assert !Loads(TablesAfter(h).actual, mirrors[|h|]);
    }
  }

  // ----- what the table remembers, stated over the whole history

  /** Did this happening store a sighting of `key`? */
  predicate Stored(what: Happening, key: string) {
    what.Sighting? && what.written && what.node.fullKey == key
  }

  function CountStored(h: seq<Happening>, key: string): nat {
    if h == [] then 0
    else CountStored(h[..|h| - 1], key) + if Stored(h[|h| - 1], key) then 1 else 0
  }

  /** The most recent value any stored sighting of `key` carried. */
  function LastCarried(h: seq<Happening>, key: string, field: Node -> Option<int>): Option<int> {
    if h == [] then None
    else
      var what := h[|h| - 1];
      if Stored(what, key) && field(what.node).Some? then field(what.node)
      else LastCarried(h[..|h| - 1], key, field)
  }

  /** The last stored sighting of `key` that was not at (0, 0). */
  function LastPositioned(h: seq<Happening>, key: string): Option<Node> {
    if h == [] then None
    else
      var what := h[|h| - 1];
      if Stored(what, key) && (what.node.lat != 0 || what.node.lon != 0) then Some(what.node)
      else LastPositioned(h[..|h| - 1], key)
  }

  function LastStored(h: seq<Happening>, key: string): Option<Node> {
    if h == [] then None
    else if Stored(h[|h| - 1], key) then Some(h[|h| - 1].node)
    else LastStored(h[..|h| - 1], key)
  }

  function FirstStored(h: seq<Happening>, key: string): Option<Node> {
    if h == [] then None
    else
      var before := FirstStored(h[..|h| - 1], key);
      if before.Some? then before
      else if Stored(h[|h| - 1], key) then Some(h[|h| - 1].node)
      else None
  }

  /** The table after any history, restarts and failed writes included: one row
      per key ever stored, counting its sightings, dated by the first and the
      last, with the position of the last sighting that was not at (0, 0) and, for
      signal and hops, the last value that was actually carried, however many later
      sightings came without one. */
  lemma {:induction false} TableRemembers(h: seq<Happening>, key: string)
    ensures var t := TablesAfter(h).actual;
            && (key in t <==> CountStored(h, key) > 0)
            && (key in t <==> LastStored(h, key).Some?) && (key in t <==> FirstStored(h, key).Some?)
            && (key in t ==>
                  && t[key].sightings == CountStored(h, key)
                  && t[key].firstSeen == FirstStored(h, key).value.lastSeen
                  && t[key].lastSeen == LastStored(h, key).value.lastSeen
                  && t[key].prefix == LastStored(h, key).value.prefix
                  && t[key].name == LastStored(h, key).value.name
                  && t[key].advType == LastStored(h, key).value.advType
                  && (match LastPositioned(h, key)
                      case None => t[key].lat == None && t[key].lon == None
                      case Some(n) => t[key].lat == Some(n.lat) && t[key].lon == Some(n.lon))
                  && t[key].snr == LastCarried(h, key, (n: Node) => n.snr)
                  && t[key].rssi == LastCarried(h, key, (n: Node) => n.rssi)
                  && t[key].hops == LastCarried(h, key, (n: Node) => n.hops))
            && (key !in t ==> LastPositioned(h, key) == None && forall f :: LastCarried(h, key, f) == None)
  {
    if h != [] {
      TableRemembers(h[..|h| - 1], key);
    }
  }
}
