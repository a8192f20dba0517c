/**
 The region hierarchy: a configured forest in which every region names its
 parent, and the depth-first walk that lays it out for display.

 The walk is stated twice: `Push`/`PushChildren`/`PushRoots` are its meaning as
 functions, `TreeWalk` is the in-place version with its `visited` and `out`
 buffers, proved to compute that meaning.
 */
module RegionTree {
  import opened Wrappers

  /** A configured region; `parent` is the parent's name. */
  datatype Region = Region(name: string, parent: Option<string>)

  /** A region laid out at an indentation depth. */
  datatype Placed = Placed(depth: nat, region: Region)

  /** The walk's two buffers. */
  datatype Walk = Walk(visited: set<string>, out: seq<Placed>)

  function Names(rs: seq<Region>): set<string> {
    set r | r in rs :: r.name
  }

  ghost predicate DistinctNames(rs: seq<Region>) {
    forall i, j :: 0 <= i < j < |rs| ==> rs[i].name != rs[j].name
  }

  /** A root: no parent, or a parent that is not configured (an orphan). */
  predicate IsRoot(rs: seq<Region>, r: Region): (root: bool)
    ensures root <==> r.parent.None? || forall q :: q in rs ==> q.name != r.parent.value
  {
    r.parent.None? || r.parent.value !in Names(rs)
  }

  /** The parent the layout shows: an orphan is shown as a root. */
  function ShownParent(rs: seq<Region>, r: Region): Option<string> {
    if IsRoot(rs, r) then None else r.parent
  }

  /** The chain of parents of `r` reaches a root or an orphan in at most `n` steps. */
  ghost predicate RootedIn(rs: seq<Region>, r: Region, n: nat)
    decreases n
  {
    IsRoot(rs, r)
    || (n > 0 && exists q {:trigger RootedIn(rs, q, n - 1)} ::
          q in rs && r.parent == Some(q.name) && RootedIn(rs, q, n - 1))
  }

  lemma RootedStep(rs: seq<Region>, r: Region, q: Region, n: nat)
    requires q in rs && r.parent == Some(q.name) && RootedIn(rs, q, n)
    ensures RootedIn(rs, r, n + 1)
  {
  }

  ghost predicate Rooted(rs: seq<Region>, r: Region) {
    exists n: nat :: RootedIn(rs, r, n)
  }

  // ----- the walk as functions

  function Push(rs: seq<Region>, r: Region, depth: nat, w: Walk): (w': Walk)
    requires r in rs
    ensures w.visited <= w'.visited && r.name in w'.visited
    decreases Names(rs) - w.visited, 0
  {
    if r.name in w.visited then w
    else PushChildren(rs, r.name, depth, 0, Walk(w.visited + {r.name}, w.out + [Placed(depth, r)]))
  }

  function PushChildren(rs: seq<Region>, parent: string, depth: nat, j: nat, w: Walk): (w': Walk)
    requires j <= |rs|
    ensures w.visited <= w'.visited
    decreases Names(rs) - w.visited, |rs| - j
  {
    if j == |rs| then w
    else if rs[j].parent == Some(parent) then
      PushChildren(rs, parent, depth, j + 1, Push(rs, rs[j], depth + 1, w))
    else
      PushChildren(rs, parent, depth, j + 1, w)
  }

  function PushRoots(rs: seq<Region>, j: nat, w: Walk): Walk
    requires j <= |rs|
    decreases |rs| - j
  {
    if j == |rs| then w
    else if IsRoot(rs, rs[j]) then PushRoots(rs, j + 1, Push(rs, rs[j], 0, w))
    else PushRoots(rs, j + 1, w)
  }

  function Flatten(rs: seq<Region>): seq<Placed> {
    PushRoots(rs, 0, Walk({}, [])).out
  }

  // ----- the walk in place

  /** `flatten_region_tree` with its visited-name guard and output vector. */
  class TreeWalk {
    const regions: seq<Region>
    var visited: set<string>
    var out: seq<Placed>

    function State(): Walk
      reads this
    {
      Walk(visited, out)
    }

    constructor (regions: seq<Region>)
      ensures this.regions == regions && State() == Walk({}, [])
    {
      this.regions := regions;
      visited, out := {}, [];
    }

    method PushWithChildren(region: Region, depth: nat)
      requires region in regions
      modifies this
      ensures State() == Push(regions, region, depth, old(State()))
      decreases Names(regions) - visited
    {
      if region.name in visited {
        return;
      }
      visited := visited + {region.name};
      out := out + [Placed(depth, region)];
      for j := 0 to |regions|
        invariant old(visited) + {region.name} <= visited
        invariant PushChildren(regions, region.name, depth, j, State())
               == Push(regions, region, depth, old(State()))
      {
        if regions[j].parent == Some(region.name) {
          PushWithChildren(regions[j], depth + 1);
        }
      }
    }

    method FlattenRegionTree()
      requires State() == Walk({}, [])
      modifies this
      ensures out == Flatten(regions)
    {
      for j := 0 to |regions|
        invariant PushRoots(regions, j, State()) == PushRoots(regions, 0, Walk({}, []))
      {
        if IsRoot(regions, regions[j]) {
          PushWithChildren(regions[j], 0);
        }
      }
    }
  }

  // ----- completeness: whatever is visited has its children visited

  /** Every child of a name visited between `w` and `w'` is itself visited. */
  ghost predicate Closes(rs: seq<Region>, w: Walk, w': Walk) {
    forall q :: q in rs && q.parent.Some? && q.parent.value in w'.visited && q.parent.value !in w.visited
      ==> q.name in w'.visited
  }

  lemma {:induction false} PushCloses(rs: seq<Region>, r: Region, depth: nat, w: Walk)
    requires r in rs
    ensures Closes(rs, w, Push(rs, r, depth, w))
    decreases Names(rs) - w.visited, 0
  {
    if r.name !in w.visited {
      PushChildrenCloses(rs, r.name, depth, 0, Walk(w.visited + {r.name}, w.out + [Placed(depth, r)]));
    }
  }

  lemma {:induction false} PushChildrenCloses(rs: seq<Region>, parent: string, depth: nat, j: nat, w: Walk)
    requires j <= |rs|
    ensures Closes(rs, w, PushChildren(rs, parent, depth, j, w))
    ensures forall k :: j <= k < |rs| && rs[k].parent == Some(parent)
              ==> rs[k].name in PushChildren(rs, parent, depth, j, w).visited
    decreases Names(rs) - w.visited, |rs| - j
  {
    if j < |rs| {
      if rs[j].parent == Some(parent) {
        PushCloses(rs, rs[j], depth + 1, w);
        PushChildrenCloses(rs, parent, depth, j + 1, Push(rs, rs[j], depth + 1, w));
      } else {
        PushChildrenCloses(rs, parent, depth, j + 1, w);
      }
    }
  }

  lemma {:induction false} PushRootsCloses(rs: seq<Region>, j: nat, w: Walk)
    requires j <= |rs|
    ensures Closes(rs, w, PushRoots(rs, j, w))
    ensures w.visited <= PushRoots(rs, j, w).visited
    ensures forall k :: j <= k < |rs| && IsRoot(rs, rs[k]) ==> rs[k].name in PushRoots(rs, j, w).visited
    decreases |rs| - j
  {
    if j < |rs| {
      if IsRoot(rs, rs[j]) {
        PushCloses(rs, rs[j], 0, w);
        PushRootsCloses(rs, j + 1, Push(rs, rs[j], 0, w));
      } else {
        PushRootsCloses(rs, j + 1, w);
      }
    }
  }

  lemma {:induction false} RootedIsVisited(rs: seq<Region>, r: Region, n: nat)
    requires r in rs && RootedIn(rs, r, n)
    ensures r.name in PushRoots(rs, 0, Walk({}, [])).visited
    decreases n
  {
    PushRootsCloses(rs, 0, Walk({}, []));
    if !IsRoot(rs, r) {
      var q :| q in rs && r.parent == Some(q.name) && RootedIn(rs, q, n - 1);
      RootedIsVisited(rs, q, n - 1);
    }
  }

  // ----- outlines: the (name, depth) form of a layout

  datatype Entry = Entry(name: string, depth: nat)
  type Outline = seq<Entry>

  function ToOutline(out: seq<Placed>): (o: Outline)
    ensures |o| == |out|
    ensures forall k :: 0 <= k < |o| ==> o[k] == Entry(out[k].region.name, out[k].depth)
  {
    seq(|out|, k requires 0 <= k < |out| => Entry(out[k].region.name, out[k].depth))
  }

  /** The nearest entry before `k` at depth `d`, or -1. */
  function Nearest(o: Outline, k: nat, d: nat): (p: int)
    requires k <= |o|
    ensures -1 <= p < k
    ensures p >= 0 ==> o[p].depth == d
    ensures forall m :: p < m < k ==> o[m].depth != d
  {
    if k == 0 then -1 else if o[k - 1].depth == d then k - 1 else Nearest(o, k - 1, d)
  }

  /** The index of an entry's parent: the nearest preceding entry one level shallower. */
  function ParentIndex(o: Outline, k: nat): (p: int)
    requires k < |o|
    ensures -1 <= p < k
  {
    if o[k].depth == 0 then -1 else Nearest(o, k, o[k].depth - 1)
  }

  function ParentName(o: Outline, k: nat): Option<string>
    requires k < |o|
  {
    var p := ParentIndex(o, k);
    if p < 0 then None else Some(o[p].name)
  }

  /** Entry `k` is at most one level deeper than the one before it; the first is a root. */
  predicate NoSkip(o: Outline, k: nat)
    requires k < |o|
  {
    o[k].depth <= if k == 0 then 0 else o[k - 1].depth + 1
  }

  predicate WellNested(o: Outline) {
    forall k :: 0 <= k < |o| ==> NoSkip(o, k)
  }

  ghost predicate Distinct(o: Outline) {
    forall i, j :: 0 <= i < j < |o| ==> o[i].name != o[j].name
  }

  lemma {:induction false} NearestOfPrefix(o: Outline, o': Outline, k: nat, d: nat)
    requires k <= |o| && o <= o'
    ensures Nearest(o, k, d) == Nearest(o', k, d)
  {
  }

  /** Depths rise one step at a time, so climbing from depth <= d past d meets d. */
  lemma {:induction false} Crossing(o: Outline, a: nat, k: nat, d: nat)
    requires WellNested(o) && a < k < |o|
    requires o[a].depth <= d < o[k].depth
    ensures Nearest(o, k, d) >= a
  {
    if o[k - 1].depth != d {
      assert NoSkip(o, k);
      Crossing(o, a, k - 1, d);
    }
  }

  // ----- the layout of any configuration is well nested and shows every parent

  function OutNames(out: seq<Placed>): set<string> {
    set p | p in out :: p.region.name
  }

  lemma OutNamesAppend(out: seq<Placed>, p: Placed)
    ensures OutNames(out + [p]) == OutNames(out) + {p.region.name}
  {
  }

  /** What the walk's output satisfies at every moment. */
  ghost predicate Good(rs: seq<Region>, w: Walk) {
    var o := ToOutline(w.out);
    && Distinct(o)
    && w.visited == OutNames(w.out)
    && WellNested(o)
    && (forall k :: 0 <= k < |o| ==> w.out[k].region in rs && Rooted(rs, w.out[k].region))
    && (forall k {:trigger ParentName(o, k)} :: 0 <= k < |o| ==> ParentName(o, k) == ShownParent(rs, w.out[k].region))
  }

  /** The name of the last entry at depth `d`. */
  function LastAt(w: Walk, d: nat): Option<string> {
    var o := ToOutline(w.out);
    var p := Nearest(o, |o|, d);
    if p < 0 then None else Some(o[p].name)
  }

  ghost predicate EndsAtLeast(w: Walk, d: nat) {
    |w.out| > 0 && w.out[|w.out| - 1].depth >= d
  }

  /** Region `r` may be laid out next at `depth`: its shown parent is in place there. */
  ghost predicate MayPlace(rs: seq<Region>, r: Region, depth: nat, w: Walk) {
    && r in rs && Rooted(rs, r)
    && (depth > 0 ==> EndsAtLeast(w, depth - 1))
    && ShownParent(rs, r) == if depth == 0 then None else LastAt(w, depth - 1)
  }

  lemma AppendKeepsParent(o: Outline, x: Entry, k: nat)
    requires k < |o|
    ensures ParentName(o + [x], k) == ParentName(o, k)
  {
    if o[k].depth > 0 {
      NearestOfPrefix(o, o + [x], k, o[k].depth - 1);
    }
  }

  lemma AppendEntry(o: Outline, x: Entry)
    requires WellNested(o) && Distinct(o)
    requires forall k :: 0 <= k < |o| ==> o[k].name != x.name
    requires x.depth <= if |o| == 0 then 0 else o[|o| - 1].depth + 1
    ensures WellNested(o + [x]) && Distinct(o + [x])
  {
    var o' := o + [x];
    forall k | 0 <= k < |o| ensures NoSkip(o', k) {
      assert NoSkip(o, k);
    }
  }

  lemma PlaceLast(r: Region, depth: nat, w: Walk)
    ensures var w' := Walk(w.visited + {r.name}, w.out + [Placed(depth, r)]);
            && ToOutline(w'.out) == ToOutline(w.out) + [Entry(r.name, depth)]
            && LastAt(w', depth) == Some(r.name)
  {
  }

  lemma PlaceOne(rs: seq<Region>, r: Region, depth: nat, w: Walk)
    requires Good(rs, w) && MayPlace(rs, r, depth, w) && r.name !in w.visited
    ensures Good(rs, Walk(w.visited + {r.name}, w.out + [Placed(depth, r)]))
  {
    var out' := w.out + [Placed(depth, r)];
    var o, x := ToOutline(w.out), Entry(r.name, depth);
    PlaceLast(r, depth, w);
    forall k | 0 <= k < |o| ensures o[k].name != r.name {
      assert w.out[k] in w.out;
    }
    OutNamesAppend(w.out, Placed(depth, r));
    AppendEntry(o, x);
    if depth > 0 {
      NearestOfPrefix(o, o + [x], |o|, depth - 1);
    }
    assert ParentName(o + [x], |o|) == ShownParent(rs, r);
    forall k | 0 <= k < |out'|
      ensures out'[k].region in rs && Rooted(rs, out'[k].region)
      ensures ParentName(o + [x], k) == ShownParent(rs, out'[k].region)
    {
      if k < |o| {
        assert out'[k] == w.out[k];
        AppendKeepsParent(o, x, k);
        assert ParentName(o, k) == ShownParent(rs, w.out[k].region);
      }
    }
  }

  lemma ChildIsRooted(rs: seq<Region>, parent: string, child: Region, w: Walk, d: nat)
    requires Good(rs, w) && LastAt(w, d) == Some(parent) && child.parent == Some(parent)
    ensures Rooted(rs, child) && ShownParent(rs, child) == Some(parent)
  {
    var o := ToOutline(w.out);
    var q := w.out[Nearest(o, |o|, d)].region;
    assert q in rs && q.name == parent;
    var n: nat :| RootedIn(rs, q, n);
    RootedStep(rs, child, q, n);
  }

  /** `w'` continues the layout `w` with entries at depth `d` or deeper. */
  ghost predicate Appends(w: Walk, w': Walk, d: nat) {
    w.out <= w'.out && forall k :: |w.out| <= k < |w'.out| ==> w'.out[k].depth >= d
  }

  lemma {:induction false} PushAppends(rs: seq<Region>, r: Region, depth: nat, w: Walk)
    requires r in rs
    ensures Appends(w, Push(rs, r, depth, w), depth)
    decreases Names(rs) - w.visited, 0
  {
    if r.name !in w.visited {
      PushChildrenAppends(rs, r.name, depth, 0, Walk(w.visited + {r.name}, w.out + [Placed(depth, r)]));
    }
  }

  lemma {:induction false} PushChildrenAppends(rs: seq<Region>, parent: string, depth: nat, j: nat, w: Walk)
    requires j <= |rs|
    ensures Appends(w, PushChildren(rs, parent, depth, j, w), depth + 1)
    decreases Names(rs) - w.visited, |rs| - j
  {
    if j < |rs| {
      if rs[j].parent == Some(parent) {
        PushAppends(rs, rs[j], depth + 1, w);
        PushChildrenAppends(rs, parent, depth, j + 1, Push(rs, rs[j], depth + 1, w));
      } else {
        PushChildrenAppends(rs, parent, depth, j + 1, w);
      }
    }
  }

  lemma AppendsKeepAncestors(w: Walk, w': Walk, d: nat)
    requires Appends(w, w', d + 1) && EndsAtLeast(w, d)
    ensures LastAt(w', d) == LastAt(w, d) && EndsAtLeast(w', d)
  {
  }

  lemma {:induction false} PushIsGood(rs: seq<Region>, r: Region, depth: nat, w: Walk, w': Walk)
    requires Good(rs, w) && MayPlace(rs, r, depth, w) && w' == Push(rs, r, depth, w)
    ensures Good(rs, w')
    decreases Names(rs) - w.visited, 0
  {
    if r.name !in w.visited {
      PlaceOne(rs, r, depth, w);
      PlaceLast(r, depth, w);
      PushChildrenIsGood(rs, r.name, depth, 0, Walk(w.visited + {r.name}, w.out + [Placed(depth, r)]), w');
    }
  }

  lemma {:induction false} PushChildrenIsGood(rs: seq<Region>, parent: string, depth: nat, j: nat, w: Walk, w': Walk)
    requires j <= |rs| && Good(rs, w) && LastAt(w, depth) == Some(parent) && EndsAtLeast(w, depth)
    requires w' == PushChildren(rs, parent, depth, j, w)
    ensures Good(rs, w')
    decreases Names(rs) - w.visited, |rs| - j
  {
    if j < |rs| {
      if rs[j].parent == Some(parent) {
        PushChildIsGood(rs, parent, depth, j, w, Push(rs, rs[j], depth + 1, w), w');
      } else {
        PushChildrenIsGood(rs, parent, depth, j + 1, w, w');
      }
    }
  }

  lemma {:induction false} PushChildIsGood(
      rs: seq<Region>, parent: string, depth: nat, j: nat, w: Walk, w1: Walk, w': Walk)
    requires j < |rs| && Good(rs, w) && LastAt(w, depth) == Some(parent) && EndsAtLeast(w, depth)
    requires rs[j].parent == Some(parent) && w1 == Push(rs, rs[j], depth + 1, w)
    requires w' == PushChildren(rs, parent, depth, j + 1, w1)
    ensures Good(rs, w')
    decreases Names(rs) - w.visited, |rs| - j, 0
  {
    ChildIsRooted(rs, parent, rs[j], w, depth);
    PushIsGood(rs, rs[j], depth + 1, w, w1);
    PushAppends(rs, rs[j], depth + 1, w);
    AppendsKeepAncestors(w, w1, depth);
    PushChildrenIsGood(rs, parent, depth, j + 1, w1, w');
  }

  lemma {:induction false} PushRootsIsGood(rs: seq<Region>, j: nat, w: Walk)
    requires j <= |rs| && Good(rs, w)
    ensures Good(rs, PushRoots(rs, j, w))
    decreases |rs| - j
  {
    if j < |rs| {
      if IsRoot(rs, rs[j]) {
        assert RootedIn(rs, rs[j], 0);
        PushIsGood(rs, rs[j], 0, w, Push(rs, rs[j], 0, w));
        PushRootsIsGood(rs, j + 1, Push(rs, rs[j], 0, w));
      } else {
        PushRootsIsGood(rs, j + 1, w);
      }
    }
  }

  /** For every configuration, malformed ones included: no name is laid out
      twice, no level is skipped, and the nearest preceding entry one level
      shallower is exactly the parent (none for a root or an orphan). */
  lemma FlattenAnyConfig(rs: seq<Region>)
    ensures var out := Flatten(rs); var o := ToOutline(out);
            && Distinct(o) && WellNested(o)
            && (forall k :: 0 <= k < |out| ==> out[k].region in rs && Rooted(rs, out[k].region))
            && forall k {:trigger ParentName(o, k)} :: 0 <= k < |out| ==>
                 ParentName(o, k) == ShownParent(rs, out[k].region)
  {
    PushRootsIsGood(rs, 0, Walk({}, []));
  }

  lemma SameName(rs: seq<Region>, a: Region, b: Region)
    requires DistinctNames(rs) && a in rs && b in rs && a.name == b.name
    ensures a == b
  {
  }

  /** With distinct names the regions laid out are exactly those whose chain of
      parents ends at a root or an orphan: only regions on a cycle, or below
      one, are left out. */
  lemma FlattenExact(rs: seq<Region>, r: Region)
    requires DistinctNames(rs) && r in rs
    ensures (exists k :: 0 <= k < |Flatten(rs)| && Flatten(rs)[k].region == r) <==> Rooted(rs, r)
  {
    FlattenAnyConfig(rs);
    if Rooted(rs, r) {
      var n: nat :| RootedIn(rs, r, n);
      RootedIsVisited(rs, r, n);
      PushRootsIsGood(rs, 0, Walk({}, []));
      var o := ToOutline(Flatten(rs));
      var p :| p in Flatten(rs) && p.region.name == r.name;
      var k :| 0 <= k < |o| && Flatten(rs)[k] == p;
      SameName(rs, p.region, r);
    }
  }
}
