/**
 Saving and reopening the region hierarchy as an outline: the outline becomes
 regions ("nearest preceding entry one level shallower is the parent") and the
 regions become an outline again. The two maps are inverse exactly on
 well-nested outlines with distinct names, and exactly on acyclic
 configurations without orphans.
 */
module RegionOutline {
  import opened Wrappers
  import opened RegionTree

  function OutlineFromRegions(rs: seq<Region>): Outline {
    ToOutline(Flatten(rs))
  }

  function RegionsFromOutline(o: Outline): (rs: seq<Region>)
    ensures |rs| == |o|
    ensures forall k {:trigger rs[k]} :: 0 <= k < |o| ==> rs[k] == Region(o[k].name, ParentName(o, k))
  {
    seq(|o|, k requires 0 <= k < |o| => Region(o[k].name, ParentName(o, k)))
  }

  /** Entry `m` is the last one before entry `k` that is one level shallower. */
  ghost predicate LastShallower(o: Outline, m: nat, k: nat)
    requires m < k < |o|
  {
    o[m].depth + 1 == o[k].depth && forall j :: m < j < k ==> o[j].depth + 1 != o[k].depth
  }

  /** What is saved of entry `k`: its name, and as parent the name of the last entry
      before it that is one level shallower; no parent exactly when there is none,
      as for every root. */
  lemma SavedRegion(o: Outline, k: nat)
    requires k < |o|
    ensures var r := RegionsFromOutline(o)[k];
            && r.name == o[k].name
            && (r.parent.None? <==> forall m :: 0 <= m < k ==> o[m].depth + 1 != o[k].depth)
            && forall m :: 0 <= m < k && LastShallower(o, m, k) ==> r.parent == Some(o[m].name)
  {
    var p := ParentIndex(o, k);
    forall m | 0 <= m < k && LastShallower(o, m, k) ensures p == m {
      assert o[k].depth - 1 == o[m].depth;
    }
  }

  /** The first index from `j` on whose depth is at most `m`: where a subtree ends. */
  function Skip(o: Outline, j: nat, m: nat): (e: nat)
    requires j <= |o|
    ensures j <= e <= |o|
    ensures e < |o| ==> o[e].depth <= m
    ensures forall k :: j <= k < e ==> o[k].depth > m
    decreases |o| - j
  {
    if j == |o| || o[j].depth <= m then j else Skip(o, j + 1, m)
  }

  /** One past the last entry of the subtree of entry `i`. */
  function SubtreeEnd(o: Outline, i: nat): (e: nat)
    requires i < |o|
    ensures i < e <= |o|
  {
    Skip(o, i + 1, o[i].depth)
  }

  // ----- outline -> regions -> outline

  /** The walk's buffers once the first `i` entries of `o` have been laid out. */
  function UpTo(o: Outline, i: nat): Walk
    requires i <= |o|
  {
    var rs := RegionsFromOutline(o);
    Walk(set k | 0 <= k < i :: o[k].name,
         seq(i, k requires 0 <= k < i => Placed(o[k].depth, rs[k])))
  }

  lemma UpToStep(o: Outline, i: nat)
    requires i < |o| && Distinct(o)
    ensures o[i].name !in UpTo(o, i).visited
    ensures UpTo(o, i + 1) == Walk(UpTo(o, i).visited + {o[i].name},
                                   UpTo(o, i).out + [Placed(o[i].depth, RegionsFromOutline(o)[i])])
  {
  }

  lemma HasParent(o: Outline, k: nat)
    requires WellNested(o) && k < |o| && o[k].depth > 0
    ensures ParentIndex(o, k) >= 0
  {
    assert NoSkip(o, 0);
    Crossing(o, 0, k, o[k].depth - 1);
  }

  /** The children of entry `i` are the entries of its subtree one level deeper. */
  lemma ChildIff(o: Outline, i: nat, j: nat)
    requires WellNested(o) && Distinct(o) && i < |o| && j < |o|
    ensures ParentName(o, j) == Some(o[i].name)
        <==> i < j < SubtreeEnd(o, i) && o[j].depth == o[i].depth + 1
  {
    var p, e := ParentIndex(o, j), SubtreeEnd(o, i);
    if ParentName(o, j) == Some(o[i].name) && e <= j {
      assert p == i;
      if e < j {
        Crossing(o, e, j, o[i].depth);
      }
    }
    if i < j < e && o[j].depth == o[i].depth + 1 {
      assert Nearest(o, j, o[i].depth) == i;
    }
  }

  /** Entry `i` is reached from `j` by climbing from parent to parent. */
  ghost predicate IsAncestor(o: Outline, i: nat, j: nat)
    requires j < |o|
    decreases j
  {
    var p := ParentIndex(o, j);
    p >= 0 && (p == i || IsAncestor(o, i, p))
  }

  /** Subtrees are contiguous: the descendants of an entry are exactly the entries
      after it up to the first that is no deeper. */
  lemma {:induction false} DescendantsContiguous(o: Outline, i: nat, j: nat)
    requires WellNested(o) && i < |o| && j < |o|
    ensures IsAncestor(o, i, j) <==> i < j < SubtreeEnd(o, i)
    decreases j
  {
    var p, e := ParentIndex(o, j), SubtreeEnd(o, i);
    if p >= 0 {
      DescendantsContiguous(o, i, p);
      if i < j < e {
        Crossing(o, i, j, o[j].depth - 1);
      } else if e <= j && i <= p < e && o[e].depth < o[j].depth {
        Crossing(o, e, j, o[j].depth - 1);
      }
    } else if i < j < e {
      Crossing(o, i, j, o[j].depth - 1);
    }
  }

  /** How far the layout has come when the children loop of entry `i` reaches `j`. */
  function Reached(o: Outline, i: nat, j: nat): (r: nat)
    requires i < |o| && j <= |o|
    ensures r <= |o|
  {
    if j <= i then i + 1
    else
      var s, e := Skip(o, j, o[i].depth + 1), SubtreeEnd(o, i);
      if s < e then s else e
  }

  lemma ReachedStep(o: Outline, i: nat, j: nat)
    requires WellNested(o) && Distinct(o) && i < |o| && j < |o|
    ensures if ParentName(o, j) == Some(o[i].name)
            then i < j && o[j].depth == o[i].depth + 1
                 && Reached(o, i, j) == j && Reached(o, i, j + 1) == SubtreeEnd(o, j)
            else Reached(o, i, j) == Reached(o, i, j + 1)
  {
    ChildIff(o, i, j);
    if j == i && i + 1 < |o| {
      assert NoSkip(o, i + 1);
    }
  }

  /** Pushing entry `i` when all before it is laid out completes its subtree. */
  ghost predicate LaysSubtree(o: Outline, i: nat)
    requires i < |o|
  {
    var rs := RegionsFromOutline(o);
    rs[i] in rs && Push(rs, rs[i], o[i].depth, UpTo(o, i)) == UpTo(o, SubtreeEnd(o, i))
  }

  lemma {:induction false} PushLaysSubtree(o: Outline, i: nat)
    requires WellNested(o) && Distinct(o) && i < |o|
    ensures LaysSubtree(o, i)
    decreases |o| - i, 2, 0
  {
    UpToStep(o, i);
    ChildrenLaySubtree(o, i, i + 1);
    LaysFromStart(o, i, 0);
  }

  lemma ChildStep(rs: seq<Region>, parent: string, depth: nat, j: nat, w: Walk, w1: Walk, end: Walk)
    requires j < |rs| && rs[j].parent == Some(parent)
    requires Push(rs, rs[j], depth + 1, w) == w1
    requires PushChildren(rs, parent, depth, j + 1, w1) == end
    ensures PushChildren(rs, parent, depth, j, w) == end
  {
  }

  /** The children loop of entry `i`, from `j` on, completes the subtree of `i`. */
  ghost predicate LaysFrom(o: Outline, i: nat, j: nat)
    requires i < |o| && j <= |o|
  {
    PushChildren(RegionsFromOutline(o), o[i].name, o[i].depth, j, UpTo(o, Reached(o, i, j)))
    == UpTo(o, SubtreeEnd(o, i))
  }

  lemma {:induction false} LaysOneBefore(o: Outline, i: nat, j: nat)
    requires WellNested(o) && Distinct(o) && i < j < |o| && LaysFrom(o, i, j + 1)
    ensures LaysFrom(o, i, j)
    decreases |o| - i, 0, 0
  {
    var rs := RegionsFromOutline(o);
    ReachedStep(o, i, j);
    if ParentName(o, j) == Some(o[i].name) {
      PushLaysSubtree(o, j);
      ChildStep(rs, o[i].name, o[i].depth, j, UpTo(o, j), UpTo(o, SubtreeEnd(o, j)), UpTo(o, SubtreeEnd(o, i)));
    }
  }

  lemma {:induction false} ChildrenLaySubtree(o: Outline, i: nat, j: nat)
    requires WellNested(o) && Distinct(o) && i < |o| && i < j <= |o|
    ensures LaysFrom(o, i, j)
    decreases |o| - i, 1, |o| - j
  {
    if j < |o| {
      ChildrenLaySubtree(o, i, j + 1);
      LaysOneBefore(o, i, j);
    } else {
      assert Reached(o, i, j) == SubtreeEnd(o, i);
    }
  }

  /** No entry up to `i` is a child of `i`. */
  lemma {:induction false} LaysFromStart(o: Outline, i: nat, j: nat)
    requires WellNested(o) && Distinct(o) && i < |o| && j <= i + 1 && LaysFrom(o, i, i + 1)
    ensures LaysFrom(o, i, j)
    decreases i + 1 - j
  {
    if j <= i {
      LaysFromStart(o, i, j + 1);
      ReachedStep(o, i, j);
      assert RegionsFromOutline(o)[j].parent != Some(o[i].name);
    }
  }

  lemma RootIff(o: Outline, j: nat)
    requires WellNested(o) && j < |o|
    ensures IsRoot(RegionsFromOutline(o), RegionsFromOutline(o)[j]) <==> o[j].depth == 0
  {
    var rs := RegionsFromOutline(o);
    if o[j].depth > 0 {
      HasParent(o, j);
      assert rs[ParentIndex(o, j)] in rs;
    }
  }

  /** The roots loop, from `j` on, completes the outline. */
  ghost predicate RootsLayFrom(o: Outline, j: nat)
    requires j <= |o|
  {
    PushRoots(RegionsFromOutline(o), j, UpTo(o, Skip(o, j, 0))) == UpTo(o, |o|)
  }

  lemma RootStep(rs: seq<Region>, j: nat, w: Walk, w1: Walk, end: Walk)
    requires j < |rs| && IsRoot(rs, rs[j]) && Push(rs, rs[j], 0, w) == w1 && PushRoots(rs, j + 1, w1) == end
    ensures PushRoots(rs, j, w) == end
  {
  }

  lemma RootsOneBefore(o: Outline, j: nat)
    requires WellNested(o) && Distinct(o) && j < |o| && RootsLayFrom(o, j + 1)
    ensures RootsLayFrom(o, j)
  {
    RootIff(o, j);
    if o[j].depth == 0 {
      PushLaysSubtree(o, j);
      RootStep(RegionsFromOutline(o), j, UpTo(o, j), UpTo(o, SubtreeEnd(o, j)), UpTo(o, |o|));
    }
  }

  lemma {:induction false} RootsLayOutline(o: Outline, j: nat)
    requires WellNested(o) && Distinct(o) && j <= |o|
    ensures RootsLayFrom(o, j)
    decreases |o| - j
  {
    if j < |o| {
      RootsLayOutline(o, j + 1);
      RootsOneBefore(o, j);
    }
  }

  /** Saving an outline and reopening it gives it back, entry for entry, exactly
      when it is well nested and no name is used twice. */
  lemma OutlineRoundTrip(o: Outline)
    ensures OutlineFromRegions(RegionsFromOutline(o)) == o <==> WellNested(o) && Distinct(o)
  {
    FlattenAnyConfig(RegionsFromOutline(o));
    if WellNested(o) && Distinct(o) {
      if |o| > 0 {
        assert NoSkip(o, 0);
      }
      assert UpTo(o, 0) == Walk({}, []);
      RootsLayOutline(o, 0);
      assert OutlineFromRegions(RegionsFromOutline(o)) == o;
    }
  }

  /** One save-and-reopen always reaches a fixpoint, whatever the outline was. */
  lemma RoundTripIsIdempotent(o: Outline)
    ensures var once := OutlineFromRegions(RegionsFromOutline(o));
            WellNested(once) && Distinct(once) && OutlineFromRegions(RegionsFromOutline(once)) == once
  {
    FlattenAnyConfig(RegionsFromOutline(o));
    OutlineRoundTrip(OutlineFromRegions(RegionsFromOutline(o)));
  }

  // ----- any outline with distinct names, well nested or not, survives

  lemma {:induction false} SavedIsRooted(o: Outline, k: nat)
    requires k < |o|
    ensures RootedIn(RegionsFromOutline(o), RegionsFromOutline(o)[k], k)
    decreases k
  {
    var rs, p := RegionsFromOutline(o), ParentIndex(o, k);
    if p >= 0 {
      SavedIsRooted(o, p);
      RootedInMore(rs, rs[p], p, k - 1);
      RootedStep(rs, rs[k], rs[p], k - 1);
    }
  }

  lemma {:induction false} RootedInMore(rs: seq<Region>, r: Region, n: nat, m: nat)
    requires n <= m && RootedIn(rs, r, n)
    ensures RootedIn(rs, r, m)
    decreases n
  {
    if !IsRoot(rs, r) {
      var q :| q in rs && r.parent == Some(q.name) && RootedIn(rs, q, n - 1);
      RootedInMore(rs, q, n - 1, m - 1);
    }
  }

  function OutlineNames(o: Outline): set<string> {
    set e | e in o :: e.name
  }

  lemma {:induction false} DistinctCount(o: Outline)
    requires Distinct(o)
    ensures |OutlineNames(o)| == |o|
  {
    if |o| > 0 {
      var n := |o| - 1;
      DistinctCount(o[..n]);
      assert o == o[..n] + [o[n]];
      assert OutlineNames(o) == OutlineNames(o[..n]) + {o[n].name};
      assert forall e :: e in o[..n] ==> e.name != o[n].name;
    }
  }

  lemma SurvivorNames(o: Outline)
    requires Distinct(o)
    ensures OutlineNames(OutlineFromRegions(RegionsFromOutline(o))) == OutlineNames(o)
  {
    var rs := RegionsFromOutline(o);
    var out, again := Flatten(rs), OutlineFromRegions(rs);
    FlattenAnyConfig(rs);
    forall k | 0 <= k < |o| ensures o[k].name in OutlineNames(again) {
      SavedIsRooted(o, k);
      FlattenExact(rs, rs[k]);
      var j :| 0 <= j < |out| && out[j].region == rs[k];
      assert again[j] in again;
    }
    forall j | 0 <= j < |again| ensures again[j].name in OutlineNames(o) {
      var k :| 0 <= k < |o| && rs[k] == out[j].region;
      assert o[k] in o;
    }
  }

  /** No entry of an outline with distinct names is lost by a save and reopen,
      even when unindenting or reordering left it malformed: the same names come
      back, once each, and each shows the parent that was saved. */
  lemma AnyOutlineSurvives(o: Outline)
    requires Distinct(o)
    ensures var again := OutlineFromRegions(RegionsFromOutline(o));
            && |again| == |o|
            && OutlineNames(again) == OutlineNames(o)
            && forall k, j :: 0 <= k < |o| && 0 <= j < |again| && again[j].name == o[k].name
                 ==> ParentName(again, j) == ParentName(o, k)
  {
    var rs := RegionsFromOutline(o);
    var out, again := Flatten(rs), OutlineFromRegions(rs);
    FlattenAnyConfig(rs);
    SurvivorNames(o);
    DistinctCount(o);
    DistinctCount(again);
    forall k, j | 0 <= k < |o| && 0 <= j < |again| && again[j].name == o[k].name
      ensures ParentName(again, j) == ParentName(o, k)
    {
      SameName(rs, out[j].region, rs[k]);
      SavedParentShown(o, k);
    }
  }

  lemma SavedParentShown(o: Outline, k: nat)
    requires k < |o|
    ensures ShownParent(RegionsFromOutline(o), RegionsFromOutline(o)[k]) == ParentName(o, k)
  {
    var rs, p := RegionsFromOutline(o), ParentIndex(o, k);
    if p >= 0 {
      assert rs[p] in rs;
    }
  }

  // ----- regions -> outline -> regions

  /** Every parent is configured and no chain of parents runs into a cycle. */
  ghost predicate CleanConfig(rs: seq<Region>) {
    forall r :: r in rs ==> Rooted(rs, r) && ShownParent(rs, r) == r.parent
  }

  /** Opening and saving a configuration with distinct names, untouched, keeps
      every (name, parent) pair and adds none exactly when it has no orphan and
      no cycle. */
  lemma RegionRoundTrip(rs: seq<Region>)
    requires DistinctNames(rs)
    ensures (set r | r in RegionsFromOutline(OutlineFromRegions(rs))) == (set r | r in rs)
        <==> CleanConfig(rs)
  {
    var out, o := Flatten(rs), OutlineFromRegions(rs);
    var saved := RegionsFromOutline(o);
    FlattenAnyConfig(rs);
    forall k | 0 <= k < |o|
      ensures saved[k] == Region(out[k].region.name, ShownParent(rs, out[k].region))
    {
      assert ParentName(o, k) == ShownParent(rs, out[k].region);
    }
    var before, after := set r | r in rs, set r | r in saved;
    if before == after {
      forall r | r in rs ensures Rooted(rs, r) && ShownParent(rs, r) == r.parent {
        assert r in after;
        var k :| 0 <= k < |o| && saved[k] == r;
        SameName(rs, out[k].region, r);
      }
    }
    if CleanConfig(rs) {
      forall r | r in rs ensures r in after {
        FlattenExact(rs, r);
        var k :| 0 <= k < |out| && out[k].region == r;
        assert saved[k] == r;
      }
      forall r | r in saved ensures r in before {
        var k :| 0 <= k < |o| && saved[k] == r;
        assert out[k].region in rs;
      }
      assert before == after;
    }
  }
}
