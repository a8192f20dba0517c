/**
 The order of the layout: siblings, and roots and orphans among themselves, appear
 in the order of the configuration.
 */
module RegionOrder {
  import opened Wrappers
  import opened RegionTree

  /** Where the configuration first lists the region, or its length. */
  function PlaceIn(rs: seq<Region>, r: Region): (i: nat)
    ensures i <= |rs|
    ensures i < |rs| ==> rs[i] == r
    ensures forall j :: 0 <= j < i ==> rs[j] != r
  {
    if rs == [] || rs[0] == r then 0 else 1 + PlaceIn(rs[1..], r)
  }

  /** Of two laid out regions with one shown parent, or none, the one configured
      first comes first. */
  ghost predicate Ordered(rs: seq<Region>, out: seq<Placed>) {
    forall k, l :: 0 <= k < l < |out| && ShownParent(rs, out[k].region) == ShownParent(rs, out[l].region)
      ==> PlaceIn(rs, out[k].region) < PlaceIn(rs, out[l].region)
  }

  /** Every laid out region under `parent` is configured before place `j`. */
  ghost predicate AllBefore(rs: seq<Region>, out: seq<Placed>, parent: Option<string>, j: nat) {
    forall k :: 0 <= k < |out| && ShownParent(rs, out[k].region) == parent ==> PlaceIn(rs, out[k].region) < j
  }

  /** Every region under `parent` configured before place `j` has been visited. */
  ghost predicate DoneBefore(rs: seq<Region>, visited: set<string>, parent: Option<string>, j: nat)
    requires j <= |rs|
  {
    forall i :: 0 <= i < j && ShownParent(rs, rs[i]) == parent ==> rs[i].name in visited
  }

  /** No region is laid out before its shown parent. */
  ghost predicate ParentsVisited(rs: seq<Region>, w: Walk) {
    forall k :: 0 <= k < |w.out| ==>
      var p := ShownParent(rs, w.out[k].region);
      p.Some? ==> p.value in w.visited
  }

  ghost predicate InOrder(rs: seq<Region>, w: Walk) {
    Ordered(rs, w.out) && ParentsVisited(rs, w)
  }

  /** `w'` goes on from `w` with regions under `parent` below place `j`, or under
      regions visited in between. */
  ghost predicate Adds(rs: seq<Region>, w: Walk, w': Walk, parent: Option<string>, j: nat) {
    && w.out <= w'.out && w.visited <= w'.visited
    && forall k :: |w.out| <= k < |w'.out| ==>
         var p := ShownParent(rs, w'.out[k].region);
         || (p == parent && PlaceIn(rs, w'.out[k].region) < j)
         || (p.Some? && p.value in w'.visited && p.value !in w.visited)
  }

  lemma NotYetPlaced(rs: seq<Region>, w: Walk, name: string)
    requires ParentsVisited(rs, w) && name !in w.visited
    ensures AllBefore(rs, w.out, Some(name), 0)
  {
  }

  lemma AddsThenBefore(rs: seq<Region>, w: Walk, w': Walk, parent: Option<string>, j: nat)
    requires Adds(rs, w, w', parent, j) && AllBefore(rs, w.out, parent, j)
    requires parent.Some? ==> parent.value in w.visited
    ensures AllBefore(rs, w'.out, parent, j)
  {
    forall k | 0 <= k < |w'.out| && ShownParent(rs, w'.out[k].region) == parent
      ensures PlaceIn(rs, w'.out[k].region) < j
    {
      if k < |w.out| {
        assert w'.out[k] == w.out[k];
      }
    }
  }

  lemma AddsThenAdds(rs: seq<Region>, w: Walk, w1: Walk, w2: Walk, parent: Option<string>, j: nat, last: nat)
    requires Adds(rs, w, w1, parent, j) && Adds(rs, w1, w2, parent, last) && j <= last
    ensures Adds(rs, w, w2, parent, last)
  {
    forall k | |w.out| <= k < |w1.out| ensures w2.out[k] == w1.out[k] {
    }
  }

  /** The region at place `j` goes after all its laid out siblings. */
  lemma PlaceNext(rs: seq<Region>, j: nat, depth: nat, w: Walk, w': Walk)
    requires j < |rs| && InOrder(rs, w) && rs[j].name !in w.visited
    requires AllBefore(rs, w.out, ShownParent(rs, rs[j]), j) && DoneBefore(rs, w.visited, ShownParent(rs, rs[j]), j)
    requires ShownParent(rs, rs[j]).Some? ==> ShownParent(rs, rs[j]).value in w.visited
    requires w' == Walk(w.visited + {rs[j].name}, w.out + [Placed(depth, rs[j])])
    ensures InOrder(rs, w') && PlaceIn(rs, rs[j]) == j
  {
    var i := PlaceIn(rs, rs[j]);
    assert i <= j && rs[i] == rs[j];
    forall k, l | 0 <= k < l < |w'.out| && ShownParent(rs, w'.out[k].region) == ShownParent(rs, w'.out[l].region)
      ensures PlaceIn(rs, w'.out[k].region) < PlaceIn(rs, w'.out[l].region)
    {
      assert w'.out[k] == w.out[k];
    }
  }

  lemma {:induction false} PushInOrder(rs: seq<Region>, j: nat, depth: nat, w: Walk, w': Walk)
    requires j < |rs| && InOrder(rs, w)
    requires AllBefore(rs, w.out, ShownParent(rs, rs[j]), j) && DoneBefore(rs, w.visited, ShownParent(rs, rs[j]), j)
    requires ShownParent(rs, rs[j]).Some? ==> ShownParent(rs, rs[j]).value in w.visited
    requires w' == Push(rs, rs[j], depth, w)
    ensures InOrder(rs, w') && Adds(rs, w, w', ShownParent(rs, rs[j]), j + 1)
    decreases Names(rs) - w.visited, 0
  {
    var r := rs[j];
    if r.name !in w.visited {
      var w1 := Walk(w.visited + {r.name}, w.out + [Placed(depth, r)]);
      NotYetPlaced(rs, w, r.name);
      PlaceNext(rs, j, depth, w, w1);
      NoSelfParent(rs, r, w);
      assert AllBefore(rs, w1.out, Some(r.name), 0);
      ChildrenInOrder(rs, r.name, depth, 0, w1, w');
      ChildrenUnderNew(rs, w, w1, w', r, j);
    }
  }

  /** A region pushed under its visited parent is not its own parent. */
  lemma NoSelfParent(rs: seq<Region>, r: Region, w: Walk)
    requires r.name !in w.visited
    requires ShownParent(rs, r).Some? ==> ShownParent(rs, r).value in w.visited
    ensures ShownParent(rs, r) != Some(r.name)
  {
  }

  lemma ChildrenUnderNew(rs: seq<Region>, w: Walk, w1: Walk, w': Walk, r: Region, j: nat)
    requires r in rs && r.name !in w.visited && |w1.out| == |w.out| + 1 && w.out <= w1.out
    requires w1.visited == w.visited + {r.name} && w1.out[|w.out|].region == r && PlaceIn(rs, r) == j
    requires Adds(rs, w1, w', Some(r.name), |rs|)
    ensures Adds(rs, w, w', ShownParent(rs, r), j + 1)
  {
    assert w'.out[|w.out|] == w1.out[|w.out|];
  }

  lemma SkipOne(rs: seq<Region>, w: Walk, parent: Option<string>, j: nat)
    requires j < |rs| && ShownParent(rs, rs[j]) != parent
    requires AllBefore(rs, w.out, parent, j) && DoneBefore(rs, w.visited, parent, j)
    ensures AllBefore(rs, w.out, parent, j + 1) && DoneBefore(rs, w.visited, parent, j + 1)
  {
  }

  lemma {:induction false} ChildrenInOrder(rs: seq<Region>, parent: string, depth: nat, j: nat, w: Walk, w': Walk)
    requires j <= |rs| && InOrder(rs, w) && parent in w.visited && parent in Names(rs)
    requires AllBefore(rs, w.out, Some(parent), j) && DoneBefore(rs, w.visited, Some(parent), j)
    requires w' == PushChildren(rs, parent, depth, j, w)
    ensures InOrder(rs, w') && Adds(rs, w, w', Some(parent), |rs|)
    decreases Names(rs) - w.visited, |rs| - j
  {
    if j < |rs| {
      if rs[j].parent == Some(parent) {
        ChildThenRest(rs, parent, depth, j, w, Push(rs, rs[j], depth + 1, w), w');
      } else {
        SkipOne(rs, w, Some(parent), j);
        ChildrenInOrder(rs, parent, depth, j + 1, w, w');
      }
    }
  }

  lemma {:induction false} ChildThenRest(
      rs: seq<Region>, parent: string, depth: nat, j: nat, w: Walk, w1: Walk, w': Walk)
    requires j < |rs| && InOrder(rs, w) && parent in w.visited && parent in Names(rs)
    requires AllBefore(rs, w.out, Some(parent), j) && DoneBefore(rs, w.visited, Some(parent), j)
    requires rs[j].parent == Some(parent) && w1 == Push(rs, rs[j], depth + 1, w)
    requires w' == PushChildren(rs, parent, depth, j + 1, w1)
    ensures InOrder(rs, w') && Adds(rs, w, w', Some(parent), |rs|)
    decreases Names(rs) - w.visited, |rs| - j, 0
  {
    PushInOrder(rs, j, depth + 1, w, w1);
    AddsThenBefore(rs, w, w1, Some(parent), j + 1);
    assert DoneBefore(rs, w1.visited, Some(parent), j + 1);
    ChildrenInOrder(rs, parent, depth, j + 1, w1, w');
    AddsThenAdds(rs, w, w1, w', Some(parent), j + 1, |rs|);
  }

  lemma {:induction false} RootsInOrder(rs: seq<Region>, j: nat, w: Walk)
    requires j <= |rs| && InOrder(rs, w)
    requires AllBefore(rs, w.out, None, j) && DoneBefore(rs, w.visited, None, j)
    ensures InOrder(rs, PushRoots(rs, j, w))
    decreases |rs| - j
  {
    if j < |rs| {
      if IsRoot(rs, rs[j]) {
        var w1 := Push(rs, rs[j], 0, w);
        PushInOrder(rs, j, 0, w, w1);
        AddsThenBefore(rs, w, w1, None, j + 1);
        RootsInOrder(rs, j + 1, w1);
      } else {
        SkipOne(rs, w, None, j);
        RootsInOrder(rs, j + 1, w);
      }
    }
  }

  /** For every configuration: two regions laid out under one parent, or two roots or
      orphans, appear in the order in which they are configured. */
  lemma LayoutInOrder(rs: seq<Region>)
    ensures Ordered(rs, Flatten(rs))
  {
    RootsInOrder(rs, 0, Walk({}, []));
  }
}
