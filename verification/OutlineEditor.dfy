/**
 The interactive hierarchy editor: which key presses keep the outline well
 nested, which entries each of them reparents, and what a whole session saves.
 */
module OutlineEditor {
  import opened Wrappers
  import opened RegionTree
  import opened RegionOutline

  /** The keys that act on the tree. `Add` and `Rename` carry the trimmed text
      the inline editor returned: nothing when it was cancelled or left empty. */
  datatype Key =
    | Up | Down | Indent | Unindent | MoveUp | MoveDown
    | Add(text: Option<string>) | Rename(text: Option<string>) | Delete

  datatype EditState = EditState(outline: Outline, selected: nat) {
    predicate Valid() {
      selected < |outline| || (outline == [] && selected == 0)
    }
  }

  // ----- the edits as functions on outlines

  function ClampIndent(o: Outline, i: nat, deeper: bool): nat
    requires i < |o|
  {
    if deeper then
      var most := if i == 0 then 0 else o[i - 1].depth + 1;
      if o[i].depth + 1 < most then o[i].depth + 1 else most
    else if o[i].depth == 0 then 0
    else o[i].depth - 1
  }

  function Redepth(o: Outline, i: nat, d: nat): Outline
    requires i < |o|
  {
    o[i := Entry(o[i].name, d)]
  }

  function Swapped(o: Outline, i: nat): Outline
    requires i + 1 < |o|
  {
    o[i := o[i + 1]][i + 1 := o[i]]
  }

  function Inserted(o: Outline, at: nat, x: Entry): Outline
    requires at <= |o|
  {
    o[..at] + [x] + o[at..]
  }

  /** A new entry right after entry `at`, at the same depth. */
  function WithSibling(o: Outline, at: nat, name: string): Outline
    requires at < |o|
  {
    Inserted(o, at + 1, Entry(name, o[at].depth))
  }

  /** Entries `a` to `b` one level up. */
  function Promoted(o: Outline, a: nat, b: nat): (r: Outline)
    requires a <= b <= |o|
    requires forall k :: a <= k < b ==> o[k].depth > 0
    ensures |r| == |o|
    ensures forall k {:trigger r[k]} :: 0 <= k < |o| ==>
              r[k] == if a <= k < b then Entry(o[k].name, o[k].depth - 1) else o[k]
  {
    seq(|o|, k requires 0 <= k < |o| => if a <= k < b then Entry(o[k].name, o[k].depth - 1) else o[k])
  }

  function Deleted(o: Outline, i: nat): Outline
    requires i < |o|
  {
    var p := Promoted(o, i + 1, SubtreeEnd(o, i));
    p[..i] + p[i + 1..]
  }

  /** One key press of the editor's loop. */
  function Pressed(s: EditState, key: Key): (s': EditState)
    requires s.Valid()
    ensures s'.Valid()
  {
    var o, at := s.outline, s.selected;
    match key
    case Up => EditState(o, if at > 0 then at - 1 else 0)
    case Down => EditState(o, if at + 1 < |o| then at + 1 else at)
    case Indent => if o == [] then s else EditState(Redepth(o, at, ClampIndent(o, at, true)), at)
    case Unindent => if o == [] then s else EditState(Redepth(o, at, ClampIndent(o, at, false)), at)
    case MoveUp => if at > 0 then EditState(Swapped(o, at - 1), at - 1) else s
    case MoveDown => if at + 1 < |o| then EditState(Swapped(o, at), at + 1) else s
    case Add(None) => s
    case Add(Some(name)) =>
      if o == [] then EditState([Entry(name, 0)], 0)
      else EditState(WithSibling(o, at, name), at + 1)
    case Rename(None) => s
    case Rename(Some(name)) => if o == [] then s else EditState(o[at := Entry(name, o[at].depth)], at)
    case Delete =>
      if o == [] then s
      else
        var o' := Deleted(o, at);
        EditState(o', if at < |o'| then at else if |o'| == 0 then 0 else |o'| - 1)
  }

  function PressedAll(s: EditState, keys: seq<Key>): (s': EditState)
    requires s.Valid()
    ensures s'.Valid()
    decreases |keys|
  {
    if keys == [] then s else PressedAll(Pressed(s, keys[0]), keys[1..])
  }

  // ----- the editor itself

  class Editor {
    const initial: seq<Region>
    var outline: Outline
    var selected: nat

    function State(): EditState
      reads this
    {
      EditState(outline, selected)
    }

    constructor (initial: seq<Region>)
      ensures this.initial == initial
      ensures State() == EditState(OutlineFromRegions(initial), 0) && State().Valid()
    {
      this.initial := initial;
      outline := OutlineFromRegions(initial);
      selected := 0;
    }

    /** `delete_outline_entry`: promotes the subtree entry by entry, then removes. */
    method DeleteEntry(index: nat)
      requires index < |outline|
      modifies this`outline
      ensures outline == Deleted(old(outline), index)
    {
      ghost var o := outline;
      var depth := outline[index].depth;
      var end := index + 1;
      while end < |outline| && outline[end].depth > depth
        invariant index < end <= |outline| == |o|
        invariant end <= SubtreeEnd(o, index)
        invariant outline == Promoted(o, index + 1, end)
      {
        outline := outline[end := Entry(outline[end].name, outline[end].depth - 1)];
        end := end + 1;
      }
      assert end == SubtreeEnd(o, index);
      outline := outline[..index] + outline[index + 1..];
    }

    /** A blank placeholder is inserted first and taken out again if left empty. */
    method AddEntry(text: Option<string>)
      requires State().Valid()
      modifies this
      ensures State() == Pressed(old(State()), Add(text))
    {
      var depth := if selected < |outline| then outline[selected].depth else 0;
      var at := if outline == [] then 0 else selected + 1;
      ghost var before := outline;
      outline := outline[..at] + [Entry("", depth)] + outline[at..];
      selected := at;
      if text.Some? {
        outline := outline[selected := Entry(text.value, outline[selected].depth)];
        assert outline == Inserted(before, at, Entry(text.value, depth));
      } else {
        outline := outline[..selected] + outline[selected + 1..];
        selected := if selected > 0 then selected - 1 else 0;
        assert outline == before;
      }
    }

    method Press(key: Key)
      requires State().Valid()
      modifies this
      ensures State() == Pressed(old(State()), key)
    {
      match key
      case Up =>
        selected := if selected > 0 then selected - 1 else 0;
      case Down =>
        if selected + 1 < |outline| {
          selected := selected + 1;
        }
      case Indent =>
        if outline != [] {
          var d := ClampIndent(outline, selected, true);
          outline := outline[selected := Entry(outline[selected].name, d)];
        }
      case Unindent =>
        if outline != [] {
          var d := ClampIndent(outline, selected, false);
          outline := outline[selected := Entry(outline[selected].name, d)];
        }
      case MoveUp =>
        if selected > 0 {
          outline := outline[selected := outline[selected - 1]][selected - 1 := outline[selected]];
          selected := selected - 1;
        }
      case MoveDown =>
        if selected + 1 < |outline| {
          outline := outline[selected := outline[selected + 1]][selected + 1 := outline[selected]];
          selected := selected + 1;
        }
      case Add(text) =>
        AddEntry(text);
      case Rename(text) =>
        if outline != [] && text.Some? {
          outline := outline[selected := Entry(text.value, outline[selected].depth)];
        }
      case Delete =>
        if outline != [] {
          DeleteEntry(selected);
          if selected >= |outline| {
            selected := if |outline| > 0 then |outline| - 1 else 0;
          }
        }
    }

    /** A whole session: every key, then Enter saves what the outline says, or
        Escape gives the configuration back untouched. */
    method Edit(keys: seq<Key>, confirmed: bool) returns (saved: seq<Region>)
      requires State().Valid()
      modifies this
      ensures State() == PressedAll(old(State()), keys)
      ensures saved == if confirmed then RegionsFromOutline(outline) else initial
    {
      for n := 0 to |keys|
        invariant State().Valid()
        invariant PressedAll(State(), keys[n..]) == PressedAll(old(State()), keys)
      {
        assert keys[n..][0] == keys[n] && keys[n..][1..] == keys[n + 1..];
        Press(keys[n]);
      }
      saved := if confirmed then RegionsFromOutline(outline) else initial;
    }
  }

  // ----- which presses keep the outline well nested

  /** Swapping entries `i` and `i + 1` skips no level. */
  predicate SwapFits(o: Outline, i: nat)
    requires i + 1 < |o|
  {
    && o[i + 1].depth <= (if i == 0 then 0 else o[i - 1].depth + 1)
    && o[i].depth <= o[i + 1].depth + 1
    && (i + 2 < |o| ==> o[i + 2].depth <= o[i].depth + 1)
  }

  /** What a caller can check before a press on a well-nested outline. */
  predicate KeepsNesting(s: EditState, key: Key)
    requires s.Valid()
  {
    var o, at := s.outline, s.selected;
    match key
    case Unindent => o == [] || o[at].depth == 0 || at + 1 == |o| || o[at + 1].depth <= o[at].depth
    case MoveUp => at > 0 ==> SwapFits(o, at - 1)
    case MoveDown => at + 1 < |o| ==> SwapFits(o, at)
    case _ => true
  }

  lemma NestedAt(o: Outline, k: nat)
    requires WellNested(o) && k < |o|
    ensures o[k].depth <= if k == 0 then 0 else o[k - 1].depth + 1
  {
    assert NoSkip(o, k);
  }

  lemma RedepthNesting(o: Outline, i: nat, d: nat)
    requires WellNested(o) && i < |o|
    ensures WellNested(Redepth(o, i, d))
        <==> d <= (if i == 0 then 0 else o[i - 1].depth + 1)
             && (i + 1 < |o| ==> o[i + 1].depth <= d + 1)
  {
    var o' := Redepth(o, i, d);
    forall k | 0 <= k < |o| && k != i && k != i + 1 ensures NoSkip(o', k) {
      assert NoSkip(o, k);
    }
    assert NoSkip(o', i) <==> d <= (if i == 0 then 0 else o[i - 1].depth + 1);
    if i + 1 < |o| {
      assert NoSkip(o', i + 1) <==> o[i + 1].depth <= d + 1;
    }
  }

  lemma SwapNesting(o: Outline, i: nat)
    requires WellNested(o) && i + 1 < |o|
    ensures WellNested(Swapped(o, i)) <==> SwapFits(o, i)
  {
    var o' := Swapped(o, i);
    forall k | 0 <= k < |o| && k != i && k != i + 1 && k != i + 2 ensures NoSkip(o', k) {
      assert NoSkip(o, k);
    }
    assert NoSkip(o', i) <==> o[i + 1].depth <= (if i == 0 then 0 else o[i - 1].depth + 1);
    assert NoSkip(o', i + 1) <==> o[i].depth <= o[i + 1].depth + 1;
    if i + 2 < |o| {
      assert NoSkip(o', i + 2) <==> o[i + 2].depth <= o[i].depth + 1;
    }
  }

  lemma InsertNesting(o: Outline, at: nat, name: string)
    requires WellNested(o) && at < |o|
    ensures WellNested(WithSibling(o, at, name))
  {
    var o' := WithSibling(o, at, name);
    forall k | 0 <= k < |o'| ensures NoSkip(o', k) {
      NestedAt(o, if k <= at then k else if k == at + 1 then at else k - 1);
    }
  }

  lemma DeleteNesting(o: Outline, i: nat)
    requires WellNested(o) && i < |o|
    ensures WellNested(Deleted(o, i))
  {
    var o' := Deleted(o, i);
    forall k | 0 <= k < |o'| ensures NoSkip(o', k) {
      DeletedNoSkip(o, i, k);
    }
  }

  lemma DeletedNoSkip(o: Outline, i: nat, k: nat)
    requires WellNested(o) && i < |o| && k < |Deleted(o, i)|
    ensures NoSkip(Deleted(o, i), k)
  {
    DeletedEntries(o, i);
    NestedAt(o, k);
    NestedAt(o, i);
    if k >= i {
      NestedAt(o, k + 1);
    }
  }

  /** What is left after entry `i` is deleted, place by place. */
  lemma DeletedEntries(o: Outline, i: nat)
    requires i < |o|
    ensures var o', e := Deleted(o, i), SubtreeEnd(o, i);
            && |o'| == |o| - 1
            && (forall m {:trigger o'[m]} :: 0 <= m < i ==> o'[m] == o[m])
            && (forall m {:trigger o'[m]} :: i <= m < e - 1 ==> o'[m] == Entry(o[m + 1].name, o[m + 1].depth - 1))
            && (forall m {:trigger o'[m]} :: e - 1 <= m < |o'| ==> o'[m] == o[m + 1])
  {
  }

  /** Exactly when one key press on a well-nested outline leaves it well nested:
      always, except for unindenting an entry whose children follow it and for
      swaps that would skip a level. */
  lemma PressNesting(s: EditState, key: Key)
    requires s.Valid() && WellNested(s.outline)
    ensures WellNested(Pressed(s, key).outline) <==> KeepsNesting(s, key)
  {
    var o, at := s.outline, s.selected;
    if o == [] {
      match key {
        case Add(Some(name)) => assert NoSkip([Entry(name, 0)], 0);
        case _ =>
      }
    } else {
      NestedAt(o, at);
      if at + 1 < |o| {
        NestedAt(o, at + 1);
      }
      match key {
        case Indent => RedepthNesting(o, at, ClampIndent(o, at, true));
        case Unindent => RedepthNesting(o, at, ClampIndent(o, at, false));
        case MoveUp => if at > 0 { SwapNesting(o, at - 1); }
        case MoveDown => if at + 1 < |o| { SwapNesting(o, at); }
        case Add(Some(name)) => InsertNesting(o, at, name);
        case Rename(Some(name)) => RedepthNesting(o, at, o[at].depth); RenameNesting(o, at, name);
        case Delete => DeleteNesting(o, at);
        case _ =>
      }
    }
  }

  lemma RenameNesting(o: Outline, at: nat, name: string)
    requires WellNested(o) && at < |o|
    ensures WellNested(o[at := Entry(name, o[at].depth)])
  {
    var o' := o[at := Entry(name, o[at].depth)];
    forall k | 0 <= k < |o| ensures NoSkip(o', k) {
      NestedAt(o, k);
    }
  }

  ghost predicate AllKeepNesting(s: EditState, keys: seq<Key>)
    requires s.Valid()
    decreases |keys|
  {
    keys == [] || (KeepsNesting(s, keys[0]) && AllKeepNesting(Pressed(s, keys[0]), keys[1..]))
  }

  lemma {:induction false} RunKeepsNesting(s: EditState, keys: seq<Key>)
    requires s.Valid() && WellNested(s.outline) && AllKeepNesting(s, keys)
    ensures WellNested(PressedAll(s, keys).outline)
    decreases |keys|
  {
    if keys != [] {
      PressNesting(s, keys[0]);
      RunKeepsNesting(Pressed(s, keys[0]), keys[1..]);
    }
  }

  /** Over a whole session from any configuration: if every press fits and the
      final names are distinct, reopening what was saved shows exactly the
      outline the user confirmed. */
  lemma SessionRoundTrip(initial: seq<Region>, keys: seq<Key>)
    requires AllKeepNesting(EditState(OutlineFromRegions(initial), 0), keys)
    requires Distinct(PressedAll(EditState(OutlineFromRegions(initial), 0), keys).outline)
    ensures var final := PressedAll(EditState(OutlineFromRegions(initial), 0), keys).outline;
            OutlineFromRegions(RegionsFromOutline(final)) == final
  {
    FlattenAnyConfig(initial);
    RunKeepsNesting(EditState(OutlineFromRegions(initial), 0), keys);
    OutlineRoundTrip(PressedAll(EditState(OutlineFromRegions(initial), 0), keys).outline);
  }

  // ----- what each press does to the entries

  /** Every entry but the one at `at` is as it was. */
  ghost predicate OnlyAt(o: Outline, o': Outline, at: nat) {
    |o'| == |o| && forall k :: 0 <= k < |o| && k != at ==> o'[k] == o[k]
  }

  /** The arrows move the cursor by one and stop at either end. */
  lemma ArrowsMoveCursor(s: EditState)
    requires s.Valid()
    ensures Pressed(s, Up).outline == s.outline && Pressed(s, Down).outline == s.outline
    ensures Pressed(s, Up).selected == if s.selected == 0 then 0 else s.selected - 1
    ensures Pressed(s, Down).selected == if s.selected + 1 >= |s.outline| then s.selected else s.selected + 1
  {
  }

  /** Indenting makes the selected entry one level deeper, but never more than one
      level deeper than the entry before it, and a first entry a root; unindenting
      makes it one level shallower, never below a root. Nothing else changes. */
  lemma IndentsSelected(s: EditState)
    requires s.Valid() && s.outline != []
    ensures var o, at := s.outline, s.selected;
            var deeper, shallower := Pressed(s, Indent), Pressed(s, Unindent);
            && deeper.selected == at && shallower.selected == at
            && OnlyAt(o, deeper.outline, at) && OnlyAt(o, shallower.outline, at)
            && deeper.outline[at].name == o[at].name && shallower.outline[at].name == o[at].name
            && (at == 0 ==> deeper.outline[at].depth == 0)
            && (at > 0 && o[at].depth <= o[at - 1].depth ==> deeper.outline[at].depth == o[at].depth + 1)
            && (at > 0 && o[at].depth > o[at - 1].depth ==> deeper.outline[at].depth == o[at - 1].depth + 1)
            && (o[at].depth == 0 ==> shallower.outline[at].depth == 0)
            && (o[at].depth > 0 ==> shallower.outline[at].depth == o[at].depth - 1)
  {
  }

  /** A move exchanges the selected entry with its neighbour and the cursor goes with
      it; at the end there is nothing to exchange. */
  lemma MovesSelected(s: EditState)
    requires s.Valid()
    ensures var o, at, up := s.outline, s.selected, Pressed(s, MoveUp);
            if at == 0 then up == s
            else up.selected == at - 1 && |up.outline| == |o|
                 && up.outline[at - 1] == o[at] && up.outline[at] == o[at - 1]
                 && forall k :: 0 <= k < |o| && k != at && k != at - 1 ==> up.outline[k] == o[k]
    ensures var o, at, down := s.outline, s.selected, Pressed(s, MoveDown);
            if at + 1 >= |o| then down == s
            else down.selected == at + 1 && |down.outline| == |o|
                 && down.outline[at + 1] == o[at] && down.outline[at] == o[at + 1]
                 && forall k :: 0 <= k < |o| && k != at && k != at + 1 ==> down.outline[k] == o[k]
  {
  }

  /** A new name stands right after the selected entry, at its depth, and is selected;
      all other entries keep their order. Into an empty outline it comes as a root. */
  lemma AddsAfterSelected(s: EditState, name: string)
    requires s.Valid()
    ensures Pressed(s, Add(None)) == s
    ensures var o, at, s' := s.outline, s.selected, Pressed(s, Add(Some(name)));
            if o == [] then s' == EditState([Entry(name, 0)], 0)
            else s'.selected == at + 1 && |s'.outline| == |o| + 1
                 && s'.outline[at + 1] == Entry(name, o[at].depth)
                 && (forall k :: 0 <= k <= at ==> s'.outline[k] == o[k])
                 && forall k :: at < k < |o| ==> s'.outline[k + 1] == o[k]
  {
  }

  /** A new name replaces the selected entry's, and nothing else. */
  lemma RenamesSelected(s: EditState, name: string)
    requires s.Valid()
    ensures Pressed(s, Rename(None)) == s
    ensures var o, at, s' := s.outline, s.selected, Pressed(s, Rename(Some(name)));
            if o == [] then s' == s
            else s'.selected == at && OnlyAt(o, s'.outline, at) && s'.outline[at] == Entry(name, o[at].depth)
  {
  }

  /** Entry `k` is below entry `i`: it and all entries from `i` to it are deeper. */
  ghost predicate Below(o: Outline, i: nat, k: nat)
    requires i < |o| && k < |o|
  {
    i < k && forall m :: i < m <= k ==> o[m].depth > o[i].depth
  }

  /** Deleting takes out the selected entry and no other: every other one keeps its
      name and place in the order, one level up if it was below the deleted one; on
      a well-nested outline it keeps its parent too, or gets the deleted entry's if
      that was its parent. The cursor stays in place, or on the last entry. */
  lemma DeletesSelected(s: EditState, k: nat)
    requires s.Valid() && k < |s.outline| && k != s.selected
    ensures var o, at, s' := s.outline, s.selected, Pressed(s, Delete);
            var k' := if k < at then k else k - 1;
            && |s'.outline| == |o| - 1 && s'.selected == (if at == |o| - 1 then |o| - 2 else at)
            && s'.outline[k'].name == o[k].name
            && s'.outline[k'].depth == (if Below(o, at, k) then o[k].depth - 1 else o[k].depth)
            && (WellNested(o) ==>
                  ParentName(s'.outline, k') == if ParentIndex(o, k) == at then ParentName(o, at) else ParentName(o, k))
  {
    var o, at := s.outline, s.selected;
    DeletedEntries(o, at);
    assert Below(o, at, k) <==> at < k < SubtreeEnd(o, at);
    if WellNested(o) {
      DeleteParents(o, at, k);
    }
  }

  /** Deleting the only entry leaves an empty outline, and then there is nothing to
      delete. */
  lemma DeletesOnly(s: EditState)
    requires s.Valid() && |s.outline| <= 1
    ensures Pressed(s, Delete) == EditState([], 0)
  {
    if |s.outline| == 1 {
      DeletedEntries(s.outline, 0);
    }
  }

  /** Keys act one after the other, in order. */
  lemma {:induction false} PressedInOrder(s: EditState, keys: seq<Key>, last: Key)
    requires s.Valid()
    ensures PressedAll(s, []) == s
    ensures PressedAll(s, keys + [last]) == Pressed(PressedAll(s, keys), last)
    decreases |keys|
  {
    if keys == [] {
      assert [last][1..] == [] && keys + [last] == [last];
    } else {
      assert (keys + [last])[1..] == keys[1..] + [last];
      PressedInOrder(Pressed(s, keys[0]), keys[1..], last);
    }
  }

  // ----- what one press undoes of another

  /** The cursor follows a moved entry, and moving it back restores everything. */
  lemma MoveUndone(s: EditState)
    requires s.Valid()
    ensures s.selected > 0 ==>
              Pressed(s, MoveUp).outline[s.selected - 1] == s.outline[s.selected]
              && Pressed(Pressed(s, MoveUp), MoveDown) == s
    ensures s.selected + 1 < |s.outline| ==>
              Pressed(s, MoveDown).outline[s.selected + 1] == s.outline[s.selected]
              && Pressed(Pressed(s, MoveDown), MoveUp) == s
  {
    var o, at := s.outline, s.selected;
    if at > 0 {
      assert Swapped(Swapped(o, at - 1), at - 1) == o;
    }
    if at + 1 < |o| {
      assert Swapped(Swapped(o, at), at) == o;
    }
  }

  /** Unindenting right after indenting restores the outline exactly when there was
      room to indent (or the entry is a first root, which neither press moves). */
  lemma IndentUndone(s: EditState)
    requires s.Valid() && s.outline != []
    ensures var o, at := s.outline, s.selected;
            Pressed(Pressed(s, Indent), Unindent) == s
            <==> if at == 0 then o[0].depth == 0 else o[at].depth <= o[at - 1].depth
  {
    var o, at := s.outline, s.selected;
    var d := ClampIndent(o, at, true);
    var d' := if d == 0 then 0 else d - 1;
    assert Redepth(Redepth(o, at, d), at, d') == Redepth(o, at, d');
    assert Redepth(o, at, d')[at].depth == d';
    if d' == o[at].depth {
      assert Redepth(o, at, d') == o;
    }
  }

  /** Deleting an entry right after adding it restores the outline exactly when the
      entry it was added after has no children: the new entry had taken them, and
      deleting it moves them a level up. */
  lemma AddUndone(o: Outline, at: nat, name: string)
    requires at < |o|
    ensures Deleted(WithSibling(o, at, name), at + 1) == o
        <==> at + 1 == |o| || o[at + 1].depth <= o[at].depth
  {
    var o' := WithSibling(o, at, name);
    AddedEntries(o, at, name);
    DeletedEntries(o', at + 1);
    var back, e := Deleted(o', at + 1), SubtreeEnd(o', at + 1);
    if at + 1 == |o| || o[at + 1].depth <= o[at].depth {
      assert e == at + 2;
      assert forall m :: 0 <= m < |o| ==> back[m] == o[m];
    } else {
      assert e > at + 2;
      assert back[at + 1].depth == o[at + 1].depth - 1;
    }
  }

  // ----- which entries an edit reparents

  /** Where entry `k` of `o` is after entry `i` is deleted. */
  function AfterDelete(i: nat, k: nat): nat
    requires k != i
  {
    if k < i then k else k - 1
  }

  /** `p` is what `Nearest` returns once nothing after it has the depth. */
  lemma NearestIs(o: Outline, k: nat, d: nat, p: int)
    requires k <= |o| && -1 <= p < k
    requires p >= 0 ==> o[p].depth == d
    requires forall m :: p < m < k ==> o[m].depth != d
    ensures Nearest(o, k, d) == p
  {
  }

  lemma DeleteParentBefore(o: Outline, i: nat, k: nat)
    requires k < i < |o|
    ensures k < |Deleted(o, i)| && ParentIndex(Deleted(o, i), k) == ParentIndex(o, k)
  {
    DeletedEntries(o, i);
    if o[k].depth > 0 {
      NearestIs(Deleted(o, i), k, o[k].depth - 1, ParentIndex(o, k));
    }
  }

  lemma DeleteParentOfChild(o: Outline, i: nat, k: nat)
    requires WellNested(o) && i < k < |o| && k < SubtreeEnd(o, i) && o[k].depth == o[i].depth + 1
    ensures |Deleted(o, i)| == |o| - 1 && ParentIndex(o, k) == i
    ensures ParentIndex(Deleted(o, i), k - 1) == ParentIndex(o, i)
  {
    var d := o[i].depth;
    DeletedEntries(o, i);
    NearestIs(o, k, d, i);
    if d > 0 {
      NearestIs(Deleted(o, i), k - 1, d - 1, ParentIndex(o, i));
    }
  }

  lemma DeleteParentOfDeeper(o: Outline, i: nat, k: nat)
    requires WellNested(o) && i < k < |o| && k < SubtreeEnd(o, i) && o[k].depth > o[i].depth + 1
    ensures |Deleted(o, i)| == |o| - 1 && ParentIndex(o, k) > i
    ensures ParentIndex(Deleted(o, i), k - 1) == ParentIndex(o, k) - 1
  {
    DeletedEntries(o, i);
    Crossing(o, i, k, o[k].depth - 1);
    NearestIs(Deleted(o, i), k - 1, o[k].depth - 2, ParentIndex(o, k) - 1);
  }

  lemma DeleteParentAfter(o: Outline, i: nat, k: nat)
    requires WellNested(o) && i < |o| && SubtreeEnd(o, i) <= k < |o|
    ensures |Deleted(o, i)| == |o| - 1
    ensures ParentIndex(o, k) < i || ParentIndex(o, k) >= SubtreeEnd(o, i)
    ensures ParentIndex(Deleted(o, i), k - 1)
         == if ParentIndex(o, k) < i then ParentIndex(o, k) else ParentIndex(o, k) - 1
  {
    DeletedEntries(o, i);
    if o[k].depth > 0 {
      ParentOutside(o, i, k);
      var p := ParentIndex(o, k);
      NearestMoves(o, i, k, o[k].depth - 1, p, if p < i then p else p - 1, k - 1);
    }
  }

  lemma NearestMoves(o: Outline, i: nat, k: nat, d: nat, p: int, p': int, k': nat)
    requires i < |o| && SubtreeEnd(o, i) <= k <= |o| && p == Nearest(o, k, d) && k' == k - 1
    requires if p < i then p' == p && d < o[i].depth else p >= SubtreeEnd(o, i) && p' == p - 1
    ensures k' <= |Deleted(o, i)| && Nearest(Deleted(o, i), k', d) == p'
  {
    DeletedEntries(o, i);
    NearestIs(Deleted(o, i), k', d, p');
  }

  lemma DeleteKeepsName(o: Outline, i: nat, k: nat)
    requires i < |o| && k < |o| && k != i
    ensures |Deleted(o, i)| == |o| - 1 && Deleted(o, i)[AfterDelete(i, k)].name == o[k].name
  {
  }

  lemma DeleteParentIndex(o: Outline, i: nat, k: nat)
    requires WellNested(o) && i < |o| && k < |o| && k != i
    ensures |Deleted(o, i)| == |o| - 1
    ensures var p := if ParentIndex(o, k) == i then ParentIndex(o, i) else ParentIndex(o, k);
            ParentIndex(Deleted(o, i), AfterDelete(i, k)) == if p < i then p else p - 1
  {
    if k < i {
      DeletedEntries(o, i);
      DeleteParentBefore(o, i, k);
    } else if k >= SubtreeEnd(o, i) {
      DeleteParentAfter(o, i, k);
    } else if o[k].depth == o[i].depth + 1 {
      DeleteParentOfChild(o, i, k);
    } else {
      DeleteParentOfDeeper(o, i, k);
    }
  }

  /** Deleting an entry keeps every survivor's parent, except that the direct
      children of the deleted entry move to its own parent. */
  lemma DeleteParents(o: Outline, i: nat, k: nat)
    requires WellNested(o) && i < |o| && k < |o| && k != i
    ensures var o', k' := Deleted(o, i), AfterDelete(i, k);
            && |o'| == |o| - 1 && o'[k'].name == o[k].name
            && ParentName(o', k') == if ParentIndex(o, k) == i then ParentName(o, i) else ParentName(o, k)
  {
    var p := if ParentIndex(o, k) == i then ParentIndex(o, i) else ParentIndex(o, k);
    DeleteKeepsName(o, i, k);
    DeleteParentIndex(o, i, k);
    if p >= 0 {
      DeleteKeepsName(o, i, p);
    }
  }

  /** An entry past the subtree of `i` never has its parent inside that subtree. */
  lemma ParentOutside(o: Outline, i: nat, k: nat)
    requires WellNested(o) && i < |o| && SubtreeEnd(o, i) <= k < |o| && o[k].depth > 0
    ensures !(i <= ParentIndex(o, k) < SubtreeEnd(o, i))
    ensures ParentIndex(o, k) < i ==> o[k].depth <= o[i].depth
  {
    var e := SubtreeEnd(o, i);
    if e < k && o[e].depth <= o[k].depth - 1 {
      Crossing(o, e, k, o[k].depth - 1);
    }
  }

  /** Unindenting a nested entry leaves every other entry under its own parent
      exactly when the entry closes its parent's subtree: otherwise the sibling
      or the child that follows it is reparented. */
  lemma UnindentParents(o: Outline, i: nat)
    requires WellNested(o) && i < |o| && o[i].depth > 0
    ensures (forall k :: 0 <= k < |o| && k != i
              ==> ParentIndex(Redepth(o, i, o[i].depth - 1), k) == ParentIndex(o, k))
        <==> i + 1 == |o| || o[i + 1].depth < o[i].depth
  {
    var o', d := Redepth(o, i, o[i].depth - 1), o[i].depth;
    if i + 1 < |o| {
      NestedAt(o, i + 1);
      if o[i + 1].depth == d + 1 {
        assert ParentIndex(o, i + 1) == i && ParentIndex(o', i + 1) != i;
      } else if o[i + 1].depth == d {
        assert ParentIndex(o, i + 1) != i && ParentIndex(o', i + 1) == i;
      } else {
        forall k | 0 <= k < |o| && k != i ensures ParentIndex(o', k) == ParentIndex(o, k) {
          UnindentKeeps(o, i, k);
        }
      }
    } else {
      forall k | 0 <= k < |o| && k != i ensures ParentIndex(o', k) == ParentIndex(o, k) {
        UnindentKeeps(o, i, k);
      }
    }
  }

  lemma UnindentKeeps(o: Outline, i: nat, k: nat)
    requires WellNested(o) && i < |o| && o[i].depth > 0 && k < |o| && k != i
    requires i + 1 == |o| || o[i + 1].depth < o[i].depth
    ensures ParentIndex(Redepth(o, i, o[i].depth - 1), k) == ParentIndex(o, k)
  {
    var p := ParentIndex(o, k);
    if o[k].depth > 0 {
      if i + 1 < k && p <= i && o[i + 1].depth <= o[k].depth - 1 {
        Crossing(o, i + 1, k, o[k].depth - 1);
      }
      NearestIs(Redepth(o, i, o[i].depth - 1), k, o[k].depth - 1, p);
    }
  }

  /** Indenting an entry that has room to leaves every other entry under its own
      parent exactly when it has no children: otherwise they go to the entry the
      selected one now sits beside. */
  lemma IndentParents(o: Outline, i: nat)
    requires WellNested(o) && 0 < i < |o| && o[i].depth <= o[i - 1].depth
    ensures (forall k :: 0 <= k < |o| && k != i
              ==> ParentIndex(Redepth(o, i, o[i].depth + 1), k) == ParentIndex(o, k))
        <==> i + 1 == |o| || o[i + 1].depth <= o[i].depth
  {
    if i + 1 < |o| && o[i + 1].depth > o[i].depth {
      NestedAt(o, i + 1);
      assert ParentIndex(o, i + 1) == i && ParentIndex(Redepth(o, i, o[i].depth + 1), i + 1) != i;
    } else {
      forall k | 0 <= k < |o| && k != i
        ensures ParentIndex(Redepth(o, i, o[i].depth + 1), k) == ParentIndex(o, k)
      {
        IndentKeeps(o, i, k);
      }
    }
  }

  lemma IndentKeeps(o: Outline, i: nat, k: nat)
    requires WellNested(o) && i < |o| && k < |o| && k != i
    requires i + 1 == |o| || o[i + 1].depth <= o[i].depth
    ensures ParentIndex(Redepth(o, i, o[i].depth + 1), k) == ParentIndex(o, k)
  {
    if o[k].depth > 0 {
      if i + 1 < k && o[i].depth <= o[k].depth - 1 {
        Crossing(o, i + 1, k, o[k].depth - 1);
      }
      NearestIs(Redepth(o, i, o[i].depth + 1), k, o[k].depth - 1, ParentIndex(o, k));
    }
  }

  /** Where entry `k` of `o` is after entries `i` and `i + 1` change places. */
  function AfterSwap(i: nat, k: int): int {
    if k == i then i + 1 else if k == i + 1 then i else k
  }

  /** Does a swap of entries `i` and `i + 1` leave every entry under its own parent? */
  predicate SwapKeepsParents(o: Outline, i: nat)
    requires i + 1 < |o|
  {
    if o[i + 1].depth == o[i].depth then i + 2 == |o| || o[i + 2].depth <= o[i].depth
    else o[i + 1].depth + 1 < o[i].depth
  }

  /** Moving an entry past its neighbour leaves every entry under its own parent
      exactly when the two are siblings and the lower one has no children, or the
      lower one is at least two levels shallower. */
  lemma SwapParents(o: Outline, i: nat)
    requires WellNested(o) && i + 1 < |o|
    ensures (forall k {:trigger ParentIndex(o, k)} :: 0 <= k < |o| ==>
              ParentIndex(Swapped(o, i), AfterSwap(i, k)) == AfterSwap(i, ParentIndex(o, k)))
        <==> SwapKeepsParents(o, i)
  {
    NestedAt(o, i + 1);
    if SwapKeepsParents(o, i) {
      forall k | 0 <= k < |o|
        ensures ParentIndex(Swapped(o, i), AfterSwap(i, k)) == AfterSwap(i, ParentIndex(o, k))
      {
        SwapKeeps(o, i, k);
      }
    } else {
      SwapMovesOne(o, i);
    }
  }

  lemma SwapKeeps(o: Outline, i: nat, k: nat)
    requires WellNested(o) && i + 1 < |o| && k < |o| && SwapKeepsParents(o, i)
    ensures ParentIndex(Swapped(o, i), AfterSwap(i, k)) == AfterSwap(i, ParentIndex(o, k))
  {
    var d := o[k].depth;
    assert Swapped(o, i)[AfterSwap(i, k)] == o[k];
    if d > 0 {
      if k > i + 2 && o[i + 2].depth < d {
        Crossing(o, i + 2, k, d - 1);
      }
      if k > i + 1 && o[i + 1].depth < d && o[i + 1].depth < o[i].depth {
        Crossing(o, i + 1, k, d - 1);
      }
      var p := ParentIndex(o, k);
      SwapNearest(o, i, k, d - 1, p, AfterSwap(i, k), AfterSwap(i, p));
    }
  }

  /** The nearest entry at depth `d` moves with a swap unless the swap brings the
      other of the two past it. */
  lemma SwapNearest(o: Outline, i: nat, k: nat, d: nat, p: int, k': nat, p': int)
    requires i + 1 < |o| && k < |o| && p == Nearest(o, k, d) && k' == AfterSwap(i, k) && p' == AfterSwap(i, p)
    requires p == i ==> k > i + 1
    requires k == i ==> o[i + 1].depth != d
    requires p == i + 1 ==> o[i].depth != d
    ensures Nearest(Swapped(o, i), k', d) == p'
  {
    var o' := Swapped(o, i);
    forall m | p' < m < k' ensures o'[m].depth != d {
      assert o'[m] == o[AfterSwap(i, m)];
    }
    NearestIs(o', k', d, p');
  }

  lemma SwapMovesOne(o: Outline, i: nat)
    requires WellNested(o) && i + 1 < |o| && !SwapKeepsParents(o, i)
    ensures exists k {:trigger ParentIndex(o, k)} :: 0 <= k < |o| &&
              ParentIndex(Swapped(o, i), AfterSwap(i, k)) != AfterSwap(i, ParentIndex(o, k))
  {
    NestedAt(o, i + 1);
    var o' := Swapped(o, i);
    if o[i + 1].depth == o[i].depth {
      NestedAt(o, i + 2);
      NearestIs(o, i + 2, o[i].depth, i + 1);
      NearestIs(o', i + 2, o[i].depth, i + 1);
      assert ParentIndex(o', AfterSwap(i, i + 2)) != AfterSwap(i, ParentIndex(o, i + 2));
    } else if o[i + 1].depth > o[i].depth {
      NearestIs(o, i + 1, o[i].depth, i);
      assert ParentIndex(o', AfterSwap(i, i + 1)) != AfterSwap(i, ParentIndex(o, i + 1));
    } else {
      NearestIs(o', i + 1, o[i + 1].depth, i);
      assert ParentIndex(o', AfterSwap(i, i)) != AfterSwap(i, ParentIndex(o, i));
    }
  }

  /** Where entry `k` of `o` is after a new entry is put at `at + 1`. */
  function AfterAdd(at: nat, k: int): int {
    if k <= at then k else k + 1
  }

  /** Adding a sibling after entry `at` leaves every entry under its own parent
      exactly when `at` has no children: otherwise the new entry takes them. */
  lemma AddParents(o: Outline, at: nat, name: string)
    requires WellNested(o) && at < |o|
    ensures (forall k {:trigger ParentIndex(o, k)} :: 0 <= k < |o| ==>
              ParentIndex(WithSibling(o, at, name), AfterAdd(at, k)) == AfterAdd(at, ParentIndex(o, k)))
        <==> at + 1 == |o| || o[at + 1].depth <= o[at].depth
  {
    var o' := WithSibling(o, at, name);
    if at + 1 < |o| && o[at + 1].depth > o[at].depth {
      NestedAt(o, at + 1);
      NearestIs(o, at + 1, o[at].depth, at);
      NearestIs(o', at + 2, o[at].depth, at + 1);
      assert ParentIndex(o', AfterAdd(at, at + 1)) != AfterAdd(at, ParentIndex(o, at + 1));
    } else {
      forall k | 0 <= k < |o| ensures ParentIndex(o', AfterAdd(at, k)) == AfterAdd(at, ParentIndex(o, k)) {
        AddKeeps(o, at, name, k);
      }
    }
  }

  lemma AddedEntries(o: Outline, at: nat, name: string)
    requires at < |o|
    ensures var o' := WithSibling(o, at, name);
            && |o'| == |o| + 1
            && (forall m {:trigger o'[m]} :: 0 <= m <= at ==> o'[m] == o[m])
            && o'[at + 1] == Entry(name, o[at].depth)
            && (forall m {:trigger o'[m]} :: at + 1 < m < |o'| ==> o'[m] == o[m - 1])
  {
  }

  lemma AddKeeps(o: Outline, at: nat, name: string, k: nat)
    requires WellNested(o) && at < |o| && k < |o|
    requires at + 1 == |o| || o[at + 1].depth <= o[at].depth
    ensures |WithSibling(o, at, name)| == |o| + 1
    ensures ParentIndex(WithSibling(o, at, name), AfterAdd(at, k)) == AfterAdd(at, ParentIndex(o, k))
  {
    var p := ParentIndex(o, k);
    AddedEntries(o, at, name);
    if o[k].depth > 0 {
      if k > at && p <= at && o[k].depth == o[at].depth + 1 {
        Crossing(o, at + 1, k, o[at].depth);
      }
      NearestIs(WithSibling(o, at, name), AfterAdd(at, k), o[k].depth - 1, AfterAdd(at, p));
    }
  }

  /** The documentation's "reparent" step also reparents entries the user did not
      select: unindenting Europe hands France to the region listed above it. */
  lemma UnindentStealsChild()
    ensures var o := [Entry("World", 0), Entry("X", 1), Entry("Europe", 1), Entry("France", 2)];
            && WellNested(o) && ParentName(o, 3) == Some("Europe")
            && ParentName(Pressed(EditState(o, 2), Unindent).outline, 3) == Some("X")
  {
  }

  /** Indenting Europe hands France to the region listed above it. */
  lemma IndentStealsChild()
    ensures var o := [Entry("World", 0), Entry("X", 1), Entry("Europe", 1), Entry("France", 2)];
            && WellNested(o) && ParentName(o, 3) == Some("Europe")
            && ParentName(Pressed(EditState(o, 2), Indent).outline, 3) == Some("X")
  {
    var o := [Entry("World", 0), Entry("X", 1), Entry("Europe", 1), Entry("France", 2)];
    forall k | 0 <= k < |o| ensures NoSkip(o, k) {
    }
    NearestIs(o, 3, 1, 2);
    NearestIs(Redepth(o, 2, 2), 3, 1, 1);
    assert o[2].name == "Europe" && o[1].name == "X";
  }

  /** So does moving X below Europe, although no level is skipped. */
  lemma MoveStealsChild()
    ensures var o := [Entry("World", 0), Entry("X", 1), Entry("Europe", 1), Entry("France", 2)];
            && WellNested(o) && KeepsNesting(EditState(o, 1), MoveDown) && ParentName(o, 3) == Some("Europe")
            && ParentName(Pressed(EditState(o, 1), MoveDown).outline, 3) == Some("X")
  {
    var o := [Entry("World", 0), Entry("X", 1), Entry("Europe", 1), Entry("France", 2)];
    forall k | 0 <= k < |o| ensures NoSkip(o, k) {
    }
    NearestIs(o, 3, 1, 2);
    NearestIs(Swapped(o, 1), 3, 1, 2);
    assert o[2].name == "Europe" && Swapped(o, 1)[2].name == "X";
  }
}
