/**
 * Bin lookup by name, `ensure_bin`, `ensure_bins_for_path` and the host side of
 * `create_clip_from_media`, as functions of the item tree before and after.
 */
module BinLookup {
  import opened Wrappers
  import opened ItemTree
  import opened BinWalk

  /** A non-null slot holding a BIN whose name is exactly `name`. */
  predicate IsBinNamed(nodes: seq<Node>, s: Slot, name: string)
  {
    s.Some? && s.value < |nodes| && nodes[s.value].kind == Bin && nodes[s.value].name == name
  }

  /** `get_bin_by_name` over a bin's child slots: the first non-null BIN child with that exact
      name, None when there is none. */
  function FindBin(nodes: seq<Node>, slots: seq<Slot>, name: string): (r: Option<nat>)
    ensures r.None? <==> forall j :: 0 <= j < |slots| ==> !IsBinNamed(nodes, slots[j], name)
    ensures r.Some? ==> exists j :: 0 <= j < |slots| && slots[j] == Some(r.value) &&
                                    IsBinNamed(nodes, slots[j], name) &&
                                    forall k :: 0 <= k < j ==> !IsBinNamed(nodes, slots[k], name)
  {
    if slots == [] then None
    else if IsBinNamed(nodes, slots[0], name) then Some(slots[0].value)
    else
      var r := FindBin(nodes, slots[1..], name);
      assert forall j :: 1 <= j < |slots| ==> slots[j] == slots[1..][j - 1];
      r
  }

  /** Appending slots after a match does not change which bin is found first. */
  lemma {:induction false} FindBinPrefix(nodes: seq<Node>, slots: seq<Slot>, more: seq<Slot>, name: string)
    requires FindBin(nodes, slots, name).Some?
    ensures FindBin(nodes, slots + more, name) == FindBin(nodes, slots, name)
  {
    if !IsBinNamed(nodes, slots[0], name) {
      assert (slots + more)[1..] == slots[1..] + more;
      FindBinPrefix(nodes, slots[1..], more, name);
    }
  }

  /** A match appended after slots holding no match is the one found. */
  lemma {:induction false} FindBinAfterMiss(nodes: seq<Node>, slots: seq<Slot>, s: Slot, name: string)
    requires FindBin(nodes, slots, name).None? && IsBinNamed(nodes, s, name)
    ensures FindBin(nodes, slots + [s], name) == Some(s.value)
  {
    if slots != [] {
      assert (slots + [s])[1..] == slots[1..] + [s];
      FindBinAfterMiss(nodes, slots[1..], s, name);
    }
  }

  /** The lookup only reads types and names, which growing the tree does not change. */
  lemma {:induction false} FindBinStable(before: seq<Node>, after: seq<Node>, slots: seq<Slot>, name: string)
    requires Extends(before, after)
    requires forall j :: 0 <= j < |slots| && slots[j].Some? ==> slots[j].value < |before|
    ensures FindBin(after, slots, name) == FindBin(before, slots, name)
  {
    if slots != [] {
      assert IsBinNamed(after, slots[0], name) == IsBinNamed(before, slots[0], name);
      FindBinStable(before, after, slots[1..], name);
    }
  }

  /** `ensure_bin`: the tree and the bin after `get_bin_by_name`, then `createBin` only when
      the lookup failed. The bin returned is a child of `b` with that name, and looking it up
      again finds it. */
  function Ensured(nodes: seq<Node>, b: nat, name: string): (r: (seq<Node>, nat))
    requires WellFormed(nodes) && b < |nodes|
    ensures WellFormed(r.0) && Extends(nodes, r.0) && r.1 < |r.0|
    ensures FindBin(r.0, r.0[b].children, name) == Some(r.1)
    ensures FindBin(nodes, nodes[b].children, name).Some? ==> r == (nodes, FindBin(nodes, nodes[b].children, name).value)
    ensures FindBin(nodes, nodes[b].children, name).None? ==>
              r.1 == |nodes| && r.0 == AppendSlot(nodes, b, Some(NewBin(name)))
  {
    var slots := nodes[b].children;
    match FindBin(nodes, slots, name)
    case Some(c) => (nodes, c)
    case None =>
      var after := AppendSlot(nodes, b, Some(NewBin(name)));
      FindBinStable(nodes, after, slots, name);
      assert after[b].children == slots + [Some(|nodes|)];
      assert IsBinNamed(after, Some(|nodes|), name);
      FindBinAfterMiss(after, slots, Some(|nodes|), name);
      (after, |nodes|)
  }

  /** The bin `ensure_bin` returns is a BIN child of `b` with exactly that name. */
  lemma EnsuredIsNamedChild(nodes: seq<Node>, b: nat, name: string)
    requires WellFormed(nodes) && b < |nodes|
    ensures var r := Ensured(nodes, b, name);
            && r.0[r.1].kind == Bin && r.0[r.1].name == name
            && Some(r.1) in r.0[b].children
  {
    var r := Ensured(nodes, b, name);
    var slots := r.0[b].children;
    var j :| 0 <= j < |slots| && slots[j] == Some(r.1) && IsBinNamed(r.0, slots[j], name);
  }

  /** A second `ensure_bin` with the same name finds the bin the first one returned and adds
      no child. */
  lemma EnsuredIdempotent(nodes: seq<Node>, b: nat, name: string)
    requires WellFormed(nodes) && b < |nodes|
    ensures var (after, c) := Ensured(nodes, b, name);
            Ensured(after, b, name) == (after, c)
  {
  }

  /** `ensure_bins_for_path` after the segments are computed: `ensure_bin` folded over them,
      each step starting from the bin the previous one returned. */
  function EnsuredPath(nodes: seq<Node>, b: nat, segments: seq<string>): (r: (seq<Node>, nat))
    requires WellFormed(nodes) && b < |nodes|
    ensures WellFormed(r.0) && Extends(nodes, r.0) && r.1 < |r.0|
    ensures segments == [] ==> r == (nodes, b)
    decreases |segments|
  {
    if segments == [] then (nodes, b)
    else
      var (after, c) := Ensured(nodes, b, segments[0]);
      var r := EnsuredPath(after, c, segments[1..]);
      ExtendsTransitive(nodes, after, r.0);
      r
  }

  /** The first step of the fold: ensure the first segment, then the rest from there. */
  lemma EnsuredPathStep(nodes: seq<Node>, b: nat, segments: seq<string>)
    requires WellFormed(nodes) && b < |nodes| && segments != []
    ensures var e := Ensured(nodes, b, segments[0]);
            EnsuredPath(nodes, b, segments) == EnsuredPath(e.0, e.1, segments[1..])
  {
  }

  /** Bins named by `segments`, in order, lead from `b` down to `x`. */
  ghost predicate NamedPath(nodes: seq<Node>, b: nat, segments: seq<string>, x: nat)
    decreases |segments|
  {
    if segments == [] then x == b
    else exists c: nat :: IsBinChildOf(nodes, b, c) && nodes[c].name == segments[0] && NamedPath(nodes, c, segments[1..], x)
  }

  lemma {:induction false} NamedPathStable(before: seq<Node>, after: seq<Node>, b: nat, segments: seq<string>, x: nat)
    requires Extends(before, after) && NamedPath(before, b, segments, x)
    ensures NamedPath(after, b, segments, x)
    decreases |segments|
  {
    if segments != [] {
      var c: nat :| IsBinChildOf(before, b, c) && before[c].name == segments[0] && NamedPath(before, c, segments[1..], x);
      NamedPathStable(before, after, c, segments[1..], x);
      assert Some(c) in after[b].children by {
        assert before[b].children <= after[b].children;
      }
      assert IsBinChildOf(after, b, c);
    }
  }

  /** The bin `ensure_bins_for_path` returns sits under `b` at the end of bins named, in
      order, by the segments. */
  lemma {:induction false} EnsuredPathSpellsSegments(nodes: seq<Node>, b: nat, segments: seq<string>)
    requires WellFormed(nodes) && b < |nodes|
    ensures NamedPath(EnsuredPath(nodes, b, segments).0, b, segments, EnsuredPath(nodes, b, segments).1)
    decreases |segments|
  {
    if segments != [] {
      var e := Ensured(nodes, b, segments[0]);
      var r := EnsuredPath(e.0, e.1, segments[1..]);
      assert EnsuredPath(nodes, b, segments) == r;
      EnsuredPathSpellsSegments(e.0, e.1, segments[1..]);
      EnsuredIsNamedChild(nodes, b, segments[0]);
      assert NamedPath(r.0, e.1, segments[1..], r.1);
      assert IsBinChildOf(r.0, b, e.1) by {
        assert e.0[b].children <= r.0[b].children;
        assert r.0[e.1].kind == Bin;
      }
      assert r.0[e.1].name == segments[0];
    }
  }

  /** A bin found under `b` is still the first match once the tree has grown. */
  lemma FoundStaysFound(mid: seq<Node>, later: seq<Node>, b: nat, name: string, c: nat)
    requires b < |mid| && Extends(mid, later)
    requires forall j :: 0 <= j < |mid[b].children| && mid[b].children[j].Some? ==> mid[b].children[j].value < |mid|
    requires FindBin(mid, mid[b].children, name) == Some(c)
    ensures FindBin(later, later[b].children, name) == Some(c)
  {
    var slots := mid[b].children;
    FindBinStable(mid, later, slots, name);
    var more := later[b].children[|slots|..];
    assert later[b].children == slots + more by {
      assert SameItem(mid[b], later[b]);
    }
    FindBinPrefix(later, slots, more, name);
  }

  /** Once ensured, a bin is still what `ensure_bin` finds in any later, grown tree. */
  lemma EnsuredStable(nodes: seq<Node>, b: nat, name: string, later: seq<Node>)
    requires WellFormed(nodes) && b < |nodes|
    requires WellFormed(later) && Extends(Ensured(nodes, b, name).0, later)
    ensures Ensured(later, b, name) == (later, Ensured(nodes, b, name).1)
  {
    var e := Ensured(nodes, b, name);
    SlotsInRange(e.0, b);
    FoundStaysFound(e.0, later, b, name, e.1);
  }

  /** Ensuring the same path twice: the second run finds every bin and changes nothing. */
  lemma {:induction false} EnsuredPathIdempotent(nodes: seq<Node>, b: nat, segments: seq<string>)
    requires WellFormed(nodes) && b < |nodes|
    ensures var r := EnsuredPath(nodes, b, segments);
            EnsuredPath(r.0, b, segments) == r
    decreases |segments|
  {
    if segments != [] {
      var e := Ensured(nodes, b, segments[0]);
      var r := EnsuredPath(e.0, e.1, segments[1..]);
      assert EnsuredPath(nodes, b, segments) == r;
      EnsuredPathIdempotent(e.0, e.1, segments[1..]);
      EnsuredStable(nodes, b, segments[0], r.0);
    }
  }

  /** The host's side of `importFiles` into bin `b`: the slots it appends, each a new leaf item
      or null. */
  function Imported(nodes: seq<Node>, b: nat, added: seq<Option<Node>>): (r: seq<Node>)
    requires WellFormed(nodes) && b < |nodes|
    requires forall k :: 0 <= k < |added| && added[k].Some? ==> added[k].value.children == []
    ensures WellFormed(r) && Extends(nodes, r)
    ensures |r[b].children| == |nodes[b].children| + |added|
    decreases |added|
  {
    if added == [] then nodes
    else
      var next := AppendSlot(nodes, b, added[0]);
      var r := Imported(next, b, added[1..]);
      ExtendsTransitive(nodes, next, r);
      r
  }

  /** The last child after an import is the last item added: null exactly when that item is
      null, otherwise that item. */
  lemma {:induction false} ImportedLast(nodes: seq<Node>, b: nat, added: seq<Option<Node>>)
    requires WellFormed(nodes) && b < |nodes|
    requires forall k :: 0 <= k < |added| && added[k].Some? ==> added[k].value.children == []
    requires added != []
    ensures var r := Imported(nodes, b, added);
            var last := r[b].children[|r[b].children| - 1];
            && (last.None? <==> added[|added| - 1].None?)
            && (last.Some? ==> last.value < |r| && r[last.value] == added[|added| - 1].value)
    decreases |added|
  {
    var r := Imported(nodes, b, added);
    var next := AppendSlot(nodes, b, added[0]);
    if |added| == 1 {
      assert r == next by {
        assert Imported(next, b, []) == next;
      }
    } else {
      assert r == Imported(next, b, added[1..]);
      ImportedLast(next, b, added[1..]);
      assert added[1..][|added| - 2] == added[|added| - 1];
    }
  }
}
