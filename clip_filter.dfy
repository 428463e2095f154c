/**
 * `PremiereBin.clips` and `PremiereProject.clips`: the clips of a bin are its non-sequence
 * CLIP children in slot order, and the clips of a project are those of every bin in the order
 * `bins` yields them. The bin-level scan reads the type of every child without a null check,
 * so a null slot ends the scan with an error after the clips before it were yielded; the model
 * returns what was yielded together with that failure.
 */
module ClipFilter {
  import opened Wrappers
  import opened ItemTree
  import opened BinWalk

  /** What a generator yields before it stops: its items, and whether it stopped by raising. */
  datatype Partial<T> = Partial(items: seq<T>, failed: bool)

  /** A CLIP item that is not a sequence. */
  predicate IsPlainClip(nodes: seq<Node>, x: nat)
  {
    x < |nodes| && nodes[x].kind == Clip && !nodes[x].isSequence
  }

  /** The clips yielded while scanning `slots` in order; a null slot raises. */
  function BinClips(nodes: seq<Node>, slots: seq<Slot>): (r: Partial<nat>)
    ensures r.failed <==> None in slots
    ensures forall i :: 0 <= i < |r.items| ==> Some(r.items[i]) in slots && IsPlainClip(nodes, r.items[i])
    ensures None !in slots ==> forall x: nat :: Some(x) in slots && IsPlainClip(nodes, x) ==> x in r.items
  {
    if slots == [] then Partial([], false)
    else
      var init := slots[..|slots| - 1];
      var last := slots[|slots| - 1];
      assert slots == init + [last];
      var p := BinClips(nodes, init);
      if p.failed then p
      else if last.None? then Partial(p.items, true)
      else if IsPlainClip(nodes, last.value) then Partial(p.items + [last.value], false)
      else p
  }

  /** Scanning two runs of slots one after the other: the second run is only reached when
      the first one did not raise. */
  lemma {:induction false} BinClipsAppend(nodes: seq<Node>, a: seq<Slot>, b: seq<Slot>)
    ensures var pa := BinClips(nodes, a);
            var pb := BinClips(nodes, b);
            BinClips(nodes, a + b) == if pa.failed then pa else Partial(pa.items + pb.items, pb.failed)
    decreases |b|
  {
    if b == [] {
      assert a + b == a;
    } else {
      var init := b[..|b| - 1];
      assert (a + b)[..|a + b| - 1] == a + init;
      assert (a + b)[|a + b| - 1] == b[|b| - 1];
      BinClipsAppend(nodes, a, init);
    }
  }

  /** A null slot stops the scan: what came before it is yielded, nothing after it is. */
  lemma BinClipsStopsAtNull(nodes: seq<Node>, a: seq<Slot>, b: seq<Slot>)
    requires None !in a
    ensures BinClips(nodes, a + [None] + b) == Partial(BinClips(nodes, a).items, true)
  {
    BinClipsAppend(nodes, a, [None]);
    BinClipsAppend(nodes, a + [None], b);
  }

  /** Clips are yielded once each when no slot repeats an item. */
  lemma {:induction false} BinClipsDistinct(nodes: seq<Node>, slots: seq<Slot>)
    requires forall j, k :: 0 <= j < k < |slots| && slots[j].Some? ==> slots[j] != slots[k]
    ensures Distinct(BinClips(nodes, slots).items)
  {
    if slots != [] {
      var init := slots[..|slots| - 1];
      var last := slots[|slots| - 1];
      BinClipsDistinct(nodes, init);
      var p := BinClips(nodes, init);
      if !p.failed && last.Some? && IsPlainClip(nodes, last.value) {
        forall i | 0 <= i < |p.items| ensures p.items[i] != last.value {
          var j :| 0 <= j < |init| && init[j] == Some(p.items[i]);
          assert slots[j] == init[j];
        }
        DistinctConcat(p.items, [last.value]);
      }
    }
  }

  /** `PremiereProject.clips`: the clips of each bin in `bins`, in that order, until a bin's
      scan raises. */
  function ProjectClips(nodes: seq<Node>, bins: seq<nat>): Partial<nat>
    requires InRange(nodes, bins)
  {
    if bins == [] then Partial([], false)
    else
      var init := bins[..|bins| - 1];
      var last := bins[|bins| - 1];
      var p := ProjectClips(nodes, init);
      if p.failed then p
      else
        var q := BinClips(nodes, nodes[last].children);
        Partial(p.items + q.items, q.failed)
  }

  /** The scan over `bins` raises exactly when one of them has a null slot; it yields only
      non-sequence CLIP children of those bins, and, when it does not raise, all of them. */
  lemma {:induction false} ProjectClipsMembers(nodes: seq<Node>, bins: seq<nat>)
    requires InRange(nodes, bins)
    ensures var r := ProjectClips(nodes, bins);
            && (r.failed <==> exists i :: 0 <= i < |bins| && None in nodes[bins[i]].children)
            && (forall x :: x in r.items ==>
                  IsPlainClip(nodes, x) && exists i :: 0 <= i < |bins| && Some(x) in nodes[bins[i]].children)
            && (!r.failed ==> forall i, x: nat ::
                  (0 <= i < |bins| && Some(x) in nodes[bins[i]].children && IsPlainClip(nodes, x)) ==> x in r.items)
  {
    if bins != [] {
      var init := bins[..|bins| - 1];
      ProjectClipsMembers(nodes, init);
      assert forall i :: 0 <= i < |init| ==> init[i] == bins[i];
    }
  }

  /** A bin yields its clips and the bins walk never yields a bin twice, so no clip is yielded
      twice: every clip has one parent. */
  lemma {:induction false} ProjectClipsDistinct(nodes: seq<Node>, bins: seq<nat>)
    requires WellFormed(nodes) && InRange(nodes, bins) && Distinct(bins)
    ensures Distinct(ProjectClips(nodes, bins).items)
  {
    if bins != [] {
      var init := bins[..|bins| - 1];
      var last := bins[|bins| - 1];
      ProjectClipsDistinct(nodes, init);
      ProjectClipsMembers(nodes, init);
      var p := ProjectClips(nodes, init);
      if !p.failed {
        var q := BinClips(nodes, nodes[last].children);
        SlotsUnique(nodes, last);
        BinClipsDistinct(nodes, nodes[last].children);
        forall x | x in p.items ensures x !in q.items {
          var i :| 0 <= i < |init| && Some(x) in nodes[init[i]].children;
          assert init[i] == bins[i];
          NotHeldTwice(nodes, init[i], last, x);
        }
        DistinctConcat(p.items, q.items);
      }
    }
  }

  lemma SlotsUnique(nodes: seq<Node>, b: nat)
    requires WellFormed(nodes) && b < |nodes|
    ensures forall j, k :: 0 <= j < k < |nodes[b].children| && nodes[b].children[j].Some? ==>
              nodes[b].children[j] != nodes[b].children[k]
  {
  }

  /** An item held in the slots of one item is held in no other: every item has one parent. */
  lemma NotHeldTwice(nodes: seq<Node>, p: nat, q: nat, x: nat)
    requires WellFormed(nodes) && p < |nodes| && q < |nodes| && p != q
    requires Some(x) in nodes[p].children
    ensures Some(x) !in nodes[q].children
  {
    var j :| 0 <= j < |nodes[p].children| && nodes[p].children[j] == Some(x);
  }

  predicate Holds(nodes: seq<Node>, p: nat, s: Slot)
  {
    p < |nodes| && s in nodes[p].children
  }

  /** The bins walk lists ids of items. */
  lemma WalkInRange(nodes: seq<Node>)
    requires WellFormed(nodes)
    ensures InRange(nodes, Walk(nodes))
  {
    var w := Walk(nodes);
    forall i | 0 <= i < |w| ensures w[i] < |nodes| {
      SubtreeReaches(nodes, 0, w[i]);
      ReachesBound(nodes, 0, w[i]);
    }
  }

  /** Scanning one more bin adds its clips, unless an earlier bin raised. */
  lemma ProjectClipsSnoc(nodes: seq<Node>, bins: seq<nat>, b: nat)
    requires InRange(nodes, bins) && b < |nodes|
    ensures InRange(nodes, bins + [b])
    ensures var p := ProjectClips(nodes, bins);
            var q := BinClips(nodes, nodes[b].children);
            ProjectClips(nodes, bins + [b]) == if p.failed then p else Partial(p.items + q.items, q.failed)
  {
    assert (bins + [b])[..|bins|] == bins;
  }

  /** What the clip scan needs to know of the bins walk: it lists in-range ids, once each,
      exactly the bins reachable from the root. */
  lemma WalkFacts(nodes: seq<Node>)
    requires WellFormed(nodes)
    ensures InRange(nodes, Walk(nodes)) && Distinct(Walk(nodes))
    ensures forall p: nat :: p in Walk(nodes) <==> Reaches(nodes, 0, p)
  {
    var w := Walk(nodes);
    WalkInRange(nodes);
    forall p: nat ensures p in w <==> Reaches(nodes, 0, p) {
      SubtreeReaches(nodes, 0, p);
    }
    SubtreeDistinct(nodes, 0);
  }

  /** The clips of the whole project, with the bins in `bins` order: the scan raises exactly
      when a bin reachable from the root has a null slot, and each clip yielded is a
      non-sequence CLIP child of such a bin, yielded once. */
  lemma ProjectClipsOfWalk(nodes: seq<Node>)
    requires WellFormed(nodes)
    ensures InRange(nodes, Walk(nodes))
    ensures var r := ProjectClips(nodes, Walk(nodes));
            && Distinct(r.items)
            && (r.failed <==> exists p: nat :: Reaches(nodes, 0, p) && Holds(nodes, p, None))
            && (forall x :: x in r.items ==>
                  IsPlainClip(nodes, x) && exists p: nat :: Reaches(nodes, 0, p) && Holds(nodes, p, Some(x)))
  {
    var w := Walk(nodes);
    WalkFacts(nodes);
    ProjectClipsMembers(nodes, w);
    ProjectClipsDistinct(nodes, w);
    var r := ProjectClips(nodes, w);
    if r.failed {
      var i :| 0 <= i < |w| && None in nodes[w[i]].children;
      assert w[i] in w;
      assert Holds(nodes, w[i], None);
    }
    forall x | x in r.items
      ensures IsPlainClip(nodes, x) && exists p: nat :: Reaches(nodes, 0, p) && Holds(nodes, p, Some(x))
    {
      var i :| 0 <= i < |w| && Some(x) in nodes[w[i]].children;
      assert w[i] in w;
      assert Holds(nodes, w[i], Some(x));
    }
  }

  /** With no null slot in a reachable bin, every non-sequence CLIP child of a reachable bin
      is yielded. */
  lemma ProjectClipsComplete(nodes: seq<Node>, p: nat, x: nat)
    requires WellFormed(nodes)
    requires Reaches(nodes, 0, p) && Holds(nodes, p, Some(x)) && IsPlainClip(nodes, x)
    ensures InRange(nodes, Walk(nodes))
    ensures !ProjectClips(nodes, Walk(nodes)).failed ==> x in ProjectClips(nodes, Walk(nodes)).items
  {
    var w := Walk(nodes);
    WalkFacts(nodes);
    ProjectClipsMembers(nodes, w);
    assert p in w;
    var i :| 0 <= i < |w| && w[i] == p;
  }
}
