/**
 * The host's project item tree as the scripting bridge exposes it: each ProjectItem has a type
 * code, a name, an `isSequence()` flag, a media path, project metadata and an indexed list of
 * child slots, any of which the host may report as null.
 *
 * The tree is held as a table of items: an item's node id is its position in the table, the
 * project's `rootItem` is position 0, and a child slot holds the position of the child.
 */
module ItemTree {
  import opened Wrappers
  import Metadata

  /** Adobe ProjectItem type codes. */
  datatype ItemType = Clip | Bin | Root | File {
    function Code(): (c: nat)
      ensures 1 <= c <= 4
    {
      match this
      case Clip => 1
      case Bin => 2
      case Root => 3
      case File => 4
    }
  }

  /** `ItemType(code)`: the enum member with that value, None for any other integer. */
  function FromCode(code: int): (t: Option<ItemType>)
    ensures t.Some? <==> 1 <= code <= 4
    ensures t.Some? ==> t.value.Code() == code
  {
    if code == 1 then Some(Clip)
    else if code == 2 then Some(Bin)
    else if code == 3 then Some(Root)
    else if code == 4 then Some(File)
    else None
  }

  /** A child slot: the child's node id, or None where the host returns a null entry. */
  type Slot = Option<nat>

  datatype Node = Node(
    kind: ItemType,
    name: string,
    isSequence: bool,
    mediaPath: string,
    canChangeMediaPath: bool,
    metadata: Metadata.Blob,
    children: seq<Slot>)

  /** A bin the host creates with `createBin(name)`: empty, not a sequence, no media. */
  function NewBin(name: string): Node
  {
    Node(Bin, name, false, "", false, [], [])
  }

  /** The shape of a host project: the root item first, every child created after its parent,
      and every item held in at most one slot of the whole tree (each bin has one parent). */
  ghost predicate WellFormed(nodes: seq<Node>)
  {
    && |nodes| > 0
    && nodes[0].kind == Root
    && (forall p, j :: 0 <= p < |nodes| && 0 <= j < |nodes[p].children| && nodes[p].children[j].Some? ==>
          p < nodes[p].children[j].value < |nodes|)
    && (forall p, j, q, k ::
          && 0 <= p < |nodes| && 0 <= j < |nodes[p].children|
          && 0 <= q < |nodes| && 0 <= k < |nodes[q].children|
          && nodes[p].children[j].Some? && nodes[p].children[j] == nodes[q].children[k]
          ==> p == q && j == k)
  }

  /** `b` is `a` with possibly more child slots appended. */
  predicate SameItem(a: Node, b: Node)
  {
    && a.kind == b.kind && a.name == b.name && a.isSequence == b.isSequence
    && a.mediaPath == b.mediaPath && a.canChangeMediaPath == b.canChangeMediaPath
    && a.metadata == b.metadata
    && a.children <= b.children
  }

  /** The tree `after` grew from `before` only by new items and appended child slots. */
  ghost predicate Extends(before: seq<Node>, after: seq<Node>)
  {
    && |before| <= |after|
    && forall i :: 0 <= i < |before| ==> SameItem(before[i], after[i])
  }

  lemma ExtendsTransitive(a: seq<Node>, b: seq<Node>, c: seq<Node>)
    requires Extends(a, b) && Extends(b, c)
    ensures Extends(a, c)
  {
  }

  /** What the host does on `createBin` or on each item of an import: append one slot to
      `parent`, holding a new leaf item, or null. */
  function AppendSlot(nodes: seq<Node>, parent: nat, item: Option<Node>): (r: seq<Node>)
    requires WellFormed(nodes) && parent < |nodes|
    requires item.Some? ==> item.value.children == []
    ensures WellFormed(r) && Extends(nodes, r)
    ensures |r| == |nodes| + (if item.Some? then 1 else 0)
    ensures r[parent].children == nodes[parent].children + [if item.Some? then Some(|nodes|) else None]
    ensures forall i :: 0 <= i < |nodes| && i != parent ==> r[i] == nodes[i]
    ensures item.Some? ==> r[|nodes|] == item.value
  {
    var p := nodes[parent];
    var slot: Slot := if item.Some? then Some(|nodes|) else None;
    var r := nodes[parent := p.(children := p.children + [slot])] + (if item.Some? then [item.value] else []);
    AppendSlotWellFormed(nodes, parent, item, r);
    r
  }

  lemma AppendSlotWellFormed(nodes: seq<Node>, parent: nat, item: Option<Node>, r: seq<Node>)
    requires WellFormed(nodes) && parent < |nodes|
    requires item.Some? ==> item.value.children == []
    requires r == nodes[parent := nodes[parent].(children := nodes[parent].children + [if item.Some? then Some(|nodes|) else None])]
                  + (if item.Some? then [item.value] else [])
    ensures WellFormed(r) && Extends(nodes, r)
  {
    AppendSlotChildren(nodes, parent, item, r);
    forall p, j, q, k |
        && 0 <= p < |r| && 0 <= j < |r[p].children|
        && 0 <= q < |r| && 0 <= k < |r[q].children|
        && r[p].children[j].Some? && r[p].children[j] == r[q].children[k]
      ensures p == q && j == k
    {
      var newP := p == parent && j == |nodes[parent].children|;
      var newQ := q == parent && k == |nodes[parent].children|;
      if !newP && !newQ {
        assert nodes[p].children[j] == nodes[q].children[k];
      }
    }
  }

  /** Slot by slot, the tree after appending: the new slot, then the old slots unchanged. */
  lemma AppendSlotChildren(nodes: seq<Node>, parent: nat, item: Option<Node>, r: seq<Node>)
    requires parent < |nodes|
    requires item.Some? ==> item.value.children == []
    requires r == nodes[parent := nodes[parent].(children := nodes[parent].children + [if item.Some? then Some(|nodes|) else None])]
                  + (if item.Some? then [item.value] else [])
    ensures |r| == |nodes| + (if item.Some? then 1 else 0)
    ensures forall p :: 0 <= p < |r| ==>
              |r[p].children| == if p == parent then |nodes[p].children| + 1 else if p < |nodes| then |nodes[p].children| else 0
    ensures forall p, j :: 0 <= p < |r| && 0 <= j < |r[p].children| ==>
              r[p].children[j] == if p == parent && j == |nodes[parent].children| then
                                    (if item.Some? then Some(|nodes|) else None)
                                  else nodes[p].children[j]
    ensures forall p :: 0 <= p < |nodes| ==> SameItem(nodes[p], r[p])
    ensures item.Some? ==> r[|nodes|] == item.value
  {
  }

  lemma SlotsInRange(nodes: seq<Node>, b: nat)
    requires WellFormed(nodes) && b < |nodes|
    ensures forall j :: 0 <= j < |nodes[b].children| && nodes[b].children[j].Some? ==>
              nodes[b].children[j].value < |nodes|
  {
  }

  /** A change to one item's own fields that leaves its type and children alone. */
  lemma ReplaceItemWellFormed(nodes: seq<Node>, i: nat, item: Node)
    requires WellFormed(nodes) && i < |nodes|
    requires item.kind == nodes[i].kind && item.children == nodes[i].children
    ensures WellFormed(nodes[i := item])
  {
    var r := nodes[i := item];
    assert forall p :: 0 <= p < |r| ==> r[p].children == nodes[p].children;
  }
}
