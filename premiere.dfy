/**
 * The adapter's view of an open Premiere project: `PremiereProject`, with the bin, clip and
 * metadata operations of `PremiereBin`, `PremiereClip` and `PremiereItem` that act on the
 * project's items. The host's project tree lives in the `nodes` field (see ItemTree); host
 * calls that change the tree are modelled by the changes they make to that field.
 */
module Premiere {
  import opened Wrappers
  import opened Metadata
  import opened ItemTree
  import opened BinWalk
  import opened BinLookup
  import opened BinPath
  import opened ClipFilter

  /** The errors the adapter raises (all of them `ValueError` in the source, except
      `NullChild`, which is the attribute error of reading the type of a null child). */
  datatype Error =
    | NoCurrentProject
    | InvalidBinPath(path: string)
    | UnsupportedPropertyType(propertyType: string)
    | ClipNotCreated(mediaPath: string)
    | ClipNotRetrieved(mediaPath: string)
    | MediaPathLocked(name: string)
    | NullChild

  /** A property added to the project metadata schema. */
  datatype SchemaEntry = SchemaEntry(name: string, displayName: string, valueType: nat)

  datatype TrackClip = TrackClip(projectItem: nat)
  datatype Track = Track(clips: seq<TrackClip>)
  /** A sequence of the host: its video tracks and its audio tracks, each in index order. */
  datatype Timeline = Timeline(videoTracks: seq<Track>, audioTracks: seq<Track>)

  /** What the engine reports as the host's current project. */
  datatype HostProject = HostProject(items: seq<Node>, activeSequence: Option<Timeline>)

  class Project {
    /** The host's items; index 0 is the root item. */
    var nodes: seq<Node>
    /** The properties added to the metadata schema, in the order they were added. */
    var schema: seq<SchemaEntry>
    var activeSequence: Option<Timeline>

    ghost predicate Valid()
      reads this
    {
      WellFormed(nodes)
    }

    constructor (host: HostProject)
      requires WellFormed(host.items)
      ensures Valid()
      ensures nodes == host.items && activeSequence == host.activeSequence && schema == []
    {
      nodes := host.items;
      activeSequence := host.activeSequence;
      schema := [];
    }

    /** `bins`: a stack seeded with the root; each bin popped is yielded after its non-null
        BIN children were pushed in slot order. What `Walk` yields is stated by
        `WalkVisitsEachReachableBinOnce` and `SubtreeLifo`. */
    method Bins() returns (bins: seq<nat>)
      requires Valid()
      ensures bins == Walk(nodes)
    {
      bins := [];
      var stack := [0];
      assert Pending(nodes, stack) == Walk(nodes) by {
        assert stack[..0] == [];
      }
      while stack != []
        invariant InRange(nodes, stack)
        invariant bins + Pending(nodes, stack) == Walk(nodes)
        decreases |Pending(nodes, stack)|
      {
        var b := stack[|stack| - 1];
        var base := stack[..|stack| - 1];
        PopStep(nodes, stack);
        var next := PushBinChildren(b, base);
        assert bins + [b] + Pending(nodes, next) == Walk(nodes);
        stack := next;
        bins := bins + [b];
      }
    }

    /** The inner loop of `bins`: scanning the children of `b` by index pushes each non-null
        BIN child, in slot order. */
    method PushBinChildren(b: nat, base: seq<nat>) returns (stack: seq<nat>)
      requires b < |nodes|
      ensures stack == base + BinChildren(nodes, nodes[b].children)
    {
      var children := nodes[b].children;
      stack := base;
      for i := 0 to |children|
        invariant stack == base + BinChildren(nodes, children[..i])
      {
        var child := children[i];
        assert children[..i + 1] == children[..i] + [child];
        BinChildrenSnoc(nodes, children[..i], child);
        if IsBinSlot(nodes, child) {
          stack := stack + [child.value];
        }
      }
      assert children[..|children|] == children;
    }

    /** `PremiereBin.clips` of bin `b`: its non-sequence CLIP children in slot order, up to the
        first null child, where reading the child's type raises. */
    method BinClipsOf(b: nat) returns (r: Partial<nat>)
      requires Valid() && b < |nodes|
      ensures r == BinClips(nodes, nodes[b].children)
    {
      var children := nodes[b].children;
      SlotsInRange(nodes, b);
      var items: seq<nat> := [];
      var i := 0;
      while i < |children|
        invariant 0 <= i <= |children|
        invariant BinClips(nodes, children[..i]) == Partial(items, false)
      {
        var child := children[i];
        assert children[..i + 1] == children[..i] + [child];
        if child.None? {
          BinClipsAppend(nodes, children[..i + 1], children[i + 1..]);
          assert children[..i + 1] + children[i + 1..] == children;
          return Partial(items, true);
        }
        if nodes[child.value].kind == Clip && !nodes[child.value].isSequence {
          items := items + [child.value];
        }
        i := i + 1;
      }
      assert children[..i] == children;
      r := Partial(items, false);
    }

    /** `PremiereProject.clips`: the clips of each bin, in the order `bins` yields the bins.
        `ProjectClipsOfWalk` and `ProjectClipsComplete` state what that scan yields. */
    method Clips() returns (r: Partial<nat>)
      requires Valid()
      ensures InRange(nodes, Walk(nodes)) && r == ProjectClips(nodes, Walk(nodes))
    {
      var bins := Bins();
      WalkInRange(nodes);
      r := ClipsOfBins(bins);
    }

    /** The loop of `PremiereProject.clips` over the bins it is given, stopping when a bin's
        scan raises. */
    method ClipsOfBins(bins: seq<nat>) returns (r: Partial<nat>)
      requires Valid() && InRange(nodes, bins)
      ensures r == ProjectClips(nodes, bins)
    {
      var items: seq<nat> := [];
      var i := 0;
      while i < |bins|
        invariant 0 <= i <= |bins|
        invariant ProjectClips(nodes, bins[..i]) == Partial(items, false)
      {
        var c := BinClipsOf(bins[i]);
        assert bins[..i + 1] == bins[..i] + [bins[i]];
        ProjectClipsSnoc(nodes, bins[..i], bins[i]);
        items := items + c.items;
        if c.failed {
          ProjectClipsFailedPrefix(nodes, bins, i + 1);
          return Partial(items, true);
        }
        i := i + 1;
      }
      assert bins[..i] == bins;
      r := Partial(items, false);
    }

    /** `get_clip_by_id`: the clip with that id if the scan yields it, an error if the scan
        raises first, None otherwise. An item's id is its index. */
    method GetClipById(id: nat) returns (r: Result<Option<nat>, Error>)
      requires Valid()
      ensures InRange(nodes, Walk(nodes))
      ensures var clips := ProjectClips(nodes, Walk(nodes));
              r == if id in clips.items then Success(Some(id))
                   else if clips.failed then Failure(NullChild)
                   else Success(None)
    {
      var clips := Clips();
      r := FindClipById(clips, id);
    }

    /** `get_bin_by_name` on bin `b` (on the root for the project-level call): the first
        non-null BIN child whose name is exactly `name`. */
    method GetBinByName(b: nat, name: string) returns (r: Option<nat>)
      requires Valid() && b < |nodes|
      ensures r == FindBin(nodes, nodes[b].children, name)
    {
      var children := nodes[b].children;
      SlotsInRange(nodes, b);
      for i := 0 to |children|
        invariant forall j :: 0 <= j < i ==> !IsBinNamed(nodes, children[j], name)
      {
        var child := children[i];
        if child.Some? && nodes[child.value].kind == Bin {
          if nodes[child.value].name == name {
            FindBinFirst(nodes, children, name, i);
            return Some(child.value);
          }
        }
      }
      return None;
    }

    /** `create_bin` on bin `b`: the host appends a new empty bin as the last child of `b`. */
    method CreateBin(b: nat, name: string) returns (c: nat)
      requires Valid() && b < |nodes|
      modifies this`nodes
      ensures Valid()
      ensures nodes == AppendSlot(old(nodes), b, Some(NewBin(name)))
      ensures c == |old(nodes)| && nodes[c] == NewBin(name) && nodes[b].children[|nodes[b].children| - 1] == Some(c)
    {
      c := |nodes|;
      nodes := AppendSlot(nodes, b, Some(NewBin(name)));
    }

    /** `ensure_bin` on bin `b`: the existing bin with that name, or a new one when the lookup
        fails. */
    method EnsureBin(b: nat, name: string) returns (c: nat)
      requires Valid() && b < |nodes|
      modifies this`nodes
      ensures Valid()
      ensures (nodes, c) == Ensured(old(nodes), b, name)
    {
      var found := GetBinByName(b, name);
      if found.Some? {
        c := found.value;
      } else {
        c := CreateBin(b, name);
      }
    }

    /** `ensure_bins_for_path`: refuses a path without a non-empty segment before touching the
        tree; otherwise ensures one bin per segment, each under the previous one, from the root. */
    method EnsureBinsForPath(path: string) returns (r: Result<nat, Error>)
      requires Valid()
      modifies this`nodes
      ensures Valid()
      ensures Segments(path) == [] ==> r == Failure(InvalidBinPath(path)) && nodes == old(nodes)
      ensures Segments(path) != [] ==>
                r.Success? && (nodes, r.value) == EnsuredPath(old(nodes), 0, Segments(path))
      ensures r.Success? ==> NamedPath(nodes, 0, Segments(path), r.value)
    {
      var parts := Segments(path);
      if parts == [] {
        return Failure(InvalidBinPath(path));
      }
      var current := EnsureBinsUnder(0, parts);
      r := Success(current);
      EnsuredPathSpellsSegments(old(nodes), 0, parts);
    }

    /** The loop of `ensure_bins_for_path`: `ensure_bin` for each segment in turn, each from
        the bin the previous one returned. */
    method EnsureBinsUnder(b: nat, parts: seq<string>) returns (current: nat)
      requires Valid() && b < |nodes|
      modifies this`nodes
      ensures Valid()
      ensures (nodes, current) == EnsuredPath(old(nodes), b, parts)
    {
      current := b;
      var i := 0;
      while i < |parts|
        invariant 0 <= i <= |parts|
        invariant Valid() && current < |nodes|
        invariant EnsuredPath(old(nodes), b, parts) == EnsuredPath(nodes, current, parts[i..])
      {
        EnsuredPathStep(nodes, current, parts[i..]);
        assert parts[i..][1..] == parts[i + 1..];
        current := EnsureBin(current, parts[i]);
        i := i + 1;
      }
    }

    /** `create_clip_from_media` into bin `b`: `added` is what the host's import appends to the
        bin's children. No new child is an error; so is a last child that is null or not a
        CLIP; otherwise the last child is the new clip. */
    method CreateClipFromMedia(b: nat, mediaPath: string, added: seq<Option<Node>>) returns (r: Result<nat, Error>)
      requires Valid() && b < |nodes|
      requires forall k :: 0 <= k < |added| && added[k].Some? ==> added[k].value.children == []
      modifies this`nodes
      ensures Valid()
      ensures nodes == Imported(old(nodes), b, added)
      ensures added == [] <==> r == Failure(ClipNotCreated(mediaPath))
      ensures added != [] ==>
                (r == Failure(ClipNotRetrieved(mediaPath)) <==>
                   added[|added| - 1].None? || added[|added| - 1].value.kind != Clip)
      ensures added != [] && added[|added| - 1].Some? && added[|added| - 1].value.kind == Clip ==> r.Success?
      ensures r.Success? ==>
                && r.value < |nodes| && nodes[r.value] == added[|added| - 1].value && nodes[r.value].kind == Clip
                && nodes[b].children[|nodes[b].children| - 1] == Some(r.value)
    {
      var after := Imported(nodes, b, added);
      if added != [] {
        ImportedLast(nodes, b, added);
      }
      var children := after[b].children;
      var oldCount := |nodes[b].children|;
      nodes := after;
      if oldCount == |children| {
        return Failure(ClipNotCreated(mediaPath));
      }
      var last := children[|children| - 1];
      if last.None? || after[last.value].kind != Clip {
        return Failure(ClipNotRetrieved(mediaPath));
      }
      return Success(last.value);
    }

    /** The `media_path` setter of clip `c`: refused, with nothing changed, when the host says
        the media path cannot be changed. */
    method SetMediaPath(c: nat, path: string) returns (r: Outcome<Error>)
      requires Valid() && c < |nodes|
      modifies this`nodes
      ensures Valid()
      ensures !old(nodes[c].canChangeMediaPath) ==> r == Fail(MediaPathLocked(old(nodes[c].name))) && nodes == old(nodes)
      ensures old(nodes[c].canChangeMediaPath) ==> r == Pass && nodes == old(nodes)[c := old(nodes[c]).(mediaPath := path)]
    {
      if !nodes[c].canChangeMediaPath {
        return Fail(MediaPathLocked(nodes[c].name));
      }
      ReplaceItemWellFormed(nodes, c, nodes[c].(mediaPath := path));
      nodes := nodes[c := nodes[c].(mediaPath := path)];
      return Pass;
    }

    /** `set_meta_data` on item `i`: the host stores the patched blob, and the value read back
        is `value` whenever the blob had any entry, None when it had none. */
    method SetMetaData(i: nat, property: string, value: string) returns (r: Option<string>)
      requires Valid() && i < |nodes|
      requires Literal(property) && Literal(value)
      modifies this`nodes
      ensures Valid()
      ensures nodes == old(nodes)[i := old(nodes[i]).(metadata := Patched(old(nodes[i].metadata), property, value))]
      ensures r == Get(nodes[i].metadata, property)
      ensures r == if HasEntry(old(nodes[i].metadata)) then Some(value) else None
    {
      var blob := Patched(nodes[i].metadata, property, value);
      if HasEntry(nodes[i].metadata) {
        PatchedRoundTrip(nodes[i].metadata, property, value);
      } else {
        PatchedWithoutEntries(nodes[i].metadata, property, value);
      }
      ReplaceItemWellFormed(nodes, i, nodes[i].(metadata := blob));
      nodes := nodes[i := nodes[i].(metadata := blob)];
      r := Get(nodes[i].metadata, property);
    }

    /** `add_meta_data_property`: an unknown type name is refused and the schema is left alone;
        otherwise the property is added with the type's code. */
    method AddMetaDataProperty(name: string, displayName: string, propertyType: string) returns (r: Outcome<Error>)
      modifies this`schema
      ensures TypeCode(propertyType).None? ==>
                r == Fail(UnsupportedPropertyType(propertyType)) && schema == old(schema)
      ensures TypeCode(propertyType).Some? ==>
                r == Pass && schema == old(schema) + [SchemaEntry(name, displayName, TypeCode(propertyType).value)]
    {
      var code := TypeCode(propertyType);
      if code.None? {
        return Fail(UnsupportedPropertyType(propertyType));
      }
      schema := schema + [SchemaEntry(name, displayName, code.value)];
      return Pass;
    }

    /** `current_timeline`: the host's active sequence, if any. */
    function CurrentTimeline(): Option<Timeline>
      reads this
    {
      activeSequence
    }
  }

  /** The search loop of `get_clip_by_id` over what the clips scan yielded: the clip when it
      was yielded, the scan's error when it raised before yielding it, None otherwise. */
  method FindClipById(clips: Partial<nat>, id: nat) returns (r: Result<Option<nat>, Error>)
    ensures r == if id in clips.items then Success(Some(id))
                 else if clips.failed then Failure(NullChild)
                 else Success(None)
  {
    var i := 0;
    while i < |clips.items|
      invariant 0 <= i <= |clips.items|
      invariant id !in clips.items[..i]
    {
      if clips.items[i] == id {
        return Success(Some(id));
      }
      assert clips.items[..i + 1] == clips.items[..i] + [clips.items[i]];
      i := i + 1;
    }
    assert clips.items[..i] == clips.items;
    if clips.failed {
      return Failure(NullChild);
    }
    return Success(None);
  }

  /** `get_current_project`: an error when the engine reports no project, otherwise a new
      adapter over the reported one. */
  method GetCurrentProject(host: Option<HostProject>) returns (r: Result<Project, Error>)
    requires host.Some? ==> WellFormed(host.value.items)
    ensures host.None? <==> r == Failure(NoCurrentProject)
    ensures host.Some? ==> r.Success?
    ensures r.Success? ==> fresh(r.value) && r.value.Valid() && r.value.nodes == host.value.items &&
                           r.value.activeSequence == host.value.activeSequence
  {
    if host.None? {
      return Failure(NoCurrentProject);
    }
    var p := new Project(host.value);
    return Success(p);
  }

  /** When the scan over a prefix of the bins has raised, later bins are never scanned. */
  lemma {:induction false} ProjectClipsFailedPrefix(nodes: seq<Node>, bins: seq<nat>, k: nat)
    requires InRange(nodes, bins) && k <= |bins|
    requires ProjectClips(nodes, bins[..k]).failed
    ensures ProjectClips(nodes, bins) == ProjectClips(nodes, bins[..k])
    decreases |bins| - k
  {
    if k < |bins| {
      var init := bins[..|bins| - 1];
      assert init[..k] == bins[..k];
      ProjectClipsFailedPrefix(nodes, init, k);
    } else {
      assert bins[..k] == bins;
    }
  }

  /** The first matching slot is what the lookup returns. */
  lemma FindBinFirst(nodes: seq<Node>, slots: seq<Slot>, name: string, i: nat)
    requires i < |slots| && IsBinNamed(nodes, slots[i], name)
    requires forall j :: 0 <= j < i ==> !IsBinNamed(nodes, slots[j], name)
    ensures FindBin(nodes, slots, name) == Some(slots[i].value)
  {
    var r := FindBin(nodes, slots, name);
    var j :| 0 <= j < |slots| && slots[j] == Some(r.value) && IsBinNamed(nodes, slots[j], name) &&
             forall k :: 0 <= k < j ==> !IsBinNamed(nodes, slots[k], name);
    assert j == i by {
      assert !(j < i);
      assert !(i < j);
    }
  }

  /** `tracks`: the video tracks, then the audio tracks, each in index order. */
  function Tracks(t: Timeline): (r: seq<Track>)
    ensures |r| == |t.videoTracks| + |t.audioTracks|
    ensures forall i :: 0 <= i < |t.videoTracks| ==> r[i] == t.videoTracks[i]
    ensures forall i :: 0 <= i < |t.audioTracks| ==> r[|t.videoTracks| + i] == t.audioTracks[i]
  {
    t.videoTracks + t.audioTracks
  }

  /** The clips of a run of tracks, track by track. */
  function TrackClips(tracks: seq<Track>): (r: seq<TrackClip>)
    ensures |tracks| == 1 ==> r == tracks[0].clips
  {
    if tracks == [] then [] else tracks[0].clips + TrackClips(tracks[1..])
  }

  lemma {:induction false} TrackClipsAppend(a: seq<Track>, b: seq<Track>)
    ensures TrackClips(a + b) == TrackClips(a) + TrackClips(b)
  {
    if a != [] {
      assert (a + b)[1..] == a[1..] + b;
      TrackClipsAppend(a[1..], b);
    } else {
      assert a + b == b;
    }
  }

  /** `PremiereTimeline.clips`: all clips of the video tracks come before any clip of an audio
      track. */
  lemma TimelineClipsVideoFirst(t: Timeline)
    ensures TrackClips(Tracks(t)) == TrackClips(t.videoTracks) + TrackClips(t.audioTracks)
  {
    TrackClipsAppend(t.videoTracks, t.audioTracks);
  }
}
