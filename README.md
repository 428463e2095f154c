# tk-premiere: a verified model of the Premiere adapter's core

This project models the sequential logic that the Toolkit Premiere adapter puts on top of
Adobe Premiere's scripting proxies, together with the snapshot hook's scene operations.
It proves properties of that logic in Dafny.

The host's project is modelled as a finite table of ProjectItems (`ItemTree`):
- index 0 is the project's `rootItem`;
- each item has a type code (CLIP=1, BIN=2, ROOT=3, FILE=4), a name, an `isSequence` flag, a
  media path, whether the media path may change, its project metadata, and an indexed list of
  child slots;
- a slot is `None` where the host reports a null child;
- an item's node id is its position in the table.

A well-formed table has a ROOT item first, every child created after its parent, and every
item held in at most one slot, so each item has one parent.

`Premiere.Project` is the adapter object (`PremiereProject`). Its `nodes` field is the host tree.
Its methods model the `PremiereProject` operations and the `PremiereBin`, `PremiereClip` and
`PremiereItem` operations, with a bin or item id as an argument. The project-level
`get_bin_by_name`, `create_bin` and `ensure_bin` are those same methods on bin 0.

The modules:
- `Wrappers`: Option, Result, Outcome.
- `ItemTree`: items, type codes, well-formedness, growth of the tree (`Extends`), appending a slot.
- `BinWalk`: the bins walk as a specification (`Walk`, a LIFO pre-order), reachability, and the
  exactly-once theorem.
- `ClipFilter`: the clips of a bin and of a project. A generator that raises part-way is
  modelled as `Partial(items, failed)`.
- `BinLookup`: `get_bin_by_name`, `ensure_bin`, the fold of `ensure_bins_for_path`, and the
  child-count effect of `importFiles`.
- `BinPath`: the segment list of a bins path.
- `Metadata`: the XMP blob as a sequence of segments (`Entry(name, value)` tag pairs and
  `Other` text), `get_meta_data`, `set_meta_data`, and the property type names.
- `Premiere`: the adapter class and its methods, `get_current_project`, and timeline track order.
- `SceneOperation`: the snapshot hook's `execute`, with the host calls it makes returned as a trace.

## Model

| member | source | states |
|---|---|---|
| ItemTree.FromCode | python/tk_premiere/premiere.py:15-22 | an integer is an item type exactly when it is 1..4, and the type found has that code |
| Premiere.Project.Bins | python/tk_premiere/premiere.py:192-211 | the explicit-stack loop (pop the last entry, push its non-null BIN children in slot order, yield it) yields exactly the LIFO pre-order `Walk` of the tree |
| Premiere.Project.PushBinChildren | python/tk_premiere/premiere.py:205-209 | the index loop over a bin's children pushes exactly its non-null BIN children, in slot order, on top of the stack |
| BinWalk.WalkVisitsEachReachableBinOnce | python/tk_premiere/premiere.py:192-211 | the walk starts with the root; each item reachable from the root through non-null BIN children occurs exactly once, and nothing else occurs; every later entry is a BIN |
| BinWalk.SubtreeLifo | python/tk_premiere/project.py:92-103 | a bin's part of the walk continues, right after the bin, with its BIN child in the highest slot (LIFO order); for the root, that part is the whole walk |
| BinWalk.SubtreeReaches | python/tk_premiere/premiere.py:200-211 | a bin's part of the walk holds exactly the items reachable from it |
| BinWalk.SubtreeDistinct | python/tk_premiere/premiere.py:200-211 | on a tree where each item has one parent, a bin's part of the walk repeats no item |
| BinWalk.PendingDistinct | python/tk_premiere/premiere.py:200-211 | what remains to be yielded from a stack of unrelated bins repeats no item |
| BinWalk.PopStep | python/tk_premiere/premiere.py:202-211 | popping a bin and pushing its BIN children yields that bin first, then what the new stack yields |
| BinWalk.Laminar | python/tk_premiere/premiere.py:200-211 | with one parent per item, two bins that both reach an item are related by reachability |
| ClipFilter.BinClips | python/tk_premiere/premiere.py:513-528 | a bin's clips scan raises exactly when a slot is null; it yields only non-sequence CLIP children, and all of them when it does not raise |
| ClipFilter.BinClipsAppend | python/tk_premiere/project.py:149-153 | scanning two runs of slots in turn: the second is scanned only when the first did not raise |
| ClipFilter.BinClipsStopsAtNull | python/tk_premiere/premiere.py:524-527 | at a null slot the scan stops, keeping what it yielded before it and nothing after it |
| ClipFilter.BinClipsDistinct | python/tk_premiere/premiere.py:524-528 | when no slot repeats an item, no clip is yielded twice |
| Premiere.Project.BinClipsOf | python/tk_premiere/project.py:140-153 | the index loop of `PremiereBin.clips`, with its early stop at a null child, computes `BinClips` |
| ClipFilter.ProjectClipsMembers | python/tk_premiere/premiere.py:213-222 | the project scan over a list of bins raises exactly when one of them has a null slot; it yields only non-sequence CLIP children of those bins, and all of them when it does not raise |
| ClipFilter.ProjectClipsDistinct | python/tk_premiere/project.py:105-111 | over bins listed once each, no clip is yielded twice |
| ClipFilter.ProjectClipsSnoc | python/tk_premiere/premiere.py:220-222 | one more bin adds its clips to the scan unless an earlier bin raised |
| ClipFilter.ProjectClipsOfWalk | python/tk_premiere/premiere.py:213-222 | over the bins walk, the clips scan raises exactly when a reachable bin has a null slot; each clip it yields is yielded once and is a non-sequence CLIP child of a reachable bin |
| ClipFilter.ProjectClipsComplete | python/tk_premiere/project.py:105-111 | when the scan does not raise, every non-sequence CLIP child of a reachable bin is yielded |
| Premiere.Project.Clips | python/tk_premiere/premiere.py:213-222 | the nested loops compute the project scan over the bins walk |
| Premiere.Project.ClipsOfBins | python/tk_premiere/premiere.py:220-222 | the loop over bins, stopping at the first bin whose scan raises, computes `ProjectClips` |
| Premiere.ProjectClipsFailedPrefix | python/tk_premiere/premiere.py:220-222 | once the scan has raised, later bins change nothing |
| Premiere.FindClipById | python/tk_premiere/premiere.py:252-255 | the search returns the clip when the scan yielded it, else the scan's error when the scan raised, else None |
| Premiere.Project.GetClipById | python/tk_premiere/premiere.py:246-255 | `get_clip_by_id` returns the clip when the project clips scan yields it, raises when the scan raises without yielding it, and returns None otherwise |
| BinLookup.FindBin | python/tk_premiere/premiere.py:530-541 | the lookup result is None exactly when no slot holds a non-null BIN with that exact name; otherwise it is the first such slot's item, so CLIPs and other names never match |
| BinLookup.FindBinPrefix | python/tk_premiere/premiere.py:536-540 | slots appended after a match do not change the match |
| BinLookup.FindBinStable | python/tk_premiere/premiere.py:536-540 | growing the tree does not change what a lookup over existing slots finds |
| Premiere.Project.GetBinByName | python/tk_premiere/premiere.py:530-541 | the index loop with early return computes `FindBin` over the bin's children |
| Premiere.Project.CreateBin | python/tk_premiere/premiere.py:543-550 | `createBin` appends one new empty bin with that name as the last child of the bin and returns it |
| BinLookup.Ensured | python/tk_premiere/premiere.py:552-562 | `ensure_bin` returns the existing match unchanged when lookup finds one; otherwise it appends exactly one new bin; afterwards the lookup finds the returned bin |
| BinLookup.EnsuredIsNamedChild | python/tk_premiere/premiere.py:552-562 | the bin `ensure_bin` returns is a BIN child of the bin with exactly that name |
| BinLookup.EnsuredIdempotent | python/tk_premiere/premiere.py:284-292 | a second `ensure_bin` with the same name returns the same bin and adds no child |
| BinLookup.EnsuredStable | python/tk_premiere/premiere.py:559-562 | a bin once ensured is what `ensure_bin` finds, with no change, in any later grown tree |
| Premiere.Project.EnsureBin | python/tk_premiere/premiere.py:284-292 | the method computes `Ensured`: lookup, then `createBin` only on a miss |
| BinPath.Split | python/tk_premiere/premiere.py:302 | `str.split` on one separator: at least one piece, no piece contains the separator, and joining the pieces gives back the string |
| BinPath.SplitJoin | python/tk_premiere/premiere.py:302 | splitting undoes joining pieces that contain no separator |
| BinPath.NonEmpty | python/tk_premiere/premiere.py:302 | the filter keeps exactly the non-empty pieces |
| BinPath.NonEmptyAppend | python/tk_premiere/premiere.py:302 | the filter keeps order and multiplicity: filtering a concatenation concatenates the filtered parts |
| BinPath.SplitAtSeparator | python/tk_premiere/premiere.py:302 | splitting at a separator splits the two sides independently |
| BinPath.SegmentsAtSeparator | python/tk_premiere/premiere.py:302 | for all paths, the segments of `p/q` are those of `p` followed by those of `q`, so a leading, trailing or doubled `/` changes nothing |
| BinPath.Segments | python/tk_premiere/premiere.py:302 | every segment is non-empty and contains no `/` |
| BinPath.SegmentsEmptyIff | python/tk_premiere/premiere.py:302-304 | the path has no segment exactly when it consists only of `/` characters, the empty path included |
| BinPath.SegmentsIgnoreExtraSeparators | python/tk_premiere/premiere.py:302 | `"/a//b/"` and `"a/b"` give the same segments, `a` then `b` |
| BinPath.SegmentsOfJoin | python/tk_premiere/premiere.py:302 | non-empty names without `/`, joined with `/`, read back as the same segments |
| BinLookup.EnsuredPath | python/tk_premiere/premiere.py:305-308 | the fold of `ensure_bin` over the segments keeps the tree well formed and only grows it |
| BinLookup.EnsuredPathSpellsSegments | python/tk_premiere/premiere.py:294-308 | the bin returned lies under the root at the end of a chain of bins named by the segments, in order |
| BinLookup.EnsuredPathIdempotent | python/tk_premiere/premiere.py:294-308 | ensuring the same path twice returns the same bin and changes nothing the second time |
| Premiere.Project.EnsureBinsForPath | python/tk_premiere/premiere.py:294-308 | a path with no non-empty segment is refused with nothing changed; otherwise the tree and the result are the fold from the root, and the result is reached through bins named by the segments |
| Premiere.Project.EnsureBinsUnder | python/tk_premiere/premiere.py:305-308 | the loop updating the current bin computes the fold of `ensure_bin` over the segments |
| BinLookup.Imported | python/tk_premiere/premiere.py:573-580 | the import appends one slot per added item to the bin, keeping the tree well formed |
| BinLookup.ImportedLast | python/tk_premiere/premiere.py:583-587 | after an import, the last child is null exactly when the last added item is, and otherwise it is that item |
| Premiere.Project.CreateClipFromMedia | python/tk_premiere/premiere.py:564-589 | an unchanged child count raises `ClipNotCreated`; a null or non-CLIP last child raises `ClipNotRetrieved`; otherwise it succeeds, and the result is the last child, a CLIP |
| Premiere.Project.SetMediaPath | python/tk_premiere/premiere.py:616-625 | when the host forbids the change the setter raises and changes nothing; otherwise only that clip's media path changes |
| Metadata.Get | python/tk_premiere/premiere.py:73-108 | `get_meta_data` returns None exactly when no tag pair names the property; otherwise it returns the value of the first one |
| Metadata.GetSoleEntry | python/tk_premiere/premiere.py:73-108 | for every blob, a property that has exactly one tag pair reads as that pair's value, wherever the pair sits |
| Metadata.RewriteAll | python/tk_premiere/premiere.py:121-125 | the first substitution rewrites exactly the tag pairs for the property to the new value and leaves every other segment alone |
| Metadata.FirstEntry | python/tk_premiere/premiere.py:130-135 | the position of the first tag pair of any name, or the length when there is none |
| Metadata.RewriteFirst | python/tk_premiere/premiere.py:130-135 | the fallback (count 1) replaces only the first tag pair of any name with the property's pair |
| Metadata.Patched | python/tk_premiere/premiere.py:110-137 | the blob written back keeps its shape: tag pairs stay tag pairs and other text is untouched |
| Metadata.PatchedRoundTrip | python/tk_premiere/premiere.py:110-138 | when the blob holds any tag pair, reading the property back after `set_meta_data` gives the value set |
| Metadata.RewriteAllReadsBack | python/tk_premiere/premiere.py:121-125 | when the first substitution changed the blob, the property reads back as the new value |
| Metadata.RewriteFirstReadsBack | python/tk_premiere/premiere.py:126-135 | after the fallback, the property reads back as the new value |
| Metadata.PatchedWithoutEntries | python/tk_premiere/premiere.py:126-137 | with no tag pair at all, the blob is written back unchanged and the property reads as absent |
| Metadata.PatchedKeepsOtherProperties | python/tk_premiere/premiere.py:121-125 | when the property is present with another value, other properties read back unchanged |
| Metadata.PatchedSameValueFallsBack | python/tk_premiere/premiere.py:121-135 | for every blob, when each entry for the property already holds the value, the first substitution changes nothing and the blob written back is the fallback, which rewrites the first entry of any name |
| Metadata.PatchedSameValueLosesFirstEntry | python/tk_premiere/premiere.py:126-135 | in that case, when the first entry belongs to another property held nowhere else, that property read its value before and reads as absent after |
| Metadata.PatchedSameValueOverwritesFirstEntry | python/tk_premiere/premiere.py:126-135 | for example, setting `p` to `v` in the blob `a=1, p=v` gives `p=v, p=v`, and `a` no longer reads back |
| Premiere.Project.SetMetaData | python/tk_premiere/premiere.py:110-138 | the item's stored blob becomes the patched blob; the result is the value read back, which is `value` when the blob held any tag pair and None otherwise |
| Metadata.Lower | python/tk_premiere/premiere.py:332 | lower-casing keeps the length and lowers each character |
| Metadata.TypeCode | python/tk_premiere/premiere.py:323-332 | a type name has a code exactly when its lower-case form is in the table; codes are 0..3 |
| Metadata.TypeCodeNames | python/tk_premiere/premiere.py:323-332 | code 0 is exactly int/integer, 1 real/float, 2 str/string, 3 bool/boolean, in any case |
| Metadata.TypeCodeIgnoresCase | python/tk_premiere/premiere.py:332 | a name and its lower-case form have the same code |
| Metadata.TypeCodeIntegerSynonyms | python/tk_premiere/premiere.py:324-325 | "int" and "INTEGER" both map to 0 |
| Metadata.TypeCodeRefusesDouble | python/tk_premiere/premiere.py:334-335 | an unsupported name such as "double" has no code |
| Premiere.Project.AddMetaDataProperty | python/tk_premiere/premiere.py:310-340 | an unknown type name raises and the schema is left alone; otherwise exactly one schema entry with that type code is added |
| Premiere.GetCurrentProject | python/tk_premiere/project.py:56-68 | no current project raises; a reported project always succeeds, with a new adapter wrapping it |
| Premiere.Tracks | python/tk_premiere/premiere.py:417-427 | the video tracks in index order, then the audio tracks in index order |
| Premiere.TrackClipsAppend | python/tk_premiere/premiere.py:430-438 | the clips of two runs of tracks are the clips of the first followed by those of the second |
| Premiere.TimelineClipsVideoFirst | python/tk_premiere/premiere.py:430-438 | the timeline's clips (`TrackClips` of `Tracks`, the model of `PremiereTimeline.clips` over `PremiereTrack.clips`) are all video-track clips followed by all audio-track clips |
| SceneOperation.Slice | hooks/tk-multi-snapshot/basic/scene_operation.py:39-40 | Python slicing clips both bounds to the length |
| SceneOperation.SliceComparesPrefix | hooks/tk-multi-snapshot/basic/scene_operation.py:39 | the first four characters, as sliced, equal the extended-length prefix exactly when the path starts with it, including for paths shorter than four characters |
| SceneOperation.CurrentPath | hooks/tk-multi-snapshot/basic/scene_operation.py:37-41 | the result is four characters shorter exactly when the path starts with the prefix, and the path is that prefix (or nothing) followed by the result |
| SceneOperation.CurrentPathShort | hooks/tk-multi-snapshot/basic/scene_operation.py:39-41 | paths shorter than the prefix come back unchanged |
| SceneOperation.CurrentPathStripsOnce | hooks/tk-multi-snapshot/basic/scene_operation.py:40 | only one prefix is removed, so applying it twice removes two: the operation is not idempotent |
| SceneOperation.Execute | hooks/tk-multi-snapshot/basic/scene_operation.py:19-49 | only `current_path` returns a value, the stripped path, with no host call; `open` closes the document without saving or prompting and then opens the given file; `save` saves; anything else makes no call |
| SceneOperation.ExecuteOpensOnlyGivenFile | hooks/tk-multi-snapshot/basic/scene_operation.py:43-45 | the only file opened is the one given, and only right after the current document was closed |

## Left out

- Regular-expression semantics of `get_meta_data` and `set_meta_data`: names are interpolated unescaped (a `.` is a wildcard), `.*` is greedy within a line, and `re.sub` processes backslashes in the value. The blob is modelled as segments with literal matching, and `Premiere.Project.SetMetaData` requires names and values free of regex metacharacters, `<`, `>`, newline and backslash.
- The host's reaction to `setProjectMetadata(repl, [property])` is modelled as "the stored blob becomes `repl`"; XMP parsing by the host is not modelled.
- `Premiere.Project.SetMetaData`: reads the value back from the modelled stored blob. It cannot capture a host that stores something else.
- `Metadata.Lower`: lower-cases ASCII letters only. Full Unicode `str.lower()` differs only on characters that no accepted type name contains.
- Node ids are modelled as positions in the item table. The host's `nodeId` strings and the forwarding accessors (`name`, `node_id`, `path`, `item`, `PremiereTrackClip.clip`, `get_insertion_bin`) carry no logic and are not modelled.
- `current_timeline` is modelled as `Premiere.Project.CurrentTimeline`, a plain read of the host's active sequence. It has nothing to state beyond that, so it has no row.
- `timelines` and other host iteration of `sequences` are not modelled: they are one proxy call each.
- `PremiereProject.save`: folder creation on the filesystem and the host `save`/`saveAs` calls are I/O and are not modelled.
- `python/tk_premiere/session_info.py` (floating-point timing reshaping of host objects) and `python/tk_premiere/__init__.py` (imports) are not part of this model.
- `sgtk.platform.current_engine()` and `engine.adobe.app.project` become explicit parameters: `Premiere.GetCurrentProject` takes the reported project, and `Premiere.Project.CreateClipFromMedia` takes the slots `importFiles` appends (`added`).
- `Premiere.Project.CreateClipFromMedia`: the host appends imported items at the end of the bin's children, as the source assumes. An import that reorders or removes children is not modelled.
- Generators are modelled as the finished list of what they yield, plus whether they raised (`Partial`). Laziness and interleaving with a consumer that stops early are not modelled.
- `python/tk_premiere/project.py` repeats `get_current_project`, `bins`, `clips` and `PremiereBin.clips` from `premiere.py` verbatim. Each is modelled once and the rows cite whichever file states the property.
- `Premiere.Project.Bins`: its contract states the result equals `BinWalk.Walk`. Root first, exactly-once and LIFO order are proved about `Walk` in `BinWalk.WalkVisitsEachReachableBinOnce` and `BinWalk.SubtreeLifo`.
- `SceneOperation.Execute`: the trace records only the host calls that change the host (close, open, save). The reads of `project.path` are not in the trace.
- The host's own behaviour on a cyclic or shared item tree is not modelled. The tree is assumed well formed: each item has one parent and children are created after their parent.
