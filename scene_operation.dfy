/**
 * The snapshot hook's scene operations: `current_path` reports the project's path without
 * the Windows extended-length prefix, `open` closes the current project and opens a file,
 * `save` saves the project, and any other operation does nothing. The host calls the hook
 * makes are returned as a trace.
 */
module SceneOperation {
  import opened Wrappers

  /** The Windows extended-length path prefix: backslash, backslash, question mark, backslash. */
  const ExtendedPrefix: string := "\\\\?\\"

  /** Python's `s[a:b]` for `0 <= a <= b`: bounds past the end are clipped to the length. */
  function Slice(s: string, a: nat, b: nat): (r: string)
    requires a <= b
    ensures |r| == (if b <= |s| then b else |s|) - (if a <= |s| then a else |s|)
    ensures forall i :: 0 <= i < |r| ==> r[i] == s[a + i]
  {
    var lo := if a <= |s| then a else |s|;
    var hi := if b <= |s| then b else |s|;
    s[lo..hi]
  }

  /** Comparing the first four characters, as sliced, with the prefix is a prefix test,
      paths shorter than the prefix included. */
  lemma SliceComparesPrefix(path: string)
    ensures Slice(path, 0, 4) == ExtendedPrefix <==> ExtendedPrefix <= path
  {
    if ExtendedPrefix <= path {
      assert Slice(path, 0, 4) == path[..4];
    }
  }

  /** What `current_path` returns for the project path `path`. */
  function CurrentPath(path: string): (r: string)
    ensures ExtendedPrefix <= path <==> |r| == |path| - 4
    ensures path == (if |r| < |path| then ExtendedPrefix else "") + r
  {
    SliceComparesPrefix(path);
    if Slice(path, 0, 4) == ExtendedPrefix then
      assert path == path[..4] + path[4..];
      path[4..]
    else path
  }

  /** Paths shorter than the prefix come back unchanged. */
  lemma CurrentPathShort(path: string)
    requires |path| < 4
    ensures CurrentPath(path) == path
  {
  }

  /** Only one prefix is removed, so stripping is not idempotent. */
  lemma CurrentPathStripsOnce()
    ensures var doubled := ExtendedPrefix + ExtendedPrefix + "x";
            && CurrentPath(doubled) == ExtendedPrefix + "x"
            && CurrentPath(CurrentPath(doubled)) == "x"
  {
    var doubled := ExtendedPrefix + ExtendedPrefix + "x";
    assert ExtendedPrefix <= doubled;
    assert doubled[4..] == ExtendedPrefix + "x";
    assert ExtendedPrefix <= ExtendedPrefix + "x";
    assert (ExtendedPrefix + "x")[4..] == "x";
  }

  /** The host calls the hook issues, in order. */
  datatype HostCall = CloseDocument(saveFirst: int, promptIfDirty: int) | OpenDocument(path: string) | SaveProject

  datatype Response = Response(result: Option<string>, calls: seq<HostCall>)

  /** `execute(operation, file_path)` against a project whose path is `projectPath`. */
  function Execute(operation: string, filePath: string, projectPath: string): (r: Response)
    ensures r.result.Some? <==> operation == "current_path"
    ensures r.result.Some? ==> r.calls == [] && r.result.value == CurrentPath(projectPath)
    ensures operation == "open" ==>
              r.calls == [CloseDocument(0, 0), OpenDocument(filePath)]
    ensures operation == "save" ==> r.calls == [SaveProject]
    ensures operation !in {"current_path", "open", "save"} ==> r == Response(None, [])
  {
    if operation == "current_path" then Response(Some(CurrentPath(projectPath)), [])
    else if operation == "open" then Response(None, [CloseDocument(0, 0), OpenDocument(filePath)])
    else if operation == "save" then Response(None, [SaveProject])
    else Response(None, [])
  }

  /** Every call the hook makes opens, closes or saves the current project: the only file
      it opens is the one it was given, and only after closing. */
  lemma ExecuteOpensOnlyGivenFile(operation: string, filePath: string, projectPath: string, i: nat)
    requires i < |Execute(operation, filePath, projectPath).calls|
    requires Execute(operation, filePath, projectPath).calls[i].OpenDocument?
    ensures Execute(operation, filePath, projectPath).calls[i] == OpenDocument(filePath)
    ensures i > 0 && Execute(operation, filePath, projectPath).calls[i - 1].CloseDocument?
  {
  }
}
