/**
 * The segment list `ensure_bins_for_path` computes from a bins path: the path split on `/`
 * (with the splitting rules of a string split on one separator character), then every empty
 * piece dropped, so leading, trailing and repeated separators do not matter.
 */
module BinPath {

  /** The pieces between separators, the separators themselves removed; the empty string is
      one empty piece. */
  function Split(s: string, sep: char): (parts: seq<string>)
    ensures |parts| >= 1
    ensures forall i :: 0 <= i < |parts| ==> sep !in parts[i]
    ensures Join(parts, sep) == s
  {
    if s == [] then [""]
    else
      var rest := Split(s[1..], sep);
      if s[0] == sep then
        assert s == [sep] + s[1..];
        [""] + rest
      else
        JoinHead(s[0], rest, sep);
        assert s == [s[0]] + s[1..];
        [[s[0]] + rest[0]] + rest[1..]
  }

  /** The pieces put back together with the separator between each two. */
  function Join(parts: seq<string>, sep: char): string
    requires |parts| >= 1
  {
    if |parts| == 1 then parts[0] else parts[0] + [sep] + Join(parts[1..], sep)
  }

  /** Putting a character in front of the first piece puts it in front of the joined string. */
  lemma JoinHead(c: char, parts: seq<string>, sep: char)
    requires |parts| >= 1
    ensures Join([[c] + parts[0]] + parts[1..], sep) == [c] + Join(parts, sep)
  {
    var q := [[c] + parts[0]] + parts[1..];
    assert q[1..] == parts[1..];
  }

  /** Splitting undoes joining pieces that do not contain the separator. */
  lemma {:induction false} SplitJoin(parts: seq<string>, sep: char)
    requires |parts| >= 1
    requires forall i :: 0 <= i < |parts| ==> sep !in parts[i]
    ensures Split(Join(parts, sep), sep) == parts
    decreases |parts|, |parts[0]|
  {
    var p := parts[0];
    if p == [] {
      if |parts| > 1 {
        SplitJoin(parts[1..], sep);
        assert Join(parts, sep) == [sep] + Join(parts[1..], sep);
        assert ([sep] + Join(parts[1..], sep))[1..] == Join(parts[1..], sep);
        assert parts == [""] + parts[1..];
      }
    } else {
      var q := [p[1..]] + parts[1..];
      assert q[1..] == parts[1..];
      forall i | 0 <= i < |q| ensures sep !in q[i] {
        if i == 0 {
          assert forall c :: c in p[1..] ==> c in p;
        } else {
          assert q[i] == parts[i];
        }
      }
      SplitJoin(q, sep);
      assert p == [p[0]] + p[1..];
      JoinHead(p[0], q, sep);
      assert [[p[0]] + q[0]] + q[1..] == parts;
      var s := Join(parts, sep);
      assert s == [p[0]] + Join(q, sep);
      assert s[1..] == Join(q, sep);
      assert s[0] == p[0] && p[0] != sep;
    }
  }

  /** The pieces that are not empty, in order. */
  function NonEmpty(parts: seq<string>): (r: seq<string>)
    ensures forall i :: 0 <= i < |r| ==> r[i] != [] && r[i] in parts
    ensures forall x :: x in parts && x != [] ==> x in r
  {
    if parts == [] then []
    else if parts[0] == [] then NonEmpty(parts[1..])
    else [parts[0]] + NonEmpty(parts[1..])
  }

  /** `[p for p in path.split("/") if p]`. */
  function Segments(path: string): (r: seq<string>)
    ensures forall i :: 0 <= i < |r| ==> r[i] != [] && '/' !in r[i]
  {
    NonEmpty(Split(path, '/'))
  }

  /** The path is refused exactly when it has no character other than `/`, the empty path
      included. */
  lemma {:induction false} SegmentsEmptyIff(path: string)
    ensures Segments(path) == [] <==> forall i :: 0 <= i < |path| ==> path[i] == '/'
  {
    if path != [] {
      SegmentsEmptyIff(path[1..]);
      var rest := Split(path[1..], '/');
      if path[0] == '/' {
        assert Split(path, '/') == [""] + rest;
        assert NonEmpty([""] + rest) == NonEmpty(rest);
        assert forall i :: 1 <= i < |path| ==> path[i] == path[1..][i - 1];
      } else {
        var parts := Split(path, '/');
        assert parts[0] == [path[0]] + rest[0];
        assert parts[0] in parts;
      }
    }
  }

  /** Extra separators at either end or between segments give the same segment list. */
  lemma SegmentsIgnoreExtraSeparators()
    ensures Segments("/a//b/") == Segments("a/b") == ["a", "b"]
  {
    SplitPadded();
    SplitPlain();
    assert NonEmpty(["", "a", "", "b", ""]) == ["a", "b"] by {
      assert ["", "a", "", "b", ""][1..] == ["a", "", "b", ""];
      assert ["a", "", "b", ""][1..] == ["", "b", ""];
      assert ["", "b", ""][1..] == ["b", ""];
      assert ["b", ""][1..] == [""];
    }
    assert NonEmpty(["a", "b"]) == ["a", "b"] by {
      NonEmptyKeeps(["a", "b"]);
    }
  }

  lemma SplitPadded()
    ensures Split("/a//b/", '/') == ["", "a", "", "b", ""]
  {
    SplitSeparatedB();
    assert "//b/"[1..] == "/b/";
    assert Split("//b/", '/') == ["", "", "b", ""];
    assert "a//b/"[1..] == "//b/";
    assert "a//b/"[0] == 'a' && ['a'] + "" == "a";
    assert Split("a//b/", '/') == ["a", "", "b", ""];
    assert "/a//b/"[1..] == "a//b/";
  }

  lemma SplitSeparatedB()
    ensures Split("/b/", '/') == ["", "b", ""]
  {
    assert Split("", '/') == [""];
    assert "/"[1..] == "";
    assert Split("/", '/') == ["", ""];
    assert "b/"[1..] == "/";
    assert "b/"[0] == 'b' && ['b'] + "" == "b";
    assert Split("b/", '/') == ["b", ""];
    assert "/b/"[1..] == "b/";
  }

  lemma SplitPlain()
    ensures Split("a/b", '/') == ["a", "b"]
  {
    assert "b"[1..] == "";
    assert "b"[0] == 'b' && ['b'] + "" == "b";
    assert Split("b", '/') == ["b"];
    assert "/b"[1..] == "b";
    assert Split("/b", '/') == ["", "b"];
    assert "a/b"[1..] == "/b";
    assert "a/b"[0] == 'a' && ['a'] + "" == "a";
  }

  /** Splitting at a separator splits the two sides independently: `/` ends one piece and
      starts the next. */
  lemma {:induction false} SplitAtSeparator(p: string, sep: char, q: string)
    ensures Split(p + [sep] + q, sep) == Split(p, sep) + Split(q, sep)
  {
    if p == [] {
      assert p + [sep] + q == [sep] + q;
      assert ([sep] + q)[1..] == q;
    } else {
      var s := p + [sep] + q;
      assert s[0] == p[0];
      assert s[1..] == p[1..] + [sep] + q;
      SplitAtSeparator(p[1..], sep, q);
    }
  }

  /** The filter keeps the pieces in order: filtering a concatenation concatenates the
      filtered parts. */
  lemma {:induction false} NonEmptyAppend(a: seq<string>, b: seq<string>)
    ensures NonEmpty(a + b) == NonEmpty(a) + NonEmpty(b)
  {
    if a == [] {
      assert a + b == b;
    } else {
      assert (a + b)[1..] == a[1..] + b;
      NonEmptyAppend(a[1..], b);
    }
  }

  /** A separator between two paths only separates them: the segments of `p/q` are those of
      `p` followed by those of `q`, so a leading, trailing or doubled `/` changes nothing. */
  lemma SegmentsAtSeparator(p: string, q: string)
    ensures Segments(p + "/" + q) == Segments(p) + Segments(q)
  {
    SplitAtSeparator(p, '/', q);
    NonEmptyAppend(Split(p, '/'), Split(q, '/'));
  }

  /** Segments joined with `/` read back as the same segments. */
  lemma SegmentsOfJoin(segments: seq<string>)
    requires |segments| >= 1
    requires forall i :: 0 <= i < |segments| ==> segments[i] != [] && '/' !in segments[i]
    ensures Segments(Join(segments, '/')) == segments
  {
    SplitJoin(segments, '/');
    NonEmptyKeeps(segments);
  }

  lemma {:induction false} NonEmptyKeeps(parts: seq<string>)
    requires forall i :: 0 <= i < |parts| ==> parts[i] != []
    ensures NonEmpty(parts) == parts
  {
    if parts != [] {
      NonEmptyKeeps(parts[1..]);
    }
  }
}
