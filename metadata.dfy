/**
 * Project metadata of a ProjectItem: the XMP packet the host returns, read and patched as text
 * by `get_meta_data` / `set_meta_data`, and the type vocabulary of `add_meta_data_property`.
 *
 * The packet is never parsed by the adapter. It is modelled as a sequence of segments: a
 * `premierePrivateProjectMetaData` tag pair on one line is an `Entry(name, value)`, and any
 * other text is `Other`. Tag matching is literal (see `Literal`).
 */
module Metadata {
  import opened Wrappers

  datatype Segment = Other(text: string) | Entry(name: string, value: string)

  type Blob = seq<Segment>

  /** Characters that the source's interpolated regular expressions treat specially, plus the
      tag and line delimiters. Names and values without them are matched and substituted literally. */
  const Special: set<char> := {'<', '>', '\n', '\\', '.', '^', '$', '*', '+', '?', '{', '}', '[', ']', '|', '(', ')'}

  predicate Literal(s: string)
  {
    forall i :: 0 <= i < |s| ==> s[i] !in Special
  }

  predicate IsEntryFor(s: Segment, property: string)
  {
    s.Entry? && s.name == property
  }

  predicate HasEntry(blob: Blob)
  {
    exists i :: 0 <= i < |blob| && blob[i].Entry?
  }

  /** `get_meta_data`: the inner text of the first tag pair for `property`, None when there is none. */
  function Get(blob: Blob, property: string): (r: Option<string>)
    ensures r.None? <==> forall i :: 0 <= i < |blob| ==> !IsEntryFor(blob[i], property)
    ensures r.Some? ==> exists i :: 0 <= i < |blob| && blob[i] == Entry(property, r.value) &&
                                    forall k :: 0 <= k < i ==> !IsEntryFor(blob[k], property)
  {
    if blob == [] then None
    else if IsEntryFor(blob[0], property) then Some(blob[0].value)
    else
      var r := Get(blob[1..], property);
      assert forall i :: 1 <= i < |blob| ==> blob[i] == blob[1..][i - 1];
      r
  }

  /** The first substitution of `set_meta_data`: every tag pair for `property` gets `value`. */
  function RewriteAll(blob: Blob, property: string, value: string): (r: Blob)
    ensures |r| == |blob|
    ensures forall i :: 0 <= i < |blob| ==>
              r[i] == if IsEntryFor(blob[i], property) then Entry(property, value) else blob[i]
  {
    if blob == [] then []
    else [if IsEntryFor(blob[0], property) then Entry(property, value) else blob[0]]
         + RewriteAll(blob[1..], property, value)
  }

  /** Position of the first tag pair of any name; |blob| when there is none. */
  function FirstEntry(blob: Blob): (i: nat)
    ensures i <= |blob|
    ensures i < |blob| <==> HasEntry(blob)
    ensures i < |blob| ==> blob[i].Entry?
    ensures forall k :: 0 <= k < i ==> blob[k].Other?
  {
    if blob == [] then 0
    else if blob[0].Entry? then 0
    else
      var i := 1 + FirstEntry(blob[1..]);
      assert HasEntry(blob) ==> HasEntry(blob[1..]) by {
        if HasEntry(blob) {
          var j :| 0 <= j < |blob| && blob[j].Entry?;
          assert blob[1..][j - 1].Entry?;
        }
      }
      assert forall k :: 1 <= k < |blob| ==> blob[k] == blob[1..][k - 1];
      i
  }

  /** The fallback substitution of `set_meta_data` (count 1): the first tag pair of any name
      becomes a tag pair for `property` holding `value`. */
  function RewriteFirst(blob: Blob, property: string, value: string): (r: Blob)
    ensures r == if FirstEntry(blob) < |blob| then blob[FirstEntry(blob) := Entry(property, value)] else blob
  {
    if blob == [] then []
    else if blob[0].Entry? then [Entry(property, value)] + blob[1..]
    else
      var rest := RewriteFirst(blob[1..], property, value);
      assert FirstEntry(blob) == 1 + FirstEntry(blob[1..]);
      assert blob == [blob[0]] + blob[1..];
      [blob[0]] + rest
  }

  /** The blob `set_meta_data` hands back to the host: the first substitution, or the fallback
      when the first substitution left the text unchanged. */
  function Patched(blob: Blob, property: string, value: string): (r: Blob)
    ensures |r| == |blob|
    ensures forall i :: 0 <= i < |blob| ==> (r[i].Entry? <==> blob[i].Entry?)
    ensures forall i :: 0 <= i < |blob| && blob[i].Other? ==> r[i] == blob[i]
  {
    var replaced := RewriteAll(blob, property, value);
    if replaced == blob then RewriteFirst(blob, property, value) else replaced
  }

  /** Without any entry the blob comes back unchanged, and the property still reads as absent. */
  lemma PatchedWithoutEntries(blob: Blob, property: string, value: string)
    requires !HasEntry(blob)
    ensures Patched(blob, property, value) == blob
    ensures Get(Patched(blob, property, value), property) == None
  {
    assert RewriteAll(blob, property, value) == blob;
  }

  /** Get after set: once the blob holds any entry, reading the property back yields `value`. */
  lemma PatchedRoundTrip(blob: Blob, property: string, value: string)
    requires HasEntry(blob)
    ensures Get(Patched(blob, property, value), property) == Some(value)
  {
    if RewriteAll(blob, property, value) != blob {
      RewriteAllReadsBack(blob, property, value);
    } else {
      RewriteFirstReadsBack(blob, property, value);
    }
  }

  /** When some entry for the property was rewritten, every entry for it now holds `value`. */
  lemma RewriteAllReadsBack(blob: Blob, property: string, value: string)
    requires RewriteAll(blob, property, value) != blob
    ensures Get(RewriteAll(blob, property, value), property) == Some(value)
  {
    var replaced := RewriteAll(blob, property, value);
    var i :| 0 <= i < |blob| && replaced[i] != blob[i];
    assert replaced[i] == Entry(property, value);
  }

  /** The fallback puts the property in the first entry, which is the first one read. */
  lemma {:induction false} RewriteFirstReadsBack(blob: Blob, property: string, value: string)
    requires HasEntry(blob)
    ensures Get(RewriteFirst(blob, property, value), property) == Some(value)
  {
    if blob[0].Other? {
      var j :| 0 <= j < |blob| && blob[j].Entry?;
      assert blob[1..][j - 1].Entry?;
      RewriteFirstReadsBack(blob[1..], property, value);
      var r := RewriteFirst(blob, property, value);
      assert r[1..] == RewriteFirst(blob[1..], property, value);
    }
  }

  /** When the property is already present with another value, only its entries change, so
      every other property reads as before. */
  lemma PatchedKeepsOtherProperties(blob: Blob, property: string, value: string, other: string)
    requires exists i :: 0 <= i < |blob| && IsEntryFor(blob[i], property) && blob[i].value != value
    requires other != property
    ensures Get(Patched(blob, property, value), other) == Get(blob, other)
  {
    var i :| 0 <= i < |blob| && IsEntryFor(blob[i], property) && blob[i].value != value;
    var replaced := RewriteAll(blob, property, value);
    assert replaced[i] != blob[i];
    GetRewriteAllOther(blob, property, value, other);
  }

  lemma {:induction false} GetRewriteAllOther(blob: Blob, property: string, value: string, other: string)
    requires other != property
    ensures Get(RewriteAll(blob, property, value), other) == Get(blob, other)
  {
    if blob != [] {
      GetRewriteAllOther(blob[1..], property, value, other);
      assert RewriteAll(blob, property, value)[1..] == RewriteAll(blob[1..], property, value);
    }
  }

  /** When every entry for the property already holds `value`, the first substitution changes
      nothing, so the fallback rewrites the first entry of any name. */
  lemma PatchedSameValueFallsBack(blob: Blob, property: string, value: string)
    requires forall i :: 0 <= i < |blob| && IsEntryFor(blob[i], property) ==> blob[i].value == value
    ensures Patched(blob, property, value) == RewriteFirst(blob, property, value)
  {
    assert RewriteAll(blob, property, value) == blob;
  }

  /** In that case, when the first entry belongs to another property that has no other entry,
      that property no longer reads back. */
  lemma PatchedSameValueLosesFirstEntry(blob: Blob, property: string, value: string)
    requires forall i :: 0 <= i < |blob| && IsEntryFor(blob[i], property) ==> blob[i].value == value
    requires HasEntry(blob) && !IsEntryFor(blob[FirstEntry(blob)], property)
    requires forall i :: 0 <= i < |blob| && i != FirstEntry(blob) ==> !IsEntryFor(blob[i], blob[FirstEntry(blob)].name)
    ensures Get(blob, blob[FirstEntry(blob)].name) == Some(blob[FirstEntry(blob)].value)
    ensures Get(Patched(blob, property, value), blob[FirstEntry(blob)].name) == None
  {
    var f := FirstEntry(blob);
    var other := blob[f].name;
    GetSoleEntry(blob, other, f);
    PatchedSameValueFallsBack(blob, property, value);
    var r := RewriteFirst(blob, property, value);
    assert r == blob[f := Entry(property, value)];
    forall i | 0 <= i < |r| ensures !IsEntryFor(r[i], other) {
      if i != f {
        assert r[i] == blob[i];
      }
    }
  }

  /** A property with a single entry reads as that entry's value. */
  lemma GetSoleEntry(blob: Blob, property: string, f: nat)
    requires f < |blob| && IsEntryFor(blob[f], property)
    requires forall i :: 0 <= i < |blob| && i != f ==> !IsEntryFor(blob[i], property)
    ensures Get(blob, property) == Some(blob[f].value)
  {
    var g := Get(blob, property);
    var j :| 0 <= j < |blob| && blob[j] == Entry(property, g.value) &&
             forall k :: 0 <= k < j ==> !IsEntryFor(blob[k], property);
    assert j == f;
  }

  /** The fallback fires whenever the first substitution changes nothing, which also happens
      when the property is already stored with the very same value: then the first entry of the
      packet, here property "a", is overwritten and "a" no longer reads back. */
  lemma PatchedSameValueOverwritesFirstEntry()
    ensures var blob := [Entry("a", "1"), Entry("p", "v")];
            && Patched(blob, "p", "v") == [Entry("p", "v"), Entry("p", "v")]
            && Get(blob, "a") == Some("1")
            && Get(Patched(blob, "p", "v"), "a") == None
  {
    var blob := [Entry("a", "1"), Entry("p", "v")];
    assert RewriteAll(blob, "p", "v") == blob;
    assert FirstEntry(blob) == 0;
    var r := Patched(blob, "p", "v");
    assert r == [Entry("p", "v"), Entry("p", "v")];
    assert !IsEntryFor(r[0], "a") && !IsEntryFor(r[1], "a");
  }

  /** The dictionary of `add_meta_data_property`, keyed by lower-case type name. */
  const ValueTypes: map<string, nat> :=
    map["int" := 0, "integer" := 0, "real" := 1, "float" := 1,
        "str" := 2, "string" := 2, "bool" := 3, "boolean" := 3]

  function LowerChar(c: char): (d: char)
    ensures 'A' <= c <= 'Z' ==> d as int == c as int + 32
    ensures !('A' <= c <= 'Z') ==> d == c
  {
    if 'A' <= c <= 'Z' then (c as int + 32) as char else c
  }

  /** `str.lower()` restricted to ASCII letters: the only other character that lowers to an
      ASCII letter is the Kelvin sign (to 'k'), which no type name contains. */
  function Lower(s: string): (r: string)
    ensures |r| == |s|
    ensures forall i :: 0 <= i < |s| ==> r[i] == LowerChar(s[i])
  {
    if s == [] then [] else [LowerChar(s[0])] + Lower(s[1..])
  }

  /** `{...}.get(property_type.lower())`: the schema value type code, None for an unknown name. */
  function TypeCode(propertyType: string): (r: Option<nat>)
    ensures r.Some? <==> Lower(propertyType) in ValueTypes
    ensures r.Some? ==> r.value <= 3
  {
    var key := Lower(propertyType);
    if key in ValueTypes then Some(ValueTypes[key]) else None
  }

  /** Lower-casing is idempotent, so a name and its lower-case form map to the same code. */
  lemma {:induction false} TypeCodeIgnoresCase(propertyType: string)
    ensures Lower(Lower(propertyType)) == Lower(propertyType)
    ensures TypeCode(Lower(propertyType)) == TypeCode(propertyType)
  {
    var l := Lower(propertyType);
    assert forall i :: 0 <= i < |l| ==> Lower(l)[i] == l[i];
  }

  /** Each code has exactly its two names (both directions), whatever their case. */
  lemma TypeCodeNames(propertyType: string, code: nat)
    ensures TypeCode(propertyType) == Some(code) <==>
              || (code == 0 && Lower(propertyType) in {"int", "integer"})
              || (code == 1 && Lower(propertyType) in {"real", "float"})
              || (code == 2 && Lower(propertyType) in {"str", "string"})
              || (code == 3 && Lower(propertyType) in {"bool", "boolean"})
  {
  }

  /** "int" and "INTEGER" give the same code. */
  lemma TypeCodeIntegerSynonyms()
    ensures TypeCode("int") == TypeCode("INTEGER") == Some(0)
  {
    assert Lower("INTEGER") == "integer";
    assert Lower("int") == "int";
    assert ValueTypes["integer"] == ValueTypes["int"] == 0;
  }

  /** An unsupported name such as "double" has no code. */
  lemma TypeCodeRefusesDouble()
    ensures TypeCode("double") == None
  {
    assert Lower("double") == "double";
  }
}
