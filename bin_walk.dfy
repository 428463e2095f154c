/**
 * What `PremiereProject.bins` visits: the explicit-stack walk over BIN children, stated as a
 * recursive definition (`Subtree`, `Pending`) and related to reachability through bin children.
 */
module BinWalk {
  import opened Wrappers
  import opened ItemTree

  /** A non-null slot holding a BIN item: what `if child and child.type == ItemType.BIN` accepts. */
  predicate IsBinSlot(nodes: seq<Node>, s: Slot)
  {
    s.Some? && s.value < |nodes| && nodes[s.value].kind == Bin
  }

  /** The ids one scan of `slots` pushes, in slot order: exactly the non-null BIN children. */
  function BinChildren(nodes: seq<Node>, slots: seq<Slot>): (r: seq<nat>)
    ensures forall x :: x in r <==> Some(x) in slots && x < |nodes| && nodes[x].kind == Bin
  {
    if slots == [] then []
    else
      var last := slots[|slots| - 1];
      assert slots == slots[..|slots| - 1] + [last];
      BinChildren(nodes, slots[..|slots| - 1]) + (if IsBinSlot(nodes, last) then [last.value] else [])
  }

  /** Scanning one more slot pushes it when it holds a bin. */
  lemma BinChildrenSnoc(nodes: seq<Node>, slots: seq<Slot>, s: Slot)
    ensures BinChildren(nodes, slots + [s]) == BinChildren(nodes, slots) + (if IsBinSlot(nodes, s) then [s.value] else [])
  {
    assert (slots + [s])[..|slots|] == slots;
  }

  lemma ChildrenAbove(nodes: seq<Node>, b: nat)
    requires WellFormed(nodes) && b < |nodes|
    ensures forall x :: x in BinChildren(nodes, nodes[b].children) ==> b < x < |nodes|
    ensures InRange(nodes, BinChildren(nodes, nodes[b].children))
  {
    forall x | x in BinChildren(nodes, nodes[b].children) ensures b < x < |nodes| {
      var j :| 0 <= j < |nodes[b].children| && nodes[b].children[j] == Some(x);
    }
    var kids := BinChildren(nodes, nodes[b].children);
    assert forall i :: 0 <= i < |kids| ==> kids[i] in kids;
  }

  /** The smallest id on a stack (`top` for the empty stack); only a termination measure. */
  function Least(top: nat, s: seq<nat>): (m: nat)
    ensures m <= top
    ensures m == top || m in s
    ensures forall x :: x in s ==> m <= x
  {
    if s == [] then top
    else
      var rest := Least(top, s[..|s| - 1]);
      assert s == s[..|s| - 1] + [s[|s| - 1]];
      if s[|s| - 1] < rest then s[|s| - 1] else rest
  }

  /** The order in which the walk yields `b` and the bins below it: `b` first, then the
      subtrees of its bin children from the last slot to the first (LIFO). */
  function Subtree(nodes: seq<Node>, b: nat): seq<nat>
    requires WellFormed(nodes) && b < |nodes|
    decreases |nodes| - b, 0
  {
    var kids := BinChildren(nodes, nodes[b].children);
    ChildrenAbove(nodes, b);
    [b] + Pending(nodes, kids)
  }

  /** What is still to be yielded from a stack: the subtree of the top, then the rest. */
  function Pending(nodes: seq<Node>, stack: seq<nat>): seq<nat>
    requires WellFormed(nodes) && InRange(nodes, stack)
    decreases |nodes| - Least(|nodes|, stack), |stack|
  {
    if stack == [] then []
    else Subtree(nodes, stack[|stack| - 1]) + Pending(nodes, stack[..|stack| - 1])
  }

  /** The sequence `bins` yields for a project whose root item is id 0. */
  function Walk(nodes: seq<Node>): seq<nat>
    requires WellFormed(nodes)
  {
    Subtree(nodes, 0)
  }

  /** `x` can be reached from `b` by following non-null BIN children (zero or more steps). */
  ghost predicate Reaches(nodes: seq<Node>, b: nat, x: nat)
    requires WellFormed(nodes)
    decreases |nodes| - b
  {
    && b < |nodes|
    && (|| x == b
        || exists j :: 0 <= j < |nodes[b].children| && IsBinSlot(nodes, nodes[b].children[j]) &&
                       Reaches(nodes, nodes[b].children[j].value, x))
  }

  ghost predicate IsBinChildOf(nodes: seq<Node>, p: nat, x: nat)
  {
    p < |nodes| && Some(x) in nodes[p].children && x < |nodes| && nodes[x].kind == Bin
  }

  /** Every id on a stack names an item. */
  predicate InRange(nodes: seq<Node>, stack: seq<nat>)
  {
    forall i :: 0 <= i < |stack| ==> stack[i] < |nodes|
  }

  predicate Distinct(s: seq<nat>)
  {
    forall i, j :: 0 <= i < j < |s| ==> s[i] != s[j]
  }

  lemma ChildAboveParent(nodes: seq<Node>, p: nat, x: nat)
    requires WellFormed(nodes) && IsBinChildOf(nodes, p, x)
    ensures p < x
  {
    var j :| 0 <= j < |nodes[p].children| && nodes[p].children[j] == Some(x);
  }

  /** Every bin has one parent. */
  lemma UniqueParent(nodes: seq<Node>, p: nat, q: nat, x: nat)
    requires WellFormed(nodes) && IsBinChildOf(nodes, p, x) && IsBinChildOf(nodes, q, x)
    ensures p == q
  {
    var j :| 0 <= j < |nodes[p].children| && nodes[p].children[j] == Some(x);
    var k :| 0 <= k < |nodes[q].children| && nodes[q].children[k] == Some(x);
  }

  lemma {:induction false} ReachesBound(nodes: seq<Node>, b: nat, x: nat)
    requires WellFormed(nodes) && Reaches(nodes, b, x)
    ensures b <= x < |nodes|
    ensures x != b ==> nodes[x].kind == Bin
    decreases |nodes| - b
  {
    if x != b {
      var j :| 0 <= j < |nodes[b].children| && IsBinSlot(nodes, nodes[b].children[j]) &&
               Reaches(nodes, nodes[b].children[j].value, x);
      ReachesBound(nodes, nodes[b].children[j].value, x);
    }
  }

  /** A reachable bin other than the start has a parent that is itself reachable. */
  lemma {:induction false} ReachesLastStep(nodes: seq<Node>, b: nat, x: nat)
    requires WellFormed(nodes) && Reaches(nodes, b, x) && x != b
    ensures exists p :: Reaches(nodes, b, p) && IsBinChildOf(nodes, p, x)
    decreases |nodes| - b
  {
    var j :| 0 <= j < |nodes[b].children| && IsBinSlot(nodes, nodes[b].children[j]) &&
             Reaches(nodes, nodes[b].children[j].value, x);
    var c := nodes[b].children[j].value;
    if x == c {
      assert Reaches(nodes, b, b) && IsBinChildOf(nodes, b, x);
    } else {
      ReachesLastStep(nodes, c, x);
      var p :| Reaches(nodes, c, p) && IsBinChildOf(nodes, p, x);
      assert Reaches(nodes, b, p);
    }
  }

  /** Two items that reach a common item lie on one branch. */
  lemma {:induction false} Laminar(nodes: seq<Node>, a: nat, c: nat, x: nat)
    requires WellFormed(nodes) && Reaches(nodes, a, x) && Reaches(nodes, c, x)
    ensures Reaches(nodes, a, c) || Reaches(nodes, c, a)
    decreases x
  {
    if x != a && x != c {
      ReachesLastStep(nodes, a, x);
      var p :| Reaches(nodes, a, p) && IsBinChildOf(nodes, p, x);
      ReachesLastStep(nodes, c, x);
      var q :| Reaches(nodes, c, q) && IsBinChildOf(nodes, q, x);
      UniqueParent(nodes, p, q, x);
      ChildAboveParent(nodes, p, x);
      Laminar(nodes, a, c, p);
    }
  }

  /** No bin child of `b` reaches a sibling. */
  lemma SiblingsUnrelated(nodes: seq<Node>, b: nat, y: nat, z: nat)
    requires WellFormed(nodes) && IsBinChildOf(nodes, b, y) && IsBinChildOf(nodes, b, z) && y != z
    ensures !Reaches(nodes, y, z)
  {
    if Reaches(nodes, y, z) {
      ReachesLastStep(nodes, y, z);
      var p :| Reaches(nodes, y, p) && IsBinChildOf(nodes, p, z);
      UniqueParent(nodes, p, b, z);
      ReachesBound(nodes, y, p);
      ChildAboveParent(nodes, b, y);
      assert false;
    }
  }

  /** Membership in the walk is reachability (both directions). */
  lemma {:induction false} SubtreeReaches(nodes: seq<Node>, b: nat, x: nat)
    requires WellFormed(nodes) && b < |nodes|
    ensures x in Subtree(nodes, b) <==> Reaches(nodes, b, x)
    decreases |nodes| - b, 0
  {
    var kids := BinChildren(nodes, nodes[b].children);
    ChildrenAbove(nodes, b);
    PendingReaches(nodes, kids, x);
    assert Subtree(nodes, b) == [b] + Pending(nodes, kids);
    if x != b {
      if Reaches(nodes, b, x) {
        ReachesViaBinChild(nodes, b, x);
      }
      if x in Pending(nodes, kids) {
        var y :| y in kids && Reaches(nodes, y, x);
        ReachesFromBinChild(nodes, b, y, x);
      }
    }
  }

  /** A path from `b` to another item starts at one of `b`'s BIN children. */
  lemma ReachesViaBinChild(nodes: seq<Node>, b: nat, x: nat)
    requires WellFormed(nodes) && b < |nodes| && x != b && Reaches(nodes, b, x)
    ensures exists y :: y in BinChildren(nodes, nodes[b].children) && Reaches(nodes, y, x)
  {
    var slots := nodes[b].children;
    var j :| 0 <= j < |slots| && IsBinSlot(nodes, slots[j]) && Reaches(nodes, slots[j].value, x);
    assert slots[j].value in BinChildren(nodes, slots);
  }

  /** What a BIN child of `b` reaches, `b` reaches. */
  lemma ReachesFromBinChild(nodes: seq<Node>, b: nat, y: nat, x: nat)
    requires WellFormed(nodes) && b < |nodes|
    requires y in BinChildren(nodes, nodes[b].children) && Reaches(nodes, y, x)
    ensures Reaches(nodes, b, x)
  {
    var slots := nodes[b].children;
    var j :| 0 <= j < |slots| && slots[j] == Some(y);
    assert IsBinSlot(nodes, slots[j]);
  }

  lemma {:induction false} PendingReaches(nodes: seq<Node>, stack: seq<nat>, x: nat)
    requires WellFormed(nodes) && InRange(nodes, stack)
    ensures x in Pending(nodes, stack) <==> exists y :: y in stack && Reaches(nodes, y, x)
    decreases |nodes| - Least(|nodes|, stack), |stack|
  {
    if stack != [] {
      var top := stack[|stack| - 1];
      var rest := stack[..|stack| - 1];
      assert stack == rest + [top];
      SubtreeReaches(nodes, top, x);
      PendingReaches(nodes, rest, x);
    }
  }

  lemma DistinctConcat(a: seq<nat>, b: seq<nat>)
    requires Distinct(a) && Distinct(b)
    requires forall x :: x in a ==> x !in b
    ensures Distinct(a + b)
  {
    forall i, j | 0 <= i < j < |a + b| ensures (a + b)[i] != (a + b)[j] {
      if j < |a| {
      } else if i >= |a| {
        assert (a + b)[i] == b[i - |a|] && (a + b)[j] == b[j - |a|];
      } else {
        assert (a + b)[i] in a && (a + b)[j] == b[j - |a|];
      }
    }
  }

  lemma {:induction false} DistinctMultiplicity(s: seq<nat>, x: nat)
    requires Distinct(s)
    ensures multiset(s)[x] == if x in s then 1 else 0
  {
    if s != [] {
      assert s == [s[0]] + s[1..];
      assert Distinct(s[1..]) by {
        forall i, j | 0 <= i < j < |s[1..]| ensures s[1..][i] != s[1..][j] {
          assert s[1..][i] == s[i + 1] && s[1..][j] == s[j + 1];
        }
      }
      DistinctMultiplicity(s[1..], x);
      assert s[0] !in s[1..];
    }
  }

  /** A scan over slots whose non-null entries are all different pushes no id twice. */
  lemma {:induction false} BinChildrenDistinct(nodes: seq<Node>, slots: seq<Slot>)
    requires forall j, k :: 0 <= j < k < |slots| && slots[j].Some? ==> slots[j] != slots[k]
    ensures Distinct(BinChildren(nodes, slots))
  {
    if slots != [] {
      var init := slots[..|slots| - 1];
      var last := slots[|slots| - 1];
      BinChildrenDistinct(nodes, init);
      if IsBinSlot(nodes, last) {
        assert forall j :: 0 <= j < |init| ==> init[j] != last by {
          forall j | 0 <= j < |init| ensures init[j] != last {
            assert init[j] == slots[j];
          }
        }
        assert last.value !in BinChildren(nodes, init);
        DistinctConcat(BinChildren(nodes, init), [last.value]);
      }
    }
  }

  lemma {:induction false} SubtreeDistinct(nodes: seq<Node>, b: nat)
    requires WellFormed(nodes) && b < |nodes|
    ensures Distinct(Subtree(nodes, b))
    decreases |nodes| - b, 0
  {
    var slots := nodes[b].children;
    var kids := BinChildren(nodes, slots);
    ChildrenAbove(nodes, b);
    BinChildrenDistinct(nodes, slots);
    forall y, z | y in kids && z in kids && y != z ensures !Reaches(nodes, y, z) {
      SiblingsUnrelated(nodes, b, y, z);
    }
    PendingDistinct(nodes, kids);
    forall x | x in Pending(nodes, kids) ensures x != b {
      PendingReaches(nodes, kids, x);
      var y :| y in kids && Reaches(nodes, y, x);
      ReachesBound(nodes, y, x);
    }
    DistinctConcat([b], Pending(nodes, kids));
  }

  /** A subtree and the subtrees of unrelated bins share nothing. */
  lemma SubtreeApartFromPending(nodes: seq<Node>, top: nat, rest: seq<nat>)
    requires WellFormed(nodes) && top < |nodes| && InRange(nodes, rest)
    requires forall y :: y in rest ==> !Reaches(nodes, top, y) && !Reaches(nodes, y, top)
    ensures forall x :: x in Subtree(nodes, top) ==> x !in Pending(nodes, rest)
  {
    forall x | x in Subtree(nodes, top) ensures x !in Pending(nodes, rest) {
      SubtreeReaches(nodes, top, x);
      PendingReaches(nodes, rest, x);
      if x in Pending(nodes, rest) {
        var y :| y in rest && Reaches(nodes, y, x);
        Laminar(nodes, top, y, x);
        assert false;
      }
    }
  }

  lemma {:induction false} PendingDistinct(nodes: seq<Node>, stack: seq<nat>)
    requires WellFormed(nodes) && InRange(nodes, stack)
    requires Distinct(stack)
    requires forall y, z :: y in stack && z in stack && y != z ==> !Reaches(nodes, y, z)
    ensures Distinct(Pending(nodes, stack))
    decreases |nodes| - Least(|nodes|, stack), |stack|
  {
    if stack != [] {
      var top := stack[|stack| - 1];
      var rest := stack[..|stack| - 1];
      assert stack == rest + [top];
      assert Distinct(rest) by {
        forall i, j | 0 <= i < j < |rest| ensures rest[i] != rest[j] {
          assert rest[i] == stack[i] && rest[j] == stack[j];
        }
      }
      assert top !in rest;
      SubtreeDistinct(nodes, top);
      PendingDistinct(nodes, rest);
      SubtreeApartFromPending(nodes, top, rest);
      DistinctConcat(Subtree(nodes, top), Pending(nodes, rest));
    }
  }

  /** Pushing `t` on top of `s` puts the subtrees of `t` before those of `s`. */
  lemma {:induction false} PendingAppend(nodes: seq<Node>, s: seq<nat>, t: seq<nat>)
    requires WellFormed(nodes)
    requires InRange(nodes, s)
    requires InRange(nodes, t)
    ensures Pending(nodes, s + t) == Pending(nodes, t) + Pending(nodes, s)
    decreases |t|
  {
    if t == [] {
      assert s + t == s;
    } else {
      var init := t[..|t| - 1];
      assert (s + t)[..|s + t| - 1] == s + init;
      assert (s + t)[|s + t| - 1] == t[|t| - 1];
      PendingAppend(nodes, s, init);
    }
  }

  /** One round of the walk: popping `b` yields it, and pushing its bin children leaves
      the rest of the walk to the new stack. */
  lemma PopStep(nodes: seq<Node>, stack: seq<nat>)
    requires WellFormed(nodes) && InRange(nodes, stack) && stack != []
    ensures var b := stack[|stack| - 1];
            var next := stack[..|stack| - 1] + BinChildren(nodes, nodes[b].children);
            && b < |nodes| && InRange(nodes, next)
            && Pending(nodes, stack) == [b] + Pending(nodes, next)
  {
    var b := stack[|stack| - 1];
    var base := stack[..|stack| - 1];
    ChildrenAbove(nodes, b);
    PendingAppend(nodes, base, BinChildren(nodes, nodes[b].children));
  }

  /** `bins` yields the root first, then every bin reachable from it through non-null BIN
      children exactly once, and never anything that is not a BIN. */
  lemma WalkVisitsEachReachableBinOnce(nodes: seq<Node>)
    requires WellFormed(nodes)
    ensures |Walk(nodes)| > 0 && Walk(nodes)[0] == 0
    ensures forall x: nat :: multiset(Walk(nodes))[x] == if Reaches(nodes, 0, x) then 1 else 0
    ensures forall i :: 0 < i < |Walk(nodes)| ==> Walk(nodes)[i] < |nodes| && nodes[Walk(nodes)[i]].kind == Bin
  {
    var w := Walk(nodes);
    SubtreeDistinct(nodes, 0);
    forall x: nat ensures multiset(w)[x] == if Reaches(nodes, 0, x) then 1 else 0 {
      SubtreeReaches(nodes, 0, x);
      DistinctMultiplicity(w, x);
    }
    forall i | 0 < i < |w| ensures w[i] < |nodes| && nodes[w[i]].kind == Bin {
      SubtreeReaches(nodes, 0, w[i]);
      ReachesBound(nodes, 0, w[i]);
    }
  }

  /** LIFO order: right after a bin comes its bin child in the highest slot. */
  lemma SubtreeLifo(nodes: seq<Node>, b: nat)
    requires WellFormed(nodes) && b < |nodes|
    requires BinChildren(nodes, nodes[b].children) != []
    ensures var kids := BinChildren(nodes, nodes[b].children);
            |Subtree(nodes, b)| > 1 && Subtree(nodes, b)[1] == kids[|kids| - 1]
  {
    var kids := BinChildren(nodes, nodes[b].children);
    ChildrenAbove(nodes, b);
    var last := kids[|kids| - 1];
    assert Pending(nodes, kids) == Subtree(nodes, last) + Pending(nodes, kids[..|kids| - 1]);
    assert Subtree(nodes, last)[0] == last;
  }
}
