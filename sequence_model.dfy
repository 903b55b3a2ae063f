/** The body node of the sequence-diagram model: a diagram node that owns an
    ordered list of child diagram nodes, built up one append at a time. */
module SequenceDiagramModel {

  /** A position in a source file: a zero-based line and a column offset. */
  datatype LinePosition = LinePosition(line: int, offset: int)

  /** The source range a diagram node points back to. It is carried as an
      opaque value: no ordering and no bounds are assumed of it. */
  datatype LineRange = LineRange(fileName: string, startLine: LinePosition, endLine: LinePosition)

  /** A reference to some diagram node. Its internals (kind, hidden flag,
      location, subclass) are not part of this model; only its identity is,
      so the same node appended twice is two entries of the child list. */
  type DNode = object

  /** The child list after one append of `n` to the list `s`. */
  function Added(s: seq<DNode>, n: DNode): (r: seq<DNode>)
    ensures |r| == |s| + 1
    ensures forall i :: 0 <= i < |s| ==> r[i] == s[i]
    ensures r[|s|] == n
  {
    s + [n]
  }

  /** The child list after appending the nodes of `ns`, first to last, to a
      body whose children were `s`: one `Added` step per node. */
  function Replay(s: seq<DNode>, ns: seq<DNode>): seq<DNode>
    decreases |ns|
  {
    if ns == [] then s else Replay(Added(s, ns[0]), ns[1..])
  }

  /** Replaying a sequence of appends puts the new nodes after the old ones,
      in the order they were appended. */
  lemma {:induction false} ReplayIsConcat(s: seq<DNode>, ns: seq<DNode>)
    ensures Replay(s, ns) == s + ns
    decreases |ns|
  {
    if ns != [] {
      ReplayIsConcat(Added(s, ns[0]), ns[1..]);
      assert Added(s, ns[0]) + ns[1..] == s + ns;
    }
  }

  /** Each append adds exactly one child: k appends add k children, and
      every child that was there before keeps its index. */
  lemma {:induction false} ReplayKeepsEarlierChildren(s: seq<DNode>, ns: seq<DNode>)
    ensures |Replay(s, ns)| == |s| + |ns|
    ensures forall i :: 0 <= i < |s| ==> Replay(s, ns)[i] == s[i]
    decreases |ns|
  {
    if ns != [] {
      ReplayKeepsEarlierChildren(Added(s, ns[0]), ns[1..]);
    }
  }

  /** The j-th appended node ends up right after the earlier children and
      the j nodes appended before it. */
  lemma {:induction false} ReplayPlacesInOrder(s: seq<DNode>, ns: seq<DNode>, j: nat)
    requires j < |ns|
    ensures |s| + j < |Replay(s, ns)| && Replay(s, ns)[|s| + j] == ns[j]
    decreases |ns|
  {
    if j == 0 {
      ReplayKeepsEarlierChildren(Added(s, ns[0]), ns[1..]);
    } else {
      ReplayPlacesInOrder(Added(s, ns[0]), ns[1..], j - 1);
    }
  }

  /** Starting from a fresh (empty) body, appending n1, ..., nk yields
      exactly [n1, ..., nk]. */
  lemma {:induction false} ReplayFromEmpty(ns: seq<DNode>)
    ensures Replay([], ns) == ns
  {
    ReplayIsConcat([], ns);
  }

  /** Appending `a` and then `b` is the same as appending `a + b`. */
  lemma {:induction false} ReplayCompose(s: seq<DNode>, a: seq<DNode>, b: seq<DNode>)
    ensures Replay(Replay(s, a), b) == Replay(s, a + b)
  {
    ReplayIsConcat(s, a);
    ReplayIsConcat(s + a, b);
    ReplayIsConcat(s, a + b);
    assert (s + a) + b == s + (a + b);
  }

  /** One more append at the end of a replay is one more `Added` step. */
  lemma {:induction false} ReplaySnoc(s: seq<DNode>, ns: seq<DNode>, n: DNode)
    ensures Replay(s, ns + [n]) == Added(Replay(s, ns), n)
  {
    ReplayIsConcat(s, ns + [n]);
    ReplayIsConcat(s, ns);
    assert s + (ns + [n]) == (s + ns) + [n];
  }

  /** No node is dropped and none is merged with an equal one: the children
      afterwards are, as a multiset, the old children plus every appended
      node with its multiplicity (in particular, appending a node twice
      makes it occur twice more). */
  lemma {:induction false} ReplayKeepsDuplicates(s: seq<DNode>, ns: seq<DNode>)
    ensures multiset(Replay(s, ns)) == multiset(s) + multiset(ns)
  {
    ReplayIsConcat(s, ns);
  }

  /** The body of a diagram element. `kind`, `isHidden` and `location` are the
      header that the Java class hands to its `DNode` superclass; they are
      set once, by the constructor. `childElements` starts empty and only
      grows, by one node at the end per `AddChild`. */
  class DElementBody {
    const kind: string
    const isHidden: bool
    const location: LineRange
    var childElements: seq<DNode>

    /** A new body carries the given header unchanged and has no children. */
    constructor (kind: string, isHidden: bool, location: LineRange)
      ensures this.kind == kind && this.isHidden == isHidden && this.location == location
      ensures childElements == []
    {
      this.kind := kind;
      this.isHidden := isHidden;
      this.location := location;
      childElements := [];
    }

    /** Appends `n` at the end of the child list. It never fails and does not
      check for duplicates or for `n` being this body itself; only
      `childElements` changes. */
    method AddChild(n: DNode)
      modifies this`childElements
      ensures childElements == Added(old(childElements), n)
    {
      childElements := childElements + [n];
    }

    /** The current child list, in the order the children were added. */
    function GetChildElements(): (r: seq<DNode>)
      reads this
      ensures r == childElements
    {
      childElements
    }
  }

  /** A client of `DElementBody`: creates a body and appends the nodes of `ns`
      one by one, as a walker does while it visits the statements of a block.
      The result is the fresh body with the given header whose children are
      exactly `ns`, in order. */
  method BuildBody(kind: string, isHidden: bool, location: LineRange, ns: seq<DNode>)
    returns (b: DElementBody)
    ensures fresh(b)
    ensures b.kind == kind && b.isHidden == isHidden && b.location == location
    ensures b.GetChildElements() == Replay([], ns)
    ensures b.GetChildElements() == ns
  {
    b := new DElementBody(kind, isHidden, location);
    var i := 0;
    while i < |ns|
      invariant 0 <= i <= |ns|
      invariant b.childElements == Replay([], ns[..i])
    {
      ReplaySnoc([], ns[..i], ns[i]);
      assert ns[..i + 1] == ns[..i] + [ns[i]];
      b.AddChild(ns[i]);
      i := i + 1;
    }
    assert ns[..i] == ns;
    ReplayFromEmpty(ns);
  }
}
