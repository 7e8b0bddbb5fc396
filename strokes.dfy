/** Setting one stroke weight on every node of a subtree that carries a stroke weight. */
module Strokes {
  import opened Wrappers
  import opened Scene

  /** Every node of the tree that has a stroke weight has the weight `w`. */
  predicate StrokesAre(n: Node, w: real)
    decreases n
  {
    && (n.strokeWeight.Some? ==> n.strokeWeight.value == w)
    && forall i :: 0 <= i < |n.children| ==> StrokesAre(n.children[i], w)
  }

  /** `a` and `b` are the same tree except, possibly, for the values of their stroke weights. */
  predicate SameExceptStrokes(a: Node, b: Node)
    decreases a
  {
    && a.kind == b.kind && a.name == b.name
    && a.x == b.x && a.y == b.y && a.width == b.width && a.height == b.height
    && a.strokeWeight.Some? == b.strokeWeight.Some?
    && a.clipsContent == b.clipsContent && a.rescalable == b.rescalable
    && |a.children| == |b.children|
    && forall i :: 0 <= i < |a.children| ==> SameExceptStrokes(a.children[i], b.children[i])
  }

  /**
   * The depth-first walk: a node with a stroke weight gets `w`, and every
   * child is walked with the same `w`. The walk updates the tree in place in
   * the plugin; here it returns the updated tree.
   */
  function ApplyStrokeWidth(n: Node, w: real): (r: Node)
    ensures SameExceptStrokes(n, r)
    ensures StrokesAre(r, w)
    decreases n
  {
    var children := seq(|n.children|, i requires 0 <= i < |n.children| => ApplyStrokeWidth(n.children[i], w));
    n.(strokeWeight := if n.strokeWeight.Some? then Some(w) else None, children := children)
  }

  /** The walk's contract determines its result: no other tree has both properties. */
  lemma {:induction false} StrokeWalkUnique(n: Node, r: Node, w: real)
    requires SameExceptStrokes(n, r) && StrokesAre(r, w)
    ensures r == ApplyStrokeWidth(n, w)
    decreases n
  {
    var a := ApplyStrokeWidth(n, w);
    forall i | 0 <= i < |n.children|
      ensures r.children[i] == a.children[i]
    {
      StrokeWalkUnique(n.children[i], r.children[i], w);
    }
    assert r.children == a.children;
  }

  /** A tree whose stroke weights already all equal `w` is left as it is. */
  lemma {:induction false} StrokeWalkFixpoint(n: Node, w: real)
    requires StrokesAre(n, w)
    ensures ApplyStrokeWidth(n, w) == n
    decreases n
  {
    var a := ApplyStrokeWidth(n, w);
    forall i | 0 <= i < |n.children|
      ensures a.children[i] == n.children[i]
    {
      StrokeWalkFixpoint(n.children[i], w);
    }
    assert a.children == n.children;
  }

  /** Walking twice is walking once with the second weight. */
  lemma {:induction false} StrokeWalkLastWins(n: Node, w: real, v: real)
    ensures ApplyStrokeWidth(ApplyStrokeWidth(n, w), v) == ApplyStrokeWidth(n, v)
    decreases n
  {
    var once := ApplyStrokeWidth(n, w);
    var twice := ApplyStrokeWidth(once, v);
    var direct := ApplyStrokeWidth(n, v);
    forall i | 0 <= i < |n.children|
      ensures twice.children[i] == direct.children[i]
    {
      StrokeWalkLastWins(n.children[i], w, v);
    }
    assert twice.children == direct.children;
  }
}
