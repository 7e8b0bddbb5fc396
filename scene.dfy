/**
 * The part of the design tool's scene graph that the icon-set generator reads,
 * and the check that decides whether a node can serve as icon artwork.
 */
module Scene {
  import opened Wrappers

  /** A node's `type` tag; every tag other than the three icon kinds is `Other`. */
  datatype Kind = Vector | Group | Frame | Other

  /**
   * A scene node as a value. `strokeWeight` is `None` on nodes that have no
   * stroke-weight attribute, `clipsContent` is `None` on nodes that have no
   * clipping flag, and `rescalable` tells whether the node offers uniform
   * rescaling. `x` and `y` are relative to the parent.
   */
  datatype Node = Node(
    kind: Kind,
    name: string,
    x: real,
    y: real,
    width: real,
    height: real,
    strokeWeight: Option<real>,
    clipsContent: Option<bool>,
    rescalable: bool,
    children: seq<Node>)

  /** `Math.max(width, height)`. */
  function MaxDimension(n: Node): (m: real)
    ensures m >= n.width && m >= n.height
    ensures m == n.width || m == n.height
  {
    if n.width >= n.height then n.width else n.height
  }

  /** Every node can be scaled by its larger side (that side is not zero). */
  predicate AllMeasurable(nodes: seq<Node>) {
    forall i :: 0 <= i < |nodes| ==> MaxDimension(nodes[i]) > 0.0
  }

  /** The node types accepted as icon artwork, in the order the plugin lists them. */
  const ValidTypes: seq<Kind> := [Vector, Group, Frame]

  /**
   * A node is icon artwork when it is a vector, a group or a frame; a frame
   * must not have its clipping flag set to false.
   */
  function IsValidIconNode(n: Node): (valid: bool)
    ensures valid <==> n.kind.Vector? || n.kind.Group? || (n.kind.Frame? && n.clipsContent != Some(false))
    ensures n.kind.Other? ==> !valid
  {
    if n.kind !in ValidTypes then false
    else if n.kind == Frame && n.clipsContent == Some(false) then false
    else true
  }
}
