/**
 * Building one component set for one source icon: one component per requested
 * size, each holding a resized, stroked and centred clone of the icon.
 */
module ComponentSets {
  import opened Wrappers
  import opened Decimal
  import opened Scene
  import opened Resizer
  import opened Strokes

  /** A paint of a fill list; the generator only ever clears fill lists. */
  datatype Paint = Solid(red: real, green: real, blue: real)

  /** One variant: a `size` by `size` component holding the icon clone. */
  datatype Component = Component(name: string, width: real, height: real, fills: seq<Paint>, icon: Node)

  datatype LayoutMode = NoLayout | Horizontal | Vertical
  datatype AxisSizing = Fixed | Auto

  datatype AutoLayout = AutoLayout(
    mode: LayoutMode,
    primaryAxisSizing: AxisSizing,
    counterAxisSizing: AxisSizing,
    itemSpacing: real,
    paddingLeft: real,
    paddingRight: real,
    paddingTop: real,
    paddingBottom: real)

  /**
   * The variants combined into one set. `height` is the height the host's
   * auto-layout gives the set once it has arranged the variants.
   */
  datatype ComponentSet = ComponentSet(
    name: string,
    variants: seq<Component>,
    layout: AutoLayout,
    fills: seq<Paint>,
    height: real)

  /** Horizontal flow, sized to content on both axes, 16 between items and 16 on every side. */
  const IconSetLayout: AutoLayout := AutoLayout(Horizontal, Auto, Auto, 16.0, 16.0, 16.0, 16.0, 16.0)

  const SizePrefix: string := "Size="

  /** JavaScript truthiness of an optional string: absent and empty are both false. */
  predicate Truthy(s: Option<string>) {
    s.Some? && s.value != ""
  }

  /** `customName || sourceNode.name`: an absent or empty custom name falls back to the node's name. */
  function IconName(customName: Option<string>, source: Node): (name: string)
    ensures Truthy(customName) ==> name == customName.value
    ensures !Truthy(customName) ==> name == source.name
  {
    if Truthy(customName) then customName.value else source.name
  }

  /** The variant name for a size, `Size=<size>`. */
  function SizeName(size: nat): (name: string)
    ensures |name| > |SizePrefix| && name[..|SizePrefix|] == SizePrefix
    ensures Canonical(name[|SizePrefix|..]) && Value(name[|SizePrefix|..]) == size
  {
    ValueOfNatToString(size);
    assert (SizePrefix + NatToString(size))[|SizePrefix|..] == NatToString(size);
    SizePrefix + NatToString(size)
  }

  /** Reads the size back out of a variant name. */
  function ReadSizeName(name: string): Option<nat> {
    if |name| < |SizePrefix| || name[..|SizePrefix|] != SizePrefix then None
    else match ParseNat(name[|SizePrefix|..])
      case Some((size, rest)) => if rest == "" then Some(size) else None
      case None => None
  }

  /**
   * One pass of the per-size loop: resize a clone, set the stroke weight on
   * its whole subtree, put it in a component, centre it using its scaled size,
   * make the component `size` by `size` and clear its fills.
   */
  function BuildComponent(source: Node, size: nat, strokeWidth: real): (c: Component)
    requires MaxDimension(source) > 0.0
    ensures c.width == size as real && c.height == size as real && c.fills == []
    ensures StrokesAre(c.icon, strokeWidth)
    ensures c.icon.width == CreateResizedIcon(source, size as real).width
    ensures c.icon.height == CreateResizedIcon(source, size as real).height
    ensures c.icon.x == c.width - (c.icon.x + c.icon.width)
    ensures c.icon.y == c.height - (c.icon.y + c.icon.height)
    ensures SameExceptStrokes(CreateResizedIcon(source, size as real).(x := c.icon.x, y := c.icon.y), c.icon)
  {
    var resizedIcon := ApplyStrokeWidth(CreateResizedIcon(source, size as real), strokeWidth);
    var centred := resizedIcon.(x := (size as real - resizedIcon.width) / 2.0,
                                y := (size as real - resizedIcon.height) / 2.0);
    Component(SizeName(size), size as real, size as real, [], centred)
  }

  /** A component's name reads back as its size. */
  lemma ComponentNamedBySize(source: Node, size: nat, strokeWidth: real)
    requires MaxDimension(source) > 0.0
    ensures ReadSizeName(BuildComponent(source, size, strokeWidth).name) == Some(size)
  {
    var c := BuildComponent(source, size, strokeWidth);
    ParseNatToString(size, "");
    assert c.name[..|SizePrefix|] == SizePrefix;
    assert c.name[|SizePrefix|..] == NatToString(size) + "";
  }

  /** The only name that reads as `size` is `Size=<size>` exactly (no sign, no leading zero). */
  lemma SizeNameExact(name: string, size: nat)
    requires ReadSizeName(name) == Some(size)
    ensures name == SizeName(size)
  {
    ParseNatExact(name[|SizePrefix|..], size, "");
    assert name == name[..|SizePrefix|] + name[|SizePrefix|..];
  }

  /**
   * The component's contract fixes its icon: any component of the right size
   * whose icon is stroked with the weight, differs from the scaled clone only
   * in strokes and position, and has equal opposite margins, carries exactly
   * the icon `BuildComponent` builds.
   */
  lemma ComponentIconDetermined(source: Node, size: nat, strokeWidth: real, c: Component)
    requires MaxDimension(source) > 0.0
    requires c.width == size as real && c.height == size as real
    requires StrokesAre(c.icon, strokeWidth)
    requires SameExceptStrokes(CreateResizedIcon(source, size as real).(x := c.icon.x, y := c.icon.y), c.icon)
    requires c.icon.x == c.width - (c.icon.x + c.icon.width)
    requires c.icon.y == c.height - (c.icon.y + c.icon.height)
    ensures c.icon == BuildComponent(source, size, strokeWidth).icon
  {
    var built := BuildComponent(source, size, strokeWidth).icon;
    var base := CreateResizedIcon(source, size as real).(x := c.icon.x, y := c.icon.y);
    StrokeWalkUnique(base, c.icon, strokeWidth);
    StrokeWalkUnique(base, built, strokeWidth);
  }

  /**
   * For a rescalable source, the icon lies inside its component and touches
   * two opposite sides along its larger dimension.
   */
  lemma ComponentFitsIcon(source: Node, size: nat, strokeWidth: real)
    requires MaxDimension(source) > 0.0 && source.width >= 0.0 && source.height >= 0.0
    requires source.rescalable && size > 0
    ensures var c := BuildComponent(source, size, strokeWidth);
      && 0.0 <= c.icon.x && c.icon.x + c.icon.width <= c.width
      && 0.0 <= c.icon.y && c.icon.y + c.icon.height <= c.height
      && (c.icon.x == 0.0 || c.icon.y == 0.0)
  {
    ResizedFitsTarget(source, size as real);
  }

  /** `cs` is the set built for `source` with the given name and laid-out height. */
  predicate IsVariantSet(cs: ComponentSet, source: Node, sizes: seq<nat>, strokes: seq<real>, name: string, height: real)
    requires |strokes| >= |sizes| && MaxDimension(source) > 0.0
  {
    && cs.name == name
    && |cs.variants| == |sizes|
    && (forall k :: 0 <= k < |sizes| ==> cs.variants[k] == BuildComponent(source, sizes[k], strokes[k]))
    && cs.layout == IconSetLayout
    && cs.fills == []
    && cs.height == height
  }

  /**
   * Builds the components one size at a time, in the order the sizes are
   * given, and combines them into a set named `customName || source.name`.
   */
  method CreateSingleComponentSet(source: Node, sizes: seq<nat>, strokes: seq<real>, customName: Option<string>, laidOutHeight: real)
    returns (componentSet: ComponentSet)
    requires |strokes| >= |sizes| && MaxDimension(source) > 0.0
    ensures IsVariantSet(componentSet, source, sizes, strokes, IconName(customName, source), laidOutHeight)
  {
    var components: seq<Component> := [];
    var iconName := IconName(customName, source);
    for index := 0 to |sizes|
      invariant |components| == index
      invariant forall k :: 0 <= k < index ==> components[k] == BuildComponent(source, sizes[k], strokes[k])
    {
      var component := BuildComponent(source, sizes[index], strokes[index]);
      components := components + [component];
    }
    componentSet := ComponentSet(iconName, components, IconSetLayout, [], laidOutHeight);
  }

  /**
   * The k-th variant of a set is the k-th requested size with the k-th stroke
   * weight: the set keeps the request's order and does not sort it.
   */
  lemma VariantsInRequestOrder(cs: ComponentSet, source: Node, sizes: seq<nat>, strokes: seq<real>, name: string, height: real)
    requires |strokes| >= |sizes| && MaxDimension(source) > 0.0
    requires IsVariantSet(cs, source, sizes, strokes, name, height)
    ensures |cs.variants| == |sizes|
    ensures forall k :: 0 <= k < |sizes| ==>
      && ReadSizeName(cs.variants[k].name) == Some(sizes[k])
      && cs.variants[k].width == cs.variants[k].height == sizes[k] as real
      && StrokesAre(cs.variants[k].icon, strokes[k])
  {
    forall k | 0 <= k < |sizes|
      ensures ReadSizeName(cs.variants[k].name) == Some(sizes[k])
    {
      ComponentNamedBySize(source, sizes[k], strokes[k]);
    }
  }
}
