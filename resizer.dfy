/** Cloning a source icon and scaling the clone uniformly to a target size. */
module Resizer {
  import opened Scene

  /**
   * The clone of `source` scaled by `targetSize / MaxDimension(source)`.
   * A clone is an equal value here (the host gives it a new identity, which
   * this model does not track); the source itself is a value and is never
   * changed. Only a clone that offers rescaling is scaled.
   */
  function CreateResizedIcon(source: Node, targetSize: real): (r: Node)
    requires MaxDimension(source) > 0.0
    ensures r.(width := source.width, height := source.height) == source
    ensures source.rescalable ==>
      && r.width * MaxDimension(source) == source.width * targetSize
      && r.height * MaxDimension(source) == source.height * targetSize
    ensures !source.rescalable ==> r == source
  {
    var cloned := source;
    var scaleFactor := targetSize / MaxDimension(source);
    if cloned.rescalable then cloned.(width := cloned.width * scaleFactor, height := cloned.height * scaleFactor)
    else cloned
  }

  /**
   * A rescaled clone fits a `targetSize` square exactly on its larger side and
   * keeps the source's aspect ratio.
   */
  lemma ResizedFitsTarget(source: Node, targetSize: real)
    requires MaxDimension(source) > 0.0 && source.width >= 0.0 && source.height >= 0.0
    requires source.rescalable && targetSize > 0.0
    ensures var r := CreateResizedIcon(source, targetSize);
      && MaxDimension(r) == targetSize
      && 0.0 <= r.width <= targetSize && 0.0 <= r.height <= targetSize
      && r.width * source.height == r.height * source.width
  {
  }
}
