/**
 * The 2-D arithmetic of the sample: Unity's `Vector2` and `Rect` as values
 * over the reals, the aspect-preserving display scale computed from the
 * texture size, and the mapping of a unit-normalised detection box onto the
 * centred coordinate system of the frame container.
 */
module Geometry {

  /** `UnityEngine.Vector2`; `*` on two vectors multiplies component-wise. */
  datatype Vec2 = Vec2(x: real, y: real)

  function Mul(a: Vec2, b: Vec2): Vec2 { Vec2(a.x * b.x, a.y * b.y) }

  function Scale(a: Vec2, k: real): Vec2 { Vec2(a.x * k, a.y * k) }

  function Sub(a: Vec2, b: Vec2): Vec2 { Vec2(a.x - b.x, a.y - b.y) }

  /** `UnityEngine.Rect`: a corner (`position`) and a `size`, here in detector space. */
  datatype Rect = Rect(x: real, y: real, width: real, height: real) {
    function Position(): Vec2 { Vec2(x, y) }
    function Size(): Vec2 { Vec2(width, height) }
  }

  /** The texture's aspect ratio, `(float)width / height`. */
  function Aspect(texW: nat, texH: nat): real
    requires texH > 0
  {
    texW as real / texH as real
  }

  /**
   * The per-axis ratio by which the container size is multiplied: the longer
   * axis of the texture fills the container and the other shrinks to keep
   * the texture's aspect. A square texture gives (1, 1).
   */
  function DisplayScale(texW: nat, texH: nat): (ratio: Vec2)
    requires texH > 0
    ensures ratio.x == Aspect(texW, texH) * ratio.y
    ensures ratio.x == 1.0 || ratio.y == 1.0
    ensures 0.0 <= ratio.x <= 1.0 && 0.0 < ratio.y <= 1.0
    ensures texW > 0 ==> ratio.x > 0.0
    ensures texW == texH ==> ratio == Vec2(1.0, 1.0)
  {
    var aspect := Aspect(texW, texH);
    if aspect > 1.0 then Vec2(1.0, 1.0 / aspect) else Vec2(aspect, 1.0)
  }

  /**
   * The first three ensures of DisplayScale pin its result down: any ratio
   * that keeps the aspect, fills one axis and stays within the unit square is
   * the one DisplayScale returns.
   */
  lemma DisplayScaleUnique(texW: nat, texH: nat, ratio: Vec2)
    requires texH > 0
    requires ratio.x == Aspect(texW, texH) * ratio.y
    requires ratio.x == 1.0 || ratio.y == 1.0
    requires 0.0 <= ratio.x <= 1.0 && 0.0 < ratio.y <= 1.0
    ensures ratio == DisplayScale(texW, texH)
  {
  }

  /** `rect.position * size - size * 0.5f`: the box's corner relative to the container's centre. */
  function AnchoredPosition(rect: Rect, size: Vec2): Vec2
  {
    Sub(Mul(rect.Position(), size), Scale(size, 0.5))
  }

  /** `rect.size * size`: the box's extent in container units. */
  function SizeDelta(rect: Rect, size: Vec2): Vec2
  {
    Mul(rect.Size(), size)
  }

  /** Maps a displayed corner and extent back to detector space. */
  function DetectorRect(anchoredPosition: Vec2, sizeDelta: Vec2, size: Vec2): Rect
    requires size.x != 0.0 && size.y != 0.0
  {
    Rect((anchoredPosition.x + size.x / 2.0) / size.x, (anchoredPosition.y + size.y / 2.0) / size.y,
         sizeDelta.x / size.x, sizeDelta.y / size.y)
  }

  /** On a non-degenerate container, the display mapping loses nothing. */
  lemma DisplayRoundTrip(rect: Rect, size: Vec2)
    requires size.x != 0.0 && size.y != 0.0
    ensures DetectorRect(AnchoredPosition(rect, size), SizeDelta(rect, size), size) == rect
  {
  }

  /** A box inside the unit square lands inside the container, whose centre is the origin. */
  lemma DisplayWithinContainer(rect: Rect, size: Vec2)
    requires 0.0 <= rect.x && 0.0 <= rect.width && rect.x + rect.width <= 1.0
    requires 0.0 <= rect.y && 0.0 <= rect.height && rect.y + rect.height <= 1.0
    requires size.x >= 0.0 && size.y >= 0.0
    ensures var p, d := AnchoredPosition(rect, size), SizeDelta(rect, size);
            -size.x / 2.0 <= p.x && p.x + d.x <= size.x / 2.0 &&
            -size.y / 2.0 <= p.y && p.y + d.y <= size.y / 2.0
  {
  }
}
