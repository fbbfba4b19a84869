/**
 * Crop resolution for the Image shape (src/shapes/Image.js). Every field of a
 * crop is read with JavaScript's `||`, so an unset field and a field set to 0
 * behave the same; this model writes both as 0.
 */
module Crop {

  /** A crop rectangle `{x, y, width, height}`; 0 stands for "unset". */
  datatype CropRect = CropRect(x: int, y: int, width: int, height: int)

  /** The crop that is read when the shape has none. */
  const Unset := CropRect(0, 0, 0, 0)

  /** Resolves a declared crop against a base size: the offsets default to 0
      and an unset width or height runs from the offset to the base's edge. */
  function Resolve(c: CropRect, baseWidth: int, baseHeight: int): (r: CropRect)
    ensures r.x == c.x && r.y == c.y
    ensures c.width != 0 ==> r.width == c.width
    ensures c.width == 0 ==> r.x + r.width == baseWidth
    ensures c.height != 0 ==> r.height == c.height
    ensures c.height == 0 ==> r.y + r.height == baseHeight
  {
    CropRect(c.x, c.y,
             if c.width != 0 then c.width else baseWidth - c.x,
             if c.height != 0 then c.height else baseHeight - c.y)
  }

  /** Resolving a resolved crop against the same base changes nothing, so
      writing the resolved crop back over the declared one is harmless while
      the base size stays the same. */
  lemma ResolveIdempotent(c: CropRect, baseWidth: int, baseHeight: int)
    ensures Resolve(Resolve(c, baseWidth, baseHeight), baseWidth, baseHeight) == Resolve(c, baseWidth, baseHeight)
  {
  }
}
