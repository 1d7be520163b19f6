/**
 The bounding-box sanity clamp and the choice of the image stored with an
 entry event: the crop of the face when the clamped box is non-empty, the
 whole frame otherwise.
 */
module Geometry {

  /** A detector bounding box after the cast to integers: corners (x1, y1) and (x2, y2). */
  datatype Box = Box(x1: int, y1: int, x2: int, y2: int)

  /** The picture attached to an event: a region of the current frame, or the whole frame. */
  datatype Image = Crop(region: Box) | FullFrame

  function Max(a: int, b: int): int { if a < b then b else a }

  function Min(a: int, b: int): int { if a < b then a else b }

  /**
   Pulls the top-left corner to be non-negative and the bottom-right corner
   to lie on the last column and row of a frame `width` pixels wide and
   `height` pixels high. Each coordinate is either kept or moved onto the
   frame edge, and only inwards.
   */
  function Clamp(b: Box, width: int, height: int): (r: Box)
    ensures 0 <= r.x1 && 0 <= r.y1 && r.x2 <= width - 1 && r.y2 <= height - 1
    ensures b.x1 <= r.x1 && b.y1 <= r.y1 && r.x2 <= b.x2 && r.y2 <= b.y2
    ensures (r.x1 == b.x1 || r.x1 == 0) && (r.y1 == b.y1 || r.y1 == 0)
    ensures (r.x2 == b.x2 || r.x2 == width - 1) && (r.y2 == b.y2 || r.y2 == height - 1)
  {
    Box(Max(0, b.x1), Max(0, b.y1), Min(width - 1, b.x2), Min(height - 1, b.y2))
  }

  /** The image saved for a newly registered face: the crop when the box has positive area. */
  function EntryImage(b: Box): (r: Image)
    ensures r.Crop? <==> b.x1 < b.x2 && b.y1 < b.y2
    ensures r.Crop? ==> r.region == b
  {
    if b.y2 > b.y1 && b.x2 > b.x1 then Crop(b) else FullFrame
  }

  /** A box already inside the frame is left alone, so clamping twice is clamping once. */
  lemma ClampIdempotent(b: Box, width: int, height: int)
    ensures Clamp(Clamp(b, width, height), width, height) == Clamp(b, width, height)
    ensures 0 <= b.x1 && 0 <= b.y1 && b.x2 <= width - 1 && b.y2 <= height - 1 ==> Clamp(b, width, height) == b
  {
  }

  /**
   After the clamp, a crop is taken exactly when the box has positive area,
   and then it is a non-empty region lying inside the frame.
   */
  lemma CropInsideFrame(b: Box, width: int, height: int)
    ensures var c := Clamp(b, width, height);
      match EntryImage(c)
      case Crop(r) => r == c && 0 <= r.x1 < r.x2 <= width - 1 && 0 <= r.y1 < r.y2 <= height - 1
      case FullFrame => c.x2 <= c.x1 || c.y2 <= c.y1
  {
  }
}
