/** Where an image watermark goes: the overlay (already resized by the image
    library) is placed with its top-left corner at half the image size minus
    half the overlay size on each axis. Sizes are whole pixels; the offsets
    are exact halves. */
module Overlay {

  /** Top-left corner of the overlay on the base image. */
  datatype Placement = Placement(x: real, y: real)

  /** The offsets `W / 2 - w / 2` and `H / 2 - h / 2` of the image watermark
      stage. */
  function CentredPlacement(imageWidth: nat, imageHeight: nat, markWidth: nat, markHeight: nat): (p: Placement)
    // the offset is half the room the overlay leaves
    ensures p.x == (imageWidth - markWidth) as real / 2.0
    ensures p.y == (imageHeight - markHeight) as real / 2.0
    // the centres coincide
    ensures p.x + markWidth as real / 2.0 == imageWidth as real / 2.0
    ensures p.y + markHeight as real / 2.0 == imageHeight as real / 2.0
    // the margins left and right (top and bottom) are equal
    ensures p.x == imageWidth as real - (p.x + markWidth as real)
    ensures p.y == imageHeight as real - (p.y + markHeight as real)
    // an overlay that fits lies inside the image; one that does not overhangs on both sides
    ensures markWidth <= imageWidth ==> 0.0 <= p.x <= (imageWidth - markWidth) as real
    ensures markHeight <= imageHeight ==> 0.0 <= p.y <= (imageHeight - markHeight) as real
    ensures markWidth > imageWidth ==> p.x < 0.0
    ensures markHeight > imageHeight ==> p.y < 0.0
  {
    Placement(imageWidth as real / 2.0 - markWidth as real / 2.0,
              imageHeight as real / 2.0 - markHeight as real / 2.0)
  }
}
