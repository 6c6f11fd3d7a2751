/**
 * The center-square crop box computed in `preprocess_and_save`
 * (scripts/prepare_dataset.py). Only the integer arithmetic is modelled;
 * the image operations themselves are foreign.
 */
module Crop {

  /** A crop box `(left, top, right, bottom)` as passed to the image library. */
  datatype Box = Box(left: int, top: int, right: int, bottom: int)

  function Min(a: int, b: int): (m: int)
    ensures m <= a && m <= b && (m == a || m == b)
  {
    if a < b then a else b
  }

  /** The box lies inside a `w` by `h` image, is square with side `min(w, h)`, and is
      centred: on each axis the excess splits so that the far margin exceeds the near
      margin by at most one pixel. */
  ghost predicate CenteredSquare(b: Box, w: nat, h: nat)
  {
    && b.right - b.left == Min(w, h)
    && b.bottom - b.top == Min(w, h)
    && 0 <= b.left && b.right <= w
    && 0 <= b.top && b.bottom <= h
    && 0 <= (w - b.right) - b.left <= 1
    && 0 <= (h - b.bottom) - b.top <= 1
  }

  /** `side = min(w, h)`, `left = (w - side) // 2`, `top = (h - side) // 2`. */
  function CenterCrop(w: nat, h: nat): (b: Box)
    ensures CenteredSquare(b, w, h)
    ensures b.left == 0 || b.top == 0
  {
    var side := Min(w, h);
    var left := (w - side) / 2;
    var top := (h - side) / 2;
    Box(left, top, left + side, top + side)
  }

  /** The centred square is unique, so any box meeting the description is the one computed. */
  lemma CenterCropUnique(b: Box, w: nat, h: nat)
    requires CenteredSquare(b, w, h)
    ensures b == CenterCrop(w, h)
  {
  }

  /** A landscape image is cropped on the horizontal axis: 5 by 3 gives the box (1, 0, 4, 3). */
  lemma LandscapeExample()
    ensures CenterCrop(5, 3) == Box(1, 0, 4, 3)
  {
    assert CenteredSquare(Box(1, 0, 4, 3), 5, 3);
    CenterCropUnique(Box(1, 0, 4, 3), 5, 3);
  }

  /** A portrait image is cropped on the vertical axis: 3 by 6 gives the box (0, 1, 3, 4),
      the odd excess of 3 leaving the larger margin at the bottom. */
  lemma PortraitExample()
    ensures CenterCrop(3, 6) == Box(0, 1, 3, 4)
  {
    assert CenteredSquare(Box(0, 1, 3, 4), 3, 6);
    CenterCropUnique(Box(0, 1, 3, 4), 3, 6);
  }

  /** A square image is kept whole: 3 by 3 gives the box (0, 0, 3, 3). */
  lemma SquareExample()
    ensures CenterCrop(3, 3) == Box(0, 0, 3, 3)
  {
    assert CenteredSquare(Box(0, 0, 3, 3), 3, 3);
    CenterCropUnique(Box(0, 0, 3, 3), 3, 3);
  }
}
