/** The image sizes of C/inc/PiVisConstants.h and what the C algorithms share: a color image has three bytes for
    each pixel, and its gray value is their floored mean. */
module Images {
  import opened Bytes

  const GRAYSCALE_IMAGE_SIZE := 307200 // 640 * 480
  const COLOR_IMAGE_SIZE := 3 * GRAYSCALE_IMAGE_SIZE

  predicate IsGrayImage(gray: seq<Byte>) {
    |gray| == GRAYSCALE_IMAGE_SIZE
  }

  predicate IsColorImage(color: seq<Byte>) {
    |color| == COLOR_IMAGE_SIZE
  }

  function Mean(color: seq<Byte>, i: nat): Byte
    requires 3 * i + 2 < |color|
  {
    (color[3 * i] as int + color[3 * i + 1] + color[3 * i + 2]) / 3
  }

  /** The sum of `count` color bytes from `at`. */
  function PartSum(color: seq<Byte>, at: nat, count: nat): nat
    requires at + count <= |color|
  {
    if count == 0 then 0 else PartSum(color, at, count - 1) + color[at + count - 1]
  }

  lemma ThreeBytes(color: seq<Byte>, i: nat)
    requires 3 * i + 3 <= |color|
    ensures PartSum(color, 3 * i, 3) / 3 == Mean(color, i)
    ensures var sum := color[3 * i] as int + color[3 * i + 1] as int + color[3 * i + 2] as int;
      3 * Mean(color, i) <= sum < 3 * Mean(color, i) + 3
  {
    assert PartSum(color, 3 * i, 2) == color[3 * i] as int + color[3 * i + 1] as int by {
      assert PartSum(color, 3 * i, 1) == color[3 * i];
    }
  }
}
