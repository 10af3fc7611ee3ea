/** The streaming grayscale conversion of C++/src/pivision_grayscaleimagejob.cpp.  The running intensity is not
    cleared after a pixel, so each output byte depends on all pixels before it. */
module GrayscaleImageJob {
  import opened Bytes
  import opened PiVisionBuffers

  const UPPER_LIMIT := 254
  const LOWER_LIMIT := 1
  const HEADER_SIZE := 4

  /** The two little-endian 16-bit sizes at the front of the buffer. */
  function XSize(data: seq<Byte>): nat {
    ElementAt(data, 0) as int + 256 * ElementAt(data, 1) as int
  }

  function YSize(data: seq<Byte>): nat {
    ElementAt(data, 2) as int + 256 * ElementAt(data, 3) as int
  }

  /** Whole pixels behind the header. */
  function NumPixels(data: seq<Byte>): nat {
    if |data| < HEADER_SIZE then 0 else (|data| - HEADER_SIZE) / 3
  }

  /** The color sum of pixel `k`. */
  function ColorSum(data: seq<Byte>, k: nat): nat
    requires k < NumPixels(data)
  {
    data[4 + 3 * k] as int + data[5 + 3 * k] as int + data[6 + 3 * k] as int
  }

  function Clamp(v: nat): Byte {
    if v > UPPER_LIMIT then UPPER_LIMIT else if v < LOWER_LIMIT then LOWER_LIMIT else v
  }

  /** The running intensity after `k` pixels. */
  function Carry(data: seq<Byte>, k: nat): Byte
    requires k <= NumPixels(data)
  {
    if k == 0 then 0 else Clamp((Carry(data, k - 1) + ColorSum(data, k - 1)) / 3)
  }

  function Shades(data: seq<Byte>): seq<Byte> {
    seq(NumPixels(data), k requires 0 <= k < NumPixels(data) => Carry(data, k + 1))
  }

  /** The output image: as many shades as the announced size allows. */
  function GrayImage(data: seq<Byte>): seq<Byte> {
    ShadesUpTo(data, XSize(data) * YSize(data), NumPixels(data))
  }

  method ExtractImageProperties(pixelData: PiVisionData) returns (xSize: nat, ySize: nat)
    requires pixelData.Valid()
    ensures xSize == XSize(pixelData.Contents()) && ySize == YSize(pixelData.Contents())
  {
    xSize, ySize := 0, 0;
    var shiftIndex := 0;
    for i := 0 to 2
      invariant shiftIndex == i
      invariant xSize == FromLe(Field(pixelData.Contents(), 0)[..i])
    {
      FieldSnoc(pixelData.Contents(), 0, i);
      xSize := xSize + ShiftLeft(pixelData.GetElementAt(i), shiftIndex);
      shiftIndex := shiftIndex + 1;
    }
    shiftIndex := 0;
    for i := 2 to 4
      invariant shiftIndex == i - 2
      invariant ySize == FromLe(Field(pixelData.Contents(), 2)[..i - 2])
    {
      FieldSnoc(pixelData.Contents(), 2, i - 2);
      ySize := ySize + ShiftLeft(pixelData.GetElementAt(i), shiftIndex);
      shiftIndex := shiftIndex + 1;
    }
    FieldValue(pixelData.Contents(), 0);
    FieldValue(pixelData.Contents(), 2);
  }

  /** The two bytes of a header field. */
  function Field(data: seq<Byte>, at: nat): (f: seq<Byte>)
    ensures |f| == 2
  {
    [ElementAt(data, at), ElementAt(data, at + 1)]
  }

  lemma FieldSnoc(data: seq<Byte>, at: nat, i: nat)
    requires i < 2
    ensures FromLe(Field(data, at)[..i + 1]) == FromLe(Field(data, at)[..i]) + ShiftLeft(ElementAt(data, at + i), i)
  {
    var f := Field(data, at);
    assert f[..i + 1] == f[..i] + [f[i]];
    FromLeSnoc(f[..i], f[i]);
  }

  lemma FieldValue(data: seq<Byte>, at: nat)
    ensures FromLe(Field(data, at)[..2]) == ElementAt(data, at) as int + 256 * ElementAt(data, at + 1) as int
  {
    var f := Field(data, at);
    assert f[..2] == f && f[1..][1..] == [];
    assert FromLe(f[1..]) == f[1];
  }

  /** Hands one byte to the output buffer; a full buffer drops it. */
  method AppendByte(image: PiVisionData, b: Byte)
    requires image.Valid() && image.size + 1 < U32
    modifies image, image.buf
    ensures image.Valid()
    ensures image.Contents()
         == old(image.Contents()) + if old(|image.Contents()|) < image.capacity then [b] else []
  {
    var byte := new Byte[1](_ => b);
    assert byte[..1] == [b];
    var _ := image.Append(byte, 1);
  }

  /** `Execute`.  The product of the sizes is computed in a C int. */
  method Execute(pixelData: PiVisionData) returns (grayscaleImage: PiVisionData)
    requires pixelData.Valid()
    requires XSize(pixelData.Contents()) * YSize(pixelData.Contents()) < 0x8000_0000
    ensures grayscaleImage.Valid() && grayscaleImage.Contents() == GrayImage(pixelData.Contents())
  {
    ghost var data := pixelData.Contents();
    var xSize, ySize := ExtractImageProperties(pixelData);
    var limit := xSize * ySize;
    assert limit == XSize(data) * YSize(data);
    grayscaleImage := ConvertPixels(pixelData, limit);
  }

  /** The byte loop of `Execute`. */
  method ConvertPixels(pixelData: PiVisionData, limit: nat) returns (grayscaleImage: PiVisionData)
    requires pixelData.Valid() && limit < 0x8000_0000
    ensures grayscaleImage.Valid() && fresh(grayscaleImage) && fresh(grayscaleImage.buf)
    ensures grayscaleImage.Contents() == ShadesUpTo(pixelData.Contents(), limit, NumPixels(pixelData.Contents()))
  {
    ghost var data := pixelData.Contents();
    var colorIndex: nat := 0;
    var colorIntensity: nat := 0;
    ghost var pixel: nat := 0;
    grayscaleImage := new PiVisionData(limit);
    var byteIndex := HEADER_SIZE;
    while byteIndex < pixelData.size
      invariant pixelData.Valid() && pixelData.Contents() == data
      invariant grayscaleImage.Valid() && grayscaleImage.capacity == limit
      invariant fresh(grayscaleImage) && fresh(grayscaleImage.buf)
      invariant InPixel(data, byteIndex, pixel, colorIndex)
      invariant colorIntensity == Running(data, pixel, colorIndex)
      invariant grayscaleImage.Contents() == ShadesUpTo(data, limit, pixel)
      decreases pixelData.size - byteIndex
    {
      NextByte(data, byteIndex, pixel, colorIndex);
      colorIntensity := colorIntensity + pixelData.GetElementAt(byteIndex);
      colorIndex := colorIndex + 1;
      if colorIndex > 2 {
        ShadesSnoc(data, limit, pixel);
        colorIndex := 0;
        colorIntensity := Clamp(colorIntensity / 3);
        AppendByte(grayscaleImage, colorIntensity);
        pixel := pixel + 1;
      }
      byteIndex := byteIndex + 1;
    }
  }

  /** `byteIndex` points `colorIndex` bytes into pixel `pixel`. */
  predicate InPixel(data: seq<Byte>, byteIndex: nat, pixel: nat, colorIndex: nat) {
    && colorIndex <= 2
    && byteIndex == HEADER_SIZE + 3 * pixel + colorIndex
    && pixel <= NumPixels(data)
    && (byteIndex <= |data| || (pixel == 0 && colorIndex == 0))
  }

  /** The intensity carried inside pixel `pixel`, after `count` of its bytes. */
  function Running(data: seq<Byte>, pixel: nat, count: nat): nat
    requires pixel <= NumPixels(data)
  {
    Carry(data, pixel) + Part(data, 3 * pixel, count)
  }

  lemma NextByte(data: seq<Byte>, byteIndex: nat, pixel: nat, colorIndex: nat)
    requires InPixel(data, byteIndex, pixel, colorIndex) && byteIndex < |data|
    ensures Running(data, pixel, colorIndex + 1)
         == Running(data, pixel, colorIndex) + ElementAt(data, byteIndex)
    ensures colorIndex < 2 ==> InPixel(data, byteIndex + 1, pixel, colorIndex + 1)
    ensures colorIndex == 2 ==> pixel < NumPixels(data) && InPixel(data, byteIndex + 1, pixel + 1, 0)
  {
  }

  /** The first `n` shades, as far as the buffer holds them. */
  function ShadesUpTo(data: seq<Byte>, limit: nat, n: nat): seq<Byte>
    requires n <= NumPixels(data)
  {
    Shades(data)[..Min(limit, n)]
  }

  lemma ShadesSnoc(data: seq<Byte>, limit: nat, n: nat)
    requires n < NumPixels(data)
    ensures ShadesUpTo(data, limit, n + 1)
         == ShadesUpTo(data, limit, n) + if n < limit then [Carry(data, n + 1)] else []
    ensures Running(data, n + 1, 0) == Carry(data, n + 1) == Clamp(Running(data, n, 3) / 3)
  {
    PartIsColorSum(data, n);
  }

  /** The sum of `count` bytes from `at` behind the header. */
  function Part(data: seq<Byte>, at: nat, count: nat): nat {
    if count == 0 then 0 else Part(data, at, count - 1) + ElementAt(data, HEADER_SIZE + at + count - 1)
  }

  lemma PartIsColorSum(data: seq<Byte>, k: nat)
    requires k < NumPixels(data)
    ensures Part(data, 3 * k, 3) == ColorSum(data, k)
  {
    assert Part(data, 3 * k, 1) == data[4 + 3 * k];
    assert Part(data, 3 * k, 2) == data[4 + 3 * k] as int + data[5 + 3 * k] as int;
  }

  // ----- Main results -----

  /** The output has one byte for each whole pixel, cut to the announced size. */
  lemma OutputLength(data: seq<Byte>)
    ensures |GrayImage(data)| == Min(XSize(data) * YSize(data), NumPixels(data))
    ensures |data| >= HEADER_SIZE ==> |GrayImage(data)| == Min(XSize(data) * YSize(data), (|data| - 4) / 3)
  {
  }

  /** An image that announces `x` times `y` pixels has one gray byte for each of them that is there whole. */
  lemma AnnouncedSize(x: nat, y: nat, pixels: seq<Byte>)
    requires x < 0x1_0000 && y < 0x1_0000
    ensures var data := [x % 256, x / 256, y % 256, y / 256] + pixels;
      && XSize(data) == x && YSize(data) == y
      && |GrayImage(data)| == if |pixels| / 3 < x * y then |pixels| / 3 else x * y
  {
    var data := [x % 256, x / 256, y % 256, y / 256] + pixels;
    assert NumPixels(data) == |pixels| / 3;
  }

  /** Each gray byte is a third, rounded down, of the byte before and its pixel's three colors together, kept between
      1 and 254. */
  lemma ShadeRule(data: seq<Byte>, k: nat)
    requires k < |GrayImage(data)|
    ensures |data| >= 4 + 3 * k + 3
    ensures var before := if k == 0 then 0 else GrayImage(data)[k - 1];
      var sum := before as int + data[4 + 3 * k] as int + data[5 + 3 * k] as int + data[6 + 3 * k] as int;
      var out := GrayImage(data)[k];
      && (out == 254 <==> sum >= 3 * 254)
      && (out == 1 <==> sum < 6)
      && (1 < out < 254 ==> 3 * out <= sum < 3 * out + 3)
  {
    assert GrayImage(data)[k] == Carry(data, k + 1);
    assert k > 0 ==> GrayImage(data)[k - 1] == Carry(data, k);
  }

  /** Every byte is within the limits and exceeds the clamped mean of its own pixel by at most 85. */
  lemma CarryBrightens(data: seq<Byte>, k: nat)
    requires k < |GrayImage(data)|
    ensures LOWER_LIMIT <= GrayImage(data)[k] <= UPPER_LIMIT
    ensures var mean := Clamp(ColorSum(data, k) / 3);
      mean <= GrayImage(data)[k] <= mean + 85
  {
    assert GrayImage(data)[k] == Carry(data, k + 1);
    CarryRange(data, k);
  }

  lemma CarryRange(data: seq<Byte>, k: nat)
    requires k <= NumPixels(data)
    ensures 0 <= Carry(data, k) <= UPPER_LIMIT && (k > 0 ==> Carry(data, k) >= LOWER_LIMIT)
  {
  }

  predicate Within(gap: nat, v: nat, w: nat) {
    v <= w + gap && w <= v + gap
  }

  /** One step brings two intensities three times closer, rounded up. */
  lemma StepContracts(v: nat, w: nat, sum: nat, gap: nat)
    requires Within(gap, v, w)
    ensures Within((gap + 2) / 3, Clamp((v + sum) / 3), Clamp((w + sum) / 3))
  {
  }

  /** How far apart two runs can be, `n` pixels after they start to see the same image. */
  function Gap(n: nat): nat {
    if n == 0 then 254 else (Gap(n - 1) + 2) / 3
  }

  predicate AgreeFrom(d: seq<Byte>, e: seq<Byte>, j: nat) {
    forall k :: j <= k < NumPixels(d) && k < NumPixels(e) ==> ColorSum(d, k) == ColorSum(e, k)
  }

  lemma CarryContracts(d: seq<Byte>, e: seq<Byte>, k: nat, gap: nat)
    requires k < NumPixels(d) && k < NumPixels(e) && ColorSum(d, k) == ColorSum(e, k)
    requires Within(gap, Carry(d, k), Carry(e, k))
    ensures Within((gap + 2) / 3, Carry(d, k + 1), Carry(e, k + 1))
  {
    StepContracts(Carry(d, k), Carry(e, k), ColorSum(d, k), gap);
  }

  lemma {:induction false} GapAfter(d: seq<Byte>, e: seq<Byte>, j: nat, n: nat)
    requires AgreeFrom(d, e, j) && j + n <= NumPixels(d) && j + n <= NumPixels(e)
    ensures Within(Gap(n), Carry(d, j + n), Carry(e, j + n))
  {
    if n == 0 {
      CarryRange(d, j);
      CarryRange(e, j);
    } else {
      var k := j + n - 1;
      GapAfter(d, e, j, n - 1);
      assert ColorSum(d, k) == ColorSum(e, k);
      CarryContracts(d, e, k, Gap(n - 1));
    }
  }

  lemma {:induction false} GapSettles(n: nat)
    requires n >= 6
    ensures Gap(n) == 1
  {
    if n == 6 {
      assert Gap(1) == 85 && Gap(2) == 29 && Gap(3) == 10;
      assert Gap(4) == 4 && Gap(5) == 2;
    } else {
      GapSettles(n - 1);
    }
  }

  /** The past is forgotten: two images that agree from pixel j on have outputs at most one apart from pixel
      j + 5 on. */
  lemma PastIsForgotten(d: seq<Byte>, e: seq<Byte>, j: nat, i: nat)
    requires AgreeFrom(d, e, j) && j + 5 <= i < |GrayImage(d)| && i < |GrayImage(e)|
    ensures -1 <= GrayImage(d)[i] as int - GrayImage(e)[i] as int <= 1
  {
    GapAfter(d, e, j, i + 1 - j);
    GapSettles(i + 1 - j);
  }
}
