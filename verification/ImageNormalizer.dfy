/** The array loops of C/src/PiVisImageNormalizerAlgo.c, with the statics of that file as fields, proved against
    the functions in `Normalizer`.  All scalar statics are unsigned int. */
module ImageNormalizers {
  import Arithmetic
  import opened Bytes
  import opened Images
  import opened Normalizer

  class ImageNormalizer {
    const grayscaleImage: array<Byte>
    const normalizedImage: array<Byte>
    var maxIntensity: Word
    var minIntensity: Word
    var averageIntensity: Word
    var standardDeviation: Word

    /** What holds between frames. */
    ghost predicate Valid()
      reads this
    {
      && grayscaleImage.Length == normalizedImage.Length == GRAYSCALE_IMAGE_SIZE
      && grayscaleImage != normalizedImage
      && averageIntensity <= 240
      && maxIntensity == 0 && minIntensity == 255
    }

    constructor ()
      ensures Valid() && fresh(grayscaleImage) && fresh(normalizedImage) && averageIntensity == 0
    {
      grayscaleImage := new Byte[GRAYSCALE_IMAGE_SIZE](_ => 0);
      normalizedImage := new Byte[GRAYSCALE_IMAGE_SIZE](_ => 0);
      maxIntensity, minIntensity, averageIntensity, standardDeviation := 0, 255, 0, 0;
    }

    method CreateGrayscaleImage(colorImage: array<Byte>)
      requires grayscaleImage.Length == GRAYSCALE_IMAGE_SIZE
      requires colorImage.Length == COLOR_IMAGE_SIZE && colorImage != grayscaleImage
      modifies grayscaleImage
      ensures grayscaleImage[..] == Gray(colorImage[..])
    {
      ghost var color := colorImage[..];
      var colorIndex := 0;
      var colorIntensity: Word := 0;
      var grayscalePixelIndex := 0;
      for bufIndex := 0 to COLOR_IMAGE_SIZE
        invariant colorImage[..] == color
        invariant bufIndex == 3 * grayscalePixelIndex + colorIndex && 0 <= colorIndex <= 2
        invariant 0 <= colorIntensity == PartSum(color, 3 * grayscalePixelIndex, colorIndex) <= 255 * colorIndex
        invariant forall i :: 0 <= i < grayscalePixelIndex ==> grayscaleImage[i] == Mean(color, i)
      {
        colorIntensity := colorIntensity + colorImage[bufIndex];
        colorIndex := colorIndex + 1;
        if colorIndex > 2 {
          ThreeBytes(color, grayscalePixelIndex);
          colorIndex := 0;
          colorIntensity := colorIntensity / 3;
          grayscaleImage[grayscalePixelIndex] := colorIntensity;
          colorIntensity := 0;
          grayscalePixelIndex := grayscalePixelIndex + 1;
        }
      }
    }

    /** Lines 49-69: clip every pixel, sum onto the carried average, divide. */
    method ClipAndAverage()
      requires Valid()
      modifies this`averageIntensity, normalizedImage
      ensures Valid() && averageIntensity == Average(old(averageIntensity), grayscaleImage[..])
      ensures forall i :: 0 <= i < GRAYSCALE_IMAGE_SIZE ==> normalizedImage[i] == Clip(grayscaleImage[i])
    {
      ghost var gray := grayscaleImage[..];
      for bufIndex := 0 to GRAYSCALE_IMAGE_SIZE
        invariant grayscaleImage[..] == gray && old(averageIntensity) <= 240
        invariant averageIntensity == old(averageIntensity) + ClipSum(gray, bufIndex)
        invariant forall i :: 0 <= i < bufIndex ==> normalizedImage[i] == Clip(gray[i])
      {
        var colorIntensity := grayscaleImage[bufIndex];
        if colorIntensity > IMAGE_FILTER_HIGH {
          colorIntensity := IMAGE_FILTER_HIGH;
        } else if colorIntensity < IMAGE_FILTER_LOW {
          colorIntensity := IMAGE_FILTER_LOW;
        }
        ClipSumBounds(gray, bufIndex);
        averageIntensity := Wrap(averageIntensity + colorIntensity);
        normalizedImage[bufIndex] := colorIntensity;
      }
      AverageInRange(old(averageIntensity), gray);
      averageIntensity := averageIntensity / GRAYSCALE_IMAGE_SIZE;
    }

    /** Lines 70-79: the co-moment accumulated modulo 2^32, and the truncated square root of its mean. */
    method MeasureDeviation()
      requires grayscaleImage.Length == normalizedImage.Length == GRAYSCALE_IMAGE_SIZE
      requires 20 <= averageIntensity <= 240
      requires forall i :: 0 <= i < GRAYSCALE_IMAGE_SIZE ==> normalizedImage[i] == Clip(grayscaleImage[i])
      modifies this`standardDeviation
      ensures standardDeviation == StandardDeviation(grayscaleImage[..], averageIntensity)
      ensures var moment := Wrap(CoSum(grayscaleImage[..], averageIntensity, GRAYSCALE_IMAGE_SIZE));
        standardDeviation * standardDeviation * GRAYSCALE_IMAGE_SIZE <= moment
        < (standardDeviation + 1) * (standardDeviation + 1) * GRAYSCALE_IMAGE_SIZE
    {
      ghost var gray := grayscaleImage[..];
      var imageVariance: Word := 0;
      for bufIndex := 0 to GRAYSCALE_IMAGE_SIZE
        invariant imageVariance == Wrap(CoSum(gray, averageIntensity, bufIndex))
      {
        CoSumStep(gray, averageIntensity, bufIndex);
        imageVariance := Wrap(imageVariance + Wrap(Wrap(normalizedImage[bufIndex] - averageIntensity)
                                                   * Wrap(grayscaleImage[bufIndex] - averageIntensity)));
      }
      imageVariance := imageVariance / GRAYSCALE_IMAGE_SIZE;
      RootIsWord(imageVariance);
      standardDeviation := FloorSqrt(imageVariance);
      DeviationIs(gray, averageIntensity);
    }

    /** Lines 83-104: rescale the pixels above the average and track the extremes.  False means that the loop
        reached a division by zero. */
    method RescaleAndTrack(ghost gray: seq<Byte>) returns (ok: bool)
      requires IsGrayImage(gray) && normalizedImage.Length == GRAYSCALE_IMAGE_SIZE
      requires maxIntensity == 0 && minIntensity == 255
      requires forall i :: 0 <= i < GRAYSCALE_IMAGE_SIZE ==> normalizedImage[i] == Clip(gray[i])
      modifies this`maxIntensity, this`minIntensity, normalizedImage
      ensures ok <==> !DividesByZero(gray, averageIntensity, standardDeviation)
      ensures ok ==> normalizedImage[..] == RescaleAll(gray, averageIntensity, standardDeviation)
      ensures ok ==> Rescaled(gray, averageIntensity, standardDeviation, normalizedImage[..])
      ensures ok ==> maxIntensity == MaxTo(normalizedImage[..], GRAYSCALE_IMAGE_SIZE)
      ensures ok ==> minIntensity == MinTo(normalizedImage[..], GRAYSCALE_IMAGE_SIZE)
    {
      ghost var clipped := normalizedImage[..];
      assert forall i :: 0 <= i < GRAYSCALE_IMAGE_SIZE ==> clipped[i] == Clip(gray[i]);
      ok := RescaleLoop(RescaleAll(gray, averageIntensity, standardDeviation));
      if ok {
        RescaledIs(gray, averageIntensity, standardDeviation);
      }
    }

    /** The loop of these lines; `s` is the image to come. */
    method RescaleLoop(ghost s: seq<Byte>) returns (ok: bool)
      requires normalizedImage.Length == |s| == GRAYSCALE_IMAGE_SIZE
      requires maxIntensity == 0 && minIntensity == 255
      requires forall i :: 0 <= i < GRAYSCALE_IMAGE_SIZE ==>
        s[i] == Rescale(normalizedImage[i], averageIntensity, standardDeviation)
      modifies this`maxIntensity, this`minIntensity, normalizedImage
      ensures standardDeviation > 0 ==> ok
      ensures standardDeviation == 0 ==>
        (ok <==> forall i :: 0 <= i < GRAYSCALE_IMAGE_SIZE ==> old(normalizedImage[..])[i] <= averageIntensity)
      ensures ok ==> normalizedImage[..] == s
      ensures ok ==> maxIntensity == MaxTo(s, GRAYSCALE_IMAGE_SIZE) && minIntensity == MinTo(s, GRAYSCALE_IMAGE_SIZE)
    {
      ghost var clipped := normalizedImage[..];
      for bufIndex := 0 to GRAYSCALE_IMAGE_SIZE
        invariant forall i :: 0 <= i < bufIndex ==> normalizedImage[i] == s[i]
        invariant forall i :: bufIndex <= i < GRAYSCALE_IMAGE_SIZE ==> normalizedImage[i] == clipped[i]
        invariant forall i :: 0 <= i < bufIndex ==> standardDeviation > 0 || clipped[i] <= averageIntensity
        invariant maxIntensity == MaxTo(s, bufIndex) && minIntensity == MinTo(s, bufIndex)
      {
        var colorIntensity := normalizedImage[bufIndex];
        if normalizedImage[bufIndex] > averageIntensity {
          if standardDeviation == 0 {
            assert clipped[bufIndex] > averageIntensity;
            return false;
          }
          QuotientIsByte(normalizedImage[bufIndex], averageIntensity, standardDeviation);
          colorIntensity := (normalizedImage[bufIndex] - averageIntensity) / standardDeviation;
        }
        if colorIntensity > maxIntensity {
          maxIntensity := colorIntensity;
        }
        if colorIntensity < minIntensity {
          minIntensity := colorIntensity;
        }
        normalizedImage[bufIndex] := colorIntensity;
      }
      assert normalizedImage[..] == s;
      ok := true;
    }

    /** Lines 106-114. */
    method StretchContrast()
      requires normalizedImage.Length == GRAYSCALE_IMAGE_SIZE
      requires maxIntensity == MaxTo(normalizedImage[..], GRAYSCALE_IMAGE_SIZE)
      requires minIntensity == MinTo(normalizedImage[..], GRAYSCALE_IMAGE_SIZE) < maxIntensity
      modifies normalizedImage
      ensures normalizedImage[..] == Normalized(old(normalizedImage[..]))
    {
      ghost var s := normalizedImage[..];
      var normalizingFactor := 255 / (maxIntensity - minIntensity);
      for bufIndex := 0 to GRAYSCALE_IMAGE_SIZE
        invariant forall i :: 0 <= i < bufIndex ==> normalizedImage[i] == Stretch(s[i], minIntensity, maxIntensity)
        invariant forall i :: bufIndex <= i < GRAYSCALE_IMAGE_SIZE ==> normalizedImage[i] == s[i]
      {
        ContrastStretch(s, bufIndex, bufIndex);
        if normalizedImage[bufIndex] > minIntensity {
          normalizedImage[bufIndex] := (normalizedImage[bufIndex] - minIntensity) * normalizingFactor;
        }
      }
      assert normalizedImage[..] == Normalized(s);
    }

    /** `IMGNORMALGO_exec`.  False means that the source divides by zero on this frame: it does so exactly when
        the standard deviation is 0 with a pixel above the average, or the rescaled image has no contrast. */
    method Exec(inputData: array<Byte>) returns (ok: bool)
      requires Valid() && inputData.Length == COLOR_IMAGE_SIZE
      requires inputData != grayscaleImage && inputData != normalizedImage
      modifies this, grayscaleImage, normalizedImage
      ensures var gray := Gray(inputData[..]);
        var a := Average(old(averageIntensity), gray);
        var sd := StandardDeviation(gray, a);
        var s := RescaleAll(gray, a, sd);
        && averageIntensity == a && (ok ==> Rescaled(gray, a, sd, s))
        && (ok <==> !DividesByZero(gray, a, sd) && MinTo(s, |s|) < MaxTo(s, |s|))
        && (ok ==> Valid() && normalizedImage[..] == Normalized(s))
    {
      ghost var gray := Gray(inputData[..]);
      CreateGrayscaleImage(inputData);
      ClipAndAverage();
      AverageInRange(old(averageIntensity), gray);
      MeasureDeviation();
      ok := RescaleAndTrack(gray);
      if !ok {
        return;
      }
      TrackedExtremes(normalizedImage[..], GRAYSCALE_IMAGE_SIZE);
      if maxIntensity == minIntensity {
        return false;
      }
      StretchContrast();
      maxIntensity, minIntensity := 0, 255;
    }
  }

  lemma QuotientIsByte(v: Byte, a: nat, sd: nat)
    requires v > a && sd > 0
    ensures 0 <= (v - a) / sd <= 255 && Rescale(v, a, sd) == (v - a) / sd
  {
    Arithmetic.QuotientBound(v - a, sd);
  }

  lemma CoSumStep(gray: seq<Byte>, a: nat, i: nat)
    requires i < |gray| && 20 <= a <= 240
    ensures Wrap(CoSum(gray, a, i + 1)) == Wrap(Wrap(CoSum(gray, a, i)) + TermU32(Clip(gray[i]), gray[i], a))
  {
    CoTermExact(gray[i], a);
    WrapOfSum(CoSum(gray, a, i), CoTerm(gray[i], a));
  }

  lemma WrapOfSum(x: int, y: nat)
    requires y < U32
    ensures Wrap(Wrap(x) + y) == Wrap(x + y)
  {
  }

  lemma RootIsWord(v: Word)
    ensures FloorSqrt(v) < U32
  {
    var r := FloorSqrt(v);
    if r >= U32 {
      Arithmetic.MulMonotone(U32, r, r);
    }
  }
}
