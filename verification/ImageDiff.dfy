/** The frame-difference algorithm of C/src/PiVisImageDiffAlgo.c. */
module ImageDiff {
  import opened Bytes
  import opened Images

  const DIFF_LIMIT := 100

  function Distance(a: Byte, b: Byte): (d: nat)
    ensures d == a - b || d == b - a
  {
    if a < b then b - a else a - b
  }

  /** The summed change of the three channels of pixel `i`. */
  function Change(prev: seq<Byte>, cur: seq<Byte>, i: nat): nat
    requires 3 * i + 2 < |prev| && 3 * i + 2 < |cur|
  {
    Distance(prev[3 * i], cur[3 * i])
    + Distance(prev[3 * i + 1], cur[3 * i + 1])
    + Distance(prev[3 * i + 2], cur[3 * i + 2])
  }

  function Marked(prev: seq<Byte>, cur: seq<Byte>, i: nat): Byte
    requires 3 * i + 2 < |prev| && 3 * i + 2 < |cur|
  {
    if Change(prev, cur, i) > DIFF_LIMIT then 255 else Mean(cur, i)
  }

  /** The statics of the file. */
  datatype State = State(receivedFirstImage: bool, prev: seq<Byte>, image: seq<Byte>)

  function Init(): State {
    State(false, seq(COLOR_IMAGE_SIZE, _ => 0), seq(GRAYSCALE_IMAGE_SIZE, _ => 0))
  }

  function Next(s: State, cur: seq<Byte>): State
    requires IsColorImage(s.prev) && IsColorImage(cur)
  {
    State(true, cur,
          if s.receivedFirstImage
          then seq(GRAYSCALE_IMAGE_SIZE, i requires 0 <= i < GRAYSCALE_IMAGE_SIZE => Marked(s.prev, cur, i))
          else s.image)
  }

  class ImageDiffAlgo {
    var receivedFirstImage: bool
    const prevBuffer: array<Byte>
    const imageToSend: array<Byte>

    ghost predicate Valid()
      reads this
    {
      prevBuffer.Length == COLOR_IMAGE_SIZE && imageToSend.Length == GRAYSCALE_IMAGE_SIZE && prevBuffer != imageToSend
    }

    ghost function Abs(): State
      reads this, prevBuffer, imageToSend
    {
      State(receivedFirstImage, prevBuffer[..], imageToSend[..])
    }

    constructor ()
      ensures Valid() && fresh(prevBuffer) && fresh(imageToSend) && Abs() == Init()
    {
      receivedFirstImage := false;
      prevBuffer := new Byte[COLOR_IMAGE_SIZE](_ => 0);
      imageToSend := new Byte[GRAYSCALE_IMAGE_SIZE](_ => 0);
      new;
      assert prevBuffer[..] == Init().prev && imageToSend[..] == Init().image;
    }

    /** The counter loop: one pass over the color bytes with running sums. */
    method MarkChanges(inputData: array<Byte>)
      requires Valid() && inputData.Length == COLOR_IMAGE_SIZE
      requires inputData != prevBuffer && inputData != imageToSend
      modifies imageToSend
      ensures forall i :: 0 <= i < GRAYSCALE_IMAGE_SIZE ==> imageToSend[i] == Marked(prevBuffer[..], inputData[..], i)
    {
      ghost var prev, cur := prevBuffer[..], inputData[..];
      var colorIndex: nat, diff: nat, toSendPixelIndex: nat, colorIntensity: nat := 0, 0, 0, 0;
      for bufIndex := 0 to COLOR_IMAGE_SIZE
        invariant prevBuffer[..] == prev && inputData[..] == cur
        invariant 0 <= colorIndex <= 2 && bufIndex == 3 * toSendPixelIndex + colorIndex
        invariant diff == PartChange(prev, cur, 3 * toSendPixelIndex, colorIndex)
        invariant colorIntensity == PartSum(cur, 3 * toSendPixelIndex, colorIndex)
        invariant forall i :: 0 <= i < toSendPixelIndex ==> imageToSend[i] == Marked(prev, cur, i)
      {
        diff := diff + Distance(prevBuffer[bufIndex], inputData[bufIndex]);
        colorIndex := colorIndex + 1;
        colorIntensity := colorIntensity + inputData[bufIndex];
        if colorIndex > 2 {
          ThreeChannels(prev, cur, toSendPixelIndex);
          if diff > DIFF_LIMIT {
            imageToSend[toSendPixelIndex] := 255;
          } else {
            imageToSend[toSendPixelIndex] := colorIntensity / 3;
          }
          colorIndex, diff, colorIntensity := 0, 0, 0;
          toSendPixelIndex := toSendPixelIndex + 1;
        }
      }
    }

    /** `IMGDIFFALGO_exec`. */
    method Exec(inputData: array<Byte>)
      requires Valid() && inputData.Length == COLOR_IMAGE_SIZE
      requires inputData != prevBuffer && inputData != imageToSend
      modifies this, prevBuffer, imageToSend
      ensures Valid() && Abs() == Next(old(Abs()), old(inputData[..]))
    {
      if receivedFirstImage {
        MarkChanges(inputData);
        assert imageToSend[..] == Next(old(Abs()), inputData[..]).image;
      }
      receivedFirstImage := true;
      forall i | 0 <= i < COLOR_IMAGE_SIZE {
        prevBuffer[i] := inputData[i];
      }
      assert prevBuffer[..] == inputData[..];
    }
  }

  /** The sums carried by the loop after `count` channels of a pixel starting at `at`. */
  function PartChange(prev: seq<Byte>, cur: seq<Byte>, at: nat, count: nat): nat
    requires at + count <= |prev| && at + count <= |cur|
  {
    if count == 0 then 0 else PartChange(prev, cur, at, count - 1) + Distance(prev[at + count - 1], cur[at + count - 1])
  }

  lemma ThreeChannels(prev: seq<Byte>, cur: seq<Byte>, i: nat)
    requires 3 * i + 3 <= |prev| && 3 * i + 3 <= |cur|
    ensures PartChange(prev, cur, 3 * i, 3) == Change(prev, cur, i)
    ensures PartSum(cur, 3 * i, 3) / 3 == Mean(cur, i)
  {
    ThreeBytes(cur, i);
    assert PartChange(prev, cur, 3 * i, 2)
        == Distance(prev[3 * i], cur[3 * i]) + Distance(prev[3 * i + 1], cur[3 * i + 1]) by {
      assert PartChange(prev, cur, 3 * i, 1) == Distance(prev[3 * i], cur[3 * i]);
    }
  }

  // ----- Main results -----

  predicate Frames(frames: seq<seq<Byte>>) {
    forall i :: 0 <= i < |frames| ==> IsColorImage(frames[i])
  }

  function After(frames: seq<seq<Byte>>): (s: State)
    requires Frames(frames)
    ensures IsColorImage(s.prev) && |s.image| == GRAYSCALE_IMAGE_SIZE
  {
    if frames == [] then Init() else Next(After(frames[..|frames| - 1]), frames[|frames| - 1])
  }

  lemma AfterKeepsLast(frames: seq<seq<Byte>>)
    requires Frames(frames) && frames != []
    ensures After(frames).receivedFirstImage && After(frames).prev == frames[|frames| - 1]
  {
  }

  /** Over every sequence of two or more frames: an output pixel is 255 exactly when its three channels together
      differ by more than 100 from the frame immediately before or the pixel is white, and otherwise is the floored
      mean of the channels. */
  lemma LatestOutput(frames: seq<seq<Byte>>, i: nat)
    requires Frames(frames) && |frames| >= 2 && i < GRAYSCALE_IMAGE_SIZE
    ensures var prev, cur := frames[|frames| - 2], frames[|frames| - 1];
      var change := Distance(prev[3 * i], cur[3 * i]) + Distance(prev[3 * i + 1], cur[3 * i + 1])
                    + Distance(prev[3 * i + 2], cur[3 * i + 2]);
      var sum := cur[3 * i] as int + cur[3 * i + 1] as int + cur[3 * i + 2] as int;
      var out := After(frames).image[i];
      && (out == 255 <==> change > 100 || sum == 3 * 255)
      && (out != 255 ==> 3 * out <= sum < 3 * out + 3)
  {
    AfterKeepsLast(frames[..|frames| - 1]);
    ThreeBytes(frames[|frames| - 1], i);
  }

  /** The first frame only fills the retained buffer. */
  lemma FirstFrameSendsNothingNew(frame: seq<Byte>)
    requires IsColorImage(frame)
    ensures After([frame]).image == Init().image && After([frame]).prev == frame
  {
    assert [frame][..0] == [];
  }
}
