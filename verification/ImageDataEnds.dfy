/** The two ends of the numbered link as the source writes them: the statics of C/src/PiVisImageDataTL.c and the
    receive loop of Python/PiVisClient.py, proved against `ImageDataLink`. */
module ImageDataEnds {
  import opened Bytes
  import opened Framing
  import opened ImageDataLink

  const BUF_HEADER_SIZE := 4
  const GRAY_SCALE_IMAGE_TYPE: Byte := 0

  class ImageDataTL {
    var state: SenderState
    var numDroppedFrames: Word
    var numDroppedFramesAck: Word
    var frameNo: Byte
    const ackBuf: array<Byte>
    var connected: bool
    var outgoing: seq<Byte>      // bytes handed to SERVER_send, which sends them whole

    ghost predicate Valid()
      reads this
    {
      ackBuf.Length == ACK_BUF_SIZE
    }

    ghost function Abs(): Sender
      reads this, ackBuf
      requires Valid()
    {
      Sender(state, frameNo, ackBuf[..], numDroppedFrames, numDroppedFramesAck)
    }

    constructor ()
      ensures Valid() && fresh(ackBuf) && Abs() == NewSender && !connected && outgoing == []
    {
      ackBuf := new Byte[ACK_BUF_SIZE](_ => 0);
      state, frameNo, numDroppedFrames, numDroppedFramesAck := SEND_DATA, 0, 0, 0;
      connected, outgoing := false, [];
      new;
      assert ackBuf[..] == NewSender.ackBuf;
    }

    /** `run`: `any` is false when SERVER_receive returns -1, otherwise it returned the bytes `received`. */
    method Run(received: seq<Byte>, any: bool)
      requires Valid() && |received| <= ACK_BUF_SIZE
      modifies this, ackBuf
      ensures Valid() && Abs() == SenderRun(old(Abs()), received, any)
      ensures any ==> ackBuf[..] == received + old(ackBuf[..])[|received|..]
      ensures any && ackBuf[8] == old(frameNo) ==> state == SEND_DATA && frameNo == (old(frameNo) + 1) % 256
      ensures any && ackBuf[8] != old(frameNo) ==> state == old(state) && frameNo == old(frameNo)
      ensures any ==> numDroppedFrames == old(numDroppedFrames) && numDroppedFramesAck == old(numDroppedFramesAck)
      ensures !any ==> Abs() == old(Abs())
      ensures connected == old(connected) && outgoing == old(outgoing)
    {
      if any {
        forall i | 0 <= i < |received| {
          ackBuf[i] := received[i];
        }
        assert ackBuf[..] == received + old(ackBuf[..])[|received|..];
        if ackBuf[ACK_BUF_FRAME_NO_OFFSET] == frameNo {
          state := SEND_DATA;
          frameNo := (frameNo + 1) % 256;
        }
      }
    }

    /** `IMGDATATL_sendGrayscaleImage`. */
    method SendGrayscaleImage(buf: array<Byte>, size: nat)
      requires Valid() && size <= buf.Length && BUF_HEADER_SIZE + size < U32
      modifies this
      ensures Valid() && connected == old(connected)
      ensures var (sender, out) := SenderSend(old(Abs()), connected);
        Abs() == sender && outgoing == old(outgoing) + (if out then Frame(buf[..size]) else [])
      ensures numDroppedFrames == (old(numDroppedFrames) + if old(state) == WAIT_FOR_ACK then 1 else 0) % 0x1_0000_0000
      ensures numDroppedFramesAck ==
        (old(numDroppedFramesAck) + if old(state) == SEND_DATA && !connected then 1 else 0) % 0x1_0000_0000
      ensures outgoing == old(outgoing) +
        if old(state) == SEND_DATA && connected then Le32(size) + buf[..size] else []
      ensures state == (if connected then WAIT_FOR_ACK else old(state)) && frameNo == old(frameNo)
    {
      if state == SEND_DATA {
        var totSize := BUF_HEADER_SIZE + size;
        var bufToSend := new Byte[totSize](_ => 0);
        var header := Le32(size);
        forall i | 0 <= i < BUF_HEADER_SIZE {
          bufToSend[i] := header[i];
        }
        forall i | 0 <= i < size {
          bufToSend[BUF_HEADER_SIZE + i] := buf[i];
        }
        assert bufToSend[..] == Frame(buf[..size]);
        if connected {
          outgoing := outgoing + bufToSend[..];
          state := WAIT_FOR_ACK;
        } else {
          numDroppedFramesAck := (numDroppedFramesAck + 1) % U32;
        }
      } else {
        numDroppedFrames := (numDroppedFrames + 1) % U32;
      }
    }
  }

  /** The Python client once connected. */
  class PiVisClient {
    const incoming: seq<Byte>        // everything the server ever sends
    const packets: nat -> nat        // how many bytes each recv is willing to return
    var taken: nat
    var turn: nat
    var frameNo: Byte
    var data: seq<Byte>
    var outgoing: seq<Byte>

    ghost predicate Valid()
      reads this
    {
      taken <= |incoming|
    }

    constructor (incoming: seq<Byte>, packets: nat -> nat)
      ensures Valid() && taken == 0 && frameNo == 0 && data == [] && outgoing == []
      ensures this.incoming == incoming && this.packets == packets
    {
      this.incoming, this.packets := incoming, packets;
      taken, turn, frameNo, data, outgoing := 0, 0, 0, [], [];
    }

    /** `__receiveInternal`: it loops until it has every byte, however the packets are cut; `patience` bounds the
        calls of recv considered, and `done` says that the loop was left. */
    method ReceiveInternal(numBytes: nat, patience: nat) returns (bytes: seq<Byte>, done: bool)
      requires Valid()
      modifies this`taken, this`turn
      ensures Valid() && old(taken) <= taken
      ensures bytes == incoming[old(taken)..taken] && |bytes| <= numBytes
      ensures done <==> |bytes| == numBytes
      ensures old(taken) + numBytes <= |incoming| && patience >= numBytes && (forall t: nat :: packets(t) > 0) ==> done
    {
      bytes := [];
      var calls := 0;
      while |bytes| < numBytes && calls < patience
        invariant Valid() && old(taken) <= taken && calls <= patience
        invariant bytes == incoming[old(taken)..taken] && |bytes| <= numBytes
        invariant old(taken) + numBytes <= |incoming| && (forall t: nat :: packets(t) > 0) ==> calls <= |bytes|
        decreases patience - calls
      {
        var n := Min(packets(turn), Min(numBytes - |bytes|, |incoming| - taken));
        bytes := bytes + incoming[taken..taken + n];
        taken, turn, calls := taken + n, turn + 1, calls + 1;
      }
      done := |bytes| == numBytes;
    }

    /** Lines 82-85. */
    method ReceiveSize(patience: nat) returns (imageSize: nat, done: bool)
      requires Valid()
      modifies this`taken, this`turn
      ensures Valid() && old(taken) <= taken
      ensures done ==> taken == old(taken) + 4 && ImageBehind(incoming, old(taken), imageSize)
      ensures old(taken) + 4 <= |incoming| && patience >= 4 && (forall t: nat :: packets(t) > 0) ==> done
    {
      ghost var start := taken;
      var header;
      header, done := ReceiveInternal(4, patience);
      imageSize := 0;
      if done {
        imageSize := FromLe(header);
        ImageAt(incoming, start, imageSize);
      }
    }

    /** Lines 87-94: the body of an image, unless its size says that there is none. */
    method TakeBody(imageSize: nat, patience: nat) returns (done: bool)
      requires Valid()
      modifies this`taken, this`turn, this`data
      ensures Valid() && old(taken) <= taken
      ensures done ==> taken == old(taken) + BodyLength(imageSize)
      ensures done && imageSize > 1 ==> data == [0] + incoming[old(taken)..taken]
      ensures !done || imageSize <= 1 ==> data == old(data)
      ensures old(taken) + BodyLength(imageSize) <= |incoming| && (forall t: nat :: packets(t) > 0) ==>
        (patience >= BodyLength(imageSize) ==> done)
    {
      done := true;
      if imageSize != 0 && imageSize != 1 {
        var body;
        body, done := ReceiveInternal(imageSize, patience);
        if done {
          data := [GRAY_SCALE_IMAGE_TYPE] + body;
        }
      }
    }

    /** One turn of the loop in `receive`: the next image on the stream is stored behind its type byte and
        acknowledged with the client's frame number. */
    method ReceiveImage(patience: nat) returns (done: bool)
      requires Valid()
      modifies this
      ensures Valid()
      ensures done ==> HasImage(old(incoming[taken..]))
      ensures done ==> incoming[taken..] == AfterImage(old(incoming[taken..]))
      ensures done ==>
        var image := ImageOf(old(incoming[taken..])); data == if image == [] then old(data) else [0] + image
      ensures done ==> outgoing == old(outgoing) + AckMessage(old(frameNo)) && frameNo == Succ(old(frameNo))
      ensures !done ==> data == old(data) && outgoing == old(outgoing) && frameNo == old(frameNo)
      ensures HasImage(old(incoming[taken..])) && (forall t: nat :: packets(t) > 0) ==>
        (patience >= 4 + |ImageOf(old(incoming[taken..]))| ==> done)
    {
      var imageSize;
      imageSize, done := ReceiveSize(patience);
      if !done {
        return;
      }
      done := TakeBody(imageSize, patience);
      if !done {
        return;
      }
      outgoing := outgoing + AckMessage(frameNo);
      frameNo := if frameNo == 255 then 0 else frameNo + 1;
    }
  }

  /** The stream from `start` has a header that announces `imageSize`, and its image lies right behind it. */
  ghost predicate ImageBehind(incoming: seq<Byte>, start: nat, imageSize: nat)
    requires start + 4 <= |incoming|
  {
    var stream := incoming[start..];
    var end := start + 4 + BodyLength(imageSize);
    && (HasImage(stream) <==> end <= |incoming|)
    && (end <= |incoming| ==> ImageOf(stream) == incoming[start + 4..end] && AfterImage(stream) == incoming[end..])
  }

  lemma ImageAt(incoming: seq<Byte>, start: nat, imageSize: nat)
    requires start + 4 <= |incoming| && imageSize == FromLe(incoming[start..start + 4])
    ensures ImageBehind(incoming, start, imageSize)
  {
    assert incoming[start..][..4] == incoming[start..start + 4];
  }
}
