/** The statics and functions of C/src/PiVisClient.c, C/src/PiVisImageProvider.c and C/src/PiVisAlgoCtrl.c as
    classes over fixed-size buffers, proved against the functions in `FramePipeline`. */
module FrameStages {
  import opened Bytes
  import opened FramePipeline
  import opened Images
  import Scheduler

  class CameraClient {
    var currState: nat
    var headerIndex: nat
    var bufferIndex: nat
    const buffer: array<Byte>

    ghost predicate Valid()
      reads this
    {
      && buffer.Length == COLOR_IMAGE_SIZE && bufferIndex <= COLOR_IMAGE_SIZE
      && headerIndex <= CAMERA_BUF_HEADER_SIZE && currState <= PROCESSING_FRAME
      && (currState < PROCESSING_FRAME ==> bufferIndex < COLOR_IMAGE_SIZE)
    }

    ghost function Abs(): Client
      reads this, buffer
    {
      Client(currState, headerIndex, bufferIndex, buffer[..])
    }

    constructor ()
      ensures Valid() && fresh(buffer) && Abs() == FramePipeline.Init.client
    {
      buffer := new Byte[COLOR_IMAGE_SIZE](_ => 0);
      currState, headerIndex, bufferIndex := SERVICE_DISCOVERY, 0, 0;
      new;
      assert buffer[..] == Zeros(COLOR_IMAGE_SIZE);
    }

    /** `stateConnected`. */
    method StateConnected(input: Input)
      requires Valid() && currState == CONNECTED
      modifies this, buffer
      ensures Valid() && Abs() == ClientRun(old(Abs()), input)
    {
      if headerIndex < CAMERA_BUF_HEADER_SIZE {
        if input.header.Some? {
          headerIndex := headerIndex + Min(input.header.value, CAMERA_BUF_HEADER_SIZE - headerIndex);
        }
      } else {
        if input.data.Some? {
          var n := Min(|input.data.value|, COLOR_IMAGE_SIZE - bufferIndex);
          forall i | 0 <= i < n {
            buffer[bufferIndex + i] := input.data.value[i];
          }
          bufferIndex := bufferIndex + n;
        } else {
          currState := SERVICE_DISCOVERY;
          forall i | 0 <= i < buffer.Length {
            buffer[i] := 0;
          }
        }
        assert Abs() == TakeData(old(Abs()), input);
        if bufferIndex == COLOR_IMAGE_SIZE {
          bufferIndex := 0;
          headerIndex := 0;
          currState := currState + 1;
        }
      }
    }

    /** `run`: one call of the current state's function. */
    method Run(input: Input)
      requires Valid()
      modifies this, buffer
      ensures Valid() && Abs() == ClientRun(old(Abs()), input)
    {
      if currState == SERVICE_DISCOVERY {
        if input.found {
          currState := currState + 1;
        }
      } else if currState == DISCONNECTED {
        currState := currState + 1;
      } else if currState == CONNECTING {
        if input.connects {
          currState := currState + 1;
        }
      } else if currState == CONNECTED {
        StateConnected(input);
      } else {
        if bufferIndex == COLOR_IMAGE_SIZE {
          bufferIndex := 0;
          currState := currState - 1;
        }
      }
    }

    /** `CLIENT_receive`; the caller must not ask for more than is left behind the write position. */
    method Receive(buf: array<Byte>, bufSize: nat) returns (retVal: nat)
      requires Valid() && buf != buffer && bufSize <= buf.Length
      requires currState == PROCESSING_FRAME ==> bufferIndex + bufSize <= COLOR_IMAGE_SIZE
      modifies this`bufferIndex, buf
      ensures Valid() && (Abs(), retVal) == ClientReceive(old(Abs()), bufSize)
      ensures retVal > 0 ==> buf[..bufSize] == buffer[old(bufferIndex)..bufferIndex]
      ensures retVal == 0 ==> buf[..] == old(buf[..])
    {
      retVal := 0;
      if currState == PROCESSING_FRAME {
        forall i | 0 <= i < bufSize {
          buf[i] := buffer[bufferIndex + i];
        }
        retVal := bufSize;
        bufferIndex := bufferIndex + retVal;
      }
      assert buffer[..] == old(buffer[..]);
    }
  }

  class ImageProvider {
    const client: CameraClient
    const recBuffer: array<Byte>
    var recBufferSize: nat

    ghost predicate Valid()
      reads this, client
    {
      && client.Valid() && recBuffer.Length == COLOR_IMAGE_SIZE && recBuffer != client.buffer
      && recBufferSize in {0, COLOR_IMAGE_SIZE}
    }

    constructor (client: CameraClient)
      requires client.Valid()
      ensures Valid() && fresh(recBuffer) && this.client == client && recBufferSize == 0
    {
      this.client := client;
      recBuffer := new Byte[COLOR_IMAGE_SIZE](_ => 0);
      recBufferSize := 0;
    }

    /** `run`, in a state the pipeline reaches: a finished frame is still at the start of the client's buffer. */
    method Run()
      requires Valid() && (client.currState == PROCESSING_FRAME ==> client.bufferIndex == 0)
      modifies this, client`bufferIndex, recBuffer
      ensures Valid()
      ensures (client.Abs(), recBufferSize) == ClientReceive(old(client.Abs()), COLOR_IMAGE_SIZE)
      ensures recBuffer[..] == if recBufferSize > 0 then client.buffer[..] else old(recBuffer[..])
    {
      recBufferSize := client.Receive(recBuffer, COLOR_IMAGE_SIZE);
    }

    /** `IMGPROVIDER_getPixelData`. */
    method GetPixelData(buf: array<Byte>, bufSize: nat) returns (bytesToCopy: nat)
      requires Valid() && bufSize <= buf.Length && buf != recBuffer && buf != client.buffer
      modifies buf
      ensures bytesToCopy == if recBufferSize == 0 then 0 else Min(bufSize, recBufferSize)
      ensures buf[..] == recBuffer[..bytesToCopy] + old(buf[..])[bytesToCopy..]
    {
      bytesToCopy := 0;
      if recBufferSize != 0 {
        bytesToCopy := bufSize;
        if bufSize > recBufferSize {
          bytesToCopy := recBufferSize;
        }
        forall i | 0 <= i < bytesToCopy {
          buf[i] := recBuffer[i];
        }
      }
    }
  }

  class AlgoCtrl {
    const provider: ImageProvider
    const recBuffer: array<Byte>
    var state: AlgoState
    ghost var offers: seq<Offer>
    ghost var finished: nat
    ghost var sendCalls: nat

    ghost predicate Valid()
      reads this, provider, provider.client
    {
      && provider.Valid() && recBuffer.Length == COLOR_IMAGE_SIZE
      && recBuffer != provider.recBuffer && recBuffer != provider.client.buffer
    }

    ghost function Abs(): AlgoContext
      reads this, recBuffer
    {
      AlgoContext(state, recBuffer[..], offers, finished, sendCalls)
    }

    constructor (provider: ImageProvider)
      requires provider.Valid()
      ensures Valid() && fresh(recBuffer) && this.provider == provider && Abs() == FramePipeline.Init.ctrl
    {
      this.provider := provider;
      recBuffer := new Byte[COLOR_IMAGE_SIZE](_ => 0);
      state, offers, finished, sendCalls := ALGO_INIT, [], 0, 0;
      new;
      assert recBuffer[..] == Zeros(COLOR_IMAGE_SIZE);
    }

    /** The pool thread sets ALGO_COMPLETE at some point of its own. */
    method Interference(completes: bool)
      requires Valid()
      modifies this`state, this`finished
      ensures Valid() && Abs() == MaybeComplete(old(Abs()), completes)
    {
      if completes && state == ALGO_RUNNING {
        state, finished := ALGO_COMPLETE, finished + 1;
      }
    }

    /** `run`. */
    method Run(early: bool, late: bool)
      requires Valid()
      modifies this, recBuffer
      ensures Valid()
      ensures Abs() == AlgoRun(old(Abs()), provider.recBuffer[..], provider.recBufferSize, early, late)
    {
      Interference(early);
      if state == ALGO_COMPLETE {
        sendCalls := sendCalls + 1; // IMGDATATL_sendGrayscaleImage
      }
      var copied := provider.GetPixelData(recBuffer, COLOR_IMAGE_SIZE);
      Interference(late);
      if copied == COLOR_IMAGE_SIZE {
        assert recBuffer[..] == provider.recBuffer[..];
        if state != ALGO_RUNNING {
          state := ALGO_RUNNING;
          offers := offers + [Scheduled(recBuffer[..])];
        } else {
          offers := offers + [Dropped(recBuffer[..])];
        }
      } else {
        assert recBuffer[..] == old(recBuffer[..]);
      }
    }
  }

  /** One scheduler pass over the registered callbacks.  The state between passes refines one step of the run in
      `FramePipeline`; the four callbacks that do not touch the three stages are skipped. */
  method RunPass(list: Scheduler.CallbackList, ctrl: AlgoCtrl, p: Pass, ghost s: System) returns (ghost s': System)
    requires list.Valid() && list.Callbacks() == Scheduler.RegistrationOrder
    requires ctrl.Valid() && Inv(s) && Represents(ctrl, s)
    modifies ctrl, ctrl.recBuffer, ctrl.provider, ctrl.provider.recBuffer,
             ctrl.provider.client, ctrl.provider.client.buffer
    ensures s' == PerformAll(s, p, list.Callbacks()) == Next(s, p)
    ensures ctrl.Valid() && Represents(ctrl, s')
  {
    var callbacks := list.RunPass();
    for k := 0 to |callbacks|
      invariant ctrl.Valid() && Represents(ctrl, PassUpTo(s, p, k))
    {
      RunCallback(callbacks[k], ctrl, p, s, k);
    }
    s' := Next(s, p);
    PassInOrder(s, p, |callbacks|);
    assert Scheduler.RegistrationOrder[..|callbacks|] == Scheduler.RegistrationOrder;
  }

  method RunCallback(callback: Scheduler.Callback, ctrl: AlgoCtrl, p: Pass, ghost s: System, ghost k: nat)
    requires k < |Scheduler.RegistrationOrder| && callback == Scheduler.RegistrationOrder[k]
    requires ctrl.Valid() && Inv(s) && Represents(ctrl, PassUpTo(s, p, k))
    modifies ctrl, ctrl.recBuffer, ctrl.provider, ctrl.provider.recBuffer,
             ctrl.provider.client, ctrl.provider.client.buffer
    ensures ctrl.Valid() && Represents(ctrl, PassUpTo(s, p, k + 1))
  {
    match callback
    case Client => ctrl.provider.client.Run(p.input);
    case AlgoCtrl => ctrl.Run(p.early, p.late);
    case ImageProvider =>
      ClientAdvances(s, p.input);
      ctrl.provider.Run();
    case _ =>
  }

  /** The classes hold what the abstract state says. */
  ghost predicate Represents(ctrl: AlgoCtrl, s: System)
    reads ctrl, ctrl.recBuffer, ctrl.provider, ctrl.provider.recBuffer,
          ctrl.provider.client, ctrl.provider.client.buffer
  {
    && ctrl.Abs() == s.ctrl
    && ctrl.provider.client.Abs() == s.client
    && ctrl.provider.recBuffer[..] == s.recBuffer && ctrl.provider.recBufferSize == s.recBufferSize
  }
}
