/** A connected stream socket as PiVisionEthTermConnection sees it.  The operating system is an arbitrary
    script: it decides how many bytes each recv hands over, how many each send accepts, when SO_ERROR is set,
    and when another thread clears the connection's `active` flag meanwhile. */
module Sockets {
  import opened Bytes

  /** One turn of the loop in `Receive`: recv gets at most `avail` bytes; with none it reports end of stream
      (0) or a failure or timeout (-1). */
  datatype RecvTurn = RecvTurn(soError: bool, stopped: bool, avail: nat, endOfStream: bool)

  /** One turn of the loop in `SendPayload`: send accepts at most `accepts` bytes, or fails. */
  datatype SendTurn = SendTurn(soError: bool, fails: bool, accepts: nat)

  class Socket {
    const incoming: seq<Byte>            // every byte the peer ever sends
    const recvScript: nat -> RecvTurn
    const sendScript: nat -> SendTurn
    var taken: nat                       // bytes of `incoming` received so far
    var recvTurn: nat
    var sendTurn: nat
    var outgoing: seq<Byte>              // bytes accepted for sending, in order

    ghost predicate Valid()
      reads this
    {
      taken <= |incoming|
    }

    constructor (incoming: seq<Byte>, recvScript: nat -> RecvTurn, sendScript: nat -> SendTurn)
      ensures Valid() && taken == 0 && recvTurn == 0 && sendTurn == 0 && outgoing == []
      ensures this.incoming == incoming && this.recvScript == recvScript && this.sendScript == sendScript
    {
      this.incoming, this.recvScript, this.sendScript := incoming, recvScript, sendScript;
      taken, recvTurn, sendTurn, outgoing := 0, 0, 0, [];
    }

    /** The current turn of the receive script. */
    function Turn(): RecvTurn
      reads this`recvTurn
    {
      recvScript(recvTurn)
    }

    method Recv(buffer: array<Byte>, maxSize: nat) returns (n: int)
      requires Valid() && maxSize <= buffer.Length
      modifies this`taken, buffer
      ensures Valid() && n <= maxSize
      ensures n > 0 ==> taken == old(taken) + n && buffer[..n] == incoming[old(taken)..taken]
      ensures n <= 0 ==> taken == old(taken)
      ensures taken - old(taken) == Min(Turn().avail, Min(maxSize, |incoming| - old(taken)))
      ensures n > 0 <==> maxSize > 0 && Turn().avail > 0 && old(taken) < |incoming|
    {
      var got := Min(Turn().avail, Min(maxSize, |incoming| - taken));
      if got == 0 {
        return if Turn().endOfStream then 0 else -1;
      }
      forall i | 0 <= i < got {
        buffer[i] := incoming[taken + i];
      }
      taken := taken + got;
      n := got;
    }

    method Send(buffer: array<Byte>, size: nat) returns (n: int)
      requires Valid() && size <= buffer.Length
      modifies this`outgoing
      ensures -1 <= n <= size
      ensures outgoing == old(outgoing) + buffer[..if n < 0 then 0 else n]
      ensures if sendScript(sendTurn).fails then n == -1 else n == Min(size, sendScript(sendTurn).accepts)
    {
      if sendScript(sendTurn).fails {
        return -1;
      }
      n := Min(size, sendScript(sendTurn).accepts);
      outgoing := outgoing + buffer[..n];
    }
  }
}
