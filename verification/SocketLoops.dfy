/** The receive and send loops of PiVisionEthTermConnection (C++/src/pivision_ethtermconnection.cpp:85-143, 166-226) on
    values: what a script of turns makes of them, and where they are left. */
module SocketLoops {
  import opened Bytes
  import opened Sockets

  const MAX_CHUNK_SIZE := 4096
  const MAX_ATTEMPTS := 10

  /** A turn in which an error is reported or another thread stops the connection. */
  predicate Disturbing(t: RecvTurn) {
    t.soError || t.stopped
  }

  predicate Accepting(t: SendTurn) {
    !t.fails && t.accepts > 0
  }

  ghost predicate BytesWithin(script: nat -> RecvTurn, from: nat) {
    exists u: nat :: from <= u < from + 11 && script(u).avail > 0
  }

  ghost predicate RoomWithin(script: nat -> SendTurn, from: nat) {
    exists u: nat :: from <= u < from + 11 && Accepting(script(u))
  }

  /** The receiving side works: no error, no stop, and among any eleven turns one has bytes to hand over. */
  ghost predicate ReceivesWell(script: nat -> RecvTurn) {
    && (forall t: nat :: !Disturbing(script(t)))
    && (forall t: nat :: BytesWithin(script, t))
  }

  /** The sending side works: no error, and among any eleven turns one accepts something. */
  ghost predicate AcceptsWell(script: nat -> SendTurn) {
    && (forall t: nat :: !script(t).soError)
    && (forall t: nat :: RoomWithin(script, t))
  }

  /** Where a receive loop is left: the turn, how far the stream is taken, and whether the connection is active. */
  datatype Left = Left(turn: nat, taken: nat, active: bool)

  /** The loop of `Receive` from turn `turn` on, with `need` bytes to get and `attempts` empty turns behind it. */
  function Drain(script: nat -> RecvTurn, total: nat, at: Left, need: nat, attempts: nat): Left
    requires at.taken <= total && attempts <= MAX_ATTEMPTS
    decreases need, MAX_ATTEMPTS - attempts
  {
    if need == 0 then at
    else
      var t := script(at.turn);
      var got := if t.soError then 0 else Min(t.avail, Min(Min(MAX_CHUNK_SIZE, need), total - at.taken));
      var next := Left(at.turn + 1, at.taken + got, at.active && !Disturbing(t));
      if got > 0 then Drain(script, total, next, need - got, 0)
      else if !next.active then next
      else if attempts == MAX_ATTEMPTS then next.(active := false)
      else Drain(script, total, next, need, attempts + 1)
  }

  /** No error is reported and no stop arrives in turns `from` to `to`. */
  ghost predicate Calm(script: nat -> RecvTurn, from: nat, to: nat) {
    forall t :: from <= t < to ==> !Disturbing(script(t))
  }

  /** Turns `from` to `to` had nothing to hand over, or the stream has been taken to its end. */
  ghost predicate Barren(script: nat -> RecvTurn, from: int, to: nat, atEnd: bool) {
    atEnd || forall t: nat :: from <= t < to ==> script(t).avail == 0
  }

  lemma {:induction false} DrainBounds(script: nat -> RecvTurn, total: nat, at: Left, need: nat, attempts: nat)
    requires at.taken <= total && attempts <= MAX_ATTEMPTS
    ensures var e := Drain(script, total, at, need, attempts);
      && at.taken <= e.taken <= total && e.taken <= at.taken + need
      && at.turn <= e.turn <= at.turn + 11 * need && (need > 0 ==> e.turn <= at.turn + 11 * need - attempts)
      && (e.active <==> at.active && e.taken == at.taken + need && Calm(script, at.turn, e.turn))
    decreases need, MAX_ATTEMPTS - attempts
  {
    if need > 0 {
      var t := script(at.turn);
      var got := if t.soError then 0 else Min(t.avail, Min(Min(MAX_CHUNK_SIZE, need), total - at.taken));
      var next := Left(at.turn + 1, at.taken + got, at.active && !Disturbing(t));
      if got > 0 {
        DrainBounds(script, total, next, need - got, 0);
      } else if next.active && attempts < MAX_ATTEMPTS {
        DrainBounds(script, total, next, need, attempts + 1);
      }
    }
  }

  /** Falling short without an error or a stop takes eleven empty turns in a row. */
  lemma {:induction false} DrainFallsShort(script: nat -> RecvTurn, total: nat, at: Left, need: nat, attempts: nat)
    requires at.taken <= total && attempts <= MAX_ATTEMPTS
    requires var e := Drain(script, total, at, need, attempts);
      at.active && Calm(script, at.turn, e.turn) && e.taken < at.taken + need
    ensures var e := Drain(script, total, at, need, attempts);
      && e.turn >= at.turn + 11 - attempts
      && Barren(script, if at.turn > e.turn - 11 then at.turn else e.turn - 11, e.turn, e.taken == total)
    decreases need, MAX_ATTEMPTS - attempts
  {
    var e := Drain(script, total, at, need, attempts);
    DrainBounds(script, total, at, need, attempts);
    var t := script(at.turn);
    var got := if t.soError then 0 else Min(t.avail, Min(Min(MAX_CHUNK_SIZE, need), total - at.taken));
    var next := Left(at.turn + 1, at.taken + got, at.active && !Disturbing(t));
    if got > 0 {
      DrainBounds(script, total, next, need - got, 0);
      DrainFallsShort(script, total, next, need - got, 0);
    } else if next.active && attempts < MAX_ATTEMPTS {
      DrainBounds(script, total, next, need, attempts + 1);
      DrainFallsShort(script, total, next, need, attempts + 1);
    }
  }

  /** Falling short has a cause: inactivity, an error, a stop, or eleven empty turns in a row. */
  ghost predicate Cause(script: nat -> RecvTurn, total: nat, at: Left, need: nat, e: Left) {
    e.taken < at.taken + need ==>
      || !at.active || !Calm(script, at.turn, e.turn)
      || (e.turn >= at.turn + 11 && Barren(script, e.turn - 11, e.turn, e.taken == total))
  }

  lemma DrainCause(script: nat -> RecvTurn, total: nat, at: Left, need: nat)
    requires at.taken <= total
    ensures Cause(script, total, at, need, Drain(script, total, at, need, 0))
  {
    var e := Drain(script, total, at, need, 0);
    if at.active && Calm(script, at.turn, e.turn) && e.taken < at.taken + need {
      DrainFallsShort(script, total, at, need, 0);
    }
  }

  /** On a working network a receive gets what it asks for, or all that is left. */
  lemma DrainWorks(script: nat -> RecvTurn, total: nat, at: Left, need: nat)
    requires at.taken <= total && at.active && ReceivesWell(script)
    ensures var e := Drain(script, total, at, need, 0);
      e.taken == Min(at.taken + need, total) && (e.active <==> e.taken == at.taken + need)
  {
    var e := Drain(script, total, at, need, 0);
    DrainBounds(script, total, at, need, 0);
    assert Calm(script, at.turn, e.turn);
    if e.taken < at.taken + need {
      DrainFallsShort(script, total, at, need, 0);
      assert BytesWithin(script, e.turn - 11);
    }
  }

  // ----- The receive loop, turn by turn -----

  /** How many bytes have been received before turn `u`, if the loop is not left earlier. */
  function TakenAt(script: nat -> RecvTurn, total: nat, o: Left, need: nat, u: nat): (b: nat)
    requires o.taken <= total && o.turn <= u
    ensures b <= need && o.taken + b <= total
    decreases u
  {
    if u == o.turn then 0
    else
      var b := TakenAt(script, total, o, need, u - 1);
      var t := script(u - 1);
      b + if t.soError then 0 else Min(t.avail, Min(Min(MAX_CHUNK_SIZE, need - b), total - o.taken - b))
  }

  /** Turn `u` hands nothing over. */
  predicate EmptyTurn(script: nat -> RecvTurn, total: nat, o: Left, need: nat, u: nat)
    requires o.taken <= total && o.turn <= u
  {
    TakenAt(script, total, o, need, u + 1) == TakenAt(script, total, o, need, u)
  }

  /** How many turns before turn `u` have handed nothing over in a row. */
  function EmptyBefore(script: nat -> RecvTurn, total: nat, o: Left, need: nat, u: nat): (n: nat)
    requires o.taken <= total && o.turn <= u
    decreases u
  {
    if u == o.turn || !EmptyTurn(script, total, o, need, u - 1) then 0
    else EmptyBefore(script, total, o, need, u - 1) + 1
  }

  ghost predicate ActiveAt(script: nat -> RecvTurn, o: Left, u: nat) {
    o.active && Calm(script, o.turn, u)
  }

  /** The loop is left before turn `u`: every byte is there, or the turn before handed nothing over and either the
      connection is inactive or it was the eleventh empty turn in a row. */
  ghost predicate LeftAt(script: nat -> RecvTurn, total: nat, o: Left, need: nat, u: nat)
    requires o.taken <= total && o.turn <= u
  {
    var silence := EmptyBefore(script, total, o, need, u);
    || TakenAt(script, total, o, need, u) == need
    || (silence > 0 && (!ActiveAt(script, o, u) || silence >= 11))
  }

  ghost predicate NotLeftBefore(script: nat -> RecvTurn, total: nat, o: Left, need: nat, u: nat)
    requires o.taken <= total
  {
    forall v :: o.turn <= v < u ==> !LeftAt(script, total, o, need, v)
  }

  lemma NotLeftNext(script: nat -> RecvTurn, total: nat, o: Left, need: nat, u: nat)
    requires o.taken <= total && o.turn <= u
    ensures NotLeftBefore(script, total, o, need, u + 1)
       <==> NotLeftBefore(script, total, o, need, u) && !LeftAt(script, total, o, need, u)
  {
  }

  /** `e` is where the loop is left for the first time. */
  ghost predicate FirstLeft(script: nat -> RecvTurn, total: nat, o: Left, need: nat, e: Left)
    requires o.taken <= total
  {
    && o.turn <= e.turn && e.taken == o.taken + TakenAt(script, total, o, need, e.turn)
    && LeftAt(script, total, o, need, e.turn)
    && NotLeftBefore(script, total, o, need, e.turn)
    && (e.active <==> ActiveAt(script, o, e.turn) && e.taken == o.taken + need)
  }

  /** The loop goes on at turn `u`, with `attempts` empty turns behind it. */
  ghost predicate Onward(script: nat -> RecvTurn, total: nat, o: Left, need: nat, u: nat, attempts: nat)
    requires o.taken <= total
  {
    && o.turn <= u && attempts <= MAX_ATTEMPTS && attempts == EmptyBefore(script, total, o, need, u)
    && NotLeftBefore(script, total, o, need, u)
    && (TakenAt(script, total, o, need, u) < need ==> !LeftAt(script, total, o, need, u))
  }

  ghost function At(script: nat -> RecvTurn, total: nat, o: Left, need: nat, u: nat): Left
    requires o.taken <= total && o.turn <= u
  {
    Left(u, o.taken + TakenAt(script, total, o, need, u), ActiveAt(script, o, u))
  }

  lemma ActiveTurn(script: nat -> RecvTurn, o: Left, u: nat)
    requires o.turn <= u
    ensures ActiveAt(script, o, u + 1) == (ActiveAt(script, o, u) && !Disturbing(script(u)))
  {
  }

  /** Whether the loop is left behind turn `u`. */
  lemma LeftBehind(script: nat -> RecvTurn, total: nat, o: Left, need: nat, u: nat)
    requires o.taken <= total && o.turn <= u
    ensures EmptyBefore(script, total, o, need, u + 1)
         == if EmptyTurn(script, total, o, need, u) then EmptyBefore(script, total, o, need, u) + 1 else 0
    ensures LeftAt(script, total, o, need, u + 1) <==>
      || TakenAt(script, total, o, need, u + 1) == need
      || (EmptyTurn(script, total, o, need, u) &&
          (!ActiveAt(script, o, u + 1) || EmptyBefore(script, total, o, need, u) >= MAX_ATTEMPTS))
  {
  }

  lemma BytesOnward(script: nat -> RecvTurn, total: nat, o: Left, need: nat, u: nat, attempts: nat)
    requires o.taken <= total && Onward(script, total, o, need, u, attempts)
    requires TakenAt(script, total, o, need, u) < need && !EmptyTurn(script, total, o, need, u)
    ensures Onward(script, total, o, need, u + 1, 0)
  {
    LeftBehind(script, total, o, need, u);
    NotLeftNext(script, total, o, need, u);
  }

  lemma SilenceOnward(script: nat -> RecvTurn, total: nat, o: Left, need: nat, u: nat, attempts: nat)
    requires o.taken <= total && Onward(script, total, o, need, u, attempts) && attempts < MAX_ATTEMPTS
    requires TakenAt(script, total, o, need, u) < need && EmptyTurn(script, total, o, need, u)
    requires ActiveAt(script, o, u + 1)
    ensures Onward(script, total, o, need, u + 1, attempts + 1)
  {
    LeftBehind(script, total, o, need, u);
    NotLeftNext(script, total, o, need, u);
  }

  lemma SilenceEnds(script: nat -> RecvTurn, total: nat, o: Left, need: nat, u: nat, attempts: nat)
    requires o.taken <= total && Onward(script, total, o, need, u, attempts)
    requires TakenAt(script, total, o, need, u) < need && EmptyTurn(script, total, o, need, u)
    requires !ActiveAt(script, o, u + 1) || attempts == MAX_ATTEMPTS
    ensures FirstLeft(script, total, o, need, At(script, total, o, need, u + 1).(active := false))
  {
    LeftBehind(script, total, o, need, u);
    NotLeftNext(script, total, o, need, u);
  }

  /** The rest of the loop from turn `u` on. */
  ghost function Rest(script: nat -> RecvTurn, total: nat, o: Left, need: nat, u: nat, attempts: nat): Left
    requires o.taken <= total && o.turn <= u && attempts <= MAX_ATTEMPTS
  {
    Drain(script, total, At(script, total, o, need, u), need - TakenAt(script, total, o, need, u), attempts)
  }

  /** What the loop does in one turn. */
  lemma DrainTurn(script: nat -> RecvTurn, total: nat, o: Left, need: nat, u: nat, attempts: nat)
    requires o.taken <= total && o.turn <= u && attempts <= MAX_ATTEMPTS
    requires TakenAt(script, total, o, need, u) < need
    ensures Rest(script, total, o, need, u, attempts)
         == if !EmptyTurn(script, total, o, need, u) then Rest(script, total, o, need, u + 1, 0)
            else if !ActiveAt(script, o, u + 1) || attempts == MAX_ATTEMPTS
            then At(script, total, o, need, u + 1).(active := false)
            else Rest(script, total, o, need, u + 1, attempts + 1)
    ensures TakenAt(script, total, o, need, u + 1) >= TakenAt(script, total, o, need, u)
  {
    ActiveTurn(script, o, u);
  }

  lemma {:induction false} DrainLeft(script: nat -> RecvTurn, total: nat, o: Left, need: nat, u: nat, attempts: nat)
    requires o.taken <= total && Onward(script, total, o, need, u, attempts)
    ensures FirstLeft(script, total, o, need, Rest(script, total, o, need, u, attempts))
    decreases need - TakenAt(script, total, o, need, u), MAX_ATTEMPTS - attempts
  {
    if TakenAt(script, total, o, need, u) < need {
      DrainTurn(script, total, o, need, u, attempts);
      if !EmptyTurn(script, total, o, need, u) {
        BytesOnward(script, total, o, need, u, attempts);
        DrainLeft(script, total, o, need, u + 1, 0);
      } else if ActiveAt(script, o, u + 1) && attempts < MAX_ATTEMPTS {
        SilenceOnward(script, total, o, need, u, attempts);
        DrainLeft(script, total, o, need, u + 1, attempts + 1);
      } else {
        SilenceEnds(script, total, o, need, u, attempts);
      }
    } else {
      NothingNeeded(script, total, o, need, u, attempts);
    }
  }

  lemma NothingNeeded(script: nat -> RecvTurn, total: nat, o: Left, need: nat, u: nat, attempts: nat)
    requires o.taken <= total && Onward(script, total, o, need, u, attempts)
    requires TakenAt(script, total, o, need, u) == need
    ensures FirstLeft(script, total, o, need, Rest(script, total, o, need, u, attempts))
  {
  }

  /** The loop is left where the description of its turns says, and not before. */
  lemma DrainIsFirstLeft(script: nat -> RecvTurn, total: nat, at: Left, need: nat)
    requires at.taken <= total
    ensures FirstLeft(script, total, at, need, Drain(script, total, at, need, 0))
  {
    assert ActiveAt(script, at, at.turn) == at.active;
    DrainLeft(script, total, at, need, at.turn, 0);
  }

  /** One turn hands over as much as there is, up to 4096 bytes, up to what is still needed, and up to the end of the
      stream; with an error it hands over nothing. */
  lemma TurnTakes(script: nat -> RecvTurn, total: nat, o: Left, need: nat, u: nat)
    requires o.taken <= total && o.turn <= u
    ensures var b, b' := TakenAt(script, total, o, need, u), TakenAt(script, total, o, need, u + 1);
      var t := script(u);
      && b <= b' && b' - b <= 4096 && b' <= need && o.taken + b' <= total && b' - b <= t.avail
      && (t.soError ==> b' == b)
      && (!t.soError ==> b' - b == t.avail || b' - b == 4096 || b' == need || o.taken + b' == total)
  {
  }

  /** A receive that falls short ends on a turn that handed nothing over; and no turn before that found the connection
      inactive and handed nothing over. */
  ghost predicate LastTurns(script: nat -> RecvTurn, total: nat, o: Left, need: nat, e: Left) {
    && (e.taken < o.taken + need ==>
          e.turn > o.turn && (script(e.turn - 1).soError || script(e.turn - 1).avail == 0 || e.taken == total))
    && (forall t :: o.turn <= t < e.turn - 1 && !ActiveAt(script, o, t + 1) ==>
          !script(t).soError && script(t).avail > 0)
  }

  lemma FirstLeftLast(script: nat -> RecvTurn, total: nat, o: Left, need: nat, e: Left)
    requires o.taken <= total && FirstLeft(script, total, o, need, e)
    ensures LastTurns(script, total, o, need, e)
  {
    if e.taken < o.taken + need {
      TurnTakes(script, total, o, need, e.turn - 1);
    }
    forall t | o.turn <= t < e.turn - 1 && !ActiveAt(script, o, t + 1)
      ensures !script(t).soError && script(t).avail > 0
    {
      assert !LeftAt(script, total, o, need, t + 1);
      assert !EmptyTurn(script, total, o, need, t);
      TurnTakes(script, total, o, need, t);
    }
  }

  /** What a receive of `need` bytes comes to: */
  ghost predicate ReceiveOutcome(script: nat -> RecvTurn, total: nat, o: Left, need: nat, e: Left)
    requires o.taken <= total
  {
    // at most eleven turns for each byte asked for
    && o.turn <= e.turn <= o.turn + 11 * need
    && Cause(script, total, o, need, e)
    && LastTurns(script, total, o, need, e)
    // turn by turn, the loop is left where that is due and not before
    && FirstLeft(script, total, o, need, e)
  }

  lemma DrainOutcome(script: nat -> RecvTurn, total: nat, o: Left, need: nat)
    requires o.taken <= total
    ensures ReceiveOutcome(script, total, o, need, Drain(script, total, o, need, 0))
  {
    DrainBounds(script, total, o, need, 0);
    DrainCause(script, total, o, need);
    DrainIsFirstLeft(script, total, o, need);
    FirstLeftLast(script, total, o, need, Drain(script, total, o, need, 0));
  }

  // ----- The send loop, turn by turn -----

  /** How many bytes have been accepted before turn `u`. */
  function AcceptedAt(script: nat -> SendTurn, size: nat, from: nat, u: nat): (b: nat)
    requires from <= u
    ensures b <= size
    decreases u
  {
    if u == from then 0
    else
      var b := AcceptedAt(script, size, from, u - 1);
      var t := script(u - 1);
      b + if t.soError || t.fails then 0 else Min(Min(MAX_CHUNK_SIZE, size - b), t.accepts)
  }

  /** How many sends have failed before turn `u` since the last that did not; turns with an error are not counted. */
  function FailuresAt(script: nat -> SendTurn, from: nat, u: nat): nat
    requires from <= u
    decreases u
  {
    if u == from then 0
    else if script(u - 1).soError then FailuresAt(script, from, u - 1)
    else if script(u - 1).fails then FailuresAt(script, from, u - 1) + 1
    else 0
  }

  /** No error is reported in turns `from` to `to`. */
  ghost predicate NoError(script: nat -> SendTurn, from: nat, to: nat) {
    forall t :: from <= t < to ==> !script(t).soError
  }

  /** The loop is left before turn `u`: everything is sent, or the eleventh send in a row has failed. */
  predicate SendLeftAt(script: nat -> SendTurn, size: nat, from: nat, u: nat)
    requires from <= u
  {
    AcceptedAt(script, size, from, u) == size || FailuresAt(script, from, u) >= 11
  }

  /** The loop has come to turn `u` without being left before. */
  ghost predicate Sending(script: nat -> SendTurn, size: nat, from: nat, u: nat, sent: nat, attempts: nat) {
    && from <= u && sent == AcceptedAt(script, size, from, u) && attempts == FailuresAt(script, from, u)
    && forall v :: from <= v < u ==> !SendLeftAt(script, size, from, v)
  }

  lemma SendingOn(script: nat -> SendTurn, size: nat, from: nat, u: nat, sent: nat, attempts: nat)
    requires Sending(script, size, from, u, sent, attempts) && sent < size && attempts <= MAX_ATTEMPTS
    ensures var t := script(u);
      var accepted := if t.soError || t.fails then 0 else Min(Min(MAX_CHUNK_SIZE, size - sent), t.accepts);
      var failures := if t.soError then attempts else if t.fails then attempts + 1 else 0;
      Sending(script, size, from, u + 1, sent + accepted, failures)
    ensures NoError(script, from, u + 1) <==> NoError(script, from, u) && !script(u).soError
  {
  }

  /** One turn accepts as much as the peer takes, up to 4096 bytes and up to what is left. */
  lemma TurnAccepts(script: nat -> SendTurn, size: nat, from: nat, u: nat)
    requires from <= u
    ensures var b, b' := AcceptedAt(script, size, from, u), AcceptedAt(script, size, from, u + 1);
      var t := script(u);
      && b <= b' <= size && b' - b <= 4096 && b' - b <= t.accepts
      && (t.soError || t.fails ==> b' == b)
      && (!t.soError && !t.fails ==> b' - b == t.accepts || b' - b == 4096 || b' == size)
  {
  }

  lemma {:induction false} AcceptedGrows(script: nat -> SendTurn, size: nat, from: nat, u: nat, v: nat)
    requires from <= u <= v
    ensures AcceptedAt(script, size, from, u) <= AcceptedAt(script, size, from, v)
    decreases v
  {
    if u < v {
      AcceptedGrows(script, size, from, u, v - 1);
    }
  }

  lemma {:induction false} FailuresSince(script: nat -> SendTurn, from: nat, v: nat, u: nat)
    requires from <= v < u && !script(v).soError && !script(v).fails
    ensures FailuresAt(script, from, u) <= u - v - 1
    decreases u
  {
    if v < u - 1 {
      FailuresSince(script, from, v, u - 1);
    }
  }

  lemma {:induction false} FailuresBound(script: nat -> SendTurn, from: nat, u: nat)
    requires from <= u
    ensures FailuresAt(script, from, u) <= u - from
    decreases u
  {
    if from < u {
      FailuresBound(script, from, u - 1);
    }
  }

  /** On a working network the sends never fail eleven times in a row ... */
  lemma FewFailures(script: nat -> SendTurn, from: nat, u: nat)
    requires from <= u && AcceptsWell(script)
    ensures FailuresAt(script, from, u) <= 10
  {
    if u <= from + 10 {
      FailuresBound(script, from, u);
    } else {
      assert RoomWithin(script, u - 11);
      var v: nat :| u - 11 <= v < u && Accepting(script(v));
      FailuresSince(script, from, v, u);
    }
  }

  /** ... and eleven turns for each byte are enough. */
  lemma {:induction false} AllAccepted(script: nat -> SendTurn, size: nat, from: nat, k: nat)
    requires AcceptsWell(script)
    ensures AcceptedAt(script, size, from, from + 11 * k) >= Min(k, size)
    decreases k
  {
    if k > 0 {
      var u := from + 11 * (k - 1);
      AllAccepted(script, size, from, k - 1);
      assert RoomWithin(script, u);
      var v: nat :| u <= v < u + 11 && Accepting(script(v));
      AcceptedGrows(script, size, from, u, v);
      TurnAccepts(script, size, from, v);
      AcceptedGrows(script, size, from, v + 1, u + 11);
    }
  }
}
