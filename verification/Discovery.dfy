/** The text of service discovery: `WHERE_IS_<n>` printed by C++/src/pivision_ethtermconnectservice.cpp and parsed by
    C++/src/pivision_ethtermservicelistener.cpp. */
module Discovery {
  import opened Bytes

  const HEADER := "WHERE_IS_"
  const BUF_SIZE := 50

  // ----- Decimal text -----

  predicate IsDigit(c: char) {
    '0' <= c <= '9'
  }

  function DigitValue(c: char): nat
    requires IsDigit(c)
  {
    c as int - '0' as int
  }

  function DigitChar(n: nat): (c: char)
    requires n < 10
    ensures IsDigit(c) && DigitValue(c) == n
  {
    ('0' as int + n) as char
  }

  /** `std::to_string`. */
  function Dec(n: nat): (s: string)
    ensures s != [] && forall i :: 0 <= i < |s| ==> IsDigit(s[i])
  {
    if n < 10 then [DigitChar(n)] else Dec(n / 10) + [DigitChar(n % 10)]
  }

  /** The digit loop of `atoi`: it stops at the first other character, a NUL included. */
  function Digits(s: string, acc: nat): nat {
    if s == [] || !IsDigit(s[0]) then acc else Digits(s[1..], 10 * acc + DigitValue(s[0]))
  }

  predicate IsSpace(c: char) {
    c == ' ' || 9 <= c as int <= 13
  }

  function SkipSpaces(s: string): string {
    if s != [] && IsSpace(s[0]) then SkipSpaces(s[1..]) else s
  }

  /** `atoi`; the C function leaves results outside an int undefined. */
  function Atoi(s: string): int {
    var t := SkipSpaces(s);
    if t == [] then 0
    else if t[0] == '-' then -(Digits(t[1..], 0) as int)
    else if t[0] == '+' then Digits(t[1..], 0)
    else Digits(t, 0)
  }

  // ----- Requests and answers -----

  /** The text `FindService` sends. */
  function Request(s: Word): string {
    HEADER + Dec(s)
  }

  /** What `recvfrom` leaves in the 50-byte buffer. */
  function Received(datagram: string): string {
    datagram[..Min(BUF_SIZE, |datagram|)]
  }

  predicate LongEnough(message: string) {
    |message| > |HEADER|
  }

  predicate IsServiceRequest(message: string)
    requires LongEnough(message)
  {
    message[..|HEADER|] == HEADER
  }

  /** A message the listener drops before it reads the next one in the same call. */
  predicate Unknown(message: string) {
    LongEnough(message) && !IsServiceRequest(message)
  }

  predicate Answers(serviceNo: Word, message: string) {
    LongEnough(message) && IsServiceRequest(message) && Atoi(message[|HEADER|..]) % U32 == serviceNo
  }

  // ----- The listener -----

  /** One `recvfrom`: a time-out, or a datagram and who sent it. */
  datatype Packet = Timeout | Packet(sender: nat, text: string)

  /** One call of `handleNewServiceDiscoveryRequests`: what it leaves unread and whom it answers. */
  function Turn(serviceNo: Word, incoming: seq<Packet>): (r: (seq<Packet>, seq<nat>))
    ensures incoming != [] ==> |r.0| < |incoming|
    ensures incoming == [] ==> r == ([], [])
  {
    if incoming == [] then ([], [])
    else if incoming[0].Timeout? then (incoming[1..], [])
    else if Unknown(Received(incoming[0].text)) then Turn(serviceNo, incoming[1..])
    else (incoming[1..], if Answers(serviceNo, Received(incoming[0].text)) then [incoming[0].sender] else [])
  }

  class ServiceListener {
    const serviceNo: Word
    var incoming: seq<Packet>
    var addr: nat
    var answered: seq<nat>

    constructor (serviceNo: Word, incoming: seq<Packet>)
      ensures this.serviceNo == serviceNo && this.incoming == incoming && answered == []
    {
      this.serviceNo := serviceNo;
      this.incoming := incoming;
      addr, answered := 0, [];
    }

    /** `recvfrom` writes the sender to the field `addr`; an empty socket times out. */
    method RecvFrom() returns (bytesReceived: int, messageBuf: string)
      modifies this`incoming, this`addr
      ensures old(incoming) == [] ==> incoming == []
      ensures old(incoming) != [] ==> incoming == old(incoming)[1..]
      ensures old(incoming) == [] || old(incoming)[0].Timeout? ==> bytesReceived == -1
      ensures old(incoming) != [] && old(incoming)[0].Packet? ==>
        && messageBuf == Received(old(incoming)[0].text)
        && bytesReceived == |messageBuf|
        && addr == old(incoming)[0].sender
    {
      bytesReceived, messageBuf := -1, "";
      if incoming != [] {
        if incoming[0].Packet? {
          messageBuf := Received(incoming[0].text);
          bytesReceived := |messageBuf|;
          addr := incoming[0].sender;
        }
        incoming := incoming[1..];
      }
    }

    /** `handleNewServiceDiscoveryRequests`. */
    method HandleNewServiceDiscoveryRequests()
      modifies this
      ensures incoming == Turn(serviceNo, old(incoming)).0
      ensures answered == old(answered) + Turn(serviceNo, old(incoming)).1
      decreases |incoming|
    {
      var bytesReceived, messageBuf := RecvFrom();
      if bytesReceived > |HEADER| {
        if messageBuf[..|HEADER|] == HEADER {
          var portNo := Atoi(messageBuf[|HEADER|..]) % U32;
          if serviceNo == portNo {
            answered := answered + [addr];
          }
        } else {
          HandleNewServiceDiscoveryRequests();
        }
      }
    }
  }

  // ----- Print and parse are inverse -----

  lemma {:induction false} DigitsAfterDec(n: nat, tail: string)
    ensures Digits(Dec(n) + tail, 0) == Digits(tail, n)
  {
    if n < 10 {
      assert (Dec(n) + tail)[1..] == tail;
    } else {
      var last := [DigitChar(n % 10)] + tail;
      assert Dec(n) + tail == Dec(n / 10) + last;
      DigitsAfterDec(n / 10, last);
      assert last[1..] == tail;
      assert 10 * (n / 10) + n % 10 == n;
    }
  }

  predicate EndsNumber(tail: string) {
    tail == [] || !IsDigit(tail[0])
  }

  /** Parsing undoes printing, whatever follows the number. */
  lemma ParseOfPrint(n: nat, tail: string)
    requires EndsNumber(tail)
    ensures Atoi(Dec(n) + tail) == n
  {
    assert (Dec(n) + tail)[0] == Dec(n)[0];
    DigitsAfterDec(n, tail);
  }

  lemma DigitIs(c: char)
    requires '0' <= c <= '9'
    ensures IsDigit(c) && DigitValue(c) < 10 && "0123456789"[DigitValue(c)] == c
  {
  }

  /** The value of a decimal number by its places. */
  function Value(digits: string): nat
    requires forall i :: 0 <= i < |digits| ==> IsDigit(digits[i])
  {
    if digits == [] then 0
    else 10 * Value(digits[..|digits| - 1]) + DigitValue(digits[|digits| - 1])
  }

  lemma {:induction false} DigitsStop(digits: string, tail: string, acc: nat)
    requires (forall i :: 0 <= i < |digits| ==> IsDigit(digits[i])) && EndsNumber(tail)
    ensures Digits(digits + tail, acc) == Digits(digits, acc)
  {
    if digits == [] {
      assert digits + tail == tail;
    } else {
      assert (digits + tail)[1..] == digits[1..] + tail;
      DigitsStop(digits[1..], tail, 10 * acc + DigitValue(digits[0]));
    }
  }

  lemma {:induction false} DigitsAreValue(digits: string)
    requires forall i :: 0 <= i < |digits| ==> IsDigit(digits[i])
    ensures Digits(digits, 0) == Value(digits)
  {
    if digits != [] {
      var front, c := digits[..|digits| - 1], digits[|digits| - 1];
      assert digits == front + [c];
      DigitsSnoc(front, c, 0);
      DigitsAreValue(front);
    }
  }

  lemma {:induction false} SpacesSkipped(spaces: string, s: string)
    requires forall i :: 0 <= i < |spaces| ==> spaces[i] == ' ' || 9 <= spaces[i] as int <= 13
    requires s == [] || !(s[0] == ' ' || 9 <= s[0] as int <= 13)
    ensures SkipSpaces(spaces + s) == s
  {
    if spaces == [] {
      assert spaces + s == s;
    } else {
      assert (spaces + s)[1..] == spaces[1..] + s;
      SpacesSkipped(spaces[1..], s);
    }
  }

  /** What `atoi` makes of any text that has no second sign: white space is skipped, a sign is obeyed, and the number is
      what the digits up to the next other character say, 0 if there are none. */
  lemma AtoiReads(spaces: string, sign: string, digits: string, tail: string)
    requires forall i :: 0 <= i < |spaces| ==> spaces[i] == ' ' || 9 <= spaces[i] as int <= 13
    requires sign in {"", "+", "-"} && EndsNumber(tail)
    requires forall i :: 0 <= i < |digits| ==> IsDigit(digits[i])
    requires sign == "" && digits == "" && tail != "" ==>
      !(tail[0] == ' ' || 9 <= tail[0] as int <= 13) && tail[0] != '+' && tail[0] != '-'
    ensures Atoi(spaces + (sign + (digits + tail))) == (if sign == "-" then -1 else 1) * Value(digits)
  {
    var number := digits + tail;
    var text := sign + number;
    assert sign != "" ==> text[0] == sign[0] && text[1..] == number;
    assert sign == "" ==> text == number;
    SpacesSkipped(spaces, text);
    SpacesSkipped("", text);
    assert "" + text == text;
    DigitsStop(digits, tail, 0);
    DigitsAreValue(digits);
    AtoiSigned(sign, number);
  }

  lemma AtoiSigned(sign: string, number: string)
    requires sign in {"", "+", "-"}
    requires sign == "" && number != "" ==>
      !(number[0] == ' ' || 9 <= number[0] as int <= 13) && number[0] != '+' && number[0] != '-'
    ensures Atoi(sign + number) == (if sign == "-" then -1 else 1) * Digits(number, 0)
  {
    var text := sign + number;
    if sign == "" {
      assert text == number;
    } else {
      assert text[0] == sign[0] && text[1..] == number;
    }
  }

  /** Decimal text without superfluous leading zeros. */
  predicate Canonical(s: string) {
    && s != []
    && (forall i :: 0 <= i < |s| ==> IsDigit(s[i]))
    && (|s| == 1 || s[0] != '0')
  }

  lemma {:induction false} DigitsSnoc(s: string, c: char, acc: nat)
    requires IsDigit(c) && forall i :: 0 <= i < |s| ==> IsDigit(s[i])
    ensures Digits(s + [c], acc) == 10 * Digits(s, acc) + DigitValue(c)
  {
    if s == [] {
      assert (s + [c])[1..] == [];
    } else {
      assert (s + [c])[1..] == s[1..] + [c];
      DigitsSnoc(s[1..], c, 10 * acc + DigitValue(s[0]));
    }
  }

  lemma {:induction false} DigitsGrow(s: string, acc: nat)
    ensures Digits(s, acc) >= acc
  {
    if s != [] && IsDigit(s[0]) {
      DigitsGrow(s[1..], 10 * acc + DigitValue(s[0]));
    }
  }

  lemma {:induction false} DecOfDigits(s: string)
    requires Canonical(s)
    ensures Dec(Digits(s, 0)) == s
  {
    if |s| == 1 {
      assert s[1..] == [];
      assert Digits(s, 0) == DigitValue(s[0]);
    } else {
      var front, c := s[..|s| - 1], s[|s| - 1];
      assert s == front + [c];
      DigitsSnoc(front, c, 0);
      DecOfDigits(front);
      DigitsGrow(front[1..], DigitValue(front[0]));
      assert Digits(s, 0) / 10 == Digits(front, 0) && Digits(s, 0) % 10 == DigitValue(c);
    }
  }

  /** Printing undoes parsing on exactly the canonical texts. */
  lemma PrintOfParse(s: string)
    ensures Canonical(s) <==> Dec(Digits(s, 0)) == s
  {
    if Canonical(s) {
      DecOfDigits(s);
    } else if Dec(Digits(s, 0)) == s {
      DecIsCanonical(Digits(s, 0));
    }
  }

  lemma {:induction false} DecIsCanonical(n: nat)
    ensures Canonical(Dec(n))
    ensures n > 0 ==> Dec(n)[0] != '0'
  {
    if n >= 10 {
      DecIsCanonical(n / 10);
    }
  }

  lemma {:induction false} DecLength(n: nat, k: nat)
    requires k >= 1 && n < Power10(k)
    ensures |Dec(n)| <= k
  {
    if n >= 10 {
      DecLength(n / 10, k - 1);
    }
  }

  function Power10(k: nat): nat {
    if k == 0 then 1 else 10 * Power10(k - 1)
  }

  // ----- Main results -----

  lemma RequestFits(s: Word, tail: string)
    ensures exists rest :: rest <= tail && Received(Request(s) + tail) == Request(s) + rest
  {
    assert Power10(5) == 100000;
    assert Power10(10) == 100000 * Power10(5);
    DecLength(s, 10);
    var rest := tail[..Min(BUF_SIZE - |Request(s)|, |tail|)];
    assert Received(Request(s) + tail) == Request(s) + rest;
  }

  lemma RequestAnswers(s: Word, t: Word, rest: string)
    requires s < 0x8000_0000 && EndsNumber(rest)
    ensures Answers(t, Request(s) + rest) <==> s == t
  {
    var message := Request(s) + rest;
    assert message[|HEADER|..] == Dec(s) + rest && message[..|HEADER|] == HEADER;
    ParseOfPrint(s, rest);
  }

  /** The listener of service `t` answers the request printed for `s` exactly when s == t, with nothing, a NUL or any
      other non-digit text behind it, and however much of that the buffer cuts off. */
  lemma RequestFindsItsService(s: Word, t: Word, tail: string)
    requires s < 0x8000_0000 && EndsNumber(tail)
    ensures Answers(t, Received(Request(s) + tail)) <==> s == t
  {
    RequestFits(s, tail);
    var rest :| rest <= tail && Received(Request(s) + tail) == Request(s) + rest;
    RequestAnswers(s, t, rest);
  }

  /** A message counts from 10 characters on; its first nine decide whether it is a request, and the number behind them
      whose. */
  lemma AnsweredIff(t: Word, message: string)
    ensures Answers(t, message) <==>
            |message| >= 10 && message[..9] == "WHERE_IS_" && Atoi(message[9..]) % 0x1_0000_0000 == t
    ensures Unknown(message) <==> |message| >= 10 && message[..9] != "WHERE_IS_"
    ensures Request(t) == "WHERE_IS_" + Dec(t)
    ensures Received(message) == if |message| <= 50 then message else message[..50]
  {
  }

  /** Conversely, an answered message whose number is canonical and fits an int is the request of that service. */
  lemma AnsweredIsRequest(t: Word, number: string)
    requires Canonical(number) && Digits(number, 0) < 0x8000_0000
    requires Answers(t, HEADER + number)
    ensures HEADER + number == Request(t)
  {
    assert (HEADER + number)[|HEADER|..] == number;
    DecOfDigits(number);
  }

  /** One call reads past unknown messages up to the first other packet, and answers that one or nobody. */
  lemma {:induction false} TurnReadsPast(serviceNo: Word, incoming: seq<Packet>, k: nat)
    requires k < |incoming|
    requires forall j :: 0 <= j < k ==> incoming[j].Packet? && Unknown(Received(incoming[j].text))
    requires incoming[k].Packet? ==> !Unknown(Received(incoming[k].text))
    ensures Turn(serviceNo, incoming) ==
            (incoming[k + 1..],
             if incoming[k].Packet? && Answers(serviceNo, Received(incoming[k].text)) then [incoming[k].sender] else [])
  {
    if k > 0 {
      TurnReadsPast(serviceNo, incoming[1..], k - 1);
      assert incoming[1..][k..] == incoming[k + 1..];
    }
  }

  /** The senders to be answered, in order of arrival. */
  function Wanted(serviceNo: Word, incoming: seq<Packet>): seq<nat> {
    if incoming == [] then []
    else (if incoming[0].Packet? && Answers(serviceNo, Received(incoming[0].text)) then [incoming[0].sender] else [])
         + Wanted(serviceNo, incoming[1..])
  }

  /** Calls until the socket is drained. */
  function AllTurns(serviceNo: Word, incoming: seq<Packet>): seq<nat>
    decreases |incoming|
  {
    if incoming == [] then []
    else Turn(serviceNo, incoming).1 + AllTurns(serviceNo, Turn(serviceNo, incoming).0)
  }

  lemma {:induction false} TurnKeepsWanted(serviceNo: Word, incoming: seq<Packet>)
    ensures Wanted(serviceNo, incoming)
         == Turn(serviceNo, incoming).1 + Wanted(serviceNo, Turn(serviceNo, incoming).0)
  {
    if incoming != [] {
      TurnKeepsWanted(serviceNo, incoming[1..]);
    }
  }

  /** Whatever junk arrives between, every request for the service is answered once, in order, and nothing else is. */
  lemma {:induction false} EveryRequestAnsweredOnce(serviceNo: Word, incoming: seq<Packet>)
    ensures AllTurns(serviceNo, incoming) == Wanted(serviceNo, incoming)
    decreases |incoming|
  {
    if incoming != [] {
      TurnKeepsWanted(serviceNo, incoming);
      EveryRequestAnsweredOnce(serviceNo, Turn(serviceNo, incoming).0);
    }
  }
}
