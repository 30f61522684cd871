// The options of a DHCP message: their codes, the record the program keeps of them, and the
// bytes of a list of options.
module OptionFormat {
  import opened Bytes

  const SUB_MSK_OP: byte := 1
  const RTR_ID_OP: byte := 3
  const DNS_OP: byte := 6
  const HST_NAME_OP: byte := 12
  const RQT_ID_OP: byte := 50
  const IP_LEASE_TIME_OP: byte := 51
  const MSG_OP: byte := 53
  const SRV_ID_OP: byte := 54
  const RNW_TIME_OP: byte := 58
  const RBN_TIME_OP: byte := 59
  const CLT_ID_OP: byte := 61
  const END_OP: byte := 255

  const COOKIE: seq<byte> := [99, 130, 83, 99]
  const MAX_HOST_NAME := 312
  const ETHER_ADDR_L := 6

  type mac = s: seq<byte> | |s| == ETHER_ADDR_L witness [0, 0, 0, 0, 0, 0]
  type nameBuffer = s: seq<byte> | |s| == MAX_HOST_NAME witness Zeros(MAX_HOST_NAME)

  const NO_MAC: mac := [0, 0, 0, 0, 0, 0]

  datatype MsgType =
    DISCOVER | OFFER | REQUEST | DECLINE | ACK | NAK | RELEASE | INFORM | INVALID

  /** The value of the dhcp_opt struct. */
  datatype Fields = Fields(
    cookieOk: bool,
    msg: MsgType,
    name: nameBuffer,
    cltId: mac,
    subMsk: word,
    rnwTime: word,
    rbnTime: word,
    leaseTime: word,
    srvId: word,
    rtrId: word,
    rqtId: word,
    dnsId: word)

  /** Message type of a value byte, as the reader understands it. */
  function MsgOf(value: byte): MsgType {
    match value
    case 1 => DISCOVER
    case 2 => OFFER
    case 3 => REQUEST
    case 4 => DECLINE
    case 5 => ACK
    case 6 => NAK
    case 7 => RELEASE
    case 8 => INFORM
    case _ => INVALID
  }

  /** Value byte of a message type, as the writer sends it; 0 stands for none. */
  function CodeOf(msg: MsgType): (value: byte)
    ensures MsgOf(value) == msg
    ensures value == 0 <==> msg == INVALID
  {
    match msg
    case DISCOVER => 1
    case OFFER => 2
    case REQUEST => 3
    case DECLINE => 4
    case ACK => 5
    case NAK => 6
    case RELEASE => 7
    case INFORM => 8
    case INVALID => 0
  }

  // ------------------------------------------------- lists of options

  datatype Tok = Pad(b: byte) | Tlv(code: byte, payload: seq<byte>)

  /** An option on the wire; a length that does not fit its byte is cut. */
  function Enc(t: Tok): (e: seq<byte>)
    ensures |e| >= 1
  {
    match t
    case Pad(b) => [b]
    case Tlv(code, payload) => [code, |payload| % 256] + payload
  }

  function EncAll(toks: seq<Tok>): seq<byte> {
    if toks == [] then [] else Enc(toks[0]) + EncAll(toks[1..])
  }

  lemma EncAllNil()
    ensures EncAll([]) == []
  {
  }

  lemma EncAllCons(toks: seq<Tok>)
    requires toks != []
    ensures EncAll(toks) == Enc(toks[0]) + EncAll(toks[1..])
  {
  }

  lemma {:induction false} EncAllAppend(a: seq<Tok>, b: seq<Tok>)
    ensures EncAll(a + b) == EncAll(a) + EncAll(b)
  {
    hide *;
    if a == [] {
      assert a + b == b;
      EncAllNil();
    } else {
      EncAllAppend(a[1..], b);
      assert (a + b)[1..] == a[1..] + b && (a + b)[0] == a[0];
      EncAllCons(a);
      EncAllCons(a + b);
    }
  }

  /** The codes the reader acts on or steps over as options. */
  predicate Known(b: byte) {
    || b == SUB_MSK_OP || b == RTR_ID_OP || b == DNS_OP || b == HST_NAME_OP
    || b == RQT_ID_OP || b == IP_LEASE_TIME_OP || b == MSG_OP || b == SRV_ID_OP
    || b == RNW_TIME_OP || b == RBN_TIME_OP || b == CLT_ID_OP
  }

  /** The codes after which the reader moves on by the length byte. */
  predicate LengthDriven(code: byte) {
    || code == HST_NAME_OP || code == CLT_ID_OP || code == RNW_TIME_OP || code == RTR_ID_OP || code == DNS_OP
  }

  /** The codes whose first four payload bytes the reader copies. */
  predicate CopiesWord(code: byte) {
    || code == SUB_MSK_OP || code == RNW_TIME_OP || code == SRV_ID_OP
    || code == RTR_ID_OP || code == RQT_ID_OP || code == DNS_OP
  }

  /** Payload lengths: fixed by RFC 2132 for the options the reader steps over by a constant;
      for the others enough for what the reader copies, and little enough for its 8-bit step. */
  predicate LengthOk(code: byte, n: nat) {
    if code == MSG_OP then n == 1
    else if code == HST_NAME_OP then n <= 253
    else if code == CLT_ID_OP then ETHER_ADDR_L <= n <= 253
    else if LengthDriven(code) then 4 <= n <= 253
    else n == 4
  }

  /** An option in a well-formed stream. */
  predicate WellFormed(t: Tok) {
    match t
    case Pad(b) => !Known(b) && b != END_OP
    case Tlv(code, payload) => Known(code) && LengthOk(code, |payload|)
  }

  /** In numbers: which codes the reader knows, and which payloads it gets past. */
  lemma WellFormedExactly(t: Tok)
    ensures WellFormed(t) <==>
              match t
              case Pad(b) => b !in {1, 3, 6, 12, 50, 51, 53, 54, 58, 59, 61, 255}
              case Tlv(code, payload) =>
                || (code == 53 && |payload| == 1)
                || (code == 12 && |payload| <= 253)
                || (code == 61 && 6 <= |payload| <= 253)
                || (code in {3, 6, 58} && 4 <= |payload| <= 253)
                || (code in {1, 50, 51, 54, 59} && |payload| == 4)
  {
  }

  predicate AllWellFormed(toks: seq<Tok>) {
    forall i :: 0 <= i < |toks| ==> WellFormed(toks[i])
  }

  /** Where the options of a list and the end after them start, the first one at offset at. */
  function Boundaries(toks: seq<Tok>, at: nat): seq<nat> {
    [at] + if toks == [] then [] else Boundaries(toks[1..], at + |Enc(toks[0])|)
  }

  // ------------------------------------------------- options as RFC 2132 delimits them

  /** The options up to the END, each skipped by its length whether its code is known or not; pads have
      no length. */
  function ByLength(s: seq<byte>): seq<Tok> {
    if s == [] || s[0] == 255 then []
    else if s[0] == 0 then [Pad(0)] + ByLength(s[1..])
    else if |s| < 2 || |s| < 2 + (s[1] as int) then []
    else [Tlv(s[0], s[2..2 + (s[1] as int)])] + ByLength(s[2 + (s[1] as int)..])
  }

  /** An option that such a reader recognises. */
  predicate Delimited(t: Tok) {
    t.Tlv? && t.code != 0 && t.code != 255 && |t.payload| < 256
  }

  lemma ByLengthStep(t: Tok, rest: seq<byte>)
    requires Delimited(t)
    ensures ByLength(Enc(t) + rest) == [t] + ByLength(rest)
  {
    var s := Enc(t) + rest;
    assert s[0] == t.code && s[1] == |t.payload|;
    assert s[2..2 + |t.payload|] == t.payload && s[2 + |t.payload|..] == rest;
  }

  lemma ByLengthEnd(tail: seq<byte>)
    ensures ByLength([255] + tail) == []
  {
  }

  /** It reads back the options that were put there. */
  lemma {:induction false} ByLengthReads(toks: seq<Tok>, tail: seq<byte>)
    requires forall t :: t in toks ==> Delimited(t)
    ensures ByLength(EncAll(toks) + [255] + tail) == toks
    decreases |toks|
  {
    hide *;
    if toks == [] {
      EncAllNil();
      assert [] + [255] + tail == [255] + tail;
      ByLengthEnd(tail);
    } else {
      EncAllCons(toks);
      assert EncAll(toks) + [255] + tail == Enc(toks[0]) + (EncAll(toks[1..]) + [255] + tail);
      ByLengthStep(toks[0], EncAll(toks[1..]) + [255] + tail);
      ByLengthReads(toks[1..], tail);
      assert toks == [toks[0]] + toks[1..];
    }
  }

  // ------------------------------------------------- what a list of options means

  /** The payload of an option whose code is in the set. */
  function Own(t: Tok, codes: set<byte>): Option<seq<byte>> {
    if t.Tlv? && t.code in codes then Some(t.payload) else None
  }

  /** The payload of the last option of a list whose code is in the set. */
  function Last(toks: seq<Tok>, codes: set<byte>): Option<seq<byte>> {
    if toks == [] then None
    else
      var later := Last(toks[1..], codes);
      if later.Some? then later else Own(toks[0], codes)
  }

  lemma LastSingle(t: Tok, codes: set<byte>)
    ensures Last([], codes) == None && Last([t], codes) == Own(t, codes)
  {
    assert [t][1..] == [];
  }

  lemma {:induction false} LastAppend(a: seq<Tok>, b: seq<Tok>, codes: set<byte>)
    ensures Last(a + b, codes) == if Last(b, codes).Some? then Last(b, codes) else Last(a, codes)
  {
    if a == [] {
      assert a + b == b;
    } else {
      LastAppend(a[1..], b, codes);
      assert (a + b)[1..] == a[1..] + b;
    }
  }

  /** The last payload is that of some option of the list. */
  lemma {:induction false} LastIsOneOf(toks: seq<Tok>, codes: set<byte>) returns (i: nat)
    requires Last(toks, codes).Some?
    ensures i < |toks| && Own(toks[i], codes) == Last(toks, codes)
  {
    i := 0;
    if Last(toks[1..], codes).Some? {
      i := LastIsOneOf(toks[1..], codes);
      i := i + 1;
    }
  }

  /** The first n bytes of a payload, if there is one, in place of the old ones. */
  function Pick(p: Option<seq<byte>>, n: nat, before: seq<byte>): seq<byte> {
    match p
    case Some(v) => if n <= |v| then v[..n] else v
    case None => before
  }
}
