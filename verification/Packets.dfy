// What a packet asks of the server, and the bytes of the server's answer.
module Packets {
  import opened Bytes
  import opened Addresses
  import opened Header
  import opened OptionFormat
  import opened OptionReader
  import opened OptionWriter
  import RT = OptionRoundTrip
  import L = Leases

  /** A received packet in its zeroed buffer. */
  function Received(packet: seq<byte>): image
    requires |packet| <= HDR_L
  {
    Splice(Zeros(HDR_L), 0, packet)
  }

  /** The packet fits the buffer and its options end inside it. */
  predicate Acceptable(packet: seq<byte>) {
    |packet| <= HDR_L && Readable(Received(packet)[OPT + 4..])
  }

  /** The fields the reader makes of a packet. */
  function FieldsIn(packet: seq<byte>): Fields
    requires Acceptable(packet)
  {
    var p := Received(packet);
    Read(Cleared(NO_FIELDS, p[OPT..OPT + 4] == COOKIE), p[OPT + 4..])
  }

  const NO_FIELDS := Fields(true, DISCOVER, Zeros(MAX_HOST_NAME), NO_MAC, ZERO, ZERO, ZERO, ZERO,
                            ZERO, ZERO, ZERO, ZERO)

  /** The message a packet is for the server: only its type and its transaction id matter. */
  function MsgIn(packet: seq<byte>): L.Msg
    requires Acceptable(packet)
  {
    var id := Swap(Received(packet)[4..8]);
    match FieldsIn(packet).msg
    case DISCOVER => L.Discover(id)
    case REQUEST => L.Request(id)
    case _ => L.Other
  }

  /** The packet's options, from byte 240 of its zeroed buffer on, are a well-formed list, an END, and
      whatever follows it. */
  predicate Lists(packet: seq<byte>, toks: seq<Tok>, tail: seq<byte>) {
    && |packet| <= 548
    && AllWellFormed(toks)
    && (packet + Zeros(548 - |packet|))[240..] == EncAll(toks) + [255] + tail
  }

  lemma ReceivedIs(packet: seq<byte>)
    requires |packet| <= 548
    ensures Received(packet) == packet + Zeros(548 - |packet|)
  {
  }

  /** A packet is acceptable exactly when it fits the buffer and the reader's loop ends in it. */
  lemma AcceptableExactly(packet: seq<byte>, start: Loop)
    requires |packet| <= 548 ==> start == At((packet + Zeros(548 - |packet|))[240..])
    ensures Acceptable(packet) <==> |packet| <= 548 && exists n: nat :: LoopSteps(start, n) == Done
  {
    hide Readable, LoopSteps, Received;
    if |packet| <= 548 {
      ReceivedIs(packet);
      LoopEndsExactly(start.ahead);
    }
  }

  /** A packet whose options are a well-formed list is acceptable. What it asks is what the value of
      the last option 53 says: 1 a DISCOVER, 3 a REQUEST, anything else nothing; for the id in bytes
      4 to 7. */
  lemma WellFormedPacket(packet: seq<byte>, toks: seq<Tok>, tail: seq<byte>)
    requires Lists(packet, toks, tail)
    ensures Acceptable(packet)
    ensures var p := packet + Zeros(548 - |packet|);
            var id := [p[7], p[6], p[5], p[4]];
            MsgIn(packet) == if Last(toks, {53}) == Some([1]) then L.Discover(id)
                             else if Last(toks, {53}) == Some([3]) then L.Request(id)
                             else L.Other
    ensures FieldsIn(packet).msg == DISCOVER <==> Last(toks, {53}) == Some([1])
    ensures FieldsIn(packet).msg == REQUEST <==> Last(toks, {53}) == Some([3])
  {
    hide Read, Readable, EncAll, AllWellFormed, Received, Last;
    ReceivedIs(packet);
    var p := Received(packet);
    MessageTypes(Cleared(NO_FIELDS, p[OPT..OPT + 4] == COOKIE), toks, tail);
    if Last(toks, {53}).Some? {
      var v := Last(toks, {53}).value;
      assert v == [v[0]];
    }
  }

  /** The uint32_t 10000. */
  const TEN_THOUSAND: word := [0x10, 0x27, 0, 0]

  const SERVER_NAME: seq<byte> :=
    ['N' as int, 'O' as int, 'T' as int, '-' as int, 'A' as int, '-' as int,
     'R' as int, 'O' as int, 'U' as int, 'T' as int, 'E' as int, 'R' as int]

  /** The options of an answer. */
  function ReplyFields(cfg: Config, msg: MsgType): Fields {
    Fields(true, msg, Zeros(MAX_HOST_NAME), NO_MAC, cfg.subAddr, TEN_THOUSAND, TEN_THOUSAND, TEN_THOUSAND,
           cfg.myIp, cfg.myIp, ZERO, cfg.dnsAddr)
  }

  /** The options of an answer as they stand in the packet; a word that is 0 is not sent. */
  function ReplyTokens(cfg: Config, kind: byte): seq<Tok> {
    [Tlv(53, [kind])]
    + Optional(cfg.subAddr != ZERO, 1, cfg.subAddr)
    + Optional(cfg.myIp != ZERO, 3, cfg.myIp)
    + [Tlv(58, [0x10, 0x27, 0, 0]), Tlv(59, [0x10, 0x27, 0, 0]), Tlv(51, [0x10, 0x27, 0, 0])]
    + Optional(cfg.myIp != ZERO, 54, cfg.myIp)
    + Optional(cfg.dnsAddr != ZERO, 6, cfg.dnsAddr)
  }

  /** The value byte of an answer's message type. */
  function KindOf(msg: MsgType): byte {
    if msg == OFFER then 2 else 5
  }

  lemma TenFlat(s: seq<seq<Tok>>)
    requires |s| == 10 && s[1] == s[2] == []
    ensures Flatten(s) == s[0] + s[3] + s[4] + (s[5] + s[6] + s[7]) + s[8] + s[9]
  {
    hide Flatten;
    assert s[..0] == [] && s[..10] == s;
    FlatNext(s, 0);
    FlatNext(s, 1);
    FlatNext(s, 2);
    assert Flatten(s[..3]) == s[0];
    FlatNext(s, 3);
    FlatNext(s, 4);
    FlatThree(s, 5);
    FlatNext(s, 8);
    FlatNext(s, 9);
  }

  lemma FlatThree(s: seq<seq<Tok>>, i: nat)
    requires i + 3 <= |s|
    ensures Flatten(s[..i + 3]) == Flatten(s[..i]) + (s[i] + s[i + 1] + s[i + 2])
  {
    hide Flatten;
    FlatNext(s, i);
    FlatNext(s, i + 1);
    FlatNext(s, i + 2);
  }

  lemma FlatNext(s: seq<seq<Tok>>, i: nat)
    requires i < |s|
    ensures Flatten([]) == []
    ensures Flatten(s[..i + 1]) == Flatten(s[..i]) + s[i]
  {
    assert s[..i + 1][..i] == s[..i];
  }

  /** They are what the writer makes of the answer's record. */
  lemma ReplyTokensWritten(cfg: Config, msg: MsgType)
    requires msg in {OFFER, ACK}
    ensures Tokens(ReplyFields(cfg, msg)) == ReplyTokens(cfg, KindOf(msg))
  {
    var f := ReplyFields(cfg, msg);
    ReplySlots(cfg, msg);
    hide Flatten, Slots, Optional, ReplyFields;
    TokensAre(f);
    TenFlat(Slots(f));
  }

  lemma ReplySlots(cfg: Config, msg: MsgType)
    requires msg in {OFFER, ACK}
    ensures var s := Slots(ReplyFields(cfg, msg));
            && |s| == 10 && s[0] == [Tlv(53, [KindOf(msg)])] && s[1] == s[2] == []
            && s[3] == Optional(cfg.subAddr != ZERO, 1, cfg.subAddr)
            && s[4] == Optional(cfg.myIp != ZERO, 3, cfg.myIp)
            && s[5] + s[6] + s[7]
               == [Tlv(58, [0x10, 0x27, 0, 0]), Tlv(59, [0x10, 0x27, 0, 0]), Tlv(51, [0x10, 0x27, 0, 0])]
            && s[8] == Optional(cfg.myIp != ZERO, 54, cfg.myIp)
            && s[9] == Optional(cfg.dnsAddr != ZERO, 6, cfg.dnsAddr)
  {
    hide CStr, StrLen;
    ZerosAreEmpty(MAX_HOST_NAME);
  }

  /** What an answer says for a code; the times as the server's memory holds them. */
  function Meant(cfg: Config, kind: byte, code: byte): Option<seq<byte>> {
    match code
    case 53 => Some([kind])
    case 1 => IfSet(cfg.subAddr)
    case 3 | 54 => IfSet(cfg.myIp)
    case 6 => IfSet(cfg.dnsAddr)
    case 51 | 58 | 59 => Some([0x10, 0x27, 0, 0])
    case _ => None
  }

  /** What a client that goes by length finds in an answer's options for each code. */
  lemma ReplyMeans(cfg: Config, kind: byte, tail: seq<byte>, code: byte)
    requires kind in {2, 5}
    ensures var found := ByLength(EncAll(ReplyTokens(cfg, kind)) + [255] + tail);
            found == ReplyTokens(cfg, kind) && Last(found, {code}) == Meant(cfg, kind, code)
  {
    hide Last, EncAll, ByLength, Tokens, ReplyTokens, StrLen, CStr, InOrder;
    var msg := if kind == 2 then OFFER else ACK;
    var f := ReplyFields(cfg, msg);
    ZerosAreEmpty(MAX_HOST_NAME);
    ReplyTokensWritten(cfg, msg);
    FieldsOnTheWire(f, tail, code);
    WrittenByLength(f, tail);
  }

  /** The first 236 bytes of an answer with the given transaction id and flags. */
  function ReplyHead(cfg: Config, id: word, flags: seq<byte>, cltIp: word, ownIp: word,
                     chaddr: seq<byte>, bootFile: seq<byte>): seq<byte>
  {
    [2, 1, 6, 0] + id + [0, 0] + flags + cltIp + ownIp + cfg.myIp + cfg.myIp
    + chaddr + (SERVER_NAME + Zeros(52)) + bootFile
  }

  /** The 548 bytes of an answer to a packet. */
  function ReplyBytes(cfg: Config, packet: seq<byte>, msg: MsgType, ownIp: word): seq<byte>
    requires |packet| <= HDR_L && msg in {OFFER, ACK}
  {
    var p := Received(packet);
    var head := ReplyHead(cfg, p[4..8], p[10..12], if msg == ACK then p[12..16] else ZERO, ownIp,
                          p[28..44], p[108..OPT]);
    head + Encode(ReplyFields(cfg, msg)) + seq(OPT_MAX_L - ReplyOptionLength(cfg, msg), _ => 0)
  }

  /** The answer to a packet, for what the lease machine replies. */
  function ReplyPacket(cfg: Config, packet: seq<byte>, r: L.Reply): Option<seq<byte>>
    requires |packet| <= HDR_L
  {
    match r
    case Silent => None
    case Offer(addr) => Some(ReplyBytes(cfg, packet, OFFER, addr))
    case Ack(addr) => Some(ReplyBytes(cfg, packet, ACK, addr))
  }

  lemma ZerosAreEmpty(n: nat)
    ensures StrLen(Zeros(n)) == 0 && CStr(Zeros(n)) == []
  {
  }

  function ReplyOptionLength(cfg: Config, msg: MsgType): (n: nat)
    ensures n == |Encode(ReplyFields(cfg, msg))| <= OPT_MAX_L
  {
    WriterLayout(ReplyFields(cfg, msg));
    ZerosAreEmpty(MAX_HOST_NAME);
    |Encode(ReplyFields(cfg, msg))|
  }

  /** Byte by byte: where an answer agrees with the packet, and what else it carries. */
  lemma ReplyLayout(cfg: Config, packet: seq<byte>, msg: MsgType, ownIp: word)
    requires |packet| <= HDR_L && msg in {OFFER, ACK}
    ensures var r, p := ReplyBytes(cfg, packet, msg, ownIp), Received(packet);
            && |r| == HDR_L
            && r[..4] == [2, 1, 6, 0]
            && r[4..8] == p[4..8] && r[8..10] == [0, 0] && r[10..12] == p[10..12]
            && r[12..16] == (if msg == ACK then p[12..16] else ZERO)
            && r[16..20] == ownIp && r[20..24] == r[24..28] == cfg.myIp
            && r[28..44] == p[28..44] && r[44..56] == SERVER_NAME && r[56..108] == Zeros(52)
            && r[108..OPT] == p[108..OPT]
  {
    hide Encode, ReplyFields, Received;
    var p := Received(packet);
    var r := ReplyBytes(cfg, packet, msg, ownIp);
    var n := ReplyOptionLength(cfg, msg);
    var cltIp: word := if msg == ACK then p[12..16] else ZERO;
    HeadLayout(cfg, p[4..8], p[10..12], cltIp, ownIp, p[28..44], p[108..OPT]);
    var head := ReplyHead(cfg, p[4..8], p[10..12], cltIp, ownIp, p[28..44], p[108..OPT]);
    hide ReplyHead;
    assert r[..OPT] == head;
    forall lo: nat, hi: nat | lo <= hi <= OPT
      ensures r[lo..hi] == head[lo..hi]
    {
      assert r[lo..hi] == r[..OPT][lo..hi];
    }
  }

  lemma HeadLayout(cfg: Config, id: word, flags: seq<byte>, cltIp: word, ownIp: word,
                   chaddr: seq<byte>, bootFile: seq<byte>)
    requires |flags| == 2 && |chaddr| == 16 && |bootFile| == 128
    ensures var h := ReplyHead(cfg, id, flags, cltIp, ownIp, chaddr, bootFile);
            && |h| == OPT
            && h[..4] == [2, 1, 6, 0] && h[4..8] == id && h[8..10] == [0, 0] && h[10..12] == flags
            && h[12..16] == cltIp && h[16..20] == ownIp && h[20..24] == h[24..28] == cfg.myIp
            && h[28..44] == chaddr && h[44..56] == SERVER_NAME && h[56..108] == Zeros(52)
            && h[108..] == bootFile
  {
    var h := ReplyHead(cfg, id, flags, cltIp, ownIp, chaddr, bootFile);
    var front: seq<byte> := [2, 1, 6, 0] + id + [0, 0] + flags + cltIp + ownIp + cfg.myIp + cfg.myIp + chaddr;
    var name := SERVER_NAME + Zeros(52);
    assert |front| == 44 && |name| == 64;
    assert h == front + name + bootFile;
    assert h[44..108] == name && h[108..] == bootFile;
    assert h[44..56] == h[44..108][..12] && h[56..108] == h[44..108][12..];
    assert name[..12] == SERVER_NAME && name[12..] == Zeros(52);
    FrontLayout(cfg, id, flags, cltIp, ownIp, chaddr);
    forall lo: nat, hi: nat | lo <= hi <= 44
      ensures h[lo..hi] == front[lo..hi]
    {
    }
  }

  lemma FrontLayout(cfg: Config, id: word, flags: seq<byte>, cltIp: word, ownIp: word, chaddr: seq<byte>)
    requires |flags| == 2 && |chaddr| == 16
    ensures var h := [2, 1, 6, 0] + id + [0, 0] + flags + cltIp + ownIp + cfg.myIp + cfg.myIp + chaddr;
            && |h| == 44
            && h[..4] == [2, 1, 6, 0] && h[4..8] == id && h[8..10] == [0, 0] && h[10..12] == flags
            && h[12..16] == cltIp && h[16..20] == ownIp && h[20..24] == h[24..28] == cfg.myIp
            && h[28..44] == chaddr
  {
  }

  /** An answer's options read back, in any struct, as the message type it was sent with, the
      server's mask, id and DNS server; the router comes back as the renew time. */
  lemma ReplyOptions(cfg: Config, packet: seq<byte>, msg: MsgType, ownIp: word, g: Fields)
    requires |packet| <= HDR_L && msg in {OFFER, ACK}
    ensures var r := ReplyBytes(cfg, packet, msg, ownIp);
            && |r| == HDR_L
            && r[OPT..OPT + 4] == COOKIE
            && Readable(r[OPT + 4..])
            && Read(Cleared(g, true), r[OPT + 4..])
               == Fields(true, msg, Zeros(MAX_HOST_NAME), NO_MAC, cfg.subAddr, ZERO, ZERO, g.leaseTime,
                         cfg.myIp, TEN_THOUSAND, ZERO, cfg.dnsAddr)
  {
    hide Readable, Read, ReplyBytes, StrLen, CStr, RT.Padded, RT.Written;
    var f := ReplyFields(cfg, msg);
    ReplyOptionBytes(cfg, packet, msg, ownIp);
    ZerosAreEmpty(MAX_HOST_NAME);
    RT.RoundTrip(f, g, seq(OPT_MAX_L - ReplyOptionLength(cfg, msg), _ => 0));
    PaddedZeros();
  }

  /** The option array of an answer holds the cookie and the options as the writer writes them. */
  lemma ReplyOptionBytes(cfg: Config, packet: seq<byte>, msg: MsgType, ownIp: word)
    requires |packet| <= HDR_L && msg in {OFFER, ACK}
    ensures var r := ReplyBytes(cfg, packet, msg, ownIp);
            && |r| == HDR_L
            && r[OPT..OPT + 4] == COOKIE
            && r[OPT + 4..] == RT.Written(ReplyFields(cfg, msg), seq(OPT_MAX_L - ReplyOptionLength(cfg, msg), _ => 0))
  {
    hide EncAll, Tokens, Received, ReplyHead, ReplyFields, ReplyOptionLength;
    var f, n := ReplyFields(cfg, msg), ReplyOptionLength(cfg, msg);
    var p := Received(packet);
    var cltIp: word := if msg == ACK then p[12..16] else ZERO;
    HeadLayout(cfg, p[4..8], p[10..12], cltIp, ownIp, p[28..44], p[108..OPT]);
    OptionPart(ReplyHead(cfg, p[4..8], p[10..12], cltIp, ownIp, p[28..44], p[108..OPT]),
               EncAll(Tokens(f)), seq(OPT_MAX_L - n, _ => 0));
  }

  /** The same, spelled out: the answer's options, an END, and zeros to the end of the array. */
  lemma ReplyOptionsExact(cfg: Config, packet: seq<byte>, msg: MsgType, ownIp: word)
    requires |packet| <= HDR_L && msg in {OFFER, ACK}
    ensures var r, e := ReplyBytes(cfg, packet, msg, ownIp), EncAll(ReplyTokens(cfg, KindOf(msg))) + [255];
            && |r| == HDR_L
            && r[OPT..OPT + 4] == COOKIE
            && |e| <= OPT_MAX_L - 4
            && r[OPT + 4..] == e + Zeros(OPT_MAX_L - 4 - |e|)
  {
    hide ReplyBytes, EncAll, Tokens, ReplyFields, ReplyTokens;
    ReplyOptionBytes(cfg, packet, msg, ownIp);
    ReplyTokensWritten(cfg, msg);
  }

  lemma OptionPart(head: seq<byte>, options: seq<byte>, tail: seq<byte>)
    requires |head| == OPT
    ensures var r := head + (COOKIE + options + [END_OP]) + tail;
            r[OPT..OPT + 4] == COOKIE && r[OPT + 4..] == options + [END_OP] + tail
  {
    var r := head + (COOKIE + options + [END_OP]) + tail;
    assert r == head + (COOKIE + (options + [END_OP] + tail));
    assert r[OPT..] == COOKIE + (options + [END_OP] + tail);
    assert r[OPT..OPT + 4] == r[OPT..][..4] && r[OPT + 4..] == r[OPT..][4..];
  }

  lemma PaddedZeros()
    ensures RT.Padded(Zeros(MAX_HOST_NAME)) == Zeros(MAX_HOST_NAME)
  {
    ZerosAreEmpty(MAX_HOST_NAME);
  }
}
