// What the packets that the server sends say, byte by byte, in every run.
module EndToEnd {
  import opened Bytes
  import opened Addresses
  import opened Header
  import opened OptionFormat
  import opened OptionReader
  import opened Packets
  import opened Server
  import opened Leases

  /** A packet that answers another one, in all of its 548 bytes: it keeps the transaction id, the
      flags, the hardware address and the boot file; it carries the given address and the server's
      name; its options are the message type and the server's data, and zeros follow them. The last
      clause is what the program's own reader makes of those options. */
  ghost predicate Answers(cfg: Config, packet: seq<byte>, kind: byte, addr: word, r: seq<byte>)
    requires |packet| <= 548 && kind in {2, 5}
  {
    var p := packet + Zeros(548 - |packet|);
    var e := EncAll(ReplyTokens(cfg, kind)) + [255];
    && |r| == 548
    && r[..4] == [2, 1, 6, 0] && r[4..8] == p[4..8] && r[8..10] == [0, 0] && r[10..12] == p[10..12]
    && r[12..16] == (if kind == 5 then p[12..16] else ZERO)
    && r[16..20] == addr && r[20..24] == r[24..28] == cfg.myIp
    && r[28..44] == p[28..44]
    && r[44..56] == [78, 79, 84, 45, 65, 45, 82, 79, 85, 84, 69, 82] && r[56..108] == Zeros(52)
    && r[108..236] == p[108..236]
    && r[236..240] == [99, 130, 83, 99]
    && |e| <= 308 && r[240..] == e + Zeros(308 - |e|)
    && Acceptable(r)
    && FieldsIn(r) == Fields(true, if kind == 5 then ACK else OFFER, Zeros(MAX_HOST_NAME), NO_MAC, cfg.subAddr,
                             ZERO, ZERO, ZERO, cfg.myIp, TEN_THOUSAND, ZERO, cfg.dnsAddr)
  }

  /** A contiguous mask makes the server's addresses good up to its number of hosts. */
  lemma PlanIsGood(cfg: Config, k: nat)
    requires PrefixMask(cfg.subAddr, k)
    ensures GoodPlan(Plan(cfg), Pow2(k))
  {
    hide CurAddr, Pow2, PrefixMask;
    HostCount(cfg.subAddr, k);
    forall m, n | 0 <= m < Pow2(k) && 0 <= n < Pow2(k) && Plan(cfg)(m) == Plan(cfg)(n)
      ensures m == n
    {
      HostRangeInjective(cfg, k, m, n);
    }
    forall n | 0 < n < Pow2(k)
      ensures Plan(cfg)(n) != ZERO
    {
      HostRangeAddr(cfg, k, n);
    }
  }

  lemma HostCount(mask: word, k: nat)
    requires PrefixMask(mask, k)
    ensures Pow2(k) <= WORD
  {
  }

  lemma ReplyAnswers(cfg: Config, packet: seq<byte>, msg: MsgType, addr: word)
    requires |packet| <= HDR_L && msg in {OFFER, ACK}
    ensures Answers(cfg, packet, KindOf(msg), addr, ReplyBytes(cfg, packet, msg, addr))
  {
    hide ReplyBytes, Readable, Read, ReplyTokens, EncAll, Received;
    ReceivedIs(packet);
    var r := ReplyBytes(cfg, packet, msg, addr);
    ReplyLayout(cfg, packet, msg, addr);
    ReplyOptionsExact(cfg, packet, msg, addr);
    ReplyOptions(cfg, packet, msg, addr, NO_FIELDS);
    ReceivedWhole(r);
  }

  lemma ReceivedWhole(r: seq<byte>)
    requires |r| == HDR_L
    ensures Received(r) == r
  {
  }

  /** What a client that delimits the options of an answer as RFC 2132 has it finds for every code.
      The times are sent as they lie in memory: the client, which reads them in network order, gets
      270991360 seconds for the server's 10000. */
  lemma ClientReads(cfg: Config, packet: seq<byte>, kind: byte, addr: word, r: seq<byte>, code: byte)
    requires |packet| <= 548 && kind in {2, 5} && Answers(cfg, packet, kind, addr, r)
    ensures |r| == 548 && ByLength(r[240..]) == ReplyTokens(cfg, kind)
    ensures Last(ByLength(r[240..]), {code}) == Meant(cfg, kind, code)
    ensures Value([0x10, 0x27, 0, 0]) == 10000 && NetValue([0x10, 0x27, 0, 0]) == 270991360
  {
    hide ReplyTokens, EncAll, ByLength, Readable, Received, FieldsIn, Meant;
    ReplyMeans(cfg, kind, Zeros(308 - |EncAll(ReplyTokens(cfg, kind)) + [255]|), code);
  }

  /** What the server makes of packet i of a list, byte by byte. A DISCOVER packet is answered by an
      OFFER packet with the address of the current cursor. A REQUEST packet is answered by an ACK
      packet with the address drawn at its anchor, or the current one when that is 0. No other packet
      is answered. */
  ghost predicate AnsweredRight(cfg: Config, packets: seq<seq<byte>>, i: nat, reply: Option<seq<byte>>)
    requires forall j :: 0 <= j < |packets| ==> Acceptable(packets[j])
    requires i < |packets|
  {
    var run := Messages(packets);
    && (reply.Some? <==> FieldsIn(packets[i]).msg in {DISCOVER, REQUEST})
    && (FieldsIn(packets[i]).msg == DISCOVER ==>
          Answers(cfg, packets[i], 2, CurAddr(cfg, CursorAt(run, i)), reply.value))
    && (FieldsIn(packets[i]).msg == REQUEST ==>
          && run[i].Request?
          && Answers(cfg, packets[i], 5, CurAddr(cfg, DrawnAt(cfg, run, i)), reply.value))
  }

  /** The cursor whose address answer i carries: the one at a REQUEST's anchor, unless its address
      is 0, or else the current one. */
  function DrawnAt(cfg: Config, run: seq<Msg>, i: nat): nat
    requires i < |run| && run[i].Binds()
  {
    if run[i].Request? && CurAddr(cfg, CursorAt(run, Anchor(run, i))) != ZERO then CursorAt(run, Anchor(run, i))
    else CursorAt(run, i)
  }

  /** Every answer of every run. */
  lemma {:induction false} AnswersOnTheWire(cfg: Config, packets: seq<seq<byte>>, i: nat)
    requires forall j :: 0 <= j < |packets| ==> Acceptable(packets[j])
    requires i < |packets|
    ensures AnsweredRight(cfg, packets, i, Sent(cfg, packets, i))
  {
    hide FieldsIn, Readable, ReplyBytes, Answers, ReplyTo, CurAddr, CursorAt;
    var run := Messages(packets);
    assert run[i] == MsgIn(packets[i]);
    ClosedForm(Plan(cfg), run, i);
    match FieldsIn(packets[i]).msg {
      case DISCOVER =>
        ReplyAnswers(cfg, packets[i], OFFER, CurAddr(cfg, CursorAt(run, i)));
      case REQUEST =>
        ReplyAnswers(cfg, packets[i], ACK, CurAddr(cfg, DrawnAt(cfg, run, i)));
      case _ =>
    }
  }

  /** A packet with a list of options is answered by an OFFER when the last option 53 has the value 1,
      by an ACK when it has the value 3, and not at all otherwise; the type is the first option of the
      answer. */
  predicate TypeAnswered(toks: seq<Tok>, reply: Option<seq<byte>>) {
    if Last(toks, {53}) == Some([1]) then
      reply.Some? && |reply.value| == 548 && reply.value[240..243] == [53, 1, 2]
    else if Last(toks, {53}) == Some([3]) then
      reply.Some? && |reply.value| == 548 && reply.value[240..243] == [53, 1, 5]
    else
      reply.None?
  }

  lemma FirstOption(cfg: Config, kind: byte)
    ensures |EncAll(ReplyTokens(cfg, kind))| >= 3
    ensures EncAll(ReplyTokens(cfg, kind))[..3] == [53, 1, kind]
  {
    var toks := ReplyTokens(cfg, kind);
    assert toks[0] == Tlv(53, [kind]);
    hide ReplyTokens, EncAll;
    EncAllCons(toks);
    assert Enc(toks[0]) == [53, 1, kind];
  }

  lemma {:induction false} TypesOnTheWire(cfg: Config, packets: seq<seq<byte>>, i: nat, toks: seq<Tok>, tail: seq<byte>)
    requires forall j :: 0 <= j < |packets| ==> Acceptable(packets[j])
    requires i < |packets| && Lists(packets[i], toks, tail)
    ensures TypeAnswered(toks, Sent(cfg, packets, i))
  {
    hide FieldsIn, Readable, Lists, Sent, CurAddr, DrawnAt, CursorAt, Messages, ReplyTokens, EncAll, Last;
    WellFormedPacket(packets[i], toks, tail);
    AnswersOnTheWire(cfg, packets, i);
    FirstOption(cfg, 2);
    FirstOption(cfg, 5);
    if Sent(cfg, packets, i).Some? && |Sent(cfg, packets, i).value| == 548 {
      var r := Sent(cfg, packets, i).value;
      assert r[240..243] == r[240..][..3];
    }
  }

  /** The server from its start on, over a list of packets. */
  method InitDhcpServer(cfg: Config, packets: seq<seq<byte>>) returns (replies: seq<Option<seq<byte>>>)
    requires forall i :: 0 <= i < |packets| ==> Acceptable(packets[i])
    ensures |replies| == |packets|
    ensures forall i :: 0 <= i < |packets| ==> AnsweredRight(cfg, packets, i, replies[i])
    ensures forall i, toks, tail :: 0 <= i < |packets| && Lists(packets[i], toks, tail) ==>
              TypeAnswered(toks, replies[i])
  {
    hide Acceptable, AnsweredRight, Sent, Messages, Lists, TypeAnswered;
    var server := new DhcpServer(cfg);
    replies := server.Serve(packets);
    forall i | 0 <= i < |packets|
      ensures AnsweredRight(cfg, packets, i, replies[i])
    {
      AnswersOnTheWire(cfg, packets, i);
    }
    forall i, toks, tail | 0 <= i < |packets| && Lists(packets[i], toks, tail)
      ensures TypeAnswered(toks, replies[i])
    {
      TypesOnTheWire(cfg, packets, i, toks, tail);
    }
  }

  /** The address that an answer gives out. */
  function AddressIn(r: seq<byte>): word
    requires |r| == HDR_L
  {
    r[16..20]
  }

  /** Under a contiguous mask the address of an answer lies in the subnet exactly when the cursor it
      was drawn at is in the host range, in every run, however far the cursor moved. */
  lemma {:induction false} InSubnetOnTheWire(cfg: Config, k: nat, packets: seq<seq<byte>>, i: nat)
    requires forall j :: 0 <= j < |packets| ==> Acceptable(packets[j])
    requires PrefixMask(cfg.subAddr, k)
    requires i < |packets| && FieldsIn(packets[i]).msg in {DISCOVER, REQUEST}
    ensures Messages(packets)[i].Binds() && Sent(cfg, packets, i).Some?
    ensures |Sent(cfg, packets, i).value| == HDR_L
    ensures And32(AddressIn(Sent(cfg, packets, i).value), cfg.subAddr) == And32(cfg.myIp, cfg.subAddr)
            <==> DrawnAt(cfg, Messages(packets), i) < Pow2(k)
  {
    hide FieldsIn, Readable, Received, Sent, CurAddr, CursorAt, Pow2, PrefixMask, And32, Network,
      ReplyTokens, EncAll;
    var run := Messages(packets);
    assert run[i] == MsgIn(packets[i]);
    AnswersOnTheWire(cfg, packets, i);
    var n := DrawnAt(cfg, run, i);
    CursorIsWord(run, i);
    if run[i].Request? {
      CursorIsWord(run, Anchor(run, i));
    }
    InSubnetExactly(cfg, k, n);
  }

  lemma CursorIsWord(run: seq<Msg>, i: nat)
    requires i <= |run|
    ensures CursorAt(run, i) < WORD
  {
  }

  /** The host number that the REQUEST at packet i is acked: 40 plus the REQUEST packets before its anchor. */
  function HostOf(packets: seq<seq<byte>>, i: nat): nat
    requires forall j :: 0 <= j < |packets| ==> Acceptable(packets[j])
    requires i < |packets| && Messages(packets)[i].Request?
  {
    var run := Messages(packets);
    40 + Requests(run[..Anchor(run, i)])
  }

  /** In every run inside the host range a REQUEST packet is answered by an ACK packet whose
      address is the server's own with 40 plus the number of REQUEST packets before its anchor in place
      of the host bits. */
  lemma {:induction false} AckOnTheWire(cfg: Config, k: nat, packets: seq<seq<byte>>, i: nat)
    requires forall j :: 0 <= j < |packets| ==> Acceptable(packets[j])
    requires PrefixMask(cfg.subAddr, k) && FIRST_HOST + Requests(Messages(packets)) <= Pow2(k)
    requires i < |packets| && FieldsIn(packets[i]).msg == REQUEST
    ensures Messages(packets)[i].Request? && Sent(cfg, packets, i).Some?
    ensures var n := HostOf(packets, i);
            && Answers(cfg, packets[i], 5, CurAddr(cfg, n), Sent(cfg, packets, i).value)
            && NetValue(CurAddr(cfg, n)) == NetValue(cfg.myIp) - NetValue(cfg.myIp) % Pow2(k) + n
            && And32(CurAddr(cfg, n), cfg.subAddr) == And32(cfg.myIp, cfg.subAddr)
  {
    hide FieldsIn, Readable, ReplyBytes, Answers, ReplyTo, CurAddr, Requests, Pow2, PrefixMask,
      NetValue, Network, And32;
    var n := HostOf(packets, i);
    assert Messages(packets)[i] == MsgIn(packets[i]);
    PlanIsGood(cfg, k);
    AckInRange(Plan(cfg), Pow2(k), Messages(packets), i);
    HostRangeAddr(cfg, k, n);
    ReplyAnswers(cfg, packets[i], ACK, CurAddr(cfg, n));
  }

  /** Two ACK packets carry the same address exactly when no REQUEST packet lies between their
      anchors. */
  lemma AckPacketsAgreeExactly(cfg: Config, k: nat, packets: seq<seq<byte>>, i: nat, j: nat)
    requires forall l :: 0 <= l < |packets| ==> Acceptable(packets[l])
    requires PrefixMask(cfg.subAddr, k) && FIRST_HOST + Requests(Messages(packets)) <= Pow2(k)
    requires i < |packets| && j < |packets|
    requires Messages(packets)[i].Request? && Messages(packets)[j].Request?
    requires Anchor(Messages(packets), i) <= Anchor(Messages(packets), j)
    ensures Sent(cfg, packets, i).Some? && Sent(cfg, packets, j).Some?
    ensures |Sent(cfg, packets, i).value| == |Sent(cfg, packets, j).value| == HDR_L
    ensures AddressIn(Sent(cfg, packets, i).value) == AddressIn(Sent(cfg, packets, j).value)
            <==> NoRequest(Messages(packets), Anchor(Messages(packets), i), Anchor(Messages(packets), j))
  {
    hide FieldsIn, Readable, ReplyBytes, ReplyTo, CurAddr, Requests, Anchor, MsgIn, NoRequest,
      Pow2, PrefixMask;
    var run := Messages(packets);
    PlanIsGood(cfg, k);
    AckInRange(Plan(cfg), Pow2(k), run, i);
    AckInRange(Plan(cfg), Pow2(k), run, j);
    AcksAgreeExactly(Plan(cfg), Pow2(k), run, i, j);
    ReplyLayout(cfg, packets[i], ACK, ReplyTo(Plan(cfg), run, i).addr);
    ReplyLayout(cfg, packets[j], ACK, ReplyTo(Plan(cfg), run, j).addr);
  }

  /** An ACK packet carries the server's own address exactly when 40 plus the REQUEST packets before
      its anchor is the server's host number, and the broadcast address exactly when that is the last
      host number. */
  lemma ReservedOnTheWire(cfg: Config, k: nat, packets: seq<seq<byte>>, i: nat)
    requires forall j :: 0 <= j < |packets| ==> Acceptable(packets[j])
    requires PrefixMask(cfg.subAddr, k) && FIRST_HOST + Requests(Messages(packets)) <= Pow2(k)
    requires i < |packets| && FieldsIn(packets[i]).msg == REQUEST
    ensures Messages(packets)[i].Request? && Sent(cfg, packets, i).Some?
    ensures |Sent(cfg, packets, i).value| == HDR_L
    ensures var n := HostOf(packets, i);
            var given := AddressIn(Sent(cfg, packets, i).value);
            && (given == cfg.myIp <==> n == NetValue(cfg.myIp) % Pow2(k))
            && (given == Broadcast(cfg) <==> n == Pow2(k) - 1)
  {
    hide FieldsIn, Readable, Sent, CurAddr, Requests, Anchor, Pow2, PrefixMask, NetValue, Network, Broadcast,
      Acceptable, Messages;
    AckAddress(cfg, k, packets, i);
    ReservedAddrs(cfg, k, HostOf(packets, i));
  }

  /** The address bytes of an ACK packet. */
  lemma AckAddress(cfg: Config, k: nat, packets: seq<seq<byte>>, i: nat)
    requires forall j :: 0 <= j < |packets| ==> Acceptable(packets[j])
    requires PrefixMask(cfg.subAddr, k) && FIRST_HOST + Requests(Messages(packets)) <= Pow2(k)
    requires i < |packets| && FieldsIn(packets[i]).msg == REQUEST
    ensures |Messages(packets)| == |packets| && Messages(packets)[i].Request?
    ensures Anchor(Messages(packets), i) <= i
    ensures Sent(cfg, packets, i).Some? && |Sent(cfg, packets, i).value| == HDR_L
    ensures var n := HostOf(packets, i);
            n < Pow2(k) && AddressIn(Sent(cfg, packets, i).value) == CurAddr(cfg, n)
  {
    hide FieldsIn, Readable, Received, Sent, CurAddr, Requests, Pow2, PrefixMask, NetValue, Network, And32, ReplyTo;
    AckOnTheWire(cfg, k, packets, i);
    PlanIsGood(cfg, k);
    AckInRange(Plan(cfg), Pow2(k), Messages(packets), i);
  }
}
