// The DHCP server loop: packets in, answers out.
module Server {
  import opened Bytes
  import opened Addresses
  import opened Header
  import opened OptionFormat
  import opened OptionReader
  import opened OptionWriter
  import opened DhcpOptions
  import opened IpPool
  import opened Packets
  import L = Leases

  /** The messages a list of packets is. */
  function Messages(packets: seq<seq<byte>>): seq<L.Msg>
    requires forall i :: 0 <= i < |packets| ==> Acceptable(packets[i])
  {
    seq(|packets|, i requires 0 <= i < |packets| => MsgIn(packets[i]))
  }

  /** The answer to packet i of a list: what the lease machine replies to message i, as a packet. */
  function Sent(cfg: Config, packets: seq<seq<byte>>, i: nat): Option<seq<byte>>
    requires forall j :: 0 <= j < |packets| ==> Acceptable(packets[j])
    requires i < |packets|
  {
    ReplyPacket(cfg, packets[i], L.ReplyTo(Plan(cfg), Messages(packets), i))
  }

  class DhcpServer {
    const cfg: Config
    var curIp: nat
    const pool: Pool
    /** The messages handled so far. */
    ghost var run: seq<L.Msg>

    /** The globals are those of the lease machine after the run. */
    ghost predicate Valid()
      reads this, pool, pool.slots
    {
      && pool.Valid()
      && L.State(curIp, pool.history) == L.After(Plan(cfg), run)
    }

    constructor (cfg: Config)
      ensures Valid() && fresh(pool) && fresh(pool.slots)
      ensures this.cfg == cfg && run == []
    {
      this.cfg := cfg;
      curIp := L.FIRST_HOST;
      pool := new Pool();
      run := [];
    }

    /** The assignments to o_hdr up to own_ip. */
    method FillIds(oHdr: DhcpHeader, trsId: word, flags: seq<byte>, cltIp: word, ownIp: word)
      requires oHdr.Valid() && oHdr.Image() == Zeros(HDR_L) && |flags| == 2
      modifies oHdr.mem
      ensures oHdr.Image() == Splice(Zeros(HDR_L), 0, [2, 1, 6, 0] + trsId + [0, 0] + flags + cltIp + ownIp)
    {
      hide Splice;
      oHdr.Put(0, [2, 1, 6, 0]);
      oHdr.Put(4, trsId);
      oHdr.Put(8, [0, 0]);
      oHdr.Put(10, flags);
      oHdr.Put(12, cltIp);
      oHdr.Put(16, ownIp);
      ghost var z := Zeros(HDR_L);
      SpliceAppend(z, 0, [2, 1, 6, 0], trsId);
      SpliceAppend(z, 0, [2, 1, 6, 0] + trsId, [0, 0]);
      SpliceAppend(z, 0, [2, 1, 6, 0] + trsId + [0, 0], flags);
      SpliceAppend(z, 0, [2, 1, 6, 0] + trsId + [0, 0] + flags, cltIp);
      SpliceAppend(z, 0, [2, 1, 6, 0] + trsId + [0, 0] + flags + cltIp, ownIp);
    }

    /** The assignments to o_hdr behind own_ip, of which done has been written. */
    method FillNames(oHdr: DhcpHeader, chaddr: seq<byte>, bootFile: seq<byte>, ghost done: seq<byte>)
      requires oHdr.Valid() && |done| == 20 && |chaddr| == 16 && |bootFile| == 128
      requires oHdr.Image() == Splice(Zeros(HDR_L), 0, done)
      modifies oHdr.mem
      ensures oHdr.Image()
              == Splice(Zeros(HDR_L), 0, done + cfg.myIp + cfg.myIp + chaddr + (SERVER_NAME + Zeros(52)) + bootFile)
    {
      hide Splice;
      oHdr.Put(20, cfg.myIp);
      oHdr.Put(24, cfg.myIp);
      oHdr.Put(28, chaddr);
      oHdr.Put(44, SERVER_NAME);
      ghost var z, b := Zeros(HDR_L), done + cfg.myIp + cfg.myIp + chaddr;
      SpliceAppend(z, 0, done, cfg.myIp);
      SpliceAppend(z, 0, done + cfg.myIp, cfg.myIp);
      SpliceAppend(z, 0, done + cfg.myIp + cfg.myIp, chaddr);
      SpliceAppend(z, 0, b, SERVER_NAME);
      SpliceZeros(b + SERVER_NAME, 52);
      assert b + SERVER_NAME + Zeros(52) == b + (SERVER_NAME + Zeros(52));
      oHdr.Put(108, bootFile);
      SpliceAppend(z, 0, b + (SERVER_NAME + Zeros(52)), bootFile);
    }

    /** The assignments to o_hdr, the same for an OFFER and an ACK but for two fields. */
    method FillHeader(iHdr: DhcpHeader, oHdr: DhcpHeader, cltIp: word, ownIp: word)
      requires iHdr.Valid() && oHdr.Valid() && iHdr.mem != oHdr.mem
      requires oHdr.Image() == Zeros(HDR_L)
      modifies oHdr.mem
      ensures var d := iHdr.Image();
              var head := ReplyHead(cfg, d[4..8], d[10..12], cltIp, ownIp, d[28..44], d[108..OPT]);
              |head| == OPT && oHdr.Image() == Splice(Zeros(HDR_L), 0, head)
    {
      hide Splice;
      var trsId := iHdr.Get(4, 4);
      var flags := iHdr.Get(10, 2);
      var chaddr := iHdr.Get(28, 16);
      var bootFile := iHdr.Get(108, 128);
      FillIds(oHdr, trsId, flags, cltIp, ownIp);
      FillNames(oHdr, chaddr, bootFile, [2, 1, 6, 0] + trsId + [0, 0] + flags + cltIp + ownIp);
    }

    /** The assignments to o_opt, the same for an OFFER and an ACK but for the type. */
    method FillOptions(oOpt: DhcpOpt, msg: MsgType)
      requires oOpt.Valid() && oOpt.Value() == NO_FIELDS
      modifies oOpt
      ensures oOpt.Value() == ReplyFields(cfg, msg)
    {
      oOpt.msg := msg;
      oOpt.leaseTime := TEN_THOUSAND;
      oOpt.srvId := cfg.myIp;
      oOpt.rtrId := oOpt.srvId;
      oOpt.subMsk := cfg.subAddr;
      oOpt.dnsId := cfg.dnsAddr;
      oOpt.rnwTime := TEN_THOUSAND;
      oOpt.rbnTime := TEN_THOUSAND;
    }

    /** Filling in an answer and sending it: the bytes handed to sendto. */
    method Answer(iHdr: DhcpHeader, msg: MsgType, cltIp: word, ownIp: word, ghost packet: seq<byte>)
      returns (reply: seq<byte>)
      requires iHdr.Valid() && |packet| <= HDR_L && msg in {OFFER, ACK}
      requires iHdr.Image() == Decoded(Zeros(HDR_L), packet)
      requires cltIp == if msg == ACK then Received(packet)[12..16] else ZERO
      ensures reply == ReplyBytes(cfg, packet, msg, ownIp)
    {
      hide Encode, ReplyHead, ReplyBytes, ReplyFields, Decoded, SwapFields, Received;
      var oHdr := new DhcpHeader();
      var oOpt := new DhcpOpt();
      FillHeader(iHdr, oHdr, cltIp, ownIp);
      ghost var head := oHdr.Image();
      FillOptions(oOpt, msg);
      ghost var n := ReplyOptionLength(cfg, msg);
      ReplyHasNoName(cfg, msg);
      assert oOpt.name[..] == oOpt.Value().name;
      oOpt.WriteTo(oHdr);
      var buffer := new byte[HDR_L](_ => 0);
      SpliceWhole(buffer[..], SwapFields(oHdr.Image()));
      oHdr.ToBytes(buffer, HDR_L);
      reply := buffer[..];
      AnswerImage(cfg, packet, msg, cltIp, ownIp);
    }

    /** wait_dhcp_hdr and the reading of the options, into structs cleared before. */
    method Receive(packet: seq<byte>) returns (iHdr: DhcpHeader, iOpt: DhcpOpt)
      requires Acceptable(packet)
      ensures fresh(iHdr) && fresh(iHdr.mem) && fresh(iOpt) && fresh(iOpt.name)
      ensures iHdr.Valid() && iHdr.Image() == Decoded(Zeros(HDR_L), packet)
      ensures iOpt.Valid() && iOpt.Value() == FieldsIn(packet)
    {
      hide Readable, Read, Decoded, Splice, SwapFields;
      var buffer := new byte[HDR_L](_ => 0);
      assert buffer[..] == Zeros(HDR_L);
      CopyInto(buffer, 0, packet);
      SpliceFront(Zeros(HDR_L), packet);
      assert buffer[..|packet|] == buffer[..][..|packet|];
      iHdr := new DhcpHeader();
      iHdr.SetFromBytes(buffer, |packet|);
      PacketDecoded(packet);
      iOpt := new DhcpOpt();
      iOpt.SetFromHeader(iHdr);
    }

    /** case DISCOVER. */
    method OnDiscover(iHdr: DhcpHeader, packet: seq<byte>) returns (bytes: seq<byte>)
      requires Valid() && |packet| <= HDR_L
      requires iHdr.Valid() && iHdr.Image() == Decoded(Zeros(HDR_L), packet) && iHdr.mem as object != pool.slots
      modifies pool, pool.slots
      ensures pool.Valid()
      ensures bytes == ReplyBytes(cfg, packet, OFFER, CurAddr(cfg, curIp))
      ensures pool.history == old(pool.history) + [Binding(CurAddr(cfg, curIp), Swap(Received(packet)[4..8]))]
    {
      hide ReplyBytes, CurAddr, Key, Latest, Decoded, Received, L.After;
      PacketDecoded(packet);
      bytes := Answer(iHdr, OFFER, ZERO, CurAddr(cfg, curIp), packet);
      var trsId: word := iHdr.Get(4, 4);
      pool.Set(CurAddr(cfg, curIp), trsId);
    }

    /** case REQUEST. */
    method OnRequest(iHdr: DhcpHeader, packet: seq<byte>) returns (bytes: seq<byte>)
      requires Valid() && |packet| <= HDR_L
      requires iHdr.Valid() && iHdr.Image() == Decoded(Zeros(HDR_L), packet) && iHdr.mem as object != pool.slots
      modifies this`curIp, pool, pool.slots
      ensures pool.Valid()
      ensures var id := Swap(Received(packet)[4..8]);
              var bound := Latest(old(pool.history), Key(id));
              && bytes == ReplyBytes(cfg, packet, ACK, if bound == ZERO then CurAddr(cfg, old(curIp)) else bound)
              && pool.history == old(pool.history) + [Binding(CurAddr(cfg, old(curIp)), id)]
      ensures curIp == (old(curIp) + 1) % WORD
    {
      hide ReplyBytes, CurAddr, Key, Latest, Decoded, Received, L.After;
      PacketDecoded(packet);
      var trsId: word := iHdr.Get(4, 4);
      var cltIp: word := iHdr.Get(12, 4);
      var bound := pool.Get(trsId);
      bytes := Answer(iHdr, ACK, cltIp, if bound == ZERO then CurAddr(cfg, curIp) else bound, packet);
      pool.Set(CurAddr(cfg, curIp), trsId);
      curIp := (curIp + 1) % WORD;
    }

    /** One turn of the server loop: the packet comes in, the answer, if any, goes out. */
    method Handle(packet: seq<byte>) returns (reply: Option<seq<byte>>)
      requires Valid() && Acceptable(packet)
      modifies this, pool, pool.slots
      ensures Valid() && run == old(run) + [MsgIn(packet)]
      ensures reply == ReplyPacket(cfg, packet, L.ReplyTo(Plan(cfg), run, |old(run)|))
    {
      hide Readable, Read, ReplyBytes, CurAddr, Key, Latest, Decoded, Received, FieldsIn, L.After;
      var iHdr, iOpt := Receive(packet);
      AfterAppend(Plan(cfg), run, MsgIn(packet));
      reply := None;
      match iOpt.msg {
        case DISCOVER =>
          var bytes := OnDiscover(iHdr, packet);
          reply := Some(bytes);
        case REQUEST =>
          var bytes := OnRequest(iHdr, packet);
          reply := Some(bytes);
        case _ =>
      }
      run := run + [MsgIn(packet)];
    }

    /** The server loop over a list of packets: each is answered as the lease machine says. */
    method Serve(packets: seq<seq<byte>>) returns (replies: seq<Option<seq<byte>>>)
      requires Valid() && run == []
      requires forall i :: 0 <= i < |packets| ==> Acceptable(packets[i])
      modifies this, pool, pool.slots
      ensures Valid() && run == Messages(packets)
      ensures |replies| == |packets|
      ensures forall i :: 0 <= i < |packets| ==> replies[i] == Sent(cfg, packets, i)
    {
      hide ReplyPacket, L.ReplyTo, L.After, Readable, MsgIn, Latest;
      replies := [];
      for n := 0 to |packets|
        invariant Valid() && run == Messages(packets)[..n]
        invariant |replies| == n
        invariant forall i :: 0 <= i < n ==> replies[i] == Sent(cfg, packets, i)
      {
        var reply := Handle(packets[n]);
        assert run == Messages(packets)[..n + 1];
        ReplyOfPrefix(Plan(cfg), Messages(packets), n);
        replies := replies + [reply];
      }
    }
  }

  lemma SpliceZeros(a: seq<byte>, n: nat)
    requires |a| + n <= HDR_L
    ensures Splice(Zeros(HDR_L), 0, a + Zeros(n)) == Splice(Zeros(HDR_L), 0, a)
  {
  }

  /** Swapping the struct that was filled in from a decoded packet gives the answer's bytes. */
  lemma AnswerImage(cfg: Config, packet: seq<byte>, msg: MsgType, cltIp: word, ownIp: word)
    requires |packet| <= HDR_L && msg in {OFFER, ACK}
    requires cltIp == if msg == ACK then Received(packet)[12..16] else ZERO
    ensures var d := Decoded(Zeros(HDR_L), packet);
            var head := ReplyHead(cfg, d[4..8], d[10..12], cltIp, ownIp, d[28..44], d[108..OPT]);
            && |head| == OPT
            && ReplyOptionLength(cfg, msg) <= OPT_MAX_L
            && SwapFields(Splice(Splice(Zeros(HDR_L), 0, head), OPT, Encode(ReplyFields(cfg, msg))))
               == ReplyBytes(cfg, packet, msg, ownIp)
  {
    hide Encode, ReplyFields, Received, ReplyHead, SwapFields, Splice;
    var p, d := Received(packet), Decoded(Zeros(HDR_L), packet);
    var x := Encode(ReplyFields(cfg, msg)) + seq(OPT_MAX_L - ReplyOptionLength(cfg, msg), _ => 0);
    HeadLayout(cfg, d[4..8], d[10..12], cltIp, ownIp, d[28..44], d[108..OPT]);
    var head := ReplyHead(cfg, d[4..8], d[10..12], cltIp, ownIp, d[28..44], d[108..OPT]);
    TwoParts(head, Encode(ReplyFields(cfg, msg)));
    DecodedZeros(packet);
    SwapFieldsTwice(p);
    assert d[28..44] == p[28..44] && d[108..OPT] == p[108..OPT];
    SwapHead(cfg, d[4..8], d[10..12], cltIp, ownIp, p[28..44], p[108..OPT], x);
    assert Swap(d[4..8]) == p[4..8] && [d[11], d[10]] == p[10..12];
  }

  lemma DecodedZeros(packet: seq<byte>)
    requires |packet| <= HDR_L
    ensures Decoded(Zeros(HDR_L), packet) == SwapFields(Received(packet))
  {
  }

  lemma TwoParts(head: seq<byte>, options: seq<byte>)
    requires |head| == OPT && |options| <= OPT_MAX_L
    ensures Splice(Splice(Zeros(HDR_L), 0, head), OPT, options)
            == head + (options + seq(OPT_MAX_L - |options|, _ => 0))
  {
  }

  /** Swapping the three fields of a struct. */
  lemma SwapFront(a: seq<byte>, id: word, s0: byte, s1: byte, f0: byte, f1: byte, rest: seq<byte>)
    requires |a| == 4 && |rest| == HDR_L - 12
    ensures SwapFields(a + id + [s0, s1] + [f0, f1] + rest) == a + Swap(id) + [s1, s0] + [f1, f0] + rest
  {
    var m := a + id + [s0, s1] + [f0, f1] + rest;
    assert m[..4] == a && m[4..8] == id && m[12..] == rest;
  }

  lemma HeadParts(cfg: Config, id: word, flags: seq<byte>, cltIp: word, ownIp: word,
                  chaddr: seq<byte>, bootFile: seq<byte>, x: seq<byte>) returns (rest: seq<byte>)
    requires |flags| == 2 && |chaddr| == 16 && |bootFile| == 128 && |x| == OPT_MAX_L
    ensures rest == cltIp + ownIp + cfg.myIp + cfg.myIp + chaddr + (SERVER_NAME + Zeros(52)) + bootFile + x
    ensures |rest| == HDR_L - 12
    ensures ReplyHead(cfg, id, flags, cltIp, ownIp, chaddr, bootFile) + x
            == [2, 1, 6, 0] + id + [0, 0] + [flags[0], flags[1]] + rest
  {
    assert flags == [flags[0], flags[1]];
    rest := cltIp + ownIp + cfg.myIp + cfg.myIp + chaddr + (SERVER_NAME + Zeros(52)) + bootFile + x;
  }

  /** Swapping the three fields of a struct whose first part is an answer's. */
  lemma SwapHead(cfg: Config, id: word, flags: seq<byte>, cltIp: word, ownIp: word,
                 chaddr: seq<byte>, bootFile: seq<byte>, x: seq<byte>)
    requires |flags| == 2 && |chaddr| == 16 && |bootFile| == 128 && |x| == OPT_MAX_L
    ensures var h := ReplyHead(cfg, id, flags, cltIp, ownIp, chaddr, bootFile);
            && |h| == OPT
            && SwapFields(h + x)
               == ReplyHead(cfg, Swap(id), [flags[1], flags[0]], cltIp, ownIp, chaddr, bootFile) + x
  {
    HeadLayout(cfg, id, flags, cltIp, ownIp, chaddr, bootFile);
    hide ReplyHead, SwapFields;
    var rest := HeadParts(cfg, id, flags, cltIp, ownIp, chaddr, bootFile, x);
    SwapFront([2, 1, 6, 0], id, 0, 0, flags[0], flags[1], rest);
    var swapped := HeadParts(cfg, Swap(id), [flags[1], flags[0]], cltIp, ownIp, chaddr, bootFile, x);
  }

  lemma ReplyHasNoName(cfg: Config, msg: MsgType)
    ensures 0 in ReplyFields(cfg, msg).name
  {
    assert ReplyFields(cfg, msg).name[0] == 0;
  }

  /** A packet decoded into a cleared struct: its id in host order, the rest of the fields that the
      server reads as they came. */
  lemma PacketDecoded(packet: seq<byte>)
    requires |packet| <= HDR_L
    ensures var d := Decoded(Zeros(HDR_L), packet);
            && d[4..8] == Swap(Received(packet)[4..8])
            && d[12..16] == Received(packet)[12..16]
            && d[OPT..OPT + 4] == Received(packet)[OPT..OPT + 4]
            && d[OPT + 4..] == Received(packet)[OPT + 4..]
  {
    hide Splice;
    var p := Received(packet);
    SwapFieldsTwice(p);
    var d := SwapFields(p);
    assert d[12..16] == p[12..16] && d[OPT..OPT + 4] == p[OPT..OPT + 4] && d[OPT + 4..] == p[OPT + 4..];
  }

  lemma SpliceFront(s: seq<byte>, d: seq<byte>)
    requires |d| <= |s|
    ensures Splice(s, 0, d)[..|d|] == d
  {
  }

  lemma AfterAppend(a: nat -> word, run: seq<L.Msg>, m: L.Msg)
    ensures L.After(a, run + [m]) == L.Step(a, L.After(a, run), m).0
    ensures L.ReplyTo(a, run + [m], |run|) == L.Step(a, L.After(a, run), m).1
  {
  }

  lemma ReplyOfPrefix(a: nat -> word, run: seq<L.Msg>, n: nat)
    requires n < |run|
    ensures L.ReplyTo(a, run[..n + 1], n) == L.ReplyTo(a, run, n)
  {
    assert run[..n + 1][..n] == run[..n];
  }
}
