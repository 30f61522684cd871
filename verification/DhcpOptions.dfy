// The dhcp_opt struct with the two functions that move it out of and into a header.
module DhcpOptions {
  import opened Bytes
  import opened Header
  import opened OptionFormat
  import opened OptionReader
  import opened OptionWriter

  /** The loop that looks for a byte other than 0. */
  method AnyNonZero(s: seq<byte>) returns (found: bool)
    ensures found <==> exists i :: 0 <= i < |s| && s[i] != 0
    ensures |s| == 4 ==> (found <==> s != ZERO)
    ensures |s| == ETHER_ADDR_L ==> (found <==> s != NO_MAC)
  {
    found := false;
    for i := 0 to |s|
      invariant !found && forall j :: 0 <= j < i ==> s[j] == 0
    {
      if s[i] != 0 {
        found := true;
        break;
      }
    }
  }

  lemma StepInside(s: seq<byte>, ptr: nat)
    requires ptr <= |s| && Readable(s[ptr..])
    ensures ptr < |s| && s[ptr..][0] == s[ptr]
    ensures s[ptr] == END_OP ==> forall f :: Read(f, s[ptr..]) == f
    ensures s[ptr] != END_OP ==>
              && ptr + Touched(s[ptr..]) <= |s|
              && InBounds(s[ptr..])
              && 0 < Advance(s[ptr..])
              && ptr + Advance(s[ptr..]) <= |s|
              && s[ptr..][Advance(s[ptr..])..] == s[ptr + Advance(s[ptr..])..]
              && Readable(s[ptr + Advance(s[ptr..])..])
              && forall f :: Read(f, s[ptr..]) == Read(Effect(f, s[ptr..]), s[ptr + Advance(s[ptr..])..])
  {
    if s[ptr] != END_OP {
      var n := Advance(s[ptr..]);
      assert s[ptr..][n..] == s[ptr + n..];
    }
  }

  class DhcpOpt {
    var cookieOk: bool
    var msg: MsgType
    const name: array<byte>
    var cltId: mac
    var subMsk: word
    var rnwTime: word
    var rbnTime: word
    var leaseTime: word
    var srvId: word
    var rtrId: word
    var rqtId: word
    var dnsId: word

    ghost predicate Valid()
      reads this
    {
      name.Length == MAX_HOST_NAME
    }

    ghost function Value(): Fields
      requires Valid()
      reads this, name
    {
      Fields(cookieOk, msg, name[..], cltId, subMsk, rnwTime, rbnTime, leaseTime, srvId, rtrId, rqtId, dnsId)
    }

    /** A struct on the stack after memset(&opt, 0, sizeof(opt)). */
    constructor ()
      ensures Valid() && fresh(name)
      ensures Value() == Fields(true, DISCOVER, Zeros(312), [0, 0, 0, 0, 0, 0], ZERO, ZERO, ZERO, ZERO,
                                ZERO, ZERO, ZERO, ZERO)
    {
      cookieOk, msg, cltId := true, DISCOVER, NO_MAC;
      name := new byte[MAX_HOST_NAME](_ => 0);
      subMsk, rnwTime, rbnTime, leaseTime := ZERO, ZERO, ZERO, ZERO;
      srvId, rtrId, rqtId, dnsId := ZERO, ZERO, ZERO, ZERO;
      new;
      assert name[..] == Zeros(MAX_HOST_NAME);
    }

    method ClearName()
      requires Valid()
      modifies name
      ensures name[..] == Zeros(MAX_HOST_NAME)
    {
      SpliceWhole(name[..], Zeros(MAX_HOST_NAME));
      CopyInto(name, 0, Zeros(MAX_HOST_NAME));
    }

    /** The fields set before the reader's loop. */
    method Clear()
      requires Valid()
      modifies this, name
      ensures Value() == Cleared(old(Value()), true)
    {
      ClearName();
      cookieOk, msg, cltId, subMsk, rnwTime, rbnTime := true, INVALID, NO_MAC, ZERO, ZERO, ZERO;
      srvId, rtrId, rqtId, dnsId := ZERO, ZERO, ZERO, ZERO;
    }

    /** The switch in the reader's loop, at offset ptr. */
    method StoreOption(pkg: DhcpHeader, ptr: nat) returns (len: nat)
      requires Valid() && pkg.Valid() && name != pkg.mem
      requires ptr < HDR_L && InBounds(pkg.mem[ptr..])
      modifies this, name
      ensures Value() == Effect(old(Value()), pkg.mem[ptr..])
      ensures len == Advance(pkg.mem[ptr..])
    {
      hide Splice;
      ghost var s := pkg.mem[ptr..];
      var code := pkg.mem[ptr];
      assert s[0] == code;
      len := 1;
      if code == MSG_OP {
        assert s[2] == pkg.mem[ptr + 2];
        msg := MsgOf(pkg.mem[ptr + 2]);
        len := 3;
      } else if code == HST_NAME_OP {
        assert s[1] == pkg.mem[ptr + 1];
        var strLen: nat := pkg.mem[ptr + 1];
        assert pkg.mem[ptr + 2..ptr + 2 + strLen] == s[2..2 + strLen];
        CopyInto(name, 0, pkg.mem[ptr + 2..ptr + 2 + strLen] + [0]);
        len := (2 + strLen) % 256;
      } else if code == CLT_ID_OP {
        cltId := pkg.mem[ptr + 2..ptr + 8];
        assert cltId == s[2..8] && s[1] == pkg.mem[ptr + 1];
        len := (2 + pkg.mem[ptr + 1] as int) % 256;
      } else if code == RBN_TIME_OP || code == IP_LEASE_TIME_OP {
        len := 6;
      } else {
        len := StoreWord(pkg, ptr);
      }
    }

    /** The cases of the switch that copy four bytes, and the one for everything else. */
    method StoreWord(pkg: DhcpHeader, ptr: nat) returns (len: nat)
      requires Valid() && pkg.Valid() && name != pkg.mem
      requires ptr < HDR_L && InBounds(pkg.mem[ptr..])
      requires pkg.mem[ptr] !in {MSG_OP, HST_NAME_OP, CLT_ID_OP, RBN_TIME_OP, IP_LEASE_TIME_OP}
      modifies this
      ensures Value() == Effect(old(Value()), pkg.mem[ptr..])
      ensures len == Advance(pkg.mem[ptr..])
    {
      ghost var s := pkg.mem[ptr..];
      var code := pkg.mem[ptr];
      assert s[0] == code;
      len := 1;
      if CopiesWord(code) {
        var w: word := pkg.mem[ptr + 2..ptr + 6];
        assert w == s[2..6] && s[1] == pkg.mem[ptr + 1];
        len := 6;
        if code == SUB_MSK_OP {
          subMsk := w;
        } else if code == RNW_TIME_OP {
          rtrId := w;
          len := (2 + pkg.mem[ptr + 1] as int) % 256;
        } else if code == SRV_ID_OP {
          srvId := w;
        } else if code == RTR_ID_OP {
          rtrId := w;
          len := (2 + pkg.mem[ptr + 1] as int) % 256;
        } else if code == RQT_ID_OP {
          rqtId := w;
        } else {
          dnsId := w;
          len := (2 + pkg.mem[ptr + 1] as int) % 256;
        }
      }
    }

    /** The loop over the magic cookie. */
    method CheckCookie(pkg: DhcpHeader)
      requires Valid() && pkg.Valid() && name != pkg.mem && cookieOk
      modifies this
      ensures Value() == old(Value()).(cookieOk := pkg.mem[236..240] == [99, 130, 83, 99])
    {
      ghost var start := Value();
      for i := 0 to 4
        invariant Value() == start.(cookieOk := pkg.mem[OPT..OPT + i] == COOKIE[..i])
      {
        if pkg.mem[OPT + i] != COOKIE[i] {
          cookieOk := false;
        }
        assert pkg.mem[OPT..OPT + i + 1] == pkg.mem[OPT..OPT + i] + [pkg.mem[OPT + i]];
      }
    }

    /** set_dhcp_opt_from_dhcp_hdr, on every header whose options end inside it. */
    method SetFromHeader(pkg: DhcpHeader)
      requires Valid() && pkg.Valid() && name != pkg.mem
      requires Readable(pkg.mem[OPT + 4..])
      modifies this, name
      ensures Value() == Read(Cleared(old(Value()), pkg.mem[236..240] == [99, 130, 83, 99]), pkg.mem[240..])
    {
      hide Read, Readable, Effect, Advance, InBounds, Touched;
      Clear();
      CheckCookie(pkg);
      ghost var s, start := pkg.mem[..], Value();
      assert s[OPT + 4..] == pkg.mem[OPT + 4..];
      var ptr: nat := OPT + 4;
      StepInside(s, ptr);
      while pkg.mem[ptr] != END_OP
        invariant ptr < HDR_L && Readable(s[ptr..])
        invariant Read(Value(), s[ptr..]) == Read(start, s[OPT + 4..])
        decreases HDR_L - ptr
      {
        StepInside(s, ptr);
        assert pkg.mem[ptr..] == s[ptr..];
        var len := StoreOption(pkg, ptr);
        ptr := ptr + len;
        StepInside(s, ptr);
      }
      StepInside(s, ptr);
    }

    /** One conditional write of the writer: slot i of the list, at offset ptr. */
    method Emit(pkg: DhcpHeader, ptr: nat, on: bool, code: byte, payload: seq<byte>,
                ghost before: image, ghost slots: seq<seq<Tok>>, ghost i: nat)
      returns (next: nat)
      requires pkg.Valid()
      requires i < |slots| && slots[i] == Optional(on, code, payload)
      requires |EncAll(Flatten(slots))| <= OPT_MAX_L - 5
      requires WrittenUpTo(pkg.mem[..], ptr, before, slots, i)
      modifies pkg.mem
      ensures WrittenUpTo(pkg.mem[..], next, before, slots, i + 1)
    {
      hide EncAll, Flatten, Optional, Splice, WrittenUpTo;
      ghost var done := COOKIE + EncAll(Flatten(slots[..i]));
      ghost var now := pkg.mem[..];
      WrittenUpToIs(now, ptr, before, slots, i);
      FlattenNext(slots, i);
      FlattenPrefix(slots, i + 1);
      OptionalBytes(on, code, payload);
      next := ptr;
      if on {
        assert |[code, |payload| % 256] + payload| == 2 + |payload|;
        CopyInto(pkg.mem, ptr, [code, |payload| % 256] + payload);
        SpliceAppend(before, OPT, done, [code, |payload| % 256] + payload);
        next := ptr + 2 + |payload|;
      }
      assert COOKIE + EncAll(Flatten(slots[..i + 1])) == done + EncAll(slots[i]);
      assert done + [] == done;
      WrittenUpToIs(pkg.mem[..], next, before, slots, i + 1);
    }

    /** The writer's cookie. */
    method WriteCookie(pkg: DhcpHeader, ghost before: image) returns (ptr: nat)
      requires Valid() && pkg.Valid() && name != pkg.mem && pkg.mem[..] == before
      modifies pkg.mem
      ensures WrittenUpTo(pkg.mem[..], ptr, before, Slots(Value()), 0)
    {
      hide EncAll, Flatten, Splice, WrittenUpTo, Slots;
      FlattenNil();
      assert Slots(Value())[..0] == [] && COOKIE + [] == COOKIE;
      CopyInto(pkg.mem, OPT, COOKIE);
      ptr := OPT + 4;
      WrittenUpToIs(pkg.mem[..], ptr, before, Slots(Value()), 0);
    }

    /** The writer's message type, host name and client id. */
    method WriteClient(pkg: DhcpHeader, start: nat, ghost before: image) returns (ptr: nat)
      requires Valid() && pkg.Valid() && name != pkg.mem && 0 in name[..]
      requires |EncAll(Flatten(Slots(Value())))| <= OPT_MAX_L - 5
      requires WrittenUpTo(pkg.mem[..], start, before, Slots(Value()), 0)
      modifies pkg.mem
      ensures WrittenUpTo(pkg.mem[..], ptr, before, Slots(Value()), 3)
    {
      hide EncAll, Flatten, Optional, Splice, WrittenUpTo, CodeOf, StrLen;
      ghost var slots := Slots(Value());
      var msgType := CodeOf(msg);
      ptr := Emit(pkg, start, msgType != 0, MSG_OP, [msgType], before, slots, 0);
      var nameLen := StringLength(name);
      ptr := Emit(pkg, ptr, nameLen != 0, HST_NAME_OP, name[..nameLen], before, slots, 1);
      var cltIdV := AnyNonZero(cltId);
      ptr := Emit(pkg, ptr, cltIdV, CLT_ID_OP, [1] + cltId, before, slots, 2);
    }

    /** The writer's subnet mask and router. */
    method WriteSubnet(pkg: DhcpHeader, start: nat, ghost before: image) returns (ptr: nat)
      requires Valid() && pkg.Valid() && name != pkg.mem
      requires |EncAll(Flatten(Slots(Value())))| <= OPT_MAX_L - 5
      requires WrittenUpTo(pkg.mem[..], start, before, Slots(Value()), 3)
      modifies pkg.mem
      ensures WrittenUpTo(pkg.mem[..], ptr, before, Slots(Value()), 5)
    {
      hide EncAll, Flatten, Optional, Splice, WrittenUpTo, CodeOf, CStr;
      ghost var slots := Slots(Value());
      var subMskV := AnyNonZero(subMsk);
      ptr := Emit(pkg, start, subMskV, SUB_MSK_OP, subMsk, before, slots, 3);
      var rtrIdV := AnyNonZero(rtrId);
      ptr := Emit(pkg, ptr, rtrIdV, RTR_ID_OP, rtrId, before, slots, 4);
    }

    /** The writer's three times. */
    method WriteTimes(pkg: DhcpHeader, start: nat, ghost before: image) returns (ptr: nat)
      requires Valid() && pkg.Valid() && name != pkg.mem
      requires |EncAll(Flatten(Slots(Value())))| <= OPT_MAX_L - 5
      requires WrittenUpTo(pkg.mem[..], start, before, Slots(Value()), 5)
      modifies pkg.mem
      ensures WrittenUpTo(pkg.mem[..], ptr, before, Slots(Value()), 8)
    {
      hide EncAll, Flatten, Optional, Splice, WrittenUpTo, CodeOf, CStr;
      ghost var slots := Slots(Value());
      ptr := Emit(pkg, start, rnwTime != ZERO, RNW_TIME_OP, rnwTime, before, slots, 5);
      ptr := Emit(pkg, ptr, rbnTime != ZERO, RBN_TIME_OP, rbnTime, before, slots, 6);
      ptr := Emit(pkg, ptr, leaseTime != ZERO, IP_LEASE_TIME_OP, leaseTime, before, slots, 7);
    }

    /** The writer's server id and DNS server, and what it does not write between them. */
    method WriteServers(pkg: DhcpHeader, start: nat, ghost before: image) returns (ptr: nat)
      requires Valid() && pkg.Valid() && name != pkg.mem
      requires |EncAll(Flatten(Slots(Value())))| <= OPT_MAX_L - 5
      requires WrittenUpTo(pkg.mem[..], start, before, Slots(Value()), 8)
      modifies pkg.mem
      ensures WrittenUpTo(pkg.mem[..], ptr, before, Slots(Value()), 10)
    {
      hide EncAll, Flatten, Optional, Splice, WrittenUpTo, CodeOf, CStr;
      ghost var slots := Slots(Value());
      var srvIdV := AnyNonZero(srvId);
      ptr := Emit(pkg, start, srvIdV, SRV_ID_OP, srvId, before, slots, 8);
      // The requested address sets the flag of the server id, which is not looked at any more;
      // its own flag stays 0, so its option is never written.
      var rqtIdSet := AnyNonZero(rqtId);
      if rqtIdSet {
        srvIdV := true;
      }
      var dnsIdV := AnyNonZero(dnsId);
      ptr := Emit(pkg, ptr, dnsIdV, DNS_OP, dnsId, before, slots, 9);
    }

    /** set_dhcp_hdr_from_dhcp_opt, on every struct whose options fit. */
    method WriteTo(pkg: DhcpHeader)
      requires Valid() && pkg.Valid() && name != pkg.mem && 0 in name[..]
      requires |Encode(Value())| <= OPT_MAX_L
      modifies pkg.mem
      ensures pkg.mem[..] == Splice(old(pkg.mem[..]), OPT, Encode(Value()))
    {
      hide EncAll, Flatten, Splice, WrittenUpTo, Encode, Slots, StrLen;
      ghost var slots, before := Slots(Value()), pkg.mem[..];
      EncodeIs(Value());
      var ptr := WriteCookie(pkg, before);
      ptr := WriteClient(pkg, ptr, before);
      ptr := WriteSubnet(pkg, ptr, before);
      ptr := WriteTimes(pkg, ptr, before);
      ptr := WriteServers(pkg, ptr, before);
      assert slots[..10] == slots;
      WrittenUpToIs(pkg.mem[..], ptr, before, slots, 10);
      CopyInto(pkg.mem, ptr, [END_OP]);
      SpliceAppend(before, OPT, COOKIE + EncAll(Flatten(slots)), [END_OP]);
    }
  }

  lemma EncodeIs(f: Fields)
    ensures |Slots(f)| == 10
    ensures Encode(f) == COOKIE + EncAll(Flatten(Slots(f))) + [END_OP]
  {
  }

  /** The cookie and the first i slots have been written, and nothing else. */
  ghost predicate WrittenUpTo(now: seq<byte>, ptr: nat, before: image, slots: seq<seq<Tok>>, i: nat)
    requires i <= |slots|
  {
    var done := COOKIE + EncAll(Flatten(slots[..i]));
    |done| < OPT_MAX_L && ptr == OPT + |done| && now == Splice(before, OPT, done)
  }

  lemma WrittenUpToIs(now: seq<byte>, ptr: nat, before: image, slots: seq<seq<Tok>>, i: nat)
    requires i <= |slots|
    ensures var done := COOKIE + EncAll(Flatten(slots[..i]));
            WrittenUpTo(now, ptr, before, slots, i)
            <==> |done| < OPT_MAX_L && ptr == OPT + |done| && now == Splice(before, OPT, done)
  {
  }

  lemma OptionalBytes(on: bool, code: byte, payload: seq<byte>)
    ensures EncAll(Optional(on, code, payload)) == if on then [code, |payload| % 256] + payload else []
  {
    EncAllNil();
    if on {
      EncAllCons([Tlv(code, payload)]);
    }
  }
}
