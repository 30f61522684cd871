// What the reader makes of what the writer wrote.
module OptionRoundTrip {
  import opened Bytes
  import opened Header
  import opened OptionFormat
  import opened OptionReader
  import opened OptionWriter

  // ------------------------------------------------- reading slot after slot

  lemma AppendWellFormed(a: seq<Tok>, b: seq<Tok>)
    requires AllWellFormed(a) && AllWellFormed(b)
    ensures AllWellFormed(a + b)
  {
  }

  lemma FoldNil(f: Fields)
    ensures AllWellFormed([]) && Fold(f, []) == f
  {
  }

  lemma {:induction false} FoldAppend(f: Fields, a: seq<Tok>, b: seq<Tok>)
    requires AllWellFormed(a) && AllWellFormed(b)
    ensures AllWellFormed(a + b)
    ensures Fold(f, a + b) == Fold(Fold(f, a), b)
    decreases |a|
  {
    hide *;
    AppendWellFormed(a, b);
    if a == [] {
      assert a + b == b;
      FoldNil(f);
    } else {
      FoldCons(f, a, 0);
      FoldCons(f, a + b, 0);
      assert (a + b)[1..] == a[1..] + b && (a + b)[0] == a[0];
      FoldAppend(Apply(f, a[0]), a[1..], b);
    }
  }

  lemma FoldOptional(f: Fields, on: bool, code: byte, payload: seq<byte>)
    requires on ==> WellFormed(Tlv(code, payload))
    ensures AllWellFormed(Optional(on, code, payload))
    ensures Fold(f, Optional(on, code, payload)) == if on then Apply(f, Tlv(code, payload)) else f
  {
    hide WellFormed, Apply;
    if on {
      FoldCons(f, [Tlv(code, payload)], 0);
      assert [Tlv(code, payload)][1..] == [];
    }
  }

  /** The string of a buffer, and NULs behind it. */
  function Padded(name: nameBuffer): nameBuffer {
    CStr(name) + Zeros(MAX_HOST_NAME - StrLen(name))
  }

  /** The reader's fields after the first i slots of f. */
  function Stage(f: Fields, g: Fields, i: nat): Fields {
    Fields(true,
           if i >= 1 then f.msg else INVALID,
           if i >= 2 then Padded(f.name) else Zeros(MAX_HOST_NAME),
           if i >= 3 && f.cltId != NO_MAC then [1] + f.cltId[..5] else NO_MAC,
           if i >= 4 then f.subMsk else ZERO,
           ZERO,
           ZERO,
           g.leaseTime,
           if i >= 9 then f.srvId else ZERO,
           if i >= 6 && f.rnwTime != ZERO then f.rnwTime else if i >= 5 then f.rtrId else ZERO,
           ZERO,
           if i >= 10 then f.dnsId else ZERO)
  }

  /** What the writer's output reads back as. The message type, host name, mask, server id and DNS
      server come back. A client id comes back shifted by its type byte. The renew time comes back
      as the router id; no time and no requested address comes back at all. The lease time is that
      of the struct read into. */
  function Expected(f: Fields, g: Fields): Fields {
    Fields(true, f.msg, Padded(f.name),
           if f.cltId != NO_MAC then [1] + f.cltId[..5] else NO_MAC,
           f.subMsk, ZERO, ZERO, g.leaseTime, f.srvId,
           if f.rnwTime != ZERO then f.rnwTime else f.rtrId,
           ZERO, f.dnsId)
  }

  lemma NameRead(name: nameBuffer)
    requires StrLen(name) < MAX_HOST_NAME
    ensures SetName(Zeros(MAX_HOST_NAME), CStr(name)) == Padded(name)
    ensures CStr(name) == [] ==> Padded(name) == Zeros(MAX_HOST_NAME)
  {
    assert |CStr(name)| == StrLen(name);
    var a, b := SetName(Zeros(MAX_HOST_NAME), CStr(name)), Padded(name);
    assert forall i :: 0 <= i < StrLen(name) ==> a[i] == b[i];
  }

  lemma StageNext(f: Fields, g: Fields, i: nat)
    requires i < 10 && StrLen(f.name) <= 253
    ensures AllWellFormed(Slots(f)[i])
    ensures Fold(Stage(f, g, i), Slots(f)[i]) == Stage(f, g, i + 1)
  {
    if i < 4 {
      StageNextLow(f, g, i);
    } else {
      StageNextHigh(f, g, i);
    }
  }

  lemma StageNextLow(f: Fields, g: Fields, i: nat)
    requires i < 4 && StrLen(f.name) <= 253
    ensures AllWellFormed(Slots(f)[i])
    ensures Fold(Stage(f, g, i), Slots(f)[i]) == Stage(f, g, i + 1)
  {
    hide Fold, StrLen, CStr, Padded, SetName, Optional, MsgOf, CodeOf;
    var h := Stage(f, g, i);
    if i == 0 {
      FoldOptional(h, f.msg != INVALID, MSG_OP, [CodeOf(f.msg)]);
    } else if i == 1 {
      NameRead(f.name);
      CStrLength(f.name);
      FoldOptional(h, CStr(f.name) != [], HST_NAME_OP, CStr(f.name));
    } else if i == 2 {
      assert ([1] + f.cltId)[..6] == [1] + f.cltId[..5];
      FoldOptional(h, f.cltId != NO_MAC, CLT_ID_OP, [1] + f.cltId);
    } else {
      FoldOptional(h, f.subMsk != ZERO, SUB_MSK_OP, f.subMsk);
    }
  }

  /** A word as payload: well formed, and stored in the field of its code. */
  lemma WordOption(h: Fields, code: byte, w: word)
    requires code in {RTR_ID_OP, RNW_TIME_OP, RBN_TIME_OP, IP_LEASE_TIME_OP, SRV_ID_OP, DNS_OP}
    ensures WellFormed(Tlv(code, w))
    ensures Apply(h, Tlv(code, w)) ==
            if code == RTR_ID_OP || code == RNW_TIME_OP then h.(rtrId := w)
            else if code == SRV_ID_OP then h.(srvId := w)
            else if code == DNS_OP then h.(dnsId := w)
            else h
  {
  }

  lemma StageNextHigh(f: Fields, g: Fields, i: nat)
    requires 4 <= i < 10
    ensures AllWellFormed(Slots(f)[i])
    ensures Fold(Stage(f, g, i), Slots(f)[i]) == Stage(f, g, i + 1)
  {
    hide Fold, StrLen, CStr, Padded, Optional, CodeOf, WellFormed, AllWellFormed, Apply;
    var h := Stage(f, g, i);
    if i == 4 {
      WordOption(h, RTR_ID_OP, f.rtrId);
      FoldOptional(h, f.rtrId != ZERO, RTR_ID_OP, f.rtrId);
    } else if i == 5 {
      WordOption(h, RNW_TIME_OP, f.rnwTime);
      FoldOptional(h, f.rnwTime != ZERO, RNW_TIME_OP, f.rnwTime);
    } else if i == 6 {
      WordOption(h, RBN_TIME_OP, f.rbnTime);
      FoldOptional(h, f.rbnTime != ZERO, RBN_TIME_OP, f.rbnTime);
    } else if i == 7 {
      WordOption(h, IP_LEASE_TIME_OP, f.leaseTime);
      FoldOptional(h, f.leaseTime != ZERO, IP_LEASE_TIME_OP, f.leaseTime);
    } else if i == 8 {
      WordOption(h, SRV_ID_OP, f.srvId);
      FoldOptional(h, f.srvId != ZERO, SRV_ID_OP, f.srvId);
    } else {
      WordOption(h, DNS_OP, f.dnsId);
      FoldOptional(h, f.dnsId != ZERO, DNS_OP, f.dnsId);
    }
  }

  lemma CStrLength(s: seq<byte>)
    ensures |CStr(s)| == StrLen(s)
  {
  }

  lemma {:induction false} StageIsFold(f: Fields, g: Fields, i: nat)
    requires i <= 10 && StrLen(f.name) <= 253
    ensures AllWellFormed(Flatten(Slots(f)[..i]))
    ensures Fold(Cleared(g, true), Flatten(Slots(f)[..i])) == Stage(f, g, i)
  {
    if i > 0 {
      hide Fold, Slots, Stage, AllWellFormed, StrLen;
      StageIsFold(f, g, i - 1);
      StageNext(f, g, i - 1);
      assert Slots(f)[..i][..i - 1] == Slots(f)[..i - 1] by { assert |Slots(f)| == 10 by { SlotLengths(f); } }
      FoldAppend(Cleared(g, true), Flatten(Slots(f)[..i - 1]), Slots(f)[i - 1]);
    }
  }

  /** The option bytes after the cookie, as the writer leaves them in front of tail. */
  function Written(f: Fields, tail: seq<byte>): seq<byte> {
    EncAll(Tokens(f)) + [END_OP] + tail
  }

  /** The exact round trip: for every struct with a host name of at most 253 bytes, whatever stands
      behind the END and whatever the struct read into held. */
  lemma RoundTrip(f: Fields, g: Fields, tail: seq<byte>)
    requires StrLen(f.name) <= 253
    ensures Readable(Written(f, tail))
    ensures Read(Cleared(g, true), Written(f, tail)) == Expected(f, g)
  {
    hide Fold, EncAll, Flatten, AllWellFormed, Readable, Read, Visited, Boundaries, StrLen, Padded, Optional;
    StageIsFold(f, g, 10);
    assert Slots(f)[..10] == Slots(f);
    ReaderRefinesFold(Cleared(g, true), Tokens(f), tail, 0);
  }

  /** The header the writer leaves holds the cookie and those bytes. */
  lemma WrittenInHeader(before: image, f: Fields)
    requires |Encode(f)| <= OPT_MAX_L
    ensures var m := Splice(before, OPT, Encode(f));
            m[OPT..OPT + 4] == COOKIE && m[OPT + 4..] == Written(f, before[OPT + |Encode(f)|..])
            && m[..OPT] == before[..OPT]
  {
    hide EncAll, Tokens;
  }

  // ------------------------------------------------- names that do not fit the reader

  /** Nothing that the reader stores comes after the host name. */
  predicate NothingAfterName(f: Fields) {
    f.cltId == NO_MAC && f.subMsk == f.rtrId == f.rnwTime == f.srvId == f.dnsId == ZERO
  }

  /** The reader ends, and its result is the expected one. */
  predicate RoundTrips(f: Fields, g: Fields, tail: seq<byte>) {
    Readable(Written(f, tail)) && Read(Cleared(g, true), Written(f, tail)) == Expected(f, g)
  }

  lemma FlattenSuffix(slots: seq<seq<Tok>>, i: nat) returns (x: seq<Tok>)
    requires i <= |slots|
    ensures Flatten(slots) == Flatten(slots[..i]) + x
    decreases |slots|
  {
    if i == |slots| {
      assert slots[..i] == slots;
      x := [];
    } else {
      var y := FlattenSuffix(slots[..|slots| - 1], i);
      assert slots[..|slots| - 1][..i] == slots[..i];
      x := y + slots[|slots| - 1];
    }
  }

  function MsgSlot(f: Fields): seq<Tok> {
    Optional(f.msg != INVALID, MSG_OP, [CodeOf(f.msg)])
  }

  function NameTok(f: Fields): Tok {
    Tlv(HST_NAME_OP, CStr(f.name))
  }

  /** The writer's output splits at the host name option. */
  lemma SplitAtName(f: Fields, tail: seq<byte>) returns (rest: seq<byte>)
    requires StrLen(f.name) > 0
    ensures Written(f, tail) == EncAll(MsgSlot(f)) + (Enc(NameTok(f)) + rest)
    ensures rest != []
  {
    hide EncAll, Optional, StrLen, Enc;
    var slots := Slots(f);
    var x := FlattenSuffix(slots, 2);
    assert slots[..2] == [slots[0], slots[1]];
    assert slots[..2][..1] == [slots[0]] && [slots[0]][..0] == [];
    assert [slots[0]] == slots[..1];
    assert Flatten(slots[..1]) == slots[0];
    assert Flatten(slots[..2]) == slots[0] + slots[1];
    CStrLength(f.name);
    assert slots[1] == [NameTok(f)] by { OptionalOn(HST_NAME_OP, CStr(f.name)); }
    EncAllAppend(slots[0] + slots[1], x);
    EncAllAppend(slots[0], slots[1]);
    EncAllCons([NameTok(f)]);
    EncAllNil();
    assert [NameTok(f)][1..] == [];
    assert Enc(NameTok(f)) + [] == Enc(NameTok(f));
    rest := EncAll(x) + [END_OP] + tail;
  }

  lemma OptionalOn(code: byte, payload: seq<byte>)
    ensures Optional(true, code, payload) == [Tlv(code, payload)]
  {
  }

  /** The reader gets over the message type option, if there is one. */
  lemma OverMsg(f: Fields, g: Fields, ahead: seq<byte>)
    ensures Readable(EncAll(MsgSlot(f)) + ahead) <==> Readable(ahead)
    ensures Readable(ahead) ==> Read(Cleared(g, true), EncAll(MsgSlot(f)) + ahead) == Read(Stage(f, g, 1), ahead)
  {
    hide EncAll;
    EncAllNil();
    assert [] + ahead == ahead;
    if f.msg != INVALID {
      var t := Tlv(MSG_OP, [CodeOf(f.msg)]);
      EncAllCons([t]);
      assert [t][1..] == [] && Enc(t) + [] == Enc(t);
      StepOverOption(Cleared(g, true), t, ahead);
    }
  }

  /** No read leaves more than 255 bytes in the name buffer. */
  lemma {:induction false} NameStaysShort(f: Fields, s: seq<byte>)
    requires Readable(s) && f.name[255] == 0
    ensures Read(f, s).name[255] == 0
    decreases |s|
  {
    if s[0] != END_OP {
      assert Effect(f, s).name[255] == 0;
      NameStaysShort(Effect(f, s), s[Advance(s)..]);
    }
  }

  /** A host name of 254 bytes: the reader never gets past it. */
  lemma NameOf254(f: Fields, rest: seq<byte>)
    requires |CStr(f.name)| == 254
    ensures !Readable(Enc(NameTok(f)) + rest)
  {
    hide CStr;
    var s := Enc(NameTok(f)) + rest;
    assert s[0] == HST_NAME_OP && s[1] == 254;
  }

  /** A host name of 255 bytes: its length byte is taken for the END. */
  lemma NameOf255(h: Fields, f: Fields, rest: seq<byte>)
    requires |CStr(f.name)| == 255
    ensures var s := Enc(NameTok(f)) + rest;
            Readable(s) && Read(h, s) == h.(name := SetName(h.name, CStr(f.name)))
  {
    hide CStr, SetName;
    var s := Enc(NameTok(f)) + rest;
    assert s[0] == HST_NAME_OP && s[1] == 255;
    assert s[2..257] == CStr(f.name);
    assert s[1..][0] == END_OP;
  }

  lemma NamedIsExpected(f: Fields, g: Fields)
    ensures Stage(f, g, 2) == Expected(f, g) <==> NothingAfterName(f)
  {
    hide Padded, CStr, StrLen;
    assert f.cltId != NO_MAC ==> ([1] + f.cltId[..5])[0] == 1 != NO_MAC[0];
  }

  lemma PaddedAt(name: nameBuffer, i: nat)
    requires i < StrLen(name)
    ensures Padded(name)[i] == name[i] != 0
  {
  }

  /** The host names that get through the reader: those of at most 253 bytes, and those of 255 behind
      which the writer puts nothing the reader would store. */
  predicate NamePasses(f: Fields) {
    StrLen(f.name) <= 253 || (StrLen(f.name) == 255 && NothingAfterName(f))
  }

  /** What is known of the read of a name that does not pass: it never ends, or the name it leaves is
      too short, or it stops behind the name and misses the rest. */
  lemma LongNames(f: Fields, g: Fields, tail: seq<byte>)
    requires 254 <= StrLen(f.name) < MAX_HOST_NAME && Readable(Written(f, tail))
    ensures var r := Read(Cleared(g, true), Written(f, tail));
            && StrLen(f.name) != 254
            && (StrLen(f.name) == 255 ==> r == Stage(f, g, 2))
            && (StrLen(f.name) > 255 ==> r.name[255] == 0)
  {
    hide StrLen, CStr, EncAll, Tokens, Enc, Padded, SetName, Readable, Read, MsgSlot, NameTok, Written;
    var rest := SplitAtName(f, tail);
    OverMsg(f, g, Enc(NameTok(f)) + rest);
    CStrLength(f.name);
    if StrLen(f.name) == 254 {
      NameOf254(f, rest);
    } else if StrLen(f.name) == 255 {
      NameOf255(Stage(f, g, 1), f, rest);
      NameRead(f.name);
    } else {
      NameStaysShort(Stage(f, g, 1), Enc(NameTok(f)) + rest);
    }
  }

  lemma NameOf255Read(f: Fields, g: Fields, tail: seq<byte>)
    requires StrLen(f.name) == 255
    ensures Readable(Written(f, tail))
  {
    hide StrLen, CStr, EncAll, Tokens, Enc, Padded, SetName, Readable, Read, MsgSlot, NameTok, Written;
    var rest := SplitAtName(f, tail);
    OverMsg(f, g, Enc(NameTok(f)) + rest);
    CStrLength(f.name);
    NameOf255(Stage(f, g, 1), f, rest);
  }

  /** The round trip of the option bytes, exactly. */
  lemma RoundTripExactly(f: Fields, g: Fields, tail: seq<byte>)
    requires StrLen(f.name) < MAX_HOST_NAME
    ensures RoundTrips(f, g, tail) <==> NamePasses(f)
  {
    hide StrLen, Padded, Readable, Read, Written, NothingAfterName;
    if StrLen(f.name) <= 253 {
      RoundTrip(f, g, tail);
    } else {
      if StrLen(f.name) == 255 {
        NameOf255Read(f, g, tail);
        NamedIsExpected(f, g);
      }
      if Readable(Written(f, tail)) {
        LongNames(f, g, tail);
        if StrLen(f.name) > 255 {
          PaddedAt(f.name, 255);
        }
      }
    }
  }

  // ------------------------------------------------- round trips through a header

  /** A header after the writer has put its options there. */
  function HeaderWith(before: image, f: Fields): image
    requires EndOffset(f) < OPT_MAX_L
  {
    WriterLayout(f);
    Splice(before, OPT, Encode(f))
  }

  /** The reader comes to an END in the header and makes these fields of it. */
  predicate ReadsAs(m: image, g: Fields, e: Fields) {
    Readable(m[OPT + 4..]) && Read(Cleared(g, m[OPT..OPT + 4] == COOKIE), m[OPT + 4..]) == e
  }

  /** Through any header in which the options fit, the exact round trip holds if and only if the name
      passes. */
  lemma HeaderRoundTripExactly(before: image, f: Fields, g: Fields)
    requires StrLen(f.name) < MAX_HOST_NAME && EndOffset(f) < OPT_MAX_L
    ensures ReadsAs(HeaderWith(before, f), g, Expected(f, g)) <==> NamePasses(f)
  {
    hide StrLen, Readable, Read, Written, EndOffset, Encode, Expected, NamePasses, Splice;
    WriterLayout(f);
    WrittenInHeader(before, f);
    RoundTripExactly(f, g, before[OPT + |Encode(f)|..]);
  }

  /** In particular it holds for every struct with a host name of at most 251 bytes, whatever else is
      set and whatever the header held: all of them fit. */
  lemma HeaderRoundTrip(before: image, f: Fields, g: Fields)
    requires StrLen(f.name) <= 251
    ensures EndOffset(f) < OPT_MAX_L
    ensures ReadsAs(HeaderWith(before, f), g, Expected(f, g))
  {
    hide Readable, Read, EndOffset, Encode, Expected, ReadsAs, HeaderWith;
    WriterLayout(f);
    HeaderRoundTripExactly(before, f, g);
  }

  // ------------------------------------------------- when nothing at all is lost

  /** Two records that agree on every option. */
  predicate SameOptions(f: Fields, e: Fields) {
    && e.msg == f.msg && CStr(e.name) == CStr(f.name) && e.cltId == f.cltId && e.subMsk == f.subMsk
    && e.rnwTime == f.rnwTime && e.rbnTime == f.rbnTime && e.leaseTime == f.leaseTime
    && e.srvId == f.srvId && e.rtrId == f.rtrId && e.rqtId == f.rqtId && e.dnsId == f.dnsId
  }

  /** The writer's output is read to an END, and every option comes back as it was. */
  predicate Restored(f: Fields, g: Fields, tail: seq<byte>) {
    Readable(Written(f, tail)) && SameOptions(f, Read(Cleared(g, true), Written(f, tail)))
  }

  /** No time and no requested address is set, the client id survives its type byte, and the lease
      time is the one the struct read into has already. */
  predicate NothingToLose(f: Fields, g: Fields) {
    && (f.cltId == NO_MAC || f.cltId == [1, 1, 1, 1, 1, 1])
    && f.rnwTime == f.rbnTime == f.rqtId == ZERO
    && f.leaseTime == g.leaseTime
  }

  lemma CStrOfPadded(name: nameBuffer)
    ensures CStr(Padded(name)) == CStr(name)
  {
    var p := Padded(name);
    assert forall i :: 0 <= i < StrLen(name) ==> p[i] == name[i];
    StrLenIs(p, StrLen(name));
  }

  lemma ShiftedMac(c: mac)
    ensures [1] + c[..5] == c <==> c == [1, 1, 1, 1, 1, 1]
  {
    var d: mac := [1] + c[..5];
    assert d[0] == 1 && d[1] == c[0] && d[2] == c[1] && d[3] == c[2] && d[4] == c[3] && d[5] == c[4];
  }

  lemma ExpectedIsSame(f: Fields, g: Fields)
    ensures SameOptions(f, Expected(f, g)) <==> NothingToLose(f, g)
  {
    hide CStr, Padded;
    CStrOfPadded(f.name);
    ShiftedMac(f.cltId);
  }

  /** Behind a name of 255 bytes every field is blank, so only a record blank there is the same. */
  lemma NamedIsSame(f: Fields, g: Fields)
    ensures SameOptions(f, Stage(f, g, 2)) <==> NothingAfterName(f) && NothingToLose(f, g)
  {
    hide CStr, Padded;
    CStrOfPadded(f.name);
  }

  lemma ShortName(n: nameBuffer)
    requires n[255] == 0
    ensures |CStr(n)| <= 255
  {
  }

  /** The writer and the reader are inverse exactly on the structs whose name passes and that have
      nothing to lose. */
  lemma InverseExactly(f: Fields, g: Fields, tail: seq<byte>)
    requires StrLen(f.name) < MAX_HOST_NAME
    ensures Restored(f, g, tail) <==> NamePasses(f) && NothingToLose(f, g)
  {
    hide StrLen, CStr, Readable, Read, Written, NothingAfterName, NothingToLose, Expected, Stage;
    if StrLen(f.name) <= 253 {
      RoundTrip(f, g, tail);
      ExpectedIsSame(f, g);
    } else {
      CStrLength(f.name);
      if StrLen(f.name) == 255 {
        NameOf255Read(f, g, tail);
        NamedIsSame(f, g);
      }
      if Readable(Written(f, tail)) {
        LongNames(f, g, tail);
        if StrLen(f.name) > 255 {
          ShortName(Read(Cleared(g, true), Written(f, tail)).name);
        }
      }
    }
  }

  /** The same through any header in which the options fit. */
  lemma HeaderInverseExactly(before: image, f: Fields, g: Fields)
    requires StrLen(f.name) < MAX_HOST_NAME && EndOffset(f) < OPT_MAX_L
    ensures var m := HeaderWith(before, f);
            Readable(m[OPT + 4..]) && SameOptions(f, Read(Cleared(g, m[OPT..OPT + 4] == COOKIE), m[OPT + 4..]))
            <==> NamePasses(f) && NothingToLose(f, g)
  {
    hide StrLen, Readable, Read, Written, EndOffset, Encode, NamePasses, NothingToLose, SameOptions, Splice;
    WriterLayout(f);
    WrittenInHeader(before, f);
    InverseExactly(f, g, before[OPT + |Encode(f)|..]);
  }
}
