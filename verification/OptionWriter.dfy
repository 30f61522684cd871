// set_dhcp_hdr_from_dhcp_opt: what the option writer puts into a header.
module OptionWriter {
  import opened Bytes
  import opened OptionFormat

  /** An option that is only written when its field is set. */
  function Optional(on: bool, code: byte, payload: seq<byte>): seq<Tok> {
    if on then [Tlv(code, payload)] else []
  }

  /** What the writer sends for each field, in its order. The requested address is not among them:
      the flag that would let it be written is never set. */
  function Slots(f: Fields): seq<seq<Tok>> {
    [Optional(f.msg != INVALID, MSG_OP, [CodeOf(f.msg)]),
     Optional(CStr(f.name) != [], HST_NAME_OP, CStr(f.name)),
     Optional(f.cltId != NO_MAC, CLT_ID_OP, [1] + f.cltId),
     Optional(f.subMsk != ZERO, SUB_MSK_OP, f.subMsk),
     Optional(f.rtrId != ZERO, RTR_ID_OP, f.rtrId),
     Optional(f.rnwTime != ZERO, RNW_TIME_OP, f.rnwTime),
     Optional(f.rbnTime != ZERO, RBN_TIME_OP, f.rbnTime),
     Optional(f.leaseTime != ZERO, IP_LEASE_TIME_OP, f.leaseTime),
     Optional(f.srvId != ZERO, SRV_ID_OP, f.srvId),
     Optional(f.dnsId != ZERO, DNS_OP, f.dnsId)]
  }

  function Flatten(slots: seq<seq<Tok>>): seq<Tok> {
    if slots == [] then [] else Flatten(slots[..|slots| - 1]) + slots[|slots| - 1]
  }

  function Tokens(f: Fields): seq<Tok> {
    Flatten(Slots(f))
  }

  /** The bytes the writer leaves at the start of the option array. */
  function Encode(f: Fields): seq<byte> {
    COOKIE + EncAll(Tokens(f)) + [END_OP]
  }

  lemma FlattenNil()
    ensures EncAll(Flatten([])) == []
  {
  }

  lemma FlattenNext(slots: seq<seq<Tok>>, i: nat)
    requires i < |slots|
    ensures EncAll(Flatten(slots[..i + 1])) == EncAll(Flatten(slots[..i])) + EncAll(slots[i])
  {
    assert slots[..i + 1][..i] == slots[..i];
    EncAllAppend(Flatten(slots[..i]), slots[i]);
  }

  lemma {:induction false} FlattenPrefix(slots: seq<seq<Tok>>, i: nat)
    requires i <= |slots|
    ensures |EncAll(Flatten(slots[..i]))| <= |EncAll(Flatten(slots))|
    decreases |slots| - i
  {
    if i == |slots| {
      assert slots[..i] == slots;
    } else {
      hide *;
      FlattenNext(slots, i);
      FlattenPrefix(slots, i + 1);
    }
  }

  // ------------------------------------------------- where the END goes

  function When(on: bool, n: nat): (m: nat)
    ensures m <= n
  {
    if on then n else 0
  }

  /** Offset of the END in the option array. */
  function EndOffset(f: Fields): nat {
    4 + When(f.msg != INVALID, 3)
      + When(CStr(f.name) != [], 2 + |CStr(f.name)|)
      + When(f.cltId != NO_MAC, 9)
      + When(f.subMsk != ZERO, 6) + When(f.rtrId != ZERO, 6) + When(f.rnwTime != ZERO, 6)
      + When(f.rbnTime != ZERO, 6) + When(f.leaseTime != ZERO, 6)
      + When(f.srvId != ZERO, 6) + When(f.dnsId != ZERO, 6)
  }

  lemma OptionalLength(on: bool, code: byte, payload: seq<byte>)
    ensures |EncAll(Optional(on, code, payload))| == When(on, 2 + |payload|)
  {
    assert EncAll([]) == [];
    if on {
      var t := Tlv(code, payload);
      EncAllCons([t]);
      assert [t][1..] == [];
    }
  }

  /** The bytes of ten slots are as many as those of each. */
  lemma TenSlots(s: seq<seq<Tok>>)
    requires |s| == 10
    ensures |EncAll(Flatten(s))|
            == |EncAll(s[0])| + |EncAll(s[1])| + |EncAll(s[2])| + |EncAll(s[3])| + |EncAll(s[4])|
               + |EncAll(s[5])| + |EncAll(s[6])| + |EncAll(s[7])| + |EncAll(s[8])| + |EncAll(s[9])|
  {
    hide *;
    FlattenNil();
    assert s[..0] == [] && s[..10] == s;
    FlattenNext(s, 0);
    FlattenNext(s, 1);
    FlattenNext(s, 2);
    FlattenNext(s, 3);
    FlattenNext(s, 4);
    FlattenNext(s, 5);
    FlattenNext(s, 6);
    FlattenNext(s, 7);
    FlattenNext(s, 8);
    FlattenNext(s, 9);
  }

  lemma SlotLengths(f: Fields)
    ensures |Slots(f)| == 10
    ensures |EncAll(Slots(f)[0])| == When(f.msg != INVALID, 3)
    ensures |EncAll(Slots(f)[1])| == When(CStr(f.name) != [], 2 + |CStr(f.name)|)
    ensures |EncAll(Slots(f)[2])| == When(f.cltId != NO_MAC, 9)
    ensures |EncAll(Slots(f)[3])| == When(f.subMsk != ZERO, 6)
    ensures |EncAll(Slots(f)[4])| == When(f.rtrId != ZERO, 6)
    ensures |EncAll(Slots(f)[5])| == When(f.rnwTime != ZERO, 6)
    ensures |EncAll(Slots(f)[6])| == When(f.rbnTime != ZERO, 6)
    ensures |EncAll(Slots(f)[7])| == When(f.leaseTime != ZERO, 6)
    ensures |EncAll(Slots(f)[8])| == When(f.srvId != ZERO, 6)
    ensures |EncAll(Slots(f)[9])| == When(f.dnsId != ZERO, 6)
  {
    hide EncAll, CodeOf, Optional, CStr, When;
    OptionalLength(f.msg != INVALID, MSG_OP, [CodeOf(f.msg)]);
    OptionalLength(CStr(f.name) != [], HST_NAME_OP, CStr(f.name));
    OptionalLength(f.cltId != NO_MAC, CLT_ID_OP, [1] + f.cltId);
    OptionalLength(f.subMsk != ZERO, SUB_MSK_OP, f.subMsk);
    OptionalLength(f.rtrId != ZERO, RTR_ID_OP, f.rtrId);
    OptionalLength(f.rnwTime != ZERO, RNW_TIME_OP, f.rnwTime);
    OptionalLength(f.rbnTime != ZERO, RBN_TIME_OP, f.rbnTime);
    OptionalLength(f.leaseTime != ZERO, IP_LEASE_TIME_OP, f.leaseTime);
    OptionalLength(f.srvId != ZERO, SRV_ID_OP, f.srvId);
    OptionalLength(f.dnsId != ZERO, DNS_OP, f.dnsId);
  }

  lemma TokensLength(f: Fields)
    ensures |EncAll(Tokens(f))| + 4 == EndOffset(f)
  {
    hide EncAll, Tokens, Flatten, Slots, CStr, When, Optional;
    SlotLengths(f);
    TenSlots(Slots(f));
    TokensAre(f);
  }

  lemma TokensAre(f: Fields)
    ensures Tokens(f) == Flatten(Slots(f))
  {
    hide Slots, Flatten;
  }

  /** The END stands at the offset that the set fields and the host name length give; so every
      write stays inside the 312 bytes for every host name of at most 251 bytes. */
  lemma WriterLayout(f: Fields)
    ensures |Encode(f)| == EndOffset(f) + 1
    ensures Encode(f)[..4] == [99, 130, 83, 99] && Encode(f)[EndOffset(f)] == 255
    ensures StrLen(f.name) <= 251 ==> |Encode(f)| <= 312
  {
    hide EncAll, Tokens, When, StrLen;
    TokensLength(f);
  }

  // ------------------------------------------------- what the writer sends

  function IfSet(w: word): Option<seq<byte>> {
    if w == ZERO then None else Some(w)
  }

  /** What a record has to say under a code of RFC 2132. The client id goes out behind the type byte
      for Ethernet; the requested address does not go out. */
  function Field(f: Fields, code: byte): Option<seq<byte>> {
    match code
    case 1 => IfSet(f.subMsk)
    case 3 => IfSet(f.rtrId)
    case 6 => IfSet(f.dnsId)
    case 12 => if f.name[0] == 0 then None else Some(CStr(f.name))
    case 51 => IfSet(f.leaseTime)
    case 53 =>
      (match f.msg
       case DISCOVER => Some([1])
       case OFFER => Some([2])
       case REQUEST => Some([3])
       case DECLINE => Some([4])
       case ACK => Some([5])
       case NAK => Some([6])
       case RELEASE => Some([7])
       case INFORM => Some([8])
       case INVALID => None)
    case 54 => IfSet(f.srvId)
    case 58 => IfSet(f.rnwTime)
    case 59 => IfSet(f.rbnTime)
    case 61 => if f.cltId == [0, 0, 0, 0, 0, 0] then None else Some([1] + f.cltId)
    case _ => None
  }

  lemma LastSlot(slots: seq<seq<Tok>>, i: nat, on: bool, code: byte, payload: seq<byte>, c: byte)
    requires i < |slots| && slots[i] == Optional(on, code, payload)
    ensures Last(Flatten([]), {c}) == None
    ensures Last(Flatten(slots[..i + 1]), {c})
            == if on && c == code then Some(payload) else Last(Flatten(slots[..i]), {c})
  {
    hide Last;
    assert slots[..i + 1][..i] == slots[..i];
    LastSingle(Tlv(code, payload), {c});
    LastAppend(Flatten(slots[..i]), slots[i], {c});
  }

  /** The codes of the first five slots. */
  lemma LastOfFront(f: Fields, code: byte)
    ensures |Slots(f)| == 10
    ensures Last(Flatten(Slots(f)[..5]), {code}) == if code in {53, 12, 61, 1, 3} then Field(f, code) else None
  {
    NameAndType(f);
    hide Last, Flatten, Optional, CStr, CodeOf;
    var s := Slots(f);
    assert s[..0] == [];
    LastSlot(s, 0, f.msg != INVALID, MSG_OP, [CodeOf(f.msg)], code);
    LastSlot(s, 1, CStr(f.name) != [], HST_NAME_OP, CStr(f.name), code);
    LastSlot(s, 2, f.cltId != NO_MAC, CLT_ID_OP, [1] + f.cltId, code);
    LastSlot(s, 3, f.subMsk != ZERO, SUB_MSK_OP, f.subMsk, code);
    LastSlot(s, 4, f.rtrId != ZERO, RTR_ID_OP, f.rtrId, code);
  }

  lemma LastOfTokens(f: Fields, code: byte)
    ensures Last(Tokens(f), {code}) == Field(f, code)
  {
    LastOfFront(f, code);
    hide Last, Flatten, Optional, CStr, CodeOf;
    var s := Slots(f);
    assert s[..10] == s;
    LastSlot(s, 5, f.rnwTime != ZERO, RNW_TIME_OP, f.rnwTime, code);
    LastSlot(s, 6, f.rbnTime != ZERO, RBN_TIME_OP, f.rbnTime, code);
    LastSlot(s, 7, f.leaseTime != ZERO, IP_LEASE_TIME_OP, f.leaseTime, code);
    LastSlot(s, 8, f.srvId != ZERO, SRV_ID_OP, f.srvId, code);
    LastSlot(s, 9, f.dnsId != ZERO, DNS_OP, f.dnsId, code);
  }

  lemma NameAndType(f: Fields)
    ensures CStr(f.name) == [] <==> f.name[0] == 0
    ensures Field(f, 53) == if f.msg == INVALID then None else Some([CodeOf(f.msg)])
  {
    hide CStr;
    assert |CStr(f.name)| == StrLen(f.name) by { NameLength(f.name); }
  }

  lemma NameLength(s: seq<byte>)
    ensures |CStr(s)| == StrLen(s)
  {
  }

  /** The place of a code in what the writer sends. */
  function Rank(code: byte): nat {
    match code
    case 53 => 0
    case 12 => 1
    case 61 => 2
    case 1 => 3
    case 3 => 4
    case 58 => 5
    case 59 => 6
    case 51 => 7
    case 54 => 8
    case 6 => 9
    case _ => 10
  }

  /** Options that a reader by length recognises, with the codes of the first n ranks, in order and
      each at most once. */
  predicate InOrder(toks: seq<Tok>, n: nat) {
    && (forall t :: t in toks ==> Delimited(t))
    && (forall i :: 0 <= i < |toks| ==> toks[i].Tlv? && Rank(toks[i].code) < n)
    && (forall i, j :: 0 <= i < j < |toks| ==> toks[i].Tlv? && toks[j].Tlv? && Rank(toks[i].code) < Rank(toks[j].code))
  }

  lemma OptionalInOrder(slots: seq<seq<Tok>>, i: nat, on: bool, code: byte, payload: seq<byte>)
    requires i < |slots| && slots[i] == Optional(on, code, payload) && Rank(code) == i
    requires on ==> Delimited(Tlv(code, payload))
    requires InOrder(Flatten(slots[..i]), i)
    ensures InOrder(Flatten(slots[..i + 1]), i + 1)
  {
    assert slots[..i + 1][..i] == slots[..i];
    hide Rank, Delimited;
  }

  lemma FrontInOrder(f: Fields)
    requires StrLen(f.name) <= 255
    ensures |Slots(f)| == 10 && InOrder(Flatten(Slots(f)[..5]), 5)
  {
    hide Flatten, Optional, CStr, CodeOf, InOrder, StrLen;
    var s := Slots(f);
    assert s[..0] == [];
    NoneInOrder();
    NameLength(f.name);
    OptionalInOrder(s, 0, f.msg != INVALID, MSG_OP, [CodeOf(f.msg)]);
    OptionalInOrder(s, 1, CStr(f.name) != [], HST_NAME_OP, CStr(f.name));
    OptionalInOrder(s, 2, f.cltId != NO_MAC, CLT_ID_OP, [1] + f.cltId);
    OptionalInOrder(s, 3, f.subMsk != ZERO, SUB_MSK_OP, f.subMsk);
    OptionalInOrder(s, 4, f.rtrId != ZERO, RTR_ID_OP, f.rtrId);
  }

  lemma TokensInOrder(f: Fields)
    requires StrLen(f.name) <= 255
    ensures InOrder(Tokens(f), 10)
  {
    hide Flatten, Optional, CStr, CodeOf, InOrder, StrLen;
    var s := Slots(f);
    assert s[..10] == s;
    FrontInOrder(f);
    OptionalInOrder(s, 5, f.rnwTime != ZERO, RNW_TIME_OP, f.rnwTime);
    OptionalInOrder(s, 6, f.rbnTime != ZERO, RBN_TIME_OP, f.rbnTime);
    OptionalInOrder(s, 7, f.leaseTime != ZERO, IP_LEASE_TIME_OP, f.leaseTime);
    OptionalInOrder(s, 8, f.srvId != ZERO, SRV_ID_OP, f.srvId);
    OptionalInOrder(s, 9, f.dnsId != ZERO, DNS_OP, f.dnsId);
  }

  lemma NoneInOrder()
    ensures InOrder(Flatten([]), 0)
  {
  }

  lemma WrittenByLength(f: Fields, tail: seq<byte>)
    requires StrLen(f.name) <= 255
    ensures ByLength(EncAll(Tokens(f)) + [255] + tail) == Tokens(f)
    ensures InOrder(Tokens(f), 10)
  {
    hide ByLength, EncAll, Tokens, StrLen, Rank, Delimited;
    TokensInOrder(f);
    ByLengthReads(Tokens(f), tail);
  }

  /** For every code a reader that goes by length finds in the written options what the record has to
      say under it, each code at most once and in the writer's order, for every host name that a length
      byte can describe. */
  lemma FieldsOnTheWire(f: Fields, tail: seq<byte>, code: byte)
    requires StrLen(f.name) <= 255
    ensures var found := ByLength(EncAll(Tokens(f)) + [255] + tail);
            InOrder(found, 10) && Last(found, {code}) == Field(f, code)
  {
    hide Last, ByLength, EncAll, Tokens, Field, StrLen, InOrder;
    WrittenByLength(f, tail);
    LastOfTokens(f, code);
  }
}
