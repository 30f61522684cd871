// set_dhcp_opt_from_dhcp_hdr: the cursor loop that reads the options of a header.
module OptionReader {
  import opened Bytes
  import opened OptionFormat

  // ------------------------------------------------- one step of the loop, on the bytes ahead

  /** How many of the bytes ahead one step looks at. */
  function Touched(s: seq<byte>): nat
    requires s != []
  {
    if s[0] == MSG_OP then 3
    else if s[0] == HST_NAME_OP then 2 + (if |s| < 2 then 0 else s[1])
    else if s[0] == CLT_ID_OP then 2 + ETHER_ADDR_L
    else if CopiesWord(s[0]) then 6
    else 1
  }

  predicate InBounds(s: seq<byte>) {
    s != [] && Touched(s) <= |s|
  }

  /** How far one step moves: dhcp_opt_len, a uint8_t. */
  function Advance(s: seq<byte>): nat
    requires InBounds(s)
  {
    if s[0] == MSG_OP then 3
    else if LengthDriven(s[0]) then (2 + (s[1] as int)) % 256
    else if CopiesWord(s[0]) || s[0] == RBN_TIME_OP || s[0] == IP_LEASE_TIME_OP then 6
    else 1
  }

  /** memcpy of a host name and its terminator over what the buffer held. */
  function SetName(name: nameBuffer, payload: seq<byte>): nameBuffer
    requires |payload| < MAX_HOST_NAME
  {
    Splice(name, 0, payload + [0])
  }

  /** What one step stores. */
  function Effect(f: Fields, s: seq<byte>): Fields
    requires InBounds(s)
  {
    if s[0] == MSG_OP then f.(msg := MsgOf(s[2]))
    else if s[0] == HST_NAME_OP then f.(name := SetName(f.name, s[2..2 + s[1] as int]))
    else if s[0] == CLT_ID_OP then f.(cltId := s[2..8])
    else if s[0] == SUB_MSK_OP then f.(subMsk := s[2..6])
    else if s[0] == RNW_TIME_OP then f.(rtrId := s[2..6])
    else if s[0] == SRV_ID_OP then f.(srvId := s[2..6])
    else if s[0] == RTR_ID_OP then f.(rtrId := s[2..6])
    else if s[0] == RQT_ID_OP then f.(rqtId := s[2..6])
    else if s[0] == DNS_OP then f.(dnsId := s[2..6])
    else f
  }

  /** The loop comes to an END without looking or stepping outside the bytes ahead. */
  predicate Readable(s: seq<byte>)
    decreases |s|
  {
    s != [] &&
    (s[0] == END_OP ||
     (InBounds(s) && 0 < Advance(s) <= |s| && Readable(s[Advance(s)..])))
  }

  /** What the loop makes of the bytes ahead. */
  function Read(f: Fields, s: seq<byte>): Fields
    requires Readable(s)
    decreases |s|
  {
    if s[0] == END_OP then f else Read(Effect(f, s), s[Advance(s)..])
  }

  /** The offsets at which the loop tests for END. */
  function Visited(s: seq<byte>, at: nat): seq<nat>
    requires Readable(s)
    decreases |s|
  {
    [at] + if s[0] == END_OP then [] else Visited(s[Advance(s)..], at + Advance(s))
  }

  /** The fields as the function sets them before the loop; the lease time is left alone. */
  function Cleared(f: Fields, cookieOk: bool): Fields {
    Fields(cookieOk, INVALID, Zeros(MAX_HOST_NAME), NO_MAC, ZERO, ZERO, ZERO, f.leaseTime,
           ZERO, ZERO, ZERO, ZERO)
  }

  // ------------------------------------------------- exactly when the loop ends

  /** A loop state: still at the bytes ahead, done at an END, or outside the array. */
  datatype Loop = At(ahead: seq<byte>) | Done | Outside

  function LoopStep(l: Loop): Loop {
    match l
    case At(s) =>
      if s == [] then Outside
      else if s[0] == END_OP then Done
      else if InBounds(s) && Advance(s) <= |s| then At(s[Advance(s)..])
      else Outside
    case _ => l
  }

  function LoopSteps(l: Loop, n: nat): Loop
    decreases n
  {
    if n == 0 then l else LoopSteps(LoopStep(l), n - 1)
  }

  lemma {:induction false} OutsideStays(n: nat)
    ensures LoopSteps(Outside, n) == Outside
  {
    if n > 0 {
      OutsideStays(n - 1);
    }
  }

  /** Readable means that the loop ends, in at most one step per byte. */
  lemma {:induction false} ReadableEnds(s: seq<byte>)
    requires Readable(s)
    ensures exists n :: 0 <= n <= |s| && LoopSteps(At(s), n) == Done
    decreases |s|
  {
    if s[0] == END_OP {
      assert LoopSteps(LoopStep(At(s)), 0) == Done;
      assert LoopSteps(At(s), 1) == Done;
    } else {
      var rest := s[Advance(s)..];
      ReadableEnds(rest);
      var n :| 0 <= n <= |rest| && LoopSteps(At(rest), n) == Done;
      assert LoopSteps(At(s), n + 1) == Done;
    }
  }

  lemma {:induction false} EndsReadable(s: seq<byte>, n: nat)
    requires LoopSteps(At(s), n) == Done
    ensures Readable(s)
    decreases n
  {
    if n > 0 {
      var next := LoopStep(At(s));
      if next.Outside? {
        OutsideStays(n - 1);
      } else if next.At? {
        EndsReadable(next.ahead, n - 1);
      }
    }
  }

  /** The loop ends inside the array if and only if the bytes are readable. */
  lemma LoopEndsExactly(s: seq<byte>)
    ensures Readable(s) <==> exists n: nat :: LoopSteps(At(s), n) == Done
  {
    if Readable(s) {
      ReadableEnds(s);
    }
    if n: nat :| LoopSteps(At(s), n) == Done {
      EndsReadable(s, n);
    }
  }

  /** A host name, client id, renew time, router or DNS option of length 254 is never left, once it lies
      inside the array. */
  lemma {:induction false} StuckAt254(s: seq<byte>, n: nat)
    requires InBounds(s) && LengthDriven(s[0]) && s[1] == 254
    ensures LoopSteps(At(s), n) == At(s)
  {
    assert s[0..] == s;
    if n > 0 {
      StuckAt254(s, n - 1);
    }
  }

  lemma {:induction false} DoneStays(n: nat)
    ensures LoopSteps(Done, n) == Done
  {
    if n > 0 {
      DoneStays(n - 1);
    }
  }

  lemma {:induction false} StepsAdd(l: Loop, n: nat, m: nat)
    ensures LoopSteps(LoopSteps(l, n), m) == LoopSteps(l, n + m)
    decreases n
  {
    if n > 0 {
      StepsAdd(LoopStep(l), n - 1, m);
    }
  }

  /** The cursor stands at a whole option that it will not leave. */
  predicate Stuck(l: Loop) {
    l.At? && InBounds(l.ahead) && LengthDriven(l.ahead[0]) && l.ahead[1] == 254
  }

  /** A step that does not end the loop either moves the cursor or is stuck. */
  lemma StepMoves(s: seq<byte>)
    requires LoopStep(At(s)).At?
    ensures Stuck(At(s)) || |LoopStep(At(s)).ahead| < |s|
  {
  }

  /** Within one step per byte the fate of the loop is known: it has come to an END, it has left the
      array, or it is stuck. */
  lemma {:induction false} LoopFate(s: seq<byte>) returns (n: nat)
    ensures n <= |s| + 1
    ensures var l := LoopSteps(At(s), n); l.Done? || l.Outside? || Stuck(l)
    decreases |s|
  {
    hide InBounds, LengthDriven, Stuck, LoopStep;
    var next := LoopStep(At(s));
    StepsOne(At(s));
    if Stuck(At(s)) {
      n := 0;
    } else if next.At? {
      StepMoves(s);
      var m := LoopFate(next.ahead);
      StepsAdd(At(s), 1, m);
      n := m + 1;
    } else {
      n := 1;
    }
  }

  lemma StepsOne(l: Loop)
    ensures LoopSteps(l, 0) == l && LoopSteps(l, 1) == LoopStep(l)
  {
  }

  /** Whatever the loop has come to it keeps. */
  lemma FateStays(l: Loop, n: nat, m: nat)
    requires n <= m
    requires var k := LoopSteps(l, n); k.Done? || k.Outside? || Stuck(k)
    ensures LoopSteps(l, m) == LoopSteps(l, n)
  {
    var k := LoopSteps(l, n);
    StepsAdd(l, n, m - n);
    if k.Done? {
      DoneStays(m - n);
    } else if k.Outside? {
      OutsideStays(m - n);
    } else {
      StuckAt254(k.ahead, m - n);
    }
  }

  /** The loop goes on for ever if and only if it reaches a whole length-driven option of length 254. */
  lemma NeverEndsExactly(s: seq<byte>)
    ensures (forall n: nat :: LoopSteps(At(s), n).At?) <==> exists n: nat :: Stuck(LoopSteps(At(s), n))
  {
    var n := LoopFate(s);
    hide LoopSteps, InBounds;
    if m: nat :| Stuck(LoopSteps(At(s), m)) {
      forall i: nat
        ensures LoopSteps(At(s), i).At?
      {
        var top := if i < m then m else i;
        if !LoopSteps(At(s), i).At? {
          FateStays(At(s), i, top);
        }
        FateStays(At(s), m, top);
      }
    }
  }

  /** And it leaves the array if and only if it neither comes to an END nor gets stuck. */
  lemma LeavesExactly(s: seq<byte>)
    ensures (exists n: nat :: LoopSteps(At(s), n) == Outside)
            <==> !Readable(s) && !exists n: nat :: Stuck(LoopSteps(At(s), n))
  {
    var n := LoopFate(s);
    LoopEndsExactly(s);
    hide LoopSteps, InBounds, Readable;
    if m: nat :| LoopSteps(At(s), m) == Outside {
      forall i: nat
        ensures !LoopSteps(At(s), i).Done? && !Stuck(LoopSteps(At(s), i))
      {
        var top := if i < m then m else i;
        FateStays(At(s), m, top);
        if LoopSteps(At(s), i).Done? || Stuck(LoopSteps(At(s), i)) {
          FateStays(At(s), i, top);
        }
      }
    }
  }

  // ------------------------------------------------- the steps in numbers

  /** A step over an option: the loop comes to what stands behind the payload, and the payload is in
      the field of its code. The length byte n counts for the codes 3, 6, 12, 58 and 61 only. */
  lemma OptionCrossed(f: Fields, code: byte, n: byte, p: seq<byte>, rest: seq<byte>)
    requires code in {3, 6, 12, 58, 61} ==> n == |p| <= 253
    requires match code
             case 3 | 6 | 58 => 4 <= |p|
             case 12 => true
             case 61 => 6 <= |p|
             case 53 => |p| == 1
             case 1 | 50 | 51 | 54 | 59 => |p| == 4
             case _ => false
    ensures var s := [code, n] + p + rest;
            && LoopStep(At(s)) == At(rest) && InBounds(s)
            && match code
               case 1 => Effect(f, s) == f.(subMsk := p)
               case 3 | 58 => Effect(f, s) == f.(rtrId := p[..4])
               case 6 => Effect(f, s) == f.(dnsId := p[..4])
               case 12 => Effect(f, s) == f.(name := p + [0] + f.name[|p| + 1..])
               case 50 => Effect(f, s) == f.(rqtId := p)
               case 53 => Effect(f, s) == f.(msg := MsgOf(p[0]))
               case 54 => Effect(f, s) == f.(srvId := p)
               case 61 => Effect(f, s) == f.(cltId := p[..6])
               case _ => Effect(f, s) == f
  {
    var s := [code, n] + p + rest;
    assert s[0] == code && s[1] == n && s[2..2 + |p|] == p;
    assert s[2 + |p|..] == rest;
    assert |p| >= 4 ==> s[2..6] == p[..4];
    assert |p| >= 6 ==> s[2..8] == p[..6];
    assert |p| == 4 ==> p[..4] == p;
    assert |p| >= 1 ==> s[2] == p[0];
  }

  /** Behind the codes whose length counts, a length of 254 keeps the loop where it is, and one of 255
      moves it to its own length byte. */
  lemma LongOption(s: seq<byte>)
    requires |s| >= 2 && s[0] in {3, 6, 12, 58, 61} && s[1] in {254, 255}
    requires |s| >= if s[0] == 12 then 2 + (s[1] as int) else if s[0] == 61 then 8 else 6
    ensures LoopStep(At(s)) == if s[1] == 254 then At(s) else At(s[1..])
  {
    assert s[0..] == s;
  }

  /** An option shorter than what is copied from it gives the field bytes of what follows, and the loop
      goes on behind its payload all the same. */
  lemma ShortOption(f: Fields, s: seq<byte>)
    requires |s| >= 2 && s[0] in {3, 6, 58, 61}
    requires if s[0] == 61 then s[1] < 6 && |s| >= 8 else s[1] < 4 && |s| >= 6
    ensures LoopStep(At(s)) == At(s[2 + (s[1] as int)..]) && InBounds(s)
    ensures match s[0]
            case 61 => Effect(f, s) == f.(cltId := s[2..8])
            case 6 => Effect(f, s) == f.(dnsId := s[2..6])
            case _ => Effect(f, s) == f.(rtrId := s[2..6])
  {
  }

  /** Any other byte than 255 is stepped over by itself; 255 ends the loop. */
  lemma OneByte(f: Fields, b: byte, rest: seq<byte>)
    requires b !in {1, 3, 6, 12, 50, 51, 53, 54, 58, 59, 61}
    ensures LoopStep(At([b] + rest)) == if b == 255 then Done else At(rest)
    ensures b != 255 ==> Effect(f, [b] + rest) == f
    ensures LoopStep(At([])) == Outside
  {
    assert ([b] + rest)[1..] == rest;
  }

  /** An option whose end is cut off takes the loop out of the array. */
  lemma CutOff(s: seq<byte>)
    requires s != []
    requires match s[0]
             case 53 => |s| < 3
             case 12 => |s| < 2 || |s| < 2 + (s[1] as int)
             case 61 => |s| < 8 || |s| < (2 + (s[1] as int)) % 256
             case 3 | 6 | 58 => |s| < 6 || |s| < (2 + (s[1] as int)) % 256
             case 1 | 50 | 51 | 54 | 59 => |s| < 6
             case _ => false
    ensures LoopStep(At(s)) == Outside
  {
  }

  // ------------------------------------------------- what the reader makes of a list of options

  /** What one option of a list stores. */
  function Apply(f: Fields, t: Tok): Fields
    requires WellFormed(t)
  {
    match t
    case Pad(_) => f
    case Tlv(code, p) =>
      if code == MSG_OP then f.(msg := MsgOf(p[0]))
      else if code == HST_NAME_OP then f.(name := SetName(f.name, p))
      else if code == CLT_ID_OP then f.(cltId := p[..ETHER_ADDR_L])
      else if code == SUB_MSK_OP then f.(subMsk := p)
      else if code == RNW_TIME_OP || code == RTR_ID_OP then f.(rtrId := p[..4])
      else if code == SRV_ID_OP then f.(srvId := p)
      else if code == RQT_ID_OP then f.(rqtId := p)
      else if code == DNS_OP then f.(dnsId := p[..4])
      else f
  }

  function Fold(f: Fields, toks: seq<Tok>): Fields
    requires AllWellFormed(toks)
    decreases |toks|
  {
    if toks == [] then f
    else
      assert WellFormed(toks[0]);
      assert forall i :: 0 <= i < |toks[1..]| ==> toks[1..][i] == toks[i + 1];
      Fold(Apply(f, toks[0]), toks[1..])
  }

  /** One step crosses one option, whatever bytes its payload holds. */
  lemma StepOverOption(f: Fields, t: Tok, rest: seq<byte>)
    requires WellFormed(t)
    ensures var s := Enc(t) + rest;
            && s[0] != END_OP && InBounds(s) && Advance(s) == |Enc(t)|
            && s[Advance(s)..] == rest
            && Effect(f, s) == Apply(f, t)
  {
    var s := Enc(t) + rest;
    assert s[|Enc(t)|..] == rest;
    if t.Tlv? {
      assert s[0] == t.code && s[1] == |t.payload|;
      assert s[2..2 + |t.payload|] == t.payload;
      assert |t.payload| >= 4 ==> s[2..6] == t.payload[..4];
      assert |t.payload| >= 6 ==> s[2..8] == t.payload[..6];
      assert |t.payload| == 4 ==> t.payload[..4] == t.payload;
      assert |t.payload| >= 1 ==> s[2] == t.payload[0];
    }
  }

  lemma ReadStep(f: Fields, s: seq<byte>, at: nat)
    requires InBounds(s) && s[0] != END_OP && 0 < Advance(s) <= |s|
    requires Readable(s[Advance(s)..])
    ensures Readable(s)
    ensures Read(f, s) == Read(Effect(f, s), s[Advance(s)..])
    ensures Visited(s, at) == [at] + Visited(s[Advance(s)..], at + Advance(s))
  {
  }

  lemma FoldCons(f: Fields, toks: seq<Tok>, at: nat)
    requires toks != [] && AllWellFormed(toks)
    ensures WellFormed(toks[0]) && AllWellFormed(toks[1..])
    ensures Fold(f, toks) == Fold(Apply(f, toks[0]), toks[1..])
    ensures Boundaries(toks, at) == [at] + Boundaries(toks[1..], at + |Enc(toks[0])|)
  {
    assert forall i :: 0 <= i < |toks[1..]| ==> toks[1..][i] == toks[i + 1];
  }

  /** The reader refines the fold: on every list of well-formed options and pads with an END after
      it, it stops at that END, tests exactly at the option boundaries, and its result is the fold
      of the list, whatever follows the END. */
  lemma {:induction false} ReaderRefinesFold(f: Fields, toks: seq<Tok>, tail: seq<byte>, at: nat)
    requires AllWellFormed(toks)
    ensures var s := EncAll(toks) + [END_OP] + tail;
            && Readable(s)
            && Read(f, s) == Fold(f, toks)
            && Visited(s, at) == Boundaries(toks, at)
    decreases |toks|
  {
    if toks == [] {
      var s := EncAll([]) + [END_OP] + tail;
      assert s[0] == END_OP;
    } else {
      hide *;
      var t, rest := toks[0], EncAll(toks[1..]) + [END_OP] + tail;
      EncAllCons(toks);
      assert EncAll(toks) + [END_OP] + tail == Enc(t) + rest;
      FoldCons(f, toks, at);
      StepOverOption(f, t, rest);
      ReaderRefinesFold(Apply(f, t), toks[1..], tail, at + |Enc(t)|);
      ReadStep(f, Enc(t) + rest, at);
    }
  }

  /** The string a name buffer holds after a host name option. */
  lemma NameStored(name: nameBuffer, payload: seq<byte>)
    requires |payload| < MAX_HOST_NAME
    ensures CStr(SetName(name, payload)) == CStr(payload)
  {
    var n, m := SetName(name, payload), StrLen(payload);
    assert forall i :: 0 <= i < |payload| ==> n[i] == payload[i];
    assert n[|payload|] == 0;
    StrLenIs(n, m);
    assert n[..m] == payload[..m];
  }

  /** For every field the reader can set, the payload that sets it, if any. */
  datatype Payloads = Payloads(
    msg: Option<seq<byte>>, name: Option<seq<byte>>, cltId: Option<seq<byte>>, subMsk: Option<seq<byte>>,
    srvId: Option<seq<byte>>, rtrId: Option<seq<byte>>, rqtId: Option<seq<byte>>, dnsId: Option<seq<byte>>)

  function OwnPayloads(t: Tok): Payloads {
    Payloads(Own(t, {MSG_OP}), Own(t, {HST_NAME_OP}), Own(t, {CLT_ID_OP}), Own(t, {SUB_MSK_OP}),
             Own(t, {SRV_ID_OP}), Own(t, {RTR_ID_OP, RNW_TIME_OP}), Own(t, {RQT_ID_OP}), Own(t, {DNS_OP}))
  }

  /** The last payload of each kind; the router id is set by the renew time too. */
  function LastPayloads(toks: seq<Tok>): Payloads {
    Payloads(Last(toks, {53}), Last(toks, {12}), Last(toks, {61}), Last(toks, {1}), Last(toks, {54}),
             Last(toks, {3, 58}), Last(toks, {50}), Last(toks, {6}))
  }

  function PickMsg(p: Option<seq<byte>>, before: MsgType): MsgType {
    match p
    case Some(v) => if v == [] then INVALID else MsgOf(v[0])
    case None => before
  }

  /** g is f with the payloads in place of the fields they set, and nothing else changed. */
  predicate Replaced(f: Fields, p: Payloads, g: Fields) {
    && g.cookieOk == f.cookieOk
    && g.rnwTime == f.rnwTime && g.rbnTime == f.rbnTime && g.leaseTime == f.leaseTime
    && g.msg == PickMsg(p.msg, f.msg)
    && CStr(g.name) == (match p.name case Some(v) => CStr(v) case None => CStr(f.name))
    && g.cltId == Pick(p.cltId, ETHER_ADDR_L, f.cltId)
    && g.subMsk == Pick(p.subMsk, 4, f.subMsk)
    && g.srvId == Pick(p.srvId, 4, f.srvId)
    && g.rtrId == Pick(p.rtrId, 4, f.rtrId)
    && g.rqtId == Pick(p.rqtId, 4, f.rqtId)
    && g.dnsId == Pick(p.dnsId, 4, f.dnsId)
  }

  lemma ApplyReplaces(f: Fields, t: Tok)
    requires WellFormed(t)
    ensures Replaced(f, OwnPayloads(t), Apply(f, t))
  {
    if t.Tlv? && CopiesWord(t.code) {
      WordReplaces(f, t.code, t.payload);
    } else if t.Tlv? && t.code == HST_NAME_OP {
      NameReplaces(f, t.payload);
    } else {
      hide CStr, SetName, MsgOf, CodeOf;
    }
  }

  lemma NameReplaces(f: Fields, p: seq<byte>)
    requires WellFormed(Tlv(HST_NAME_OP, p))
    ensures Replaced(f, OwnPayloads(Tlv(HST_NAME_OP, p)), Apply(f, Tlv(HST_NAME_OP, p)))
  {
    hide CStr, SetName, MsgOf, CodeOf;
    NameStored(f.name, p);
  }

  lemma WordReplaces(f: Fields, code: byte, p: seq<byte>)
    requires WellFormed(Tlv(code, p)) && CopiesWord(code)
    ensures Replaced(f, OwnPayloads(Tlv(code, p)), Apply(f, Tlv(code, p)))
  {
    hide CStr, SetName, MsgOf, CodeOf;
    assert |p| >= 4 && (|p| == 4 ==> p[..4] == p);
  }

  lemma LastCons(t: Tok, toks: seq<Tok>, codes: set<byte>)
    ensures Last([t] + toks, codes) == if Last(toks, codes).Some? then Last(toks, codes) else Own(t, codes)
  {
    assert ([t] + toks)[1..] == toks;
  }

  lemma ReplacedThen(f: Fields, t: Tok, g: Fields, toks: seq<Tok>, h: Fields)
    requires Replaced(f, OwnPayloads(t), g) && Replaced(g, LastPayloads(toks), h)
    ensures Replaced(f, LastPayloads([t] + toks), h)
  {
    hide Own, CStr, Last, MsgOf;
    forall codes: set<byte> {
      LastCons(t, toks, codes);
    }
  }

  /** The fold is last-wins: each field is what the last option that sets it says. */
  lemma {:induction false} FoldLastWins(f: Fields, toks: seq<Tok>)
    requires AllWellFormed(toks)
    ensures Replaced(f, LastPayloads(toks), Fold(f, toks))
    decreases |toks|
  {
    if toks != [] {
      hide *;
      FoldCons(f, toks, 0);
      ApplyReplaces(f, toks[0]);
      FoldLastWins(Apply(f, toks[0]), toks[1..]);
      ReplacedThen(f, toks[0], Apply(f, toks[0]), toks[1..], Fold(f, toks));
      assert toks == [toks[0]] + toks[1..];
    }
  }

  /** The message type that a well-formed list of options leaves in a record, by the value byte of the
      last option 53. */
  lemma MessageTypes(f: Fields, toks: seq<Tok>, tail: seq<byte>)
    requires AllWellFormed(toks)
    ensures var s := EncAll(toks) + [255] + tail;
            && Readable(s)
            && match Last(toks, {53})
               case None => Read(f, s).msg == f.msg
               case Some(v) =>
                 && |v| == 1
                 && Read(f, s).msg ==
                    match v[0]
                    case 1 => DISCOVER
                    case 2 => OFFER
                    case 3 => REQUEST
                    case 4 => DECLINE
                    case 5 => ACK
                    case 6 => NAK
                    case 7 => RELEASE
                    case 8 => INFORM
                    case _ => INVALID
  {
    hide Last, Read, Readable, Fold, EncAll, CStr;
    ReaderRefinesFold(f, toks, tail, 0);
    FoldLastWins(f, toks);
    if Last(toks, {53}).Some? {
      var i := LastIsOneOf(toks, {53});
      assert WellFormed(toks[i]);
    }
  }
}
