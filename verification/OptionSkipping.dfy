// Which bytes the reader passes without a trace. RFC 2132 has a client skip an option it does not
// know by its length; the reader goes on with the next byte instead.
module OptionSkipping {
  import opened Bytes
  import opened OptionFormat
  import opened OptionReader

  /** Bytes in front of s neither change whether the reader gets through nor what it makes of s. */
  ghost predicate TransparentTo(u: seq<byte>, f: Fields, s: seq<byte>) {
    && (Readable(u + s) <==> Readable(s))
    && (Readable(s) ==> Read(f, u + s) == Read(f, s))
  }

  ghost predicate Transparent(u: seq<byte>) {
    forall f: Fields, s: seq<byte> :: TransparentTo(u, f, s)
  }

  /** Only bytes that are no code, and whole options of which the reader stores nothing. */
  predicate Harmless(u: seq<byte>) {
    u == [] ||
    (if u[0] == RBN_TIME_OP || u[0] == IP_LEASE_TIME_OP then |u| >= 6 && Harmless(u[6..])
     else !Known(u[0]) && u[0] != END_OP && Harmless(u[1..]))
  }

  /** What a harmless first step steps over. */
  function Stride(b: byte): nat {
    if b == RBN_TIME_OP || b == IP_LEASE_TIME_OP then 6 else 1
  }

  /** A step that stores nothing hands the bytes behind it on unchanged. */
  lemma IdleStep(u: seq<byte>, f: Fields, s: seq<byte>)
    requires u != [] && u[0] != END_OP && Stride(u[0]) <= |u|
    requires Stride(u[0]) == 6 || !Known(u[0])
    ensures TransparentTo(u, f, s) <==> TransparentTo(u[Stride(u[0])..], f, s)
  {
    var n := Stride(u[0]);
    assert (u + s)[n..] == u[n..] + s;
    assert InBounds(u + s) && Advance(u + s) == n && Effect(f, u + s) == f;
    if Readable(u[n..] + s) {
      ReadStep(f, u + s, 0);
    }
  }

  lemma {:induction false} HarmlessIsTransparent(u: seq<byte>, f: Fields, s: seq<byte>)
    requires Harmless(u)
    ensures TransparentTo(u, f, s)
    decreases |u|
  {
    if u == [] {
      assert u + s == s;
    } else {
      IdleStep(u, f, s);
      HarmlessIsTransparent(u[Stride(u[0])..], f, s);
    }
  }

  const BLANK := Fields(true, INVALID, Zeros(MAX_HOST_NAME), NO_MAC, ZERO, ZERO, ZERO, ZERO,
                        ZERO, ZERO, ZERO, ZERO)

  const ONES: word := [1, 1, 1, 1]

  /** A record that differs from the blank one in what the option with this code sets. */
  function Marked(code: byte): Fields {
    if code == MSG_OP then BLANK.(msg := ACK)
    else if code == HST_NAME_OP then BLANK.(name := [1] + Zeros(MAX_HOST_NAME - 1))
    else if code == CLT_ID_OP then BLANK.(cltId := [1, 1, 1, 1, 1, 1])
    else if code == SUB_MSK_OP then BLANK.(subMsk := ONES)
    else if code == RNW_TIME_OP || code == RTR_ID_OP then BLANK.(rtrId := ONES)
    else if code == SRV_ID_OP then BLANK.(srvId := ONES)
    else if code == RQT_ID_OP then BLANK.(rqtId := ONES)
    else BLANK.(dnsId := ONES)
  }

  predicate Stores(code: byte) {
    Known(code) && code != RBN_TIME_OP && code != IP_LEASE_TIME_OP
  }

  /** An option that is stored wipes out what the field was before. */
  lemma StoredForgets(s: seq<byte>)
    requires InBounds(s) && Stores(s[0])
    ensures Effect(BLANK, s) == Effect(Marked(s[0]), s) && Marked(s[0]) != BLANK
  {
    if s[0] == HST_NAME_OP {
      var a, b := BLANK.name, Marked(HST_NAME_OP).name;
      assert a[0] == 0 && b[0] == 1 && forall i :: 1 <= i < MAX_HOST_NAME ==> a[i] == b[i];
      assert SetName(a, s[2..2 + s[1] as int]) == SetName(b, s[2..2 + s[1] as int]);
    }
  }

  lemma OnlyEnd(f: Fields)
    ensures Readable([END_OP]) && Read(f, [END_OP]) == f
    ensures !Readable([])
  {
  }

  /** Whatever is not harmless shows for some record and some bytes behind it. */
  lemma {:induction false} HarmfulShows(u: seq<byte>) returns (f: Fields, s: seq<byte>)
    requires !Harmless(u)
    ensures !TransparentTo(u, f, s)
    decreases |u|
  {
    OnlyEnd(BLANK);
    f, s := BLANK, [END_OP];
    if u[0] == END_OP {
      s := [];
      assert u + [] == u;
    } else if Stores(u[0]) {
      if Readable(u + s) {
        StoredForgets(u + s);
        OnlyEnd(Marked(u[0]));
        if Read(BLANK, u + s) == BLANK {
          f := Marked(u[0]);
        }
      }
    } else if |u| < Stride(u[0]) {
      StepTooFar(u);
    } else {
      f, s := HarmfulShows(u[Stride(u[0])..]);
      IdleStep(u, f, s);
    }
  }

  lemma StepTooFar(u: seq<byte>)
    requires 0 < |u| < 6 && (u[0] == RBN_TIME_OP || u[0] == IP_LEASE_TIME_OP)
    ensures !Readable(u + [END_OP])
  {
    var s := u + [END_OP];
    assert s[0] == u[0];
    if |s| == 6 {
      assert s[6..] == [];
    }
  }

  /** Exactly which bytes leave no trace at an option boundary. */
  lemma TransparentExactly(u: seq<byte>)
    ensures Transparent(u) <==> Harmless(u)
  {
    if Harmless(u) {
      forall f: Fields, s: seq<byte>
        ensures TransparentTo(u, f, s)
      {
        HarmlessIsTransparent(u, f, s);
      }
    } else {
      var f, s := HarmfulShows(u);
      assert !TransparentTo(u, f, s);
    }
  }

  lemma PadFirst(b: byte, u: seq<byte>)
    requires !Known(b) && b != END_OP
    ensures Harmless([b] + u) <==> Harmless(u)
  {
  }

  lemma EncUnknown(code: byte, payload: seq<byte>)
    requires |payload| < 256
    ensures Enc(Tlv(code, payload)) == [code] + ([|payload|] + payload)
  {
  }

  /** So an option with a code the reader does not know is skipped exactly when its length byte and
      its payload are harmless by themselves. */
  lemma UnknownSkippedExactly(code: byte, payload: seq<byte>)
    requires !Known(code) && code != END_OP && |payload| < 256
    ensures Transparent(Enc(Tlv(code, payload))) <==> Harmless([|payload|] + payload)
  {
    hide *;
    EncUnknown(code, payload);
    TransparentExactly(Enc(Tlv(code, payload)));
    PadFirst(code, [|payload|] + payload);
  }

  /** Any run of bytes that are neither a known code nor an END is skipped. */
  lemma {:induction false} PadsHarmless(u: seq<byte>)
    requires forall b :: b in u ==> b != END_OP && !Known(b)
    ensures Harmless(u)
  {
    if u != [] {
      assert u[0] in u && forall b :: b in u[1..] ==> b in u;
      PadsHarmless(u[1..]);
    }
  }

  lemma OverOption(f: Fields, t: Tok, rest: seq<byte>)
    requires WellFormed(t)
    ensures Readable(Enc(t) + rest) <==> Readable(rest)
    ensures Readable(rest) ==> Read(f, Enc(t) + rest) == Read(Apply(f, t), rest)
  {
    hide WellFormed, Apply, Enc, Effect, InBounds, Advance;
    StepOverOption(f, t, rest);
  }

  /** Harmless bytes between the options of a stream change neither its readability nor its meaning,
      wherever between two options they stand. */
  lemma {:induction false} HarmlessInside(f: Fields, a: seq<Tok>, u: seq<byte>, s: seq<byte>)
    requires AllWellFormed(a) && Harmless(u)
    ensures Readable(EncAll(a) + (u + s)) <==> Readable(EncAll(a) + s)
    ensures Readable(EncAll(a) + s) ==> Read(f, EncAll(a) + (u + s)) == Read(f, EncAll(a) + s)
    decreases |a|
  {
    hide *;
    if a == [] {
      EncAllNil();
      assert [] + (u + s) == u + s && [] + s == s;
      HarmlessPasses(f, u, s);
    } else {
      FoldCons(f, a, 0);
      EncAllCons(a);
      var x := EncAll(a[1..]);
      assert EncAll(a) + (u + s) == Enc(a[0]) + (x + (u + s));
      assert EncAll(a) + s == Enc(a[0]) + (x + s);
      OverOption(f, a[0], x + (u + s));
      OverOption(f, a[0], x + s);
      HarmlessInside(Apply(f, a[0]), a[1..], u, s);
    }
  }

  lemma HarmlessPasses(f: Fields, u: seq<byte>, s: seq<byte>)
    requires Harmless(u)
    ensures Readable(u + s) <==> Readable(s)
    ensures Readable(s) ==> Read(f, u + s) == Read(f, s)
  {
    hide Harmless, Readable, Read;
    HarmlessIsTransparent(u, f, s);
  }

  /** A step over a whole subnet mask, whatever its length byte says. */
  lemma MaskStep(f: Fields, s: seq<byte>)
    requires s != [] && s[0] == SUB_MSK_OP
    ensures Readable(s) <==> |s| >= 6 && Readable(s[6..])
    ensures Readable(s) ==> Read(f, s) == Read(f.(subMsk := s[2..6]), s[6..])
  {
  }

  /** The parameter request list 1, 3, 6, 15 (option 55), which clients do send, is not skipped: its
      first byte is taken for a subnet mask option. Its mask is the last two bytes of the list and
      the two behind it, and the reader goes on behind those. */
  lemma ParameterListMisread(f: Fields, s: seq<byte>)
    ensures var r := Enc(Tlv(55, [1, 3, 6, 15])) + s;
            && (Readable(r) <==> |s| >= 2 && Readable(s[2..]))
            && (Readable(r) ==> Read(f, r) == Read(f.(subMsk := [6, 15] + s[..2]), s[2..]))
  {
    var mask: seq<byte> := [1, 3, 6, 15] + s;
    assert Enc(Tlv(55, [1, 3, 6, 15])) + s == [55, 4] + mask;
    PadsHarmless([55, 4]);
    HarmlessIsTransparent([55, 4], f, mask);
    MaskStep(f, mask);
    if |s| >= 2 {
      assert mask[6..] == s[2..] && mask[2..6] == [6, 15] + s[..2];
    }
  }

  /** The loop crosses a list of options in one step per option. */
  lemma {:induction false} OptionsCrossed(a: seq<Tok>, s: seq<byte>)
    requires AllWellFormed(a)
    ensures LoopSteps(At(EncAll(a) + s), |a|) == At(s)
    decreases |a|
  {
    hide *;
    if a == [] {
      EncAllNil();
      assert [] + s == s;
      StepsOne(At(s));
    } else {
      FoldCons(BLANK, a, 0);
      EncAllCons(a);
      assert EncAll(a) + s == Enc(a[0]) + (EncAll(a[1..]) + s);
      TokCrossed(a[0], EncAll(a[1..]) + s);
      StepFirst(At(EncAll(a) + s), |a| - 1);
      OptionsCrossed(a[1..], s);
    }
  }

  lemma TokCrossed(t: Tok, s: seq<byte>)
    requires WellFormed(t)
    ensures LoopStep(At(Enc(t) + s)) == At(s)
  {
    hide WellFormed, Apply, Enc, Effect, InBounds, Advance;
    StepOverOption(BLANK, t, s);
  }

  lemma StepFirst(l: Loop, n: nat)
    ensures LoopSteps(l, n + 1) == LoopSteps(LoopStep(l), n)
  {
  }

  lemma {:induction false} ZerosLeave(n: nat)
    ensures LoopSteps(At(Zeros(n)), n + 1) == Outside
  {
    if n > 0 {
      assert Zeros(n)[1..] == Zeros(n - 1);
      ZerosLeave(n - 1);
    } else {
      assert LoopSteps(LoopStep(At(Zeros(0))), 0) == Outside;
    }
  }

  /** Two pads and a subnet mask that takes the END for one of its bytes. */
  lemma ListLeaves(n: nat)
    ensures LoopSteps(At(Enc(Tlv(55, [1, 3, 6, 15])) + ([END_OP] + Zeros(n))), n + 3) == Outside
  {
    hide LoopSteps;
    var s := Enc(Tlv(55, [1, 3, 6, 15])) + ([END_OP] + Zeros(n));
    StepFirst(At(s), n + 2);
    StepFirst(At(s[1..]), n + 1);
    StepFirst(At(s[2..]), n);
    assert LoopStep(At(s)) == At(s[1..]);
    assert s[1..][1..] == s[2..] && LoopStep(At(s[1..])) == At(s[2..]);
    if n > 0 {
      assert s[2..][6..] == Zeros(n - 1);
      ZerosLeave(n - 1);
    } else {
      OutsideStays(0);
    }
  }

  /** So when only an END and padding follow, as they usually do, the END is taken for a byte of the
      mask and the reader leaves the array, whatever options stand in front. */
  lemma {:induction false} ParameterListLost(a: seq<Tok>, n: nat)
    requires AllWellFormed(a)
    ensures var s := EncAll(a) + (Enc(Tlv(55, [1, 3, 6, 15])) + ([END_OP] + Zeros(n)));
            LoopSteps(At(s), |a| + n + 3) == Outside && !Readable(s)
  {
    hide LoopSteps, Readable, AllWellFormed, EncAll, Enc, Stuck;
    var u := Enc(Tlv(55, [1, 3, 6, 15])) + ([END_OP] + Zeros(n));
    OptionsCrossed(a, u);
    ListLeaves(n);
    StepsAdd(At(EncAll(a) + u), |a|, n + 3);
    LeavesExactly(EncAll(a) + u);
  }
}
