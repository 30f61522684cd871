// The sniffer's loop that turns the name of a DNS query into a dotted string.
module DnsName {
  import opened Bytes

  const MAX_QR_L := 512
  const DOT: byte := 46

  /** A label of a name: its length must fit the length byte, and length 0 ends the name. */
  type dnsLabel = s: seq<byte> | 1 <= |s| <= 255 witness [0]

  /** A name on the wire: each label behind its length, and a 0. */
  function EncName(labels: seq<dnsLabel>): (e: seq<byte>)
    ensures |e| >= 1
  {
    if labels == [] then [0] else [|labels[0]|] + labels[0] + EncName(labels[1..])
  }

  /** Each text with a dot behind it. */
  function Dotted(labels: seq<seq<byte>>): seq<byte> {
    if labels == [] then [] else labels[0] + [DOT] + Dotted(labels[1..])
  }

  /** The labels with dots between them. */
  function Joined(labels: seq<dnsLabel>): seq<byte>
    requires labels != []
  {
    Dotted(labels)[..|Dotted(labels)| - 1]
  }

  predicate AllNulFree(labels: seq<dnsLabel>) {
    forall i :: 0 <= i < |labels| ==> NulFree(labels[i])
  }

  lemma {:induction false} DottedAppend(a: seq<dnsLabel>, l: dnsLabel)
    ensures Dotted(a + [l]) == Dotted(a) + l + [DOT]
  {
    if a == [] {
      assert [l][1..] == [] && a + [l] == [l];
      assert Dotted([l]) == l + [DOT] + [];
    } else {
      DottedAppend(a[1..], l);
      assert (a + [l])[1..] == a[1..] + [l] && (a + [l])[0] == a[0];
    }
  }

  lemma {:induction false} DottedPrefix(labels: seq<dnsLabel>, k: nat)
    requires k <= |labels|
    ensures |Dotted(labels[..k])| <= |Dotted(labels)|
    decreases |labels| - k
  {
    if k == |labels| {
      assert labels[..k] == labels;
    } else {
      DottedPrefix(labels, k + 1);
      assert labels[..k + 1] == labels[..k] + [labels[k]];
      DottedAppend(labels[..k], labels[k]);
    }
  }

  lemma {:induction false} DottedNulFree(labels: seq<dnsLabel>)
    ensures AllNulFree(labels) <==> NulFree(Dotted(labels))
  {
    if labels != [] {
      var l, rest := labels[0], labels[1..];
      DottedNulFree(rest);
      assert forall i :: 0 <= i < |rest| ==> rest[i] == labels[i + 1];
      var d := Dotted(labels);
      assert d == l + [DOT] + Dotted(rest);
      assert forall i :: 0 <= i < |l| ==> d[i] == l[i];
      assert forall i :: 0 <= i < |Dotted(rest)| ==> d[|l| + 1 + i] == Dotted(rest)[i];
      if AllNulFree(labels) {
        assert NulFree(labels[0]);
        forall i | 0 <= i < |rest|
          ensures NulFree(rest[i])
        {
          assert rest[i] == labels[i + 1];
        }
      }
      if NulFree(d) {
        forall i | 0 <= i < |labels|
          ensures NulFree(labels[i])
        {
          if i > 0 {
            assert NulFree(rest[i - 1]);
          }
        }
      }
    }
  }

  predicate ClearFrom(s: seq<byte>, from: nat) {
    forall i :: from <= i < |s| ==> s[i] == 0
  }

  /** A string ends before the clear part of its buffer. */
  lemma EndsBefore(s: seq<byte>, clear: nat)
    requires clear < |s| && ClearFrom(s, clear)
    ensures StrLen(s) <= clear && 0 in s
    ensures NulFree(s[..clear]) ==> StrLen(s) == clear
  {
    assert s[clear] == 0;
    if NulFree(s[..clear]) {
      assert forall i :: 0 <= i < clear ==> s[i] == s[..clear][i];
      StrLenIs(s, clear);
    }
  }

  /** Copying a label to the end of the string, wherever that is, stays in front of the part that
      is clear afterwards; and appends the label when there was no NUL before. */
  lemma LabelCopied(s: seq<byte>, data: seq<byte>, clear: nat)
    requires clear + |data| + 1 < |s| && ClearFrom(s, clear)
    ensures StrLen(s) <= clear
    ensures var t := Splice(s, StrLen(s), data);
            && ClearFrom(t, clear + |data|)
            && (NulFree(s[..clear]) && NulFree(data) ==>
                  t[..clear + |data|] == s[..clear] + data && NulFree(t[..clear + |data|]))
  {
    hide StrLen;
    EndsBefore(s, clear);
    var t := Splice(s, StrLen(s), data);
    if NulFree(s[..clear]) && NulFree(data) {
      assert t[..clear + |data|] == s[..clear] + data;
    }
  }

  /** One turn of the loop: a label copied to the end of the string, and a dot put behind it. */
  method AppendLabel(url: array<byte>, data: seq<byte>, ghost clear: nat)
    requires 1 <= |data| && clear + |data| + 1 < url.Length && ClearFrom(url[..], clear)
    modifies url
    ensures ClearFrom(url[..], clear + |data| + 1)
    ensures url[0] != 0
    ensures NulFree(old(url[..clear])) && NulFree(data) ==>
              url[..clear + |data| + 1] == old(url[..clear]) + data + [DOT]
  {
    hide Splice, StrLen, NulFree;
    ghost var before := url[..];
    assert before[..clear] == url[..clear];
    EndsBefore(before, clear);
    LabelCopied(before, data, clear);
    var n := StringLength(url);
    CopyInto(url, n, data);
    ghost var middle := url[..];
    EndsBefore(middle, clear + |data|);
    var m := StringLength(url);
    url[m] := DOT;
    assert url[..] == middle[m := DOT];
  }

  lemma {:induction false} DottedLast(labels: seq<dnsLabel>)
    requires labels != []
    ensures Dotted(labels) != [] && Dotted(labels)[|Dotted(labels)| - 1] == DOT
  {
    var n := |labels| - 1;
    assert labels == labels[..n] + [labels[n]];
    DottedAppend(labels[..n], labels[n]);
  }

  lemma EncNameStep(labels: seq<dnsLabel>, k: nat)
    requires k < |labels|
    ensures var e := EncName(labels[k..]);
            && e[0] == |labels[k]|
            && |e| == 1 + |labels[k]| + |EncName(labels[k + 1..])|
            && e[1..1 + |labels[k]|] == labels[k]
            && e[1 + |labels[k]|..] == EncName(labels[k + 1..])
  {
    assert labels[k..][1..] == labels[k + 1..];
  }

  lemma DottedStep(labels: seq<dnsLabel>, k: nat)
    requires k < |labels|
    ensures Dotted(labels[..k + 1]) == Dotted(labels[..k]) + labels[k] + [DOT]
    ensures |Dotted(labels[..k + 1])| <= |Dotted(labels)|
    ensures AllNulFree(labels[..k + 1]) ==> AllNulFree(labels[..k]) && NulFree(labels[k])
  {
    assert labels[..k + 1] == labels[..k] + [labels[k]];
    DottedAppend(labels[..k], labels[k]);
    DottedPrefix(labels, k + 1);
    if AllNulFree(labels[..k + 1]) {
      assert labels[k] == labels[..k + 1][k];
      assert forall i :: 0 <= i < k ==> labels[..k][i] == labels[..k + 1][i];
    }
  }

  /** What the buffer holds after the loop and the last dot's removal. */
  lemma StringIsJoined(labels: seq<dnsLabel>, looped: seq<byte>, url: seq<byte>)
    requires labels != [] && |looped| == |url| == MAX_QR_L && |Dotted(labels)| < MAX_QR_L
    requires ClearFrom(looped, |Dotted(labels)|)
    requires AllNulFree(labels) ==> looped[..|Dotted(labels)|] == Dotted(labels)
    requires StrLen(looped) > 0 && url == looped[StrLen(looped) - 1 := 0]
    ensures CStr(url) == Joined(labels) <==> AllNulFree(labels)
  {
    var d := Dotted(labels);
    DottedNulFree(labels);
    DottedLast(labels);
    if AllNulFree(labels) {
      assert forall i :: 0 <= i < |d| ==> looped[i] == looped[..|d|][i];
      StrLenIs(looped, |d|);
      StrLenIs(url, |d| - 1);
      assert url[..|d| - 1] == looped[..|d|][..|d| - 1];
    } else {
      var i :| 0 <= i < |d| && d[i] == 0;
      assert Joined(labels)[i] == 0;
      assert NulFree(CStr(url));
    }
  }

  /** The loop of the sniffer over the name at offset start, into a cleared buffer.

      It needs no more of its input than that the name and the string fit. It consumes exactly the
      name, and the string it leaves is the labels joined by dots if and only if no label holds a
      NUL. */
  method DecodeName(src: seq<byte>, start: nat, url: array<byte>, ghost labels: seq<dnsLabel>)
    returns (ptr: nat)
    requires labels != [] && start + |EncName(labels)| <= |src|
    requires src[start..start + |EncName(labels)|] == EncName(labels)
    requires url.Length == MAX_QR_L && url[..] == Zeros(MAX_QR_L)
    requires |Dotted(labels)| < MAX_QR_L
    modifies url
    ensures ptr == start + |EncName(labels)| - 1 && src[ptr] == 0
    ensures CStr(url[..]) == Joined(labels) <==> AllNulFree(labels)
  {
    hide EncName, Dotted, CStr, Joined, NulFree;
    ptr := start;
    ghost var k := 0;
    assert labels[0..] == labels;
    assert Dotted(labels[..0]) == [] by { DottedNil(labels); }
    EncNameEnd(labels, 0);
    assert src[start..][..|EncName(labels)|] == src[start..start + |EncName(labels)|];
    while src[ptr] != 0
      invariant k <= |labels| && ptr + |EncName(labels[k..])| == start + |EncName(labels)|
      invariant src[ptr..ptr + |EncName(labels[k..])|] == EncName(labels[k..])
      invariant |Dotted(labels[..k])| <= |Dotted(labels)|
      invariant ClearFrom(url[..], |Dotted(labels[..k])|)
      invariant AllNulFree(labels[..k]) ==> url[..|Dotted(labels[..k])|] == Dotted(labels[..k])
      invariant k > 0 ==> url[0] != 0
      decreases |labels| - k
    {
      NameAhead(src, ptr, labels, k);
      DottedStep(labels, k);
      DottedNulFree(labels[..k]);
      var len := src[ptr];
      AppendLabel(url, src[ptr + 1..ptr + 1 + len as int], |Dotted(labels[..k])|);
      ptr := ptr + len as int + 1;
      k := k + 1;
    }
    NameAhead(src, ptr, labels, k);
    assert labels[..k] == labels;
    ghost var looped := url[..];
    assert url[|Dotted(labels)|] == looped[|Dotted(labels)|] == 0;
    var n := StringLength(url);
    url[n - 1] := 0;
    assert url[..] == looped[n - 1 := 0];
    StringIsJoined(labels, looped, url[..]);
  }

  lemma DottedNil(labels: seq<dnsLabel>)
    ensures Dotted(labels[..0]) == []
  {
  }

  lemma EncNameEnd(labels: seq<dnsLabel>, k: nat)
    requires k <= |labels|
    ensures |EncName(labels[k..])| >= 1
    ensures k == |labels| ==> EncName(labels[k..]) == [0]
  {
  }

  /** The byte at the cursor and what follows it. */
  lemma NameAhead(src: seq<byte>, ptr: nat, labels: seq<dnsLabel>, k: nat)
    requires k <= |labels| && ptr + |EncName(labels[k..])| <= |src|
    requires src[ptr..ptr + |EncName(labels[k..])|] == EncName(labels[k..])
    ensures |EncName(labels[k..])| >= 1
    ensures src[ptr] == 0 <==> k == |labels|
    ensures k == |labels| ==> |EncName(labels[k..])| == 1
    ensures k < |labels| ==>
              && src[ptr] == |labels[k]|
              && |EncName(labels[k..])| == 1 + |labels[k]| + |EncName(labels[k + 1..])|
              && src[ptr + 1..ptr + 1 + |labels[k]|] == labels[k]
              && src[ptr + 1 + |labels[k]|..ptr + |EncName(labels[k..])|] == EncName(labels[k + 1..])
  {
    hide EncName;
    EncNameEnd(labels, k);
    var e := EncName(labels[k..]);
    assert src[ptr] == src[ptr..ptr + |e|][0];
    if k < |labels| {
      EncNameStep(labels, k);
      var n := |labels[k]|;
      assert src[ptr..ptr + |e|][1..1 + n] == src[ptr + 1..ptr + 1 + n];
      assert src[ptr..ptr + |e|][1 + n..] == src[ptr + 1 + n..ptr + |e|];
    }
  }

  // ------------------------------------------------- the two forms, in numbers

  /** A name with one more label: in the string a dot and the label at the end, on the wire its length
      and the label in front of the closing 0; so the wire form is always two bytes longer. */
  lemma NameNext(labels: seq<dnsLabel>, l: dnsLabel)
    ensures Joined([l]) == l && EncName([l]) == [|l|] + l + [0]
    ensures labels != [] ==> Joined(labels + [l]) == Joined(labels) + [46] + l
    ensures EncName(labels + [l]) == EncName(labels)[..|EncName(labels)| - 1] + ([|l|] + l + [0])
  {
    hide Dotted, EncName;
    DottedNothing();
    DottedAppend([], l);
    assert [] + [l] == [l];
    DottedAppend(labels, l);
    if labels != [] {
      DottedIsJoined(labels);
    }
    EncNameAppend([], l);
    EncNameAppend(labels, l);
    EncNameNothing();
  }

  lemma EncNameNothing()
    ensures EncName([]) == [0]
  {
  }

  lemma EncNameCons(l: dnsLabel, rest: seq<dnsLabel>)
    ensures EncName([l] + rest) == ([|l|] + l) + EncName(rest)
  {
    assert ([l] + rest)[1..] == rest;
  }

  lemma FrontOf(a: seq<byte>, e: seq<byte>, z: seq<byte>)
    requires e != []
    ensures (a + e)[..|a + e| - 1] + z == a + (e[..|e| - 1] + z)
  {
    assert (a + e)[..|a + e| - 1] == a + e[..|e| - 1];
  }

  lemma {:induction false} EncNameAppend(labels: seq<dnsLabel>, l: dnsLabel)
    ensures EncName(labels + [l]) == EncName(labels)[..|EncName(labels)| - 1] + ([|l|] + l + [0])
  {
    hide EncName;
    EncNameNothing();
    if labels == [] {
      assert [l] + [] == [l] && labels + [l] == [l];
      EncNameCons(l, []);
    } else {
      var first, rest := labels[0], labels[1..];
      EncNameAppend(rest, l);
      assert labels == [first] + rest && labels + [l] == [first] + (rest + [l]);
      EncNameCons(first, rest);
      EncNameCons(first, rest + [l]);
      FrontOf([|first|] + first, EncName(rest), [|l|] + l + [0]);
    }
  }

  lemma {:induction false} WireLength(labels: seq<dnsLabel>)
    requires labels != []
    ensures |EncName(labels)| == |Joined(labels)| + 2
  {
    hide EncName, Joined;
    var n := |labels| - 1;
    NameNext(labels[..n], labels[n]);
    assert labels == labels[..n] + [labels[n]];
    if n > 0 {
      WireLength(labels[..n]);
    }
  }

  // ------------------------------------------------- what the string says about the labels

  predicate DotFree(s: seq<byte>) {
    forall i :: 0 <= i < |s| ==> s[i] != DOT
  }

  lemma FirstLabel(a: seq<byte>, x: seq<byte>, b: seq<byte>, y: seq<byte>)
    requires DotFree(a) && DotFree(b)
    requires a + [DOT] + x == b + [DOT] + y
    ensures a == b && x == y
  {
    var s := a + [DOT] + x;
    assert s[|a|] == DOT && s[|b|] == DOT;
    assert forall i :: 0 <= i < |a| ==> s[i] == a[i];
    assert forall i :: 0 <= i < |b| ==> s[i] == b[i];
    assert |a| == |b|;
    assert a == s[..|a|] && b == s[..|b|];
    assert x == s[|a| + 1..] && y == s[|b| + 1..];
  }

  lemma {:induction false} DottedInjective(a: seq<seq<byte>>, b: seq<seq<byte>>)
    requires forall i :: 0 <= i < |a| ==> DotFree(a[i])
    requires forall i :: 0 <= i < |b| ==> DotFree(b[i])
    requires Dotted(a) == Dotted(b)
    ensures a == b
  {
    if a != [] && b != [] {
      FirstLabel(a[0], Dotted(a[1..]), b[0], Dotted(b[1..]));
      assert forall i :: 0 <= i < |a[1..]| ==> a[1..][i] == a[i + 1];
      assert forall i :: 0 <= i < |b[1..]| ==> b[1..][i] == b[i + 1];
      DottedInjective(a[1..], b[1..]);
      assert a == [a[0]] + a[1..] && b == [b[0]] + b[1..];
    }
  }

  /** A text cut at its dots. */
  function Split(s: seq<byte>): (pieces: seq<seq<byte>>)
    ensures pieces != []
    ensures forall i :: 0 <= i < |pieces| ==> DotFree(pieces[i])
  {
    if s == [] then [[]]
    else
      var rest := Split(s[1..]);
      if s[0] == DOT then [[]] + rest else [[s[0]] + rest[0]] + rest[1..]
  }

  /** The labels of a name, each cut at its dots. */
  function Pieces(labels: seq<dnsLabel>): (pieces: seq<seq<byte>>)
    ensures forall i :: 0 <= i < |pieces| ==> DotFree(pieces[i])
  {
    if labels == [] then [] else Split(labels[0]) + Pieces(labels[1..])
  }

  lemma DottedCons(p: seq<byte>, rest: seq<seq<byte>>)
    ensures Dotted([p] + rest) == p + [DOT] + Dotted(rest)
  {
    assert ([p] + rest)[1..] == rest;
  }

  lemma {:induction false} DottedConcat(a: seq<seq<byte>>, b: seq<seq<byte>>)
    ensures Dotted(a + b) == Dotted(a) + Dotted(b)
  {
    hide *;
    if a == [] {
      DottedNothing();
      assert a + b == b;
    } else {
      DottedConcat(a[1..], b);
      assert a == [a[0]] + a[1..] && a + b == [a[0]] + (a[1..] + b);
      DottedCons(a[0], a[1..]);
      DottedCons(a[0], a[1..] + b);
    }
  }

  lemma DottedNothing()
    ensures Dotted([]) == []
  {
  }

  /** Cutting a text at its dots does not change what the dotted form shows. */
  lemma {:induction false} DottedSplit(s: seq<byte>)
    ensures Dotted(Split(s)) == s + [DOT]
  {
    hide Dotted;
    DottedNothing();
    if s == [] {
      DottedCons([], []);
      assert [[]] + [] == Split(s);
    } else {
      DottedSplit(s[1..]);
      DottedSplitStep(s[0], s[1..], Split(s[1..]));
      assert s == [s[0]] + s[1..];
    }
  }

  lemma DottedSplitStep(b: byte, s: seq<byte>, rest: seq<seq<byte>>)
    requires rest != [] && Dotted(rest) == s + [DOT]
    ensures Dotted([[]] + rest) == [DOT] + s + [DOT]
    ensures Dotted([[b] + rest[0]] + rest[1..]) == [b] + s + [DOT]
  {
    hide Dotted;
    var x := Dotted(rest[1..]);
    DottedCons([], rest);
    assert [] + [DOT] + (s + [DOT]) == [DOT] + s + [DOT];
    assert rest == [rest[0]] + rest[1..];
    DottedCons(rest[0], rest[1..]);
    DottedCons([b] + rest[0], rest[1..]);
    assert ([b] + rest[0]) + [DOT] + x == [b] + (rest[0] + [DOT] + x);
    assert [b] + (s + [DOT]) == [b] + s + [DOT];
  }

  lemma {:induction false} DottedPieces(labels: seq<dnsLabel>)
    ensures Dotted(Pieces(labels)) == Dotted(labels)
  {
    if labels != [] {
      var l, rest := labels[0], labels[1..];
      DottedPieces(rest);
      hide Dotted, Split;
      DottedSplit(l);
      DottedConcat(Split(l), Pieces(rest));
      assert labels == [l] + rest;
      DottedCons(l, rest);
    }
  }

  lemma DottedIsJoined(a: seq<dnsLabel>)
    requires a != []
    ensures Dotted(a) == Joined(a) + [DOT]
  {
    DottedLast(a);
  }

  /** Exactly which names share a string: those whose labels, cut at their dots, are the same. */
  lemma JoinedExactly(a: seq<dnsLabel>, b: seq<dnsLabel>)
    requires a != [] && b != []
    ensures Joined(a) == Joined(b) <==> Pieces(a) == Pieces(b)
  {
    hide *;
    DottedIsJoined(a);
    DottedIsJoined(b);
    DottedPieces(a);
    DottedPieces(b);
    if Joined(a) == Joined(b) {
      DottedInjective(Pieces(a), Pieces(b));
    } else {
      assert Dotted(a)[..|Dotted(a)| - 1] == Joined(a) && Dotted(b)[..|Dotted(b)| - 1] == Joined(b);
    }
  }

  lemma {:induction false} SplitDotFree(s: seq<byte>)
    requires DotFree(s)
    ensures Split(s) == [s]
  {
    if s != [] {
      assert s[0] != DOT && forall i :: 0 <= i < |s[1..]| ==> s[1..][i] == s[i + 1];
      SplitDotFree(s[1..]);
      assert s == [s[0]] + s[1..];
    }
  }

  lemma {:induction false} PiecesDotFree(labels: seq<dnsLabel>)
    requires forall i :: 0 <= i < |labels| ==> DotFree(labels[i])
    ensures Pieces(labels) == labels
  {
    if labels != [] {
      SplitDotFree(labels[0]);
      assert forall i :: 0 <= i < |labels[1..]| ==> labels[1..][i] == labels[i + 1];
      PiecesDotFree(labels[1..]);
    }
  }

  /** So names whose labels hold no dot are told apart by their strings. */
  lemma JoinedInjective(a: seq<dnsLabel>, b: seq<dnsLabel>)
    requires a != [] && b != []
    requires forall i :: 0 <= i < |a| ==> DotFree(a[i])
    requires forall i :: 0 <= i < |b| ==> DotFree(b[i])
    ensures Joined(a) == Joined(b) <==> a == b
  {
    hide *;
    JoinedExactly(a, b);
    PiecesDotFree(a);
    PiecesDotFree(b);
  }

  /** With a dot inside a label two names share a string. */
  lemma DotsConfuse()
    ensures Joined([[97, DOT, 98]]) == Joined([[97], [98]])
  {
    var a: seq<dnsLabel>, b: seq<dnsLabel> := [[97, DOT, 98]], [[97], [98]];
    assert a[1..] == [] && b[1..] == [[98]] && b[1..][1..] == [];
    assert Dotted(b[1..]) == [98, DOT];
  }
}
