// The sniffer's extraction of a URL from the text of an HTTP request.
module HttpUrl {
  import opened Bytes

  const HOST: seq<byte> := ['H' as int, 'o' as int, 's' as int, 't' as int, ':' as int, ' ' as int]
  const SLASH: seq<byte> := ['/' as int]
  const SPACE: byte := 32
  const CR: byte := 13
  const LF: byte := 10

  predicate Occurs(s: seq<byte>, pat: seq<byte>, i: nat) {
    i + |pat| <= |s| && s[i..i + |pat|] == pat
  }

  /** strstr from an index on: the first occurrence of a pattern. */
  function Find(s: seq<byte>, pat: seq<byte>, from: nat): (r: Option<nat>)
    ensures r.Some? ==> from <= r.value && Occurs(s, pat, r.value)
    ensures r.Some? ==> forall j :: from <= j < r.value ==> !Occurs(s, pat, j)
    ensures r.None? ==> forall j :: from <= j ==> !Occurs(s, pat, j)
    decreases |s| - from
  {
    if from + |pat| > |s| then None
    else if Occurs(s, pat, from) then Some(from)
    else if from < |s| then Find(s, pat, from + 1)
    else None
  }

  /** How many bytes come before the first one in a set. */
  function Before(s: seq<byte>, stops: set<byte>): (n: nat)
    ensures n <= |s|
    ensures forall i :: 0 <= i < n ==> s[i] !in stops
    ensures n < |s| ==> s[n] in stops
  {
    if s == [] || s[0] in stops then 0 else 1 + Before(s[1..], stops)
  }

  lemma BeforeIs(s: seq<byte>, stops: set<byte>, n: nat)
    requires n < |s| && s[n] in stops && forall i :: 0 <= i < n ==> s[i] !in stops
    ensures Before(s, stops) == n
  {
  }

  /** Where the host text and the path text start, if the request has both markers. */
  function Starts(buffer: seq<byte>): (r: Option<(nat, nat)>)
    ensures r.Some? ==> r.value.0 <= |buffer| && r.value.1 < |buffer| && buffer[r.value.1] == SLASH[0]
  {
    var text := CStr(buffer);
    match (Find(text, HOST, 0), Find(text, SLASH, 0))
    case (Some(h), Some(p)) =>
      assert text[p..p + 1][0] == SLASH[0];
      Some((h + |HOST|, p))
    case _ => None
  }

  /** The host text: up to the end of its line. */
  function HostText(buffer: seq<byte>, at: nat): seq<byte>
    requires at <= |buffer|
  {
    buffer[at..][..Before(buffer[at..], {CR, LF})]
  }

  /** The path text: up to the next space. */
  function PathText(buffer: seq<byte>, at: nat): seq<byte>
    requires at <= |buffer|
  {
    buffer[at..][..Before(buffer[at..], {SPACE})]
  }

  /** The loops over host and path stop inside the buffer. */
  predicate Terminated(buffer: seq<byte>) {
    Starts(buffer).Some? ==>
      && Before(buffer[Starts(buffer).value.0..], {CR, LF}) < |buffer[Starts(buffer).value.0..]|
      && Before(buffer[Starts(buffer).value.1..], {SPACE}) < |buffer[Starts(buffer).value.1..]|
  }

  /** The URL of a request: its host followed by its path. */
  function Url(buffer: seq<byte>): Option<seq<byte>> {
    match Starts(buffer)
    case Some((h, p)) => Some(HostText(buffer, h) + PathText(buffer, p))
    case None => None
  }

  /** The loop that counts the bytes before a terminator. */
  method Count(buffer: seq<byte>, at: nat, stops: set<byte>) returns (l: nat)
    requires at <= |buffer| && Before(buffer[at..], stops) < |buffer[at..]|
    ensures l == Before(buffer[at..], stops)
    ensures at + l < |buffer| && buffer[at + l] in stops
  {
    l := 0;
    ghost var s := buffer[at..];
    while buffer[at + l] !in stops
      invariant l < |s| && forall i :: 0 <= i < l ==> s[i] !in stops
      invariant l <= Before(s, stops)
      decreases |s| - l
    {
      assert buffer[at + l] == s[l];
      l := l + 1;
    }
    assert buffer[at + l] == s[l];
    BeforeIs(s, stops, l);
  }

  /** set_addr_from_get_buf. A request without one of the markers leaves addr alone and gives 0, and
      only such a request does. */
  method SetAddr(addr: array<byte>, buffer: seq<byte>) returns (n: nat)
    requires 0 in buffer && Terminated(buffer)
    requires Url(buffer).Some? ==> |Url(buffer).value| < addr.Length
    modifies addr
    ensures n == 0 <==> Url(buffer).None?
    ensures Url(buffer).None? ==> addr[..] == old(addr[..])
    ensures Url(buffer).Some? ==>
              n == |Url(buffer).value| && addr[..] == Splice(old(addr[..]), 0, Url(buffer).value + [0])
  {
    hide Splice, Before, Starts;
    n := 0;
    var starts := Starts(buffer);
    if starts.Some? {
      var (h, p) := starts.value;
      var hostL := Count(buffer, h, {CR, LF});
      var pathL := Count(buffer, p, {SPACE});
      PathNotEmpty(buffer, p);
      var host, path := buffer[h..h + hostL], buffer[p..p + pathL];
      assert host == HostText(buffer, h) && path == PathText(buffer, p);
      CopyUrl(addr, host, path);
      n := hostL + pathL;
    }
  }

  lemma PathNotEmpty(buffer: seq<byte>, p: nat)
    requires p < |buffer| && buffer[p] == SLASH[0]
    ensures PathText(buffer, p) != []
  {
    assert buffer[p..][0] == SLASH[0];
  }

  /** The memset and the two copies into addr. */
  method CopyUrl(addr: array<byte>, host: seq<byte>, path: seq<byte>)
    requires |host| + |path| < addr.Length
    modifies addr
    ensures addr[..] == Splice(old(addr[..]), 0, host + path + [0])
  {
    hide Splice;
    ghost var before := addr[..];
    CopyInto(addr, 0, Zeros(|host| + |path| + 1));
    CopyInto(addr, 0, host);
    CopyInto(addr, |host|, path);
    ThreeCopies(before, host, path);
  }

  /** The text and its NUL, whatever was there before. */
  lemma ThreeCopies(s: seq<byte>, host: seq<byte>, path: seq<byte>)
    requires |host| + |path| < |s|
    ensures Splice(Splice(Splice(s, 0, Zeros(|host| + |path| + 1)), 0, host), |host|, path)
            == Splice(s, 0, host + path + [0])
  {
    var n, m := |host|, |path|;
    var t := Splice(s, 0, Zeros(n + m + 1));
    assert t[n + m..] == [0] + s[n + m + 1..];
    var u := Splice(t, 0, host);
    assert u[..n] == host && u[n..] == t[n..];
    assert u[n + m..] == t[n + m..];
    assert Splice(u, n, path) == host + path + u[n + m..];
    assert host + path + ([0] + s[n + m + 1..]) == (host + path + [0]) + s[n + m + 1..];
  }

  // ------------------------------------------------- requests

  /** The text of a request: its first line up to the target, the rest of that line and the header
      lines before the host line, the host line, and whatever follows. */
  function RequestText(verb: seq<byte>, target: seq<byte>, between: seq<byte>, host: seq<byte>, eol: byte,
                       rest: seq<byte>): seq<byte>
  {
    verb + [32] + target + [32] + between + [72, 111, 115, 116, 58, 32] + host + [eol] + rest
  }

  /** No host marker starts before the one that follows the given text. */
  predicate FirstHostAfter(text: seq<byte>) {
    forall j :: 0 <= j < |text| ==> !Occurs(text + [72, 111, 115, 116, 58, 32], [72, 111, 115, 116, 58, 32], j)
  }

  lemma OccursInPrefix(s: seq<byte>, c: seq<byte>, pat: seq<byte>, j: nat)
    requires s <= c && j + |pat| <= |s|
    ensures Occurs(s, pat, j) <==> Occurs(c, pat, j)
  {
    assert c[j..j + |pat|] == c[..|s|][j..j + |pat|];
  }

  lemma FindIs(s: seq<byte>, pat: seq<byte>, i: nat)
    requires Occurs(s, pat, i) && forall j :: 0 <= j < i ==> !Occurs(s, pat, j)
    ensures Find(s, pat, 0) == Some(i)
  {
  }

  lemma CStrBefore(s: seq<byte>, t: seq<byte>)
    requires NulFree(s) && 0 in t
    ensures 0 in s + t && s <= CStr(s + t)
  {
    assert forall i :: 0 <= i < |s| ==> (s + t)[i] == s[i];
    assert |s| <= StrLen(s + t);
    assert (s + t)[..StrLen(s + t)][..|s|] == s;
  }

  /** The first host marker of a text, when it follows pre. */
  lemma HostFound(pre: seq<byte>, c: seq<byte>)
    requires pre + HOST <= c && FirstHostAfter(pre)
    ensures Find(c, HOST, 0) == Some(|pre|)
  {
    var s := pre + HOST;
    forall j | 0 <= j <= |pre|
      ensures Occurs(c, HOST, j) <==> j == |pre|
    {
      OccursInPrefix(s, c, HOST, j);
    }
    FindIs(c, HOST, |pre|);
  }

  /** The first slash of a text, when it stands behind a part without one. */
  lemma SlashFound(pre: seq<byte>, c: seq<byte>)
    requires SLASH[0] !in pre && pre + SLASH <= c
    ensures Find(c, SLASH, 0) == Some(|pre|)
  {
    var s := pre + SLASH;
    forall j | 0 <= j <= |pre|
      ensures Occurs(c, SLASH, j) <==> j == |pre|
    {
      OccursInPrefix(s, c, SLASH, j);
      assert Occurs(s, SLASH, j) <==> s[j] == SLASH[0] by { assert s[j..j + 1] == [s[j]]; }
      assert j < |pre| ==> s[j] == pre[j] && pre[j] in pre;
    }
    FindIs(c, SLASH, |pre|);
  }

  /** A run of bytes up to the first one of a set. */
  lemma RunUpTo(s: seq<byte>, stops: set<byte>, run: seq<byte>, stop: byte, rest: seq<byte>)
    requires s == run + [stop] + rest && stop in stops
    requires forall b :: b in run ==> b !in stops
    ensures Before(s, stops) == |run| < |s| && s[..Before(s, stops)] == run
  {
    assert forall i :: 0 <= i < |run| ==> s[i] == run[i] && run[i] in run;
    BeforeIs(s, stops, |run|);
  }

  /** The first occurrence of a pattern, in the bytes before the NUL. */
  predicate First(buffer: seq<byte>, pat: seq<byte>, i: nat) {
    Occurs(CStr(buffer), pat, i) && forall j :: 0 <= j < i ==> !Occurs(CStr(buffer), pat, j)
  }

  /** The URL of any text, in either order of its markers: what follows the first "Host: " up to the end
      of the line, and what follows the first slash, with it, up to a space. */
  lemma UrlOfMarkers(buffer: seq<byte>, h: nat, host: seq<byte>, eol: byte, x: seq<byte>,
                     p: nat, path: seq<byte>, y: seq<byte>)
    requires First(buffer, [72, 111, 115, 116, 58, 32], h) && First(buffer, [47], p)
    requires h + 6 <= |buffer| && buffer[h + 6..] == host + [eol] + x
    requires 10 !in host && 13 !in host && eol in {10, 13}
    requires p <= |buffer| && buffer[p..] == path + [32] + y && 32 !in path
    ensures Terminated(buffer) && Url(buffer) == Some(host + path)
  {
    hide Before, StrLen, CStr;
    FindIs(CStr(buffer), HOST, h);
    FindIs(CStr(buffer), SLASH, p);
    RunUpTo(buffer[h + 6..], {CR, LF}, host, eol, x);
    RunUpTo(buffer[p..], {SPACE}, path, 32, y);
  }

  /** And there is none exactly when one of the markers is missing. */
  lemma NoUrlExactly(buffer: seq<byte>)
    ensures Url(buffer).None? <==> || (forall i :: !Occurs(CStr(buffer), [72, 111, 115, 116, 58, 32], i))
                                   || 47 !in CStr(buffer)
  {
    hide CStr;
    var text := CStr(buffer);
    if i :| 0 <= i < |text| && text[i] == 47 {
      assert Occurs(text, SLASH, i);
    }
    if i: nat :| Occurs(text, SLASH, i) {
      assert text[i..i + 1][0] == text[i];
    }
  }

  /** Both markers of a text: it has its first host marker behind pre and its first slash behind
      front. */
  lemma MarkersFound(text: seq<byte>, pre: seq<byte>, after: seq<byte>, front: seq<byte>)
    requires text == (pre + HOST) + after && NulFree(pre) && 0 in after && FirstHostAfter(pre)
    requires front + SLASH <= pre && SLASH[0] !in front
    ensures 0 in text && Starts(text) == Some((|pre| + |HOST|, |front|))
  {
    hide FirstHostAfter, Find, StrLen, CStr;
    PreNulFree(pre);
    CStrBefore(pre + HOST, after);
    HostFound(pre, CStr(text));
    assert front + SLASH <= CStr(text) by {
      assert pre <= pre + HOST;
    }
    SlashFound(front, CStr(text));
  }

  lemma PreNulFree(pre: seq<byte>)
    requires NulFree(pre)
    ensures NulFree(pre + HOST)
  {
  }

  /** The URL of a text whose markers, host and path are known. */
  lemma UrlOfText(text: seq<byte>, pre: seq<byte>, host: seq<byte>, eol: byte, rest: seq<byte>,
                  front: seq<byte>, path: seq<byte>, behind: seq<byte>)
    requires text == (pre + HOST) + (host + [eol] + rest) && text == front + (path + [SPACE] + behind)
    requires NulFree(pre) && 0 in rest && FirstHostAfter(pre)
    requires front + SLASH <= pre && SLASH[0] !in front
    requires SPACE !in path && CR !in host && LF !in host && eol in {CR, LF}
    ensures 0 in text && Terminated(text) && Url(text) == Some(host + path)
  {
    hide FirstHostAfter, Find, Before, StrLen, Starts, NulFree;
    var h, p := |pre| + |HOST|, |front|;
    MarkersFound(text, pre, host + [eol] + rest, front);
    assert text[h..] == host + [eol] + rest;
    RunUpTo(text[h..], {CR, LF}, host, eol, rest);
    assert text[p..] == path + [SPACE] + behind;
    RunUpTo(text[p..], {SPACE}, path, SPACE, behind);
  }

  /** The parts of a request's text, cut at the slash and at the host marker. */
  lemma CutRequest(verb: seq<byte>, target: seq<byte>, between: seq<byte>, after: seq<byte>, slash: nat)
    requires slash < |target|
    ensures var pre := verb + [SPACE] + target + [SPACE] + between;
            var front := verb + [SPACE] + target[..slash];
            && (pre + HOST) + after == front + (target[slash..] + [SPACE] + (between + HOST + after))
            && front + [target[slash]] <= pre
  {
    var a, t, u := verb + [SPACE], target[..slash], target[slash..];
    assert target == t + u;
    assert target[..slash + 1] == t + [target[slash]];
    var pre := a + target + [SPACE] + between;
    assert pre[..|a| + slash + 1] == a + target[..slash + 1];
  }

  /** The URL of a request: its host, and its target from the first slash on. That is host and
      target, joined, exactly when the target starts with the slash. */
  lemma UrlOfRequest(verb: seq<byte>, target: seq<byte>, between: seq<byte>, host: seq<byte>, eol: byte,
                     rest: seq<byte>)
    requires NulFree(verb + [32] + target + [32] + between) && 0 in rest
    requires 47 !in verb && 47 in target && 32 !in target
    requires 13 !in host && 10 !in host && eol in {13, 10}
    requires FirstHostAfter(verb + [32] + target + [32] + between)
    ensures var text := RequestText(verb, target, between, host, eol, rest);
            var slash := Before(target, {47});
            && 0 in text && Terminated(text)
            && Url(text) == Some(host + target[slash..])
            && (Url(text) == Some(host + target) <==> target[0] == 47)
  {
    hide FirstHostAfter, Before, Starts, NulFree, Url, Terminated;
    var pre := verb + [SPACE] + target + [SPACE] + between;
    var after := host + [eol] + rest;
    var slash := Before(target, {SLASH[0]});
    SlashFirst(target);
    assert RequestText(verb, target, between, host, eol, rest) == (pre + HOST) + after;
    CutRequest(verb, target, between, after, slash);
    assert SLASH == [target[slash]];
    NoSlashBefore(verb, target[..slash]);
    NoSpaceIn(target, slash);
    UrlOfText((pre + HOST) + after, pre, host, eol, rest,
              verb + [SPACE] + target[..slash], target[slash..], between + HOST + after);
    if slash > 0 {
      assert |host + target[slash..]| != |host + target|;
    } else {
      assert target[0..] == target;
    }
  }

  lemma NoSlashBefore(verb: seq<byte>, t: seq<byte>)
    requires SLASH[0] !in verb && SLASH[0] !in t
    ensures SLASH[0] !in verb + [SPACE] + t
  {
  }

  lemma NoSpaceIn(target: seq<byte>, slash: nat)
    requires slash <= |target| && SPACE !in target
    ensures SPACE !in target[slash..]
  {
  }

  lemma SlashFirst(target: seq<byte>)
    requires SLASH[0] in target
    ensures var slash := Before(target, {SLASH[0]});
            slash < |target| && target[slash] == SLASH[0] && SLASH[0] !in target[..slash]
    ensures Before(target, {SLASH[0]}) == 0 <==> target[0] == SLASH[0]
  {
  }

  const GET: seq<byte> := ['G' as int, 'E' as int, 'T' as int]
  /** http://h/ */
  const ABSOLUTE: seq<byte> :=
    ['h' as int, 't' as int, 't' as int, 'p' as int, ':' as int, '/' as int, '/' as int, 'h' as int, '/' as int]

  /** A request in absolute form, GET http://h/, gives h//h/ and not h and its path. */
  lemma AbsoluteFormDoubled(between: seq<byte>, rest: seq<byte>)
    requires NulFree(GET + [32] + ABSOLUTE + [32] + between) && 0 in rest
    requires FirstHostAfter(GET + [32] + ABSOLUTE + [32] + between)
    ensures Url(RequestText(GET, ABSOLUTE, between, ['h' as int], 13, rest))
            == Some(['h' as int, '/' as int, '/' as int, 'h' as int, '/' as int])
  {
    hide FirstHostAfter, NulFree, Url, RequestText, Terminated;
    assert ABSOLUTE[5] == SLASH[0];
    UrlOfRequest(GET, ABSOLUTE, between, ['h' as int], CR, rest);
    BeforeIs(ABSOLUTE, {SLASH[0]}, 5);
    assert ABSOLUTE[5..] == ['/' as int, '/' as int, 'h' as int, '/' as int];
    assert ['h' as int] + ABSOLUTE[5..] == ['h' as int, '/' as int, '/' as int, 'h' as int, '/' as int];
  }
}
