// Bytes, 32-bit words and C strings, as a little-endian host lays them out in memory.
module Bytes {

  type byte = x: int | 0 <= x < 256
  /** A 32-bit word as a little-endian host stores it: its four bytes, lowest address first. */
  type word = w: seq<byte> | |w| == 4 witness [0, 0, 0, 0]

  const ZERO: word := [0, 0, 0, 0]
  const WORD := 0x1_0000_0000

  datatype Option<+T> = None | Some(value: T)

  // ---------------------------------------------------------------- words

  /** The number whose base-256 digits are given, least significant first. */
  function Digits(d0: int, d1: int, d2: int, d3: int): int {
    d0 + 0x100 * d1 + 0x1_0000 * d2 + 0x100_0000 * d3
  }

  /** The number the host reads from a word. */
  function Value(w: word): (x: nat)
    ensures x < WORD
  {
    Digits(w[0], w[1], w[2], w[3])
  }

  /** htonl and ntohl alike. */
  function Swap(w: word): word {
    [w[3], w[2], w[1], w[0]]
  }

  /** The number a word stands for in network byte order. */
  function NetValue(w: word): (x: nat)
    ensures x < WORD
  {
    Value(Swap(w))
  }

  /** The word that holds a number; a uint32_t keeps it modulo 2^32. */
  function Word(x: nat): word {
    var x1 := x / 0x100;
    var x2 := x1 / 0x100;
    var x3 := x2 / 0x100;
    [x % 0x100, x1 % 0x100, x2 % 0x100, x3 % 0x100]
  }

  lemma FirstDigit(a: byte, x: int, b: byte, y: int)
    requires a + 0x100 * x == b + 0x100 * y
    ensures a == b && x == y
  {
  }

  /** Words are their values: no two hold the same number. */
  lemma ValueInjective(v: word, w: word)
    ensures Value(v) == Value(w) <==> v == w
  {
    if Value(v) == Value(w) {
      var x2, y2: int := v[2] + 0x100 * (v[3] as int), w[2] + 0x100 * (w[3] as int);
      var x1, y1: int := v[1] + 0x100 * x2, w[1] + 0x100 * y2;
      FirstDigit(v[0], x1, w[0], y1);
      FirstDigit(v[1], x2, w[1], y2);
      FirstDigit(v[2], v[3], w[2], w[3]);
    }
  }

  /** Carry out of a column. */
  function Carry(column: int): int {
    if column >= 0x100 then 1 else 0
  }

  /** uint32_t addition, byte by byte with carries; the last carry is lost. */
  function Add32(v: word, w: word): word {
    var s0: int := (v[0] as int) + (w[0] as int);
    var s1: int := (v[1] as int) + (w[1] as int) + Carry(s0);
    var s2: int := (v[2] as int) + (w[2] as int) + Carry(s1);
    var s3: int := (v[3] as int) + (w[3] as int) + Carry(s2);
    [s0 - 0x100 * Carry(s0), s1 - 0x100 * Carry(s1), s2 - 0x100 * Carry(s2), s3 - 0x100 * Carry(s3)]
  }

  /** Add32 is addition modulo 2^32. */
  lemma Add32IsModular(v: word, w: word)
    ensures Value(Add32(v, w)) == (Value(v) + Value(w)) % WORD
  {
  }

  // ---------------------------------------------------------------- buffers

  function Zeros(n: nat): (z: seq<byte>)
    ensures |z| == n
  {
    seq(n, _ => 0)
  }

  /** s with the bytes from off on replaced by d: what memcpy(s + off, d, |d|) leaves. */
  function Splice(s: seq<byte>, off: nat, d: seq<byte>): (r: seq<byte>)
    requires off + |d| <= |s|
    ensures |r| == |s|
  {
    s[..off] + d + s[off + |d|..]
  }

  lemma SpliceAppend(s: seq<byte>, off: nat, a: seq<byte>, b: seq<byte>)
    requires off + |a| + |b| <= |s|
    ensures Splice(Splice(s, off, a), off + |a|, b) == Splice(s, off, a + b)
  {
  }

  lemma SpliceNext(s: seq<byte>, off: nat, d: seq<byte>, x: byte)
    requires off + |d| < |s|
    ensures Splice(s, off, d)[off + |d| := x] == Splice(s, off, d + [x])
  {
  }

  lemma SpliceNothing(s: seq<byte>, off: nat)
    requires off <= |s|
    ensures Splice(s, off, []) == s
  {
  }

  /** A copy over the whole of a buffer. */
  lemma SpliceWhole(s: seq<byte>, d: seq<byte>)
    requires |s| == |d|
    ensures Splice(s, 0, d) == d
  {
  }

  /** memcpy(dst + off, data, |data|). */
  method CopyInto(dst: array<byte>, off: nat, data: seq<byte>)
    requires off + |data| <= dst.Length
    modifies dst
    ensures dst[..] == Splice(old(dst[..]), off, data)
  {
    hide Splice;
    ghost var before := dst[..];
    SpliceNothing(before, off);
    assert data[..0] == [];
    for i := 0 to |data|
      invariant dst[..] == Splice(before, off, data[..i])
    {
      ghost var now := dst[..];
      dst[off + i] := data[i];
      assert dst[..] == now[off + i := data[i]];
      SpliceNext(before, off, data[..i], data[i]);
      assert data[..i + 1] == data[..i] + [data[i]];
    }
    assert data[..|data|] == data;
  }

  // ---------------------------------------------------------------- C strings

  /** strlen: the bytes before the first NUL (all of them when there is none). */
  function StrLen(s: seq<byte>): (n: nat)
    ensures n <= |s|
    ensures forall i :: 0 <= i < n ==> s[i] != 0
    ensures n < |s| ==> s[n] == 0
  {
    if s == [] || s[0] == 0 then 0 else 1 + StrLen(s[1..])
  }

  /** The bytes of the string held in a buffer. */
  function CStr(s: seq<byte>): seq<byte> {
    s[..StrLen(s)]
  }

  predicate NulFree(s: seq<byte>) {
    forall i :: 0 <= i < |s| ==> s[i] != 0
  }

  /** A string is whatever precedes the only NUL that has no NUL before it. */
  lemma StrLenIs(s: seq<byte>, n: nat)
    requires n <= |s|
    requires forall i :: 0 <= i < n ==> s[i] != 0
    requires n < |s| ==> s[n] == 0
    ensures StrLen(s) == n
  {
  }

  /** The strlen loop over an array that holds a NUL. */
  method StringLength(a: array<byte>) returns (n: nat)
    requires 0 in a[..]
    ensures n == StrLen(a[..]) && n < a.Length
  {
    n := 0;
    while a[n] != 0
      invariant n < a.Length
      invariant forall i :: 0 <= i < n ==> a[i] != 0
      invariant 0 in a[n..]
      decreases a.Length - n
    {
      assert a[n..] == [a[n]] + a[n + 1..];
      n := n + 1;
    }
    StrLenIs(a[..], n);
  }
}
