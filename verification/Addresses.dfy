// The address the server derives from its cursor: the network part of its own address,
// as a word in memory order, plus the byte-swapped cursor.
module Addresses {
  import opened Bytes

  /** What init() reads from the interface; each address is the word s_addr holds. */
  datatype Config = Config(myIp: word, subAddr: word, dnsAddr: word)

  /** Bitwise and. */
  function And(a: nat, b: nat): (c: nat)
    ensures c <= a
  {
    if a == 0 || b == 0 then 0
    else (if a % 2 == 1 && b % 2 == 1 then 1 else 0) + 2 * And(a / 2, b / 2)
  }

  function And32(v: word, w: word): word {
    [And(v[0], w[0]), And(v[1], w[1]), And(v[2], w[2]), And(v[3], w[3])]
  }

  function Network(cfg: Config): word {
    And32(cfg.myIp, cfg.subAddr)
  }

  /** get_cur_ip when the cursor is n. */
  function CurAddr(cfg: Config, n: nat): word {
    Add32(Network(cfg), Swap(Word(n)))
  }

  /** The server's addresses, by cursor. */
  function Plan(cfg: Config): nat -> word {
    n => CurAddr(cfg, n)
  }

  // ------------------------------------------------- when the addition is right

  /** No octet of one word added to the same octet of the other exceeds a byte. */
  predicate OctetsFit(v: word, w: word) {
    forall i :: 0 <= i < 4 ==> (v[i] as int) + (w[i] as int) < 0x100
  }

  /** Adding two words whose bytes are in network order, as the host adds, gives the sum of the
      numbers they stand for exactly when no octet overflows: a carry travels towards the wrong
      end of the address. */
  lemma SwappedAddExact(v: word, w: word)
    ensures NetValue(Add32(v, w)) == (NetValue(v) + NetValue(w)) % WORD <==> OctetsFit(v, w)
  {
    hide Add32, Digits, OctetsFit;
    Add32IsModular(Swap(v), Swap(w));
    ValueInjective(Swap(Add32(v, w)), Add32(Swap(v), Swap(w)));
    CarriesAgree(v, w);
  }

  /** Carrying from the first byte on and from the last byte on agree only without carries. */
  lemma CarriesAgree(v: word, w: word)
    ensures Swap(Add32(v, w)) == Add32(Swap(v), Swap(w)) <==> OctetsFit(v, w)
  {
  }

  /** A carry really goes astray: network 10.0.255.0 and cursor 256 give 10.0.0.1, not 10.1.0.0. */
  lemma CarryGoesAstray()
    ensures Add32([10, 0, 255, 0], Swap(Word(256))) == [10, 0, 0, 1]
    ensures NetValue([10, 0, 255, 0]) + 256 == NetValue([10, 1, 0, 0])
  {
  }

  // ------------------------------------------------- contiguous masks

  function Pow2(n: nat): (p: nat)
    ensures p >= 1
  {
    if n == 0 then 1 else 2 * Pow2(n - 1)
  }

  lemma Pow2Values()
    ensures Pow2(8) == 0x100 && Pow2(32) == WORD
  {
    assert Pow2(4) == 16;
    assert Pow2(8) == 0x100;
    assert Pow2(12) == 0x1000;
    assert Pow2(16) == 0x1_0000;
    assert Pow2(20) == 0x10_0000;
    assert Pow2(24) == 0x100_0000;
    assert Pow2(28) == 0x1000_0000;
  }

  lemma {:induction false} Pow2Monotone(j: nat, k: nat)
    requires j <= k
    ensures Pow2(j) <= Pow2(k)
  {
    if j < k {
      Pow2Monotone(j, k - 1);
    }
  }

  /** The mask of prefix length 32 - k. */
  predicate PrefixMask(mask: word, k: nat) {
    k <= 32 && NetValue(mask) == WORD - Pow2(k)
  }

  /** y shifted left by n bits. */
  function Shl(y: nat, n: nat): nat {
    if n == 0 then y else 2 * Shl(y, n - 1)
  }

  lemma Shl8(y: nat)
    ensures Shl(y, 8) == 0x100 * y
  {
    assert Shl(y, 1) == 2 * y;
    assert Shl(y, 3) == 8 * y;
    assert Shl(y, 5) == 32 * y;
    assert Shl(y, 7) == 128 * y;
  }

  lemma AndHalves(x: nat, y: nat, u: nat, v: nat)
    ensures And(x + 2 * y, u + 2 * v)
            == (if x % 2 == 1 && u % 2 == 1 then 1 else 0) + 2 * And(x / 2 + y, u / 2 + v)
  {
  }

  lemma ShlNext(y: nat, n: nat)
    ensures Shl(y, 0) == y && Shl(y, n + 1) == 2 * Shl(y, n)
  {
  }

  lemma Pow2Next(n: nat)
    ensures Pow2(0) == 1 && Pow2(n + 1) == 2 * Pow2(n)
  {
  }

  lemma AndZero(x: nat)
    ensures And(x, 0) == 0 == And(0, x)
  {
  }

  /** Bitwise and works on the low n bits and on the others independently. */
  lemma {:induction false} AndSplit(x: nat, y: nat, u: nat, v: nat, n: nat)
    requires x < Pow2(n) && u < Pow2(n)
    ensures And(x + Shl(y, n), u + Shl(v, n)) == And(x, u) + Shl(And(y, v), n)
  {
    hide *;
    if n == 0 {
      Pow2Next(0);
      ShlNext(y, 0);
      ShlNext(v, 0);
      ShlNext(And(y, v), 0);
      AndZero(0);
    } else {
      Pow2Next(n - 1);
      ShlNext(y, n - 1);
      ShlNext(v, n - 1);
      ShlNext(And(y, v), n - 1);
      AndSplit(x / 2, y, u / 2, v, n - 1);
      AndHalves(x, Shl(y, n - 1), u, Shl(v, n - 1));
      AndHalves(x, 0, u, 0);
    }
  }

  lemma AndDigit(x: byte, y: nat, u: byte, v: nat)
    ensures And(x + 0x100 * y, u + 0x100 * v) == And(x, u) + 0x100 * And(y, v)
  {
    hide And;
    Pow2Values();
    Shl8(y);
    Shl8(v);
    Shl8(And(y, v));
    AndSplit(x, y, u, v, 8);
  }

  /** Masking byte by byte is masking the number, read in network order. */
  lemma AndWords(v: word, w: word)
    ensures NetValue(And32(v, w)) == And(NetValue(v), NetValue(w))
  {
    hide And;
    var y2, z2: nat := v[1] + 0x100 * (v[0] as nat), w[1] + 0x100 * (w[0] as nat);
    var y1, z1: nat := v[2] + 0x100 * y2, w[2] + 0x100 * z2;
    AndDigit(v[3], y1, w[3], z1);
    AndDigit(v[2], y2, w[2], z2);
    AndDigit(v[1], v[0], w[1], w[0]);
  }

  // ------------------------------------------------- disjoint numbers add without a carry

  lemma {:induction false} DisjointSum(a: nat, b: nat, n: nat)
    requires a < Pow2(n) && b < Pow2(n) && And(a, b) == 0
    ensures a + b < Pow2(n)
  {
    if n > 0 {
      AndHalves(a, 0, b, 0);
      DisjointSum(a / 2, b / 2, n - 1);
    }
  }

  lemma ZeroDigits(d0: nat, d1: nat, d2: nat, d3: nat)
    requires Digits(d0, d1, d2, d3) == 0
    ensures d0 == d1 == d2 == d3 == 0
  {
  }

  lemma DisjointFits(v: word, w: word)
    requires And(NetValue(v), NetValue(w)) == 0
    ensures OctetsFit(v, w)
  {
    hide And, Digits, Pow2;
    AndWords(v, w);
    ZeroDigits(And(v[3], w[3]), And(v[2], w[2]), And(v[1], w[1]), And(v[0], w[0]));
    Pow2Values();
    DisjointSum(v[0], w[0], 8);
    DisjointSum(v[1], w[1], 8);
    DisjointSum(v[2], w[2], 8);
    DisjointSum(v[3], w[3], 8);
  }

  /** A mask whose low k bits are clear shares no bit with a number of k bits, and restores what
      it cut out when such a number was added. */
  lemma {:induction false} MaskedAdd(h: nat, n: nat, k: nat, m: nat)
    requires k <= n && m < Pow2(k) <= Pow2(n)
    ensures var mask := Pow2(n) - Pow2(k);
            And(And(h, mask), m) == 0 && And(And(h, mask) + m, mask) == And(h, mask)
  {
    hide *;
    if k == 0 {
      Pow2Next(0);
      AndIdempotent(h, Pow2(n) - 1);
      AndZero(And(h, Pow2(n) - 1));
    } else {
      Pow2Next(n - 1);
      Pow2Next(k - 1);
      MaskedAdd(h / 2, n - 1, k - 1, m / 2);
      MaskedAddStep(h, m, Pow2(n - 1) - Pow2(k - 1));
    }
  }

  lemma MaskedAddStep(h: nat, m: nat, mask: nat)
    requires And(And(h / 2, mask), m / 2) == 0
    requires And(And(h / 2, mask) + m / 2, mask) == And(h / 2, mask)
    ensures And(And(h, 2 * mask), m) == 0
    ensures And(And(h, 2 * mask) + m, 2 * mask) == And(h, 2 * mask)
  {
    hide And;
    var x := And(h / 2, mask);
    AndHalves(h, 0, 0, mask);
    AndHalves(0, x, m, 0);
    AndHalves(m, x, 0, mask);
  }

  lemma {:induction false} AndIdempotent(a: nat, b: nat)
    ensures And(And(a, b), b) == And(a, b)
  {
    hide *;
    if a == 0 || b == 0 {
      AndZero(a);
      AndZero(b);
    } else {
      var bit, x := if a % 2 == 1 && b % 2 == 1 then 1 else 0, And(a / 2, b / 2);
      AndIdempotent(a / 2, b / 2);
      AndHalves(a, 0, b, 0);
      AndHalves(bit, x, b, 0);
    }
  }

  /** Inside the host range of a contiguous mask the cursor shares no bit with the network. */
  lemma HostBitsFree(cfg: Config, k: nat, n: nat)
    requires PrefixMask(cfg.subAddr, k) && n < Pow2(k)
    ensures var net := NetValue(Network(cfg));
            && And(net, n) == 0
            && net + n < WORD
            && n < WORD
            && And(net + n, NetValue(cfg.subAddr)) == net
  {
    hide And, And32, Pow2, NetValue;
    Pow2Values();
    Pow2Monotone(k, 32);
    AndWords(cfg.myIp, cfg.subAddr);
    MaskedAdd(NetValue(cfg.myIp), 32, k, n);
    DisjointSum(NetValue(Network(cfg)), n, 32);
  }

  lemma NetworkIs(cfg: Config)
    ensures Network(cfg) == And32(cfg.myIp, cfg.subAddr)
  {
  }

  lemma CurAddrIs(cfg: Config, n: nat)
    ensures CurAddr(cfg, n) == Add32(Network(cfg), Swap(Word(n)))
    ensures n < WORD ==> NetValue(Swap(Word(n))) == n
    ensures NetValue(ZERO) == 0
  {
  }

  lemma NetValueInjective(v: word, w: word)
    ensures NetValue(v) == NetValue(w) ==> v == w
  {
    ValueInjective(Swap(v), Swap(w));
    assert v == Swap(Swap(v)) && w == Swap(Swap(w));
  }

  lemma {:induction false} Distributes(a: nat, b: nat, m: nat)
    requires a < b
    ensures a * m + m <= b * m
  {
    assert b * m == (b - 1) * m + m;
    if a < b - 1 {
      Distributes(a, b - 1, m);
    }
  }

  lemma RemainderUnique(q: nat, r: nat, p: nat, s: nat, m: nat)
    requires r < m && s < m && q * m + r == p * m + s
    ensures r == s
  {
    if q < p {
      Distributes(q, p, m);
    } else if p < q {
      Distributes(p, q, m);
    }
  }

  lemma Divided(h: nat, m: nat)
    requires m > 0
    ensures h == (h / m) * m + h % m && 0 <= h / m && 0 <= h % m < m
  {
  }

  lemma Doubled(q: nat, m: nat)
    ensures q * (2 * m) == 2 * (q * m)
  {
  }

  /** The low k bits of a number. */
  function Low(h: nat, k: nat): nat {
    h % Pow2(k)
  }

  lemma LowNext(h: nat, k: nat)
    ensures Low(h, 0) == 0 && Low(h, k + 1) == 2 * Low(h / 2, k) + h % 2
  {
    hide Pow2;
    Pow2Next(k);
    var p := Pow2(k);
    Divided(h / 2, p);
    Divided(h, 2 * p);
    Doubled((h / 2) / p, p);
    RemainderUnique((h / 2) / p, 2 * ((h / 2) % p) + h % 2, h / (2 * p), h % (2 * p), 2 * p);
  }

  lemma LowIs(h: nat, k: nat)
    ensures Low(h, k) == h % Pow2(k) < Pow2(k)
  {
    hide Pow2;
  }

  /** Masking out the low k bits takes away what they stand for. */
  lemma {:induction false} MaskCuts(h: nat, n: nat, k: nat)
    requires k <= n && h < Pow2(n) && Pow2(k) <= Pow2(n)
    ensures And(h, Pow2(n) - Pow2(k)) == h - Low(h, k)
  {
    hide *;
    Pow2Next(0);
    if n == 0 {
      AndZero(0);
      LowNext(h, 0);
    } else if k == 0 {
      Pow2Next(n - 1);
      LowNext(h, 0);
      LowNext(h / 2, 0);
      MaskCuts(h / 2, n - 1, 0);
      AndHalves(h, 0, 1, Pow2(n - 1) - 1);
    } else {
      Pow2Next(n - 1);
      Pow2Next(k - 1);
      LowNext(h, k - 1);
      MaskCuts(h / 2, n - 1, k - 1);
      AndHalves(h, 0, 0, Pow2(n - 1) - Pow2(k - 1));
    }
  }

  /** Bit i of a number. */
  predicate Bit(a: nat, i: nat) {
    if i == 0 then a % 2 == 1 else Bit(a / 2, i - 1)
  }

  lemma BitIs(a: nat, i: nat)
    ensures Bit(a, i) == if i == 0 then a % 2 == 1 else Bit(a / 2, i - 1)
  {
  }

  lemma {:induction false} ZeroHasNoBit(i: nat)
    ensures !Bit(0, i)
  {
    if i > 0 {
      ZeroHasNoBit(i - 1);
    }
  }

  /** Bitwise and has the bits that both numbers have. */
  lemma {:induction false} AndBits(a: nat, b: nat, i: nat)
    ensures Bit(And(a, b), i) <==> Bit(a, i) && Bit(b, i)
  {
    hide *;
    BitIs(a, i);
    BitIs(b, i);
    BitIs(And(a, b), i);
    if a == 0 || b == 0 {
      AndZero(a);
      AndZero(b);
      ZeroHasNoBit(i);
    } else {
      AndHalves(a, 0, b, 0);
      if i > 0 {
        AndBits(a / 2, b / 2, i - 1);
      }
    }
  }

  /** The network part: the server's own address without its low k bits. */
  lemma NetworkValue(cfg: Config, k: nat)
    requires PrefixMask(cfg.subAddr, k)
    ensures NetValue(Network(cfg)) == NetValue(cfg.myIp) - NetValue(cfg.myIp) % Pow2(k)
  {
    hide And, And32, Pow2, NetValue;
    Pow2Values();
    Pow2Monotone(k, 32);
    AndWords(cfg.myIp, cfg.subAddr);
    MaskCuts(NetValue(cfg.myIp), 32, k);
    LowIs(NetValue(cfg.myIp), k);
  }

  /** For every mask, contiguous or not, the address of the cursor 0 is the bits of the server's own
      address that the mask has. */
  lemma AddrOfZero(cfg: Config, i: nat)
    ensures NetValue(CurAddr(cfg, 0)) == And(NetValue(cfg.myIp), NetValue(cfg.subAddr))
    ensures Bit(NetValue(CurAddr(cfg, 0)), i) <==> Bit(NetValue(cfg.myIp), i) && Bit(NetValue(cfg.subAddr), i)
  {
    hide And, And32, NetValue, Bit;
    AndWords(cfg.myIp, cfg.subAddr);
    AndBits(NetValue(cfg.myIp), NetValue(cfg.subAddr), i);
    assert CurAddr(cfg, 0) == Network(cfg);
  }

  /** Inside the host range of a contiguous mask the addition never carries: the address, read in
      network order, is the server's own with the cursor in place of its host bits; it lies in the
      server's subnet; and only the cursor 0 can give the address 0. */
  lemma HostRangeAddr(cfg: Config, k: nat, n: nat)
    requires PrefixMask(cfg.subAddr, k) && n < Pow2(k)
    ensures NetValue(CurAddr(cfg, n)) == NetValue(cfg.myIp) - NetValue(cfg.myIp) % Pow2(k) + n
    ensures And32(CurAddr(cfg, n), cfg.subAddr) == And32(cfg.myIp, cfg.subAddr)
    ensures n > 0 ==> CurAddr(cfg, n) != ZERO
  {
    NetworkIs(cfg);
    hide And, And32, Word, Swap, Add32, Pow2, PrefixMask, NetValue, Network, CurAddr, OctetsFit;
    HostBitsFree(cfg, k, n);
    NetworkValue(cfg, k);
    CurAddrIs(cfg, n);
    DisjointFits(Network(cfg), Swap(Word(n)));
    SwappedAddExact(Network(cfg), Swap(Word(n)));
    AndWords(CurAddr(cfg, n), cfg.subAddr);
    NetValueInjective(And32(CurAddr(cfg, n), cfg.subAddr), Network(cfg));
  }

  /** Distinct cursors of the host range give distinct addresses. */
  lemma HostRangeInjective(cfg: Config, k: nat, m: nat, n: nat)
    requires PrefixMask(cfg.subAddr, k) && m < Pow2(k) && n < Pow2(k)
    ensures CurAddr(cfg, m) == CurAddr(cfg, n) <==> m == n
  {
    hide CurAddr, NetValue, Network, PrefixMask, Pow2;
    HostRangeAddr(cfg, k, m);
    HostRangeAddr(cfg, k, n);
  }

  // ------------------------------------------------- addresses outside the subnet

  lemma PrefixMaskIs(mask: word, k: nat)
    ensures PrefixMask(mask, k) <==> k <= 32 && NetValue(mask) == WORD - Pow2(k)
  {
  }

  /** An octet that keeps its masked part when another is added: the addend has no masked bit, and
      there is no carry. */
  lemma OctetKept(w: byte, c: byte, j: nat)
    requires j <= 8 && Pow2(j) <= 0x100
    requires And((w as int) + (c as int) - 0x100 * Carry((w as int) + (c as int)), 0x100 - Pow2(j)) == w
    ensures c < Pow2(j) && Carry((w as int) + (c as int)) == 0
  {
    hide Pow2;
    Pow2Values();
    var y := (w as int) + (c as int) - 0x100 * Carry((w as int) + (c as int));
    MaskCuts(y, 8, j);
    LowIs(y, j);
  }

  /** The mask of prefix length 32 - k: full octets, one that keeps all but its low j bits, empty ones. */
  lemma MaskOctets(mask: word, k: nat) returns (p: nat, j: nat)
    requires PrefixMask(mask, k)
    ensures p < 4 && j <= 8 && k == j + 8 * (3 - p)
    ensures Pow2(j) <= 0x100 && mask[p] == 0x100 - Pow2(j)
    ensures forall i :: 0 <= i < p ==> mask[i] == 0xFF
    ensures Pow2(k) == Scaled(Pow2(j), p)
  {
    hide *;
    PrefixMaskIs(mask, k);
    if k <= 8 {
      p, j := 3, k;
    } else if k <= 16 {
      p, j := 2, k - 8;
    } else if k <= 24 {
      p, j := 1, k - 16;
    } else {
      p, j := 0, k - 24;
    }
    Pow2Values();
    Pow2Monotone(j, 8);
    Pow2Scaled(j, p);
    OctetsOf(mask, Pow2(j), p);
  }

  /** A number of octet p, in network order, at its place in a word. */
  function Scaled(x: nat, p: nat): nat {
    if p == 3 then x else if p == 2 then 0x100 * x else if p == 1 then 0x1_0000 * x else 0x100_0000 * x
  }

  lemma EightMore(i: nat)
    ensures Pow2(i + 8) == 0x100 * Pow2(i)
  {
    hide Pow2;
    Pow2Next(i);
    Pow2Next(i + 1);
    Pow2Next(i + 2);
    Pow2Next(i + 3);
    Pow2Next(i + 4);
    Pow2Next(i + 5);
    Pow2Next(i + 6);
    Pow2Next(i + 7);
  }

  lemma Pow2Scaled(j: nat, p: nat)
    requires p < 4
    ensures Pow2(j + 8 * (3 - p)) == Scaled(Pow2(j), p)
  {
    hide Pow2;
    EightMore(j);
    EightMore(j + 8);
    EightMore(j + 16);
  }

  lemma OctetsOf(mask: word, x: nat, p: nat)
    requires p < 4 && 0 < x <= 0x100 && NetValue(mask) == WORD - Scaled(x, p)
    ensures mask[p] == 0x100 - x
    ensures forall i :: 0 <= i < p ==> mask[i] == 0xFF
  {
    NetValueInjective(mask,
      if p == 3 then [0xFF, 0xFF, 0xFF, 0x100 - x] else if p == 2 then [0xFF, 0xFF, 0x100 - x, 0]
      else if p == 1 then [0xFF, 0x100 - x, 0, 0] else [0x100 - x, 0, 0, 0]);
  }

  /** A word whose addition stays inside the subnet has no bit above the host bits. */
  lemma AddendStaysLow(v: word, c: word, mask: word, p: nat, j: nat)
    requires p < 4 && j <= 8 && Pow2(j) <= 0x100 && mask[p] == 0x100 - Pow2(j)
    requires forall i :: 0 <= i < p ==> mask[i] == 0xFF
    requires And32(Add32(v, c), mask) == v
    ensures NetValue(c) < Scaled(Pow2(j), p)
  {
    hide And, Pow2;
    Pow2Next(0);
    OctetKept(v[0], c[0], if p == 0 then j else 0);
    if p > 0 {
      OctetKept(v[1], c[1], if p == 1 then j else 0);
    }
    if p > 1 {
      OctetKept(v[2], c[2], if p == 2 then j else 0);
    }
    if p > 2 {
      OctetKept(v[3], c[3], j);
    }
  }

  /** The address of a cursor lies in the subnet exactly when the cursor is in the host range, for
      every cursor that the server's counter can hold. */
  lemma InSubnetExactly(cfg: Config, k: nat, n: nat)
    requires PrefixMask(cfg.subAddr, k) && n < WORD
    ensures And32(CurAddr(cfg, n), cfg.subAddr) == And32(cfg.myIp, cfg.subAddr) <==> n < Pow2(k)
  {
    NetworkIs(cfg);
    hide And32, Add32, Swap, Word, Network, CurAddr, NetValue, PrefixMask, Pow2, Scaled;
    if n < Pow2(k) {
      HostRangeAddr(cfg, k, n);
    }
    if And32(CurAddr(cfg, n), cfg.subAddr) == Network(cfg) {
      CurAddrIs(cfg, n);
      var p, j := MaskOctets(cfg.subAddr, k);
      AddendStaysLow(Network(cfg), Swap(Word(n)), cfg.subAddr, p, j);
    }
  }

  // ------------------------------------------------- addresses that are nobody's to give

  /** The subnet's broadcast address: the network with every bit set that the mask leaves. */
  function Broadcast(cfg: Config): word {
    var net, m := Network(cfg), cfg.subAddr;
    AndBelowMask(cfg.myIp[0], m[0]);
    AndBelowMask(cfg.myIp[1], m[1]);
    AndBelowMask(cfg.myIp[2], m[2]);
    AndBelowMask(cfg.myIp[3], m[3]);
    [(net[0] as int) + 0xFF - m[0], (net[1] as int) + 0xFF - m[1],
     (net[2] as int) + 0xFF - m[2], (net[3] as int) + 0xFF - m[3]]
  }

  lemma {:induction false} AndBelowMask(a: nat, b: nat)
    ensures And(a, b) <= b
  {
    if a != 0 && b != 0 {
      AndBelowMask(a / 2, b / 2);
    }
  }

  lemma BroadcastValue(cfg: Config)
    ensures NetValue(Broadcast(cfg)) == NetValue(Network(cfg)) + (WORD - 1 - NetValue(cfg.subAddr))
  {
    hide And32, And;
  }

  /** Inside the host range the server gives out its own address exactly at the cursor that is its
      own host number, and the broadcast address exactly at the last cursor. */
  lemma ReservedAddrs(cfg: Config, k: nat, n: nat)
    requires PrefixMask(cfg.subAddr, k) && n < Pow2(k)
    ensures CurAddr(cfg, n) == cfg.myIp <==> n == NetValue(cfg.myIp) % Pow2(k)
    ensures CurAddr(cfg, n) == Broadcast(cfg) <==> n == Pow2(k) - 1
    ensures NetValue(Broadcast(cfg)) == NetValue(cfg.myIp) - NetValue(cfg.myIp) % Pow2(k) + Pow2(k) - 1
  {
    hide *;
    PrefixMaskIs(cfg.subAddr, k);
    NetworkValue(cfg, k);
    HostRangeAddr(cfg, k, n);
    BroadcastValue(cfg);
    NetValueInjective(CurAddr(cfg, n), cfg.myIp);
    NetValueInjective(CurAddr(cfg, n), Broadcast(cfg));
  }
}
