// The DHCP header as the C struct that overlays a packet: 548 bytes of memory, of which the
// transaction id, the seconds and the flags are kept in host order.
module Header {
  import opened Bytes

  const HDR_L := 548
  const OPT_MAX_L := 312
  /** Offset of the options in the struct. */
  const OPT := 236

  /** A struct image: the bytes the struct occupies. */
  type image = s: seq<byte> | |s| == HDR_L witness Zeros(HDR_L)

  /** ntohl on bytes 4-7 and ntohs on bytes 8-9 and 10-11; htonl and htons do the same. */
  function SwapFields(m: image): image {
    m[..4] + Swap(m[4..8]) + [m[9], m[8]] + [m[11], m[10]] + m[12..]
  }

  /** What decoding a packet into a struct leaves there. */
  function Decoded(m: image, packet: seq<byte>): image
    requires |packet| <= HDR_L
  {
    SwapFields(Splice(m, 0, packet))
  }

  /** The 16-bit number in two bytes, as the host and as the network read it. */
  function Value16(b: seq<byte>): int
    requires |b| == 2
  {
    (b[0] as int) + 0x100 * (b[1] as int)
  }

  function NetValue16(b: seq<byte>): int
    requires |b| == 2
  {
    (b[1] as int) + 0x100 * (b[0] as int)
  }

  /** Swapping moves no byte other than 4-11 and undoes itself. */
  lemma SwapFieldsTwice(m: image)
    ensures SwapFields(SwapFields(m)) == m
    ensures forall i :: 0 <= i < HDR_L && !(4 <= i < 12) ==> SwapFields(m)[i] == m[i]
    ensures SwapFields(m)[4..8] == Swap(m[4..8])
    ensures SwapFields(m)[8..10] == [m[9], m[8]] && SwapFields(m)[10..12] == [m[11], m[10]]
  {
    var s := SwapFields(m);
    assert forall i :: 12 <= i < HDR_L ==> s[i] == m[12..][i - 12];
    assert s[4..8] == Swap(m[4..8]);
    assert Swap(s[4..8]) == m[4..8];
    assert m == m[..4] + m[4..8] + [m[8], m[9]] + [m[10], m[11]] + m[12..];
    assert s[..4] == m[..4] && s[12..] == m[12..];
  }

  lemma IsSwapped(m: image, s: image)
    requires s[4] == m[7] && s[5] == m[6] && s[6] == m[5] && s[7] == m[4]
    requires s[8] == m[9] && s[9] == m[8] && s[10] == m[11] && s[11] == m[10]
    requires forall i :: 0 <= i < HDR_L && !(4 <= i < 12) ==> s[i] == m[i]
    ensures s == SwapFields(m)
  {
    assert s[..4] == m[..4] && s[12..] == m[12..];
    assert s[4..8] == [m[7], m[6], m[5], m[4]];
    assert m[4..8] == [m[4], m[5], m[6], m[7]];
    assert s == s[..4] + s[4..8] + [s[8], s[9]] + [s[10], s[11]] + s[12..];
  }

  /** Decoding a full packet gives its three numbers in host order, every other byte as it came,
      and encoding the struct gives the packet back. */
  lemma DecodeThenEncode(m: image, packet: image)
    ensures var d := Decoded(m, packet);
            && SwapFields(d) == packet
            && Value(d[4..8]) == NetValue(packet[4..8])
            && Value16(d[8..10]) == NetValue16(packet[8..10])
            && Value16(d[10..12]) == NetValue16(packet[10..12])
            && forall i :: 0 <= i < HDR_L && !(4 <= i < 12) ==> d[i] == packet[i]
  {
    hide SwapFields, Swap, Splice;
    SpliceWhole(m, packet);
    SwapFieldsTwice(packet);
  }

  /** A shorter packet leaves the struct behind its end alone, but for the three swaps, which mix the
      packet's bytes with the struct's when the packet ends among them. */
  lemma DecodeShort(m: image, packet: seq<byte>)
    requires |packet| <= HDR_L
    ensures var d, x := Decoded(m, packet), packet + m[|packet|..];
            && |x| == HDR_L && d == SwapFields(x)
            && (forall i :: |packet| <= i < HDR_L && !(4 <= i < 12) ==> d[i] == m[i])
            && (forall i :: 0 <= i < |packet| && !(4 <= i < 12) ==> d[i] == packet[i])
            && d[4..8] == Swap(x[4..8]) && d[8..10] == [x[9], x[8]] && d[10..12] == [x[11], x[10]]
  {
    SpliceStart(m, packet);
    hide Splice, SwapFields, Swap;
    SwapFieldsTwice(packet + m[|packet|..]);
  }

  lemma SpliceStart(m: image, packet: seq<byte>)
    requires |packet| <= HDR_L
    ensures Splice(m, 0, packet) == packet + m[|packet|..]
  {
  }

  class DhcpHeader {
    const mem: array<byte>

    ghost predicate Valid()
      reads this
    {
      mem.Length == HDR_L
    }

    ghost function Image(): image
      requires Valid()
      reads this, mem
    {
      mem[..]
    }

    /** A struct on the stack after memset(&hdr, 0, sizeof(hdr)). */
    constructor ()
      ensures Valid() && fresh(mem)
      ensures Image() == Zeros(HDR_L)
    {
      mem := new byte[HDR_L](_ => 0);
      new;
      assert mem[..] == Zeros(HDR_L);
    }

    /** Bytes of a field. */
    method Get(off: nat, n: nat) returns (b: seq<byte>)
      requires Valid() && off + n <= HDR_L
      ensures b == Image()[off..off + n]
    {
      b := mem[off..off + n];
    }

    /** An assignment to, or a memcpy into, a field. */
    method Put(off: nat, b: seq<byte>)
      requires Valid() && off + |b| <= HDR_L
      modifies mem
      ensures Image() == Splice(old(Image()), off, b)
    {
      CopyInto(mem, off, b);
    }

    /** The three byte-order conversions, in place. */
    method SwapInPlace()
      requires Valid()
      modifies mem
      ensures Image() == SwapFields(old(Image()))
    {
      ghost var m := mem[..];
      mem[4], mem[5], mem[6], mem[7] := mem[7], mem[6], mem[5], mem[4];
      mem[8], mem[9] := mem[9], mem[8];
      mem[10], mem[11] := mem[11], mem[10];
      IsSwapped(m, mem[..]);
    }

    /** set_dhcp_hdr_from_bytes. */
    method SetFromBytes(buf: array<byte>, n: nat)
      requires Valid() && n <= buf.Length && n <= HDR_L && buf != mem
      modifies mem
      ensures Image() == Decoded(old(Image()), buf[..n])
    {
      Put(0, buf[..n]);
      SwapInPlace();
    }

    /** set_bytes_from_dhcp_hdr: the struct is left swapped, also when the buffer is too small. */
    method ToBytes(buf: array<byte>, n: nat)
      requires Valid() && n <= buf.Length && buf != mem
      modifies mem, buf
      ensures Image() == SwapFields(old(Image()))
      ensures buf[..] == if n >= HDR_L then Splice(old(buf[..]), 0, SwapFields(old(Image())))
                         else old(buf[..])
    {
      SwapInPlace();
      if n >= HDR_L {
        CopyInto(buf, 0, mem[..]);
      }
    }
  }
}
