/** Guest memory as the filesystem device sees it: a flat, byte-addressed store
    that the emulator reads and writes through Memory::Read_U32, Write_U32,
    Write_U16, Write_U8, Memset and raw pointer copies.  Words are stored
    big-endian, as on the console's PowerPC. */
module GuestMemory {

  type u8 = x: int | 0 <= x < 0x100
  type u16 = x: int | 0 <= x < 0x1_0000
  type u32 = x: int | 0 <= x < 0x1_0000_0000
  type u64 = x: int | 0 <= x < 0x1_0000_0000_0000_0000
  type s32 = x: int | -0x8000_0000 <= x < 0x8000_0000

  type Bytes = seq<u8>

  /** The region [a, a+n) lies entirely before or entirely after [b, b+k). */
  predicate Disjoint(a: int, n: int, b: int, k: int) {
    a + n <= b || b + k <= a
  }

  function Zeros(n: nat): (r: Bytes)
    ensures |r| == n && forall i :: 0 <= i < n ==> r[i] == 0
  {
    seq(n, _ => 0)
  }

  /** The memory `m` after the bytes `bs` are written at address `addr`. */
  function Store(m: Bytes, addr: nat, bs: Bytes): (r: Bytes)
    requires addr + |bs| <= |m|
    ensures |r| == |m|
    ensures r[addr..addr + |bs|] == bs
    ensures forall i :: 0 <= i < |m| && !(addr <= i < addr + |bs|) ==> r[i] == m[i]
  {
    m[..addr] + bs + m[addr + |bs|..]
  }

  /** Writing `x` and then `y` right after it is writing `x + y`. */
  lemma StoreAdjacent(m: Bytes, addr: nat, x: Bytes, y: Bytes)
    requires addr + |x| + |y| <= |m|
    ensures Store(Store(m, addr, x), addr + |x|, y) == Store(m, addr, x + y)
  {
    var l := Store(Store(m, addr, x), addr + |x|, y);
    var r := Store(m, addr, x + y);
    forall i | 0 <= i < |m| ensures l[i] == r[i] {
      if addr <= i < addr + |x| {
        assert l[i] == Store(m, addr, x)[i] == x[i - addr];
        assert r[i] == (x + y)[i - addr];
      } else if addr + |x| <= i < addr + |x| + |y| {
        assert l[i] == y[i - addr - |x|];
        assert r[i] == (x + y)[i - addr];
      }
    }
  }

  /** Big-endian encoding of a 16-bit value. */
  function BE16(v: u16): (r: Bytes)
    ensures |r| == 2 && r[0] as int * 0x100 + r[1] == v
  {
    [v / 0x100, v % 0x100]
  }

  /** Big-endian encoding of a 32-bit value. */
  function BE32(v: u32): (r: Bytes)
    ensures |r| == 4 && Decode32(r) == v
  {
    var hi, lo := v / 0x1_0000, v % 0x1_0000;
    assert v == hi * 0x1_0000 + lo;
    var r := [hi / 0x100, hi % 0x100, lo / 0x100, lo % 0x100];
    assert hi == r[0] * 0x100 + r[1];
    assert lo == r[2] * 0x100 + r[3];
    r
  }

  /** The 32-bit value stored big-endian in four bytes. */
  function Decode32(b: Bytes): (v: u32)
    requires |b| == 4
  {
    (b[0] as int * 0x100 + b[1]) * 0x1_0000 + (b[2] as int * 0x100 + b[3])
  }

  /** Every four bytes are the encoding of the word they decode to. */
  lemma EncodeDecode32(b: Bytes)
    requires |b| == 4
    ensures BE32(Decode32(b)) == b
  {
    var hi, lo := b[0] as int * 0x100 + b[1], b[2] as int * 0x100 + b[3];
    var v := Decode32(b);
    assert v == hi * 0x1_0000 + lo;
    assert v / 0x1_0000 == hi && v % 0x1_0000 == lo;
    assert hi / 0x100 == b[0] && hi % 0x100 == b[1];
    assert lo / 0x100 == b[2] && lo % 0x100 == b[3];
  }

  /** Memory::Read_U32. */
  function Load32(m: Bytes, addr: nat): (v: u32)
    requires addr + 4 <= |m|
    ensures BE32(v) == m[addr..addr + 4]
  {
    EncodeDecode32(m[addr..addr + 4]);
    Decode32(m[addr..addr + 4])
  }

  /** Memory::Read_U16. */
  function Load16(m: Bytes, addr: nat): (v: u16)
    requires addr + 2 <= |m|
    ensures BE16(v) == m[addr..addr + 2]
  {
    m[addr] as int * 0x100 + m[addr + 1]
  }

  /** Any window of the stored bytes reads back from memory. */
  lemma StoreWindow(m: Bytes, addr: nat, bs: Bytes, lo: nat, hi: nat)
    requires addr + |bs| <= |m| && lo <= hi <= |bs|
    ensures Store(m, addr, bs)[addr + lo..addr + hi] == bs[lo..hi]
  {
    var r := Store(m, addr, bs);
    forall i | 0 <= i < hi - lo
      ensures r[addr + lo..addr + hi][i] == bs[lo..hi][i]
    {
      assert r[addr + lo + i] == r[addr..addr + |bs|][lo + i];
    }
  }

  /** A store leaves every window it does not overlap as it was. */
  lemma StoreElsewhere(m: Bytes, addr: nat, bs: Bytes, lo: nat, hi: nat)
    requires addr + |bs| <= |m| && lo <= hi <= |m|
    requires Disjoint(addr, |bs|, lo, hi - lo)
    ensures Store(m, addr, bs)[lo..hi] == m[lo..hi]
  {
  }

  /** Writing bytes that are already there changes nothing. */
  lemma StoreUnchanged(m: Bytes, addr: nat, bs: Bytes)
    requires addr + |bs| <= |m| && m[addr..addr + |bs|] == bs
    ensures Store(m, addr, bs) == m
  {
    assert m == m[..addr] + m[addr..addr + |bs|] + m[addr + |bs|..];
  }

  /** A signed 32-bit status stored through an unsigned word, two's complement. */
  function AsU32(s: s32): (u: u32)
    ensures AsS32(u) == s
    ensures s < 0 <==> u >= 0x8000_0000
  {
    if s < 0 then s + 0x1_0000_0000 else s
  }

  /** The signed reading of a 32-bit word. */
  function AsS32(u: u32): s32 {
    if u >= 0x8000_0000 then u - 0x1_0000_0000 else u
  }

  /** Copies `bs` into guest memory at `addr`, byte by byte. */
  method WriteBytes(ram: array<u8>, addr: nat, bs: Bytes)
    requires addr + |bs| <= ram.Length
    modifies ram
    ensures ram[..] == Store(old(ram[..]), addr, bs)
  {
    var i := 0;
    while i < |bs|
      invariant 0 <= i <= |bs|
      invariant forall j :: 0 <= j < ram.Length ==>
        ram[j] == if addr <= j < addr + i then bs[j - addr] else old(ram[j])
    {
      ram[addr + i] := bs[i];
      i := i + 1;
    }
    assert ram[..] == Store(old(ram[..]), addr, bs);
  }

  /** Memory::Memset(addr, 0, size). */
  method Memset(ram: array<u8>, addr: nat, size: nat)
    requires addr + size <= ram.Length
    modifies ram
    ensures ram[..] == Store(old(ram[..]), addr, Zeros(size))
  {
    WriteBytes(ram, addr, Zeros(size));
  }

  /** Memory::Write_U32. */
  method WriteU32(ram: array<u8>, v: u32, addr: nat)
    requires addr + 4 <= ram.Length
    modifies ram
    ensures ram[..] == Store(old(ram[..]), addr, BE32(v))
  {
    WriteBytes(ram, addr, BE32(v));
  }

  /** Memory::Write_U16. */
  method WriteU16(ram: array<u8>, v: u16, addr: nat)
    requires addr + 2 <= ram.Length
    modifies ram
    ensures ram[..] == Store(old(ram[..]), addr, BE16(v))
  {
    WriteBytes(ram, addr, BE16(v));
  }

  /** Memory::Write_U8. */
  method WriteU8(ram: array<u8>, v: u8, addr: nat)
    requires addr + 1 <= ram.Length
    modifies ram
    ensures ram[..] == Store(old(ram[..]), addr, [v])
  {
    ram[addr] := v;
    assert ram[..] == Store(old(ram[..]), addr, [v]);
  }
}
