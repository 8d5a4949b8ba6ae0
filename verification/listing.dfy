/** Directory listings as READ_DIR and GETUSAGE consume them.  The host search
    (CFileSearch over "*.*") and SplitPath are not part of this model: a listing
    is the sequence of entries the search yields, each with its bare
    "name.ext" and the size File::GetSize reports for it, in the host's
    enumeration order. */
module DirListing {
  import opened GuestMemory

  datatype Listed = Listed(name: Bytes, size: u64)

  /** Host file names never contain a NUL byte. */
  predicate NulFree(ls: seq<Listed>) {
    forall i, j :: 0 <= i < |ls| && 0 <= j < |ls[i].name| ==> ls[i].name[j] != 0
  }

  function Names(ls: seq<Listed>): (r: seq<Bytes>)
    ensures |r| == |ls| && forall i :: 0 <= i < |ls| ==> r[i] == ls[i].name
  {
    if ls == [] then [] else [ls[0].name] + Names(ls[1..])
  }

  /** The READ_DIR name buffer: every name followed by one NUL, back to back. */
  function Packed(ls: seq<Listed>): Bytes {
    if ls == [] then [] else ls[0].name + [0] + Packed(ls[1..])
  }

  /** Space the packed names take: each name plus its terminator. */
  function PackedSize(ls: seq<Listed>): nat {
    if ls == [] then 0 else |ls[0].name| + 1 + PackedSize(ls[1..])
  }

  lemma {:induction false} PackedLength(ls: seq<Listed>)
    ensures |Packed(ls)| == PackedSize(ls)
  {
    if ls != [] {
      PackedLength(ls[1..]);
    }
  }

  /** Packing one more entry appends its name and a terminator. */
  lemma {:induction false} PackedSnoc(ls: seq<Listed>, x: Listed)
    ensures Packed(ls + [x]) == Packed(ls) + x.name + [0]
  {
    if ls == [] {
      assert [x][1..] == [];
    } else {
      assert (ls + [x])[1..] == ls[1..] + [x];
      PackedSnoc(ls[1..], x);
    }
  }

  /** A prefix of the listing packs into a prefix of the buffer. */
  lemma {:induction false} PackedPrefix(ls: seq<Listed>, k: nat)
    requires k <= |ls|
    ensures PackedSize(ls[..k]) <= PackedSize(ls)
  {
    if k > 0 {
      assert ls[..k][1..] == ls[1..][..k - 1];
      PackedPrefix(ls[1..], k - 1);
    }
  }

  /** The packed size grows by one name and its terminator per entry. */
  lemma PackedSizeNext(ls: seq<Listed>, i: nat)
    requires i < |ls|
    ensures PackedSize(ls[..i + 1]) == PackedSize(ls[..i]) + |ls[i].name| + 1
  {
    assert ls[..i + 1] == ls[..i] + [ls[i]];
    PackedSnoc(ls[..i], ls[i]);
    PackedLength(ls[..i]);
    PackedLength(ls[..i + 1]);
  }

  /** One round of the READ_DIR loop: when memory `cur` holds the first `i`
      names packed at `addr`, copying name `i` with its terminator (strcpy) to
      the write pointer `p` and storing the terminator once more packs the
      first `i + 1` names. */
  lemma StorePackedNext(m: Bytes, addr: nat, ls: seq<Listed>, i: nat, cur: Bytes, p: nat)
    requires i < |ls| && addr + PackedSize(ls[..i]) + |ls[i].name| + 1 <= |m|
    requires |Packed(ls[..i])| == PackedSize(ls[..i])
    requires cur == Store(m, addr, Packed(ls[..i])) && p == addr + PackedSize(ls[..i])
    ensures |Packed(ls[..i + 1])| == PackedSize(ls[..i + 1]) == PackedSize(ls[..i]) + |ls[i].name| + 1
    ensures Store(Store(cur, p, ls[i].name + [0]), p + |ls[i].name|, [0])
         == Store(m, addr, Packed(ls[..i + 1]))
  {
    var name := ls[i].name;
    assert ls[..i + 1] == ls[..i] + [ls[i]];
    PackedSnoc(ls[..i], ls[i]);
    PackedLength(ls[..i + 1]);
    StoreAdjacent(m, addr, Packed(ls[..i]), name + [0]);
    assert Packed(ls[..i]) + (name + [0]) == Packed(ls[..i + 1]);
    StoreUnchanged(Store(cur, p, name + [0]), p + |name|, [0]);
  }

  /** Index of the first NUL in `b`, or |b| when there is none. */
  function FirstNul(b: Bytes): (k: nat)
    ensures k <= |b| && (k < |b| ==> b[k] == 0)
    ensures forall j :: 0 <= j < k ==> b[j] != 0
  {
    if b == [] then 0 else if b[0] == 0 then 0 else 1 + FirstNul(b[1..])
  }

  /** How a reader splits a buffer of NUL-terminated names. */
  function Unpack(b: Bytes): seq<Bytes>
    decreases |b|
  {
    if b == [] then []
    else
      var k := FirstNul(b);
      if k == |b| then [b] else [b[..k]] + Unpack(b[k + 1..])
  }

  /** Reading the packed names back yields exactly the names, in order. */
  lemma {:induction false} UnpackPacked(ls: seq<Listed>)
    requires NulFree(ls)
    ensures Unpack(Packed(ls)) == Names(ls)
  {
    if ls != [] {
      var n := ls[0].name;
      var b := Packed(ls);
      assert b == n + ([0] + Packed(ls[1..]));
      FirstNulAfter(n, [0] + Packed(ls[1..]));
      assert b[..|n|] == n;
      assert b[|n| + 1..] == Packed(ls[1..]);
      assert NulFree(ls[1..]) by {
        forall i, j | 0 <= i < |ls[1..]| && 0 <= j < |ls[1..][i].name|
          ensures ls[1..][i].name[j] != 0
        {
          assert ls[1..][i] == ls[i + 1];
        }
      }
      UnpackPacked(ls[1..]);
    }
  }

  lemma {:induction false} FirstNulAfter(n: Bytes, rest: Bytes)
    requires forall j :: 0 <= j < |n| ==> n[j] != 0
    requires rest != [] && rest[0] == 0
    ensures FirstNul(n + rest) == |n|
  {
    if n != [] {
      assert (n + rest)[1..] == n[1..] + rest;
      FirstNulAfter(n[1..], rest);
    } else {
      assert n + rest == rest;
    }
  }

  /** The exact sum of the entry sizes. */
  function SumSizes(ls: seq<Listed>): nat {
    if ls == [] then 0 else SumSizes(ls[..|ls| - 1]) + ls[|ls| - 1].size
  }

  const U64Modulus: int := 0x1_0000_0000_0000_0000

  /** The GETUSAGE summing loop: a u64 accumulator, so the sum wraps modulo 2^64. */
  method TotalSize(ls: seq<Listed>) returns (total: u64)
    ensures total == SumSizes(ls) % U64Modulus
    ensures SumSizes(ls) < U64Modulus ==> total == SumSizes(ls)
  {
    total := 0;
    var i := 0;
    while i < |ls|
      invariant 0 <= i <= |ls|
      invariant total == SumSizes(ls[..i]) % U64Modulus
    {
      assert ls[..i + 1][..i] == ls[..i];
      total := (total + ls[i].size) % U64Modulus;
      i := i + 1;
    }
    assert ls[..i] == ls;
  }
}
