/** FAT entries in the bytes of sectors (filesystem/fat/platform/platform.c and the entry formats of
    filesystem/fat/fatapi, after sections "FAT Data Structure" and "FAT Type Determination" of Microsoft's FAT32
    File System Specification 1.03). Shifts and masks by constants are written as division and remainder. */
module FatBytes {
  import opened Division

  type byte = b: int | 0 <= b < 256

  type Sector = seq<byte>

  datatype FatType = FAT12 | FAT16 | FAT32

  const FAT12EOF: nat := 0x0fff
  const FAT16EOF: nat := 0xffff
  const FAT32EOF: nat := 0x0fff_ffff

  // ------------------------------------------------------------------ one sector

  /** FSGetWord and FSGetDWord: little-endian. */
  function GetWord(s: Sector, off: nat): nat
    requires off + 1 < |s|
  {
    s[off] as nat + 0x100 * (s[off + 1] as nat)
  }

  function GetDword(s: Sector, off: nat): nat
    requires off + 3 < |s|
  {
    GetWord(s, off) + 0x1_0000 * GetWord(s, off + 2)
  }

  /** The low `n` bytes of a number, lowest first. */
  function Bytes(v: nat, n: nat): (b: seq<byte>)
    ensures |b| == n
  {
    if n == 0 then [] else [v % 0x100] + Bytes(v / 0x100, n - 1)
  }

  /** FSWriteSector on part of a sector; PutWord and PutDword. */
  function Overwrite(s: Sector, off: nat, b: seq<byte>): (s': Sector)
    requires off + |b| <= |s|
    ensures |s'| == |s|
  {
    s[..off] + b + s[off + |b|..]
  }

  // ------------------------------------------------------------------ all sectors of a FAT

  ghost predicate Uniform(image: seq<Sector>, bps: nat) {
    bps > 0 && forall i :: 0 <= i < |image| ==> |image[i]| == bps
  }

  /** The byte at a distance from the beginning. */
  ghost function ByteAt(image: seq<Sector>, bps: nat, p: nat): byte
    requires Uniform(image, bps)
  {
    if Quotient(p, bps) < |image| then image[Quotient(p, bps)][Remainder(p, bps)] else 0
  }

  /** Distance of the first byte that belongs to the entry of a cluster. */
  function EntryOffset(t: FatType, c: nat): nat {
    match t
    case FAT12 => c + c / 2
    case FAT16 => 2 * c
    case FAT32 => 4 * c
  }

  /** Bytes that are read to decode an entry. */
  function EntrySize(t: FatType): nat {
    if t.FAT32? then 4 else 2
  }

  ghost function WordAt(image: seq<Sector>, bps: nat, p: nat): (w: nat)
    requires Uniform(image, bps)
    ensures w < 0x1_0000
  {
    ByteAt(image, bps, p) + 0x100 * ByteAt(image, bps, p + 1)
  }

  /** The entry of a cluster. Two 12-bit entries share a byte. */
  ghost function Entry(t: FatType, image: seq<Sector>, bps: nat, c: nat): (e: nat)
    requires Uniform(image, bps)
    ensures e < EntryLimit(t)
  {
    var p := EntryOffset(t, c);
    match t
    case FAT12 => if c % 2 == 1 then WordAt(image, bps, p) / 16 else WordAt(image, bps, p) % 0x1000
    case FAT16 => WordAt(image, bps, p)
    case FAT32 => WordAt(image, bps, p) + 0x1_0000 * WordAt(image, bps, p + 2)
  }

  /** Entries that can be stored. */
  function EntryLimit(t: FatType): nat {
    match t
    case FAT12 => 0x1000
    case FAT16 => 0x1_0000
    case FAT32 => 0x1_0000_0000
  }

  /** Decoding a 16-bit or 32-bit entry from the sector that holds it: FSGetWord or FSGetDWord. */
  function ReadEntry(t: FatType, buf: Sector, off: nat): nat
    requires off + EntrySize(t) <= |buf|
  {
    if t.FAT32? then GetDword(buf, off) else GetWord(buf, off)
  }

  lemma EntryInSectorRead(t: FatType, image: seq<Sector>, bps: nat, c: nat)
    requires Uniform(image, bps) && !t.FAT12?
    requires var p := EntryOffset(t, c); Quotient(p, bps) < |image| && Remainder(p, bps) + EntrySize(t) <= bps
    ensures var p := EntryOffset(t, c); ReadEntry(t, image[Quotient(p, bps)], Remainder(p, bps)) == Entry(t, image, bps,
            c)
  {
    var p := EntryOffset(t, c);
    SameSector(p, 1, bps);
    if t.FAT32? {
      SameSector(p, 2, bps);
      SameSector(p, 3, bps);
    }
  }

  /** The entries in bytes, lowest byte first: two 12-bit entries in three bytes, a 16-bit entry in two, a 32-bit entry
      in four. */
  lemma EntriesPacked(image: seq<Sector>, bps: nat, c: nat)
    requires Uniform(image, bps)
    ensures c % 2 == 0 ==>
              Entry(FAT12, image, bps, c) + 0x1000 * Entry(FAT12, image, bps, c + 1) ==
              ByteAt(image, bps, 3 * c / 2) + 0x100 * ByteAt(image, bps, 3 * c / 2 + 1) + 0x1_0000 * ByteAt(image, bps,
                3 * c / 2 + 2)
    ensures Entry(FAT16, image, bps, c) == ByteAt(image, bps, 2 * c) + 0x100 * ByteAt(image, bps, 2 * c + 1)
    ensures Entry(FAT32, image, bps, c) ==
            ByteAt(image, bps, 4 * c) + 0x100 * ByteAt(image, bps, 4 * c + 1) + 0x1_0000 * ByteAt(image, bps,
              4 * c + 2) + 0x100_0000 * ByteAt(image, bps, 4 * c + 3)
  {
    hide ByteAt;
    if c % 2 == 0 { PairPacked(image, bps, c); }
  }

  lemma PairPacked(image: seq<Sector>, bps: nat, c: nat)
    requires Uniform(image, bps) && c % 2 == 0
    ensures Entry(FAT12, image, bps, c) + 0x1000 * Entry(FAT12, image, bps, c + 1) ==
            ByteAt(image, bps, 3 * c / 2) + 0x100 * ByteAt(image, bps, 3 * c / 2 + 1) + 0x1_0000 * ByteAt(image, bps,
              3 * c / 2 + 2)
  {
    hide ByteAt, Uniform;
    var p := 3 * c / 2;
    assert EntryOffset(FAT12, c) == p && EntryOffset(FAT12, c + 1) == p + 1;
    Halved(WordAt(image, bps, p), WordAt(image, bps, p + 1), ByteAt(image, bps, p), ByteAt(image, bps, p + 1),
      ByteAt(image, bps, p + 2));
  }

  lemma Halved(low: nat, high: nat, a: byte, b: byte, c: byte)
    requires low == a + 0x100 * b && high == b + 0x100 * c
    ensures low % 0x1000 + 0x1000 * (high / 16) == a + 0x100 * b + 0x1_0000 * c
  {
    var n, m := b as int / 16, b as int % 16;
    assert b as int == 16 * n + m;
    assert low == n * 0x1000 + (a as int + 0x100 * m);
    assert high / 16 == n + 16 * c;
  }

  // ------------------------------------------------------------------ writing bytes

  /** The bytes `b` have been written from `p` on, and nothing else has changed. */
  ghost predicate Wrote(image: seq<Sector>, image': seq<Sector>, bps: nat, p: nat, b: seq<byte>) {
    && Uniform(image, bps) && Uniform(image', bps) && |image'| == |image|
    && (forall q: nat :: ByteAt(image', bps, q) == if p <= q < p + |b| then b[q - p] else ByteAt(image, bps, q))
  }

  /** Nearby bytes are in the same sector as long as the offset does not reach the sector's end. */
  lemma SameSector(p: nat, d: nat, bps: nat)
    requires bps > 0 && Remainder(p, bps) + d < bps
    ensures Quotient(p + d, bps) == Quotient(p, bps) && Remainder(p + d, bps) == Remainder(p, bps) + d
  {
    assert p == p / bps * bps + p % bps;
    DivModUnique(p + d, bps, p / bps, p % bps + d);
  }

  lemma NextSector(p: nat, d: nat, bps: nat)
    requires bps > 0 && bps <= Remainder(p, bps) + d < 2 * bps
    ensures Quotient(p + d, bps) == Quotient(p, bps) + 1 && Remainder(p + d, bps) == Remainder(p, bps) + d - bps
  {
    assert p == p / bps * bps + p % bps;
    assert (p / bps + 1) * bps == p / bps * bps + bps;
    DivModUnique(p + d, bps, p / bps + 1, p % bps + d - bps);
  }

  /** Writing inside one sector. */
  lemma OverwriteWrote(image: seq<Sector>, bps: nat, p: nat, b: seq<byte>)
    requires Uniform(image, bps) && Quotient(p, bps) < |image| && Remainder(p, bps) + |b| <= bps
    ensures var s := Quotient(p, bps);
            Wrote(image, image[s := Overwrite(image[s], Remainder(p, bps), b)], bps, p, b)
  {
    var s, off := Quotient(p, bps), Remainder(p, bps);
    var image' := image[s := Overwrite(image[s], off, b)];
    forall q: nat ensures ByteAt(image', bps, q) == if p <= q < p + |b| then b[q - p] else ByteAt(image, bps, q) {
      if p <= q < p + |b| {
        SameSector(p, q - p, bps);
      } else if Quotient(q, bps) == s {
        NotBetween(p, q, bps, |b|);
      }
    }
  }

  lemma NotBetween(p: nat, q: nat, bps: nat, n: nat)
    requires bps > 0 && Quotient(p, bps) == Quotient(q, bps) && !(p <= q < p + n)
    ensures !(Remainder(p, bps) <= Remainder(q, bps) < Remainder(p, bps) + n)
  {
    assert p == p / bps * bps + p % bps && q == q / bps * bps + q % bps;
  }

  /** Two writes next to each other. */
  lemma WroteTwice(i0: seq<Sector>, i1: seq<Sector>, i2: seq<Sector>, bps: nat, p: nat, a: seq<byte>, b: seq<byte>)
    requires Wrote(i0, i1, bps, p, a) && Wrote(i1, i2, bps, p + |a|, b)
    ensures Wrote(i0, i2, bps, p, a + b)
  {
  }

  lemma BytesTwo(v: nat)
    ensures Bytes(v, 2) == [v % 0x100, v / 0x100 % 0x100] && Bytes(v, 1) == [v % 0x100]
  {
    assert Bytes(v / 0x100 / 0x100, 0) == [];
    assert Bytes(v / 0x100, 1) == [v / 0x100 % 0x100];
  }

  lemma BytesFour(v: nat)
    ensures Bytes(v, 4) == [v % 0x100, v / 0x100 % 0x100, v / 0x1_0000 % 0x100, v / 0x100_0000 % 0x100]
  {
    BytesTwo(v / 0x1_0000);
    DivTwice(v, 0x100, 0x100);
    DivTwice(v, 0x1_0000, 0x100);
    assert Bytes(v, 4) == [v % 0x100] + ([v / 0x100 % 0x100] + Bytes(v / 0x100 / 0x100, 2));
  }

  lemma WordBytes(v: nat)
    ensures v % 0x100 + 0x100 * (v / 0x100 % 0x100) == v % 0x1_0000
  {
    DivTwice(v, 0x100, 0x100);
  }

  lemma DwordBytes(v: nat)
    ensures v % 0x100 + 0x100 * (v / 0x100 % 0x100) + 0x1_0000 * (v / 0x1_0000 % 0x100 +
            0x100 * (v / 0x100_0000 % 0x100)) == v % 0x1_0000_0000
  {
    DivTwice(v, 0x100, 0x100);
    DivTwice(v / 0x1_0000, 0x100, 0x100);
    DivTwice(v, 0x1_0000, 0x100);
    DivTwice(v, 0x1_0000, 0x1_0000);
  }

  /** Writing the bytes of a 16-bit or 32-bit entry changes that entry only. */
  lemma EntryWrote(t: FatType, image: seq<Sector>, image': seq<Sector>, bps: nat, c: nat, v: nat, d: nat)
    requires !t.FAT12? && Wrote(image, image', bps, EntryOffset(t, c), Bytes(v, EntrySize(t)))
    ensures Entry(t, image', bps, d) == if d == c then v % EntryLimit(t) else Entry(t, image, bps, d)
  {
    if t.FAT16? {
      BytesTwo(v);
      WordBytes(v);
    } else {
      BytesFour(v);
      DwordBytes(v);
    }
  }

  /** The 16 bits that are written for a 12-bit entry: the other half byte stays. */
  function Merged12(w: nat, c: nat, v: nat): nat {
    if c % 2 == 1 then v * 16 + w % 16 else v % 0x1000 + w / 0x1000 * 0x1000
  }

  /** Writing a 12-bit entry together with the half byte of its neighbour changes that entry only. */
  lemma Entry12Wrote(image: seq<Sector>, image': seq<Sector>, bps: nat, c: nat, v: nat, d: nat)
    requires Uniform(image, bps)
    requires Wrote(image, image', bps, EntryOffset(FAT12, c),
             Bytes(Merged12(WordAt(image, bps, EntryOffset(FAT12, c)), c, v), 2))
    ensures Entry(FAT12, image', bps, d) == if d == c then v % 0x1000 else Entry(FAT12, image, bps, d)
  {
    hide ByteAt, Uniform;
    var p, q := EntryOffset(FAT12, c), EntryOffset(FAT12, d);
    var lo: nat, hi: nat := ByteAt(image, bps, p), ByteAt(image, bps, p + 1);
    var m := Merged12(WordAt(image, bps, p), c, v);
    BytesTwo(m);
    var lo', hi' := m % 0x100, m / 0x100 % 0x100;
    assert ByteAt(image', bps, p) == lo' && ByteAt(image', bps, p + 1) == hi';
    MergedHalves(lo, hi, c, v);
    if d == c {
    } else if d + 1 == c && c % 2 == 1 {
      assert q + 1 == p;
      LowHalf(ByteAt(image, bps, q), lo, lo');
    } else if d == c + 1 && c % 2 == 0 {
      assert q == p + 1;
      HighHalf(hi, hi', ByteAt(image, bps, q + 1));
    } else {
      Apart12(c, d);
    }
  }

  /** Entries that share no byte. */
  lemma Apart12(c: nat, d: nat)
    requires d != c && !(d + 1 == c && c % 2 == 1) && !(d == c + 1 && c % 2 == 0)
    ensures EntryOffset(FAT12, d) + 2 <= EntryOffset(FAT12, c) || EntryOffset(FAT12, c) + 2 <= EntryOffset(FAT12, d)
  {
  }

  lemma MergedHalves(lo: byte, hi: byte, c: nat, v: nat)
    ensures var m := Merged12(lo + 0x100 * hi, c, v);
            var w' := m % 0x100 + 0x100 * (m / 0x100 % 0x100);
            && (if c % 2 == 1 then w' / 16 else w' % 0x1000) == v % 0x1000
            && (c % 2 == 1 ==> m % 0x100 % 16 == lo % 16)
            && (c % 2 == 0 ==> m / 0x100 % 0x100 / 16 == hi / 16)
  {
    if c % 2 == 1 { MergedOdd(lo, hi, v); } else { MergedEven(lo, hi, v); }
  }

  /** The four lowest hexadecimal digits of a number. */
  lemma Digits(v: nat) returns (v3: nat, v2: nat, v1: nat, v0: nat)
    ensures v2 < 16 && v1 < 16 && v0 < 16 && v == 0x1000 * v3 + 0x100 * v2 + 16 * v1 + v0
    ensures v % 0x1000 == 0x100 * v2 + 16 * v1 + v0
  {
    v0 := v % 16;
    v1 := v / 16 % 16;
    v2 := v / 16 / 16 % 16;
    v3 := v / 16 / 16 / 16;
    DivModUnique(v, 0x1000, v3, 0x100 * v2 + 16 * v1 + v0);
  }

  lemma MergedOdd(lo: byte, hi: byte, v: nat)
    ensures var m := v * 16 + (lo + 0x100 * hi) % 16;
            var w' := m % 0x100 + 0x100 * (m / 0x100 % 0x100);
            w' / 16 == v % 0x1000 && m % 0x100 % 16 == lo % 16
  {
    var v3, v2, v1, v0 := Digits(v);
    var l := lo % 16;
    DivModUnique(lo + 0x100 * hi, 16, lo / 16 + 16 * hi, l);
    var m := v * 16 + l;
    var high := 0x100 * v3 + 16 * v2 + v1;
    DivModUnique(m, 0x100, high, 16 * v0 + l);
    DivModUnique(16 * v0 + l, 16, v0, l);
    DivModUnique(high, 0x100, v3, 16 * v2 + v1);
    DivModUnique(16 * v0 + l + 0x100 * (16 * v2 + v1), 16, v0 + 16 * (16 * v2 + v1), l);
  }

  lemma MergedEven(lo: byte, hi: byte, v: nat)
    ensures var m := v % 0x1000 + (lo + 0x100 * hi) / 0x1000 * 0x1000;
            var w' := m % 0x100 + 0x100 * (m / 0x100 % 0x100);
            w' % 0x1000 == v % 0x1000 && m / 0x100 % 0x100 / 16 == hi / 16
  {
    var v3, v2, v1, v0 := Digits(v);
    var h := hi / 16;
    DivModUnique(lo + 0x100 * hi, 0x1000, h, lo + 0x100 * (hi % 16));
    var m := 0x100 * v2 + 16 * v1 + v0 + h * 0x1000;
    DivModUnique(m, 0x100, v2 + 16 * h, 16 * v1 + v0);
    DivModUnique(v2 + 16 * h, 0x100, 0, v2 + 16 * h);
    DivModUnique(v2 + 16 * h, 16, h, v2);
    DivModUnique(m, 0x1000, h, 0x100 * v2 + 16 * v1 + v0);
  }

  lemma LowHalf(b: byte, lo: byte, lo': byte)
    requires lo' % 16 == lo % 16
    ensures (b + 0x100 * lo') % 0x1000 == (b + 0x100 * lo) % 0x1000
  {
    DivModUnique(b + 0x100 * lo, 0x1000, lo / 16, b + 0x100 * (lo % 16));
    DivModUnique(b + 0x100 * lo', 0x1000, lo' / 16, b + 0x100 * (lo' % 16));
  }

  lemma HighHalf(hi: byte, hi': byte, b: byte)
    requires hi' / 16 == hi / 16
    ensures (hi' + 0x100 * b) / 16 == (hi + 0x100 * b) / 16
  {
    DivModUnique(hi + 0x100 * b, 16, hi / 16 + 16 * b, hi % 16);
    DivModUnique(hi' + 0x100 * b, 16, hi' / 16 + 16 * b, hi' % 16);
  }
}
