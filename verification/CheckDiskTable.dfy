/** The FAT as check-disk and as the file system see it: check-disk takes 16-bit and 32-bit entries out of 32-bit words
    (filesystem/chkdsk/src/FatUtils.c), the file system out of the bytes that these words have on the device
    (filesystem/fat/platform/platform.c). */
module CheckDiskTable {
  import opened Division
  import opened CheckDiskWords
  import opened FatBytes

  function TypeOf(fat32: bool): FatType {
    if fat32 then FAT32 else FAT16
  }

  /** The bytes of a sector of words: those of each word, lowest first. */
  ghost function BytesOf(words: seq<word>): (b: seq<byte>)
    ensures |b| == 4 * |words|
  {
    seq(4 * |words|, p requires 0 <= p < 4 * |words| => Bytes(Value(words[p / 4]), 4)[p % 4])
  }

  ghost function ImageBytes(image: seq<seq<word>>): (b: seq<seq<byte>>)
    ensures |b| == |image|
  {
    seq(|image|, i requires 0 <= i < |image| => BytesOf(image[i]))
  }

  lemma Uniformly(image: seq<seq<word>>, sw: nat)
    requires sw > 0 && forall i :: 0 <= i < |image| ==> |image[i]| == sw
    ensures Uniform(ImageBytes(image), 4 * sw)
  {
  }

  // ------------------------------------------------------------------ the halves of a word

  function Upper(w: word): bv16 {
    (w >> 16) as bv16
  }

  function Lower(w: word): bv16 {
    (w & 0xffff) as bv16
  }

  function Number(h: bv16): nat {
    h as nat
  }

  function FromHalves(upper: bv16, lower: bv16): word {
    ((upper as word) << 16) | (lower as word)
  }

  lemma WordOfHalves(w: word)
    ensures w == FromHalves(Upper(w), Lower(w))
  {
  }

  lemma HalvesValue(upper: bv16, lower: bv16)
    ensures Value(FromHalves(upper, lower)) == 0x1_0000 * Number(upper) + Number(lower)
  {
  }

  lemma UpperValue(w: word)
    ensures Value(w >> 16) == Number(Upper(w)) < 0x1_0000
  {
  }

  lemma LowerValue(w: word)
    ensures Value(w & 0xffff) == Number(Lower(w)) < 0x1_0000
  {
  }

  lemma Halves(w: word)
    ensures Value(w) == 0x1_0000 * Value(w >> 16) + Value(w & 0xffff)
    ensures Value(w >> 16) < 0x1_0000 && Value(w & 0xffff) < 0x1_0000
  {
    hide *;
    WordOfHalves(w);
    HalvesValue(Upper(w), Lower(w));
    UpperValue(w);
    LowerValue(w);
  }

  /** Reading a word's bytes. */
  lemma WordRead(words: seq<word>, i: nat)
    requires i < |words|
    ensures GetWord(BytesOf(words), 4 * i) == Value(words[i] & 0xffff)
    ensures GetWord(BytesOf(words), 4 * i + 2) == Value(words[i] >> 16)
    ensures GetDword(BytesOf(words), 4 * i) == Value(words[i])
  {
    hide *;
    BytesOfWord(words, i);
    BytesRead(BytesOf(words), 4 * i, Value(words[i]));
    Halves(words[i]);
    Unique(GetWord(BytesOf(words), 4 * i), GetWord(BytesOf(words), 4 * i + 2), Value(words[i] & 0xffff), Value(words[
      i] >> 16));
  }

  lemma BytesOfWord(words: seq<word>, i: nat)
    requires i < |words|
    ensures BytesOf(words)[4 * i..4 * i + 4] == Bytes(Value(words[i]), 4)
  {
    hide Value, Bytes;
    forall j: nat | j < 4 ensures BytesOf(words)[4 * i + j] == Bytes(Value(words[i]), 4)[j] {
      DivModUnique(4 * i + j, 4, i, j);
    }
  }

  lemma BytesRead(b: seq<byte>, p: nat, v: nat)
    requires p + 4 <= |b| && b[p..p + 4] == Bytes(v, 4) && v < 0x1_0000_0000
    ensures GetDword(b, p) == v == GetWord(b, p) + 0x1_0000 * GetWord(b, p + 2)
    ensures GetWord(b, p) < 0x1_0000
  {
    hide Bytes;
    BytesFour(v);
    DwordBytes(v);
    var four := b[p..p + 4];
    assert b[p] == four[0] && b[p + 1] == four[1] && b[p + 2] == four[2] && b[p + 3] == four[3];
  }

  lemma Unique(low: nat, high: nat, low': nat, high': nat)
    requires low < 0x1_0000 && low' < 0x1_0000 && low + 0x1_0000 * high == 0x1_0000 * high' + low'
    ensures low == low' && high == high'
  {
  }

  /** Where an entry lies. */
  lemma EntryPlace(fat32: bool, sw: nat, c: nat)
    requires sw > 0
    ensures var k := Remainder(c, EntriesPerSector(fat32, sw));
            && Quotient(EntryOffset(TypeOf(fat32), c), 4 * sw) == Quotient(c, EntriesPerSector(fat32, sw))
            && Remainder(EntryOffset(TypeOf(fat32), c), 4 * sw) == EntryOffset(TypeOf(fat32), k)
            && EntryOffset(TypeOf(fat32), k) + EntrySize(TypeOf(fat32)) <= 4 * sw
  {
    var eps, n := EntriesPerSector(fat32, sw), EntrySize(TypeOf(fat32));
    var q, k := Quotient(c, eps), Remainder(c, eps);
    DivMod(c, eps);
    Scaled(n, q, eps, k);
    DivModUnique(n * c, 4 * sw, q, n * k);
  }

  lemma Scaled(n: nat, q: nat, d: nat, k: nat)
    ensures n * (q * d + k) == q * (n * d) + n * k
  {
  }

  /** In a FAT of words, the entry that check-disk takes out of a word is the one that the file system reads. */
  lemma SameEntry(fat32: bool, image: seq<seq<word>>, sw: nat, c: nat)
    requires sw > 0 && forall i :: 0 <= i < |image| ==> |image[i]| == sw
    requires Quotient(c, EntriesPerSector(fat32, sw)) < |image|
    ensures var words, k := image[Quotient(c, EntriesPerSector(fat32, sw))], Remainder(c, EntriesPerSector(fat32, sw));
            && WordOf(fat32, k) < |words| && Uniform(ImageBytes(image), 4 * sw)
            && Value(EntryBits(fat32, words[WordOf(fat32, k)], k % 2 == 1)) ==
               Entry(TypeOf(fat32), ImageBytes(image), 4 * sw, c)
  {
    hide GetWord, GetDword, Value, Bytes, BytesOf, Entry, Quotient, Remainder;
    var q, k := Quotient(c, EntriesPerSector(fat32, sw)), Remainder(c, EntriesPerSector(fat32, sw));
    Uniformly(image, sw);
    EntryPlace(fat32, sw, c);
    EntryInSectorRead(TypeOf(fat32), ImageBytes(image), 4 * sw, c);
    WordRead(image[q], WordOf(fat32, k));
  }
}
