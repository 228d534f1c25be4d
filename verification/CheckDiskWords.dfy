/** Bits and FAT entries inside the 32-bit words of a sector (filesystem/chkdsk/src/BitIo.c and
    FatUtils.c). A sector is a sequence of words; on the little-endian layout of platform.c an aligned
    FSGetDWord yields the word itself and an aligned FSGetWord one of its halves. */
module CheckDiskWords {

  type word = bv32

  type Sector = seq<word>

  // ------------------------------------------------------------------ bits of a word

  function Mask(bit: nat): word
    requires bit < 32
  {
    (1 as word) << bit
  }

  predicate Meets(w: word, m: word) {
    w & m != 0
  }

  function Joined(w: word, m: word): word {
    w | m
  }

  function Cleared(w: word, m: word): word {
    w & (0xffff_ffff ^ m)
  }

  predicate HasBit(w: word, bit: nat)
    requires bit < 32
  {
    Meets(w, Mask(bit))
  }

  predicate Apart(m: word, n: word) {
    m & n == 0
  }

  lemma JoinedMeets(w: word, m: word, n: word)
    ensures Apart(m, n) ==> Meets(Joined(w, m), n) == Meets(w, n)
    ensures m != 0 ==> Meets(Joined(w, m), m)
  {
  }

  lemma ClearedMeets(w: word, m: word, n: word)
    ensures Apart(m, n) ==> Meets(Cleared(w, m), n) == Meets(w, n)
    ensures !Meets(Cleared(w, m), m)
  {
  }

  lemma MaskApart(bit: nat, other: nat)
    requires bit < 32 && other < 32
    ensures Mask(bit) != 0
    ensures bit != other ==> Apart(Mask(bit), Mask(other))
  {
  }

  /** What the bit operations return: zero exactly if the bit is not set. */
  function Masked(w: word, bit: nat): word
    requires bit < 32
  {
    w & Mask(bit)
  }

  lemma MaskedBit(w: word, bit: nat)
    requires bit < 32
    ensures Masked(w, bit) != 0 <==> HasBit(w, bit)
  {
    hide Mask;
  }

  /** The word after a bit operation's mask has been applied. */
  function Marked(w: word, bit: nat, value: bool): word
    requires bit < 32
  {
    if value then Joined(w, Mask(bit)) else Cleared(w, Mask(bit))
  }

  lemma MarkedBit(w: word, bit: nat, value: bool, other: nat)
    requires bit < 32 && other < 32
    ensures HasBit(Marked(w, bit, value), other) == if other == bit then value else HasBit(w, other)
  {
    hide Mask, Meets, Joined, Cleared, HasBit;
    SetBitWord(w, bit, other);
    ClearBitWord(w, bit, other);
  }

  lemma SetBitWord(w: word, bit: nat, other: nat)
    requires bit < 32 && other < 32
    ensures HasBit(Joined(w, Mask(bit)), other) == (other == bit || HasBit(w, other))
  {
    hide Mask, Meets, Joined, Apart;
    MaskApart(bit, other);
    JoinedMeets(w, Mask(bit), Mask(other));
  }

  lemma ClearBitWord(w: word, bit: nat, other: nat)
    requires bit < 32 && other < 32
    ensures HasBit(Cleared(w, Mask(bit)), other) == (other != bit && HasBit(w, other))
  {
    hide Mask, Meets, Cleared, Apart;
    MaskApart(bit, other);
    ClearedMeets(w, Mask(bit), Mask(other));
  }

  /** The bits that mark clusters 0 and 1. */
  lemma FirstBits(bit: nat)
    requires bit < 32
    ensures HasBit(0x03, bit) <==> bit < 2
    ensures !HasBit(0, bit)
  {
    if bit >= 2 { HighBit(bit); }
  }

  lemma HighBit(bit: nat)
    requires 2 <= bit < 32
    ensures Mask(bit) & 0x03 == 0
  {
  }

  // ------------------------------------------------------------------ FAT entries in a run of words

  /** Entries in a sector of `sw` words: 4 bytes each on FAT32, 2 bytes each on FAT16. */
  function EntriesPerSector(fat32: bool, sw: nat): nat {
    if fat32 then sw else 2 * sw
  }

  /** The word that holds entry `k`. */
  function WordOf(fat32: bool, k: nat): nat {
    if fat32 then k else k / 2
  }

  /** An entry in its word; on FAT16 the odd entry is the high half. */
  function EntryBits(fat32: bool, w: word, odd: bool): word {
    if fat32 then w else if odd then w >> 16 else w & 0xffff
  }

  lemma EntryBitsWhole(fat32: bool, w: word, odd: bool, odd': bool)
    requires fat32 || odd == odd'
    ensures EntryBits(fat32, w, odd) == EntryBits(fat32, w, odd')
  {
  }

  function FreedBits(fat32: bool, w: word, odd: bool): word {
    if fat32 then 0 else if odd then w & 0x0000_ffff else w & 0xffff_0000
  }

  lemma FreedBitsWhole(fat32: bool, w: word, odd: bool, odd': bool)
    requires fat32 || odd == odd'
    ensures FreedBits(fat32, w, odd) == FreedBits(fat32, w, odd')
  {
  }

  lemma FreedBitsAt(fat32: bool, w: word, odd: bool)
    ensures EntryBits(fat32, FreedBits(fat32, w, odd), odd) == 0
    ensures !fat32 ==> EntryBits(fat32, FreedBits(fat32, w, odd), !odd) == EntryBits(fat32, w, !odd)
  {
    HalfWords(w);
  }

  lemma HalfWords(w: word)
    ensures (w & 0xffff_0000) & 0xffff == 0 && (w & 0xffff_0000) >> 16 == w >> 16
    ensures (w & 0x0000_ffff) >> 16 == 0 && (w & 0x0000_ffff) & 0xffff == w & 0xffff
  {
  }

  /** The number that a stored entry stands for. */
  function Value(bits: word): (v: nat)
    ensures v < 0x1_0000_0000
  {
    bits as nat
  }

  lemma ValueZero(bits: word)
    ensures Value(bits) == 0 <==> bits == 0
  {
  }
}
