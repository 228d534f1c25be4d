/** The cache of bit sectors of filesystem/chkdsk/src/FatUtils.c as values: what five descriptors, five
    buffers and the device together say about the bit sectors of the second FAT, and how each step of
    FAT32_UpdateBit changes that. */
module CheckDiskBitCache {
  import opened CheckDiskWords

  const MAX_CACHES: nat := 5
  const READCOUNTER: int := 105
  const WRITECOUNTER: int := 100

  datatype CacheDescriptor = CacheDescriptor(valid: bool, sector: nat, write: bool, counter: int)

  datatype BitOperation = GetBit | SetBit | FreeBit

  /** Two device contents differ at most in the sectors from `lo` up to but excluding `hi`. */
  ghost predicate SameOutside(a: seq<Sector>, b: seq<Sector>, lo: nat, hi: nat) {
    |a| == |b| && forall j :: 0 <= j < |a| && !(lo <= j < hi) ==> a[j] == b[j]
  }

  predicate Holds(d: CacheDescriptor, sector: nat) {
    d.valid && d.sector == sector
  }

  /** Some slot other than `x` holds the sector. */
  ghost predicate Cached(ds: seq<CacheDescriptor>, sector: nat, x: int) {
    exists i :: 0 <= i < |ds| && i != x && Holds(ds[i], sector)
  }

  /** A slot in use holds one of the sectors from `base` on as it should be, and so does the device
      unless the slot is to be written back. */
  ghost predicate SlotAgrees(d: CacheDescriptor, buffer: Sector, disk: seq<Sector>, base: nat, image: seq<Sector>) {
    if d.valid
    then base <= d.sector < base + |image| && d.sector < |disk| && buffer == image[d.sector - base] &&
         (d.write || disk[d.sector] == image[d.sector - base])
    else !d.write
  }

  /** No sector is in two slots other than `x`. */
  ghost predicate NoTwice(ds: seq<CacheDescriptor>, x: int) {
    forall i, j :: 0 <= i < j < |ds| && i != x && j != x && ds[i].valid && ds[j].valid ==> ds[i].sector != ds[j].sector
  }

  /** Slots other than `x` and device together hold `image` in the sectors from `base` on. */
  ghost predicate Agrees(ds: seq<CacheDescriptor>, mem: seq<Sector>, disk: seq<Sector>, base: nat, image: seq<Sector>,
      x: int) {
    && |ds| == |mem| == MAX_CACHES && base + |image| <= |disk| && NoTwice(ds, x)
    && (forall i :: 0 <= i < MAX_CACHES && i != x ==> SlotAgrees(ds[i], mem[i], disk, base, image))
    && (forall j :: 0 <= j < |image| ==> Cached(ds, base + j, x) || disk[base + j] == image[j])
  }

  // ------------------------------------------------------------------ replacing a sector

  /** The slot that is chosen: the first unused one, or else one with the largest counter. */
  predicate Chosen(ds: seq<CacheDescriptor>, x: nat) {
    x < |ds| &&
    (ds[x].valid ==> forall i ::
      0 <= i < |ds| ==> ds[i].valid && (ds[i].counter <= ds[x].counter || ds[i].counter <= 0))
  }

  /** Slot `x` can be given up once its sector has been written back if that was due. */
  lemma AgreesEvict(ds: seq<CacheDescriptor>, mem: seq<Sector>, disk: seq<Sector>, base: nat, image: seq<Sector>,
      x: nat)
    requires Agrees(ds, mem, disk, base, image, -1) && x < MAX_CACHES
    ensures ds[x].write ==> ds[x].valid && base <= ds[x].sector < base + |image|
    ensures Agrees(ds, mem, if ds[x].write then disk[ds[x].sector := mem[x]] else disk, base, image, x)
  {
    assert SlotAgrees(ds[x], mem[x], disk, base, image);
    var disk' := if ds[x].write then disk[ds[x].sector := mem[x]] else disk;
    forall i | 0 <= i < MAX_CACHES && i != x ensures SlotAgrees(ds[i], mem[i], disk', base, image) {
      assert SlotAgrees(ds[i], mem[i], disk, base, image);
    }
    forall j | 0 <= j < |image| ensures Cached(ds, base + j, x) || disk'[base + j] == image[j] {
      if Cached(ds, base + j, -1) && !Cached(ds, base + j, x) {
        var i :| 0 <= i < |ds| && Holds(ds[i], base + j);
        assert i == x;
      }
    }
  }

  /** Slot `x` is irrelevant, so its descriptor may change. */
  lemma AgreesIgnore(ds: seq<CacheDescriptor>, mem: seq<Sector>, disk: seq<Sector>, base: nat, image: seq<Sector>,
      x: nat, d: CacheDescriptor)
    requires Agrees(ds, mem, disk, base, image, x) && x < MAX_CACHES
    ensures Agrees(ds[x := d], mem, disk, base, image, x)
  {
    CachedIgnore(ds, x, d);
  }

  lemma CachedIgnore(ds: seq<CacheDescriptor>, x: nat, d: CacheDescriptor)
    requires x < |ds|
    ensures forall sector :: Cached(ds[x := d], sector, x) <==> Cached(ds, sector, x)
  {
    forall sector ensures Cached(ds[x := d], sector, x) <==> Cached(ds, sector, x) {
      if Cached(ds, sector, x) {
        var i :| 0 <= i < |ds| && i != x && Holds(ds[i], sector);
        assert Holds(ds[x := d][i], sector);
      }
      if Cached(ds[x := d], sector, x) {
        var i :| 0 <= i < |ds| && i != x && Holds(ds[x := d][i], sector);
        assert Holds(ds[i], sector);
      }
    }
  }

  /** Reading a sector that no other slot holds into slot `x`. */
  lemma AgreesFill(ds: seq<CacheDescriptor>, mem: seq<Sector>, disk: seq<Sector>, base: nat, image: seq<Sector>,
      x: nat, sector: nat)
    requires Agrees(ds, mem, disk, base, image, x) && x < MAX_CACHES && ds[x].valid && ds[x].sector == sector
    requires base <= sector < base + |image| && !Cached(ds, sector, x)
    ensures Agrees(ds, mem[x := disk[sector]], disk, base, image, -1)
  {
    var mem' := mem[x := disk[sector]];
    assert disk[sector] == image[sector - base] by { assert sector == base + (sector - base); }
    forall i | 0 <= i < MAX_CACHES ensures SlotAgrees(ds[i], mem'[i], disk, base, image) {
    }
    forall i | 0 <= i < MAX_CACHES && i != x && ds[i].valid ensures ds[i].sector != sector {
      assert !Holds(ds[i], sector);
    }
    forall j | 0 <= j < |image| ensures Cached(ds, base + j, -1) || disk[base + j] == image[j] {
      if Cached(ds, base + j, x) {
        var i :| 0 <= i < |ds| && i != x && Holds(ds[i], base + j);
      }
    }
  }

  /** Counters play no part. */
  lemma AgreesCounters(ds: seq<CacheDescriptor>, ds': seq<CacheDescriptor>, mem: seq<Sector>, disk: seq<Sector>,
      base: nat, image: seq<Sector>)
    requires Agrees(ds, mem, disk, base, image, -1) && |ds'| == |ds|
    requires forall i :: 0 <= i < |ds| ==> ds'[i] == ds[i].(counter := ds'[i].counter)
    ensures Agrees(ds', mem, disk, base, image, -1)
  {
    forall j | 0 <= j < |image| ensures Cached(ds', base + j, -1) || disk[base + j] == image[j] {
      if Cached(ds, base + j, -1) {
        var i :| 0 <= i < |ds| && Holds(ds[i], base + j);
        assert Holds(ds'[i], base + j);
      }
    }
    forall i | 0 <= i < MAX_CACHES ensures SlotAgrees(ds'[i], mem[i], disk, base, image) {
      assert SlotAgrees(ds[i], mem[i], disk, base, image);
    }
  }

  /** Changing a word of a cached sector, with the slot marked for writing back. */
  lemma AgreesChange(ds: seq<CacheDescriptor>, mem: seq<Sector>, disk: seq<Sector>, base: nat, image: seq<Sector>,
      x: nat, buffer: Sector, counter: int)
    requires Agrees(ds, mem, disk, base, image, -1) && x < MAX_CACHES && ds[x].valid
    ensures base <= ds[x].sector < base + |image| && mem[x] == image[ds[x].sector - base]
    ensures Agrees(ds[x := ds[x].(write := true, counter := counter)], mem[x := buffer], disk, base,
            image[ds[x].sector - base := buffer], -1)
  {
    assert SlotAgrees(ds[x], mem[x], disk, base, image);
    var ds' := ds[x := ds[x].(write := true, counter := counter)];
    var image' := image[ds[x].sector - base := buffer];
    forall i | 0 <= i < MAX_CACHES ensures SlotAgrees(ds'[i], mem[x := buffer][i], disk, base, image') {
      assert SlotAgrees(ds[i], mem[i], disk, base, image);
    }
    forall j | 0 <= j < |image| ensures Cached(ds', base + j, -1) || disk[base + j] == image'[j] {
      if base + j == ds[x].sector {
        assert Holds(ds'[x], base + j);
      } else if Cached(ds, base + j, -1) {
        var i :| 0 <= i < |ds| && Holds(ds[i], base + j);
        assert Holds(ds'[i], base + j);
      }
    }
  }

  /** Sectors outside the bit sectors play no part. */
  lemma AgreesElsewhere(ds: seq<CacheDescriptor>, mem: seq<Sector>, disk: seq<Sector>, disk': seq<Sector>, base: nat,
      image: seq<Sector>)
    requires Agrees(ds, mem, disk, base, image, -1) && |disk'| == |disk|
    requires forall j :: base <= j < base + |image| ==> disk'[j] == disk[j]
    ensures Agrees(ds, mem, disk', base, image, -1)
  {
    forall i | 0 <= i < MAX_CACHES ensures SlotAgrees(ds[i], mem[i], disk', base, image) {
      assert SlotAgrees(ds[i], mem[i], disk, base, image);
    }
  }
}
