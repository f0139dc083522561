/**
 The qcow2 reader (lib/libvmi/libvmi/disk/vbd.c): two-level cluster mapping, compressed
 clusters and a chain of backing images, read chunk by chunk into a caller's buffer; and the disk
 that the "Cluster mapping" section of QEMU's docs/interop/qcow2.txt prescribes, against which
 it is measured.
 */
module Qcow2 {
  import opened Common

  function Pow2(n: nat): nat {
    if n == 0 then 1 else 2 * Pow2(n - 1)
  }

  /** What vbd_qcow2_open finds behind an image: no backing file, one that cannot be opened, or
      the next image of an acyclic chain. */
  datatype Backing = NoBacking | Unopenable | Chain(image: Image)

  /** An opened image: a disk of `size` bytes. `l1` is the L1 table; `beyond` is whatever word of
      memory follows it. */
  datatype Image = Image(clusterBits: nat, size: nat, l1: seq<nat>, beyond: nat, file: seq<Byte>, backing: Backing)

  /** Shift amounts stay inside the C integer types. */
  ghost predicate WellFormed(img: Image)
    decreases img
  {
    && 8 <= img.clusterBits <= 30 && |img.l1| < 0x1_0000_0000
    && (img.backing.Chain? ==> WellFormed(img.backing.image))
  }

  /** zlib's inflate: the bytes a compressed cluster expands to, or failure. */
  type Inflate = seq<Byte> -> Option<seq<Byte>>

  function ClusterSize(img: Image): nat { Pow2(img.clusterBits) }

  function BigEndian(s: seq<Byte>): nat {
    if s == [] then 0 else 256 * BigEndian(s[..|s| - 1]) + s[|s| - 1]
  }

  function Quotient(a: nat, n: nat): nat
    requires n > 0
  {
    a / n
  }

  function Remainder(a: nat, n: nat): (r: nat)
    requires n > 0
    ensures r < n
  {
    a % n
  }

  /** Inside one unit of `n`, the quotient stays and the remainder counts on. */
  lemma SameUnit(a: nat, n: nat, k: nat)
    requires n > 0 && Remainder(a, n) + k < n
    ensures Quotient(a + k, n) == Quotient(a, n) && Remainder(a + k, n) == Remainder(a, n) + k
  {
    DivUnique(a / n, n, a % n + k);
    assert a + k == a / n * n + (a % n + k);
  }

  // ---------------------------------------------------------------- cluster lookup

  lemma {:induction false} Pow2Grows(n: nat)
    ensures Pow2(n) >= 1 && (n >= 8 ==> Pow2(n) >= 256)
  {
    if n > 8 {
      Pow2Grows(n - 1);
    } else if n == 8 {
      assert Pow2(8) == 2 * Pow2(7) == 4 * Pow2(6) == 8 * Pow2(5) == 16 * Pow2(4);
    } else if n > 0 {
      Pow2Grows(n - 1);
    }
  }

  /** The L1 entry the code reads for guest cluster `c`: the index is kept in 32 bits, and only
      an index strictly greater than the table's size is refused. */
  function L1Entry(img: Image, c: nat): Option<nat>
    requires ClusterSize(img) >= 8
  {
    var i := c / (ClusterSize(img) / 8) % 0x1_0000_0000;
    if i > |img.l1| then None
    else if i == |img.l1| then Some(img.beyond)
    else Some(img.l1[i])
  }

  /** The entry that the format prescribes: none past the end of the table. */
  function PrescribedL1(img: Image, c: nat): Option<nat>
    requires ClusterSize(img) >= 8
  {
    var i := c / (ClusterSize(img) / 8);
    if i < |img.l1| then Some(img.l1[i]) else None
  }

  /** The entry read is the prescribed one exactly when the index is in range or its low 32 bits
      exceed the table's size. Otherwise it is the word after the table, or a wrapped entry. */
  lemma L1EntryPrescribed(img: Image, c: nat)
    requires ClusterSize(img) >= 8 && |img.l1| < 0x1_0000_0000
    ensures var i := c / (ClusterSize(img) / 8);
            && (L1Entry(img, c) == PrescribedL1(img, c) <==> i < |img.l1| || i % 0x1_0000_0000 > |img.l1|)
            && (i % 0x1_0000_0000 == |img.l1| ==> L1Entry(img, c) == Some(img.beyond))
            && (i >= |img.l1| > i % 0x1_0000_0000 ==> L1Entry(img, c) == Some(img.l1[i % 0x1_0000_0000]))
  {
    LowBits(c / (ClusterSize(img) / 8));
  }

  lemma LowBits(i: nat)
    ensures i < 0x1_0000_0000 ==> i % 0x1_0000_0000 == i
  {
  }

  /** Bits 9 to 55. */
  function L2TableOffset(l1Entry: nat): nat { l1Entry / 512 % 0x8000_0000_0000 * 512 }

  /** An L1 entry whose bits 9 to 55 hold `sectors`, whatever the bits around them, has its L2 table
      that many 512-byte sectors into the file. */
  lemma L2TableAt(top: nat, sectors: nat, low: nat)
    requires sectors < 0x8000_0000_0000 && low < 0x200
    ensures L2TableOffset(top * 0x100_0000_0000_0000 + sectors * 0x200 + low) == sectors * 0x200
  {
    DivUnique(top * 0x8000_0000_0000 + sectors, 0x200, low);
    DivUnique(top, 0x8000_0000_0000, sectors);
  }

  /** What a read from the file yields: all the bytes asked for, or failure. */
  function FileRead(file: seq<Byte>, offset: nat, length: nat): (r: Option<seq<Byte>>)
    ensures r.Some? <==> offset + length <= |file|
    ensures r.Some? ==> |r.value| == length && forall k :: 0 <= k < length ==> r.value[k] == file[offset + k]
  {
    if offset + length <= |file| then Some(file[offset..offset + length]) else None
  }

  /** Where an L2 entry says a cluster's bytes are. */
  datatype Place = Standard(offset: nat) | Compressed(offset: nat, length: nat)

  /** Bit 62 marks a compressed cluster. Its offset and its number of 512-byte sectors share the
      lower 62 bits; a standard cluster's offset is bits 1 to 61. */
  function PlaceOf(img: Image, entry: nat): Place
    requires 8 <= img.clusterBits <= 30
  {
    if IsCompressed(entry) then
      Pow2Grows(70 - img.clusterBits);
      Pow2Grows(img.clusterBits - 8);
      var split := Pow2(62 - (img.clusterBits - 8));
      var offset := entry % split;
      var sectors := entry / split % Pow2(img.clusterBits - 8) + 1;
      Compressed(offset, sectors * 512 - offset % 512)
    else
      Standard(entry % 0x4000_0000_0000_0000 / 2 * 2)
  }

  lemma {:induction false} Pow2Adds(a: nat, b: nat)
    ensures Pow2(a + b) == Pow2(a) * Pow2(b)
  {
    if a > 0 {
      Pow2Adds(a - 1, b);
      Pow2Next(a - 1);
      Pow2Next(a - 1 + b);
      hide Pow2;
      Doubled(Pow2(a - 1), Pow2(b));
    }
  }

  lemma Pow2Next(n: nat)
    ensures Pow2(n + 1) == 2 * Pow2(n)
  {
  }

  lemma Doubled(x: nat, y: nat)
    ensures 2 * x * y == 2 * (x * y)
  {
  }

  lemma Pow2Eight(n: nat)
    ensures Pow2(n + 8) == 256 * Pow2(n)
  {
    assert Pow2(n + 2) == 2 * Pow2(n + 1);
    assert Pow2(n + 4) == 2 * Pow2(n + 3);
    assert Pow2(n + 6) == 2 * Pow2(n + 5);
    assert Pow2(n + 8) == 2 * Pow2(n + 7);
  }

  lemma Pow2Of62()
    ensures Pow2(62) == 0x4000_0000_0000_0000
  {
    hide Pow2;
    Pow2Eight(6); Pow2Eight(14); Pow2Eight(22); Pow2Eight(30); Pow2Eight(38); Pow2Eight(46); Pow2Eight(54);
    Pow2Of6();
  }

  lemma Pow2Of6()
    ensures Pow2(6) == 64
  {
  }

  lemma Distributes(top: nat, units: nat, split: nat, more: nat)
    ensures (top * units + more) * split == top * (units * split) + more * split
  {
  }

  /** Three numbers packed into one word, read back. */
  lemma Fields(split: nat, units: nat, top: nat, more: nat, offset: nat)
    requires offset < split && more < units
    ensures units * split > 0
    ensures var entry := top * (units * split) + more * split + offset;
            && entry % split == offset && entry / split % units == more && entry / (units * split) == top
  {
    Distributes(top, units, split, more);
    DivUnique(top * units + more, split, offset);
    DivUnique(top, units, more);
    Distributes(1, units - more - 1, split, more + 1);
    Multiples(units - more - 1, split);
    Distributes(1, more, split, 1);
    assert more * split + offset < units * split;
    DivUnique(top, units * split, more * split + offset);
  }

  /** The entry that places a compressed cluster at `offset`, over `more` sectors beyond the
      first; `top` is bits 62 and 63. */
  lemma PlaceOfCompressed(img: Image, top: nat, more: nat, offset: nat)
    requires 8 <= img.clusterBits <= 30 && top % 2 == 1
    requires more < Pow2(img.clusterBits - 8) && offset < Pow2(70 - img.clusterBits)
    ensures var entry := top * 0x4000_0000_0000_0000 + more * Pow2(70 - img.clusterBits) + offset;
            PlaceOf(img, entry) == Compressed(offset, (more + 1) * 512 - offset % 512)
  {
    hide Pow2;
    Pow2Of62();
    Pow2Adds(img.clusterBits - 8, 70 - img.clusterBits);
    Fields(Pow2(70 - img.clusterBits), Pow2(img.clusterBits - 8), top, more, offset);
  }

  /** The entry of a standard cluster: `zero` is bit 0, which the reader drops. */
  lemma PlaceOfStandard(img: Image, top: nat, half: nat, zero: nat)
    requires 8 <= img.clusterBits <= 30 && top % 2 == 0
    requires half < 0x2000_0000_0000_0000 && zero < 2
    ensures PlaceOf(img, top * 0x4000_0000_0000_0000 + 2 * half + zero) == Standard(2 * half)
  {
    hide Pow2;
    DivUnique(top, 0x4000_0000_0000_0000, 2 * half + zero);
    DivUnique(half, 2, zero);
  }

  /** What the format says of an L2 entry: the cluster is at a place, it is not allocated here, it
      reads as zeroes, or the entry has no meaning. */
  datatype Prescription = At(place: Place) | Hole | Zeros | Nothing

  /** The reader's view of an entry: an offset of zero is a hole, anything else a place. */
  function ReaderView(img: Image, entry: nat): Prescription
    requires 8 <= img.clusterBits <= 30
  {
    if PlaceOf(img, entry).offset == 0 then Hole else At(PlaceOf(img, entry))
  }

  /** The fields of a standard entry: bit 0 says that the cluster reads as zeroes, bits 9 to 55 are
      the offset, and the bits around them are reserved and zero. */
  predicate ZeroFlag(entry: nat) { entry % 2 == 1 }

  function LowReserved(entry: nat): nat { entry / 2 % 256 }

  function HostOffset(entry: nat): nat { entry / 512 % 0x8000_0000_0000 * 512 }

  function HighReserved(entry: nat): nat { entry / 0x100_0000_0000_0000 % 64 }

  predicate IsCompressed(entry: nat) { entry / 0x4000_0000_0000_0000 % 2 == 1 }

  predicate Copied(entry: nat) { entry / 0x8000_0000_0000_0000 % 2 == 1 }

  /** The format's view. An offset of zero in a copied entry belongs to external data files, and a
      compressed cluster cannot lie at offset zero, where the header is. */
  function Prescribe(img: Image, entry: nat): Prescription
    requires 8 <= img.clusterBits <= 30
  {
    if IsCompressed(entry) then
      if PlaceOf(img, entry).offset == 0 then Nothing else At(PlaceOf(img, entry))
    else if LowReserved(entry) != 0 || HighReserved(entry) != 0 then Nothing
    else if ZeroFlag(entry) then Zeros
    else if HostOffset(entry) != 0 then At(Standard(HostOffset(entry)))
    else if Copied(entry) then Nothing
    else Hole
  }

  /** A compressed entry with an offset, or a standard one with neither zero flag nor reserved bits,
      and not copied without an offset. */
  predicate PlainEntry(img: Image, entry: nat)
    requires 8 <= img.clusterBits <= 30
  {
    if IsCompressed(entry) then PlaceOf(img, entry).offset != 0
    else
      && !ZeroFlag(entry) && LowReserved(entry) == 0 && HighReserved(entry) == 0
      && (Copied(entry) ==> HostOffset(entry) != 0)
  }

  /** What the reader takes for the offset of a standard entry: all but the zero flag. */
  lemma ReaderOffset(entry: nat)
    ensures entry % 0x4000_0000_0000_0000 / 2 * 2 ==
            HighReserved(entry) * 0x100_0000_0000_0000 + HostOffset(entry) + 2 * LowReserved(entry)
  {
    var zero, low := entry % 2, entry / 2 % 256;
    var mid, high := entry / 512 % 0x8000_0000_0000, entry / 0x100_0000_0000_0000;
    LowNine(entry);
    assert entry / 512 / 0x8000_0000_0000 == high;
    assert entry == high * 0x100_0000_0000_0000 + mid * 512 + (2 * low + zero);
    var half := high % 64 * 0x80_0000_0000_0000 + mid * 256 + low;
    DivUnique(high / 64, 0x4000_0000_0000_0000, 2 * half + zero);
    DivUnique(half, 2, zero);
  }

  lemma LowNine(entry: nat)
    ensures entry % 512 == 2 * (entry / 2 % 256) + entry % 2
  {
    var h := entry / 2;
    DivUnique(h / 256, 512, 2 * (h % 256) + entry % 2);
    assert entry == h / 256 * 512 + (2 * (h % 256) + entry % 2);
  }

  lemma PlaceByKind(img: Image, entry: nat)
    requires 8 <= img.clusterBits <= 30
    ensures PlaceOf(img, entry).Compressed? <==> IsCompressed(entry)
    ensures !IsCompressed(entry) ==>
              PlaceOf(img, entry) ==
              Standard(HighReserved(entry) * 0x100_0000_0000_0000 + HostOffset(entry) + 2 * LowReserved(entry))
  {
    hide Pow2, HighReserved, HostOffset, LowReserved;
    ReaderOffset(entry);
  }

  /** The reader takes an entry as the format prescribes exactly when it is plain. */
  lemma PlainIff(img: Image, entry: nat)
    requires 8 <= img.clusterBits <= 30
    ensures ReaderView(img, entry) == Prescribe(img, entry) <==> PlainEntry(img, entry)
    ensures Prescribe(img, entry).At? || Prescribe(img, entry).Hole? ==> PlainEntry(img, entry)
  {
    hide PlaceOf, HighReserved, HostOffset, LowReserved, ZeroFlag, IsCompressed, Copied;
    PlaceByKind(img, entry);
  }

  /** A standard entry put together from its fields. */
  function StandardEntry(copied: nat, high: nat, sectors: nat, low: nat, zero: nat): nat {
    copied * 0x8000_0000_0000_0000 + high * 0x100_0000_0000_0000 + sectors * 512 + 2 * low + zero
  }

  lemma StandardLow(copied: nat, high: nat, sectors: nat, low: nat, zero: nat)
    requires sectors < 0x8000_0000_0000 && low < 256 && zero < 2
    ensures var e := StandardEntry(copied, high, sectors, low, zero);
            (ZeroFlag(e) <==> zero == 1) && LowReserved(e) == low && HostOffset(e) == sectors * 512
  {
    var e, upper := StandardEntry(copied, high, sectors, low, zero), copied * 128 + high;
    var nine := upper * 0x8000_0000_0000 + sectors;
    assert e == nine * 512 + (2 * low + zero) == (nine * 256 + low) * 2 + zero;
    DivUnique(nine, 512, 2 * low + zero);
    DivUnique(upper, 0x8000_0000_0000, sectors);
    DivUnique(nine * 256 + low, 2, zero);
    DivUnique(nine, 256, low);
  }

  lemma StandardHigh(copied: nat, high: nat, sectors: nat, low: nat, zero: nat)
    requires copied < 2 && high < 64 && sectors < 0x8000_0000_0000 && low < 256 && zero < 2
    ensures var e := StandardEntry(copied, high, sectors, low, zero);
            HighReserved(e) == high && !IsCompressed(e) && (Copied(e) <==> copied == 1)
  {
    var low56 := sectors * 512 + 2 * low + zero;
    DivUnique(copied * 128 + high, 0x100_0000_0000_0000, low56);
    DivUnique(copied * 2, 64, high);
    DivUnique(copied * 2, 0x4000_0000_0000_0000, high * 0x100_0000_0000_0000 + low56);
    DivUnique(copied, 0x8000_0000_0000_0000, high * 0x100_0000_0000_0000 + low56);
  }

  /** The format's view of it. */
  lemma PrescribeStandard(img: Image, copied: nat, high: nat, sectors: nat, low: nat, zero: nat)
    requires 8 <= img.clusterBits <= 30
    requires copied < 2 && high < 64 && sectors < 0x8000_0000_0000 && low < 256 && zero < 2
    ensures Prescribe(img, StandardEntry(copied, high, sectors, low, zero)) ==
            if high != 0 || low != 0 then Nothing
            else if zero == 1 then Zeros
            else if sectors != 0 then At(Standard(sectors * 512))
            else if copied == 1 then Nothing else Hole
  {
    hide PlaceOf, StandardEntry, HighReserved, HostOffset, LowReserved, ZeroFlag, IsCompressed, Copied;
    StandardLow(copied, high, sectors, low, zero);
    StandardHigh(copied, high, sectors, low, zero);
  }

  /** A guest cluster of one image: its content, not allocated here, or not obtainable. */
  datatype Cluster = Content(bytes: seq<Byte>) | Unallocated | Broken

  function Fetch(img: Image, inflate: Inflate, p: Place): (r: Cluster)
    ensures !r.Unallocated? && (r.Content? ==> |r.bytes| == ClusterSize(img))
  {
    match p
    case Standard(offset) =>
      (match FileRead(img.file, offset, ClusterSize(img))
       case None => Broken
       case Some(s) => Content(s))
    case Compressed(offset, length) =>
      (match FileRead(img.file, offset, length)
       case None => Broken
       case Some(s) =>
         match inflate(s)
         case None => Broken
         case Some(t) => if |t| == ClusterSize(img) then Content(t) else Broken)
  }

  function Obtain(img: Image, inflate: Inflate, p: Prescription): (r: Cluster)
    ensures r.Content? ==> |r.bytes| == ClusterSize(img)
  {
    match p
    case At(place) => Fetch(img, inflate, place)
    case Hole => Unallocated
    case Zeros => Content(seq(ClusterSize(img), _ => 0))
    case Nothing => Broken
  }

  /** What looking up the L2 entry of a guest cluster through an L1 entry gives: no table, no entry
      that can be read, or the entry. */
  datatype Lookup = NoTable | NoEntry | Found(entry: nat)

  function L2Entry(img: Image, c: nat, l1Entry: Option<nat>): Lookup
    requires 8 <= img.clusterBits <= 30
  {
    Pow2Grows(img.clusterBits);
    match l1Entry
    case None => NoEntry
    case Some(w) =>
      if L2TableOffset(w) == 0 then NoTable
      else
        match FileRead(img.file, L2TableOffset(w), ClusterSize(img))
        case None => NoEntry
        case Some(table) =>
          var i := c % (ClusterSize(img) / 8);
          Eighth(ClusterSize(img), i);
          Found(BigEndian(table[8 * i..8 * i + 8]))
  }

  /** The number in eight bytes, most significant first. */
  lemma WordBytes(s: seq<Byte>)
    requires |s| == 8
    ensures BigEndian(s) ==
            0x100_0000_0000_0000 * s[0] as int + 0x1_0000_0000_0000 * s[1] as int +
            0x100_0000_0000 * s[2] as int + 0x1_0000_0000 * s[3] as int + 0x100_0000 * s[4] as int +
            0x1_0000 * s[5] as int + 0x100 * s[6] as int + s[7] as int
  {
    PeelLast(s, 8);
    PeelLast(s, 7);
    PeelLast(s, 6);
    PeelLast(s, 5);
    PeelLast(s, 4);
    PeelLast(s, 3);
    PeelLast(s, 2);
    PeelLast(s, 1);
  }

  lemma PeelLast(s: seq<Byte>, k: nat)
    requires 0 < k <= |s|
    ensures BigEndian(s[..k]) == 256 * BigEndian(s[..k - 1]) + s[k - 1] as int
    ensures BigEndian(s[..0]) == 0 && s[..|s|] == s
  {
    assert s[..k][..k - 1] == s[..k - 1];
  }

  /** The number in the eight bytes of the file at `a`. */
  function FileWord(file: seq<Byte>, a: nat): nat
    requires a + 8 <= |file|
  {
    0x100_0000_0000_0000 * file[a] as int + 0x1_0000_0000_0000 * file[a + 1] as int +
    0x100_0000_0000 * file[a + 2] as int + 0x1_0000_0000 * file[a + 3] as int +
    0x100_0000 * file[a + 4] as int + 0x1_0000 * file[a + 5] as int + 0x100 * file[a + 6] as int +
    file[a + 7] as int
  }

  /** The lookup of guest cluster `c` through an L1 entry that names the table `sectors` sectors into
      the file: the eight bytes there, at the slot given by the cluster's low digits. */
  lemma L2EntryBytes(img: Image, c: nat, top: nat, sectors: nat, low: nat)
    requires 8 <= img.clusterBits <= 30 && 0 < sectors < 0x8000_0000_0000 && low < 0x200
    requires sectors * 0x200 + ClusterSize(img) <= |img.file|
    ensures ClusterSize(img) >= 8 && c % (ClusterSize(img) / 8) * 8 + 8 <= ClusterSize(img)
    ensures L2Entry(img, c, Some(top * 0x100_0000_0000_0000 + sectors * 0x200 + low)) ==
            Found(FileWord(img.file, sectors * 0x200 + 8 * (c % (ClusterSize(img) / 8))))
  {
    hide ClusterSize, L2TableOffset, BigEndian, FileRead;
    Bits8(img);
    L2TableAt(top, sectors, low);
    var n, i := ClusterSize(img), c % (ClusterSize(img) / 8);
    Eighth(n, i);
    var table := FileRead(img.file, sectors * 0x200, n).value;
    WordBytes(table[8 * i..8 * i + 8]);
  }

  lemma Bits8(img: Image)
    requires 8 <= img.clusterBits
    ensures ClusterSize(img) >= 256
  {
    Pow2Grows(img.clusterBits);
  }

  lemma Eighth(n: nat, i: nat)
    requires i < n / 8
    ensures 8 * i + 8 <= n
  {
  }

  // ---------------------------------------------------------------- the disk

  /** The guest cluster that holds `off`, and the offset in it. */
  function ClusterIndex(img: Image, off: nat): nat
    requires ClusterSize(img) > 0
  {
    Quotient(off, ClusterSize(img))
  }

  function InCluster(img: Image, off: nat): (r: nat)
    requires ClusterSize(img) > 0
    ensures r < ClusterSize(img)
  {
    Remainder(off, ClusterSize(img))
  }

  /** What the reader makes of the entry for `off`. */
  function ReaderAt(img: Image, off: nat): Prescription
    requires WellFormed(img)
  {
    Pow2Grows(img.clusterBits);
    var c := ClusterIndex(img, off);
    match L2Entry(img, c, L1Entry(img, c))
    case NoTable => Hole
    case NoEntry => Nothing
    case Found(e) => ReaderView(img, e)
  }

  /** What the format says of `off` in this image: of the prescribed entry. */
  function PrescribedAt(img: Image, off: nat): Prescription
    requires WellFormed(img)
  {
    Pow2Grows(img.clusterBits);
    var c := ClusterIndex(img, off);
    match L2Entry(img, c, PrescribedL1(img, c))
    case NoTable => Hole
    case NoEntry => Nothing
    case Found(e) => Prescribe(img, e)
  }

  /** The cluster that holds `off` as the reader finds it. */
  function ClusterAt(img: Image, inflate: Inflate, off: nat): (r: Cluster)
    requires WellFormed(img)
    ensures r.Content? ==> |r.bytes| == ClusterSize(img) > 0
  {
    Pow2Grows(img.clusterBits);
    Obtain(img, inflate, ReaderAt(img, off))
  }

  /** The cluster that holds `off` as the format prescribes. */
  function DiskClusterAt(img: Image, inflate: Inflate, off: nat): (r: Cluster)
    requires WellFormed(img)
    ensures r.Content? ==> |r.bytes| == ClusterSize(img) > 0
  {
    Pow2Grows(img.clusterBits);
    Obtain(img, inflate, PrescribedAt(img, off))
  }

  /** The byte of the disk at `off`: of the first image of the chain that has its cluster, and zero
      where no image has it or the next image is too small. A disk has no byte past its size. */
  function DiskByte(img: Image, inflate: Inflate, off: nat): Option<Byte>
    requires WellFormed(img)
    decreases img
  {
    hide DiskClusterAt, InCluster, ClusterSize;
    if off >= img.size then None
    else
      match DiskClusterAt(img, inflate, off)
      case Content(bytes) => Some(bytes[InCluster(img, off)])
      case Broken => None
      case Unallocated =>
        match img.backing
        case NoBacking => Some(0)
        case Unopenable => None
        case Chain(next) => if off < next.size then DiskByte(next, inflate, off) else Some(0)
  }

  /** The byte that the reader's own lookups lead to. */
  function ReadByte(img: Image, inflate: Inflate, off: nat): Option<Byte>
    requires WellFormed(img)
    decreases img
  {
    hide ClusterAt, InCluster, ClusterSize;
    match ClusterAt(img, inflate, off)
    case Content(bytes) => Some(bytes[InCluster(img, off)])
    case Broken => None
    case Unallocated =>
      if img.backing.Chain? then ReadByte(img.backing.image, inflate, off) else None
  }

  /** The L1 table of `img` reaches as far as `off`. */
  predicate InTable(img: Image, off: nat)
    requires WellFormed(img)
  {
    Pow2Grows(img.clusterBits);
    ClusterIndex(img, off) / (ClusterSize(img) / 8) < |img.l1|
  }

  /** Past the end of the table the format has nothing; up to there the reader takes plain entries
      as prescribed. */
  lemma ReaderAsPrescribed(img: Image, off: nat)
    requires WellFormed(img)
    ensures !InTable(img, off) ==> PrescribedAt(img, off) == Nothing
    ensures InTable(img, off) && (PrescribedAt(img, off).At? || PrescribedAt(img, off).Hole?) ==>
              ReaderAt(img, off) == PrescribedAt(img, off)
  {
    hide ClusterIndex, PlaceOf, L2TableOffset, ReaderView, Prescribe, PlainEntry, BigEndian;
    Pow2Grows(img.clusterBits);
    var c := ClusterIndex(img, off);
    L1EntryPrescribed(img, c);
    var l := L2Entry(img, c, PrescribedL1(img, c));
    if l.Found? {
      PlainIff(img, l.entry);
    }
  }

  /** Where the reader finds a byte, it is the disk's exactly under these conditions: `off` lies on
      the disk and within the L1 table, its entry has a meaning, and wherever the format prescribes
      a zero (a zero flag, or a backing image that ends before `off`) the lookups end at a zero;
      and so on down the chain. */
  predicate Agrees(img: Image, inflate: Inflate, off: nat)
    requires WellFormed(img)
    decreases img
  {
    && off < img.size && InTable(img, off)
    && match PrescribedAt(img, off)
       case At(_) => true
       case Nothing => false
       case Zeros => ReadByte(img, inflate, off) == Some(0)
       case Hole =>
         img.backing.Chain? ==>
           if off < img.backing.image.size then Agrees(img.backing.image, inflate, off)
           else ReadByte(img.backing.image, inflate, off) == Some(0)
  }

  /** Where the reader finds no byte, the disk has one exactly under these conditions: the format
      prescribes a zero by a flag, for a hole without backing, or past the end of a backing image. */
  predicate Withheld(img: Image, off: nat)
    requires WellFormed(img)
    decreases img
  {
    && off < img.size && InTable(img, off)
    && match PrescribedAt(img, off)
       case At(_) => false
       case Nothing => false
       case Zeros => true
       case Hole =>
         match img.backing
         case NoBacking => true
         case Unopenable => false
         case Chain(next) => off < next.size ==> Withheld(next, off)
  }

  /** The reader's byte against the disk's, at every offset. */
  lemma {:induction false} DiskByteAgrees(img: Image, inflate: Inflate, off: nat)
    requires WellFormed(img)
    ensures ReadByte(img, inflate, off).Some? ==>
              (DiskByte(img, inflate, off) == ReadByte(img, inflate, off) <==> Agrees(img, inflate, off))
    ensures ReadByte(img, inflate, off).None? ==>
              (DiskByte(img, inflate, off).Some? <==> Withheld(img, off))
    decreases img
  {
    hide PrescribedAt, ReaderAt, InTable, InCluster, ClusterSize, Fetch;
    ReaderAsPrescribed(img, off);
    if img.backing.Chain? {
      DiskByteAgrees(img.backing.image, inflate, off);
    }
  }

  /** A path without surprises: within disk and table, and down to a place through holes that the
      next image covers. */
  predicate PlainPath(img: Image, off: nat)
    requires WellFormed(img)
    decreases img
  {
    && off < img.size && InTable(img, off)
    && match PrescribedAt(img, off)
       case At(_) => true
       case Nothing => false
       case Zeros => false
       case Hole => img.backing.Chain? && off < img.backing.image.size && PlainPath(img.backing.image, off)
  }

  /** On such a path the reader finds the disk's byte, or neither has one. */
  lemma {:induction false} PlainPathAgrees(img: Image, inflate: Inflate, off: nat)
    requires WellFormed(img) && PlainPath(img, off)
    ensures DiskByte(img, inflate, off) == ReadByte(img, inflate, off)
    decreases img
  {
    hide PrescribedAt, ReaderAt, InTable, InCluster, ClusterSize, Fetch;
    ReaderAsPrescribed(img, off);
    if PrescribedAt(img, off).Hole? {
      PlainPathAgrees(img.backing.image, inflate, off);
    }
  }

  /** The fields of an L1 entry: the L2 table is `sectors` sectors into the file. */
  datatype L1Fields = L1Fields(top: nat, sectors: nat, low: nat)

  /** The L2 entry of `off`, found in the bytes of the file as the format says: of the guest cluster's
      number the quotient by the table's length picks the L1 entry, which names the table, and the
      remainder the entry in it. */
  ghost predicate EntryIs(img: Image, off: nat, l1: L1Fields, entry: nat)
    requires WellFormed(img)
  {
    hide Quotient, Remainder, Pow2;
    Pow2Grows(img.clusterBits);
    var size := Pow2(img.clusterBits);
    var cluster, slots := Quotient(off, size), size / 8;
    var slot := Remainder(cluster, slots);
    Eighth(size, slot);
    && 0 < l1.sectors < 0x8000_0000_0000 && l1.low < 0x200 && l1.sectors * 0x200 + size <= |img.file|
    && Quotient(cluster, slots) < |img.l1|
    && img.l1[Quotient(cluster, slots)] == l1.top * 0x100_0000_0000_0000 + l1.sectors * 0x200 + l1.low
    && FileWord(img.file, l1.sectors * 0x200 + 8 * slot) == entry
  }

  /** Quotient and remainder, as everywhere. */
  lemma QuotientParts(a: nat, n: nat)
    requires n > 0
    ensures a == Quotient(a, n) * n + Remainder(a, n) && Remainder(a, n) < n
    ensures a / n == Quotient(a, n) && a % n == Remainder(a, n)
  {
  }

  lemma L1EntryFound(img: Image, off: nat, size: nat, cluster: nat)
    requires WellFormed(img) && size == Pow2(img.clusterBits) >= 256 && cluster == Quotient(off, size)
    requires Quotient(cluster, size / 8) < |img.l1|
    ensures ClusterIndex(img, off) == cluster && InTable(img, off)
    ensures L1Entry(img, cluster) == PrescribedL1(img, cluster) == Some(img.l1[Quotient(cluster, size / 8)])
  {
    hide Pow2, L1Entry;
    L1EntryPrescribed(img, cluster);
  }

  lemma EntryFound(img: Image, off: nat, l1: L1Fields, entry: nat)
    requires WellFormed(img) && EntryIs(img, off, l1, entry)
    ensures InTable(img, off) && ReaderAt(img, off) == ReaderView(img, entry)
    ensures PrescribedAt(img, off) == Prescribe(img, entry)
  {
    hide ReaderView, Prescribe, L2Entry, FileWord, Pow2, L1Entry, PrescribedL1, InTable, ClusterIndex, Quotient,
         Remainder;
    Pow2Grows(img.clusterBits);
    var size := Pow2(img.clusterBits);
    var cluster := Quotient(off, size);
    L1EntryFound(img, off, size, cluster);
    QuotientParts(cluster, size / 8);
    L2EntryBytes(img, cluster, l1.top, l1.sectors, l1.low);
  }

  /** A standard cluster: the byte of the file that many bytes into it. */
  lemma StandardByte(img: Image, inflate: Inflate, off: nat, l1: L1Fields, copied: nat, sectors: nat)
    requires WellFormed(img) && off < img.size && copied < 2 && 0 < sectors < 0x8000_0000_0000
    requires EntryIs(img, off, l1, copied * 0x8000_0000_0000_0000 + sectors * 0x200)
    requires sectors * 0x200 + Pow2(img.clusterBits) <= |img.file|
    ensures Pow2(img.clusterBits) > 0
    ensures DiskByte(img, inflate, off) == Some(img.file[sectors * 0x200 + Remainder(off, Pow2(img.clusterBits))])
    ensures ReadByte(img, inflate, off) == DiskByte(img, inflate, off)
  {
    hide EntryIs, Pow2, Remainder, ReaderAt, PrescribedAt, InTable, Prescribe, ReaderView, FileRead;
    var entry := copied * 0x8000_0000_0000_0000 + sectors * 0x200;
    Pow2Grows(img.clusterBits);
    EntryFound(img, off, l1, entry);
    PrescribeStandard(img, copied, 0, sectors, 0, 0);
    ReaderAsPrescribed(img, off);
  }

  /** A compressed cluster: the byte that many bytes into what its sectors inflate to. */
  lemma CompressedByte(img: Image, inflate: Inflate, off: nat, l1: L1Fields, top: nat, more: nat, offset: nat,
                       bytes: seq<Byte>)
    requires WellFormed(img) && off < img.size && top % 2 == 1
    requires more < Pow2(img.clusterBits - 8) && 0 < offset < Pow2(70 - img.clusterBits)
    requires EntryIs(img, off, l1, top * 0x4000_0000_0000_0000 + more * Pow2(70 - img.clusterBits) + offset)
    requires offset + ((more + 1) * 512 - offset % 512) <= |img.file|
    requires inflate(img.file[offset..offset + ((more + 1) * 512 - offset % 512)]) == Some(bytes)
    requires |bytes| == Pow2(img.clusterBits)
    ensures Pow2(img.clusterBits) > 0
    ensures DiskByte(img, inflate, off) == Some(bytes[Remainder(off, Pow2(img.clusterBits))])
    ensures ReadByte(img, inflate, off) == DiskByte(img, inflate, off)
  {
    hide EntryIs, Pow2, Remainder, ReaderAt, PrescribedAt, InTable, PlaceOf, IsCompressed;
    var entry := top * 0x4000_0000_0000_0000 + more * Pow2(70 - img.clusterBits) + offset;
    Pow2Grows(img.clusterBits);
    EntryFound(img, off, l1, entry);
    PlaceOfCompressed(img, top, more, offset);
    PlaceByKind(img, entry);
    ReaderAsPrescribed(img, off);
  }

  /** What the reader needs in order to serve `[off, end)`: no unobtainable cluster in it, and
      from each hole on, the backing image must serve everything up to `end`, because a hole is
      filled by reading all that is left, not only the hole. */
  ghost predicate Serves(img: Image, inflate: Inflate, off: nat, end: nat)
    requires WellFormed(img)
    decreases img
  {
    forall i :: off <= i < end ==> ServesAt(img, inflate, i, end)
  }

  ghost predicate ServesAt(img: Image, inflate: Inflate, i: nat, end: nat)
    requires WellFormed(img)
    decreases img, 0
  {
    hide ClusterAt, InCluster, ClusterSize;
    var c := ClusterAt(img, inflate, i);
    && !c.Broken?
    && (c.Unallocated? ==> img.backing.Chain? && Serves(img.backing.image, inflate, i, end))
  }

  lemma SameCluster(img: Image, inflate: Inflate, off: nat, j: nat)
    requires WellFormed(img) && ClusterSize(img) > 0 && InCluster(img, off) + j < ClusterSize(img)
    ensures ClusterAt(img, inflate, off + j) == ClusterAt(img, inflate, off)
    ensures InCluster(img, off + j) == InCluster(img, off) + j
  {
    hide L2Entry, Obtain, ClusterSize, Quotient, Remainder;
    SameUnit(off, ClusterSize(img), j);
  }

  /** Everything the reader serves is a byte that its lookups lead to. */
  lemma {:induction false} ServedIsDefined(img: Image, inflate: Inflate, off: nat, end: nat, i: nat)
    requires WellFormed(img) && Serves(img, inflate, off, end) && off <= i < end
    ensures ReadByte(img, inflate, i).Some?
    ensures DiskByte(img, inflate, i) == ReadByte(img, inflate, i) <==> Agrees(img, inflate, i)
    decreases img
  {
    hide ClusterAt, InCluster, ClusterSize, DiskByte, Agrees;
    DiskByteAgrees(img, inflate, i);
    assert ServesAt(img, inflate, i, end);
    if ClusterAt(img, inflate, i).Unallocated? {
      ServedIsDefined(img.backing.image, inflate, i, end, i);
    }
  }

  /** One chunk decides itself: its addresses are served exactly when its first one is. */
  lemma ChunkServes(img: Image, inflate: Inflate, off: nat, n: nat, end: nat)
    requires WellFormed(img) && ClusterSize(img) > 0 && 0 < n && InCluster(img, off) + n <= ClusterSize(img)
    requires off + n <= end
    ensures Serves(img, inflate, off, end) <==>
            ServesAt(img, inflate, off, end) && Serves(img, inflate, off + n, end)
  {
    hide ClusterAt, InCluster, ClusterSize;
    if ServesAt(img, inflate, off, end) && Serves(img, inflate, off + n, end) {
      forall i | off <= i < end ensures ServesAt(img, inflate, i, end) {
        if i < off + n {
          SameCluster(img, inflate, off, i - off);
          if ClusterAt(img, inflate, i).Unallocated? {
            ServesLater(img.backing.image, inflate, off, i, end);
          }
        }
      }
    }
  }

  lemma ServesLater(img: Image, inflate: Inflate, off: nat, off': nat, end: nat)
    requires WellFormed(img) && Serves(img, inflate, off, end) && off <= off'
    ensures Serves(img, inflate, off', end)
  {
    hide ServesAt;
  }

  lemma ContentByte(img: Image, inflate: Inflate, off: nat, j: nat)
    requires WellFormed(img) && ClusterSize(img) > 0 && InCluster(img, off) + j < ClusterSize(img)
    requires ClusterAt(img, inflate, off).Content?
    ensures ReadByte(img, inflate, off + j) == Some(ClusterAt(img, inflate, off).bytes[InCluster(img, off) + j])
  {
    hide ClusterAt, InCluster, ClusterSize;
    SameCluster(img, inflate, off, j);
  }

  lemma HoleByte(img: Image, inflate: Inflate, off: nat, j: nat)
    requires WellFormed(img) && ClusterSize(img) > 0 && InCluster(img, off) + j < ClusterSize(img)
    requires ClusterAt(img, inflate, off).Unallocated? && img.backing.Chain?
    ensures ReadByte(img, inflate, off + j) == ReadByte(img.backing.image, inflate, off + j)
  {
    hide ClusterAt, InCluster, ClusterSize;
    SameCluster(img, inflate, off, j);
  }

  // ---------------------------------------------------------------- the reader

  function ChunkLength(img: Image, off: nat, num: nat): (n: nat)
    requires ClusterSize(img) > 0
    ensures num > 0 ==> n > 0
    ensures n <= num && InCluster(img, off) + n <= ClusterSize(img)
    ensures n == num || InCluster(img, off) + n == ClusterSize(img)
  {
    if num < ClusterSize(img) - InCluster(img, off) then num else ClusterSize(img) - InCluster(img, off)
  }

  /** The part of the buffer from `pos` on holds the disk bytes from `off` on. */
  ghost predicate HoldsDisk(img: Image, inflate: Inflate, off: nat, n: nat, buf: seq<Byte>, pos: nat)
    requires WellFormed(img)
  {
    pos + n <= |buf| && forall k :: pos <= k < pos + n ==> DiskByte(img, inflate, off + (k - pos)) == Some(buf[k])
  }

  /** It holds the bytes that the reader's lookups lead to. */
  ghost predicate Filled(img: Image, inflate: Inflate, off: nat, n: nat, buf: seq<Byte>, pos: nat)
    requires WellFormed(img)
  {
    pos + n <= |buf| && forall k :: pos <= k < pos + n ==> ReadByte(img, inflate, off + (k - pos)) == Some(buf[k])
  }

  /** Those are the disk's bytes exactly when every address of the range meets the conditions of
      Agrees. */
  lemma FilledFromDisk(img: Image, inflate: Inflate, off: nat, n: nat, buf: seq<Byte>, pos: nat)
    requires WellFormed(img) && Filled(img, inflate, off, n, buf, pos)
    ensures HoldsDisk(img, inflate, off, n, buf, pos) <==>
            forall i :: off <= i < off + n ==> Agrees(img, inflate, i)
  {
    hide DiskByte, ReadByte, Agrees, WellFormed;
    forall k | pos <= k < pos + n
      ensures DiskByte(img, inflate, off + (k - pos)) == Some(buf[k]) <==> Agrees(img, inflate, off + (k - pos))
    {
      DiskByteAgrees(img, inflate, off + (k - pos));
    }
    if HoldsDisk(img, inflate, off, n, buf, pos) {
      forall i | off <= i < off + n ensures Agrees(img, inflate, i) {
        var k := pos + (i - off);
        assert DiskByte(img, inflate, off + (k - pos)) == Some(buf[k]);
      }
    } else {
      var k :| pos <= k < pos + n && DiskByte(img, inflate, off + (k - pos)) != Some(buf[k]);
      assert !Agrees(img, inflate, off + (k - pos));
    }
  }

  /** Nothing outside `[pos, pos + n)` changed. */
  ghost predicate OnlyWithin(before: seq<Byte>, after: seq<Byte>, pos: nat, n: nat) {
    |before| == |after| && forall k :: 0 <= k < |before| && !(pos <= k < pos + n) ==> before[k] == after[k]
  }

  /** vbd_qcow2_do_read: succeeds exactly when the chain can serve the range, and then the
      buffer holds the disk's bytes exactly when every address of the range meets the conditions
      of Agrees. */
  method DoRead(img: Image, inflate: Inflate, off: nat, num: nat, buf: array<Byte>, pos: nat) returns (ok: bool)
    requires WellFormed(img) && pos + num <= buf.Length
    modifies buf
    ensures OnlyWithin(old(buf[..]), buf[..], pos, num)
    ensures ok <==> Serves(img, inflate, off, off + num)
    ensures ok ==> Filled(img, inflate, off, num, buf[..], pos)
    ensures ok ==> (HoldsDisk(img, inflate, off, num, buf[..], pos) <==>
                    forall i :: off <= i < off + num ==> Agrees(img, inflate, i))
    decreases img, 2
  {
    hide HoldsDisk, Agrees, ClusterAt, InCluster, ClusterSize, ReadByte, ServesAt, WellFormed;
    var left := num;
    SizePositive(img);
    while left > 0
      invariant 0 <= left <= num
      invariant OnlyWithin(old(buf[..]), buf[..], pos, num)
      invariant Serves(img, inflate, off, off + num) <==> Serves(img, inflate, off + num - left, off + num)
      invariant Filled(img, inflate, off, num - left, buf[..], pos)
    {
      var done := num - left;
      ghost var before := buf[..];
      ChunkServes(img, inflate, off + done, ChunkLength(img, off + done, left), off + num);
      var bytesRead := ReadChunk(img, inflate, off + done, left, buf, pos + done);
      if bytesRead < 0 || bytesRead > ClusterSize(img) {
        return false;
      }
      FilledOn(img, inflate, off, done, bytesRead, before, buf[..], pos, left);
      left := left - bytesRead;
    }
    FilledFromDisk(img, inflate, off, num, buf[..], pos);
    return true;
  }

  /** vbd_qcow2_read_chunk: at most the rest of one cluster. -1 on failure. */
  method ReadChunk(img: Image, inflate: Inflate, off: nat, num: nat, buf: array<Byte>, pos: nat) returns (r: int)
    requires WellFormed(img) && ClusterSize(img) > 0 && num > 0 && pos + num <= buf.Length
    modifies buf
    ensures OnlyWithin(old(buf[..]), buf[..], pos, num)
    ensures r == if ServesAt(img, inflate, off, off + num) then ChunkLength(img, off, num) else -1
    ensures r >= 0 ==> Filled(img, inflate, off, r, buf[..], pos)
    decreases img, 1
  {
    hide InCluster, ClusterSize, ReadByte, WellFormed, BigEndian, PlaceOf, L2TableOffset, L1Entry, FileRead, Serves;
    Bits(img);
    var c := ClusterIndex(img, off);
    var l1Entry := L1Entry(img, c);
    if l1Entry.None? {
      return -1;
    }
    var l2Offset := L2TableOffset(l1Entry.value);
    if l2Offset == 0 {
      r := ReadBacking(img, inflate, off, num, buf, pos);
      return;
    }
    var table := FileRead(img.file, l2Offset, ClusterSize(img));
    if table.None? {
      return -1;
    }
    var i := c % (ClusterSize(img) / 8);
    Eighth(ClusterSize(img), i);
    var place := PlaceOf(img, BigEndian(table.value[8 * i..8 * i + 8]));
    if place.offset == 0 {
      r := ReadBacking(img, inflate, off, num, buf, pos);
      return;
    }
    var length := if place.Compressed? then place.length else ClusterSize(img);
    var raw := FileRead(img.file, place.offset, length);
    if raw.None? {
      return -1;
    }
    var bytes := raw.value;
    if place.Compressed? {
      var inflated := inflate(raw.value);
      if inflated.None? || |inflated.value| != ClusterSize(img) {
        return -1;
      }
      bytes := inflated.value;
    }
    r := CopyContent(img, inflate, off, num, buf, pos, bytes);
  }

  lemma Bits(img: Image)
    requires WellFormed(img)
    ensures 8 <= img.clusterBits <= 30 && ClusterSize(img) >= 256
    ensures img.backing.Chain? ==> WellFormed(img.backing.image)
  {
    Pow2Grows(img.clusterBits);
  }

  /** The copy out of an allocated cluster. */
  method CopyContent(img: Image, inflate: Inflate, off: nat, num: nat, buf: array<Byte>, pos: nat, bytes: seq<Byte>)
    returns (r: int)
    requires WellFormed(img) && ClusterSize(img) > 0 && num > 0 && pos + num <= buf.Length
    requires ClusterAt(img, inflate, off) == Content(bytes)
    modifies buf
    ensures OnlyWithin(old(buf[..]), buf[..], pos, num)
    ensures r == ChunkLength(img, off, num) && ServesAt(img, inflate, off, off + num)
    ensures Filled(img, inflate, off, r, buf[..], pos)
  {
    hide ClusterAt, InCluster, ClusterSize, ReadByte, WellFormed;
    var start := InCluster(img, off);
    var n := ChunkLength(img, off, num);
    forall k | pos <= k < pos + n {
      buf[k] := bytes[start + (k - pos)];
    }
    ghost var after := buf[..];
    forall k | pos <= k < pos + n ensures ReadByte(img, inflate, off + (k - pos)) == Some(after[k]) {
      ContentByte(img, inflate, off, k - pos);
    }
    return n;
  }

  /** The fallback for a hole: all that is left of the request is read from the backing image
      (opened anew by vbd_read_qcow2_disk_impl), though only the chunk's length is reported. */
  method ReadBacking(img: Image, inflate: Inflate, off: nat, num: nat, buf: array<Byte>, pos: nat) returns (r: int)
    requires WellFormed(img) && ClusterSize(img) > 0 && num > 0 && pos + num <= buf.Length
    requires ClusterAt(img, inflate, off).Unallocated?
    modifies buf
    ensures OnlyWithin(old(buf[..]), buf[..], pos, num)
    ensures r == if ServesAt(img, inflate, off, off + num) then ChunkLength(img, off, num) else -1
    ensures r >= 0 ==> Filled(img, inflate, off, r, buf[..], pos)
    decreases img, 0
  {
    hide ClusterAt, InCluster, ClusterSize, ReadByte;
    if !img.backing.Chain? {
      return -1;
    }
    var ok := DoRead(img.backing.image, inflate, off, num, buf, pos);
    if !ok {
      return -1;
    }
    var n := ChunkLength(img, off, num);
    ghost var after := buf[..];
    forall k | pos <= k < pos + n ensures ReadByte(img, inflate, off + (k - pos)) == Some(after[k]) {
      HoleByte(img, inflate, off, k - pos);
    }
    return n;
  }

  lemma FilledOn(img: Image, inflate: Inflate, off: nat, done: nat, more: nat, before: seq<Byte>, after: seq<Byte>,
                 pos: nat, left: nat)
    requires WellFormed(img) && Filled(img, inflate, off, done, before, pos)
    requires OnlyWithin(before, after, pos + done, left)
    requires Filled(img, inflate, off + done, more, after, pos + done)
    ensures Filled(img, inflate, off, done + more, after, pos)
  {
    hide ReadByte;
    forall k | pos <= k < pos + done + more ensures ReadByte(img, inflate, off + (k - pos)) == Some(after[k]) {
      if k >= pos + done {
        assert off + (k - pos) == (off + done) + (k - (pos + done));
      } else {
        assert before[k] == after[k];
      }
    }
  }

  lemma SizePositive(img: Image)
    ensures ClusterSize(img) > 0
  {
    Pow2Grows(img.clusterBits);
  }

  // ---------------------------------------------------------------- where reader and format part

  lemma {:induction false} ZeroBytes(s: seq<Byte>)
    requires forall k :: 0 <= k < |s| ==> s[k] == 0
    ensures BigEndian(s) == 0
  {
    if s != [] {
      ZeroBytes(s[..|s| - 1]);
    }
  }

  lemma SmallNumber(s: seq<Byte>)
    requires |s| == 8 && forall k :: 0 <= k < 6 ==> s[k] == 0
    ensures BigEndian(s) == 256 * (s[6] as int) + (s[7] as int)
  {
    var t := s[..7];
    assert t[..6] == s[..6] && t[6] == s[6];
    ZeroBytes(t[..6]);
  }

  /** L2 entries used below: a hole, the cluster at 1024, the same with the zero flag, and the zero
      flag alone. */
  datatype Small = None0 | At1024 | Zero1024 | Zero0

  function High(e: Small): Byte { if e.At1024? || e.Zero1024? then 4 else 0 }

  function Low(e: Small): Byte { if e.Zero0? || e.Zero1024? then 1 else 0 }

  /** A file of 512-byte clusters with an L2 table at 512, whose first two entries are given, and a
      cluster full of sevens at 1024. */
  function SmallFile(e0: Small, e1: Small): seq<Byte> {
    seq(1536, i requires 0 <= i => SmallByte(e0, e1, i))
  }

  function SmallByte(e0: Small, e1: Small, i: nat): Byte {
    if i == 518 then High(e0) else if i == 519 then Low(e0)
    else if i == 526 then High(e1) else if i == 527 then Low(e1)
    else if i >= 1024 then 7 else 0
  }

  /** The image of that file, a disk of `size` bytes with one L1 entry. */
  function SmallImage(size: nat, e0: Small, e1: Small, backing: Backing): Image {
    Image(9, size, [512], 512, SmallFile(e0, e1), backing)
  }

  lemma Size512(img: Image)
    requires img.clusterBits == 9
    ensures ClusterSize(img) == 512
  {
    assert Pow2(3) == 8;
    assert Pow2(6) == 8 * Pow2(3);
    assert Pow2(9) == 8 * Pow2(6);
  }

  lemma SmallEntry(e0: Small, e1: Small, c: nat)
    requires c < 2
    ensures var e := if c == 0 then e0 else e1;
            BigEndian(SmallFile(e0, e1)[512..1024][8 * c..8 * c + 8]) == 256 * (High(e) as int) + Low(e) as int
  {
    hide BigEndian, High, Low;
    var file := SmallFile(e0, e1);
    var s := file[512..1024][8 * c..8 * c + 8];
    forall k | 0 <= k < 8 ensures s[k] == SmallByte(e0, e1, 512 + 8 * c + k) {
      assert s[k] == file[512..1024][8 * c + k] == file[512 + 8 * c + k];
    }
    var e := if c == 0 then e0 else e1;
    assert s[6] == High(e) && s[7] == Low(e);
    SmallNumber(s);
  }

  lemma SmallLookup(img: Image, e0: Small, e1: Small, c: nat)
    requires img.clusterBits == 9 && img.file == SmallFile(e0, e1) && c % 64 < 2
    ensures var e := if c % 64 == 0 then e0 else e1;
            L2Entry(img, c, Some(512)) == Found(256 * (High(e) as int) + Low(e) as int)
  {
    hide Pow2, BigEndian, High, Low;
    Size512(img);
    SmallEntry(e0, e1, c % 64);
    assert |img.file| == 1536 && L2TableOffset(512) == 512;
  }

  /** What reader and format make of the small entries. */
  lemma SmallViews(img: Image, e: Small)
    requires img.clusterBits == 9
    ensures var n := 256 * (High(e) as int) + Low(e) as int;
            && ReaderView(img, n) == (if e.None0? || e.Zero0? then Hole else At(Standard(1024)))
            && Prescribe(img, n) == if e.None0? then Hole else if e.At1024? then At(Standard(1024)) else Zeros
  {
    hide PlaceOf, Prescribe;
    var sectors, zero := if e.At1024? || e.Zero1024? then 2 else 0, if e.Zero0? || e.Zero1024? then 1 else 0;
    assert StandardEntry(0, 0, sectors, 0, zero) == 512 * sectors + zero;
    PlaceOfStandard(img, 0, 256 * sectors, zero);
    PrescribeStandard(img, 0, 0, sectors, 0, zero);
  }

  /** The first two clusters of a small image, and what the reader takes for clusters 64 and
      2^38 of it: there the index is one past the table, or wraps to zero. */
  lemma SmallAt(size: nat, e0: Small, e1: Small, backing: Backing, off: nat)
    requires WellFormed(SmallImage(size, e0, e1, backing))
    requires off < 1024 || off == 0x8000 || off == 0x8000_0000_0000
    ensures var img, e := SmallImage(size, e0, e1, backing), if off < 512 || off >= 1024 then e0 else e1;
            && (InTable(img, off) <==> off < 1024)
            && ReaderAt(img, off) == (if e.None0? || e.Zero0? then Hole else At(Standard(1024)))
            && (off < 1024 ==>
                  PrescribedAt(img, off) == if e.None0? then Hole else if e.At1024? then At(Standard(1024)) else Zeros)
  {
    hide ClusterSize, L2Entry, ReaderView, Prescribe, SmallFile, High, Low, WellFormed;
    var img, c := SmallImage(size, e0, e1, backing), off / 512;
    Size512(img);
    assert c % 64 < 2 && (c / 64 == 0 || c / 64 == 1 || c / 64 == 0x1_0000_0000);
    L1EntryPrescribed(img, c);
    SmallLookup(img, e0, e1, c);
    SmallViews(img, if c % 64 == 0 then e0 else e1);
  }

  lemma Sevens(size: nat, e0: Small, e1: Small, backing: Backing, inflate: Inflate)
    ensures Fetch(SmallImage(size, e0, e1, backing), inflate, Standard(1024)) == Content(seq(512, _ => 7))
  {
    hide Pow2;
    var img := SmallImage(size, e0, e1, backing);
    Size512(img);
    assert img.file[1024..1536] == seq(512, _ => 7);
  }

  /** The byte the reader's lookups lead to, and whether one address alone is served. */
  lemma SmallRead(size: nat, e0: Small, e1: Small, backing: Backing, inflate: Inflate, off: nat)
    requires WellFormed(SmallImage(size, e0, e1, backing))
    requires off < 1024 || off == 0x8000 || off == 0x8000_0000_0000
    ensures var img, e := SmallImage(size, e0, e1, backing), if off < 512 || off >= 1024 then e0 else e1;
            if e.None0? || e.Zero0? then
              && ClusterAt(img, inflate, off) == Unallocated
              && (!backing.Chain? ==> ReadByte(img, inflate, off) == None)
              && (backing.Chain? ==> ReadByte(img, inflate, off) == ReadByte(backing.image, inflate, off))
            else
              && ClusterAt(img, inflate, off) == Content(seq(512, _ => 7)) && ReadByte(img, inflate, off) == Some(7)
  {
    hide ReaderAt, ClusterSize, Fetch, InTable;
    Size512(SmallImage(size, e0, e1, backing));
    SmallAt(size, e0, e1, backing, off);
    Sevens(size, e0, e1, backing, inflate);
  }

  /** The zero flag is not seen: the reader serves the sevens of the host cluster, or of a backing
      image, where the disk reads as zeroes. */
  lemma ZeroFlagIgnored(inflate: Inflate, e: Small)
    requires e.Zero1024? || e.Zero0?
    ensures var base := SmallImage(1024, At1024, At1024, NoBacking);
            var img := SmallImage(1024, e, None0, Chain(base));
            && WellFormed(img) && Serves(img, inflate, 0, 1) && ReadByte(img, inflate, 0) == Some(7)
            && DiskByte(img, inflate, 0) == Some(0) && !Agrees(img, inflate, 0)
  {
    hide ReaderAt, PrescribedAt, InTable, ClusterSize, ClusterAt, SmallFile, ReadByte;
    var base := SmallImage(1024, At1024, At1024, NoBacking);
    var img := SmallImage(1024, e, None0, Chain(base));
    Size512(img);
    SmallAt(1024, e, None0, Chain(base), 0);
    SmallRead(1024, e, None0, Chain(base), inflate, 0);
    SmallRead(1024, At1024, At1024, NoBacking, inflate, 0);
    assert ServesAt(base, inflate, 0, 1);
    assert ServesAt(img, inflate, 0, 1);
  }

  /** Past the end of a smaller backing image the disk reads as zeroes, but the reader goes on
      reading that image. */
  lemma PastSmallerBacking(inflate: Inflate)
    ensures var base := SmallImage(512, At1024, At1024, NoBacking);
            var img := SmallImage(1024, None0, None0, Chain(base));
            && WellFormed(img) && Serves(img, inflate, 512, 513) && ReadByte(img, inflate, 512) == Some(7)
            && DiskByte(img, inflate, 512) == Some(0) && !Agrees(img, inflate, 512)
  {
    hide ReaderAt, PrescribedAt, InTable, ClusterSize, ClusterAt, SmallFile, ReadByte;
    var base := SmallImage(512, At1024, At1024, NoBacking);
    var img := SmallImage(1024, None0, None0, Chain(base));
    SmallAt(1024, None0, None0, Chain(base), 512);
    SmallRead(1024, None0, None0, Chain(base), inflate, 512);
    SmallRead(512, At1024, At1024, NoBacking, inflate, 512);
    assert ServesAt(base, inflate, 512, 513);
    assert ServesAt(img, inflate, 512, 513);
  }

  /** A hole without a backing file reads as zeroes on the disk, and is refused by the reader. */
  lemma HoleRefused(inflate: Inflate)
    ensures var img := SmallImage(1024, None0, None0, NoBacking);
            && WellFormed(img) && DiskByte(img, inflate, 0) == Some(0) && Withheld(img, 0)
            && !Serves(img, inflate, 0, 1)
  {
    hide ReaderAt, PrescribedAt, InTable, ClusterSize, ClusterAt, SmallFile, ReadByte;
    var img := SmallImage(1024, None0, None0, NoBacking);
    SmallAt(1024, None0, None0, NoBacking, 0);
    SmallRead(1024, None0, None0, NoBacking, inflate, 0);
    assert !ServesAt(img, inflate, 0, 1);
  }

  /** The fallback asks the backing image for more than the hole. Here cluster 0 is a hole that the
      backing image fills, and cluster 1 is allocated but absent from the backing image: every
      byte of the disk is one that the reader finds, yet the two clusters cannot be read together. */
  lemma DefinedButRefused(inflate: Inflate)
    ensures var base := SmallImage(1024, At1024, None0, NoBacking);
            var top := SmallImage(1024, None0, At1024, Chain(base));
            && WellFormed(top)
            && (forall i :: 0 <= i < 1024 ==> ReadByte(top, inflate, i) == DiskByte(top, inflate, i) == Some(7))
            && !Serves(top, inflate, 0, 1024)
  {
    hide ReaderAt, PrescribedAt, InTable, ClusterSize, ClusterAt, SmallFile, ReadByte, DiskByte;
    var base := SmallImage(1024, At1024, None0, NoBacking);
    var top := SmallImage(1024, None0, At1024, Chain(base));
    forall i | 0 <= i < 1024 ensures ReadByte(top, inflate, i) == DiskByte(top, inflate, i) == Some(7) {
      SmallAt(1024, None0, At1024, Chain(base), i);
      SmallAt(1024, At1024, None0, NoBacking, i);
      SmallRead(1024, None0, At1024, Chain(base), inflate, i);
      SmallRead(1024, At1024, None0, NoBacking, inflate, i);
      DiskByteAgrees(top, inflate, i);
    }
    SmallRead(1024, None0, At1024, Chain(base), inflate, 0);
    SmallRead(1024, At1024, None0, NoBacking, inflate, 512);
    assert !ServesAt(base, inflate, 512, 1024);
    assert !Serves(base, inflate, 0, 1024);
    assert !ServesAt(top, inflate, 0, 1024);
  }

  /** The reader serves bytes past the end of the L1 table, where the disk has none: through the
      word after the table (offset 2^15), and through entry 0 when the index wraps (offset 2^47). */
  lemma ServedOffTheDisk(inflate: Inflate, off: nat)
    requires off == 0x8000 || off == 0x8000_0000_0000
    ensures var img := SmallImage(0x8000, At1024, None0, NoBacking);
            WellFormed(img) && Serves(img, inflate, off, off + 1) && DiskByte(img, inflate, off) == None
  {
    hide ReaderAt, PrescribedAt, InTable, ClusterSize, ClusterAt, SmallFile, ReadByte;
    var img := SmallImage(0x8000, At1024, None0, NoBacking);
    SmallRead(0x8000, At1024, None0, NoBacking, inflate, off);
    assert ServesAt(img, inflate, off, off + 1);
  }
}
