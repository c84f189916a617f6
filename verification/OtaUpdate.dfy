/**
 * Over-the-air kernel updates (kernel/ota.c): the check, download, verify, apply
 * pipeline with signature checking on, and what the device holds after every
 * single sector write, for every sector size the storage driver may have.
 */
module OtaUpdate {
  import opened Crc32
  import Directory
  import Volume

  const SECTOR: int := 4096
  const FLAG_LBA: int := 9
  const KERNEL_LBA: int := 10
  const STAGING: int := 0x4_0000

  datatype Status = NoUpdate | Available | Downloading | Verifying | Ready | Applying | Done | Failed

  /** A buffer handed to the storage driver. */
  type Sector = s: seq<bv8> | |s| == SECTOR witness seq(SECTOR, _ => 0)

  type Image = seq<bv8>

  /** What the device holds at one address: as many bytes as its driver moves for one sector. */
  type Block = seq<bv8>

  ghost predicate ValidDisk(disk: seq<Block>, b: nat) {
    8 <= b <= SECTOR && forall l | 0 <= l < |disk| :: |disk[l]| == b
  }

  // ---- what an apply writes ----

  function Zeros(n: nat): (z: seq<bv8>)
    ensures |z| == n
  {
    seq(n, _ => 0)
  }

  function ByteOf(len: nat, shift: nat): bv8
    requires shift > 0
  {
    ((len / shift) % 256) as bv8
  }

  const MAGIC: seq<bv8> := [0x4C, 0x4C, 0x4F, 0x52]

  /** Rollback magic, image length, zeros. */
  function FlagSector(len: nat): Sector {
    MAGIC + [ByteOf(len, 1), ByteOf(len, 0x100), ByteOf(len, 0x1_0000), ByteOf(len, 0x100_0000)] + Zeros(SECTOR - 8)
  }

  /** As many parts as it takes, and no more. */
  lemma CountIsLeast(n: nat, b: nat)
    requires b > 0
    ensures n <= BlockCount(n, b) * b && (BlockCount(n, b) > 0 ==> (BlockCount(n, b) - 1) * b < n)
  {
    var q := (n + b - 1) / b;
    assert n + b - 1 == b * q + (n + b - 1) % b;
  }

  function BlockCount(n: nat, b: nat): nat
    requires b > 0
  {
    (n + b - 1) / b
  }

  /** Part `i` of the image cut into `b` bytes each, the last one padded with zeros. */
  function ImageBlock(img: Image, i: nat, b: nat): (c: Block)
    requires b > 0 && i * b <= |img|
    ensures |c| == b
  {
    var chunk := img[i * b..];
    if |chunk| >= b then chunk[..b] else chunk + Zeros(b - |chunk|)
  }

  function SectorCount(n: nat): nat { BlockCount(n, SECTOR) }

  function KernelSector(img: Image, i: nat): Sector
    requires i < SectorCount(|img|)
  {
    ImageBlock(img, i, SECTOR)
  }

  function BlockAfter(disk: seq<Block>, b: nat, img: Image, i: nat, l: nat): Block
    requires l < |disk| && b <= SECTOR
  {
    var n := SectorCount(|img|);
    if l == FLAG_LBA && i > 0 then (if i > n + 1 then Zeros(SECTOR) else FlagSector(|img|))[..b]
    else if KERNEL_LBA <= l < KERNEL_LBA + n && l - KERNEL_LBA < i - 1 then KernelSector(img, l - KERNEL_LBA)[..b]
    else disk[l]
  }

  /** The device after the first `i` sector writes of applying `img`: flag, image, clear. */
  function AfterWrites(disk: seq<Block>, b: nat, img: Image, i: nat): (after: seq<Block>)
    requires b <= SECTOR
    ensures |after| == |disk|
  {
    seq(|disk|, l requires 0 <= l < |disk| => BlockAfter(disk, b, img, i, l))
  }

  /** Where write number `i` goes, and what it carries. */
  function WriteLba(img: Image, i: nat): nat {
    if 1 <= i <= SectorCount(|img|) then KERNEL_LBA + i - 1 else FLAG_LBA
  }

  function WriteSector(img: Image, i: nat): Sector {
    if i == 0 then FlagSector(|img|)
    else if i <= SectorCount(|img|) then KernelSector(img, i - 1)
    else Zeros(SECTOR)
  }

  lemma NextWrite(disk: seq<Block>, b: nat, img: Image, i: nat)
    requires b <= SECTOR && i <= SectorCount(|img|) + 1 && WriteLba(img, i) < |disk|
    ensures AfterWrites(disk, b, img, i + 1) == AfterWrites(disk, b, img, i)[WriteLba(img, i) := WriteSector(img, i)[..b]]
  {
    hide KernelSector, FlagSector, Zeros;
    var was, now := AfterWrites(disk, b, img, i), AfterWrites(disk, b, img, i + 1);
    assert forall l | 0 <= l < |disk| && l != WriteLba(img, i) :: now[l] == was[l];
  }

  /** Byte `k` of the flag: 0x524F4C4C and the length modulo 2^32, both lowest byte first, then zeros. */
  function FlagByte(len: nat, k: nat): bv8 {
    if k == 0 || k == 1 then 0x4C else if k == 2 then 0x4F else if k == 3 then 0x52
    else if k == 4 then (len % 0x100) as bv8 else if k == 5 then (len / 0x100 % 0x100) as bv8
    else if k == 6 then (len / 0x1_0000 % 0x100) as bv8 else if k == 7 then (len / 0x100_0000 % 0x100) as bv8
    else 0
  }

  /**
   * What an apply has written, byte by byte, after its first `i` writes: the flag in sector 9
   * from the first write to the last, then zeros there; 4096 bytes of the image for each
   * sector from 10 on, zeros behind its end; everything else as it was.
   */
  lemma BytesAfterWrites(disk: seq<Block>, b: nat, img: Image, i: nat, l: nat, k: nat)
    requires ValidDisk(disk, b) && l < |disk| && k < b
    ensures var n := (|img| + 4095) / 4096;
            && |AfterWrites(disk, b, img, i)[l]| == b
            && AfterWrites(disk, b, img, i)[l][k] ==
               if l == 9 && i > 0 then (if i < n + 2 then FlagByte(|img|, k) else 0)
               else if 10 <= l < 10 + n && l - 10 < i - 1 then
                 (var p := (l - 10) * 4096 + k; if p < |img| then img[p] else 0)
               else disk[l][k]
  {
    hide ImageBlock, FlagSector, FlagByte, SectorCount, KernelSector;
    Sectors(|img|);
    FlagSectorByte(|img|, k);
    ZeroByte(k);
    var after := AfterWrites(disk, b, img, i)[l];
    assert after == BlockAfter(disk, b, img, i, l);
    if KERNEL_LBA <= l < KERNEL_LBA + SectorCount(|img|) {
      KernelByte(img, l - KERNEL_LBA, k);
    }
  }

  lemma Sectors(n: nat)
    ensures SectorCount(n) == (n + 4095) / 4096
  {
  }

  lemma ZeroByte(k: nat)
    requires k < 4096
    ensures Zeros(4096)[k] == 0
  {
  }

  lemma FlagSectorByte(len: nat, k: nat)
    requires k < 4096
    ensures FlagSector(len)[k] == FlagByte(len, k)
  {
    hide ByteOf;
    var word := [ByteOf(len, 1), ByteOf(len, 0x100), ByteOf(len, 0x1_0000), ByteOf(len, 0x100_0000)];
    assert FlagSector(len)[k] == if k < 4 then MAGIC[k] else if k < 8 then word[k - 4] else 0;
    LengthBytes(len);
  }

  lemma LengthBytes(len: nat)
    ensures ByteOf(len, 1) == FlagByte(len, 4) && ByteOf(len, 0x100) == FlagByte(len, 5)
    ensures ByteOf(len, 0x1_0000) == FlagByte(len, 6) && ByteOf(len, 0x100_0000) == FlagByte(len, 7)
  {
  }

  lemma KernelByte(img: Image, i: nat, k: nat)
    requires i < SectorCount(|img|) && k < 4096
    ensures var p := i * 4096 + k; KernelSector(img, i)[k] == if p < |img| then img[p] else 0
  {
    SectorInside(|img|, i);
    ImageByte(img, i, k);
  }

  lemma ImageByte(img: Image, i: nat, k: nat)
    requires i * 4096 <= |img| && k < 4096
    ensures ImageBlock(img, i, 4096)[k] == if i * 4096 + k < |img| then img[i * 4096 + k] else 0
  {
  }

  lemma WritesKeepDisk(disk: seq<Block>, b: nat, img: Image, i: nat)
    requires ValidDisk(disk, b)
    ensures ValidDisk(AfterWrites(disk, b, img, i), b)
  {
    hide KernelSector, FlagSector, Zeros;
  }

  // ---- what a bootloader finds ----

  predicate FlagClear(disk: seq<Block>) { FLAG_LBA < |disk| && !(MAGIC <= disk[FLAG_LBA]) }

  /** The complete zero-padded image is at the start of the kernel area, block after block. */
  ghost predicate HoldsImage(disk: seq<Block>, b: nat, img: Image)
    requires b > 0
  {
    && KERNEL_LBA + BlockCount(|img|, b) <= |disk|
    && forall i | 0 <= i < BlockCount(|img|, b) :: BlockIs(disk, b, img, i)
  }

  ghost predicate BlockIs(disk: seq<Block>, b: nat, img: Image, i: nat)
    requires b > 0
  {
    KERNEL_LBA + i < |disk| && i * b <= |img| && disk[KERNEL_LBA + i] == ImageBlock(img, i, b)
  }

  /** A clear flag means that one of the good images is complete. */
  ghost predicate Safe(disk: seq<Block>, b: nat, good: iset<Image>)
    requires b > 0
  {
    FlagClear(disk) ==> exists img :: img in good && HoldsImage(disk, b, img)
  }

  lemma FlagSectorSets(len: nat, b: nat)
    requires 8 <= b <= SECTOR
    ensures MAGIC <= FlagSector(len)[..b]
  {
    assert FlagSector(len)[..b][..4] == MAGIC;
  }

  /** The driver moves whole buffers, or the image is no longer than what it moves of the first one. */
  predicate Whole(b: nat, n: nat) { b == SECTOR || n <= b }

  lemma FewBlocks(n: nat, b: nat)
    requires 0 < b && n <= b
    ensures BlockCount(n, b) == if n == 0 then 0 else 1
  {
    if n > 0 {
      assert n + b - 1 == b * 1 + (n - 1);
      assert (n + b - 1) / b == 1 by {
        DivisionOnce(n - 1, b);
      }
    } else {
      assert (b - 1) / b == 0;
    }
  }

  lemma DivisionOnce(r: nat, b: nat)
    requires r < b
    ensures (b + r) / b == 1
  {
  }

  /** The stored parts of the buffers are then the image. */
  lemma WholeBlocks(img: Image, b: nat, i: nat)
    requires 0 < b <= SECTOR && Whole(b, |img|)
    ensures BlockCount(|img|, b) == SectorCount(|img|)
    ensures i < SectorCount(|img|) ==> i * b <= |img| && KernelSector(img, i)[..b] == ImageBlock(img, i, b)
  {
    if b < SECTOR {
      FewBlocks(|img|, b);
      FewBlocks(|img|, SECTOR);
      if i < SectorCount(|img|) {
        assert i == 0 && i * b == 0 && img[0..] == img;
        assert KernelSector(img, 0)[..b] == ImageBlock(img, 0, b);
      }
    } else if i < SectorCount(|img|) {
      assert KernelSector(img, i)[..b] == KernelSector(img, i);
    }
  }

  /** All writes of an apply leave a clear flag and the image, if that comes whole. */
  lemma FullApplyHolds(disk: seq<Block>, b: nat, img: Image)
    requires ValidDisk(disk, b) && Whole(b, |img|) && KERNEL_LBA + SectorCount(|img|) <= |disk|
    ensures var after := AfterWrites(disk, b, img, SectorCount(|img|) + 2); FlagClear(after) && HoldsImage(after, b, img)
  {
    hide KernelSector, ImageBlock, BlockCount, SectorCount;
    var n := SectorCount(|img|);
    var after := AfterWrites(disk, b, img, n + 2);
    assert after[FLAG_LBA] == Zeros(SECTOR)[..b] && after[FLAG_LBA][0] == 0;
    WholeBlocks(img, b, 0);
    forall i | 0 <= i < BlockCount(|img|, b) ensures BlockIs(after, b, img, i) {
      WholeBlocks(img, b, i);
      assert after[KERNEL_LBA + i] == KernelSector(img, i)[..b];
    }
  }

  ghost predicate HoldsAfterApply(disk: seq<Block>, b: nat, img: Image)
    requires 0 < b <= SECTOR
  {
    HoldsImage(AfterWrites(disk, b, img, SectorCount(|img|) + 2), b, img)
  }

  /** A device of zeros, and an image with one byte that is not. */
  function ZeroDisk(len: nat, b: nat): (disk: seq<Block>)
    ensures |disk| == len && forall l | 0 <= l < len :: disk[l] == Zeros(b)
  {
    seq(len, _ => Zeros(b))
  }

  function OneByte(n: nat, k: nat): (img: Image)
    ensures |img| == n && forall j | 0 <= j < n :: img[j] == if j == k then 1 else 0
  {
    seq(n, j => if j == k then 1 else 0)
  }

  /** Byte `b` of this image is never written: the driver left it behind in the first buffer. */
  lemma ByteLeftBehind(b: nat, n: nat, len: nat)
    requires 8 <= b < SECTOR && b < n
    ensures !HoldsAfterApply(ZeroDisk(len, b), b, OneByte(n, b))
  {
    hide ZeroDisk, OneByte;
    var disk, img := ZeroDisk(len, b), OneByte(n, b);
    var after := AfterWrites(disk, b, img, SectorCount(n) + 2);
    MoreThanOne(n, b);
    assert 1 * b == b;
    assert ImageBlock(img, 1, b)[0] == img[b] == 1;
    if KERNEL_LBA + 1 < len {
      assert after[KERNEL_LBA + 1] == BlockAfter(disk, b, img, SectorCount(n) + 2, KERNEL_LBA + 1);
      if 1 < SectorCount(n) {
        assert KernelSector(img, 1)[0] == img[SECTOR] == 0;
      }
      assert after[KERNEL_LBA + 1][0] == 0;
    }
    assert !BlockIs(after, b, img, 1);
  }

  lemma MoreThanOne(n: nat, b: nat)
    requires 0 < b < n
    ensures BlockCount(n, b) >= 2
  {
    var q := (n + b - 1) / b;
    assert n + b - 1 == b * q + (n + b - 1) % b;
    assert q <= 1 ==> b * q <= b;
  }

  /** A full apply holds every image of `n` bytes exactly when the driver moves 4096 bytes, or at least `n`. */
  lemma ApplyHoldsIff(b: nat, n: nat)
    requires 8 <= b <= SECTOR
    ensures (forall disk, img | ValidDisk(disk, b) && |img| == n && KERNEL_LBA + SectorCount(n) <= |disk| ::
               HoldsAfterApply(disk, b, img))
            <==> Whole(b, n)
  {
    hide AfterWrites, HoldsImage, SectorCount;
    if Whole(b, n) {
      forall disk, img | ValidDisk(disk, b) && |img| == n && KERNEL_LBA + SectorCount(n) <= |disk|
        ensures HoldsAfterApply(disk, b, img)
      {
        FullApplyHolds(disk, b, img);
      }
    } else {
      var len := KERNEL_LBA + SectorCount(n);
      ByteLeftBehind(b, n, len);
      assert ValidDisk(ZeroDisk(len, b), b) && |OneByte(n, b)| == n;
    }
  }

  // ---- the volume on the same device ----

  /** Byte `p` of the device, counted as the filesystem counts. */
  function ByteAt(disk: seq<Block>, b: nat, p: nat): bv8
    requires ValidDisk(disk, b) && p / b < |disk|
  {
    disk[p / b][p % b]
  }

  /** The tag and the directory of a volume. */
  predicate InFront(p: nat) {
    || Volume.TAG_OFFSET <= p < Volume.TAG_OFFSET + 4
    || Directory.DIR_OFFSET <= p < Directory.DIR_OFFSET + Directory.DIR_LEN
  }

  /** Byte `p` lies in one of the sectors that an apply of `n` sectors writes. */
  predicate Hit(b: nat, n: nat, p: nat) { FLAG_LBA * b <= p < (KERNEL_LBA + n) * b }

  /** An apply of `n` sectors writes behind the volume's directory, or around it. */
  predicate Clear(b: nat, n: nat) {
    || FLAG_LBA * b >= Directory.DIR_OFFSET + Directory.DIR_LEN
    || (KERNEL_LBA + n) * b <= Volume.TAG_OFFSET
    || (Volume.TAG_OFFSET + 4 <= FLAG_LBA * b && (KERNEL_LBA + n) * b <= Directory.DIR_OFFSET)
  }

  lemma HitBlocks(b: nat, n: nat, p: nat)
    requires b > 0
    ensures Hit(b, n, p) <==> FLAG_LBA <= p / b < KERNEL_LBA + n
    ensures p % b < b
  {
    var q, m := p / b, KERNEL_LBA + n;
    assert p == b * q + p % b;
    assert q >= FLAG_LBA ==> b * q >= b * FLAG_LBA;
    assert q < FLAG_LBA ==> b * (q + 1) <= b * FLAG_LBA;
    assert q >= m ==> b * q >= b * m;
    assert q < m ==> b * (q + 1) <= b * m;
  }

  /** Where an apply and the volume's front meet. */
  lemma ClearIff(b: nat, n: nat) returns (p: nat)
    requires b >= 8 && n >= 1
    ensures Clear(b, n) ==> forall k: nat | InFront(k) :: !Hit(b, n, k)
    ensures !Clear(b, n) ==> InFront(p) && Hit(b, n, p)
  {
    var lo, hi := FLAG_LBA * b, (KERNEL_LBA + n) * b;
    assert hi > lo;
    p := if lo < Volume.TAG_OFFSET + 4 && hi > Volume.TAG_OFFSET then
           (if lo > Volume.TAG_OFFSET then lo else Volume.TAG_OFFSET)
         else if lo > Directory.DIR_OFFSET then lo else Directory.DIR_OFFSET;
  }

  /** A device full of twos and an image of ones: every byte an apply reaches is changed by it. */
  function TwoDisk(len: nat, b: nat): (disk: seq<Block>)
    ensures |disk| == len && forall l | 0 <= l < len :: |disk[l]| == b && forall j | 0 <= j < b :: disk[l][j] == 2
  {
    seq(len, _ => seq(b, _ => 2))
  }

  function Ones(n: nat): (img: Image)
    ensures |img| == n && forall j | 0 <= j < n :: img[j] == 1
  {
    seq(n, _ => 1)
  }

  lemma OnesBlock(n: nat, i: nat, b: nat, j: nat)
    requires b > 0 && i * b <= n && j < b
    ensures ImageBlock(Ones(n), i, b)[j] != 2
  {
    hide Ones;
  }

  lemma HitIsChanged(b: nat, n: nat, len: nat, p: nat)
    requires 8 <= b <= SECTOR && KERNEL_LBA + SectorCount(n) <= len && Hit(b, SectorCount(n), p)
    ensures p / b < len && ValidDisk(TwoDisk(len, b), b)
    ensures var after := AfterWrites(TwoDisk(len, b), b, Ones(n), SectorCount(n) + 2);
            ValidDisk(after, b) && ByteAt(after, b, p) != ByteAt(TwoDisk(len, b), b, p)
  {
    hide TwoDisk, Ones, ImageBlock, SectorCount;
    var disk, img, l, j := TwoDisk(len, b), Ones(n), p / b, p % b;
    var after := AfterWrites(disk, b, img, SectorCount(n) + 2);
    HitBlocks(b, SectorCount(n), p);
    WritesKeepDisk(disk, b, img, SectorCount(n) + 2);
    assert after[l] == BlockAfter(disk, b, img, SectorCount(n) + 2, l);
    if l == FLAG_LBA {
      assert after[l][j] == Zeros(SECTOR)[j] == 0;
    } else {
      SectorInside(n, l - KERNEL_LBA);
      OnesBlock(n, l - KERNEL_LBA, SECTOR, j);
    }
  }

  lemma SectorInside(n: nat, i: nat)
    requires i < SectorCount(n)
    ensures i * SECTOR <= n
  {
  }

  /** The tag and the directory are the same before and after. */
  ghost predicate FrontKept(disk: seq<Block>, b: nat, img: Image, i: nat)
    requires ValidDisk(disk, b)
  {
    var after := AfterWrites(disk, b, img, i);
    ValidDisk(after, b) && forall p: nat | InFront(p) && p / b < |disk| :: ByteAt(after, b, p) == ByteAt(disk, b, p)
  }

  lemma ClearKeepsFront(disk: seq<Block>, b: nat, img: Image, i: nat)
    requires ValidDisk(disk, b) && img != [] && Clear(b, SectorCount(|img|))
    ensures FrontKept(disk, b, img, i)
  {
    hide KernelSector, FlagSector, SectorCount;
    var n := SectorCount(|img|);
    SomeSectors(|img|);
    WritesKeepDisk(disk, b, img, i);
    var x := ClearIff(b, n);
    forall p: nat | InFront(p) && p / b < |disk|
      ensures ByteAt(AfterWrites(disk, b, img, i), b, p) == ByteAt(disk, b, p)
    {
      HitBlocks(b, n, p);
    }
  }

  lemma SomeSectors(n: nat)
    requires n > 0
    ensures SectorCount(n) >= 1
  {
  }

  /**
   * On the device that holds the volume, applies of images of `n` bytes keep its tag and
   * directory, at every moment, exactly when the sectors they write lie clear of those.
   */
  lemma ApplyKeepsVolumeIff(b: nat, n: nat)
    requires 8 <= b <= SECTOR && n > 0
    ensures (forall disk, img, i: nat | ValidDisk(disk, b) && |img| == n && KERNEL_LBA + SectorCount(n) <= |disk| ::
               FrontKept(disk, b, img, i))
            <==> Clear(b, SectorCount(n))
  {
    hide AfterWrites, SectorCount, ByteAt, Clear, InFront;
    SomeSectors(n);
    if Clear(b, SectorCount(n)) {
      forall disk, img, i: nat | ValidDisk(disk, b) && |img| == n && KERNEL_LBA + SectorCount(n) <= |disk|
        ensures FrontKept(disk, b, img, i)
      {
        ClearKeepsFront(disk, b, img, i);
      }
    } else {
      var p := ClearIff(b, SectorCount(n));
      var len := KERNEL_LBA + SectorCount(n);
      HitIsChanged(b, n, len, p);
      assert !FrontKept(TwoDisk(len, b), b, Ones(n), SectorCount(n) + 2);
      assert |Ones(n)| == n;
    }
  }

  /** With 512-byte sectors every apply ends with zeros in directory slots 8 to 15: an end marker in slot 8. */
  lemma SmallSectorsHitDirectory(disk: seq<Block>, img: Image, p: nat)
    requires ValidDisk(disk, 512) && img != [] && FLAG_LBA < |disk|
    requires Directory.DIR_OFFSET + 8 * Directory.ENTRY_LEN <= p < Directory.DIR_OFFSET + 16 * Directory.ENTRY_LEN
    ensures var after := AfterWrites(disk, 512, img, SectorCount(|img|) + 2);
            ValidDisk(after, 512) && ByteAt(after, 512, p) == 0
  {
    hide KernelSector, SectorCount;
    WritesKeepDisk(disk, 512, img, SectorCount(|img|) + 2);
    assert p / 512 == FLAG_LBA;
  }

  /** After every prefix of the writes of an apply, the device is safe if it was before. */
  lemma EveryPrefixSafe(disk: seq<Block>, b: nat, img: Image, i: nat, good: iset<Image>)
    requires ValidDisk(disk, b) && Whole(b, |img|) && Safe(disk, b, good) && img in good
    requires i > SectorCount(|img|) + 1 ==> KERNEL_LBA + SectorCount(|img|) <= |disk|
    ensures Safe(AfterWrites(disk, b, img, i), b, good)
  {
    hide HoldsImage, KernelSector, SectorCount;
    var after := AfterWrites(disk, b, img, i);
    if i == 0 {
      assert after == disk;
    } else if i <= SectorCount(|img|) + 1 {
      FlagSectorSets(|img|, b);
      assert FLAG_LBA < |disk| ==> after[FLAG_LBA] == FlagSector(|img|)[..b];
    } else {
      FullApplyHolds(disk, b, img);
      assert after == AfterWrites(disk, b, img, SectorCount(|img|) + 2);
    }
  }

  /** A device that holds an image holds every byte of it in its place. */
  lemma HeldBytes(disk: seq<Block>, b: nat, img: Image, k: nat)
    requires b > 0 && HoldsImage(disk, b, img) && k < |img|
    ensures KERNEL_LBA + k / b < |disk| && k % b < |disk[KERNEL_LBA + k / b]| && disk[KERNEL_LBA + k / b][k % b] == img[k]
  {
    var i := k / b;
    InsideBlocks(|img|, b, k);
    assert BlockIs(disk, b, img, i);
    assert img[i * b..][k % b] == img[k];
  }

  /** And zeros behind it, up to the end of its last block. */
  lemma HeldPadding(disk: seq<Block>, b: nat, img: Image, k: nat)
    requires b > 0 && HoldsImage(disk, b, img) && |img| <= k < BlockCount(|img|, b) * b
    ensures KERNEL_LBA + k / b < |disk| && k % b < |disk[KERNEL_LBA + k / b]| && disk[KERNEL_LBA + k / b][k % b] == 0
  {
    var i := k / b;
    LastBlock(|img|, b, k);
    assert BlockIs(disk, b, img, i);
    assert |img[i * b..]| == |img| - i * b;
  }

  lemma LastBlock(n: nat, b: nat, k: nat)
    requires b > 0 && n <= k < BlockCount(n, b) * b
    ensures 0 <= k / b == BlockCount(n, b) - 1 && (k / b) * b + k % b == k && (k / b) * b < n && k % b < b
  {
    hide BlockCount;
    CountIsLeast(n, b);
    QuotientIs(k, b, BlockCount(n, b) - 1);
  }

  lemma QuotientIs(k: nat, b: nat, q: int)
    requires b > 0 && q * b <= k < (q + 1) * b
    ensures k / b == q && q * b + k % b == k
  {
    var i, r := k / b, k % b;
    assert k == b * i + r;
    Below(b, i, q + 1);
    Below(b, q, i + 1);
  }

  lemma Below(b: nat, x: int, y: int)
    requires b * x < b * y
    ensures x < y
  {
  }

  lemma InsideBlocks(n: nat, b: nat, k: nat)
    requires b > 0 && k < n
    ensures 0 <= k / b < BlockCount(n, b) && (k / b) * b + k % b == k
  {
    var q, i := (n + b - 1) / b, k / b;
    assert n + b - 1 == b * q + (n + b - 1) % b;
    assert k == b * i + k % b;
    assert i >= q ==> b * i >= b * q;
  }

  // ---- the pipeline as steps ----

  /**
   * The machine between calls: how many bytes the storage driver moves for a sector, the
   * staged part of the buffer, and the device.
   */
  datatype State = State(block: nat, status: Status, staging: Image, disk: seq<Block>)

  /** Update metadata; `None` for a missing record or an empty address. */
  datatype Info = NoInfo | Info(size: nat, crc: bv32)

  ghost predicate CheckStep(s: State, s': State) {
    s' == s.(status := s'.status) && (s' == s || s'.status in {NoUpdate, Available, Failed})
  }

  ghost predicate DownloadStep(s: State, info: Info, ok: bool, s': State) {
    && s'.disk == s.disk && s'.block == s.block
    && if info.NoInfo? then s' == s && !ok
       else
         && s'.status == (if ok then Downloading else Failed)
         && (|s.staging| <= STAGING ==> |s'.staging| <= STAGING)
         && (ok && info.crc != 0 ==> Crc(s'.staging) == info.crc)
  }

  ghost predicate VerifyStep(s: State, verify: Image -> bool, ok: bool, s': State) {
    && ok == (s.staging != [] && verify(s.staging))
    && s' == s.(status := if ok then Ready else Failed)
  }

  /** The writes that can have reached the device. */
  ghost predicate Reaches(s: State, i: nat, disk: seq<Block>) {
    && s.block <= SECTOR && disk == AfterWrites(s.disk, s.block, s.staging, i)
    && (i > SectorCount(|s.staging|) + 1 ==> KERNEL_LBA + SectorCount(|s.staging|) <= |s.disk|)
  }

  ghost predicate Reached(s: State, disk: seq<Block>) { exists i: nat :: Reaches(s, i, disk) }

  /** From position `from` on, the history holds only results of prefixes of the writes. */
  ghost predicate Recorded(s: State, from: nat, history: seq<seq<Block>>) {
    forall h | from <= h < |history| :: Reached(s, history[h])
  }

  lemma NothingWritten(s: State)
    requires s.block <= SECTOR
    ensures Reaches(s, 0, s.disk)
  {
    assert AfterWrites(s.disk, s.block, s.staging, 0) == s.disk;
  }

  /** When all writes of an apply have reached the device, the flag is clear, and the image is there if it came whole. */
  lemma ApplyCompletes(s: State, disk: seq<Block>)
    requires ValidDisk(s.disk, s.block) && Reaches(s, SectorCount(|s.staging|) + 2, disk)
    ensures FlagClear(disk) && (Whole(s.block, |s.staging|) ==> HoldsImage(disk, s.block, s.staging))
  {
    hide HoldsImage, KernelSector, SectorCount;
    assert disk[FLAG_LBA] == Zeros(SECTOR)[..s.block] && disk[FLAG_LBA][0] == 0;
    if Whole(s.block, |s.staging|) {
      FullApplyHolds(s.disk, s.block, s.staging);
    }
  }

  ghost predicate ApplyStep(s: State, ok: bool, s': State) {
    if s.status != Ready then s' == s && !ok
    else
      && s' == s.(status := if ok then Done else Failed, disk := s'.disk)
      && exists i: nat :: Reaches(s, i, s'.disk) && (ok ==> i > SectorCount(|s.staging|))
  }

  /** A reboot at any moment, also in the middle of an apply. */
  ghost predicate RebootStep(s: State, s': State) {
    && s'.status == NoUpdate && s'.staging == [] && s'.block == s.block
    && (s'.disk == s.disk || (s.status == Ready && Reached(s, s'.disk)))
  }

  datatype Event = Check | Download(info: Info, ok: bool) | Verify(ok: bool) | Apply(ok: bool) | Reboot

  ghost predicate Step(s: State, verify: Image -> bool, e: Event, s': State) {
    match e
    case Check => CheckStep(s, s')
    case Download(info, ok) => DownloadStep(s, info, ok, s')
    case Verify(ok) => VerifyStep(s, verify, ok, s')
    case Apply(ok) => ApplyStep(s, ok, s')
    case Reboot => RebootStep(s, s')
  }

  /** The image the device came with, and every image that passes verification. */
  ghost function Good(verify: Image -> bool, original: Image): iset<Image> {
    iset img: Image | img == original || verify(img)
  }

  /** Every image that can be staged and passes verification comes whole through the driver. */
  ghost predicate AllWhole(verify: Image -> bool, b: nat) {
    forall img: Image | verify(img) && |img| <= STAGING :: Whole(b, |img|)
  }

  /** Ready means verified, staged bytes fit the buffer, and the device is safe. */
  ghost predicate Inv(s: State, verify: Image -> bool, original: Image) {
    && |s.staging| <= STAGING
    && (s.status == Ready ==> s.staging != [] && verify(s.staging))
    && ValidDisk(s.disk, s.block)
    && Safe(s.disk, s.block, Good(verify, original))
  }

  lemma StepKeepsInv(s: State, verify: Image -> bool, original: Image, e: Event, s': State)
    requires AllWhole(verify, s.block) && Inv(s, verify, original) && Step(s, verify, e, s')
    ensures Inv(s', verify, original) && s'.block == s.block
  {
    hide Safe, AfterWrites, SectorCount;
    if s'.disk != s.disk {
      var i: nat :| Reaches(s, i, s'.disk);
      EveryPrefixSafe(s.disk, s.block, s.staging, i, Good(verify, original));
      WritesKeepDisk(s.disk, s.block, s.staging, i);
    }
  }

  /** A crash after any sector write of an apply, whether it failed or not, leaves the device safe. */
  lemma CrashSafe(s: State, verify: Image -> bool, original: Image, from: nat, history: seq<seq<Block>>)
    requires AllWhole(verify, s.block) && Inv(s, verify, original) && s.status == Ready && Recorded(s, from, history)
    ensures forall h | from <= h < |history| :: Safe(history[h], s.block, Good(verify, original))
  {
    hide Safe, AfterWrites, SectorCount;
    forall h | from <= h < |history| ensures Safe(history[h], s.block, Good(verify, original)) {
      var i: nat :| Reaches(s, i, history[h]);
      EveryPrefixSafe(s.disk, s.block, s.staging, i, Good(verify, original));
    }
  }

  ghost predicate Run(states: seq<State>, verify: Image -> bool, events: seq<Event>) {
    && |states| == |events| + 1
    && forall i | 0 <= i < |events| :: Step(states[i], verify, events[i], states[i + 1])
  }

  /**
   * Every run of checks, downloads, verifications, applies and reboots keeps the device
   * safe, if every verified image comes whole through the driver.
   */
  lemma {:induction false} RunIsSafe(states: seq<State>, verify: Image -> bool, original: Image, events: seq<Event>)
    requires Run(states, verify, events) && Inv(states[0], verify, original) && AllWhole(verify, states[0].block)
    ensures forall i | 0 <= i < |states| :: Inv(states[i], verify, original) && states[i].block == states[0].block
    decreases |events|
  {
    hide Inv, Step, AllWhole;
    if |events| > 0 {
      var n := |events| - 1;
      var init := states[..n + 1];
      RunIsSafe(init, verify, original, events[..n]);
      assert forall i | 0 <= i <= n :: init[i] == states[i];
      StepKeepsInv(states[n], verify, original, events[n], states[n + 1]);
    }
  }

  // ---- a driver with 512-byte sectors ----

  /** A device of 512-byte sectors that came with a one-byte image. */
  function SmallDisk(): (disk: seq<Block>)
    ensures |disk| == 12 && ValidDisk(disk, 512) && disk[10] == [9] + Zeros(511)
    ensures forall l | 0 <= l < 12 && l != 10 :: disk[l] == Zeros(512)
  {
    ZeroDisk(12, 512)[10 := [9] + Zeros(511)]
  }

  function SmallState(img: Image): State { State(512, Ready, img, SmallDisk()) }

  lemma SmallHolds(img: Image)
    requires img != [] && |img| <= 512
    ensures BlockCount(|img|, 512) == 1
    ensures forall disk :: HoldsImage(disk, 512, img) <==> 11 <= |disk| && disk[10] == img + Zeros(512 - |img|)
  {
    FewBlocks(|img|, 512);
    assert img[0..] == img && img + Zeros(0) == img;
    assert 0 * 512 == 0;
    forall disk ensures HoldsImage(disk, 512, img) <==> 11 <= |disk| && disk[10] == img + Zeros(512 - |img|) {
      if |disk| >= 11 {
        assert ImageBlock(img, 0, 512) == img + Zeros(512 - |img|);
        assert BlockIs(disk, 512, img, 0) <==> disk[10] == img + Zeros(512 - |img|);
      }
    }
  }

  /**
   * With 512-byte sectors, an apply of a verified image of 513 bytes in which every write
   * succeeds clears the flag and leaves neither that image nor the original.
   */
  lemma SmallSectorsUnsafe(img: Image)
    requires |img| == 513 && img[0] != 9 && img[512] != 0
    ensures var verify := (i: Image) => i == img;
            var s := SmallState(img);
            var t := State(512, Done, img, AfterWrites(SmallDisk(), 512, img, 3));
            && Inv(s, verify, [9]) && ApplyStep(s, true, t)
            && FlagClear(t.disk) && !Safe(t.disk, 512, Good(verify, [9]))
  {
    hide SmallDisk, KernelSector;
    var verify := (i: Image) => i == img;
    var s, disk := SmallState(img), AfterWrites(SmallDisk(), 512, img, 3);
    FewBlocks(513, SECTOR);
    SmallHolds([9]);
    assert [9] in Good(verify, [9]) && HoldsImage(s.disk, 512, [9]);
    assert Reaches(s, 3, disk);
    assert disk[FLAG_LBA] == Zeros(SECTOR)[..512] && disk[FLAG_LBA][0] == 0;
    FirstSector(img);
    assert disk[10] == KernelSector(img, 0)[..512] && disk[10][0] == img[0] != 9;
    assert disk[11] == Zeros(512) && disk[11][0] == 0;
    forall good | good in Good(verify, [9]) ensures !HoldsImage(disk, 512, good) {
      if good == img {
        MoreThanOne(513, 512);
        SecondBlock(img);
        assert !BlockIs(disk, 512, img, 1);
      } else {
        assert ([9] + Zeros(511))[0] == 9;
      }
    }
  }

  lemma FirstSector(img: Image)
    requires img != []
    ensures SectorCount(|img|) > 0 && KernelSector(img, 0)[..512][0] == img[0]
  {
    InsideBlocks(|img|, SECTOR, 0);
  }

  lemma SecondBlock(img: Image)
    requires |img| == 513
    ensures ImageBlock(img, 1, 512)[0] == img[512]
  {
    assert 1 * 512 == 512;
  }

  /** The kernel area changes only from a Ready state, to verified bytes, and not twice for one verification. */
  lemma OnlyVerifiedBytes(s: State, verify: Image -> bool, original: Image, e: Event, s': State, l: int)
    requires Inv(s, verify, original) && Step(s, verify, e, s')
    requires KERNEL_LBA <= l < |s.disk| == |s'.disk| && s'.disk[l] != s.disk[l]
    ensures s.status == Ready && verify(s.staging) && s'.status != Ready
    ensures l - KERNEL_LBA < SectorCount(|s.staging|)
    ensures s'.disk[l] == KernelSector(s.staging, l - KERNEL_LBA)[..s.block]
  {
    hide Safe, KernelSector, SectorCount;
    var i: nat :| Reaches(s, i, s'.disk);
    assert s'.disk[l] == BlockAfter(s.disk, s.block, s.staging, i, l);
  }

  /** Step `j` verified what is staged in state `k`. */
  ghost predicate VerifiedAt(states: seq<State>, events: seq<Event>, j: int, k: int)
    requires 0 <= k < |states| == |events| + 1
  {
    0 <= j < k && events[j] == Verify(true) && states[j].staging == states[k].staging
  }

  /** In every run, what is ready to be applied was staged when a verification of it succeeded, and nothing was staged since. */
  lemma {:induction false} ReadyWasVerified(states: seq<State>, verify: Image -> bool, events: seq<Event>, k: nat)
    requires Run(states, verify, events) && states[0].status != Ready
    requires k <= |events| && states[k].status == Ready
    ensures verify(states[k].staging) && exists j :: VerifiedAt(states, events, j, k)
  {
    hide AfterWrites, SectorCount;
    var s, e := states[k - 1], events[k - 1];
    assert Step(s, verify, e, states[k]);
    if e == Verify(true) {
      assert VerifiedAt(states, events, k - 1, k);
    } else {
      ReadyWasVerified(states, verify, events, k - 1);
      var j :| VerifiedAt(states, events, j, k - 1);
      assert VerifiedAt(states, events, j, k);
    }
  }

  /** A package corrupted in at most four consecutive bytes of its published content is not accepted. */
  lemma CorruptDownloadRejected(s: State, p: Image, a: Image, b: Image, t: Image, info: Info, ok: bool, s': State)
    requires |a| == |b| <= 4 && a != b
    requires info == Info(|p + a + t|, Crc(p + a + t)) && info.crc != 0
    requires DownloadStep(s, info, ok, s') && s'.staging == p + b + t
    ensures !ok && s'.status == Failed
  {
    FourBytesDetected(p, a, b, t);
  }

  // ---- the calls ----

  /**
   * Storage whose driver moves `block` bytes of the buffer for one sector; a sector is
   * written whole or not at all, and every state the device goes through is recorded.
   */
  class Device {
    const block: nat
    var sectors: seq<Block>
    /** What each write so far reported. */
    ghost var results: seq<bool>
    ghost var history: seq<seq<Block>>

    ghost predicate Valid() reads this { ValidDisk(sectors, block) }

    constructor (image: seq<Block>, b: nat)
      requires ValidDisk(image, b)
      ensures Valid() && block == b && sectors == image && results == [] && history == []
    {
      block, sectors, results, history := b, image, [], [];
    }

    /** One sector of the buffer; a failed write may or may not have changed it. */
    method Write(s: Sector, lba: nat) returns (rc: int)
      requires Valid()
      modifies this
      ensures Valid()
      ensures rc >= 0 ==> lba < |old(sectors)| && sectors == old(sectors)[lba := s[..block]]
      ensures rc < 0 ==> sectors == old(sectors) || (lba < |old(sectors)| && sectors == old(sectors)[lba := s[..block]])
      ensures results == old(results) + [rc >= 0] && history == old(history) + [sectors]
    {
      var reached: bool, reported: bool := *, *;
      if reached && lba < |sectors| {
        sectors := sectors[lba := s[..block]];
        rc := if reported then 1 else -1;
      } else {
        rc := -1;
      }
      results := results + [rc >= 0];
      history := history + [sectors];
    }
  }

  function Least(a: int, b: int): int { if a <= b then a else b }

  /** What is staged after receiving `chunks` behind `acc`, stopping at `want` bytes or at the first empty chunk. */
  function Receive(acc: Image, want: nat, chunks: seq<Image>): Image
    decreases chunks
  {
    if |acc| >= want || chunks == [] || chunks[0] == [] then acc
    else Receive(acc + chunks[0][..Least(|chunks[0]|, Least(want - |acc|, 4096))], want, chunks[1..])
  }

  /** The part of the package that came with the response header. */
  function Initial(hdr: seq<bv8>, bodyOff: nat): Image {
    if 0 < bodyOff < |hdr| then hdr[bodyOff..] else []
  }

  function Wanted(info: Info, contentLen: nat): nat
    requires info.Info?
  {
    if contentLen == 0 then info.size else contentLen
  }

  function Received(info: Info, hdr: seq<bv8>, contentLen: nat, bodyOff: nat, chunks: seq<Image>): Image
    requires info.Info?
  {
    Receive(Initial(hdr, bodyOff), Wanted(info, contentLen), chunks)
  }

  /** The package fits the buffer, arrives completely, and has the announced checksum if there is one. */
  ghost predicate Delivers(info: Info, hdr: seq<bv8>, contentLen: nat, bodyOff: nat, chunks: seq<Image>) {
    && info.Info? && info.size <= STAGING && hdr != []
    && Wanted(info, contentLen) <= STAGING
    && var got := Received(info, hdr, contentLen, bodyOff, chunks);
       Wanted(info, contentLen) <= |got| && (info.crc != 0 ==> Crc(got) == info.crc)
  }

  // ---- what a download stages ----

  /** Pieces laid end to end. */
  function Flat(chunks: seq<Image>): Image {
    if chunks == [] then [] else chunks[0] + Flat(chunks[1..])
  }

  /** Up to the first empty one, the first `a` chunks have 1 to 4096 bytes each, as a receive call gives them. */
  predicate Arrived(chunks: seq<Image>, a: nat) {
    && a <= |chunks| && (a == |chunks| || chunks[a] == [])
    && forall i | 0 <= i < a :: 1 <= |chunks[i]| <= 4096
  }

  lemma {:induction false} ReceivesPrefix(acc: Image, want: nat, chunks: seq<Image>, a: nat)
    requires Arrived(chunks, a)
    ensures var all := acc + Flat(chunks[..a]);
            Receive(acc, want, chunks) == if |acc| >= want then acc else all[..Least(want, |all|)]
    decreases a
  {
    if |acc| < want && a > 0 {
      var first := chunks[0];
      var n := Least(|first|, want - |acc|);
      var next := acc + first[..n];
      assert chunks[..a][1..] == chunks[1..][..a - 1];
      assert acc + Flat(chunks[..a]) == (acc + first) + Flat(chunks[1..][..a - 1]);
      assert forall i | 0 <= i < a - 1 :: chunks[1..][i] == chunks[i + 1];
      ReceivesPrefix(next, want, chunks[1..], a - 1);
      if |first| <= want - |acc| {
        assert first[..n] == first;
      }
    } else if |acc| < want {
      assert chunks[..a] == [] && acc + [] == acc;
    }
  }

  /**
   * A download stages the bytes that came over the wire behind the header, in order: all that
   * came with the header, and of the rest as much as is wanted.  It succeeds exactly when that
   * is enough, fits 256 KB and has the announced checksum.
   */
  lemma DownloadStages(info: Info, hdr: seq<bv8>, contentLen: nat, bodyOff: nat, chunks: seq<Image>, a: nat)
    requires info.Info? && Arrived(chunks, a)
    ensures var body := if 0 < bodyOff < |hdr| then hdr[bodyOff..] else [];
            var wire := body + Flat(chunks[..a]);
            var want := if contentLen == 0 then info.size else contentLen;
            var got := Received(info, hdr, contentLen, bodyOff, chunks);
            && got == wire[..(if |body| >= want then |body| else if |wire| >= want then want else |wire|)]
            && (Delivers(info, hdr, contentLen, bodyOff, chunks) <==>
                  && info.size <= 0x4_0000 && want <= 0x4_0000 && |hdr| > 0 && |wire| >= want
                  && (info.crc == 0 || Crc(got) == info.crc))
  {
    hide Crc, Receive, Flat;
    var body := if 0 < bodyOff < |hdr| then hdr[bodyOff..] else [];
    ReceivesPrefix(body, if contentLen == 0 then info.size else contentLen, chunks, a);
    assert (body + Flat(chunks[..a]))[..|body|] == body;
  }

  /** Since `before`, `n` writes succeeded, or fewer and then one failed. */
  ghost predicate Succeeded(before: seq<bool>, after: seq<bool>, n: nat, ok: bool) {
    && before <= after
    && if ok then |after| == |before| + n && forall k | |before| <= k < |after| :: after[k]
       else |before| < |after| <= |before| + n && !after[|after| - 1] && forall k | |before| <= k < |after| - 1 :: after[k]
  }

  /** The same, and if all `n` succeeded, one more was tried, whose result does not count. */
  ghost predicate Attempted(before: seq<bool>, after: seq<bool>, n: nat, ok: bool) {
    if ok then |after| > 0 && Succeeded(before, after[..|after| - 1], n, true) else Succeeded(before, after, n, false)
  }

  class Updater {
    const device: Device
    const staging: array<bv8>
    var stagingLen: nat
    var status: Status
    /** The signature check. */
    const verify: Image -> bool

    ghost predicate Valid()
      reads this, device
    {
      device.Valid() && staging.Length == STAGING && stagingLen <= STAGING
    }

    ghost function View(): State
      requires Valid()
      reads this, device, staging
    {
      State(device.block, status, staging[..stagingLen], device.sectors)
    }

    constructor (storage: Device, check: Image -> bool)
      requires storage.Valid()
      ensures Valid() && device == storage && verify == check && status == NoUpdate && stagingLen == 0
    {
      device, verify, status, stagingLen := storage, check, NoUpdate, 0;
      staging := new bv8[STAGING](_ => 0);
    }

    /** `ota_download`; what the network delivers is given by the parameters after `info`. */
    method Download(info: Info, connected: bool, hdr: seq<bv8>, httpStatus: int,
                    contentLen: nat, bodyOff: nat, chunks: seq<Image>) returns (ok: bool)
      requires Valid() && |hdr| <= 1024
      modifies this, staging
      ensures Valid() && DownloadStep(old(View()), info, ok, View())
      ensures ok <==> connected && httpStatus == 200 && Delivers(info, hdr, contentLen, bodyOff, chunks)
      ensures ok ==> View().staging == Received(info, hdr, contentLen, bodyOff, chunks)
    {
      hide Receive, Crc;
      if info.NoInfo? {
        return false;
      }
      if info.size > STAGING {
        status := Failed;
        return false;
      }
      status := Downloading;
      if !connected || |hdr| == 0 || httpStatus != 200 {
        status := Failed;
        return false;
      }
      var want := if contentLen == 0 then info.size else contentLen;
      if want > STAGING {
        status := Failed;
        return false;
      }
      stagingLen := 0;
      if 0 < bodyOff < |hdr| {
        Stage(hdr[bodyOff..]);
      }
      var complete := ReceiveRest(want, chunks, Initial(hdr, bodyOff));
      if !complete {
        status := Failed;
        return false;
      }
      if info.crc != 0 {
        var actual := Crc32Buf(staging, stagingLen);
        if actual != info.crc {
          status := Failed;
          return false;
        }
      }
      return true;
    }

    /** Appends received bytes to the staging buffer. */
    method Stage(bytes: seq<bv8>)
      requires Valid() && stagingLen + |bytes| <= STAGING
      modifies this`stagingLen, staging
      ensures Valid() && staging[..stagingLen] == old(staging[..stagingLen]) + bytes
    {
      var at := stagingLen;
      forall k | 0 <= k < |bytes| {
        staging[at + k] := bytes[k];
      }
      stagingLen := at + |bytes|;
    }

    method ReceiveRest(want: nat, chunks: seq<Image>, ghost first: Image) returns (complete: bool)
      requires Valid() && want <= STAGING && staging[..stagingLen] == first
      modifies this`stagingLen, staging
      ensures Valid() && complete == (stagingLen >= want)
      ensures staging[..stagingLen] == Receive(first, want, chunks)
    {
      var k := 0;
      while stagingLen < want
        invariant Valid() && 0 <= k <= |chunks|
        invariant Receive(staging[..stagingLen], want, chunks[k..]) == Receive(first, want, chunks)
        decreases |chunks| - k
      {
        if k == |chunks| || chunks[k] == [] {
          return false;
        }
        assert chunks[k..][0] == chunks[k] && chunks[k..][1..] == chunks[k + 1..];
        var n := Least(|chunks[k]|, Least(want - stagingLen, 4096));
        Stage(chunks[k][..n]);
        k := k + 1;
      }
      return true;
    }

    /** `ota_verify` with signature checking on. */
    method Verify() returns (ok: bool)
      requires Valid()
      modifies this`status
      ensures Valid() && VerifyStep(old(View()), verify, ok, View())
    {
      if stagingLen == 0 {
        status := Failed;
        return false;
      }
      status := Verifying;
      if !verify(staging[..stagingLen]) {
        status := Failed;
        return false;
      }
      status := Ready;
      return true;
    }

    /** Write number `i` of applying `start.staging`, given that the first `i` reached the device. */
    method PutNext(ghost start: State, ghost i: nat, sector: Sector, lba: nat) returns (rc: int)
      requires i <= SectorCount(|start.staging|) + 1
      requires sector == WriteSector(start.staging, i) && lba == WriteLba(start.staging, i)
      requires device.Valid() && start.block == device.block && Reaches(start, i, device.sectors)
      requires i > SectorCount(|start.staging|) ==> KERNEL_LBA + SectorCount(|start.staging|) <= |start.disk|
      modifies device
      ensures device.Valid()
      ensures Reaches(start, i, device.sectors) || Reaches(start, i + 1, device.sectors)
      ensures rc >= 0 ==> lba < |start.disk| && Reaches(start, i + 1, device.sectors)
      ensures device.results == old(device.results) + [rc >= 0]
      ensures device.history == old(device.history) + [device.sectors]
    {
      rc := device.Write(sector, lba);
      if lba < |start.disk| {
        NextWrite(start.disk, start.block, start.staging, i);
      }
    }

    /** `ota_apply`; every state the device goes through is the result of a prefix of the writes. */
    method Apply(hasStorage: bool) returns (ok: bool)
      requires Valid()
      modifies this`status, device
      ensures Valid() && ApplyStep(old(View()), ok, View())
      ensures old(device.history) <= device.history
      ensures Recorded(old(View()), |old(device.history)|, device.history)
      ensures old(status) == Ready && hasStorage ==>
                Attempted(old(device.results), device.results, SectorCount(stagingLen) + 1, ok)
      ensures !(old(status) == Ready && hasStorage) ==> !ok && device.results == old(device.results)
      ensures ok && device.results[|device.results| - 1] ==>
                && FlagClear(device.sectors)
                && (Whole(device.block, old(stagingLen)) ==> HoldsImage(device.sectors, device.block, old(View().staging)))
    {
      hide AfterWrites, HoldsImage, FlagClear, KernelSector, FlagSector, Zeros;
      if status != Ready {
        return false;
      }
      status := Applying;
      ghost var start := old(View());
      NothingWritten(start);
      if !hasStorage {
        status := Failed;
        return false;
      }
      var wr := PutNext(start, 0, FlagSector(stagingLen), FLAG_LBA);
      if wr < 0 {
        status := Failed;
        return false;
      }
      ok := WriteKernel(start);
      if !ok {
        status := Failed;
        return false;
      }
      wr := PutNext(start, SectorCount(stagingLen) + 1, Zeros(SECTOR), FLAG_LBA);
      if wr >= 0 {
        ApplyCompletes(start, device.sectors);
      }
      status := Done;
      return true;
    }

    /** A full sector of the staged image, padded with zeros if it is the last. */
    method NextSector(i: nat) returns (sector: Sector)
      requires Valid() && i < SectorCount(stagingLen)
      ensures sector == KernelSector(staging[..stagingLen], i)
    {
      SectorInside(stagingLen, i);
      var offset := i * SECTOR;
      var chunk := Least(stagingLen - offset, SECTOR);
      sector := staging[offset..offset + chunk] + Zeros(SECTOR - chunk);
      assert staging[..stagingLen][offset..][..chunk] == staging[offset..offset + chunk];
    }

    /** The image, sector by sector, stopping at the first failed write. */
    method WriteKernel(ghost start: State) returns (ok: bool)
      requires Valid() && start.staging == staging[..stagingLen]
      requires start.block == device.block && Reaches(start, 1, device.sectors) && FLAG_LBA < |start.disk|
      modifies device
      ensures Valid()
      ensures old(device.history) <= device.history && Recorded(start, |old(device.history)|, device.history)
      ensures Reached(start, device.sectors)
      ensures ok ==> Reaches(start, SectorCount(stagingLen) + 1, device.sectors)
      ensures ok ==> KERNEL_LBA + SectorCount(stagingLen) <= |start.disk|
      ensures Succeeded(old(device.results), device.results, SectorCount(stagingLen), ok)
    {
      hide AfterWrites, KernelSector, SectorCount;
      var sectors := SectorCount(stagingLen);
      var i := 0;
      while i < sectors
        invariant 0 <= i <= sectors && Valid()
        invariant Reaches(start, i + 1, device.sectors) && KERNEL_LBA + i <= |start.disk|
        invariant old(device.history) <= device.history && Recorded(start, |old(device.history)|, device.history)
        invariant Succeeded(old(device.results), device.results, i, true)
      {
        var sector := NextSector(i);
        var wr := PutNext(start, i + 1, sector, KERNEL_LBA + i);
        if wr < 0 {
          return false;
        }
        i := i + 1;
      }
      return true;
    }
  }
}
