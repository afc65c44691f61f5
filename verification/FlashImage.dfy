/** The flash image builder: root file system at the bottom, the kernel justified against the configuration blocks,
    then the configuration and the boot loader at the top. */
module FlashImage {
  import opened Arithmetic
  import opened Files

  const SECTOR := 512
  const RW_SIZE := 16384        // RW.tar.gz is padded to blocks of this size
  const LOADER_SIZE := 15872    // 16 * 992

  /** Little-endian 32-bit number, as pack "L" makes it. */
  function LE32(x: int): (r: seq<byte>)
    ensures |r| == 4
  {
    [(x % 256) as byte, (x / 256 % 256) as byte, (x / 65536 % 256) as byte, (x / 16777216 % 256) as byte]
  }

  function FromLE32(s: seq<byte>): nat
    requires |s| == 4
  {
    s[0] as nat + 256 * (s[1] as nat + 256 * (s[2] as nat + 256 * s[3] as nat))
  }

  lemma LE32RoundTrip(x: nat)
    requires x < U32
    ensures FromLE32(LE32(x)) == x
  {
    Digit(x);
    Digit(x / 256);
    Digit(x / 65536);
    assert x / 65536 / 256 == x / 16777216 < 256;
  }

  lemma Digit(x: nat)
    ensures x == 256 * (x / 256) + x % 256
    ensures x / 256 / 256 == x / 65536
  {
  }

  function Fill(n: int): (r: seq<byte>)
    ensures |r| == if n > 0 then n else 0
    ensures forall i :: 0 <= i < |r| ==> r[i] == 0xFF
  {
    if n > 0 then seq(n, _ => 0xFF) else []
  }

  /** Between 1 and 512 bytes follow the kernel: a full sector when it is aligned already. */
  function KernelPad(size: nat): (n: nat)
    ensures 1 <= n <= 512 && (size + n) % 512 == 0
  {
    SECTOR - size % SECTOR % SECTOR
  }

  /** Where the kernel is meant to start; the configuration block records this number. */
  function KernelLocation(flashSize: nat, p: Parts): int {
    flashSize - |p.loader| - SECTOR - 16 * 1024 - |p.kernel| - KernelPad(|p.kernel|)
  }

  /** The configuration block before padding. */
  function KConf(location: int, args: seq<byte>): (r: seq<byte>)
    ensures |r| == 5 + |args|
  {
    LE32(location) + args + [0]
  }

  /** The file being built. */
  class OutputFile {
    var bytes: seq<byte>

    constructor (start: seq<byte>)
      ensures bytes == start
    {
      bytes := start;
    }

    method Append(more: seq<byte>)
      modifies this
      ensures bytes == old(bytes) + more
    {
      bytes := bytes + more;
    }

    /** pad_file: append 0xFF bytes; a negative number of them is none. */
    method PadFile(numBytes: int)
      modifies this
      ensures bytes == old(bytes) + Fill(numBytes)
    {
      var n := numBytes;
      while n > 0
        invariant n <= numBytes || n == numBytes
        invariant bytes == old(bytes) + Fill(numBytes)[..if numBytes > 0 && n >= 0 then numBytes - n else 0]
        invariant numBytes > 0 ==> 0 <= n
      {
        assert Fill(numBytes)[..numBytes - n + 1] == Fill(numBytes)[..numBytes - n] + [0xFF];
        bytes := bytes + [0xFF];
        n := n - 1;
      }
    }

    /** make_kconf_file */
    method MakeKConf(location: int, args: seq<byte>)
      modifies this
      ensures bytes == old(bytes) + KConf(location, args)
    {
      bytes := bytes + LE32(location);
      bytes := bytes + args;
      bytes := bytes + [0];
    }
  }

  /** The parts of an image. */
  datatype Parts = Parts(rootfs: seq<byte>, kernel: seq<byte>, rw: seq<byte>, args: seq<byte>, loader: seq<byte>)

  /** Everything up to the configuration block. */
  function BelowConfig(flashSize: nat, p: Parts): seq<byte> {
    p.rootfs + Fill(KernelLocation(flashSize, p) - |p.rootfs|)
    + p.kernel + Fill(KernelPad(|p.kernel|)) + p.rw
  }

  function Image(flashSize: nat, p: Parts): seq<byte> {
    var conf := BelowConfig(flashSize, p) + KConf(KernelLocation(flashSize, p), p.args);
    conf + Fill(SECTOR - |conf| % SECTOR) + p.loader
  }

  /** The script, on the file that holds the root file system already. */
  method BuildFlash(flash: OutputFile, flashSize: nat, p: Parts)
    requires flash.bytes == p.rootfs
    modifies flash
    ensures flash.bytes == Image(flashSize, p)
  {
    var location := KernelLocation(flashSize, p);
    flash.PadFile(location - |flash.bytes|);
    flash.Append(p.kernel);
    flash.PadFile(KernelPad(|p.kernel|));
    flash.Append(p.rw);
    assert flash.bytes == BelowConfig(flashSize, p);
    flash.MakeKConf(location, p.args);
    flash.PadFile(SECTOR - |flash.bytes| % SECTOR);
    flash.Append(p.loader);
  }

  /** The sizes that the layout relies on: a flash of whole sectors, the assembled boot loader, and the padded
      configuration archive. */
  predicate Sized(flashSize: nat, p: Parts) {
    && flashSize % SECTOR == 0 && |p.loader| == LOADER_SIZE
    && |p.rw| > 0 && |p.rw| % RW_SIZE == 0
  }

  /** Everything fits: root file system and kernel, one block of archive, and a command line within the sector. */
  predicate Fits(flashSize: nat, p: Parts) {
    && Sized(flashSize, p)
    && |p.rootfs| <= KernelLocation(flashSize, p)
    && |p.rw| == RW_SIZE && |p.args| <= SECTOR - 6
  }

  /** How far the root file system reaches past the place of the kernel. */
  function Excess(flashSize: nat, p: Parts): nat {
    var at := KernelLocation(flashSize, p);
    if |p.rootfs| > at then |p.rootfs| - at else 0
  }

  lemma BelowConfigLength(flashSize: nat, p: Parts)
    requires Sized(flashSize, p)
    ensures |BelowConfig(flashSize, p)| == flashSize - 2 * RW_SIZE + |p.rw| + Excess(flashSize, p)
  {
  }

  /** The image has the size of the flash exactly when the archive takes one block, and the excess of the root file
      system fits into the sector of the configuration block, together with that; otherwise it is larger. Nothing in
      the script checks this. */
  lemma ImageSize(flashSize: nat, p: Parts)
    requires Sized(flashSize, p)
    ensures |Image(flashSize, p)| == flashSize
       <==> |p.rw| == RW_SIZE && Excess(flashSize, p) + 5 + |p.args| < SECTOR
    ensures |Image(flashSize, p)| >= flashSize
  {
    BelowConfigLength(flashSize, p);
    SizesAddUp(flashSize, |p.rw|, Excess(flashSize, p) + 5 + |p.args|);
  }

  /** So the size alone does not tell that everything fits: a root file system that is too long by no more than what is
      left of the sector goes unnoticed. Where it leaves room for the kernel, it does. */
  lemma FitsExactly(flashSize: nat, p: Parts)
    requires Sized(flashSize, p)
    ensures Fits(flashSize, p) <==> |Image(flashSize, p)| == flashSize && Excess(flashSize, p) == 0
  {
    ImageSize(flashSize, p);
  }

  lemma SizesAddUp(flashSize: nat, rw: nat, conf: nat)
    requires flashSize % SECTOR == 0 && rw > 0 && rw % RW_SIZE == 0 && flashSize - 2 * RW_SIZE + rw + conf >= 0
    ensures var below := flashSize - 2 * RW_SIZE + rw;
            var total := below + conf + (SECTOR - (below + conf) % SECTOR) + LOADER_SIZE;
            total >= flashSize && (total == flashSize <==> rw == RW_SIZE && conf < SECTOR)
  {
    var below := flashSize - 2 * RW_SIZE + rw;
    var m := rw / RW_SIZE;
    assert rw == RW_SIZE * m && m >= 1;
    assert below == SECTOR * (flashSize / SECTOR - 64 + 32 * m);
    PadUp(below, conf);
  }

  lemma PadUp(below: int, x: nat)
    requires below % SECTOR == 0
    ensures (below + x) % SECTOR == x % SECTOR
    ensures below + x + (SECTOR - (below + x) % SECTOR) == below + SECTOR * (x / SECTOR + 1)
  {
    assert x == SECTOR * (x / SECTOR) + x % SECTOR;
  }

  /** The kernel starts at its place, or right after a root file system that reaches past it. */
  lemma KernelStart(flashSize: nat, p: Parts)
    requires Sized(flashSize, p)
    ensures var start := KernelLocation(flashSize, p) + Excess(flashSize, p);
            && 0 <= start && start + |p.kernel| <= |Image(flashSize, p)|
            && Image(flashSize, p)[start..start + |p.kernel|] == p.kernel
            && |p.rootfs| <= start && Image(flashSize, p)[..|p.rootfs|] == p.rootfs
  {
    var at := KernelLocation(flashSize, p);
    var start := at + Excess(flashSize, p);
    var head := p.rootfs + Fill(at - |p.rootfs|);
    var tail := Fill(KernelPad(|p.kernel|)) + p.rw;
    assert |head| == start;
    assert BelowConfig(flashSize, p) == head + p.kernel + tail;
    assert Image(flashSize, p)[..|head + p.kernel + tail|] == head + p.kernel + tail;
    assert (head + p.kernel + tail)[start..start + |p.kernel|] == p.kernel;
    assert (head + p.kernel + tail)[..|p.rootfs|] == p.rootfs;
  }

  /** What lies between the root file system and the kernel. */
  lemma BeforeKernel(flashSize: nat, p: Parts)
    requires Sized(flashSize, p)
    ensures var start, image := KernelLocation(flashSize, p) + Excess(flashSize, p), Image(flashSize, p);
            |p.rootfs| <= start <= |image| && forall i :: |p.rootfs| <= i < start ==> image[i] == 0xFF
  {
    var at := KernelLocation(flashSize, p);
    var gap := Fill(at - |p.rootfs|);
    var tail := Fill(KernelPad(|p.kernel|)) + p.rw;
    assert BelowConfig(flashSize, p) == p.rootfs + gap + (p.kernel + tail);
    assert Image(flashSize, p)[..|BelowConfig(flashSize, p)|] == BelowConfig(flashSize, p);
    forall i | |p.rootfs| <= i < |p.rootfs + gap| ensures Image(flashSize, p)[i] == 0xFF {
      assert Image(flashSize, p)[i] == BelowConfig(flashSize, p)[i] == gap[i - |p.rootfs|];
    }
  }

  /** What follows the kernel, with an oversized root file system too. */
  lemma AfterKernel(flashSize: nat, p: Parts)
    requires Sized(flashSize, p)
    ensures var start := KernelLocation(flashSize, p) + Excess(flashSize, p);
            var image, n := Image(flashSize, p), KernelPad(|p.kernel|);
            && start + |p.kernel| + n + |p.rw| + 5 + |p.args| + 1 + 15872 <= |image|
                 <= start + |p.kernel| + n + |p.rw| + 5 + |p.args| + 512 + 15872
            && (forall i :: start + |p.kernel| <= i < start + |p.kernel| + n ==> image[i] == 0xFF)
            && image[start + |p.kernel| + n..][..|p.rw|] == p.rw
            && image[start + |p.kernel| + n + |p.rw|..][..5 + |p.args|] == KConf(KernelLocation(flashSize, p), p.args)
            && image[|image| - 15872..] == p.loader
  {
    var at := KernelLocation(flashSize, p);
    var head := p.rootfs + Fill(at - |p.rootfs|) + p.kernel;
    var below := BelowConfig(flashSize, p) + KConf(at, p.args);
    var filling := Fill(SECTOR - |below| % SECTOR);
    assert BelowConfig(flashSize, p) == head + Fill(KernelPad(|p.kernel|)) + p.rw;
    SixParts(head, Fill(KernelPad(|p.kernel|)), p.rw, KConf(at, p.args), filling, p.loader);
  }

  lemma SixParts(a: seq<byte>, b: seq<byte>, c: seq<byte>, d: seq<byte>, e: seq<byte>, f: seq<byte>)
    ensures var s := a + b + c + d + e + f;
            && |s| == |a| + |b| + |c| + |d| + |e| + |f|
            && (forall i :: |a| <= i < |a| + |b| ==> s[i] == b[i - |a|])
            && s[|a| + |b|..][..|c|] == c && s[|a| + |b| + |c|..][..|d|] == d && s[|s| - |f|..] == f
  {
  }

  /** The bytes at the address in the configuration block are the kernel. */
  ghost predicate KernelPlaced(flashSize: nat, p: Parts) {
    var at := KernelLocation(flashSize, p);
    && 0 <= at && at + |p.kernel| <= |Image(flashSize, p)|
    && Image(flashSize, p)[at..at + |p.kernel|] == p.kernel
  }

  predicate SameSizes(p: Parts, q: Parts) {
    |p.rootfs| == |q.rootfs| && |p.kernel| == |q.kernel| && p.rw == q.rw && p.args == q.args && p.loader == q.loader
  }

  /** For parts of given sizes, the configuration block leads to the kernel whatever the parts hold exactly when the
      root file system leaves room for it, or there is nothing to place. */
  lemma KernelPlacedExactly(flashSize: nat, p: Parts)
    requires Sized(flashSize, p)
    ensures (forall q :: SameSizes(p, q) ==> KernelPlaced(flashSize, q))
       <==> Excess(flashSize, p) == 0 || (p.kernel == [] && KernelLocation(flashSize, p) >= 0)
  {
    if Excess(flashSize, p) == 0 || (p.kernel == [] && KernelLocation(flashSize, p) >= 0) {
      forall q | SameSizes(p, q) ensures KernelPlaced(flashSize, q) {
        KernelStart(flashSize, q);
      }
    } else {
      Misplaced(flashSize, p);
    }
  }

  /** Otherwise the first byte there belongs to the root file system. */
  lemma Misplaced(flashSize: nat, p: Parts)
    requires Sized(flashSize, p) && Excess(flashSize, p) > 0
    requires p.kernel != [] || KernelLocation(flashSize, p) < 0
    ensures exists q :: SameSizes(p, q) && !KernelPlaced(flashSize, q)
  {
    var q := p.(rootfs := seq(|p.rootfs|, _ => 0), kernel := seq(|p.kernel|, _ => 1));
    KernelStart(flashSize, q);
    FirstBytes(flashSize, q);
    assert SameSizes(p, q) && !KernelPlaced(flashSize, q);
  }

  lemma FirstBytes(flashSize: nat, p: Parts)
    requires Sized(flashSize, p) && Excess(flashSize, p) > 0
    ensures var at := KernelLocation(flashSize, p);
            p.kernel != [] && KernelPlaced(flashSize, p) ==> p.kernel[0] == p.rootfs[at]
  {
    var at := KernelLocation(flashSize, p);
    KernelStart(flashSize, p);
    if p.kernel != [] && KernelPlaced(flashSize, p) {
      assert Image(flashSize, p)[at..at + |p.kernel|][0] == Image(flashSize, p)[..|p.rootfs|][at];
    }
  }

  /** The kernel ends less than a sector and one byte below the configuration blocks, and starts on a sector. */
  lemma LocationAligned(flashSize: nat, p: Parts)
    requires Sized(flashSize, p)
    ensures var at := KernelLocation(flashSize, p);
            at % 512 == 0 && at + |p.kernel| < flashSize - 32768 <= at + |p.kernel| + 512
  {
    var total := |p.kernel| + KernelPad(|p.kernel|);
    assert total == SECTOR * (total / SECTOR);
    assert KernelLocation(flashSize, p) == SECTOR * (flashSize / SECTOR - 64 - total / SECTOR);
  }

  /** The layout of an image in which everything fits: root file system at the bottom, the kernel where the
      configuration block says, the archive, and in the last 16 KB that block (the place of the kernel, low byte
      first, the command line and a zero, filled up with ones) and the loader. */
  lemma Layout(flashSize: nat, p: Parts)
    requires Fits(flashSize, p)
    ensures var image := Image(flashSize, p);
            var at := KernelLocation(flashSize, p);
            && |image| == flashSize >= 32768
            && image[..|p.rootfs|] == p.rootfs
            && at + |p.kernel| <= |image| && image[at..at + |p.kernel|] == p.kernel
            && image[flashSize - 32768..flashSize - 16384] == p.rw
            && image[flashSize - 16384..flashSize - 15872] == KConf(at, p.args) + Fill(507 - |p.args|)
            && image[flashSize - 15872..] == p.loader
  {
    var at := KernelLocation(flashSize, p);
    KernelStart(flashSize, p);
    SplitImage(flashSize, p);
    var head := p.rootfs + Fill(at - |p.rootfs|) + p.kernel + Fill(KernelPad(|p.kernel|));
    FourParts(head, p.rw, KConf(at, p.args) + Fill(SECTOR - 5 - |p.args|), p.loader);
    assert head[..|p.rootfs|] == p.rootfs;
  }

  /** The configuration block, byte by byte. */
  lemma KConfBytes(location: nat, args: seq<byte>)
    requires location < 0x1_0000_0000
    ensures var block := KConf(location, args);
            && |block| == 4 + |args| + 1 && block[4..4 + |args|] == args && block[4 + |args|] == 0
            && block[0] as nat + block[1] as nat * 256 + block[2] as nat * 0x1_0000 + block[3] as nat * 0x100_0000 == location
  {
    LE32RoundTrip(location);
  }

  lemma SplitImage(flashSize: nat, p: Parts)
    requires Fits(flashSize, p)
    ensures var at := KernelLocation(flashSize, p);
            var head := p.rootfs + Fill(at - |p.rootfs|) + p.kernel + Fill(KernelPad(|p.kernel|));
            && |head| == flashSize - 2 * RW_SIZE
            && Image(flashSize, p) == head + p.rw + (KConf(at, p.args) + Fill(SECTOR - 5 - |p.args|)) + p.loader
  {
    var at := KernelLocation(flashSize, p);
    BelowConfigLength(flashSize, p);
    var below := BelowConfig(flashSize, p);
    PadUp(|below|, 5 + |p.args|);
    assert |below + KConf(at, p.args)| % SECTOR == 5 + |p.args|;
  }

  lemma FourParts(a: seq<byte>, b: seq<byte>, c: seq<byte>, d: seq<byte>)
    ensures var s := a + b + c + d;
            && s[..|a|] == a && s[|a|..|a| + |b|] == b
            && s[|a| + |b|..|a| + |b| + |c|] == c && s[|a| + |b| + |c|..] == d
            && (forall n :: 0 <= n <= |a| ==> s[..n] == a[..n])
  {
  }
}
