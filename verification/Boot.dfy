/** Builder and loader together: a machine with the built image in its ROM loads the kernel that went into it. */
module Boot {
  import opened Files
  import opened FlashImage
  import opened BootLoader
  import FlashUpdate

  const FLASH_SIZE := 0x100000

  /** Sectors of setup code, and paragraphs of the kernel proper, as the boot sector of a kernel image says. */
  function SetupSectors(k: seq<byte>): nat
    requires |k| >= SECTOR
  {
    k[0x1F1] as nat
  }

  function Paragraphs(k: seq<byte>): nat
    requires |k| >= SECTOR
  {
    k[0x1F4] as nat + 256 * k[0x1F5] as nat
  }

  /** Length of the boot and setup part. */
  function HeadLength(k: seq<byte>): nat
    requires |k| >= SECTOR
  {
    SECTOR + SetupSectors(k) * SECTOR
  }

  /** A kernel image whose boot sector describes it: the rest after the setup part fills its paragraphs but for the
      last one, there are few enough of them to round up, and the setup part stays below the configuration buffer. */
  predicate Kernel(k: seq<byte>) {
    && |k| >= SECTOR && HeadLength(k) <= |k| && HeadLength(k) <= CONFBUF_OFF
    && 16 * Paragraphs(k) - 16 < |k| - HeadLength(k) <= 16 * Paragraphs(k)
    && Paragraphs(k) <= 65504
  }

  /** The boot and setup part stands at 0x90000 but for the patched bytes, and the rest of the kernel at 1 MB. */
  ghost predicate Loaded(ram: seq<byte>, k: seq<byte>)
    requires |ram| == TOP && Kernel(k)
  {
    && (forall x :: 0 <= x < HeadLength(k) && !IsPatched(x) ==> Mem(ram, BOOTSETUP + x) == k[x])
    && |k| - HeadLength(k) <= 0x100000
    && (forall x :: HeadLength(k) <= x < |k| ==> Mem(ram, KERNEL_S + (x - HeadLength(k))) == k[x])
  }

  /** The command line stands at 0x90800, cut at 255 bytes, and is followed by a zero. */
  ghost predicate CommandLine(ram: seq<byte>, args: seq<byte>)
    requires |ram| == TOP
  {
    var n := if |args| <= 255 then |args| else 255;
    ram[BOOTSETUP + 0x800..BOOTSETUP + 0x800 + n] == args[..n] && ram[BOOTSETUP + 0x800 + n] == 0
  }

  /** The addresses that loading changes: the boot and setup part with what is patched in its segment, the configuration
      buffer, and whole sectors for the rest of the kernel. */
  predicate LoadedTo(k: seq<byte>, a: nat)
    requires Kernel(k)
  {
    || BOOTSETUP <= a < BOOTSETUP + HeadLength(k) || IsPatched(a - BOOTSETUP)
    || BOOTSETUP + CONFBUF_OFF <= a < BOOTSETUP + CONFBUF_OFF + SECTOR
    || KERNEL_S <= a < KERNEL_S + Sectors(Paragraphs(k)) * SECTOR
  }

  /** All other memory is left alone. */
  ghost predicate RestKept(before: seq<byte>, after: seq<byte>, k: seq<byte>)
    requires |before| == |after| == TOP && Kernel(k)
  {
    forall a: nat :: Addr(a) && !LoadedTo(k, a) ==> Mem(after, a) == Mem(before, a)
  }

  /** What the configuration block of an image holds. */
  lemma ConfigBlock(p: Parts)
    requires Fits(FLASH_SIZE, p)
    ensures var image := Image(FLASH_SIZE, p);
            var at := KernelLocation(FLASH_SIZE, p);
            && |image| == FLASH_SIZE && 0 <= at
            && FromLE32(image[CONFIG_1_S..CONFIG_1_S + 4]) == at
            && image[CONFIG_1_S + 4..CONFIG_1_S + 4 + |p.args|] == p.args
            && image[CONFIG_1_S + 4 + |p.args|] == 0
  {
    var image, at := Image(FLASH_SIZE, p), KernelLocation(FLASH_SIZE, p);
    Layout(FLASH_SIZE, p);
    LE32RoundTrip(at);
    var block := image[CONFIG_1_S..CONFIG_1_S + SECTOR];
    BlockParts(block, at, p.args);
    Within(image, CONFIG_1_S, CONFIG_1_S + SECTOR, 0, 4);
    Within(image, CONFIG_1_S, CONFIG_1_S + SECTOR, 4, 4 + |p.args|);
    assert image[CONFIG_1_S + 4 + |p.args|] == block[4 + |p.args|];
  }

  lemma BlockParts(block: seq<byte>, at: nat, args: seq<byte>)
    requires |args| <= 506 && block == KConf(at, args) + Fill(507 - |args|)
    ensures |block| == 512 && block[0..4] == LE32(at) && block[4..4 + |args|] == args && block[4 + |args|] == 0
  {
    FourParts(LE32(at), args, [0], Fill(507 - |args|));
  }

  /** A slice of a slice. */
  lemma Within(s: seq<byte>, from: nat, to: nat, i: nat, j: nat)
    requires i <= j && from + j <= to <= |s|
    ensures s[from..to][i..j] == s[from + i..from + j]
  {
    var a, b := s[from..to][i..j], s[from + i..from + j];
    assert |a| == |b|;
    forall m | 0 <= m < |a| ensures a[m] == b[m] {
      assert a[m] == s[from..to][i + m] == s[from + (i + m)];
    }
  }

  /** The kernel in an image is where LoadInfo and LoadImages can load it. */
  lemma KernelInImage(p: Parts)
    requires Fits(FLASH_SIZE, p) && Kernel(p.kernel)
    ensures var image := Image(FLASH_SIZE, p);
            var at := KernelLocation(FLASH_SIZE, p);
            && |image| == FLASH_SIZE && 0 <= at && at + |p.kernel| <= |image|
            && image[at..at + |p.kernel|] == p.kernel
            && KernelFits(image, at) && SetupBytes(image, at) == HeadLength(p.kernel)
            && at + HeadLength(p.kernel) + Sectors(Paragraphs(p.kernel)) * SECTOR <= |image|
            && Sectors(Paragraphs(p.kernel)) * SECTOR >= |p.kernel| - HeadLength(p.kernel)
  {
    var image, at := Image(FLASH_SIZE, p), KernelLocation(FLASH_SIZE, p);
    Layout(FLASH_SIZE, p);
    LocationAligned(FLASH_SIZE, p);
    SectorsSuffice(Paragraphs(p.kernel));
    assert image[at + 0x1F1] == image[at..at + |p.kernel|][0x1F1];
  }

  /** What the copies add up to. */
  lemma CopiesLoad(before: seq<byte>, mid: seq<byte>, after: seq<byte>, rom: seq<byte>, k: seq<byte>, at: nat,
                   extMemK: nat, n: nat)
    requires |before| == |mid| == |after| == TOP && Kernel(k)
    requires at + |k| <= |rom| && rom[at..at + |k|] == k && at + HeadLength(k) + n <= |rom|
    requires |k| - HeadLength(k) <= n <= 0x100000
    requires Copied(before, mid, rom, at, BOOTSETUP, HeadLength(k))
    requires Copied(Patched(mid, extMemK), after, rom, at + HeadLength(k), KERNEL_S, n)
    ensures Loaded(after, k)
  {
    PatchedByte(mid, extMemK);
    forall x | 0 <= x < HeadLength(k) && !IsPatched(x) ensures Mem(after, BOOTSETUP + x) == k[x] {
      assert rom[at + x] == rom[at..at + |k|][x];
      assert Mem(mid, BOOTSETUP + x) == rom[at + x];
      assert Mem(after, BOOTSETUP + x) == Mem(Patched(mid, extMemK), BOOTSETUP + x);
    }
    forall x | HeadLength(k) <= x < |k| ensures Mem(after, KERNEL_S + (x - HeadLength(k))) == k[x] {
      var a := KERNEL_S + (x - HeadLength(k));
      assert rom[at + x] == rom[at..at + |k|][x];
      assert Addr(a) && Mem(after, a) == rom[at + HeadLength(k) + (a - KERNEL_S)];
    }
  }

  /** A copy into low memory, as a slice, and what lies beside it. */
  lemma CopiedSlice(before: seq<byte>, after: seq<byte>, rom: seq<byte>, src: nat, dst: nat, n: nat, from: nat, to: nat)
    requires |before| == |after| == TOP && src + n <= |rom| && Copied(before, after, rom, src, dst, n)
    requires dst <= from <= to <= dst + n && to <= 0xA0000
    ensures after[from..to] == rom[src + (from - dst)..src + (to - dst)]
  {
    forall i | 0 <= i < to - from ensures after[from..to][i] == rom[src + (from - dst)..src + (to - dst)][i] {
      assert Mem(after, from + i) == rom[src + (from + i - dst)];
    }
  }

  lemma KeptSlice(before: seq<byte>, after: seq<byte>, rom: seq<byte>, src: nat, dst: nat, n: nat, from: nat, to: nat)
    requires |before| == |after| == TOP && src + n <= |rom| && Copied(before, after, rom, src, dst, n)
    requires from <= to <= 0xA0000 && (to <= dst || dst + n <= from)
    ensures after[from..to] == before[from..to]
  {
    forall i | 0 <= i < to - from ensures after[from..to][i] == before[from..to][i] {
      assert Mem(after, from + i) == Mem(before, from + i);
    }
  }

  /** The command line goes from the configuration sector through the buffer to the setup segment. */
  lemma CommandLineLoads(before: seq<byte>, config: seq<byte>, mid: seq<byte>, after: seq<byte>, rom: seq<byte>,
                         args: seq<byte>, at: nat, n: nat, extMemK: nat, src: nat, m: nat)
    requires |before| == |config| == |mid| == |after| == TOP && |args| <= SECTOR - 6
    requires CONFIG_1_S + SECTOR <= |rom| && at + n <= |rom| && n <= CONFBUF_OFF && src + m <= |rom|
    requires rom[CONFIG_1_S + 4..CONFIG_1_S + 4 + |args|] == args && rom[CONFIG_1_S + 4 + |args|] == 0
    requires Copied(before, config, rom, CONFIG_1_S, BOOTSETUP + CONFBUF_OFF, SECTOR)
    requires Copied(config, mid, rom, at, BOOTSETUP, n)
    requires Copied(Patched(mid, extMemK), after, rom, src, KERNEL_S, m)
    ensures CommandLine(after, args)
  {
    var buf, dst := BOOTSETUP + CONFBUF_OFF + 4, BOOTSETUP + 0x800;
    PatchedByte(mid, extMemK);
    CopiedSlice(before, config, rom, CONFIG_1_S, BOOTSETUP + CONFBUF_OFF, SECTOR, buf, buf + 255);
    KeptSlice(config, mid, rom, at, BOOTSETUP, n, buf, buf + 255);
    KeptSlice(Patched(mid, extMemK), after, rom, src, KERNEL_S, m, dst, dst + 255);
    KeptSlice(Patched(mid, extMemK), after, rom, src, KERNEL_S, m, dst + 255, dst + 256);
    var line := rom[CONFIG_1_S + 4..CONFIG_1_S + 259];
    assert after[dst..dst + 255] == line;
    assert after[dst + 255..dst + 256][0] == Patched(mid, extMemK)[dst + 255..dst + 256][0] == 0;
    var k := if |args| <= 255 then |args| else 255;
    Within(rom, CONFIG_1_S + 4, CONFIG_1_S + 259, 0, k);
    Within(rom, CONFIG_1_S + 4, CONFIG_1_S + 4 + |args|, 0, k);
    Within(after, dst, dst + 255, 0, k);
    if k < 255 {
      assert after[dst + k] == after[dst..dst + 255][k] == line[k];
    }
  }

  lemma ConfigRead(before: seq<byte>, config: seq<byte>, rom: seq<byte>)
    requires |before| == |config| == TOP && CONFIG_1_S + SECTOR <= |rom|
    requires Copied(before, config, rom, CONFIG_1_S, BOOTSETUP + CONFBUF_OFF, SECTOR)
    ensures KernelAddress(config) == FromLE32(rom[CONFIG_1_S..CONFIG_1_S + 4])
  {
    var a := BOOTSETUP + CONFBUF_OFF;
    CopiedSlice(before, config, rom, CONFIG_1_S, a, SECTOR, a, a + 4);
  }

  /** The update of the header leaves the size of the kernel as it was loaded. */
  lemma HeaderSizeSurvives(config: seq<byte>, mid: seq<byte>, rom: seq<byte>, at: nat, extMemK: nat)
    requires |config| == |mid| == TOP && KernelFits(rom, at)
    requires Copied(config, mid, rom, at, BOOTSETUP, SetupBytes(rom, at))
    ensures LoadedSize(Patched(mid, extMemK)) == rom[at + 0x1F4] as nat + 256 * rom[at + 0x1F5] as nat
  {
    PatchedByte(mid, extMemK);
    assert Mem(mid, BOOTSETUP + 0x1F4) == rom[at + 0x1F4];
    assert Mem(mid, BOOTSETUP + 0x1F5) == rom[at + 0x1F5];
  }

  /** A ROM with the kernel at a sector whose number its configuration sector holds, followed by the command line. */
  predicate Bootable(rom: seq<byte>, k: seq<byte>, args: seq<byte>, at: nat)
    requires Kernel(k)
  {
    && CONFIG_1_S + SECTOR <= |rom| && |args| <= SECTOR - 6
    && FromLE32(rom[CONFIG_1_S..CONFIG_1_S + 4]) == at
    && rom[CONFIG_1_S + 4..CONFIG_1_S + 4 + |args|] == args && rom[CONFIG_1_S + 4 + |args|] == 0
    && at + |k| <= |rom| && rom[at..at + |k|] == k && KernelFits(rom, at)
    && at + HeadLength(k) + Sectors(Paragraphs(k)) * SECTOR <= |rom|
  }

  lemma HeadIsSectors(k: seq<byte>, at: nat)
    requires |k| >= SECTOR && at % SECTOR == 0
    ensures (at + HeadLength(k)) % SECTOR == 0
  {
    assert at + HeadLength(k) == (at / SECTOR + 1 + SetupSectors(k)) * SECTOR;
  }

  /** load_config and load_info: the configuration sector, then the boot and setup part of the kernel. */
  method LoadHead(m: Machine, totalRam: nat, ghost k: seq<byte>, ghost args: seq<byte>, ghost at: nat)
    returns (ghost config: seq<byte>, ghost mid: seq<byte>)
    requires m.Valid() && Kernel(k) && Bootable(m.rom, k, args, at)
    modifies m`currentSrc, m`currentDst, m`windowA, m`windowB, m.ram
    ensures m.Valid() && |config| == |mid| == TOP && m.currentSrc == at + HeadLength(k)
    ensures m.currentSrc % SECTOR == 0
    ensures Copied(old(m.ram[..]), config, m.rom, CONFIG_1_S, BOOTSETUP + CONFBUF_OFF, SECTOR)
    ensures Copied(config, mid, m.rom, at, BOOTSETUP, HeadLength(k))
    ensures m.ram[..] == Patched(mid, ExtMemK(totalRam)) && LoadedSize(m.ram[..]) == Paragraphs(k)
  {
    ghost var before := m.ram[..];
    HeaderInRom(m.rom, k, at);
    HeadIsSectors(k, at);
    m.LoadConfig();
    config := m.ram[..];
    ConfigRead(before, config, m.rom);
    mid := m.LoadInfo(totalRam);
    HeaderSizeSurvives(config, mid, m.rom, at, ExtMemK(totalRam));
  }

  /** The three load routines find the kernel through the configuration sector and place all of it. */
  method LoadKernel(m: Machine, totalRam: nat, ghost k: seq<byte>, ghost args: seq<byte>, ghost at: nat)
    requires m.Valid() && Kernel(k) && Bootable(m.rom, k, args, at)
    modifies m`currentSrc, m`currentDst, m`windowA, m`windowB, m.ram
    ensures m.Valid() && Loaded(m.ram[..], k) && CommandLine(m.ram[..], args) && RestKept(old(m.ram[..]), m.ram[..], k)
    ensures HeaderPatched(m.ram[..], totalRam)
    ensures var ram := m.ram[..]; ram[0x90002] as nat + 256 * ram[0x90003] as nat == (totalRam - 640) % 65536
  {
    ghost var before := m.ram[..];
    SectorsSuffice(Paragraphs(k));
    ghost var config, mid := LoadHead(m, totalRam, k, args, at);
    m.LoadImages();
    AllLoaded(before, config, mid, m.ram[..], m.rom, k, args, at, totalRam);
  }

  /** What the kernel finds in its header: a command line at offset 0x800, a loader that has loaded it high, at 1 MB, the
      memory from 1 MB on in KB, and zeros in what is not used. */
  ghost predicate HeaderPatched(ram: seq<byte>, totalRam: nat)
    requires |ram| == TOP
  {
    && ram[0x90020..0x90024] == [0x3F, 0xA3, 0, 8] && ram[0x90210..0x90212] == [1, 1]
    && ram[0x90214..0x90218] == [0, 0, 0x10, 0]
    && ram[0x90002] as nat + 256 * ram[0x90003] as nat == (totalRam - 640) % 65536
    && ram[0x90040..0x90100] == Zeros(0xC0) && ram[0x901E0..0x901E4] == Zeros(4) && ram[0x901F8..0x901FA] == Zeros(2)
    && ram[0x901FF] == 0
  }

  /** Loading the kernel proper leaves the header as it was patched. */
  lemma HeaderStays(mid: seq<byte>, after: seq<byte>, rom: seq<byte>, src: nat, n: nat, totalRam: nat)
    requires |mid| == |after| == TOP && src + n <= |rom|
    requires Copied(Patched(mid, ExtMemK(totalRam)), after, rom, src, KERNEL_S, n)
    ensures HeaderPatched(after, totalRam)
  {
    var x := ExtMemK(totalRam);
    var before := Patched(mid, x);
    PatchedByte(mid, x);
    PatchedMarks(mid, x);
    PatchedMemory(mid, totalRam);
    LowKept(before, after, rom, src, n);
    HeaderSame(before, after, totalRam);
  }

  lemma LowKept(before: seq<byte>, after: seq<byte>, rom: seq<byte>, src: nat, n: nat)
    requires |before| == |after| == TOP && src + n <= |rom| && Copied(before, after, rom, src, KERNEL_S, n)
    ensures forall q :: 0 <= q < 0xA0000 ==> after[q] == before[q]
  {
    forall q | 0 <= q < 0xA0000 ensures after[q] == before[q] {
      assert Mem(after, q) == Mem(before, q);
    }
  }

  lemma HeaderSame(before: seq<byte>, after: seq<byte>, totalRam: nat)
    requires |before| == |after| == TOP && forall q :: 0 <= q < 0xA0000 ==> after[q] == before[q]
    requires HeaderPatched(before, totalRam)
    ensures HeaderPatched(after, totalRam)
  {
    assert after[0x90020..0x90024] == before[0x90020..0x90024];
    assert after[0x90210..0x90212] == before[0x90210..0x90212];
    assert after[0x90214..0x90218] == before[0x90214..0x90218];
    assert after[0x90040..0x90100] == before[0x90040..0x90100];
    assert after[0x901E0..0x901E4] == before[0x901E0..0x901E4];
    assert after[0x901F8..0x901FA] == before[0x901F8..0x901FA];
  }

  /** The loaded memory in plain addresses. */
  lemma LoadedBytes(before: seq<byte>, after: seq<byte>, k: seq<byte>, args: seq<byte>)
    requires |before| == |after| == TOP && Kernel(k) && Loaded(after, k) && CommandLine(after, args)
    requires RestKept(before, after, k)
    ensures var head := 512 + 512 * k[0x1F1] as nat;
            var sectors := (k[0x1F4] as nat + 256 * k[0x1F5] as nat + 31) / 32;
            var n := if |args| <= 255 then |args| else 255;
            && (forall x :: 0 <= x < head && !HeaderField(x) ==> after[0x90000 + x] == k[x])
            && |k| - head <= 0x100000
            && (forall x :: head <= x < |k| ==> after[0x100000 + (x - head)] == k[x])
            && after[0x90800..0x90800 + n] == args[..n] && after[0x90800 + n] == 0
            && (forall q :: 0 <= q < 0x400000 && !(0x90000 <= q < 0x90000 + head) && !HeaderField(q - 0x90000)
                            && !(0x9F000 <= q < 0x9F200) && !(0x100000 <= q < 0x100000 + 512 * sectors) ==>
                  after[q] == before[q])
  {
    var head := HeadLength(k);
    assert SetupSectors(k) == k[0x1F1] as nat;
    forall x | 0 <= x < head && !HeaderField(x) ensures after[0x90000 + x] == k[x] {
      assert Mem(after, BOOTSETUP + x) == k[x];
    }
    forall x | head <= x < |k| ensures after[0x100000 + (x - head)] == k[x] {
      assert Mem(after, KERNEL_S + (x - head)) == k[x];
    }
    forall q | 0 <= q < 0x400000 && !(0x90000 <= q < 0x90000 + head) && !HeaderField(q - 0x90000)
               && !(0x9F000 <= q < 0x9F200) && !(0x100000 <= q < 0x100000 + 512 * ((Paragraphs(k) + 31) / 32))
      ensures after[q] == before[q]
    {
      PlaceKept(before, after, k, q);
    }
  }

  /** The fields of the header that the loader fills in, the command line, and what it clears. */
  predicate HeaderField(x: int) {
    || 0x002 <= x <= 0x003 || 0x020 <= x <= 0x023 || 0x040 <= x <= 0x0FF || 0x1E0 <= x <= 0x1E3 || 0x1F8 <= x <= 0x1F9
    || x == 0x1FF || 0x210 <= x <= 0x211 || 0x214 <= x <= 0x217 || 0x800 <= x <= 0x8FF
  }

  lemma PlaceKept(before: seq<byte>, after: seq<byte>, k: seq<byte>, q: nat)
    requires |before| == |after| == TOP && Kernel(k) && RestKept(before, after, k)
    requires q < 0x400000 && !(0x90000 <= q < 0x90000 + HeadLength(k)) && !HeaderField(q - 0x90000)
    requires !(0x9F000 <= q < 0x9F200) && !(0x100000 <= q < 0x100000 + 512 * ((Paragraphs(k) + 31) / 32))
    ensures after[q] == before[q]
  {
    RemapOnto(q);
    var a := if 0xA0000 <= q < 0x100000 then q + 0x360000 else q;
    SectorsSuffice(Paragraphs(k));
    assert !LoadedTo(k, a);
    assert Mem(after, a) == Mem(before, a);
  }

  lemma KeptBeside(before: seq<byte>, config: seq<byte>, mid: seq<byte>, after: seq<byte>, rom: seq<byte>,
                   k: seq<byte>, at: nat, extMemK: nat)
    requires |before| == |config| == |mid| == |after| == TOP && Kernel(k)
    requires CONFIG_1_S + SECTOR <= |rom| && at + HeadLength(k) + Sectors(Paragraphs(k)) * SECTOR <= |rom|
    requires Copied(before, config, rom, CONFIG_1_S, BOOTSETUP + CONFBUF_OFF, SECTOR)
    requires Copied(config, mid, rom, at, BOOTSETUP, HeadLength(k))
    requires Copied(Patched(mid, extMemK), after, rom, at + HeadLength(k), KERNEL_S, Sectors(Paragraphs(k)) * SECTOR)
    ensures RestKept(before, after, k)
  {
    PatchedByte(mid, extMemK);
    forall a: nat | Addr(a) && !LoadedTo(k, a) ensures Mem(after, a) == Mem(before, a) {
      RemapOneToOne(a, a);
      assert Mem(after, a) == Mem(Patched(mid, extMemK), a) == Mem(mid, a) == Mem(config, a) == Mem(before, a);
    }
  }

  lemma AllLoaded(before: seq<byte>, config: seq<byte>, mid: seq<byte>, after: seq<byte>, rom: seq<byte>,
                  k: seq<byte>, args: seq<byte>, at: nat, totalRam: nat)
    requires |before| == |config| == |mid| == |after| == TOP && Kernel(k) && Bootable(rom, k, args, at)
    requires Copied(before, config, rom, CONFIG_1_S, BOOTSETUP + CONFBUF_OFF, SECTOR)
    requires Copied(config, mid, rom, at, BOOTSETUP, HeadLength(k))
    requires Copied(Patched(mid, ExtMemK(totalRam)), after, rom, at + HeadLength(k), KERNEL_S,
                    Sectors(Paragraphs(k)) * SECTOR)
    ensures Loaded(after, k) && CommandLine(after, args) && RestKept(before, after, k) && HeaderPatched(after, totalRam)
  {
    var extMemK, n := ExtMemK(totalRam), Sectors(Paragraphs(k)) * SECTOR;
    KeptBeside(before, config, mid, after, rom, k, at, extMemK);
    SectorsSuffice(Paragraphs(k));
    CopiesLoad(config, mid, after, rom, k, at, extMemK, n);
    CommandLineLoads(before, config, mid, after, rom, args, at, HeadLength(k), extMemK, at + HeadLength(k), n);
    HeaderStays(mid, after, rom, at + HeadLength(k), n, totalRam);
  }

  lemma HeaderInRom(rom: seq<byte>, k: seq<byte>, at: nat)
    requires |k| >= SECTOR && at + |k| <= |rom| && rom[at..at + |k|] == k
    ensures SetupBytes(rom, at) == HeadLength(k)
    ensures rom[at + 0x1F4] as nat + 256 * rom[at + 0x1F5] as nat == Paragraphs(k)
  {
    assert rom[at + 0x1F1] == rom[at..at + |k|][0x1F1];
    assert rom[at + 0x1F4] == rom[at..at + |k|][0x1F4];
    assert rom[at + 0x1F5] == rom[at..at + |k|][0x1F5];
  }

  /** In a flash of 1 MB the configuration that the updater keeps is the archive that the builder puts into the image. */
  lemma ConfigIsArchive(p: Parts)
    requires Fits(0x100000, p)
    ensures |Image(0x100000, p)| == 0x100000
    ensures Image(0x100000, p)[FlashUpdate.CONFIG_START..FlashUpdate.CONFIG_START + FlashUpdate.CONFIG_LEN] == p.rw
  {
    Layout(0x100000, p);
  }

  /** For every image in which everything fits and every kernel whose header describes it, the loader running from
      that image loads that kernel and that command line. */
  method LoadImage(m: Machine, p: Parts, totalRam: nat)
    requires m.Valid() && m.rom == Image(FLASH_SIZE, p) && Fits(FLASH_SIZE, p) && Kernel(p.kernel)
    modifies m`currentSrc, m`currentDst, m`windowA, m`windowB, m.ram
    ensures m.Valid() && Loaded(m.ram[..], p.kernel) && CommandLine(m.ram[..], p.args)
    ensures RestKept(old(m.ram[..]), m.ram[..], p.kernel) && HeaderPatched(m.ram[..], totalRam)
  {
    ConfigBlock(p);
    KernelInImage(p);
    LoadKernel(m, totalRam, p.kernel, p.args, KernelLocation(FLASH_SIZE, p));
  }

  /** So in plain addresses: the boot and setup part stands at 0x90000, but for the fields of its header that the
      loader fills in, the rest of the kernel at 1 MB and the command line at 0x90800; the kernel is told of all
      memory but 640 KB. */
  method LoadFromImage(m: Machine, p: Parts, totalRam: nat)
    requires m.Valid() && m.rom == Image(FLASH_SIZE, p) && Fits(FLASH_SIZE, p) && Kernel(p.kernel)
    modifies m`currentSrc, m`currentDst, m`windowA, m`windowB, m.ram
    ensures m.Valid() && RestKept(old(m.ram[..]), m.ram[..], p.kernel) && HeaderPatched(m.ram[..], totalRam)
    ensures var ram, was, k := m.ram[..], old(m.ram[..]), p.kernel;
            var head, sectors := 512 + 512 * k[0x1F1] as nat, (k[0x1F4] as nat + 256 * k[0x1F5] as nat + 31) / 32;
            var field := (x: int) => 0x002 <= x <= 0x003 || 0x020 <= x <= 0x023 || 0x040 <= x <= 0x0FF || 0x1E0 <= x <= 0x1E3
                                     || 0x1F8 <= x <= 0x1F9 || x == 0x1FF || 0x210 <= x <= 0x211 || 0x214 <= x <= 0x217
                                     || 0x800 <= x <= 0x8FF;
            && (forall x :: 0 <= x < head && !field(x) ==> ram[0x90000 + x] == k[x])
            && (forall x :: head <= x < |k| ==> x - head < 0x100000 && ram[0x100000 + (x - head)] == k[x])
            && (forall q :: 0 <= q < 0x400000 && !(0x90000 <= q < 0x90000 + head) && !field(q - 0x90000)
                            && !(0x9F000 <= q < 0x9F200) && !(0x100000 <= q < 0x100000 + 512 * sectors) ==>
                  ram[q] == was[q])
    ensures var ram, n := m.ram[..], if |p.args| <= 255 then |p.args| else 255;
            ram[0x90800..0x90800 + n] == p.args[..n] && ram[0x90800 + n] == 0
    ensures var ram := m.ram[..]; ram[0x90002] as nat + 256 * ram[0x90003] as nat == (totalRam - 640) % 65536
  {
    ghost var before := m.ram[..];
    LoadImage(m, p, totalRam);
    LoadedBytes(before, m.ram[..], p.kernel, p.args);
  }
}
