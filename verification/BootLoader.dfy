/** The boot loader's copying: sectors go from ROM to DRAM through two 32 KB windows that are moved by writing chip
    registers, and the loader finds the kernel through a configuration sector at a fixed ROM address. */
module BootLoader {
  import opened Files
  import opened FlashImage

  const WINDOW := 0x8000
  const CONFIG_1_S := 0xFC000
  const BOOTSETUP := 0x90000             // 16 * BOOTSETUP_SEG
  const CONFBUF_OFF := 0xF000
  const KERNEL_S := 0x100000
  const TOP := 0x400000                  // installed DRAM

  /** Memory addresses that the loader uses: the low 640 KB, and what lies between 1 MB and 4 MB + 384 KB. */
  predicate Addr(a: int) {
    0 <= a < 0xA0000 || 0x100000 <= a < 0x460000
  }

  /** Addresses from 4 MB on are wrapped down to the DRAM that lies behind the hole between 640 KB and 1 MB. */
  function Remap(a: nat): int {
    if a < TOP then a else a - 0x360000
  }

  /** On the addresses of the loader that is one to one, and reaches exactly the installed DRAM. */
  lemma RemapOneToOne(a: nat, b: nat)
    requires Addr(a) && Addr(b)
    ensures Remap(a) == Remap(b) <==> a == b
    ensures 0 <= Remap(a) < TOP
  {
  }

  lemma RemapOnto(p: nat)
    requires p < TOP
    ensures var a := if 0xA0000 <= p < 0x100000 then p + 0x360000 else p;
            Addr(a) && Remap(a) == p
  {
  }

  /** The register pair of a window: the low one gets address bits 15-22, the high one bits 23-25 and flags. */
  datatype Window = Window(low: nat, high: nat)

  /** The physical address on which a window stands. */
  function Base(w: Window): nat {
    ((w.high % 8) * 256 + w.low) * WINDOW
  }

  /** Where an address is found: the window setting, and the offset in the window. */
  function Split(phys: nat, flags: nat): (Window, nat) {
    var high := phys / WINDOW;
    (Window(high % 256, high / 256 % 8 + flags), phys % WINDOW)
  }

  /** The split loses nothing below 64 MB, and an aligned sector does not leave its window. */
  lemma SplitRecombines(phys: nat, flags: nat)
    requires phys < 0x4000000 && flags % 8 == 0
    ensures var (w, off) := Split(phys, flags);
            Base(w) + off == phys && w.low < 256
    ensures phys % SECTOR == 0 ==> Split(phys, flags).1 + SECTOR <= WINDOW
  {
    var page := phys / WINDOW;
    assert page < 2048;
    assert (page / 256 % 8 + flags) % 8 == page / 256;
  }

  /** Memory as the kernel will see it, given the contents of the DRAM. */
  function Mem(ram: seq<byte>, a: int): byte
    requires |ram| == TOP && Addr(a)
  {
    ram[Remap(a)]
  }

  /** The DRAM after holds what it held before, with n bytes of ROM from src copied flat to memory address dst. */
  ghost predicate Copied(before: seq<byte>, after: seq<byte>, rom: seq<byte>, src: nat, dst: nat, n: nat)
    requires |before| == |after| == TOP && src + n <= |rom|
  {
    forall a: nat :: Addr(a) ==> Mem(after, a) == if dst <= a < dst + n then rom[src + (a - dst)] else Mem(before, a)
  }

  lemma CopiedJoin(before: seq<byte>, middle: seq<byte>, after: seq<byte>, rom: seq<byte>,
                   src: nat, dst: nat, n: nat, m: nat)
    requires |before| == |middle| == |after| == TOP && src + n + m <= |rom|
    requires Copied(before, middle, rom, src, dst, n) && Copied(middle, after, rom, src + n, dst + n, m)
    ensures Copied(before, after, rom, src, dst, n + m)
  {
  }

  class Machine {
    const rom: seq<byte>
    const ram: array<byte>
    var currentSrc: nat
    var currentDst: nat
    var windowA: Window   // ROM
    var windowB: Window   // DRAM

    ghost predicate Valid()
      reads this
    {
      ram.Length == TOP && |rom| <= TOP
    }

    constructor (rom: seq<byte>, ram: array<byte>)
      requires ram.Length == TOP && |rom| <= TOP
      ensures Valid() && this.rom == rom && this.ram == ram
    {
      this.rom, this.ram := rom, ram;
      currentSrc, currentDst := 0, 0;
      windowA, windowB := Window(0, 0), Window(0, 0);
    }

    /** mmswinsetup for the destination. */
    method SetupB() returns (si: nat)
      requires currentDst % SECTOR == 0 && Addr(currentDst)
      modifies this`currentDst, this`windowB
      ensures currentDst == old(currentDst) + SECTOR
      ensures Base(windowB) + si == Remap(old(currentDst)) && si + SECTOR <= WINDOW
      ensures windowB.high - windowB.high % 8 == 0xC8   // enabled, on the DRAM
    {
      var ebx := currentDst;
      currentDst := (currentDst + SECTOR) % 0x1_0000_0000;
      if ebx >= TOP { ebx := ebx - 0x360000; }
      SplitRecombines(ebx, 0xC8);
      windowB := Window(ebx / WINDOW % 256, ebx / WINDOW / 256 % 8 + 0xC8);
      si := ebx % WINDOW;
    }

    /** mmswinsetup for the source. */
    method SetupA() returns (si: nat)
      requires currentSrc % SECTOR == 0 && currentSrc < TOP
      modifies this`currentSrc, this`windowA
      ensures currentSrc == old(currentSrc) + SECTOR
      ensures Base(windowA) + si == old(currentSrc) && si + SECTOR <= WINDOW
      ensures windowA.high - windowA.high % 8 == 0x08   // on the ROM
    {
      var ebx := currentSrc;
      currentSrc := (currentSrc + SECTOR) % 0x1_0000_0000;
      if ebx >= TOP { ebx := ebx - 0x360000; }
      SplitRecombines(ebx, 0x08);
      windowA := Window(ebx / WINDOW % 256, ebx / WINDOW / 256 % 8 + 0x08);
      si := ebx % WINDOW;
    }

    /** One pass of load_sector_loop: the words of a sector go from window A to window B. */
    method CopySector()
      requires Valid() && currentSrc % SECTOR == 0 && currentDst % SECTOR == 0
      requires currentSrc + SECTOR <= |rom| && Addr(currentDst)
      modifies this`currentSrc, this`currentDst, this`windowA, this`windowB, ram
      ensures Valid() && currentSrc == old(currentSrc) + SECTOR && currentDst == old(currentDst) + SECTOR
      ensures Copied(old(ram[..]), ram[..], rom, old(currentSrc), old(currentDst), SECTOR)
    {
      ghost var src, dst := currentSrc, currentDst;
      var di := SetupB();
      var si := SetupA();
      MoveWords(Base(windowA) + si, Base(windowB) + di, src, dst);
    }

    /** rep movsw, 256 times. */
    method MoveWords(source: nat, target: nat, ghost src: nat, ghost dst: nat)
      requires Valid() && src + SECTOR <= |rom| && dst % SECTOR == 0 && Addr(dst)
      requires source == src && target == Remap(dst)
      modifies ram
      ensures Copied(old(ram[..]), ram[..], rom, src, dst, SECTOR)
    {
      ghost var before := ram[..];
      var from, to, cx := source, target, 256;
      while cx > 0
        invariant 0 <= cx <= 256 && from == src + 2 * (256 - cx) && to == Remap(dst) + 2 * (256 - cx)
        invariant Copied(before, ram[..], rom, src, dst, 2 * (256 - cx))
      {
        ram[to], ram[to + 1] := rom[from], rom[from + 1];
        from, to, cx := from + 2, to + 2, cx - 1;
      }
    }

    /** load_sector: n sectors through the windows are one flat copy of n * 512 bytes. */
    method LoadSectors(n: nat)
      requires Valid() && currentSrc % SECTOR == 0 && currentDst % SECTOR == 0
      requires currentSrc + n * SECTOR <= |rom|
      requires n > 0 ==> Addr(currentDst) && InOneRange(currentDst, currentDst + n * SECTOR)
      modifies this`currentSrc, this`currentDst, this`windowA, this`windowB, ram
      ensures Valid()
      ensures currentSrc == old(currentSrc) + n * SECTOR && currentDst == old(currentDst) + n * SECTOR
      ensures Copied(old(ram[..]), ram[..], rom, old(currentSrc), old(currentDst), n * SECTOR)
    {
      ghost var src, dst, before := currentSrc, currentDst, ram[..];
      var cx := n;
      while cx > 0
        invariant 0 <= cx <= n && Valid()
        invariant currentSrc == src + (n - cx) * SECTOR && currentDst == dst + (n - cx) * SECTOR
        invariant Copied(before, ram[..], rom, src, dst, (n - cx) * SECTOR)
      {
        ghost var middle := ram[..];
        CopySector();
        CopiedJoin(before, middle, ram[..], rom, src, dst, (n - cx) * SECTOR, SECTOR);
        cx := cx - 1;
      }
    }

    /** Store bytes in the boot setup segment. */
    method Store(off: nat, bytes: seq<byte>)
      requires Valid() && off + |bytes| <= 0x10000
      modifies ram
      ensures ram[..] == Put(old(ram[..]), BOOTSETUP + off, bytes)
    {
      ghost var before := ram[..];
      var i := 0;
      while i < |bytes|
        invariant 0 <= i <= |bytes|
        invariant ram[..] == Put(before, BOOTSETUP + off, bytes[..i])
      {
        ram[BOOTSETUP + off + i] := bytes[i];
        i := i + 1;
      }
      assert bytes[..|bytes|] == bytes;
    }

    /** load_config: the configuration sector. */
    method LoadConfig()
      requires Valid() && CONFIG_1_S + SECTOR <= |rom|
      modifies this`currentSrc, this`currentDst, this`windowA, this`windowB, ram
      ensures Valid()
      ensures Copied(old(ram[..]), ram[..], rom, CONFIG_1_S, BOOTSETUP + CONFBUF_OFF, SECTOR)
    {
      currentSrc, currentDst := CONFIG_1_S, BOOTSETUP + CONFBUF_OFF;
      LoadSectors(1);
    }

    /** The update of the setup header. */
    method Patch(totalRam: nat)
      requires Valid()
      modifies ram
      ensures ram[..] == Patched(old(ram[..]), ExtMemK(totalRam))
    {
      var cmdline := ram[BOOTSETUP + CONFBUF_OFF + 4..BOOTSETUP + CONFBUF_OFF + 259];
      Store(0x210, [1]);
      Store(0x211, [1]);
      Store(0x1F8, [0, 0]);
      Store(0x1E0, [0, 0, 0, 0]);
      Store(0x20, Word(0xA33F));
      Store(0x22, Word(0x800));
      Store(0x1FF, [0]);
      Store(0x214, [0, 0, 0x10, 0]);
      Store(2, Word(ExtMemK(totalRam)));
      Store(0x800, cmdline);
      Store(0x8FF, [0]);
      Store(0x40, Zeros(0xC0));
    }

    /** The boot sector at the address in the configuration sector, then as many setup sectors as it asks for. */
    method LoadSetup()
      requires Valid() && KernelFits(rom, KernelAddress(ram[..]))
      modifies this`currentSrc, this`currentDst, this`windowA, this`windowB, ram
      ensures Valid()
      ensures var at := KernelAddress(old(ram[..]));
              && Copied(old(ram[..]), ram[..], rom, at, BOOTSETUP, SetupBytes(rom, at))
              && currentSrc == at + SetupBytes(rom, at)
    {
      ghost var before, at := ram[..], KernelAddress(ram[..]);
      var eax := FromLE32(ram[BOOTSETUP + CONFBUF_OFF..BOOTSETUP + CONFBUF_OFF + 4]);
      currentSrc, currentDst := eax, BOOTSETUP;
      LoadSectors(1);
      ghost var first := ram[..];
      SetupCount(before, first, rom, at);
      var cl := ram[BOOTSETUP + 0x1F1] as nat;
      LoadSectors(cl);
      CopiedJoin(before, first, ram[..], rom, at, BOOTSETUP, SECTOR, cl * SECTOR);
    }

    /** load_info: the boot sector at the address in the configuration sector, then as many setup sectors as it asks
        for; then the header is updated. mid is the DRAM before the update. */
    method LoadInfo(totalRam: nat) returns (ghost mid: seq<byte>)
      requires Valid() && KernelFits(rom, KernelAddress(ram[..]))
      modifies this`currentSrc, this`currentDst, this`windowA, this`windowB, ram
      ensures Valid() && |mid| == TOP && ram[..] == Patched(mid, ExtMemK(totalRam))
      ensures var at := KernelAddress(old(ram[..]));
              && Copied(old(ram[..]), mid, rom, at, BOOTSETUP, SetupBytes(rom, at))
              && currentSrc == at + SetupBytes(rom, at)
      ensures ram[..][0x90002] as nat + 256 * ram[..][0x90003] as nat == (totalRam - 640) % 65536
    {
      LoadSetup();
      mid := ram[..];
      Patch(totalRam);
      PatchedMemory(mid, totalRam);
    }

    /** load_images: the kernel itself, whose size in paragraphs is in the boot sector, to 1 MB. */
    method LoadImages()
      requires Valid() && currentSrc % SECTOR == 0
      requires currentSrc + Sectors(LoadedSize(ram[..])) * SECTOR <= |rom|
      modifies this`currentSrc, this`currentDst, this`windowA, this`windowB, ram
      ensures Valid()
      ensures Copied(old(ram[..]), ram[..], rom, old(currentSrc), KERNEL_S, Sectors(LoadedSize(old(ram[..]))) * SECTOR)
    {
      var ax := ram[BOOTSETUP + 0x1F4] as nat + 256 * ram[BOOTSETUP + 0x1F5] as nat;
      ax := (ax + 31) % 65536;
      currentDst := KERNEL_S;
      LoadSectors(ax / 32);
    }
  }

  /** The kernel address in the configuration sector. */
  function KernelAddress(ram: seq<byte>): nat
    requires |ram| == TOP
  {
    FromLE32(ram[BOOTSETUP + CONFBUF_OFF..BOOTSETUP + CONFBUF_OFF + 4])
  }

  /** The length of the boot sector and the setup sectors that follow it. */
  function SetupBytes(rom: seq<byte>, at: nat): nat
    requires at + SECTOR <= |rom|
  {
    SECTOR + rom[at + 0x1F1] as nat * SECTOR
  }

  lemma SetupCount(before: seq<byte>, first: seq<byte>, rom: seq<byte>, at: nat)
    requires |before| == |first| == TOP && at + SECTOR <= |rom| && Copied(before, first, rom, at, BOOTSETUP, SECTOR)
    ensures first[BOOTSETUP + 0x1F1] == rom[at + 0x1F1]
  {
    assert Mem(first, BOOTSETUP + 0x1F1) == rom[at + 0x1F1];
  }

  /** The kernel lies on a sector, and its setup sectors lie in the ROM and do not reach the configuration buffer. */
  predicate KernelFits(rom: seq<byte>, at: nat) {
    at % SECTOR == 0 && at + SECTOR <= |rom| && at + SetupBytes(rom, at) <= |rom| && SetupBytes(rom, at) <= CONFBUF_OFF
  }

  /** The kernel size in paragraphs of 16 bytes, as loaded. */
  function LoadedSize(ram: seq<byte>): nat
    requires |ram| == TOP
  {
    ram[BOOTSETUP + 0x1F4] as nat + 256 * ram[BOOTSETUP + 0x1F5] as nat
  }

  /** Paragraphs to sectors, rounded up in 16 bits. */
  function Sectors(paragraphs: nat): nat { (paragraphs + 31) % 65536 / 32 }

  /** The sectors hold the kernel exactly when the rounding does not wrap. */
  lemma SectorsSuffice(paragraphs: nat)
    requires paragraphs < 65536
    ensures Sectors(paragraphs) * SECTOR >= paragraphs * 16 <==> paragraphs <= 65504
    ensures paragraphs <= 65504 ==> Sectors(paragraphs) * SECTOR < paragraphs * 16 + SECTOR
    ensures Sectors(paragraphs) < 2048
  {
  }

  /** Bytes put into memory at an address. */
  function Put(ram: seq<byte>, at: nat, bytes: seq<byte>): (r: seq<byte>)
    ensures |r| == |ram|
    ensures forall i :: 0 <= i < |ram| ==> r[i] == if at <= i < at + |bytes| then bytes[i - at] else ram[i]
  {
    seq(|ram|, i requires 0 <= i < |ram| => if at <= i < at + |bytes| then bytes[i - at] else ram[i])
  }

  function Word(x: nat): (r: seq<byte>)
    ensures |r| == 2
  {
    [(x % 256) as byte, (x / 256 % 256) as byte]
  }

  /** Extended memory as the kernel is told: the 384 KB behind the hole count, the first megabyte does not. */
  function ExtMemK(totalRam: nat): nat { (totalRam + 384 - 1024) % 65536 }

  /** The kernel's boot and setup sectors after the loader has patched them. */
  function Patched(ram: seq<byte>, extMemK: nat): (r: seq<byte>)
    requires |ram| == TOP
    ensures |r| == TOP
  {
    var cmdline := ram[BOOTSETUP + CONFBUF_OFF + 4..BOOTSETUP + CONFBUF_OFF + 259];
    var r1 := Put(Put(Put(ram, BOOTSETUP + 0x210, [1]), BOOTSETUP + 0x211, [1]), BOOTSETUP + 0x1F8, [0, 0]);
    var r2 := Put(Put(r1, BOOTSETUP + 0x1E0, [0, 0, 0, 0]), BOOTSETUP + 0x20, Word(0xA33F));
    var r3 := Put(Put(r2, BOOTSETUP + 0x22, Word(0x800)), BOOTSETUP + 0x1FF, [0]);
    var r4 := Put(Put(r3, BOOTSETUP + 0x214, [0, 0, 0x10, 0]), BOOTSETUP + 2, Word(extMemK));
    var r5 := Put(Put(r4, BOOTSETUP + 0x800, cmdline), BOOTSETUP + 0x8FF, [0]);
    Put(r5, BOOTSETUP + 0x40, Zeros(0xC0))
  }

  /** Offsets in the boot and setup sectors that the loader overwrites. */
  predicate IsPatched(x: int) {
    || 2 <= x < 4 || 0x20 <= x < 0x24 || 0x40 <= x < 0x100 || 0x1E0 <= x < 0x1E4 || 0x1F8 <= x < 0x1FA || x == 0x1FF
    || 0x210 <= x < 0x212 || 0x214 <= x < 0x218 || 0x800 <= x < 0x900
  }

  /** Patching changes nothing else, keeps the sizes that are still to be read, and puts the command line, at most
      255 bytes of it, in place with a zero after it. */
  lemma PatchedByte(ram: seq<byte>, extMemK: nat)
    requires |ram| == TOP
    ensures forall a: nat :: a < TOP && !IsPatched(a - BOOTSETUP) ==> Patched(ram, extMemK)[a] == ram[a]
    ensures Patched(ram, extMemK)[BOOTSETUP + 0x800..BOOTSETUP + 0x8FF]
         == ram[BOOTSETUP + CONFBUF_OFF + 4..BOOTSETUP + CONFBUF_OFF + 259]
    ensures Patched(ram, extMemK)[BOOTSETUP + 0x8FF] == 0
    ensures Patched(ram, extMemK)[BOOTSETUP + 0x214..BOOTSETUP + 0x218] == [0, 0, 0x10, 0]
    ensures Patched(ram, extMemK)[BOOTSETUP + 2..BOOTSETUP + 4] == Word(extMemK)
  {
  }

  /** The marks that tell the kernel of a command line at 0x800 and of a loader that has loaded it high, and what is
      cleared. */
  lemma PatchedMarks(ram: seq<byte>, extMemK: nat)
    requires |ram| == TOP
    ensures Patched(ram, extMemK)[BOOTSETUP + 0x20..BOOTSETUP + 0x24] == [0x3F, 0xA3, 0, 8]
    ensures Patched(ram, extMemK)[BOOTSETUP + 0x210..BOOTSETUP + 0x212] == [1, 1]
    ensures var r := Patched(ram, extMemK);
            && r[BOOTSETUP + 0x40..BOOTSETUP + 0x100] == Zeros(0xC0) && r[BOOTSETUP + 0x1E0..BOOTSETUP + 0x1E4] == Zeros(4)
            && r[BOOTSETUP + 0x1F8..BOOTSETUP + 0x1FA] == Zeros(2) && r[BOOTSETUP + 0x1FF] == 0
  {
  }

  /** The kernel is told of the memory from 1 MB on in KB: all but the low 640 KB, since what lies behind the hole has
      moved to the end. The number has 16 bits, the low byte first. */
  lemma PatchedMemory(ram: seq<byte>, totalRam: nat)
    requires |ram| == TOP
    ensures var r := Patched(ram, ExtMemK(totalRam));
            r[0x90002] as nat + 256 * r[0x90003] as nat == (totalRam - 640) % 65536
  {
    var x := ExtMemK(totalRam);
    PatchedByte(ram, x);
    var r := Patched(ram, x);
    assert r[0x90002] == r[BOOTSETUP + 2..BOOTSETUP + 4][0] && r[0x90003] == r[BOOTSETUP + 2..BOOTSETUP + 4][1];
    assert Word(x)[0] as nat == x % 256 && Word(x)[1] as nat == x / 256;
  }

  /** A destination range that lies below 640 KB, or from 1 MB on. */
  predicate InOneRange(from: nat, to: nat) {
    to <= 0xA0000 || (0x100000 <= from && to <= 0x460000)
  }
}
