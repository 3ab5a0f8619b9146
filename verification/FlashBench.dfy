/** The three image-writing strategies of flash/flash_bench.c on NOR flash, their reference pattern
    (flash/flash_utils.c) and the read-back check. */
module FlashBench {
  import opened Bytes
  import opened FlashMemory
  import Crc32
  import FlashDevice

  // ---- the reference pattern ----------------------------------------------------------------------

  /** One step of the 32-bit generator. */
  function PrngNext(state: bv32): bv32 {
    var x0 := if state == 0 then 0x1234_5678 else state;
    var x1 := x0 ^ (x0 << 13);
    var x2 := x1 ^ (x1 >> 17);
    x2 ^ (x2 << 5)
  }

  /** All-ones and all-zeros words are replaced, so that programming always shows. */
  function Visible(value: bv32): bv32 { if value == 0xFFFF_FFFF || value == 0 then value ^ 0x5A5A_5A5A else value }

  lemma VisibleNeverBlank(value: bv32)
    ensures Visible(value) != 0xFFFF_FFFF && Visible(value) != 0
  {
  }

  function ByteAt(value: bv32, i: nat): byte
    requires i < 4
  {
    if i == 0 then (value & 0xFF) as byte
    else if i == 1 then ((value >> 8) & 0xFF) as byte
    else if i == 2 then ((value >> 16) & 0xFF) as byte
    else ((value >> 24) & 0xFF) as byte
  }

  function StateAfter(seed: bv32, n: nat): bv32 {
    if n == 0 then (if seed != 0 then seed else 0x1234_5678) else PrngNext(StateAfter(seed, n - 1))
  }

  /** Byte i of the pattern of a seed: little-endian words of the generator. */
  function PatternByte(seed: bv32, i: nat): byte { ByteAt(Visible(StateAfter(seed, i / 4 + 1)), i % 4) }

  function Pattern(seed: bv32, n: nat): (r: seq<byte>)
    ensures |r| == n
  {
    seq(n, i requires 0 <= i < n => PatternByte(seed, i))
  }

  /** The first words of two seeds, byte by byte; seed 0 stands for the default. */
  lemma FirstWords()
    ensures Pattern(1, 8) == [0x21, 0x20, 0x04, 0x00, 0x01, 0x06, 0x08, 0x04]
    ensures Pattern(0, 8) == [0xA5, 0x5A, 0x98, 0x87, 0xA3, 0x24, 0x5B, 0x15]
  {
    hide PrngNext, Visible;
    FirstStates();
    assert StateAfter(1, 1) == PrngNext(1) && StateAfter(0, 1) == PrngNext(0x1234_5678);
    assert StateAfter(1, 2) == PrngNext(StateAfter(1, 1)) && StateAfter(0, 2) == PrngNext(StateAfter(0, 1));
    var a, b := Pattern(1, 8), Pattern(0, 8);
    assert a[0] == ByteAt(0x0004_2021, 0) && a[4] == ByteAt(0x0408_0601, 0);
  }

  lemma FirstStates()
    ensures PrngNext(1) == 0x0004_2021 && PrngNext(0x0004_2021) == 0x0408_0601
    ensures PrngNext(0x1234_5678) == 0x8798_5AA5 && PrngNext(0x8798_5AA5) == 0x155B_24A3
    ensures Visible(0x0004_2021) == 0x0004_2021 && Visible(0x0408_0601) == 0x0408_0601
    ensures Visible(0x8798_5AA5) == 0x8798_5AA5 && Visible(0x155B_24A3) == 0x155B_24A3
  {
  }

  /** flash_prng_fill_pattern. */
  method Fill(buffer: array<byte>, n: nat, seed: bv32)
    requires n <= buffer.Length
    modifies buffer
    ensures buffer[..n] == Pattern(seed, n) && buffer[n..] == old(buffer[n..])
  {
    hide PrngNext, Visible, ByteAt;
    var state := if seed != 0 then seed else 0x1234_5678;
    var i := 0;
    while i < n
      invariant 0 <= i <= n && (i < n ==> i % 4 == 0)
      invariant i < n ==> state == StateAfter(seed, i / 4)
      invariant forall k :: 0 <= k < i ==> buffer[k] == PatternByte(seed, k)
      invariant buffer[n..] == old(buffer[n..])
    {
      state := PrngNext(state);
      var value := Visible(state);
      var size := if n - i >= 4 then 4 else n - i;
      for j := 0 to size
        invariant forall k :: 0 <= k < i + j ==> buffer[k] == PatternByte(seed, k)
        invariant buffer[n..] == old(buffer[n..])
      {
        assert (i + j) / 4 == i / 4 && (i + j) % 4 == j;
        buffer[i + j] := ByteAt(value, j);
      }
      i := i + size;
    }
  }

  // ---- the reference image --------------------------------------------------------------------------

  /** The seed of a sector, in 32 bits. */
  function SeedAt(base: nat, sector: nat): bv32 { ((base + sector) % 0x1_0000_0000) as bv32 }

  /** Each sector has the seed that sector 0 has under the next base; that of sector 0 is the base, in 32 bits. */
  lemma SeedsCount(base: nat, sector: nat)
    ensures SeedAt(base, sector + 1) == SeedAt(base + 1, sector)
    ensures base < 0x1_0000_0000 ==> SeedAt(base, 0) == base as bv32
  {
    assert base + (sector + 1) == (base + 1) + sector;
  }

  /** The sectors read back under a base seed. */
  function Sectors(base: nat, n: nat): (r: seq<byte>)
    ensures |r| == n * SECTOR
  {
    if n == 0 then [] else Sectors(base, n - 1) + Pattern(SeedAt(base, n - 1), SECTOR)
  }

  /** What a range of n bytes should hold: whole sectors, then a part of one. */
  function Expected(base: nat, n: nat): (r: seq<byte>)
    ensures |r| == n
  {
    Sectors(base, n / SECTOR) + Pattern(SeedAt(base, n / SECTOR), n % SECTOR)
  }

  const IMAGE_SEED: nat := 0x55AA_1234

  function Seed(sector: nat): bv32 { SeedAt(IMAGE_SEED, sector) }

  function SectorPattern(sector: nat): (r: seq<byte>)
    ensures |r| == SECTOR
  {
    Pattern(Seed(sector), SECTOR)
  }

  /** The image of n sectors. */
  function Reference(n: nat): (r: seq<byte>)
    ensures |r| == n * SECTOR
  {
    Sectors(IMAGE_SEED, n)
  }

  lemma ReferenceNext(n: nat)
    ensures Reference(n + 1) == Reference(n) + SectorPattern(n)
  {
    hide Pattern, SeedAt;
  }

  lemma ReferenceExpected(n: nat)
    ensures Expected(IMAGE_SEED, n * SECTOR) == Reference(n)
  {
    assert n * SECTOR / SECTOR == n && n * SECTOR % SECTOR == 0;
    assert Pattern(SeedAt(IMAGE_SEED, n), 0) == [];
    assert Reference(n) + [] == Reference(n);
  }

  /** Byte i of what a range should hold. */
  lemma {:induction false} ExpectedAt(base: nat, n: nat, i: nat)
    requires i < n
    ensures Expected(base, n)[i] == PatternByte(SeedAt(base, i / SECTOR), i % SECTOR)
  {
    hide SeedAt, PatternByte;
    if i < n / SECTOR * SECTOR { SectorsAt(base, n / SECTOR, i); }
  }

  lemma {:induction false} SectorsAt(base: nat, n: nat, i: nat)
    requires i < n * SECTOR
    ensures Sectors(base, n)[i] == PatternByte(SeedAt(base, i / SECTOR), i % SECTOR)
  {
    hide SeedAt, PatternByte;
    if i < (n - 1) * SECTOR { SectorsAt(base, n - 1, i); }
  }

  /** A word of the pattern is never erased flash, so a word that programming skipped shows in the read-back. */
  lemma SkippedWordShows(base: nat, n: nat, image: seq<byte>, at: nat)
    requires |image| == n && at % 4 == 0 && at + 4 <= n && image[at..at + 4] == Rep(0xFF as byte, 4)
    ensures image != Expected(base, n)
  {
    hide SeedAt, Visible, PrngNext, ByteAt;
    var seed, rel := SeedAt(base, at / SECTOR), at % SECTOR;
    var value := Visible(StateAfter(seed, rel / 4 + 1));
    VisibleNeverBlank(StateAfter(seed, rel / 4 + 1));
    forall j: nat | j < 4 ensures Expected(base, n)[at + j] == ByteAt(value, j) && image[at + j] == 0xFF {
      assert (at + j) / SECTOR == at / SECTOR && (at + j) % SECTOR == rel + j;
      assert (rel + j) / 4 == rel / 4 && (rel + j) % 4 == j;
      ExpectedAt(base, n, at + j);
      assert image[at..at + 4][j] == image[at + j];
    }
    NotAllOnes(value);
  }

  lemma NotAllOnes(value: bv32)
    requires value != 0xFFFF_FFFF
    ensures exists j: nat :: j < 4 && ByteAt(value, j) != 0xFF
  {
    hide ByteAt;
    if ByteAt(value, 0) == 0xFF && ByteAt(value, 1) == 0xFF && ByteAt(value, 2) == 0xFF && ByteAt(value, 3) == 0xFF {
      FourBytes(value);
    }
  }

  lemma FourBytes(value: bv32)
    requires ByteAt(value, 0) == 0xFF && ByteAt(value, 1) == 0xFF && ByteAt(value, 2) == 0xFF
             && ByteAt(value, 3) == 0xFF
    ensures value == 0xFFFF_FFFF
  {
  }

  /** The image up to page n. */
  function ReferencePages(n: nat): (r: seq<byte>)
    ensures |r| == n * PAGE
  {
    Reference(n / 16) + SectorPattern(n / 16)[..n % 16 * PAGE]
  }

  lemma NextPage(n: nat)
    ensures n % 16 * PAGE + PAGE <= SECTOR
    ensures ReferencePages(n + 1) == ReferencePages(n) + SectorPattern(n / 16)[n % 16 * PAGE..n % 16 * PAGE + PAGE]
  {
    hide SectorPattern, Reference;
    var s, rel := n / 16, n % 16;
    ReferenceNext(s);
    var whole := SectorPattern(s);
    assert whole[..rel * PAGE] + whole[rel * PAGE..rel * PAGE + PAGE] == whole[..rel * PAGE + PAGE];
    if rel < 15 {
      assert (n + 1) / 16 == s && (n + 1) % 16 == rel + 1;
    } else {
      assert (n + 1) / 16 == s + 1 && (n + 1) % 16 == 0;
      assert whole[..SECTOR] == whole && SectorPattern(s + 1)[..0] == [];
    }
  }

  lemma WholePages(n: nat)
    ensures ReferencePages(16 * n) == Reference(n)
  {
    assert 16 * n / 16 == n && 16 * n % 16 == 0;
    assert SectorPattern(n)[..0] == [];
    assert Reference(n) + [] == Reference(n);
  }

  // ---- operations on a staged prefix ------------------------------------------------------------------

  function Erased(n: nat): (r: seq<byte>)
    ensures |r| == n
  {
    Rep(0xFF, n)
  }

  /** Erasing what follows the content so far. */
  lemma EraseNext(was: seq<byte>, base: nat, content: seq<byte>, n: nat)
    requires base + |content| + n <= |was|
    ensures Erase(Paste(was, base, content), base + |content|, n) == Paste(was, base, content + Erased(n))
  {
  }

  /** Programming the first erased bytes. */
  lemma ProgramNext(was: seq<byte>, base: nat, content: seq<byte>, data: seq<byte>, rest: seq<byte>)
    requires base + |content| + |data| + |rest| <= |was|
    ensures Program(Paste(was, base, content + Erased(|data|) + rest), base + |content|, data)
            == Paste(was, base, content + data + rest)
  {
    hide Clears;
    var before, after := Paste(was, base, content + Erased(|data|) + rest), Paste(was, base, content + data + rest);
    forall i | 0 <= i < |was| ensures Program(before, base + |content|, data)[i] == after[i] {
      if base + |content| <= i < base + |content| + |data| { OntoErased(data[i - (base + |content|)]); }
    }
  }

  lemma OntoErased(b: byte)
    ensures Clears(0xFF, b) == b
  {
  }

  // ---- the strategies ---------------------------------------------------------------------------------

  /** Page counts: `ones` pages programmed once since their erase, then `zeros` erased ones. */
  function Counts(ones: nat, zeros: nat): (r: seq<nat>)
    ensures |r| == ones + zeros
  {
    Rep<nat>(1, ones) + Rep<nat>(0, zeros)
  }

  function Put(counts: seq<nat>, at: nat, values: seq<nat>): (r: seq<nat>)
    requires at + |values| <= |counts|
    ensures |r| == |counts|
  {
    Paste<nat>(counts, at, values)
  }

  datatype Outcome = Done | InvalidArgument | NotPermitted

  /** A block-aligned length whose range, from the start of the staging area on, is inside it. */
  predicate Fits(total: nat) { total > 0 && total % BLOCK == 0 && StagingRange(STAGING_OFFSET, total) }

  class Bench {
    const flash: FlashDevice.Flash
    const work: array<byte>
    /** For each page, how often it has been programmed since it was last erased. */
    ghost var writes: seq<nat>

    ghost predicate Valid()
      reads this
    {
      && flash.port == Device && flash.mem.Length == FLASH_BYTES && work.Length == SECTOR && work != flash.mem
      && |writes| == FLASH_BYTES / PAGE
    }

    constructor (flash: FlashDevice.Flash)
      requires flash.port == Device && flash.mem.Length == FLASH_BYTES
      ensures Valid() && this.flash == flash && fresh(work)
    {
      this.flash := flash;
      work := new byte[SECTOR];
      writes := Counts(0, FLASH_BYTES / PAGE);
    }

    /** One guarded erase. */
    method EraseOne(offset: nat, count: nat) returns (ok: bool)
      requires Valid()
      modifies this, flash.mem
      ensures Valid() && ok == (StagingRange(offset, count) && SectorAligned(offset, count))
      ensures ok ==> offset + count <= FLASH_BYTES
                     && flash.mem[..] == Erase(old(flash.mem[..]), offset, count)
                     && writes == Put(old(writes), offset / PAGE, Counts(0, count / PAGE))
      ensures !ok ==> flash.mem[..] == old(flash.mem[..]) && writes == old(writes)
    {
      ok := flash.Erase(offset, count);
      if ok { writes := Put(writes, offset / PAGE, Counts(0, count / PAGE)); }
    }

    /** One guarded program operation from the work buffer. */
    method ProgramOne(offset: nat, start: nat, count: nat) returns (ok: bool)
      requires Valid() && start + count <= SECTOR
      modifies this, flash.mem
      ensures Valid() && ok == (StagingRange(offset, count) && PageAligned(offset, count))
      ensures ok ==> offset + count <= FLASH_BYTES
                     && flash.mem[..] == Program(old(flash.mem[..]), offset, work[start..start + count])
                     && writes == More(old(writes), offset / PAGE, count / PAGE)
      ensures !ok ==> flash.mem[..] == old(flash.mem[..]) && writes == old(writes)
    {
      ok := flash.ProgramGuarded(offset, work, start, count);
      if ok { writes := More(writes, offset / PAGE, count / PAGE); }
    }

    /** The flash was `was` before, with page counts `before`; from the start of the staging area on it
        now holds the content, and its pages have the counts. */
    ghost predicate Staged(was: seq<byte>, before: seq<nat>, content: seq<byte>, counts: seq<nat>)
      requires |was| == FLASH_BYTES && |before| == FLASH_BYTES / PAGE
      requires |content| <= STAGING_BYTES && |counts| <= STAGING_BYTES / PAGE
      reads this, flash.mem
    {
      flash.mem[..] == Paste(was, STAGING_OFFSET, content) && writes == Put(before, STAGING_OFFSET / PAGE, counts)
    }

    /** Fill the work buffer for sector s and program it, with `rest` erased bytes to follow. */
    method WriteSector(s: nat, rest: nat, ghost was: seq<byte>, ghost before: seq<nat>)
      requires Valid() && |was| == FLASH_BYTES && |before| == FLASH_BYTES / PAGE
      requires SectorFits(s, rest)
               && Staged(was, before, Reference(s) + Erased(SECTOR) + Erased(rest), Counts(16 * s, 16 + rest / PAGE))
      modifies this, flash.mem, work
      ensures Valid() && Staged(was, before, Reference(s) + SectorPattern(s) + Erased(rest),
              Counts(16 * s + 16, rest / PAGE))
    {
      hide Reference, Clears, Program, Paste, SectorPattern, Pattern, Erased, StagingRange, PageAligned, More, Rep,
           Put, Counts;
      SectorInRange(s, rest);
      ghost var m, w := flash.mem[..], writes;
      Fill(work, SECTOR, Seed(s));
      FilledSector(s);
      assert flash.mem[..] == m;
      SectorProgrammed(was, before, m, w, s, rest);
      var ok := ProgramOne(STAGING_OFFSET + s * SECTOR, 0, SECTOR);
      assert ok;
      assert work[0..SECTOR] == work[..SECTOR];
    }

    /** Program page p from the work buffer, with `rest` erased bytes to follow. */
    method WritePage(p: nat, rel: nat, rest: nat, ghost was: seq<byte>, ghost before: seq<nat>)
      requires Valid() && |was| == FLASH_BYTES && |before| == FLASH_BYTES / PAGE
      requires PageFits(p, rest) && rel == p % 16 * PAGE && work[..] == SectorPattern(p / 16)
      requires Staged(was, before, ReferencePages(p) + Erased(PAGE) + Erased(rest), Counts(p, 1 + rest / PAGE))
      modifies this, flash.mem
      ensures Valid() && Staged(was, before, ReferencePages(p + 1) + Erased(rest), Counts(p + 1, rest / PAGE))
    {
      hide ReferencePages, Clears, Program, Paste, SectorPattern, Pattern, Erased, StagingRange, PageAligned, More,
           Rep, Put, Counts;
      PageInRange(p, rest);
      PageProgrammed(was, before, flash.mem[..], writes, p, rest);
      assert work[rel..rel + PAGE] == work[..][rel..rel + PAGE];
      var ok := ProgramOne(STAGING_OFFSET + p * PAGE, rel, PAGE);
      assert ok;
    }

    /** The work buffer is refilled on sector boundaries. */
    method RefillAt(p: nat)
      requires Valid() && (p % 16 != 0 ==> work[..] == SectorPattern(p / 16))
      modifies work
      ensures work[..] == SectorPattern(p / 16)
    {
      hide SectorPattern, Pattern;
      if p % (SECTOR / PAGE) * PAGE == 0 {
        Fill(work, SECTOR, Seed(p / (SECTOR / PAGE)));
        FilledSector(p / 16);
        assert work[..SECTOR] == work[..];
      }
    }

    /** Strategy (a): each sector erased, then programmed. */
    method Interleaved(total: nat)
      requires Valid() && Fits(total)
      modifies this, flash.mem, work
      ensures Valid() && Staged(old(flash.mem[..]), old(writes), Reference(total / SECTOR), Counts(total / PAGE, 0))
    {
      hide Reference, Clears, Erase, Program, Paste, SectorPattern, Pattern, Put, Counts;
      ghost var was, before := flash.mem[..], writes;
      NothingStaged(was, before);
      for s := 0 to total / SECTOR
        invariant Valid() && Staged(was, before, Reference(s), Counts(16 * s, 0))
      {
        SectorAddress(total, s);
        var ok := EraseOne(STAGING_OFFSET + s * SECTOR, SECTOR);
        assert ok;
        EraseNext(was, STAGING_OFFSET, Reference(s), SECTOR);
        CountsErased(before, STAGING_OFFSET / PAGE, 16 * s, 0, 16);
        SectorStaged(s);
        WriteSector(s, 0, was, before);
      }
    }

    /** Blocks erased one after the other. */
    method EraseBlocks(total: nat)
      requires Valid() && Fits(total)
      modifies this, flash.mem
      ensures Valid() && Staged(old(flash.mem[..]), old(writes), Erased(total), Counts(0, total / PAGE))
    {
      hide Clears, Erase, Program, Paste;
      ghost var was, before := flash.mem[..], writes;
      NothingStaged(was, before);
      for b := 0 to total / BLOCK
        invariant Valid() && Staged(was, before, Erased(b * BLOCK), Counts(0, 256 * b))
      {
        BlockAddress(total, b);
        var ok := EraseOne(STAGING_OFFSET + b * BLOCK, BLOCK);
        assert ok;
        EraseNext(was, STAGING_OFFSET, Erased(b * BLOCK), BLOCK);
        CountsErased(before, STAGING_OFFSET / PAGE, 0, 256 * b, 256);
      }
    }

    /** Strategy (c): all blocks erased, then sector by sector. */
    method BlocksThenSectors(total: nat)
      requires Valid() && Fits(total)
      modifies this, flash.mem, work
      ensures Valid() && Staged(old(flash.mem[..]), old(writes), Reference(total / SECTOR), Counts(total / PAGE, 0))
    {
      hide Reference, Clears, Erase, Program, Paste, SectorPattern, Pattern, Erased, Put, Counts;
      ghost var was, before := flash.mem[..], writes;
      EraseBlocks(total);
      NoSectorYet(total);
      for s := 0 to total / SECTOR
        invariant Valid() && s * SECTOR <= total && 16 * s <= total / PAGE
        invariant Staged(was, before, Reference(s) + Erased(total - s * SECTOR), Counts(16 * s, total / PAGE - 16 * s))
      {
        SectorAddress(total, s);
        SectorsToGo(total, s);
        WriteSector(s, total - s * SECTOR - SECTOR, was, before);
      }
      AllSectors(total);
    }

    /** Strategy (b): all blocks erased, then page by page, the work buffer refilled at each sector. */
    method BlocksThenPages(total: nat)
      requires Valid() && Fits(total)
      modifies this, flash.mem, work
      ensures Valid() && Staged(old(flash.mem[..]), old(writes), Reference(total / SECTOR), Counts(total / PAGE, 0))
    {
      hide Reference, Clears, Erase, Program, Paste, SectorPattern, Pattern, ReferencePages, Erased, Put, Counts;
      ghost var was, before := flash.mem[..], writes;
      EraseBlocks(total);
      NoPageYet(total);
      for p := 0 to total / PAGE
        invariant Valid() && p * PAGE <= total && p <= total / PAGE
        invariant Staged(was, before, ReferencePages(p) + Erased(total - p * PAGE), Counts(p, total / PAGE - p))
        invariant p % 16 != 0 ==> work[..] == SectorPattern(p / 16)
      {
        RefillAt(p);
        PageAddress(total, p);
        PagesToGo(total, p);
        PagesLeft(total, p);
        WritePage(p, p % 16 * PAGE, total - p * PAGE - PAGE, was, before);
        SameSector(p);
      }
      AllPages(total);
    }

    /** flash_bench_measure_xip_read: it reports a match exactly when the range holds what it should, and
        the CRC of what it read. */
    method ReadBack(offset: nat, total: nat, base: nat) returns (outcome: Outcome, crc: bv32, matched: bool)
      requires Valid()
      ensures outcome == if StagingRange(offset, total) then Done else NotPermitted
      ensures outcome == Done ==>
                && offset + total <= flash.mem.Length
                && (matched <==> flash.mem[offset..offset + total] == Expected(base, total))
                && crc == Crc32.Of(flash.mem[offset..offset + total])
    {
      hide Expected, Crc32.Update, Crc32.Finish;
      outcome, crc, matched := NotPermitted, Crc32.INIT, false;
      if StagingRange(offset, total) {
        outcome := Done;
        crc, matched := ReadSectors(offset, total, base);
        crc := Crc32.Finish(crc);
      }
    }

    /** The loop over sectors, the last of which may be read in part. */
    method ReadSectors(offset: nat, total: nat, base: nat) returns (crc: bv32, matched: bool)
      requires Valid() && offset + total <= FLASH_BYTES
      ensures matched <==> flash.mem[offset..offset + total] == Expected(base, total)
      ensures crc == Crc32.Update(Crc32.INIT, flash.mem[offset..offset + total])
    {
      hide Expected, Pattern, Crc32.Update;
      crc, matched := Crc32.INIT, true;
      ghost var image := flash.mem[offset..offset + total];
      ReadNothing(image, base);
      var remaining, s := total, 0;
      while remaining > 0
        invariant 0 <= remaining <= total && (remaining > 0 ==> total - remaining == s * SECTOR)
        invariant matched <==> image[..total - remaining] == Expected(base, total - remaining)
        invariant crc == Crc32.Update(Crc32.INIT, image[..total - remaining])
      {
        var step := if remaining > SECTOR then SECTOR else remaining;
        var at := offset + s * SECTOR;
        var current := flash.mem[at..at + step];
        RangeOf(flash.mem[..], offset, total, s * SECTOR, step);
        crc, matched := CheckSector(current, base, s, crc, matched);
        NextPart(image, base, s, step);
        Crc32.UpdateConcat(Crc32.INIT, image[..s * SECTOR], current);
        remaining, s := remaining - step, s + 1;
      }
      assert image[..total] == image;
    }

    /** One step of the read-back: regenerate the pattern, accumulate the CRC, compare. */
    method CheckSector(current: seq<byte>, base: nat, s: nat, was: bv32, so: bool) returns (crc: bv32, matched: bool)
      requires |current| <= SECTOR
      ensures crc == Crc32.Update(was, current)
      ensures matched == (so && current == Pattern(SeedAt(base, s), |current|))
    {
      hide Crc32.Update, SeedAt;
      var buffer := new byte[SECTOR];
      Fill(buffer, |current|, SeedAt(base, s));
      crc := Crc32.TableUpdate(was, current);
      matched := so && buffer[..|current|] == current;
    }

    /** flash_bench_measure_image_strategies: after each strategy the read-back matches, and outside the
        written range nothing has changed. */
    method MeasureStrategies(total: nat) returns (outcome: Outcome, verified: seq<bool>)
      requires Valid()
      modifies this, flash.mem, work
      ensures outcome == if total == 0 || total % BLOCK != 0 then InvalidArgument
                         else if !StagingRange(STAGING_OFFSET, total) then NotPermitted else Done
      ensures outcome == Done ==>
                && verified == [true, true, true]
                && Staged(old(flash.mem[..]), old(writes), Reference(total / SECTOR), Counts(total / PAGE, 0))
      ensures outcome != Done ==> flash.mem[..] == old(flash.mem[..])
    {
      hide Reference, Clears, Paste;
      verified := [];
      if total == 0 || total % BLOCK != 0 { return InvalidArgument, []; }
      if !StagingRange(STAGING_OFFSET, total) { return NotPermitted, []; }
      ghost var was, before := flash.mem[..], writes;
      Interleaved(total);
      var a := Verified(total, was, before);
      BlocksThenPages(total);
      Rewritten(was, before, Reference(total / SECTOR), Counts(total / PAGE, 0));
      var b := Verified(total, was, before);
      BlocksThenSectors(total);
      var c := Verified(total, was, before);
      return Done, [a, b, c];
    }

    /** The read-back after a strategy. */
    method Verified(total: nat, ghost was: seq<byte>, ghost before: seq<nat>) returns (matched: bool)
      requires Valid() && Fits(total) && |was| == FLASH_BYTES && |before| == FLASH_BYTES / PAGE
      requires Staged(was, before, Reference(total / SECTOR), Counts(total / PAGE, 0))
      ensures matched
    {
      hide Reference, Expected, Paste, Counts, Crc32.Of;
      var outcome, crc := Done, 0 as bv32;
      outcome, crc, matched := ReadBack(STAGING_OFFSET, total, IMAGE_SEED);
      ReferenceExpected(total / SECTOR);
      assert flash.mem[STAGING_OFFSET..STAGING_OFFSET + total] == flash.mem[..][STAGING_OFFSET..STAGING_OFFSET + total];
      PastedRange(was, STAGING_OFFSET, Reference(total / SECTOR));
      assert total / SECTOR * SECTOR == total;
    }
  }

  lemma PastedRange(was: seq<byte>, base: nat, content: seq<byte>)
    requires base + |content| <= |was|
    ensures Paste(was, base, content)[base..base + |content|] == content
  {
  }

  /** A strategy run again over its own result. */
  lemma Rewritten(was: seq<byte>, before: seq<nat>, content: seq<byte>, counts: seq<nat>)
    requires STAGING_OFFSET + |content| <= |was| && STAGING_OFFSET / PAGE + |counts| <= |before|
    ensures Paste(Paste(was, STAGING_OFFSET, content), STAGING_OFFSET, content) == Paste(was, STAGING_OFFSET, content)
    ensures Put(Put(before, STAGING_OFFSET / PAGE, counts), STAGING_OFFSET / PAGE, counts)
            == Put(before, STAGING_OFFSET / PAGE, counts)
  {
  }

  // ---- addresses and leftovers --------------------------------------------------------------------------

  lemma NothingStaged(was: seq<byte>, before: seq<nat>)
    requires |was| == FLASH_BYTES && |before| == FLASH_BYTES / PAGE
    ensures Reference(0) == [] && Erased(0) == [] && Counts(0, 0) == []
    ensures Paste(was, STAGING_OFFSET, []) == was && Put(before, STAGING_OFFSET / PAGE, []) == before
  {
  }

  predicate SectorFits(s: nat, rest: nat) { (s + 1) * SECTOR + rest <= STAGING_BYTES && rest % PAGE == 0 }

  predicate PageFits(p: nat, rest: nat) { (p + 1) * PAGE + rest <= STAGING_BYTES && rest % PAGE == 0 }

  lemma SectorAddress(total: nat, s: nat)
    requires Fits(total) && s < total / SECTOR
    ensures var offset := STAGING_OFFSET + s * SECTOR;
            && StagingRange(offset, SECTOR) && SectorAligned(offset, SECTOR) && PageAligned(offset, SECTOR)
            && offset / PAGE == STAGING_OFFSET / PAGE + 16 * s && 16 * s + 16 <= total / PAGE <= STAGING_BYTES / PAGE
            && (s + 1) * SECTOR <= total <= STAGING_BYTES && total % PAGE == 0
  {
  }

  lemma BlockAddress(total: nat, b: nat)
    requires Fits(total) && b < total / BLOCK
    ensures var offset := STAGING_OFFSET + b * BLOCK;
            && StagingRange(offset, BLOCK) && SectorAligned(offset, BLOCK)
            && offset / PAGE == STAGING_OFFSET / PAGE + 256 * b && 256 * b + 256 <= total / PAGE <= STAGING_BYTES / PAGE
            && (b + 1) * BLOCK <= total <= STAGING_BYTES
    ensures Erased(b * BLOCK) + Erased(BLOCK) == Erased((b + 1) * BLOCK)
  {
  }

  lemma PageAddress(total: nat, p: nat)
    requires Fits(total) && p < total / PAGE
    ensures var offset := STAGING_OFFSET + p * PAGE;
            && StagingRange(offset, PAGE) && PageAligned(offset, PAGE)
            && offset / PAGE == STAGING_OFFSET / PAGE + p && p + 1 <= total / PAGE <= STAGING_BYTES / PAGE
            && (p + 1) * PAGE <= total <= STAGING_BYTES
  {
  }

  /** One more sector after the first s. */
  lemma SectorStaged(s: nat)
    ensures Reference(s) + Erased(SECTOR) + Erased(0) == Reference(s) + Erased(SECTOR)
    ensures Reference(s) + SectorPattern(s) + Erased(0) == Reference(s + 1)
  {
    hide SectorPattern, Reference;
    ReferenceNext(s);
    assert Reference(s) + SectorPattern(s) + Erased(0) == Reference(s) + SectorPattern(s);
  }

  lemma SectorProgrammed(was: seq<byte>, before: seq<nat>, m: seq<byte>, w: seq<nat>, s: nat, rest: nat)
    requires |was| == FLASH_BYTES && |before| == FLASH_BYTES / PAGE && SectorFits(s, rest)
    requires 16 * s + 16 + rest / PAGE <= STAGING_BYTES / PAGE
    requires m == Paste(was, STAGING_OFFSET, Reference(s) + Erased(SECTOR) + Erased(rest))
    requires w == Put(before, STAGING_OFFSET / PAGE, Counts(16 * s, 16 + rest / PAGE))
    ensures Program(m, STAGING_OFFSET + s * SECTOR, SectorPattern(s))
            == Paste(was, STAGING_OFFSET, Reference(s) + SectorPattern(s) + Erased(rest))
    ensures More(w, STAGING_OFFSET / PAGE + 16 * s, 16)
            == Put(before, STAGING_OFFSET / PAGE, Counts(16 * s + 16, rest / PAGE))
  {
    hide Reference, Program, Paste, SectorPattern, Erased, More, Rep, Put, Counts;
    ProgramNext(was, STAGING_OFFSET, Reference(s), SectorPattern(s), Erased(rest));
    CountsProgrammed(before, STAGING_OFFSET / PAGE, 16 * s, 16, rest / PAGE);
  }

  lemma PageProgrammed(was: seq<byte>, before: seq<nat>, m: seq<byte>, w: seq<nat>, p: nat, rest: nat)
    requires |was| == FLASH_BYTES && |before| == FLASH_BYTES / PAGE && PageFits(p, rest)
    requires p + 1 + rest / PAGE <= STAGING_BYTES / PAGE
    requires m == Paste(was, STAGING_OFFSET, ReferencePages(p) + Erased(PAGE) + Erased(rest))
    requires w == Put(before, STAGING_OFFSET / PAGE, Counts(p, 1 + rest / PAGE))
    ensures p % 16 * PAGE + PAGE <= SECTOR
    ensures Program(m, STAGING_OFFSET + p * PAGE, SectorPattern(p / 16)[p % 16 * PAGE..p % 16 * PAGE + PAGE])
            == Paste(was, STAGING_OFFSET, ReferencePages(p + 1) + Erased(rest))
    ensures More(w, STAGING_OFFSET / PAGE + p, 1)
            == Put(before, STAGING_OFFSET / PAGE, Counts(p + 1, rest / PAGE))
  {
    hide ReferencePages, Program, Paste, SectorPattern, Erased, More, Rep, Put, Counts;
    NextPage(p);
    ProgramNext(was, STAGING_OFFSET, ReferencePages(p), SectorPattern(p / 16)[p % 16 * PAGE..p % 16 * PAGE + PAGE],
      Erased(rest));
    CountsProgrammed(before, STAGING_OFFSET / PAGE, p, 1, rest / PAGE);
  }

  lemma SectorInRange(s: nat, rest: nat)
    requires SectorFits(s, rest)
    ensures var offset := STAGING_OFFSET + s * SECTOR;
            && StagingRange(offset, SECTOR) && PageAligned(offset, SECTOR)
            && offset / PAGE == STAGING_OFFSET / PAGE + 16 * s
            && 16 * s + 16 + rest / PAGE <= STAGING_BYTES / PAGE
  {
  }

  lemma PageInRange(p: nat, rest: nat)
    requires PageFits(p, rest)
    ensures var offset := STAGING_OFFSET + p * PAGE;
            && StagingRange(offset, PAGE) && PageAligned(offset, PAGE)
            && offset / PAGE == STAGING_OFFSET / PAGE + p
            && p + 1 + rest / PAGE <= STAGING_BYTES / PAGE
  {
  }

  lemma SplitOnes(n: nat, k: nat)
    requires k <= n
    ensures Erased(n) == Erased(k) + Erased(n - k)
  {
  }

  lemma Regroup(a: seq<byte>, b: seq<byte>, c: seq<byte>)
    ensures a + (b + c) == a + b + c
  {
  }

  lemma NoSectorYet(total: nat)
    ensures Reference(0) + Erased(total) == Erased(total)
  {
  }

  /** What is still erased after the first s sectors. */
  lemma SectorsToGo(total: nat, s: nat)
    requires Fits(total) && s < total / SECTOR
    ensures var rest := total - s * SECTOR - SECTOR;
            && rest >= 0 && rest % PAGE == 0 && 16 + rest / PAGE == total / PAGE - 16 * s
               && rest == total - (s + 1) * SECTOR
            && Reference(s) + Erased(total - s * SECTOR) == Reference(s) + Erased(SECTOR) + Erased(rest)
            && Reference(s) + SectorPattern(s) + Erased(rest) == Reference(s + 1) + Erased(rest)
  {
    hide Erased, SectorPattern, Reference;
    ReferenceNext(s);
    SplitOnes(total - s * SECTOR, SECTOR);
    Regroup(Reference(s), Erased(SECTOR), Erased(total - s * SECTOR - SECTOR));
  }

  lemma AllSectors(total: nat)
    requires Fits(total)
    ensures var s := total / SECTOR;
            && total == s * SECTOR && total / PAGE == 16 * s
            && Reference(s) + Erased(0) == Reference(s)
  {
  }

  lemma NoPageYet(total: nat)
    ensures ReferencePages(0) + Erased(total) == Erased(total)
  {
    WholePages(0);
  }

  /** What is still erased after the first p pages. */
  lemma PagesToGo(total: nat, p: nat)
    requires Fits(total) && p < total / PAGE
    ensures (p + 1) * PAGE <= total
    ensures ReferencePages(p) + Erased(total - p * PAGE) == ReferencePages(p) + Erased(PAGE)
            + Erased(total - p * PAGE - PAGE)
  {
    hide Erased, ReferencePages;
    PagesLeft(total, p);
    SplitOnes(total - p * PAGE, PAGE);
    Regroup(ReferencePages(p), Erased(PAGE), Erased(total - p * PAGE - PAGE));
  }

  lemma SameSector(p: nat)
    ensures (p + 1) % 16 != 0 ==> (p + 1) / 16 == p / 16
  {
  }

  lemma PagesLeft(total: nat, p: nat)
    requires Fits(total) && p < total / PAGE
    ensures var rest := total - p * PAGE - PAGE;
            rest >= 0 && rest % PAGE == 0 && 1 + rest / PAGE == total / PAGE - p && rest == total - (p + 1) * PAGE
  {
    var n, k := total / PAGE, total / PAGE - p - 1;
    assert total == n * PAGE;
    assert total - p * PAGE - PAGE == k * PAGE;
  }

  lemma AllPages(total: nat)
    requires Fits(total)
    ensures var p := total / PAGE;
            && total == p * PAGE && ReferencePages(p) == Reference(total / SECTOR)
            && ReferencePages(p) + Erased(0) == ReferencePages(p)
  {
    hide ReferencePages, Reference;
    assert total / PAGE == 16 * (total / SECTOR);
    WholePages(total / SECTOR);
  }

  lemma RangeOf(mem: seq<byte>, offset: nat, total: nat, done: nat, step: nat)
    requires offset + total <= |mem| && done + step <= total
    ensures mem[offset..offset + total][done..done + step] == mem[offset + done..offset + done + step]
  {
    var a, b := mem[offset..offset + total][done..done + step], mem[offset + done..offset + done + step];
    forall i | 0 <= i < step ensures a[i] == b[i] { assert a[i] == mem[offset..offset + total][done + i]; }
    assert a == b;
  }

  lemma ReadNothing(image: seq<byte>, base: nat)
    ensures image[..0] == Expected(base, 0) == [] && Crc32.Update(Crc32.INIT, []) == Crc32.INIT
  {
  }

  /** One more step: a whole sector, or part of one at the end. */
  lemma NextPart(image: seq<byte>, base: nat, s: nat, step: nat)
    requires 0 < step <= SECTOR && s * SECTOR + step <= |image|
    ensures var done := s * SECTOR;
            && image[..done + step] == image[..done] + image[done..done + step]
            && (image[..done + step] == Expected(base, done + step)
                <==> (&& image[..done] == Expected(base, done)
                      && image[done..done + step] == Pattern(SeedAt(base, s), step)))
  {
    hide Pattern, SeedAt;
    var done := s * SECTOR;
    var a, b := image[..done], image[done..done + step];
    assert image[..done + step] == a + b;
    ExpectedParts(base, s, step);
    SplitEqual(a, b, Expected(base, done), Pattern(SeedAt(base, s), step));
  }

  lemma ExpectedParts(base: nat, s: nat, step: nat)
    requires 0 < step <= SECTOR
    ensures Expected(base, s * SECTOR + step) == Expected(base, s * SECTOR) + Pattern(SeedAt(base, s), step)
  {
    hide SeedAt, PatternByte;
    var done := s * SECTOR;
    assert done / SECTOR == s && done % SECTOR == 0;
    EmptyPattern(SeedAt(base, s));
    assert Sectors(base, s) + [] == Sectors(base, s);
    if step == SECTOR {
      assert (done + step) / SECTOR == s + 1 && (done + step) % SECTOR == 0;
      EmptyPattern(SeedAt(base, s + 1));
      assert Sectors(base, s + 1) + [] == Sectors(base, s + 1);
    } else {
      assert (done + step) / SECTOR == s && (done + step) % SECTOR == step;
    }
  }

  lemma EmptyPattern(seed: bv32)
    ensures Pattern(seed, 0) == []
  {
  }

  lemma SplitEqual(a: seq<byte>, b: seq<byte>, c: seq<byte>, d: seq<byte>)
    requires |a| == |c|
    ensures a + b == c + d <==> a == c && b == d
  {
    if a + b == c + d {
      assert a == (a + b)[..|a|] && c == (c + d)[..|c|];
      assert b == (a + b)[|a|..] && d == (c + d)[|c|..];
    }
  }

  // ---- the page counts ----------------------------------------------------------------------------------

  function More(writes: seq<nat>, at: nat, n: nat): (r: seq<nat>)
    requires at + n <= |writes|
    ensures |r| == |writes|
  {
    seq(|writes|, i requires 0 <= i < |writes| => if at <= i < at + n then writes[i] + 1 else writes[i])
  }

  /** Erasing n pages after the counted ones. */
  lemma CountsErased(before: seq<nat>, base: nat, ones: nat, zeros: nat, n: nat)
    requires base + ones + zeros + n <= |before|
    ensures Put(Put(before, base, Counts(ones, zeros)), base + ones + zeros, Counts(0, n))
            == Put(before, base, Counts(ones, zeros + n))
  {
  }

  /** Programming the first n erased pages. */
  lemma CountsProgrammed(before: seq<nat>, base: nat, done: nat, n: nat, rest: nat)
    requires base + done + n + rest <= |before|
    ensures More(Put(before, base, Counts(done, n + rest)), base + done, n) == Put(before, base, Counts(done + n, rest))
  {
  }

  lemma FilledSector(s: nat)
    ensures Pattern(Seed(s), SECTOR) == SectorPattern(s)
  {
  }
}
