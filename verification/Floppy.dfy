/**
 `fdc_read_data`: a block read split by track sides over a cylinder/head/sector command interface,
 with two nested retry counters, against a flat array of blocks.
 */
module Floppy {
  import opened Bytes
  import opened Bits

  const FDC_RW_RETRIES := 3
  const FDC_CAL_RETRIES := 3

  /** Sectors per track side, number of heads, bytes per sector. Sectors and heads fit their command bytes. */
  datatype Geometry = Geometry(sect: nat, heads: nat, size: nat)
  {
    ghost predicate Valid() { 0 < sect <= 255 && 0 < heads <= 256 && 0 < size }
  }

  datatype Chs = Chs(track: int, head: int, sector: int)

  /** The arithmetic of `fdc_issue_cmd`; sectors are numbered from 1. */
  function ToChs(g: Geometry, blnr: nat): Chs
    requires g.Valid()
  {
    var side := g.sect * g.heads;
    MulStep(g.sect, 0, g.heads);
    var rest := blnr % side;
    Chs(blnr / side, rest / g.sect, rest % g.sect + 1)
  }

  function ToBlock(g: Geometry, c: Chs): int { (c.track * g.heads + c.head) * g.sect + c.sector - 1 }

  lemma HeadBound(rest: nat, sect: nat, heads: nat, head: nat)
    requires rest < sect * heads && sect * head <= rest
    ensures head < heads
  {
    if head > heads {
      MulStep(sect, heads, head);
    }
  }

  lemma BlockSum(track: nat, head: nat, sect: nat, heads: nat)
    ensures sect * heads * track + sect * head == (track * heads + head) * sect
  {
    assert sect * heads * track == sect * (track * heads);
    assert sect * (track * heads) + sect * head == (track * heads + head) * sect;
  }

  /** Every block has its own place on the disk, inside the geometry. */
  lemma ChsInverse(g: Geometry, blnr: nat)
    requires g.Valid()
    ensures var c := ToChs(g, blnr);
            ToBlock(g, c) == blnr && 0 <= c.track && 0 <= c.head < g.heads && 1 <= c.sector <= g.sect
  {
    MulStep(g.sect, 0, g.heads);
    var c, side := ToChs(g, blnr), g.sect * g.heads;
    var rest := blnr % side;
    DivMod(blnr, side);
    DivMod(rest, g.sect);
    HeadBound(rest, g.sect, g.heads, c.head);
    BlockSum(c.track, c.head, g.sect, g.heads);
  }

  /** Blocks up to the end of the track side follow each other sector by sector. */
  lemma ChsStep(g: Geometry, blnr: nat, k: nat)
    requires g.Valid() && blnr % g.sect + k < g.sect
    ensures var c := ToChs(g, blnr);
            c.sector == blnr % g.sect + 1 && ToChs(g, blnr + k) == Chs(c.track, c.head, c.sector + k)
  {
    StepInUnit(blnr, g.sect, g.heads, k);
    var rest := blnr % (g.sect * g.heads);
    StepInUnit(rest, g.sect, 1, k);
    assert g.sect * 1 == g.sect;
  }

  // ----- the disk -----

  /** The contents of a disk, by place. */
  type Medium = Chs -> seq<byte>

  ghost predicate Formatted(g: Geometry, m: Medium)
  {
    forall c :: |m(c)| == g.size
  }

  /** The bytes of `n` sectors of one track side from `c` on. */
  function Stream(m: Medium, c: Chs, n: nat): seq<byte>
  {
    if n == 0 then [] else Stream(m, c, n - 1) + m(Chs(c.track, c.head, c.sector + n - 1))
  }

  /** The bytes of `n` blocks from `blnr` on. */
  function Blocks(g: Geometry, m: Medium, blnr: nat, n: nat): seq<byte>
    requires g.Valid()
  {
    if n == 0 then [] else Blocks(g, m, blnr, n - 1) + m(ToChs(g, blnr + n - 1))
  }

  lemma {:induction false} StreamLength(g: Geometry, m: Medium, c: Chs, n: nat)
    requires Formatted(g, m)
    ensures |Stream(m, c, n)| == n * g.size
  {
    if n > 0 {
      StreamLength(g, m, c, n - 1);
      OneMore(n, g.size);
    }
  }

  lemma OneMore(n: nat, size: nat)
    ensures n * size == (n - 1) * size + size
  {
  }

  lemma {:induction false} StreamPrefix(m: Medium, c: Chs, k: nat, n: nat)
    requires k <= n
    ensures Stream(m, c, k) <= Stream(m, c, n)
    decreases n
  {
    if k < n {
      StreamPrefix(m, c, k, n - 1);
    }
  }

  /** On one track side, what the controller delivers is what the blocks hold. */
  lemma {:induction false} StreamIsBlocks(g: Geometry, m: Medium, blnr: nat, n: nat)
    requires g.Valid() && blnr % g.sect + n <= g.sect
    ensures Stream(m, ToChs(g, blnr), n) == Blocks(g, m, blnr, n)
    decreases n
  {
    if n > 0 {
      StreamIsBlocks(g, m, blnr, n - 1);
      ChsStep(g, blnr, n - 1);
    }
  }

  lemma {:induction false} BlocksAppend(g: Geometry, m: Medium, blnr: nat, k: nat, n: nat)
    requires g.Valid()
    ensures Blocks(g, m, blnr, k + n) == Blocks(g, m, blnr, k) + Blocks(g, m, blnr + k, n)
    decreases n
  {
    if n > 0 {
      BlocksAppend(g, m, blnr, k, n - 1);
    }
  }

  // ----- what the controller is asked for -----

  /** The command bytes: track and head are cut to eight bits. */
  function Command(c: Chs): Chs { Chs(c.track % 256, c.head % 256, c.sector) }

  /** The disk as it appears through the command bytes. */
  function Seen(m: Medium): Medium { c => m(Command(c)) }

  lemma SeenAt(m: Medium, c: Chs)
    ensures Seen(m)(c) == m(Command(c))
  {
  }

  lemma SeenFormatted(g: Geometry, m: Medium)
    requires Formatted(g, m)
    ensures Formatted(g, Seen(m))
  {
    forall c ensures |Seen(m)(c)| == g.size {
      SeenAt(m, c);
    }
  }

  lemma {:induction false} StreamSeen(m: Medium, c: Chs, n: nat)
    ensures Stream(m, Command(c), n) == Stream(Seen(m), c, n)
    decreases n
  {
    if n > 0 {
      StreamSeen(m, c, n - 1);
      SeenAt(m, Chs(c.track, c.head, c.sector + n - 1));
    }
  }

  lemma TrackMonotone(g: Geometry, a: nat, b: nat)
    requires g.Valid() && a <= b
    ensures ToChs(g, a).track <= ToChs(g, b).track
  {
    MulStep(g.sect, 0, g.heads);
    var side := g.sect * g.heads;
    DivMod(a, side);
    DivMod(b, side);
    if b / side < a / side {
      MulStep(side, b / side, a / side);
    }
  }

  lemma CommandSame(c: Chs)
    requires 0 <= c.track < 256 && 0 <= c.head < 256
    ensures Command(c) == c
  {
  }

  /** A block on one of the first 256 tracks is the block that is read. */
  lemma RightPlace(g: Geometry, m: Medium, blnr: nat)
    requires g.Valid() && ToChs(g, blnr).track < 256
    ensures Seen(m)(ToChs(g, blnr)) == m(ToChs(g, blnr))
  {
    var c := ToChs(g, blnr);
    ChsInverse(g, blnr);
    SeenAt(m, c);
    CommandSame(c);
  }

  lemma {:induction false} RightBlocks(g: Geometry, m: Medium, blnr: nat, n: nat)
    requires g.Valid() && (n > 0 ==> ToChs(g, blnr + n - 1).track < 256)
    ensures Blocks(g, Seen(m), blnr, n) == Blocks(g, m, blnr, n)
    decreases n
  {
    if n > 0 {
      if n > 1 {
        TrackMonotone(g, blnr + n - 2, blnr + n - 1);
      }
      RightBlocks(g, m, blnr, n - 1);
      RightPlace(g, m, blnr + n - 1);
    }
  }

  /** A disk on which one sector differs from all others. */
  function Marked(g: Geometry, place: Chs): Medium
  {
    c => seq(g.size, _ => if c == place then 1 else 0)
  }

  lemma WrongBlock(g: Geometry, blnr: nat, n: nat)
    requires g.Valid() && n > 0 && ToChs(g, blnr + n - 1).track >= 256
    ensures var m := Marked(g, ToChs(g, blnr + n - 1));
            Formatted(g, m) && Blocks(g, Seen(m), blnr, n) != Blocks(g, m, blnr, n)
  {
    var c := ToChs(g, blnr + n - 1);
    var m := Marked(g, c);
    assert Command(c) != c;
    SeenAt(m, c);
    var x, y := Blocks(g, m, blnr, n), Blocks(g, Seen(m), blnr, n);
    assert x[|x| - 1] == m(c)[g.size - 1] == 1;
    assert y[|y| - 1] == m(Command(c))[g.size - 1] == 0;
  }

  /** Every disk is read as it is, exactly if the request ends on one of the first 256 tracks. */
  lemma ReadsRight(g: Geometry, blnr: nat, n: nat)
    requires g.Valid()
    ensures (forall m: Medium | Formatted(g, m) :: Blocks(g, Seen(m), blnr, n) == Blocks(g, m, blnr, n)) <==>
            (n > 0 ==> ToChs(g, blnr + n - 1).track < 256)
  {
    if n > 0 && ToChs(g, blnr + n - 1).track >= 256 {
      WrongBlock(g, blnr, n);
    } else {
      forall m: Medium | Formatted(g, m) ensures Blocks(g, Seen(m), blnr, n) == Blocks(g, m, blnr, n) {
        RightBlocks(g, m, blnr, n);
      }
    }
  }

  /** The first block behind track 255 is read from track 0. */
  lemma TrackWraps(g: Geometry)
    requires g.Valid()
    ensures Command(ToChs(g, 256 * (g.sect * g.heads))) == ToChs(g, 0) == Chs(0, 0, 1)
  {
    MulStep(g.sect, 0, g.heads);
    var side := g.sect * g.heads;
    DivModUnique(256 * side, side, 256, 0);
    DivModUnique(0, side, 0, 0);
    DivModUnique(0, g.sect, 0, 0);
  }

  // ----- the drive and the driver -----

  /** How a READ ends: with the data asked for, or with the controller breaking off before byte `at`. */
  datatype ReadOutcome = Delivers | BreaksOff(at: nat)

  datatype Read = Read(place: Chs, count: nat)

  /** A READ that does not leave its track side. */
  predicate OneSide(g: Geometry, r: Read) { 1 <= r.place.sector && r.place.sector + r.count - 1 <= g.sect }

  /** Blocks left on the track side of `blnr`, itself included. */
  function SideLeft(g: Geometry, blnr: nat): (n: nat)
    requires g.Valid()
    ensures 0 < n <= g.sect
  {
    if blnr < g.sect then g.sect - blnr else SideLeft(g, blnr - g.sect)
  }

  lemma {:induction false} SideLeftMod(g: Geometry, blnr: nat)
    requires g.Valid()
    ensures SideLeft(g, blnr) == g.sect - blnr % g.sect
    decreases blnr
  {
    if blnr < g.sect {
      SmallMod(blnr, g.sect);
    } else {
      var x := blnr - g.sect;
      SideLeftMod(g, x);
      DivMod(x, g.sect);
      assert g.sect * (x / g.sect + 1) == g.sect * (x / g.sect) + g.sect;
      DivModUnique(blnr, g.sect, x / g.sect + 1, x % g.sect);
    }
  }

  /** After the last block of a track side comes the first of the next. */
  lemma {:induction false} NextSide(g: Geometry, blnr: nat)
    requires g.Valid()
    ensures SideLeft(g, blnr + SideLeft(g, blnr)) == g.sect
    decreases blnr
  {
    if blnr >= g.sect {
      NextSide(g, blnr - g.sect);
    }
  }

  lemma {:induction false} BlocksLength(g: Geometry, m: Medium, blnr: nat, n: nat)
    requires g.Valid() && Formatted(g, m)
    ensures |Blocks(g, m, blnr, n)| == n * g.size
  {
    if n > 0 {
      BlocksLength(g, m, blnr, n - 1);
      OneMore(n, g.size);
    }
  }

  /** The first `done` blocks from `b0` on are in the buffer, up to `offset`. */
  ghost predicate Have(g: Geometry, m: Medium, b0: nat, done: nat, s: seq<byte>, offset: nat)
    requires g.Valid()
  {
    offset == |Blocks(g, m, b0, done)| <= |s| && s[..offset] == Blocks(g, m, b0, done)
  }

  lemma HaveRoom(g: Geometry, m: Medium, b0: nat, done: nat, k: nat, all: nat, s: seq<byte>, offset: nat)
    requires g.Valid() && Formatted(g, m) && done + k <= all && |s| == |Blocks(g, m, b0, all)|
    requires Have(g, m, b0, done, s, offset)
    ensures offset + |Blocks(g, m, b0 + done, k)| <= |s|
  {
    Room(g, m, b0, done, k, all);
  }

  lemma HaveMore(g: Geometry, m: Medium, b0: nat, done: nat, k: nat, s: seq<byte>, s': seq<byte>, offset: nat, len: nat)
    requires g.Valid() && Have(g, m, b0, done, s, offset) && offset + len <= |s'| && s'[..offset] == s[..offset]
    requires len == |Blocks(g, m, b0 + done, k)| && s'[offset..offset + len] == Blocks(g, m, b0 + done, k)
    ensures Have(g, m, b0, done + k, s', offset + len)
  {
    BlocksAppend(g, m, b0, done, k);
    assert s'[..offset + len] == s'[..offset] + s'[offset..offset + len];
  }

  /** The controller breaks off before it has delivered `len` bytes. */
  predicate BreaksBefore(o: ReadOutcome, len: nat) { o.BreaksOff? && o.at < len }

  /** How many of the first `n` READs break off. */
  ghost function BrokenReads(outcome: nat -> ReadOutcome, size: nat, log: seq<Read>, n: nat): nat
    requires n <= |log|
  {
    if n == 0 then 0
    else BrokenReads(outcome, size, log, n - 1) + if BreaksBefore(outcome(n - 1), log[n - 1].count * size) then 1 else 0
  }

  lemma {:induction false} SameReads(outcome: nat -> ReadOutcome, size: nat, log: seq<Read>, r: Read, n: nat)
    requires n <= |log|
    ensures BrokenReads(outcome, size, log + [r], n) == BrokenReads(outcome, size, log, n)
    decreases n
  {
    if n > 0 {
      SameReads(outcome, size, log, r, n - 1);
    }
  }

  lemma OneMoreRead(outcome: nat -> ReadOutcome, size: nat, log: seq<Read>, r: Read)
    ensures BrokenReads(outcome, size, log + [r], |log| + 1) ==
            BrokenReads(outcome, size, log, |log|) + if BreaksBefore(outcome(|log|), r.count * size) then 1 else 0
  {
    SameReads(outcome, size, log, r, |log|);
  }

  lemma {:induction false} NoneBroken(outcome: nat -> ReadOutcome, size: nat, log: seq<Read>, n: nat)
    requires n <= |log|
    ensures (forall k: nat :: outcome(k).Delivers?) ==> BrokenReads(outcome, size, log, n) == 0
    decreases n
  {
    if n > 0 {
      NoneBroken(outcome, size, log, n - 1);
    }
  }

  datatype Attempted = Stop | Retry | Done

  class Drive {
    const g: Geometry
    const medium: Medium                  // what is on the disk, by place
    const accepts: nat -> bool             // the n-th command is accepted and, for a seek, reaches its track
    const outcome: nat -> ReadOutcome      // how the n-th READ ends
    var blnr: nat                          // pCMD->blnr
    var commands: nat
    var readCount: nat
    ghost var failed: nat                  // READs that broke off
    ghost var log: seq<Read>

    ghost predicate Valid()
      reads this
    {
      && g.Valid() && Formatted(g, Seen(medium)) && readCount == |log| && (forall r | r in log :: OneSide(g, r))
      && failed == BrokenReads(outcome, g.size, log, |log|)
    }

    /** The commands from the `lo`-th to before the `hi`-th are accepted. */
    ghost predicate Accepted(lo: nat, hi: nat) { forall k | lo <= k < hi :: accepts(k) }

    constructor (g: Geometry, medium: Medium, accepts: nat -> bool, outcome: nat -> ReadOutcome, blnr: nat)
      requires g.Valid() && Formatted(g, medium)
      ensures Valid() && this.g == g && this.medium == medium && this.blnr == blnr && log == []
    {
      SeenFormatted(g, medium);
      this.g, this.medium, this.accepts, this.outcome, this.blnr := g, medium, accepts, outcome, blnr;
      commands, readCount, failed, log := 0, 0, 0, [];
    }

    /** Any command: a seek, a recalibration, the start of a READ. */
    method Issue() returns (ok: bool)
      modifies `commands
      ensures commands == old(commands) + 1 && ok == accepts(old(commands))
    {
      ok := accepts(commands);
      commands := commands + 1;
    }

    /** The data phase of a READ of `readblk` blocks. */
    method DataPhase(buffer: array<byte>, offset: nat, readblk: nat) returns (ok: bool, len: nat)
      requires Valid() && readblk <= SideLeft(g, blnr)
      requires offset + |Blocks(g, Seen(medium), blnr, readblk)| <= buffer.Length
      modifies `readCount, `failed, `log, buffer
      ensures Valid() && len == |Blocks(g, Seen(medium), blnr, readblk)|
      ensures old(log) <= log && failed == old(failed) + if ok then 0 else 1
      ensures ok <==> !BreaksBefore(outcome(old(readCount)), len)
      ensures buffer[..offset] == old(buffer[..offset]) && buffer[offset + len..] == old(buffer[offset + len..])
      ensures ok ==> buffer[offset..offset + len] == Blocks(g, Seen(medium), blnr, readblk)
    {
      SideLeftMod(g, blnr);
      FifoFacts(g, Seen(medium), blnr, readblk);
      BlocksLength(g, Seen(medium), blnr, readblk);
      len := g.size * readblk;
      var c := ToChs(g, blnr);
      StreamSeen(medium, c, g.sect - (c.sector - 1));
      var fifo := Stream(medium, Command(c), g.sect - (c.sector - 1));
      var o := outcome(readCount);
      readCount := readCount + 1;
      OneMoreRead(outcome, g.size, log, Read(Command(c), readblk));
      log := log + [Read(Command(c), readblk)];
      ok := CopyFifo(buffer, offset, fifo, len, o);
      if !ok {
        failed := failed + 1;
      }
    }

    /** How many blocks the first READ can take: to the end of the track side, or of the request. */
    method FirstReach(blocks: nat) returns (readblk: nat)
      requires g.Valid()
      ensures readblk == if SideLeft(g, blnr) > blocks then blocks else SideLeft(g, blnr)
    {
      SideLeftMod(g, blnr);
      readblk := g.sect - blnr % g.sect;
      if readblk > blocks {
        readblk := blocks;
      }
    }

    /** Accounts for a READ that broke off; `retry` is false when the retries are used up or a command is refused. */
    method AfterFailure(rw: nat, cal: nat, ghost f0: nat) returns (retry: bool, rw': nat, cal': nat)
      requires Valid() && rw <= 4 && cal <= 4 && failed == f0 + 5 * cal + rw + 1
      modifies `commands
      ensures Valid() && old(commands) <= commands
      ensures retry ==> rw' <= 4 && cal' <= 4 && failed == f0 + 5 * cal' + rw'
      ensures retry <==> failed < f0 + 25 && Accepted(old(commands), commands)
    {
      rw', cal' := rw + 1, cal;
      if rw > FDC_RW_RETRIES {
        cal' := cal + 1;
        if cal > FDC_CAL_RETRIES {
          retry := false;
          return;
        }
        retry := Issue();         // recalibrate
        if !retry {
          return;
        }
        rw' := 0;
        retry := Issue();         // seek
        return;
      }
      retry := true;
    }

    /** One READ, with what follows a failure. */
    method Attempt(buffer: array<byte>, offset: nat, readblk: nat, rw: nat, cal: nat, ghost f0: nat)
      returns (end: Attempted, rw': nat, cal': nat, len: nat)
      requires Valid() && rw <= 4 && cal <= 4 && failed == f0 + 5 * cal + rw
      requires readblk <= SideLeft(g, blnr) && offset + |Blocks(g, Seen(medium), blnr, readblk)| <= buffer.Length
      modifies `commands, `readCount, `failed, `log, buffer
      ensures Valid() && len == |Blocks(g, Seen(medium), blnr, readblk)| && buffer[..offset] == old(buffer[..offset])
      ensures old(commands) <= commands && old(log) <= log && failed <= f0 + 25
      ensures end != Stop <==> failed < f0 + 25 && Accepted(old(commands), commands)
      ensures end != Stop ==> rw' <= 4 && cal' <= 4 && failed == f0 + 5 * cal' + rw'
      ensures end == Retry ==> failed == old(failed) + 1
      ensures end == Done ==> failed == old(failed) && rw' == rw && cal' == cal
      ensures end == Done ==> buffer[offset..offset + len] == Blocks(g, Seen(medium), blnr, readblk)
    {
      rw', cal', len := rw, cal, |Blocks(g, Seen(medium), blnr, readblk)|;
      var ok := Issue();          // READ
      if !ok {
        return Stop, rw', cal', len;
      }
      ok, len := DataPhase(buffer, offset, readblk);
      if ok {
        return Done, rw', cal', len;
      }
      ok, rw', cal' := AfterFailure(rw, cal, f0);
      end := if ok then Retry else Stop;
    }

    /** A whole track side, or the rest of the request, after a seek. */
    method NextReach(blocks: nat) returns (ok: bool, readblk: nat)
      requires Valid() && SideLeft(g, blnr) == g.sect
      modifies `commands
      ensures Valid() && commands == old(commands) + 1 && ok == accepts(old(commands))
      ensures readblk == if SideLeft(g, blnr) > blocks then blocks else SideLeft(g, blnr)
    {
      readblk := g.sect;
      if readblk > blocks {
        readblk := blocks;
      }
      ok := Issue();              // seek
    }

    /** Past the blocks just read, to the next track side if there is more to read. */
    method Onward(blocks: nat, readblk: nat) returns (ok: bool, blocks': nat, readblk': nat)
      requires Valid() && readblk == if SideLeft(g, blnr) > blocks then blocks else SideLeft(g, blnr)
      modifies `blnr, `commands
      ensures Valid() && blnr == old(blnr) + readblk && blocks' == blocks - readblk && (blocks > 0 ==> blocks' < blocks)
      ensures old(commands) <= commands && ok == Accepted(old(commands), commands)
      ensures ok ==> readblk' == if SideLeft(g, blnr) > blocks' then blocks' else SideLeft(g, blnr)
    {
      SideFilled(g, blnr, readblk, blocks);
      blnr := blnr + readblk;
      blocks' := blocks - readblk;
      if blocks' == 0 {
        return true, 0, 0;
      }
      ok, readblk' := NextReach(blocks');
    }

    /** One attempt at a track side, on top of the blocks already read. */
    method ReadSide(buffer: array<byte>, offset: nat, readblk: nat, rw: nat, cal: nat,
                    ghost f0: nat, ghost b0: nat, ghost done: nat, ghost all: nat)
      returns (end: Attempted, rw': nat, cal': nat, len: nat)
      requires Valid() && rw <= 4 && cal <= 4 && failed == f0 + 5 * cal + rw
      requires readblk <= SideLeft(g, blnr) && blnr == b0 + done && done + readblk <= all
      requires buffer.Length == |Blocks(g, Seen(medium), b0, all)| && Have(g, Seen(medium), b0, done, buffer[..], offset)
      modifies `commands, `readCount, `failed, `log, buffer
      ensures Valid()
      ensures old(commands) <= commands && old(log) <= log && failed <= f0 + 25
      ensures end != Stop <==> failed < f0 + 25 && Accepted(old(commands), commands)
      ensures end != Stop ==> rw' <= 4 && cal' <= 4 && failed == f0 + 5 * cal' + rw'
      ensures end == Retry ==> failed == old(failed) + 1 && Have(g, Seen(medium), b0, done, buffer[..], offset)
      ensures end == Done ==> failed == old(failed) && Have(g, Seen(medium), b0, done + readblk, buffer[..], offset + len)
    {
      HaveRoom(g, Seen(medium), b0, done, readblk, all, buffer[..], offset);
      ghost var before := buffer[..];
      end, rw', cal', len := Attempt(buffer, offset, readblk, rw, cal, f0);
      assert buffer[..][..offset] == buffer[..offset] == before[..offset];
      if end == Done {
        assert buffer[..][offset..offset + len] == buffer[offset..offset + len];
        HaveMore(g, Seen(medium), b0, done, readblk, before, buffer[..], offset, len);
      }
    }

    /** What is true of a request of `all` blocks from `b0` on when `blocks` of them are still to be read. */
    ghost predicate Underway(buffer: array<byte>, offset: nat, blocks: nat, readblk: nat, b0: nat, all: nat)
      reads this, buffer
    {
      && Valid() && blocks <= all && blnr == b0 + (all - blocks)
      && readblk == (if SideLeft(g, blnr) > blocks then blocks else SideLeft(g, blnr))
      && buffer.Length == |Blocks(g, Seen(medium), b0, all)|
      && Have(g, Seen(medium), b0, all - blocks, buffer[..], offset)
    }

    /** One turn of the loop: a READ and, if it succeeds, the step to the next track side. */
    method Turn(buffer: array<byte>, offset: nat, blocks: nat, readblk: nat, rw: nat, cal: nat,
                ghost f0: nat, ghost b0: nat, ghost all: nat)
      returns (end: Attempted, offset': nat, blocks': nat, readblk': nat, rw': nat, cal': nat)
      requires Underway(buffer, offset, blocks, readblk, b0, all)
      requires rw <= 4 && cal <= 4 && failed == f0 + 5 * cal + rw
      modifies `commands, `readCount, `failed, `log, `blnr, buffer
      ensures Valid() && old(commands) <= commands && old(log) <= log && failed <= f0 + 25
      ensures end != Stop <==> failed < f0 + 25 && Accepted(old(commands), commands)
      ensures end != Stop ==> rw' <= 4 && cal' <= 4 && failed == f0 + 5 * cal' + rw'
      ensures end != Stop ==> Underway(buffer, offset', blocks', readblk', b0, all)
      ensures end == Retry ==> blocks' == blocks && failed == old(failed) + 1
      ensures end == Done ==> blocks' == 0 || blocks' < blocks
    {
      offset', blocks', readblk' := offset, blocks, readblk;
      var len;
      end, rw', cal', len := ReadSide(buffer, offset, readblk, rw, cal, f0, b0, all - blocks, all);
      if end == Done {
        offset' := offset + len;
        var ok;
        ok, blocks', readblk' := Onward(blocks, readblk);
        if !ok {
          end := Stop;
        }
      }
    }

    /** The loop over the track sides of a request, from the first READ on. */
    method ReadSides(buffer: array<byte>, blocks0: nat, readblk0: nat) returns (ok: bool)
      requires Valid() && |Blocks(g, Seen(medium), blnr, blocks0)| == buffer.Length
      requires readblk0 == if SideLeft(g, blnr) > blocks0 then blocks0 else SideLeft(g, blnr)
      modifies `commands, `readCount, `failed, `log, `blnr, buffer
      ensures Valid() && old(commands) <= commands && old(log) <= log && failed <= old(failed) + 25
      ensures ok <==> failed < old(failed) + 25 && Accepted(old(commands), commands)
      ensures ok ==> blnr == old(blnr) + blocks0 && buffer[..] == Blocks(g, Seen(medium), old(blnr), blocks0)
    {
      var rw: nat, cal: nat, offset: nat, blocks: nat, readblk: nat := 0, 0, 0, blocks0, readblk0;
      ghost var f0: nat, b0: nat := failed, blnr;
      while true
        invariant Underway(buffer, offset, blocks, readblk, b0, blocks0)
        invariant rw <= 4 && cal <= 4 && failed == f0 + 5 * cal + rw
        invariant old(commands) <= commands && old(log) <= log && Accepted(old(commands), commands)
        decreases blocks, f0 + 25 - failed
      {
        var end;
        end, offset, blocks, readblk, rw, cal := Turn(buffer, offset, blocks, readblk, rw, cal, f0, b0, blocks0);
        if end == Stop {
          return false;
        }
        if end == Done && blocks == 0 {
          break;
        }
      }
      ok := true;
      assert buffer[..][..offset] == buffer[..];
    }

    /**
     `fdc_read_data`: on success the buffer holds the blocks asked for, whatever READs failed on the way, if the
     request ends on one of the first 256 tracks; behind them the tracks repeat. It succeeds if and only if every
     command it issues is accepted and fewer than 25 of its READs break off.
     */
    method ReadData(buffer: array<byte>, blocks0: nat) returns (ok: bool)
      requires Valid() && |Blocks(g, Seen(medium), blnr, blocks0)| == buffer.Length
      modifies this, buffer
      ensures Valid() && old(commands) <= commands && old(log) <= log && failed <= old(failed) + 25
      ensures ok <==> failed < old(failed) + 25 && Accepted(old(commands), commands)
      ensures (forall k: nat :: accepts(k)) && (forall k: nat :: outcome(k).Delivers?) ==> ok
      ensures ok ==> blnr == old(blnr) + blocks0 && buffer[..] == Blocks(g, Seen(medium), old(blnr), blocks0)
      ensures ok && (blocks0 > 0 ==> ToChs(g, old(blnr) + blocks0 - 1).track < 256) ==>
                buffer[..] == Blocks(g, medium, old(blnr), blocks0)
    {
      ok := Issue();              // seek
      if !ok {
        return;
      }
      var readblk := FirstReach(blocks0);
      ok := ReadSides(buffer, blocks0, readblk);
      NoneBroken(outcome, g.size, log, |log|);
      if blocks0 > 0 ==> ToChs(g, old(blnr) + blocks0 - 1).track < 256 {
        RightBlocks(g, medium, old(blnr), blocks0);
      }
    }
  }

  /** A READ that leaves something to read fills its track side. */
  lemma SideFilled(g: Geometry, blnr: nat, readblk: nat, blocks: nat)
    requires g.Valid() && readblk == if SideLeft(g, blnr) > blocks then blocks else SideLeft(g, blnr)
    ensures readblk <= blocks && (blocks > 0 ==> readblk > 0)
    ensures readblk < blocks ==> SideLeft(g, blnr + readblk) == g.sect
  {
    NextSide(g, blnr);
  }

  /** The part of the request read so far and the next READ make up part of the request. */
  lemma Room(g: Geometry, m: Medium, blnr: nat, done: nat, k: nat, all: nat)
    requires g.Valid() && Formatted(g, m) && done + k <= all
    ensures Blocks(g, m, blnr, done + k) == Blocks(g, m, blnr, done) + Blocks(g, m, blnr + done, k)
    ensures |Blocks(g, m, blnr, done + k)| <= |Blocks(g, m, blnr, all)|
  {
    BlocksAppend(g, m, blnr, done, k);
    BlocksAppend(g, m, blnr, done + k, all - done - k);
  }

  /** Reads `len` bytes into the buffer, or fewer if the controller breaks off. */
  method CopyFifo(buffer: array<byte>, offset: nat, fifo: seq<byte>, len: nat, o: ReadOutcome) returns (ok: bool)
    requires offset + len <= buffer.Length && len <= |fifo|
    modifies buffer
    ensures buffer[..offset] == old(buffer[..offset]) && buffer[offset + len..] == old(buffer[offset + len..])
    ensures ok <==> !BreaksBefore(o, len)
    ensures ok ==> buffer[offset..offset + len] == fifo[..len]
  {
    ok := true;
    var i := 0;
    while i < len
      invariant 0 <= i <= len && (o.BreaksOff? ==> i <= o.at)
      invariant buffer[..offset] == old(buffer[..offset]) && buffer[offset + len..] == old(buffer[offset + len..])
      invariant buffer[offset..offset + i] == fifo[..i]
    {
      if o.BreaksOff? && i == o.at {
        ok := false;
        return;
      }
      buffer[offset + i] := fifo[i];
      assert buffer[offset..offset + i + 1] == buffer[offset..offset + i] + [fifo[i]];
      i := i + 1;
    }
  }

  /** The controller's data lasts as long as the track side, and begins with the blocks asked for. */
  lemma FifoFacts(g: Geometry, m: Medium, blnr: nat, n: nat)
    requires g.Valid() && Formatted(g, m) && blnr % g.sect + n <= g.sect
    ensures var c := ToChs(g, blnr);
            && 0 <= c.sector - 1 && n <= g.sect - (c.sector - 1)
            && n * g.size <= |Stream(m, c, g.sect - (c.sector - 1))|
            && Stream(m, c, g.sect - (c.sector - 1))[..n * g.size] == Blocks(g, m, blnr, n)
  {
    var c := ToChs(g, blnr);
    ChsInverse(g, blnr);
    ChsStep(g, blnr, 0);
    StreamPrefix(m, c, n, g.sect - (c.sector - 1));
    StreamLength(g, m, c, n);
    StreamIsBlocks(g, m, blnr, n);
  }
}
