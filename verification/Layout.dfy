/**
 Memory reservation before relocation: from the top of RAM downwards, one step per user, on 32-bit addresses.
 */
module Layout {
  import opened Bytes
  import opened Bits
  import opened Wrappers

  datatype User = LogBuffer | Protected | Page | Tlb | Lcd | Trace | Video | Monitor | Malloc | BoardInfo
                | GlobalData | DeviceTree | ExceptionStack | InterruptStack | AbortStack

  datatype Alignment = Any | Bytes8 | Bytes16 | Bytes32 | Page4k | Block64k | Section1M

  function Unit(a: Alignment): (n: nat)
    ensures n > 0
  {
    match a
    case Any => 1
    case Bytes8 => 8
    case Bytes16 => 16
    case Bytes32 => 32
    case Page4k => 4096
    case Block64k => 0x1_0000
    case Section1M => 0x10_0000
  }

  /** Go down by `size`, then to a multiple of the alignment. */
  datatype Step = Step(user: User, size: nat, align: Alignment)

  /** The build options and the sizes known at run time. */
  datatype Config = Config(
    bootPage: Option<nat>,     // CONFIG_MP: page of the secondary cores' boot code
    logbuffer: bool,
    pram: Option<nat>,         // kB
    mmu: Option<nat>,          // PGTABLE_SIZE
    lcd: Option<nat>,          // frame buffer size, unless at a fixed address
    lcdSection: bool,          // align to an MMU section instead of a page
    trace: Option<nat>,
    video: Option<nat>,        // what video_setmem takes
    monLen: nat,
    e500: bool,
    spl: bool,
    mallocLen: nat,
    boardSize: nat,
    globalSize: nat,
    fdt: Option<nat>,          // total size of the device tree
    arm: bool,
    irqStack: Option<nat>)

  const LOGBUFF_RESERVE := 16384 + 4096

  // ----- the layout in plain arithmetic -----

  function Down(x: int, a: Alignment): (y: int)
  {
    match a
    case Any => x
    case Bytes8 => x - x % 8
    case Bytes16 => x - x % 16
    case Bytes32 => x - x % 32
    case Page4k => x - x % 4096
    case Block64k => x - x % 0x1_0000
    case Section1M => x - x % 0x10_0000
  }

  /** The free space ends here after `steps`; below zero if there is not enough memory. */
  function Run(top: nat, steps: seq<Step>): int
  {
    if steps == [] then top
    else
      var last := steps[|steps| - 1];
      Down(Run(top, steps[..|steps| - 1]) - last.size, last.align)
  }

  predicate Fits(top: nat, steps: seq<Step>)
  {
    Run(top, steps) >= 0
  }

  /** Where the region of step `i` starts. */
  function Start(top: nat, steps: seq<Step>, i: nat): int
    requires i < |steps|
  {
    Run(top, steps[..i + 1])
  }

  function Floor(x: int, n: nat): int
    requires n > 0
  {
    x - x % n
  }

  lemma FloorFacts(x: int, n: nat)
    requires n > 0
    ensures x - n < Floor(x, n) <= x && Floor(x, n) % n == 0 && Floor(x, n) == n * (x / n)
    ensures x >= 0 ==> Floor(x, n) >= 0
  {
    var q := x / n;
    assert x == n * q + x % n;
    DivModUnique(n * q, n, q, 0);
    if x >= 0 && q < 0 {
      MulStep(n, q, 0);
    }
  }

  lemma DownIsFloor(x: int, a: Alignment)
    ensures Down(x, a) == Floor(x, Unit(a))
  {
    match a {
      case Any => FloorFacts(x, 1);
      case Bytes8 =>
      case Bytes16 =>
      case Bytes32 =>
      case Page4k =>
      case Block64k =>
      case Section1M =>
    }
  }

  lemma DownFacts(x: int, a: Alignment)
    ensures x - Unit(a) < Down(x, a) <= x && Down(x, a) % Unit(a) == 0
    ensures x >= 0 ==> Down(x, a) >= 0
  {
    DownIsFloor(x, a);
    FloorFacts(x, Unit(a));
  }

  /** Free space only shrinks. */
  lemma {:induction false} RunShrinks(top: nat, steps: seq<Step>, i: nat)
    requires i <= |steps|
    ensures Run(top, steps) <= Run(top, steps[..i])
    decreases |steps|
  {
    var n := |steps|;
    if i == n {
      assert steps[..n] == steps;
    } else {
      var last := steps[n - 1];
      DownFacts(Run(top, steps[..n - 1]) - last.size, last.align);
      RunShrinks(top, steps[..n - 1], i);
      assert steps[..n - 1][..i] == steps[..i];
    }
  }

  lemma RegionBelow(top: nat, steps: seq<Step>, i: nat)
    requires i < |steps|
    ensures Start(top, steps, i) + steps[i].size <= Run(top, steps[..i])
    ensures Start(top, steps, i) % Unit(steps[i].align) == 0
  {
    assert steps[..i + 1][..i] == steps[..i];
    DownFacts(Run(top, steps[..i]) - steps[i].size, steps[i].align);
  }

  /** Regions lie in RAM below `top`, aligned as asked. */
  lemma RegionInRam(top: nat, steps: seq<Step>, i: nat)
    requires Fits(top, steps) && i < |steps|
    ensures 0 <= Start(top, steps, i) && Start(top, steps, i) + steps[i].size <= top
    ensures Start(top, steps, i) % Unit(steps[i].align) == 0
  {
    RegionBelow(top, steps, i);
    RunShrinks(top, steps, i + 1);
    RunShrinks(top, steps[..i], 0);
    assert steps[..i][..0] == [];
  }

  /** A later region lies wholly below an earlier one, so no two overlap. */
  lemma RegionsDisjoint(top: nat, steps: seq<Step>, i: nat, j: nat)
    requires i < j < |steps|
    ensures Start(top, steps, j) + steps[j].size <= Start(top, steps, i)
  {
    RegionBelow(top, steps, j);
    RunShrinks(top, steps[..j], i + 1);
    assert steps[..j][..i + 1] == steps[..i + 1];
  }

  /** A list of steps fits exactly if no subtraction goes below zero. */
  lemma {:induction false} FitsMeans(top: nat, steps: seq<Step>)
    ensures Fits(top, steps) <==> forall i | 0 <= i < |steps| :: Run(top, steps[..i]) - steps[i].size >= 0
  {
    forall i | 0 <= i < |steps| && Fits(top, steps) ensures Run(top, steps[..i]) - steps[i].size >= 0 {
      RegionInRam(top, steps, i);
      RegionBelow(top, steps, i);
    }
    if steps != [] {
      var n := |steps| - 1;
      DownFacts(Run(top, steps[..n]) - steps[n].size, steps[n].align);
    }
  }

  /** In RAM, aligned, and pairwise disjoint. */
  ghost predicate Sound(top: nat, steps: seq<Step>)
  {
    && (forall i | 0 <= i < |steps| ::
          0 <= Start(top, steps, i) <= top - steps[i].size && Start(top, steps, i) % Unit(steps[i].align) == 0)
    && (forall i, j | 0 <= i < j < |steps| :: Start(top, steps, j) + steps[j].size <= Start(top, steps, i))
  }

  lemma LayoutSound(top: nat, steps: seq<Step>)
    requires Fits(top, steps)
    ensures Sound(top, steps)
  {
    forall i | 0 <= i < |steps|
      ensures 0 <= Start(top, steps, i) <= top - steps[i].size && Start(top, steps, i) % Unit(steps[i].align) == 0
    {
      RegionInRam(top, steps, i);
    }
    forall i, j | 0 <= i < j < |steps| ensures Start(top, steps, j) + steps[j].size <= Start(top, steps, i) {
      RegionsDisjoint(top, steps, i, j);
    }
  }

  // ----- the 32-bit steps -----

  function Lower(x: nat, size: nat, a: Alignment): (y: nat)
    requires x < WORD
    ensures y < WORD
  {
    DownFacts((x - size) % WORD, a);
    Down((x - size) % WORD, a)
  }

  /** An address register follows the layout as long as it fits. */
  ghost predicate Tracks(x: nat, top: nat, steps: seq<Step>)
  {
    x < WORD && (Fits(top, steps) ==> x == Run(top, steps))
  }

  lemma TracksStep(x: nat, top: nat, steps: seq<Step>, s: Step)
    requires Tracks(x, top, steps)
    ensures Tracks(Lower(x, s.size, s.align), top, steps + [s])
  {
    var all := steps + [s];
    assert all[..|all| - 1] == steps;
    if Fits(top, all) {
      DownFacts(Run(top, steps) - s.size, s.align);
      assert (x - s.size) % WORD == x - s.size;
    }
  }

  // ----- the options as steps -----

  function When(yes: bool, s: Step): seq<Step> { if yes then [s] else [] }

  function Value(o: Option<nat>): nat { if o.Some? then o.value else 0 }

  /** `ALIGN` in 32 bits. */
  function Up(x: nat, a: Alignment): (y: nat)
  {
    DownFacts((x + Unit(a) - 1) % WORD, a);
    Down((x + Unit(a) - 1) % WORD, a)
  }

  function LcdAlign(c: Config): Alignment { if c.lcdSection then Section1M else Page4k }

  function LogBufferSteps(c: Config): seq<Step> { When(c.logbuffer, Step(LogBuffer, LOGBUFF_RESERVE, Any)) }
  function PramSteps(c: Config): seq<Step>
  {
    When(c.pram.Some?, Step(Protected, Value(c.pram) * 1024 % WORD, Any))
  }
  function TlbSteps(c: Config): seq<Step> { When(c.mmu.Some?, Step(Tlb, Value(c.mmu), Block64k)) }
  function LcdSteps(c: Config): seq<Step>
  {
    When(c.lcd.Some?, Step(Lcd, Up(Value(c.lcd), LcdAlign(c)), LcdAlign(c)))
  }
  function TraceSteps(c: Config): seq<Step> { When(c.trace.Some?, Step(Trace, Value(c.trace), Any)) }
  function VideoSteps(c: Config): seq<Step> { When(c.video.Some?, Step(Video, Value(c.video), Any)) }
  function MonitorSteps(c: Config): seq<Step> { [Step(Monitor, c.monLen, if c.e500 then Block64k else Page4k)] }
  function MallocSteps(c: Config): seq<Step> { When(!c.spl, Step(Malloc, c.mallocLen, Any)) }
  function BoardSteps(c: Config): seq<Step> { When(!c.spl, Step(BoardInfo, c.boardSize, Any)) }
  function FdtSize(c: Config): nat { Up((Value(c.fdt) + 0x1000) % WORD, Bytes32) }
  function FdtSteps(c: Config): seq<Step> { When(c.fdt.Some?, Step(DeviceTree, FdtSize(c), Any)) }
  function ExceptionSteps(c: Config): seq<Step> { When(!c.spl, Step(ExceptionStack, 16, Bytes16)) }
  function InterruptSteps(c: Config): seq<Step>
  {
    When(!c.spl && c.arm && c.irqStack.Some?, Step(InterruptStack, Value(c.irqStack), Bytes8))
  }
  function AbortSteps(c: Config): seq<Step> { When(c.arm, Step(AbortStack, if c.spl then 128 else 16, Any)) }

  function TopSteps(c: Config): seq<Step>
  {
    LogBufferSteps(c) + PramSteps(c) + [Step(Page, 0, Page4k)] + TlbSteps(c)
  }

  /** Above and including the monitor. */
  function UpperSteps(c: Config): seq<Step>
  {
    TopSteps(c) + LcdSteps(c) + TraceSteps(c) + VideoSteps(c) + MonitorSteps(c)
  }

  function DataSteps(c: Config): seq<Step>
  {
    UpperSteps(c) + MallocSteps(c) + BoardSteps(c) + [Step(GlobalData, c.globalSize, Any)] + FdtSteps(c)
  }

  function AllSteps(c: Config): seq<Step>
  {
    DataSteps(c) + ExceptionSteps(c) + InterruptSteps(c) + AbortSteps(c)
  }

  /** The first address that is not handed out. */
  function Base(c: Config, ramTop: nat): nat
  {
    if c.bootPage.Some? && ramTop > c.bootPage.value then c.bootPage.value else ramTop
  }

  /** For every combination of options whose steps fit below the top of RAM: regions in RAM, aligned and
      disjoint. */
  lemma OptionsSound(c: Config, ramTop: nat)
    requires Fits(Base(c, ramTop), AllSteps(c))
    ensures Sound(Base(c, ramTop), AllSteps(c))
  {
    LayoutSound(Base(c, ramTop), AllSteps(c));
  }

  // ----- what each user gets -----

  /** No region reaches into the boot page of the other cores, or above RAM. */
  lemma BootPageFree(c: Config, ramTop: nat, k: nat)
    requires Fits(Base(c, ramTop), AllSteps(c)) && k < |AllSteps(c)|
    ensures var s := AllSteps(c)[k];
            && Start(Base(c, ramTop), AllSteps(c), k) + s.size <= ramTop
            && (c.bootPage.Some? ==> Start(Base(c, ramTop), AllSteps(c), k) + s.size <= c.bootPage.value)
  {
    RegionInRam(Base(c, ramTop), AllSteps(c), k);
  }

  /** Without a boot page below the top, all of RAM is used. */
  lemma TopUsed(c: Config, ramTop: nat)
    ensures c.bootPage.None? || c.bootPage.value >= ramTop ==> Base(c, ramTop) == ramTop
    ensures c.bootPage.Some? && c.bootPage.value < ramTop ==> Base(c, ramTop) == c.bootPage.value
  {
  }

  /** Rounding up, as long as it does not pass the end of the address space: the least multiple that is enough. */
  lemma UpFacts(x: nat, a: Alignment)
    requires x + Unit(a) <= WORD
    ensures x <= Up(x, a) < x + Unit(a) && Up(x, a) % Unit(a) == 0
  {
    SmallWord(x + Unit(a) - 1);
    DownFacts(x + Unit(a) - 1, a);
  }

  lemma InUpper(c: Config, s: Step)
    requires s in LogBufferSteps(c) || s in PramSteps(c) || s in TlbSteps(c) || s in LcdSteps(c) || s in TraceSteps(c)
          || s in VideoSteps(c) || s in MonitorSteps(c)
    ensures s in AllSteps(c)
  {
    assert s in UpperSteps(c);
    assert s in DataSteps(c);
  }

  lemma InLower(c: Config, s: Step)
    requires s in MallocSteps(c) || s in BoardSteps(c) || s in FdtSteps(c) || s == Step(GlobalData, c.globalSize, Any)
    ensures s in AllSteps(c)
  {
    assert s in DataSteps(c);
  }

  /** The users above the monitor, each with the size its option says. */
  lemma UpperUsers(c: Config)
    ensures c.logbuffer ==> Step(LogBuffer, 20480, Any) in AllSteps(c)
    ensures c.pram.Some? && c.pram.value < 0x40_0000 ==> Step(Protected, 1024 * c.pram.value, Any) in AllSteps(c)
    ensures c.mmu.Some? ==> Step(Tlb, c.mmu.value, Block64k) in AllSteps(c)
    ensures c.trace.Some? ==> Step(Trace, c.trace.value, Any) in AllSteps(c)
    ensures c.video.Some? ==> Step(Video, c.video.value, Any) in AllSteps(c)
    ensures Step(Monitor, c.monLen, if c.e500 then Block64k else Page4k) in AllSteps(c)
  {
    if c.logbuffer { InUpper(c, Step(LogBuffer, 20480, Any)); }
    if c.pram.Some? && c.pram.value < 0x40_0000 {
      SmallWord(1024 * c.pram.value);
      InUpper(c, Step(Protected, 1024 * c.pram.value, Any));
    }
    if c.mmu.Some? { InUpper(c, Step(Tlb, c.mmu.value, Block64k)); }
    if c.trace.Some? { InUpper(c, Step(Trace, c.trace.value, Any)); }
    if c.video.Some? { InUpper(c, Step(Video, c.video.value, Any)); }
    InUpper(c, Step(Monitor, c.monLen, if c.e500 then Block64k else Page4k));
  }

  /** Those below it; the full build has an arena, board information and an exception stack. */
  lemma LowerUsers(c: Config)
    ensures Step(GlobalData, c.globalSize, Any) in AllSteps(c)
    ensures !c.spl ==> Step(Malloc, c.mallocLen, Any) in AllSteps(c) && Step(BoardInfo, c.boardSize, Any) in AllSteps(c)
    ensures !c.spl ==> Step(ExceptionStack, 16, Bytes16) in AllSteps(c)
    ensures !c.spl && c.arm && c.irqStack.Some? ==> Step(InterruptStack, c.irqStack.value, Bytes8) in AllSteps(c)
    ensures c.arm ==> Step(AbortStack, if c.spl then 128 else 16, Any) in AllSteps(c)
  {
    InLower(c, Step(GlobalData, c.globalSize, Any));
    if !c.spl {
      InLower(c, Step(Malloc, c.mallocLen, Any));
      InLower(c, Step(BoardInfo, c.boardSize, Any));
    }
  }

  /** The frame buffer is rounded up to its unit. */
  lemma FrameBufferRoom(c: Config) returns (s: Step)
    requires c.lcd.Some? && c.lcd.value + Unit(LcdAlign(c)) <= WORD
    ensures s in AllSteps(c) && s.user == Lcd && s.align == LcdAlign(c)
    ensures Unit(s.align) == if c.lcdSection then 0x10_0000 else 4096
    ensures c.lcd.value <= s.size < c.lcd.value + Unit(LcdAlign(c)) && s.size % Unit(LcdAlign(c)) == 0
  {
    var size := Up(c.lcd.value, LcdAlign(c));
    UpFacts(c.lcd.value, LcdAlign(c));
    s := Step(Lcd, size, LcdAlign(c));
    InUpper(c, s);
  }

  /** The device tree has 4 kB to grow, rounded up to 32 bytes. */
  lemma TreeRoom(c: Config) returns (s: Step)
    requires c.fdt.Some? && c.fdt.value + 0x1020 <= WORD
    ensures s in AllSteps(c) && s.user == DeviceTree
    ensures c.fdt.value + 4096 <= s.size < c.fdt.value + 4096 + 32 && s.size % 32 == 0
  {
    TreeSize(c);
    s := Step(DeviceTree, FdtSize(c), Any);
    InLower(c, s);
  }

  lemma TreeSize(c: Config)
    requires c.fdt.Some? && c.fdt.value + 0x1020 <= WORD
    ensures c.fdt.value + 4096 <= FdtSize(c) < c.fdt.value + 4096 + 32 && FdtSize(c) % 32 == 0
  {
    SmallWord(c.fdt.value + 0x1000);
    UpFacts(c.fdt.value + 0x1000, Bytes32);
  }

  /** The order of the users, from the top of RAM down. */
  function Rank(u: User): nat
  {
    match u
    case LogBuffer => 0
    case Protected => 1
    case Page => 2
    case Tlb => 3
    case Lcd => 4
    case Trace => 5
    case Video => 6
    case Monitor => 7
    case Malloc => 8
    case BoardInfo => 9
    case GlobalData => 10
    case DeviceTree => 11
    case ExceptionStack => 12
    case InterruptStack => 13
    case AbortStack => 14
  }

  predicate Above(s: Step, s': Step) { Rank(s.user) < Rank(s'.user) }

  /** Users of ranks below `hi`, each at most once and in order. */
  ghost predicate Ordered(steps: seq<Step>, hi: nat)
  {
    && (forall i | 0 <= i < |steps| :: Rank(steps[i].user) < hi)
    && (forall i, j {:trigger Above(steps[i], steps[j])} | 0 <= i < j < |steps| :: Above(steps[i], steps[j]))
  }

  lemma OrderedNext(a: seq<Step>, yes: bool, s: Step, hi: nat)
    requires Ordered(a, hi) && Rank(s.user) == hi
    ensures Ordered(a + When(yes, s), hi + 1)
  {
    var all := a + When(yes, s);
    forall i, j | 0 <= i < j < |all| ensures Above(all[i], all[j]) {
      if j < |a| {
        assert Above(a[i], a[j]);
      } else {
        assert all[i] == a[i] && all[j] == s;
      }
    }
  }

  lemma TopOrdered(c: Config)
    ensures Ordered(TopSteps(c), 4)
  {
    OrderedNext([], c.logbuffer, Step(LogBuffer, LOGBUFF_RESERVE, Any), 0);
    assert [] + LogBufferSteps(c) == LogBufferSteps(c);
    OrderedNext(LogBufferSteps(c), c.pram.Some?, Step(Protected, Value(c.pram) * 1024 % WORD, Any), 1);
    OrderedNext(LogBufferSteps(c) + PramSteps(c), true, Step(Page, 0, Page4k), 2);
    OrderedNext(LogBufferSteps(c) + PramSteps(c) + [Step(Page, 0, Page4k)], c.mmu.Some?, Step(Tlb, Value(c.mmu), Block64k), 3);
  }

  lemma ScreenOrdered(c: Config, top: seq<Step>)
    requires Ordered(top, 4)
    ensures Ordered(top + LcdSteps(c) + TraceSteps(c) + VideoSteps(c) + MonitorSteps(c), 8)
  {
    OrderedNext(top, c.lcd.Some?, Step(Lcd, Up(Value(c.lcd), LcdAlign(c)), LcdAlign(c)), 4);
    OrderedNext(top + LcdSteps(c), c.trace.Some?, Step(Trace, Value(c.trace), Any), 5);
    OrderedNext(top + LcdSteps(c) + TraceSteps(c), c.video.Some?, Step(Video, Value(c.video), Any), 6);
    OrderedNext(top + LcdSteps(c) + TraceSteps(c) + VideoSteps(c), true,
                Step(Monitor, c.monLen, if c.e500 then Block64k else Page4k), 7);
  }

  lemma DataOrdered(c: Config, upper: seq<Step>, gd: Step)
    requires Ordered(upper, 8) && gd == Step(GlobalData, c.globalSize, Any)
    ensures Ordered(upper + MallocSteps(c) + BoardSteps(c) + [gd] + FdtSteps(c), 12)
  {
    OrderedNext(upper, !c.spl, Step(Malloc, c.mallocLen, Any), 8);
    OrderedNext(upper + MallocSteps(c), !c.spl, Step(BoardInfo, c.boardSize, Any), 9);
    OrderedNext(upper + MallocSteps(c) + BoardSteps(c), true, gd, 10);
    OrderedNext(upper + MallocSteps(c) + BoardSteps(c) + [gd], c.fdt.Some?, Step(DeviceTree, FdtSize(c), Any), 11);
  }

  lemma StacksOrdered(c: Config, data: seq<Step>)
    requires Ordered(data, 12)
    ensures Ordered(data + ExceptionSteps(c) + InterruptSteps(c) + AbortSteps(c), 15)
  {
    OrderedNext(data, !c.spl, Step(ExceptionStack, 16, Bytes16), 12);
    OrderedNext(data + ExceptionSteps(c), !c.spl && c.arm && c.irqStack.Some?,
                Step(InterruptStack, Value(c.irqStack), Bytes8), 13);
    OrderedNext(data + ExceptionSteps(c) + InterruptSteps(c), c.arm, Step(AbortStack, if c.spl then 128 else 16, Any), 14);
  }

  /** For every combination of options the users follow each other in the one order, none twice. */
  lemma InOrder(c: Config)
    ensures Ordered(AllSteps(c), 15)
  {
    TopOrdered(c);
    ScreenOrdered(c, TopSteps(c));
    DataOrdered(c, UpperSteps(c), Step(GlobalData, c.globalSize, Any));
    StacksOrdered(c, DataSteps(c));
  }

  /** `address` is where the layout puts `user`, with `size` bytes. */
  ghost predicate Placed(top: nat, steps: seq<Step>, user: User, address: nat, size: nat)
  {
    Fits(top, steps) ==>
      exists k | 0 <= k < |steps| :: steps[k].user == user && steps[k].size == size && Start(top, steps, k) == address
  }

  datatype Placement = Placement(user: User, address: nat, size: nat)

  ghost predicate AllPlaced(top: nat, steps: seq<Step>, placed: set<Placement>)
  {
    forall p | p in placed :: Placed(top, steps, p.user, p.address, p.size)
  }

  /** Places lie in RAM, and places of different users do not overlap. */
  ghost predicate Apart(top: nat, placed: set<Placement>)
  {
    && (forall p | p in placed :: p.address + p.size <= top)
    && (forall p, q | p in placed && q in placed && p.user != q.user ::
          p.address + p.size <= q.address || q.address + q.size <= p.address)
  }

  lemma PlacementInRam(top: nat, steps: seq<Step>, p: Placement)
    requires Fits(top, steps) && Placed(top, steps, p.user, p.address, p.size)
    ensures p.address + p.size <= top
  {
    var k :| 0 <= k < |steps| && steps[k].user == p.user && steps[k].size == p.size && Start(top, steps, k) == p.address;
    RegionInRam(top, steps, k);
  }

  lemma PlacementsApart(top: nat, steps: seq<Step>, p: Placement, q: Placement)
    requires Fits(top, steps) && p.user != q.user
    requires Placed(top, steps, p.user, p.address, p.size) && Placed(top, steps, q.user, q.address, q.size)
    ensures p.address + p.size <= q.address || q.address + q.size <= p.address
  {
    var i :| 0 <= i < |steps| && steps[i].user == p.user && steps[i].size == p.size && Start(top, steps, i) == p.address;
    var j :| 0 <= j < |steps| && steps[j].user == q.user && steps[j].size == q.size && Start(top, steps, j) == q.address;
    if i < j {
      RegionsDisjoint(top, steps, i, j);
    } else {
      RegionsDisjoint(top, steps, j, i);
    }
  }

  /** The addresses handed on are as sound as the layout they follow. */
  lemma AllApart(top: nat, steps: seq<Step>, placed: set<Placement>)
    requires Fits(top, steps) && AllPlaced(top, steps, placed)
    ensures Apart(top, placed)
  {
    forall p | p in placed ensures p.address + p.size <= top {
      PlacementInRam(top, steps, p);
    }
    forall p, q | p in placed && q in placed && p.user != q.user
      ensures p.address + p.size <= q.address || q.address + q.size <= p.address
    {
      PlacementsApart(top, steps, p, q);
    }
  }

  /** If the steps fit, the arena is the region of the malloc step, and no two users share memory. */
  ghost predicate ArenaReserved(top: nat, steps: seq<Step>, placed: set<Placement>, start: nat, length: nat)
  {
    Fits(top, steps) ==>
      && Apart(top, placed) && Placement(Malloc, start, length) in placed
      && exists k | 0 <= k < |steps| ::
           steps[k].user == Malloc && steps[k].size == length && Start(top, steps, k) == start
  }

  lemma ArenaFollows(top: nat, steps: seq<Step>, placed: set<Placement>, start: nat, length: nat)
    requires AllPlaced(top, steps, placed) && Placement(Malloc, start, length) in placed
    ensures ArenaReserved(top, steps, placed, start, length)
  {
    if Fits(top, steps) {
      AllApart(top, steps, placed);
      assert Placed(top, steps, Malloc, start, length);
    }
  }

  lemma PlacedKept(top: nat, steps: seq<Step>, s: Step, p: Placement)
    requires Placed(top, steps, p.user, p.address, p.size)
    ensures Placed(top, steps + [s], p.user, p.address, p.size)
  {
    var more := steps + [s];
    if Fits(top, more) {
      RunShrinks(top, more, |steps|);
      assert more[..|steps|] == steps;
      var k :| 0 <= k < |steps| && steps[k].user == p.user && steps[k].size == p.size && Start(top, steps, k) == p.address;
      assert more[..k + 1] == steps[..k + 1];
      assert Start(top, more, k) == p.address;
    }
  }

  /** One step down: the register still follows the layout, and everything placed stays placed. */
  lemma StepTaken(x: nat, top: nat, steps: seq<Step>, placed: set<Placement>, s: Step)
    requires Tracks(x, top, steps) && AllPlaced(top, steps, placed)
    ensures Tracks(Lower(x, s.size, s.align), top, steps + [s])
    ensures AllPlaced(top, steps + [s], placed + {Placement(s.user, Lower(x, s.size, s.align), s.size)})
  {
    var all, y := steps + [s], Lower(x, s.size, s.align);
    TracksStep(x, top, steps, s);
    var k := |steps|;
    assert all[..k + 1] == all && all[k] == s;
    assert Fits(top, all) ==> Start(top, all, k) == y;
    forall p | p in placed ensures Placed(top, all, p.user, p.address, p.size) {
      PlacedKept(top, steps, s, p);
    }
  }

  lemma FloorTogether(x: int, s: int, q: int, n: nat)
    requires n > 0 && s == n * q
    ensures Floor(x, n) - s == Floor(x - s, n)
  {
    var p := x / n;
    assert x - s == n * (p - q) + x % n;
    DivModUnique(x - s, n, p - q, x % n);
  }

  lemma FloorShift(y: int, n: nat, units: nat)
    requires n > 0 && WORD == n * units
    ensures Floor(y + WORD, n) == Floor(y, n) + WORD
  {
    assert -WORD == n * (0 - units);
    FloorTogether(y, -WORD, 0 - units, n);
  }

  lemma FloorWrapped(x: nat, s: nat, n: nat, units: nat)
    requires n > 0 && WORD == n * units && x < WORD && s < WORD && s == n * (s / n)
    ensures (Floor(x, n) - s) % WORD == Floor((x - s) % WORD, n)
  {
    FloorTogether(x, s, s / n, n);
    FloorFacts(x - s, n);
    FloorFacts(x - s + WORD, n);
    FloorShift(x - s, n, units);
    WrapOnce(x - s, Floor(x - s, n));
  }

  lemma WrapOnce(y: int, f: int)
    requires -WORD < y < WORD && f <= y && (y >= 0 ==> f >= 0) && f + WORD >= 0
    ensures y % WORD == if y < 0 then y + WORD else y
    ensures f % WORD == if y < 0 then f + WORD else f
  {
  }

  /** `lcd_setmem` rounds before it subtracts. */
  lemma LcdDown(x: nat, size: nat, a: Alignment)
    requires x < WORD && a in {Page4k, Section1M}
    ensures (Up((x - Unit(a) + 1) % WORD, a) - Up(size, a)) % WORD == Lower(x, Up(size, a), a)
  {
    var n, s, y := Unit(a), Up(size, a), (size + Unit(a) - 1) % WORD;
    assert ((x - n + 1) % WORD + n - 1) % WORD == x;
    DownIsFloor(x, a);
    DownIsFloor(y, a);
    FloorFacts(y, n);
    FloorWrapped(x, s, n, if a == Page4k then 0x10_0000 else 4096);
    DownIsFloor((x - s) % WORD, a);
  }

  /** To a page, and from there to a 64 kB limit if asked. */
  function PageThen64k(y: int, e500: bool): int
  {
    var z := y - y % 4096;
    if e500 then z - z % 0x1_0000 else z
  }

  lemma RoundTwice(x: int)
    ensures PageThen64k(x, true) == x - x % 0x1_0000
  {
    var a, w := x / 0x1_0000, x % 0x1_0000;
    var b, r := w / 4096, w % 4096;
    DivModUnique(x, 4096, 16 * a + b, r);
    DivModUnique(x - x % 4096, 0x1_0000, a, 4096 * b);
  }

  class BoardInit {
    const c: Config
    const ramTop: nat
    var relocaddr: nat
    var startAddrSp: nat
    var tlbAddr: nat
    var fbBase: nat
    var traceBuff: nat
    var bd: nat
    var newGd: nat
    var newFdt: nat
    var irqSp: nat
    ghost var steps: seq<Step>
    ghost var placed: set<Placement>

    constructor (c: Config, ramTop: nat)
      ensures this.c == c && this.ramTop == ramTop
    {
      this.c, this.ramTop := c, ramTop;
    }

    ghost predicate Follows(register: nat)
      reads `steps, `placed
    {
      && Tracks(register, Base(c, ramTop), steps)
      && AllPlaced(Base(c, ramTop), steps, placed)
    }

    /** The monitor, the translation table and the frame buffer stand on their limits. */
    ghost predicate UpperAligned()
      reads `relocaddr, `tlbAddr, `fbBase
    {
      && relocaddr % (if c.e500 then 0x1_0000 else 4096) == 0
      && (c.mmu.Some? ==> tlbAddr % 0x1_0000 == 0)
      && (c.lcd.Some? && c.video.None? ==> fbBase % Unit(LcdAlign(c)) == 0)
    }

    method SetupDestAddr()
      requires ramTop < WORD
      modifies `relocaddr, `steps, `placed
      ensures Follows(relocaddr) && steps == [] && placed == {}
    {
      relocaddr := ramTop;
      if c.bootPage.Some? && relocaddr > c.bootPage.value {
        relocaddr := c.bootPage.value;
      }
      steps, placed := [], {};
    }

    /** The step just taken in the address registers, noted. */
    ghost method Note(before: nat, after: nat, s: Step)
      requires Follows(before) && after == Lower(before, s.size, s.align)
      modifies `steps, `placed
      ensures Follows(after) && steps == old(steps) + [s] && after % Unit(s.align) == 0
      ensures placed == old(placed) + {Placement(s.user, after, s.size)}
    {
      DownFacts((before - s.size) % WORD, s.align);
      StepTaken(before, Base(c, ramTop), steps, placed, s);
      steps, placed := steps + [s], placed + {Placement(s.user, after, s.size)};
    }

    method ReserveLogbuffer()
      requires Follows(relocaddr)
      modifies `relocaddr, `steps, `placed
      ensures Follows(relocaddr) && steps == old(steps) + LogBufferSteps(c) && old(placed) <= placed
    {
      if c.logbuffer {
        ghost var before := relocaddr;
        relocaddr := (relocaddr - LOGBUFF_RESERVE) % WORD;
        Note(before, relocaddr, Step(LogBuffer, LOGBUFF_RESERVE, Any));
      }
    }

    method ReservePram()
      requires Follows(relocaddr)
      modifies `relocaddr, `steps, `placed
      ensures Follows(relocaddr) && steps == old(steps) + PramSteps(c) && old(placed) <= placed
    {
      if c.pram.Some? {
        ghost var before := relocaddr;
        relocaddr := (relocaddr - c.pram.value * 1024 % WORD) % WORD;
        Note(before, relocaddr, Step(Protected, c.pram.value * 1024 % WORD, Any));
      }
    }

    method ReserveRound4k()
      requires Follows(relocaddr)
      modifies `relocaddr, `steps, `placed
      ensures Follows(relocaddr) && steps == old(steps) + [Step(Page, 0, Page4k)] && old(placed) <= placed
    {
      ghost var before := relocaddr;
      relocaddr := relocaddr - relocaddr % 4096;
      Note(before, relocaddr, Step(Page, 0, Page4k));
    }

    method ReserveMmu()
      requires Follows(relocaddr)
      modifies `relocaddr, `tlbAddr, `steps, `placed
      ensures Follows(relocaddr) && steps == old(steps) + TlbSteps(c) && old(placed) <= placed
      ensures c.mmu.Some? ==>
                tlbAddr == relocaddr && Placement(Tlb, tlbAddr, c.mmu.value) in placed && tlbAddr % 0x1_0000 == 0
    {
      if c.mmu.Some? {
        ghost var before := relocaddr;
        relocaddr := (relocaddr - c.mmu.value) % WORD;
        relocaddr := relocaddr - relocaddr % 0x1_0000;
        Note(before, relocaddr, Step(Tlb, c.mmu.value, Block64k));
        tlbAddr := relocaddr;
      }
    }

    method ReserveLcd()
      requires Follows(relocaddr)
      modifies `relocaddr, `fbBase, `steps, `placed
      ensures Follows(relocaddr) && steps == old(steps) + LcdSteps(c) && old(placed) <= placed
      ensures c.lcd.Some? ==>
                && fbBase == relocaddr && Placement(Lcd, fbBase, Up(c.lcd.value, LcdAlign(c))) in placed
                && fbBase % Unit(LcdAlign(c)) == 0
    {
      if c.lcd.Some? {
        ghost var before := relocaddr;
        var a := LcdAlign(c);
        LcdDown(relocaddr, c.lcd.value, a);
        relocaddr := Up((relocaddr - Unit(a) + 1) % WORD, a);
        relocaddr := (relocaddr - Up(c.lcd.value, a)) % WORD;
        Note(before, relocaddr, Step(Lcd, Up(c.lcd.value, LcdAlign(c)), LcdAlign(c)));
        fbBase := relocaddr;
      }
    }

    method ReserveTrace()
      requires Follows(relocaddr)
      modifies `relocaddr, `traceBuff, `steps, `placed
      ensures Follows(relocaddr) && steps == old(steps) + TraceSteps(c) && old(placed) <= placed
      ensures c.trace.Some? ==> traceBuff == relocaddr && Placement(Trace, traceBuff, c.trace.value) in placed
    {
      if c.trace.Some? {
        ghost var before := relocaddr;
        relocaddr := (relocaddr - c.trace.value) % WORD;
        Note(before, relocaddr, Step(Trace, c.trace.value, Any));
        traceBuff := relocaddr;
      }
    }

    method ReserveVideo()
      requires Follows(relocaddr)
      modifies `relocaddr, `fbBase, `steps, `placed
      ensures Follows(relocaddr) && steps == old(steps) + VideoSteps(c) && old(placed) <= placed
      ensures c.video.Some? ==> fbBase == relocaddr && Placement(Video, fbBase, c.video.value) in placed
      ensures c.video.None? ==> fbBase == old(fbBase)
    {
      if c.video.Some? {
        ghost var before := relocaddr;
        relocaddr := (relocaddr - c.video.value) % WORD;
        Note(before, relocaddr, Step(Video, c.video.value, Any));
        fbBase := relocaddr;
      }
    }

    method ReserveUboot()
      requires Follows(relocaddr)
      modifies `relocaddr, `startAddrSp, `steps, `placed
      ensures Follows(startAddrSp) && steps == old(steps) + MonitorSteps(c) && old(placed) <= placed
      ensures startAddrSp == relocaddr && Placement(Monitor, relocaddr, c.monLen) in placed
      ensures relocaddr % (if c.e500 then 0x1_0000 else 4096) == 0
    {
      ghost var before := relocaddr;
      RoundTwice((relocaddr - c.monLen) % WORD);
      relocaddr := PageThen64k((relocaddr - c.monLen) % WORD, c.e500);
      Note(before, relocaddr, MonitorSteps(c)[0]);
      startAddrSp := relocaddr;
    }

    method ReserveMalloc()
      requires Follows(startAddrSp)
      modifies `startAddrSp, `steps, `placed
      ensures Follows(startAddrSp) && steps == old(steps) + MallocSteps(c) && old(placed) <= placed
      ensures !c.spl ==> Placement(Malloc, startAddrSp, c.mallocLen) in placed
      ensures !c.spl ==> startAddrSp == (old(startAddrSp) - c.mallocLen) % WORD
    {
      if !c.spl {
        ghost var before := startAddrSp;
        startAddrSp := (startAddrSp - c.mallocLen) % WORD;
        Note(before, startAddrSp, Step(Malloc, c.mallocLen, Any));
      }
    }

    method ReserveBoard()
      requires Follows(startAddrSp)
      modifies `startAddrSp, `bd, `steps, `placed
      ensures Follows(startAddrSp) && steps == old(steps) + BoardSteps(c) && old(placed) <= placed
      ensures !c.spl ==> bd == startAddrSp && Placement(BoardInfo, bd, c.boardSize) in placed
    {
      if !c.spl {
        ghost var before := startAddrSp;
        startAddrSp := (startAddrSp - c.boardSize) % WORD;
        Note(before, startAddrSp, Step(BoardInfo, c.boardSize, Any));
        bd := startAddrSp;
      }
    }

    method ReserveGlobalData()
      requires Follows(startAddrSp)
      modifies `startAddrSp, `newGd, `steps, `placed
      ensures Follows(startAddrSp) && steps == old(steps) + [Step(GlobalData, c.globalSize, Any)] && old(placed) <= placed
      ensures newGd == startAddrSp && Placement(GlobalData, newGd, c.globalSize) in placed
    {
      ghost var before := startAddrSp;
      startAddrSp := (startAddrSp - c.globalSize) % WORD;
      Note(before, startAddrSp, Step(GlobalData, c.globalSize, Any));
      newGd := startAddrSp;
    }

    method ReserveFdt()
      requires Follows(startAddrSp)
      modifies `startAddrSp, `newFdt, `steps, `placed
      ensures Follows(startAddrSp) && steps == old(steps) + FdtSteps(c) && old(placed) <= placed
      ensures c.fdt.Some? ==> newFdt == startAddrSp && Placement(DeviceTree, newFdt, FdtSize(c)) in placed
    {
      if c.fdt.Some? {
        ghost var before := startAddrSp;
        var size := Up((c.fdt.value + 0x1000) % WORD, Bytes32);
        startAddrSp := (startAddrSp - size) % WORD;
        Note(before, startAddrSp, Step(DeviceTree, FdtSize(c), Any));
        newFdt := startAddrSp;
      }
    }

    method ReserveExceptionStack()
      requires Follows(startAddrSp)
      modifies `startAddrSp, `irqSp, `steps, `placed
      ensures Follows(startAddrSp) && steps == old(steps) + ExceptionSteps(c) && old(placed) <= placed
      ensures !c.spl ==> irqSp == startAddrSp && Placement(ExceptionStack, irqSp, 16) in placed && irqSp % 16 == 0
    {
      if !c.spl {
        ghost var before := startAddrSp;
        startAddrSp := (startAddrSp - 16) % WORD;
        startAddrSp := startAddrSp - startAddrSp % 16;
        Note(before, startAddrSp, Step(ExceptionStack, 16, Bytes16));
        irqSp := startAddrSp;
      }
    }

    method ReserveInterruptStack()
      requires Follows(startAddrSp)
      modifies `startAddrSp, `steps, `placed
      ensures Follows(startAddrSp) && steps == old(steps) + InterruptSteps(c) && old(placed) <= placed
    {
      if !c.spl && c.arm && c.irqStack.Some? {
        ghost var before := startAddrSp;
        startAddrSp := (startAddrSp - c.irqStack.value) % WORD;
        startAddrSp := startAddrSp - startAddrSp % 8;
        Note(before, startAddrSp, Step(InterruptStack, c.irqStack.value, Bytes8));
      }
    }

    method ReserveAbortStack()
      requires Follows(startAddrSp)
      modifies `startAddrSp, `irqSp, `steps, `placed
      ensures Follows(startAddrSp) && steps == old(steps) + AbortSteps(c) && old(placed) <= placed
      ensures if c.arm && c.spl then irqSp == startAddrSp && Placement(AbortStack, irqSp, 128) in placed
              else irqSp == old(irqSp)
    {
      if c.arm {
        ghost var before := startAddrSp;
        var size := if c.spl then 128 else 16;
        startAddrSp := (startAddrSp - size) % WORD;
        Note(before, startAddrSp, Step(AbortStack, size, Any));
        if c.spl {
          irqSp := startAddrSp;
        }
      }
    }

    method ReserveTop()
      requires ramTop < WORD
      modifies `relocaddr, `tlbAddr, `steps, `placed
      ensures Follows(relocaddr) && steps == TopSteps(c)
      ensures c.mmu.Some? ==> Placement(Tlb, tlbAddr, c.mmu.value) in placed && tlbAddr % 0x1_0000 == 0
    {
      SetupDestAddr();
      ReserveLogbuffer();
      assert steps == LogBufferSteps(c);
      ReservePram();
      ReserveRound4k();
      ReserveMmu();
    }

    method ReserveBuffers()
      requires Follows(relocaddr)
      modifies `relocaddr, `fbBase, `traceBuff, `steps, `placed
      ensures Follows(relocaddr) && old(placed) <= placed
      ensures steps == old(steps) + LcdSteps(c) + TraceSteps(c) + VideoSteps(c)
      ensures c.lcd.Some? && c.video.None? ==>
                Placement(Lcd, fbBase, Up(c.lcd.value, LcdAlign(c))) in placed && fbBase % Unit(LcdAlign(c)) == 0
      ensures c.trace.Some? ==> Placement(Trace, traceBuff, c.trace.value) in placed
      ensures c.video.Some? ==> Placement(Video, fbBase, c.video.value) in placed
    {
      ReserveLcd();
      ReserveTrace();
      ReserveVideo();
    }

    method ReserveUpper()
      requires ramTop < WORD
      modifies `relocaddr, `startAddrSp, `tlbAddr, `fbBase, `traceBuff, `steps, `placed
      ensures Follows(startAddrSp) && startAddrSp == relocaddr && steps == UpperSteps(c) && UpperAligned()
      ensures c.mmu.Some? ==> Placement(Tlb, tlbAddr, c.mmu.value) in placed
      ensures c.lcd.Some? && c.video.None? ==> Placement(Lcd, fbBase, Up(c.lcd.value, LcdAlign(c))) in placed
      ensures c.trace.Some? ==> Placement(Trace, traceBuff, c.trace.value) in placed
      ensures c.video.Some? ==> Placement(Video, fbBase, c.video.value) in placed
      ensures Placement(Monitor, relocaddr, c.monLen) in placed
    {
      ReserveTop();
      ReserveBuffers();
      ReserveUboot();
    }

    method ReserveDataAreas()
      requires Follows(startAddrSp) && startAddrSp == relocaddr && steps == UpperSteps(c)
      modifies `startAddrSp, `bd, `newGd, `newFdt, `steps, `placed
      ensures Follows(startAddrSp) && steps == DataSteps(c) && old(placed) <= placed
      ensures !c.spl ==> Placement(Malloc, (relocaddr - c.mallocLen) % WORD, c.mallocLen) in placed
      ensures !c.spl ==> Placement(BoardInfo, bd, c.boardSize) in placed
      ensures Placement(GlobalData, newGd, c.globalSize) in placed
      ensures c.fdt.Some? ==> Placement(DeviceTree, newFdt, FdtSize(c)) in placed
    {
      ReserveMalloc();
      ReserveBoard();
      ReserveGlobalData();
      ReserveFdt();
    }

    method ReserveStacks()
      requires Follows(startAddrSp)
      modifies `startAddrSp, `irqSp, `steps, `placed
      ensures Follows(startAddrSp) && old(placed) <= placed
      ensures steps == old(steps) + ExceptionSteps(c) + InterruptSteps(c) + AbortSteps(c)
      ensures !c.spl ==> Placement(ExceptionStack, irqSp, 16) in placed && irqSp % 16 == 0
      ensures c.spl && c.arm ==> Placement(AbortStack, irqSp, 128) in placed
    {
      ReserveExceptionStack();
      ReserveInterruptStack();
      ReserveAbortStack();
    }

    /** The whole sequence: every address handed on is the place of its user in the layout of these options. */
    method BoardInitF()
      requires ramTop < WORD
      modifies this
      ensures steps == AllSteps(c) && Follows(startAddrSp) && UpperAligned() && (!c.spl ==> irqSp % 16 == 0)
      ensures Placement(Monitor, relocaddr, c.monLen) in placed && Placement(GlobalData, newGd, c.globalSize) in placed
      ensures c.mmu.Some? ==> Placement(Tlb, tlbAddr, c.mmu.value) in placed
      ensures c.lcd.Some? && c.video.None? ==> Placement(Lcd, fbBase, Up(c.lcd.value, LcdAlign(c))) in placed
      ensures c.trace.Some? ==> Placement(Trace, traceBuff, c.trace.value) in placed
      ensures c.video.Some? ==> Placement(Video, fbBase, c.video.value) in placed
      ensures c.fdt.Some? ==> Placement(DeviceTree, newFdt, FdtSize(c)) in placed
      ensures !c.spl ==> Placement(BoardInfo, bd, c.boardSize) in placed && Placement(ExceptionStack, irqSp, 16) in placed
      ensures c.spl && c.arm ==> Placement(AbortStack, irqSp, 128) in placed
      ensures !c.spl ==> Placement(Malloc, (relocaddr - c.mallocLen) % WORD, c.mallocLen) in placed
    {
      ReserveUpper();
      ReserveDataAreas();
      ReserveStacks();
    }

    /** The arena that is handed to the allocator, computed again from the monitor's address. */
    method InitrMalloc() returns (start: nat, length: nat)
      ensures start == (relocaddr - c.mallocLen) % WORD && length == c.mallocLen
    {
      start, length := (relocaddr - c.mallocLen) % WORD, c.mallocLen;
    }

    /** The whole sequence and, after relocation, the arena. If the steps of the options fit below the top of
        RAM, the arena is the one that was reserved, and no two users share memory; all alignments hold in any case. */
    method BootArena() returns (start: nat, length: nat)
      requires ramTop < WORD && !c.spl
      modifies this
      ensures steps == AllSteps(c) && ArenaReserved(Base(c, ramTop), steps, placed, start, length)
      ensures UpperAligned() && irqSp % 16 == 0
    {
      BoardInitF();
      start, length := InitrMalloc();
      ArenaFollows(Base(c, ramTop), steps, placed, start, length);
    }
  }
}
