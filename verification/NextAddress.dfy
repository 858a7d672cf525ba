/**
 The next-address predictor of BedBug against the branch instructions of the PowerPC: section 2.4 (Branch
 Instructions) of Book I of the Power ISA.
 */
module NextAddress {
  import opened Bytes
  import opened Bits
  import opened BedBug

  datatype Registers = Registers(nip: nat, ctr: nat, cr: nat, lr: nat)

  ghost predicate Words(r: Registers) { r.nip < WORD && r.ctr < WORD && r.cr < WORD && r.lr < WORD }

  /** The entry of the opcode table found for an instruction, as far as branches are told apart. */
  datatype Form = Bc | B | Bcctr | Bclr | NoBranch

  // The operand table, include/bedbug/tables.h.
  const AA := Operand(1, 1, 1, Plain, true)
  const BD := Operand(2, 14, 2, Address, false)
  const BI := Operand(3, 5, 16, Plain, false)
  const BO := Operand(4, 5, 21, Plain, false)
  const LI := Operand(14, 24, 2, Address, false)
  const LK := Operand(15, 1, 0, Plain, true)

  // ----- the architecture -----

  /** The primary opcode is the top six bits, the extended opcode bits 21 to 30. */
  function FormOf(instr: nat): Form
  {
    var opcd, xo := instr / 0x400_0000, instr / 2 % 1024;
    if opcd == 16 then Bc
    else if opcd == 18 then B
    else if opcd == 19 && xo == 16 then Bclr
    else if opcd == 19 && xo == 528 then Bcctr
    else NoBranch
  }

  /** The current instruction address. */
  function Cia(r: Registers): nat { r.nip - r.nip % 4 }

  function Aligned(a: nat): nat { a - a % 4 }

  /** BO, bit `i` counted from the left. */
  function Bo(instr: nat, i: nat): nat
    requires i < 5
  {
    instr / 0x20_0000 % 32 / [16, 8, 4, 2, 1][i] % 2
  }

  predicate CtrOk(instr: nat, r: Registers)
  {
    Bo(instr, 2) == 1 || ((r.ctr - 1) % WORD != 0) != (Bo(instr, 3) == 1)
  }

  predicate CondOk(instr: nat, r: Registers)
  {
    Bo(instr, 0) == 1 || CrBit(r.cr, instr / 0x1_0000 % 32) == Bo(instr, 1)
  }

  /** Condition register bit, counted from the left. */
  function CrBit(cr: nat, bi: nat): nat
    requires bi < 32
  {
    Bit(cr, 31 - bi)
  }

  predicate Taken(instr: nat, r: Registers)
  {
    match FormOf(instr)
    case B => true
    case Bc => CtrOk(instr, r) && CondOk(instr, r)
    case Bclr => CtrOk(instr, r) && CondOk(instr, r)
    case Bcctr => CondOk(instr, r)
    case NoBranch => false
  }

  /** A field of `limit` values whose low two bits are AA and LK, cleared, and whose top bit is a sign. */
  function SignExtended(instr: nat, limit: nat): int
    requires limit > 0
  {
    var f := instr % limit;
    f - instr % 4 - if f >= limit / 2 then limit else 0
  }

  function Target(instr: nat, r: Registers): int
  {
    var base := if instr / 2 % 2 == 1 then 0 else Cia(r);
    match FormOf(instr)
    case B => (base + SignExtended(instr, 0x400_0000)) % WORD
    case Bc => (base + SignExtended(instr, 0x1_0000)) % WORD
    case Bclr => Aligned(r.lr)
    case Bcctr => Aligned(r.ctr)
    case NoBranch => 0
  }

  /** The next instruction address. */
  function Nia(instr: nat, r: Registers): int
  {
    if Taken(instr, r) then Target(instr, r) else (Cia(r) + 4) % WORD
  }

  /** A branch to the count register may not also count. */
  predicate ValidForm(instr: nat) { FormOf(instr) == Bcctr ==> Bo(instr, 2) == 1 }

  // ----- the predictor -----

  /** The bits that the BO encodings call `z` are zero. */
  predicate ZClear(instr: nat)
  {
    && (Bo(instr, 2) == 1 ==> Bo(instr, 3) == 0)
    && (Bo(instr, 0) == 1 ==> Bo(instr, 1) == 0)
  }

  lemma Doubled(x: nat, h: nat, p: nat, q: nat, t: nat, b: nat)
    requires x == 2 * h + b && h == p * q + t && t < p && b < 2
    ensures x / (2 * p) == q && x % (2 * p) == 2 * t + b
  {
    assert 2 * (p * q) == 2 * p * q;
    DivModUnique(x, 2 * p, q, 2 * t + b);
  }

  lemma Halved(x: nat, p: nat)
    requires p > 0
    ensures x / (2 * p) == x / 2 / p && x % (2 * p) == 2 * (x / 2 % p) + x % 2
  {
    DivMod(x / 2, p);
    Doubled(x, x / 2, p, x / 2 / p, x / 2 % p, x % 2);
  }

  lemma {:induction false} LowIsMod(x: nat, n: nat)
    ensures Low(x, n) == x % Pow2(n)
    decreases n
  {
    if n > 0 {
      LowIsMod(x / 2, n - 1);
      Halved(x, Pow2(n - 1));
    }
  }

  lemma {:induction false} ShrIsDiv(x: nat, s: nat)
    ensures Shr(x, s) == x / Pow2(s)
    decreases s
  {
    if s > 0 {
      ShrIsDiv(x / 2, s - 1);
      Halved(x, Pow2(s - 1));
    }
  }

  lemma Powers()
    ensures Pow2(0) == 1 && Pow2(1) == 2 && Pow2(2) == 4 && Pow2(5) == 32 && Pow2(13) == 8192 && Pow2(14) == 16384
    ensures Pow2(16) == 0x1_0000 && Pow2(21) == 0x20_0000 && Pow2(23) == 0x80_0000 && Pow2(24) == 0x100_0000
  {
    assert Pow2(4) == 16 && Pow2(8) == 256 by { assert Pow2(6) == 64; }
    assert Pow2(12) == 4096 by { assert Pow2(10) == 1024; }
    assert Pow2(16) == 65536;
    assert Pow2(20) == 0x10_0000 by { assert Pow2(18) == 0x4_0000; }
  }

  lemma Fields(instr: nat)
    ensures Extract(AA, instr) == instr / 2 % 2 && Extract(LK, instr) == instr % 2
    ensures Extract(BO, instr) == instr / 0x20_0000 % 32 && Extract(BI, instr) == instr / 0x1_0000 % 32
    ensures Extract(BD, instr) == instr / 4 % 16384 && Extract(LI, instr) == instr / 4 % 0x100_0000
  {
    Powers();
    ShrIsDiv(instr, 0);
    ShrIsDiv(instr, 1);
    ShrIsDiv(instr, 2);
    ShrIsDiv(instr, 16);
    ShrIsDiv(instr, 21);
    LowIsMod(instr, 1);
    LowIsMod(instr / 2, 1);
    LowIsMod(instr / 4, 14);
    LowIsMod(instr / 4, 24);
    LowIsMod(instr / 0x1_0000, 5);
    LowIsMod(instr / 0x20_0000, 5);
  }

  lemma Quartered(x: nat, p: nat)
    requires p > 0
    ensures 4 * (x / 4 % p) == x % (4 * p) - x % 4
  {
    DivMod(x / 4, p);
    var q, t := x / 4 / p, x / 4 % p;
    assert x == 4 * (p * q + t) + x % 4;
    assert 4 * (p * q) == 4 * p * q;
    DivModUnique(x, 4 * p, q, 4 * t + x % 4);
  }

  lemma Displacement(o: Operand, instr: nat, limit: nat)
    requires (o == BD && limit == 0x1_0000) || (o == LI && limit == 0x400_0000)
    ensures DecodeAddress(o.bits, Extract(o, instr)) == SignExtended(instr, limit)
  {
    Fields(instr);
    Powers();
    Quartered(instr, if o == BD then 16384 else 0x100_0000);
    TopBit(Extract(o, instr), o.bits - 1);
  }

  /** What the predictor takes the branch to be: it knows the BO encodings with clear `z` bits only. */
  predicate Goes(instr: nat, r: Registers)
  {
    match FormOf(instr)
    case B => true
    case NoBranch => false
    case _ => ZClear(instr) && CtrOk(instr, r) && CondOk(instr, r)
  }

  /** Register targets are used as they are. */
  function Goal(instr: nat, r: Registers): int
  {
    match FormOf(instr)
    case Bclr => r.lr
    case Bcctr => r.ctr
    case _ => Target(instr, r)
  }

  method Conditions(bo: nat, bi: nat, r: Registers, ghost instr: nat) returns (ok: bool)
    requires bo == instr / 0x20_0000 % 32 && bi == instr / 0x1_0000 % 32
    ensures ok == (ZClear(instr) && CtrOk(instr, r) && CondOk(instr, r))
  {
    var ctrOk, condOk := false, false;
    var ctr := (r.ctr - 1) % WORD;
    var bit := Bit(r.cr, 31 - bi) == 1;
    match bo / 2 {
      case 0 => ctrOk, condOk := ctr != 0, !bit;
      case 1 => ctrOk, condOk := ctr == 0, !bit;
      case 2 => ctrOk, condOk := true, !bit;
      case 4 => ctrOk, condOk := ctr != 0, bit;
      case 5 => ctrOk, condOk := ctr == 0, bit;
      case 6 => ctrOk, condOk := true, bit;
      case 8 => ctrOk, condOk := ctr != 0, ctr != 0;
      case 9 => ctrOk, condOk := ctr == 0, ctr == 0;
      case 10 => ctrOk, condOk := true, true;
      case _ =>
    }
    ok := ctrOk && condOk;
  }

  predicate Conditional(instr: nat) { FormOf(instr) in {Bc, Bclr, Bcctr} }

  /** The register a branch goes to is word aligned. */
  predicate AlignedGoal(instr: nat, r: Registers)
  {
    match FormOf(instr)
    case Bclr => r.lr % 4 == 0
    case Bcctr => r.ctr % 4 == 0
    case _ => true
  }

  /** The operands the branch needs: its address, and whether that is absolute. */
  method Operands(form: Form, instr: nat, r: Registers) returns (addr: int, aa: bool)
    requires form == FormOf(instr) && form != NoBranch && Words(r)
    ensures (addr + if aa then 0 else Cia(r)) % WORD == Goal(instr, r)
  {
    Fields(instr);
    match form {
      case Bc =>
        Displacement(BD, instr, 0x1_0000);
        addr, aa := DecodeAddress(14, Extract(BD, instr)), Extract(AA, instr) == 1;
      case B =>
        Displacement(LI, instr, 0x400_0000);
        addr, aa := DecodeAddress(24, Extract(LI, instr)), Extract(AA, instr) == 1;
      case Bcctr => addr, aa := r.ctr, true;
      case Bclr => addr, aa := r.lr, true;
    }
  }

  /** Stepping finds the architected next instruction exactly if a taken branch has clear `z` bits and an
      aligned target, or goes to the next instruction anyway. Stepping over differs for linking branches
      only. */
  method FindNextAddress(form: Form, instr: nat, r: Registers, stepOver: bool) returns (address: int)
    requires form == FormOf(instr) && Words(r)
    ensures !stepOver && ValidForm(instr) ==>
              (address == Nia(instr, r) <==>
                || !Taken(instr, r)
                || (if Conditional(instr) && !ZClear(instr) then Target(instr, r) == (Cia(r) + 4) % WORD
                    else AlignedGoal(instr, r)))
    ensures !stepOver ==> address == if Goes(instr, r) then Goal(instr, r) else (Cia(r) + 4) % WORD
    ensures stepOver ==>
              address == if Goes(instr, r) && instr % 2 == 0 then Goal(instr, r) else (Cia(r) + 4) % WORD
  {
    var pc := r.nip - r.nip % 4;
    var goes := form != NoBranch;
    if form in {Bc, Bclr, Bcctr} {
      Fields(instr);
      goes := Conditions(Extract(BO, instr), Extract(BI, instr), r, instr);
    }
    var step, next := (pc + 4) % WORD, (pc + 4) % WORD;
    if goes {
      var addr, aa := Operands(form, instr, r);
      step := (addr + if aa then 0 else pc) % WORD;
      Fields(instr);
      if Extract(LK, instr) == 0 {
        next := step;
      }
    }
    address := if stepOver then next else step;
  }

  /** `bc 22,0,+16` branches always, but one of its ignored bits is set and the predictor misses it. */
  lemma ZBitMissed(r: Registers)
    requires Words(r) && r.nip == 0x1000
    ensures var instr := 0x42C0_0010;
            FormOf(instr) == Bc && Nia(instr, r) == 0x1010 && !Goes(instr, r)
  {
    var instr := 0x42C0_0010;
    assert instr / 0x400_0000 == 16 && instr / 0x20_0000 % 32 == 22 && instr / 2 % 2 == 0;
    assert [16, 8, 4, 2, 1][0] == 16 && [16, 8, 4, 2, 1][2] == 4 && [16, 8, 4, 2, 1][3] == 2;
    assert instr % 0x1_0000 == 16;
  }
}
