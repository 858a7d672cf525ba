/**
 The BedBug assembler and disassembler: packing operands into a 32-bit PowerPC instruction word and taking
 them out again. The opcode is the one looked up in the table; an operand's text is given by the number read
 from it.
 */
module BedBug {
  import opened Bytes
  import opened Bits

  // ----- bits of a word -----

  function Bit(w: nat, k: nat): (b: nat)
    ensures b <= 1
  {
    if k == 0 then w % 2 else Bit(w / 2, k - 1)
  }

  function Shl(x: nat, s: nat): nat { if s == 0 then x else 2 * Shl(x, s - 1) }

  function Shr(x: nat, s: nat): nat { if s == 0 then x else Shr(x / 2, s - 1) }

  /** `x & ((1 << n) - 1)`. */
  function Low(x: nat, n: nat): nat { if n == 0 then 0 else x % 2 + 2 * Low(x / 2, n - 1) }

  function And(a: nat, b: nat): nat
  {
    if a == 0 then 0 else (a % 2) * (b % 2) + 2 * And(a / 2, b / 2)
  }

  lemma {:induction false} BitZero(k: nat)
    ensures Bit(0, k) == 0
  {
    if k > 0 {
      BitZero(k - 1);
    }
  }

  lemma OrHalves(a: nat, b: nat)
    ensures Or(a, b) / 2 == Or(a / 2, b / 2) && Or(a, b) % 2 == if a % 2 == 1 || b % 2 == 1 then 1 else 0
  {
  }

  lemma {:induction false} BitOr(a: nat, b: nat, k: nat)
    ensures Bit(Or(a, b), k) == if Bit(a, k) == 1 || Bit(b, k) == 1 then 1 else 0
    decreases k
  {
    OrHalves(a, b);
    if k > 0 {
      BitOr(a / 2, b / 2, k - 1);
    }
  }

  lemma {:induction false} BitAnd(a: nat, b: nat, k: nat)
    ensures Bit(And(a, b), k) == if Bit(a, k) == 1 && Bit(b, k) == 1 then 1 else 0
    decreases k
  {
    if a == 0 {
      BitZero(k);
    } else if k > 0 {
      BitAnd(a / 2, b / 2, k - 1);
      assert And(a, b) / 2 == And(a / 2, b / 2);
    }
  }

  lemma {:induction false} BitShl(x: nat, s: nat, k: nat)
    ensures Bit(Shl(x, s), k) == if k < s then 0 else Bit(x, k - s)
    decreases k
  {
    if s > 0 && k > 0 {
      BitShl(x, s - 1, k - 1);
    }
  }

  lemma {:induction false} BitShr(x: nat, s: nat, k: nat)
    ensures Bit(Shr(x, s), k) == Bit(x, k + s)
    decreases s
  {
    if s > 0 {
      BitShr(x / 2, s - 1, k);
    }
  }

  lemma {:induction false} BitLow(x: nat, n: nat, k: nat)
    ensures Bit(Low(x, n), k) == if k < n then Bit(x, k) else 0
    decreases k
  {
    if n == 0 {
      BitZero(k);
    } else if k > 0 {
      BitLow(x / 2, n - 1, k - 1);
    }
  }

  /** Numbers with the same bits are equal. */
  lemma {:induction false} SameBits(x: nat, y: nat)
    requires forall k: nat :: Bit(x, k) == Bit(y, k)
    ensures x == y
    decreases x + y
  {
    assert Bit(x, 0) == Bit(y, 0);
    if x + y > 0 {
      forall k: nat ensures Bit(x / 2, k) == Bit(y / 2, k) {
        assert Bit(x, k + 1) == Bit(y, k + 1);
      }
      SameBits(x / 2, y / 2);
    }
  }

  lemma {:induction false} LowSmall(x: nat, n: nat)
    requires x < Pow2(n)
    ensures Low(x, n) == x
    decreases n
  {
    if n > 0 {
      LowSmall(x / 2, n - 1);
    }
  }

  lemma {:induction false} TopBit(x: nat, n: nat)
    requires x < Pow2(n + 1)
    ensures Bit(x, n) == 1 <==> x >= Pow2(n)
    decreases n
  {
    if n > 0 {
      TopBit(x / 2, n - 1);
    }
  }

  // ----- one field -----

  datatype Kind = Address | Register | Spr | Tbr | Plain

  /** `bits` wide, `shift` places from the right. Silent operands are covered by the opcode itself. */
  datatype Operand = Operand(id: nat, bits: nat, shift: nat, kind: Kind, silent: bool)

  datatype Opcode = Opcode(value: nat, mask: nat, fields: seq<Operand>, relative: bool)

  predicate InWord(o: Operand)
  {
    o.bits <= 30 && o.bits + o.shift <= 32 && (if o.kind == Address then 1 <= o.bits else o.bits <= 16)
  }

  function Place(o: Operand, data: nat): nat { Shl(Low(data, o.bits), o.shift) }

  function Extract(o: Operand, instr: nat): nat { Low(Shr(instr, o.shift), o.bits) }

  predicate Covers(o: Operand, k: nat) { o.shift <= k < o.shift + o.bits }

  lemma PlaceBits(o: Operand, data: nat, k: nat)
    ensures Bit(Place(o, data), k) == if Covers(o, k) then Bit(data, k - o.shift) else 0
  {
    BitShl(Low(data, o.bits), o.shift, k);
    if k >= o.shift {
      BitLow(data, o.bits, k - o.shift);
    }
  }

  /** Only the field's own bits matter to what is extracted. */
  lemma ExtractBits(o: Operand, data: nat, instr: nat)
    requires forall k: nat | Covers(o, k) :: Bit(instr, k) == Bit(data, k - o.shift)
    ensures Extract(o, instr) == Low(data, o.bits)
  {
    forall k: nat ensures Bit(Extract(o, instr), k) == Bit(Low(data, o.bits), k) {
      BitLow(Shr(instr, o.shift), o.bits, k);
      BitShr(instr, o.shift, k);
      BitLow(data, o.bits, k);
      assert k < o.bits ==> Covers(o, k + o.shift);
    }
    SameBits(Extract(o, instr), Low(data, o.bits));
  }

  // ----- addresses -----

  function Signed(w: int): (d: int)
    requires 0 <= w < WORD
    ensures -WORD / 2 <= d < WORD / 2
  {
    if w < WORD / 2 then w else w - WORD
  }

  /** `parse_operand` on an address `d` bytes away. */
  function EncodeAddress(bits: nat, d: int): nat
    requires 1 <= bits
  {
    var data := d / 4 % Pow2(bits - 1);
    if d < 0 then Or(Pow2(bits - 1), data) else data
  }

  /** `print_operands` on an address field. */
  function DecodeAddress(bits: nat, field: nat): int
    requires 1 <= bits
  {
    4 * if Bit(field, bits - 1) == 1 then field - Pow2(bits) else field
  }

  lemma EncodedValue(bits: nat, d: int)
    requires 1 <= bits
    ensures EncodeAddress(bits, d) == d / 4 % Pow2(bits - 1) + (if d < 0 then Pow2(bits - 1) else 0)
    ensures EncodeAddress(bits, d) < Pow2(bits)
  {
    var p, data := Pow2(bits - 1), d / 4 % Pow2(bits - 1);
    OrDisjoint(1, data, bits - 1);
    assert 1 * p == p;
  }

  lemma RemainderSame(q: int, p: nat)
    requires p > 0
    ensures q % p == q <==> 0 <= q < p
    ensures q % p == q + p <==> 0 <= q + p < p
  {
    if 0 <= q < p {
      SmallMod(q, p);
    }
    if 0 <= q + p < p {
      DivModUnique(q, p, -1, q + p);
    }
  }

  /** An address comes back exactly if it is word aligned and within reach of the field. */
  lemma AddressBack(bits: nat, d: int)
    requires 1 <= bits
    ensures Low(EncodeAddress(bits, d), bits) == EncodeAddress(bits, d)
    ensures DecodeAddress(bits, EncodeAddress(bits, d)) == d <==>
            d % 4 == 0 && 0 <= d + Pow2(bits + 1) < 2 * Pow2(bits + 1)
  {
    var p, q, e := Pow2(bits - 1), d / 4, EncodeAddress(bits, d);
    EncodedValue(bits, d);
    LowSmall(e, bits);
    TopBit(e, bits - 1);
    RemainderSame(q, p);
    assert Pow2(bits) == 2 * p && Pow2(bits + 1) == 4 * p;
  }

  // ----- the operand loop of the assembler -----

  datatype Error = BadRegister | BadSpr | BadTbr | NumOperands

  datatype Outcome = Word(instr: nat) | Failed(error: Error)

  /** Relative addresses count from the instruction. */
  function Origin(op: Opcode, memaddr: nat): nat { if op.relative then memaddr else 0 }

  function Distance(op: Opcode, memaddr: nat, n: nat): int { Signed((n - Origin(op, memaddr)) % WORD) }

  /** What `parse_operand` puts into the field for the number `n`. */
  function Data(op: Opcode, memaddr: nat, o: Operand, n: nat): nat
    requires InWord(o)
  {
    if o.kind == Address then EncodeAddress(o.bits, Distance(op, memaddr, n)) else n
  }

  /** Numbers are 32-bit words; a register number is compared as a signed one. */
  function Refused(o: Operand, n: nat): seq<Error>
  {
    match o.kind
    case Register => if 31 < n < WORD / 2 then [BadRegister] else []
    case Spr => if n == 0 then [BadSpr] else []
    case Tbr => if n == 0 then [BadTbr] else []
    case _ => []
  }

  predicate InWords(op: Opcode) { forall o | o in op.fields :: InWord(o) }

  /** The operands from field `i` on, with the numbers from `j` on, added to `w`. */
  function Asm(op: Opcode, memaddr: nat, ns: seq<nat>, i: nat, j: nat, w: nat): Outcome
    requires InWords(op) && i <= |op.fields|
    decreases |op.fields| - i
  {
    if i == |op.fields| then Word(w)
    else
      var o := op.fields[i];
      if o.silent then Asm(op, memaddr, ns, i + 1, j, w)
      else if j >= |ns| then Failed(NumOperands)
      else if Refused(o, ns[j]) != [] then Failed(Refused(o, ns[j])[0])
      else Asm(op, memaddr, ns, i + 1, j + 1, Or(w, Place(o, Data(op, memaddr, o, ns[j]))))
  }

  function Assembled(op: Opcode, memaddr: nat, ns: seq<nat>): Outcome
    requires InWords(op)
  {
    Asm(op, memaddr, ns, 0, 0, op.value)
  }

  method ParseOperand(op: Opcode, memaddr: nat, o: Operand, n: nat) returns (param: nat, error: seq<Error>)
    requires InWord(o)
    ensures error == Refused(o, n) && (error == [] ==> param == Place(o, Data(op, memaddr, o, n)))
  {
    error := [];
    var data := n;
    if o.kind == Address {
      var d := Signed((if op.relative then n - memaddr else n) % WORD);
      data := d / 4 % Pow2(o.bits - 1);
      if d < 0 {
        data := Or(Pow2(o.bits - 1), data);
      }
    } else if o.kind == Register {
      if 31 < n < WORD / 2 {
        return 0, [BadRegister];
      }
    } else if o.kind == Spr {
      if n == 0 {
        return 0, [BadSpr];
      }
    } else if o.kind == Tbr {
      if n == 0 {
        return 0, [BadTbr];
      }
    }
    param := Shl(Low(data, o.bits), o.shift);
  }

  method Asmppc(op: Opcode, memaddr: nat, ns: seq<nat>) returns (r: Outcome)
    requires InWords(op)
    ensures r == Assembled(op, memaddr, ns)
  {
    var instr, i, j := op.value, 0, 0;
    while i < |op.fields|
      invariant 0 <= i <= |op.fields| && 0 <= j
      invariant Asm(op, memaddr, ns, i, j, instr) == Assembled(op, memaddr, ns)
    {
      var o := op.fields[i];
      if !o.silent {
        if j >= |ns| {
          return Failed(NumOperands);
        }
        var param, error := ParseOperand(op, memaddr, o, ns[j]);
        if error != [] {
          return Failed(error[0]);
        }
        instr, j := Or(instr, param), j + 1;
      }
      i := i + 1;
    }
    r := Word(instr);
  }

  // ----- packing inverts -----

  /** How many operands before field `i` are spoken. */
  function Spoken(fields: seq<Operand>, i: nat): nat
    requires i <= |fields|
  {
    if i == 0 then 0 else Spoken(fields, i - 1) + if fields[i - 1].silent then 0 else 1
  }

  /** Spoken fields overlap neither another field nor the opcode's own bits. */
  ghost predicate WellFormed(op: Opcode)
  {
    && InWords(op)
    && (forall k: nat :: Bit(op.mask, k) == 0 ==> Bit(op.value, k) == 0)
    && (forall i, k: nat | 0 <= i < |op.fields| && !op.fields[i].silent && Covers(op.fields[i], k) ::
          Bit(op.mask, k) == 0)
    && (forall i, j, k: nat | 0 <= i < |op.fields| && 0 <= j < |op.fields| && i != j && !op.fields[i].silent &&
          Covers(op.fields[i], k) :: !Covers(op.fields[j], k))
  }

  predicate Untouched(op: Opcode, i: nat, k: nat)
  {
    forall m | i <= m < |op.fields| && !op.fields[m].silent :: !Covers(op.fields[m], k)
  }

  lemma {:induction false} BitKept(op: Opcode, memaddr: nat, ns: seq<nat>, i: nat, j: nat, w: nat, k: nat)
    requires InWords(op) && i <= |op.fields| && Asm(op, memaddr, ns, i, j, w).Word? && Untouched(op, i, k)
    ensures Bit(Asm(op, memaddr, ns, i, j, w).instr, k) == Bit(w, k)
    decreases |op.fields| - i
  {
    if i < |op.fields| {
      var o := op.fields[i];
      if o.silent {
        BitKept(op, memaddr, ns, i + 1, j, w, k);
      } else {
        var p := Place(o, Data(op, memaddr, o, ns[j]));
        BitKept(op, memaddr, ns, i + 1, j + 1, Or(w, p), k);
        BitOr(w, p, k);
        PlaceBits(o, Data(op, memaddr, o, ns[j]), k);
      }
    }
  }

  /** There was a number for every spoken field, and none was refused. */
  lemma {:induction false} NumberRead(op: Opcode, memaddr: nat, ns: seq<nat>, i: nat, w: nat, m: nat)
    requires InWords(op) && i <= m < |op.fields| && !op.fields[m].silent
    requires Asm(op, memaddr, ns, i, Spoken(op.fields, i), w).Word?
    ensures Spoken(op.fields, m) < |ns| && Refused(op.fields[m], ns[Spoken(op.fields, m)]) == []
    decreases |op.fields| - i
  {
    var o, j := op.fields[i], Spoken(op.fields, i);
    assert Spoken(op.fields, i + 1) == j + if o.silent then 0 else 1;
    if i < m {
      var w' := if o.silent then w else Or(w, Place(o, Data(op, memaddr, o, ns[j])));
      NumberRead(op, memaddr, ns, i + 1, w', m);
    }
  }

  lemma {:induction false} BitPlaced(op: Opcode, memaddr: nat, ns: seq<nat>, i: nat, w: nat, m: nat, k: nat)
    requires WellFormed(op) && i <= m < |op.fields| && !op.fields[m].silent && Covers(op.fields[m], k)
    requires Asm(op, memaddr, ns, i, Spoken(op.fields, i), w).Word? && Bit(w, k) == 0
    requires Spoken(op.fields, m) < |ns|
    ensures Bit(Asm(op, memaddr, ns, i, Spoken(op.fields, i), w).instr, k)
         == Bit(Data(op, memaddr, op.fields[m], ns[Spoken(op.fields, m)]), k - op.fields[m].shift)
    decreases |op.fields| - i
  {
    var o, j := op.fields[i], Spoken(op.fields, i);
    assert Spoken(op.fields, i + 1) == j + if o.silent then 0 else 1;
    if o.silent {
      BitPlaced(op, memaddr, ns, i + 1, w, m, k);
    } else {
      var d := Data(op, memaddr, o, ns[j]);
      var w' := Or(w, Place(o, d));
      BitOr(w, Place(o, d), k);
      PlaceBits(o, d, k);
      if i < m {
        BitPlaced(op, memaddr, ns, i + 1, w', m, k);
      } else {
        BitKept(op, memaddr, ns, i + 1, j + 1, w', k);
      }
    }
  }

  /** The assembled word matches its opcode, keeps the silent fields of the opcode, and holds what was encoded
      in every spoken field. */
  lemma Packed(op: Opcode, memaddr: nat, ns: seq<nat>, m: nat)
    requires WellFormed(op) && Assembled(op, memaddr, ns).Word? && m < |op.fields|
    ensures And(Assembled(op, memaddr, ns).instr, op.mask) == op.value
    ensures op.fields[m].silent ==>
              Extract(op.fields[m], Assembled(op, memaddr, ns).instr) == Extract(op.fields[m], op.value)
    ensures !op.fields[m].silent ==>
              && Spoken(op.fields, m) < |ns|
              && Extract(op.fields[m], Assembled(op, memaddr, ns).instr)
              == Low(Data(op, memaddr, op.fields[m], ns[Spoken(op.fields, m)]), op.fields[m].bits)
  {
    MatchesOpcode(op, memaddr, ns);
    if op.fields[m].silent {
      SilentKept(op, memaddr, ns, m);
    } else {
      FieldPacked(op, memaddr, ns, m);
    }
  }

  lemma MatchesOpcode(op: Opcode, memaddr: nat, ns: seq<nat>)
    requires WellFormed(op) && Assembled(op, memaddr, ns).Word?
    ensures And(Assembled(op, memaddr, ns).instr, op.mask) == op.value
  {
    var w := Assembled(op, memaddr, ns).instr;
    forall k: nat ensures Bit(And(w, op.mask), k) == Bit(op.value, k) {
      BitAnd(w, op.mask, k);
      if Bit(op.mask, k) != 0 {
        BitKept(op, memaddr, ns, 0, 0, op.value, k);
      }
    }
    SameBits(And(w, op.mask), op.value);
  }

  lemma SilentKept(op: Opcode, memaddr: nat, ns: seq<nat>, m: nat)
    requires WellFormed(op) && Assembled(op, memaddr, ns).Word? && m < |op.fields| && op.fields[m].silent
    ensures Extract(op.fields[m], Assembled(op, memaddr, ns).instr) == Extract(op.fields[m], op.value)
  {
    var o, w := op.fields[m], Assembled(op, memaddr, ns).instr;
    var data := Shr(op.value, o.shift);
    forall k: nat | Covers(o, k) ensures Bit(w, k) == Bit(data, k - o.shift) {
      BitShr(op.value, o.shift, k - o.shift);
      BitKept(op, memaddr, ns, 0, 0, op.value, k);
    }
    ExtractBits(o, data, w);
  }

  lemma FieldPacked(op: Opcode, memaddr: nat, ns: seq<nat>, m: nat)
    requires WellFormed(op) && Assembled(op, memaddr, ns).Word? && m < |op.fields| && !op.fields[m].silent
    ensures Spoken(op.fields, m) < |ns| && Refused(op.fields[m], ns[Spoken(op.fields, m)]) == []
    ensures Extract(op.fields[m], Assembled(op, memaddr, ns).instr)
         == Low(Data(op, memaddr, op.fields[m], ns[Spoken(op.fields, m)]), op.fields[m].bits)
  {
    var o, w := op.fields[m], Assembled(op, memaddr, ns).instr;
    NumberRead(op, memaddr, ns, 0, op.value, m);
    var n := ns[Spoken(op.fields, m)];
    var d := Data(op, memaddr, o, n);
    forall k: nat | Covers(o, k) ensures Bit(w, k) == Bit(d, k - o.shift) {
      BitPlaced(op, memaddr, ns, 0, op.value, m, k);
    }
    ExtractBits(o, d, w);
  }

  // ----- the operand loop of the disassembler -----

  /** The number shown for an operand of the instruction at `virtual`. */
  function Shown(op: Opcode, virtual: nat, o: Operand, instr: nat): nat
    requires InWord(o)
  {
    if o.kind == Address then (DecodeAddress(o.bits, Extract(o, instr)) + Origin(op, virtual)) % WORD
    else Low(Extract(o, instr), 16)
  }

  function ShownFrom(op: Opcode, virtual: nat, instr: nat, i: nat): seq<nat>
    requires InWords(op) && i <= |op.fields|
    decreases |op.fields| - i
  {
    if i == |op.fields| then []
    else (if op.fields[i].silent then [] else [Shown(op, virtual, op.fields[i], instr)])
         + ShownFrom(op, virtual, instr, i + 1)
  }

  method ShowOperand(op: Opcode, virtual: nat, o: Operand, instr: nat) returns (operand: int)
    requires InWord(o)
    ensures operand == Shown(op, virtual, o, instr)
  {
    operand := Low(Shr(instr, o.shift), o.bits);
    if o.kind == Address {
      if Bit(operand, o.bits - 1) == 1 {
        operand := operand - Pow2(o.bits);
      }
      operand := (operand * 4 + if op.relative then virtual else 0) % WORD;
    } else {
      operand := Low(operand, 16);
    }
  }

  lemma ShownStep(shown: seq<nat>, op: Opcode, virtual: nat, instr: nat, i: nat)
    requires InWords(op) && i < |op.fields|
    ensures var next := if op.fields[i].silent then shown else shown + [Shown(op, virtual, op.fields[i], instr)];
            shown + ShownFrom(op, virtual, instr, i) == next + ShownFrom(op, virtual, instr, i + 1)
  {
  }

  method PrintOperands(op: Opcode, virtual: nat, instr: nat) returns (shown: seq<nat>)
    requires InWords(op)
    ensures shown == ShownFrom(op, virtual, instr, 0)
  {
    shown := [];
    ghost var all := ShownFrom(op, virtual, instr, 0);
    for i := 0 to |op.fields|
      invariant shown + ShownFrom(op, virtual, instr, i) == all
    {
      ShownStep(shown, op, virtual, instr, i);
      if !op.fields[i].silent {
        var operand := ShowOperand(op, virtual, op.fields[i], instr);
        shown := shown + [operand];
      }
    }
  }

  method GetOperandValue(op: Opcode, instr: nat, id: nat) returns (found: bool, value: nat)
    ensures found <==> exists o :: o in op.fields && o.id == id
    ensures found ==> exists m :: 0 <= m < |op.fields| && op.fields[m].id == id && value == Extract(op.fields[m], instr)
                               && forall m' | 0 <= m' < m :: op.fields[m'].id != id
  {
    for i := 0 to |op.fields|
      invariant forall m | 0 <= m < i :: op.fields[m].id != id
    {
      if op.fields[i].id == id {
        return true, Low(Shr(instr, op.fields[i].shift), op.fields[i].bits);
      }
    }
    return false, 0;
  }

  // ----- assembling and disassembling -----

  /** The field can hold the number. */
  predicate Fits(op: Opcode, memaddr: nat, o: Operand, n: nat)
  {
    if o.kind == Address then
      var d := Distance(op, memaddr, n);
      d % 4 == 0 && 0 <= d + Pow2(o.bits + 1) < 2 * Pow2(o.bits + 1)
    else n < Pow2(o.bits)
  }

  lemma {:induction false} LowBound(x: nat, n: nat)
    ensures Low(x, n) < Pow2(n)
    decreases n
  {
    if n > 0 {
      LowBound(x / 2, n - 1);
    }
  }

  lemma {:induction false} Pow2Monotone(a: nat, b: nat)
    requires a <= b
    ensures Pow2(a) <= Pow2(b)
    decreases b
  {
    if a < b {
      Pow2Monotone(a, b - 1);
    }
  }

  lemma FiveDoublings(n: nat)
    ensures Pow2(n + 5) == 32 * Pow2(n)
  {
    assert Pow2(n + 2) == 4 * Pow2(n);
    assert Pow2(n + 4) == 4 * Pow2(n + 2);
  }

  lemma QuarterWord()
    ensures Pow2(30) == WORD / 4
  {
    FiveDoublings(0);
    FiveDoublings(5);
    FiveDoublings(10);
    FiveDoublings(15);
    FiveDoublings(20);
    FiveDoublings(25);
  }

  /** A decoded address is a signed word. */
  lemma DecodedRange(bits: nat, e: nat)
    requires 1 <= bits <= 30 && e < Pow2(bits)
    ensures -WORD / 2 <= DecodeAddress(bits, e) < WORD / 2
  {
    TopBit(e, bits - 1);
    Pow2Monotone(bits, 30);
    QuarterWord();
  }

  lemma SameSigned(v: int, d: int, origin: nat, n: nat)
    requires -WORD / 2 <= v < WORD / 2 && n < WORD && origin < WORD && d == Signed((n - origin) % WORD)
    ensures (v + origin) % WORD == n <==> v == d
  {
  }

  lemma AddressShown(bits: nat, origin: nat, n: nat, d: int)
    requires 1 <= bits <= 30 && n < WORD && origin < WORD && d == Signed((n - origin) % WORD)
    ensures (DecodeAddress(bits, EncodeAddress(bits, d)) + origin) % WORD == n <==>
            d % 4 == 0 && 0 <= d + Pow2(bits + 1) < 2 * Pow2(bits + 1)
  {
    EncodedValue(bits, d);
    AddressBack(bits, d);
    DecodedRange(bits, EncodeAddress(bits, d));
    SameSigned(DecodeAddress(bits, EncodeAddress(bits, d)), d, origin, n);
  }

  lemma NumberShown(bits: nat, n: nat)
    requires bits <= 16
    ensures Low(Low(n, bits), 16) == n <==> n < Pow2(bits)
  {
    LowBound(n, bits);
    Pow2Monotone(bits, 16);
    LowSmall(Low(n, bits), 16);
    if n < Pow2(bits) {
      LowSmall(n, bits);
    }
  }

  lemma AddressKept(bits: nat, d: int)
    requires 1 <= bits
    ensures Low(EncodeAddress(bits, d), bits) == EncodeAddress(bits, d)
  {
    EncodedValue(bits, d);
    LowSmall(EncodeAddress(bits, d), bits);
  }

  /** The shown number is the one given exactly if the field can hold it. */
  lemma ShownBack(op: Opcode, memaddr: nat, o: Operand, n: nat, instr: nat)
    requires InWord(o) && n < WORD && memaddr < WORD
    requires Extract(o, instr) == Low(Data(op, memaddr, o, n), o.bits)
    ensures Shown(op, memaddr, o, instr) == n <==> Fits(op, memaddr, o, n)
  {
    if o.kind == Address {
      var d := Distance(op, memaddr, n);
      AddressKept(o.bits, d);
      AddressShown(o.bits, Origin(op, memaddr), n, d);
    } else {
      NumberShown(o.bits, n);
    }
  }

  predicate FitsAt(op: Opcode, memaddr: nat, ns: seq<nat>, m: nat)
  {
    && m < |op.fields|
    && (op.fields[m].silent ||
        (Spoken(op.fields, m) < |ns| && Fits(op, memaddr, op.fields[m], ns[Spoken(op.fields, m)])))
  }

  ghost predicate AllFit(op: Opcode, memaddr: nat, ns: seq<nat>, i: nat)
  {
    forall m: nat | i <= m < |op.fields| :: FitsAt(op, memaddr, ns, m)
  }

  /** Numbers enough for every spoken field were read. */
  lemma {:induction false} SpokenRead(op: Opcode, memaddr: nat, ns: seq<nat>, i: nat, w: nat)
    requires InWords(op) && i <= |op.fields| && Spoken(op.fields, i) <= |ns|
    requires Asm(op, memaddr, ns, i, Spoken(op.fields, i), w).Word?
    ensures Spoken(op.fields, i) <= Spoken(op.fields, |op.fields|) <= |ns|
    decreases |op.fields| - i
  {
    if i < |op.fields| {
      var o, j := op.fields[i], Spoken(op.fields, i);
      assert Spoken(op.fields, i + 1) == j + if o.silent then 0 else 1;
      SpokenRead(op, memaddr, ns, i + 1, if o.silent then w else Or(w, Place(o, Data(op, memaddr, o, ns[j]))));
    }
  }

  /** A spoken field shows its number exactly if it can hold it. */
  predicate FieldBack(op: Opcode, memaddr: nat, ns: seq<nat>, w: nat, m: nat)
    requires InWords(op)
  {
    && m < |op.fields|
    && (op.fields[m].silent ||
        (Spoken(op.fields, m) < |ns|
         && (Shown(op, memaddr, op.fields[m], w) == ns[Spoken(op.fields, m)] <==> FitsAt(op, memaddr, ns, m))))
  }

  lemma {:induction false} ShownFromBack(op: Opcode, memaddr: nat, ns: seq<nat>, w: nat, i: nat)
    requires InWords(op) && (forall m: nat | m < |op.fields| :: FieldBack(op, memaddr, ns, w, m)) && i <= |op.fields|
    requires Spoken(op.fields, |op.fields|) <= |ns|
    ensures var n := Spoken(op.fields, |op.fields|);
            && Spoken(op.fields, i) <= n
            && (ShownFrom(op, memaddr, w, i) == ns[Spoken(op.fields, i)..n] <==> AllFit(op, memaddr, ns, i))
    decreases |op.fields| - i
  {
    if i < |op.fields| {
      var n, o, j := Spoken(op.fields, |op.fields|), op.fields[i], Spoken(op.fields, i);
      assert Spoken(op.fields, i + 1) == j + if o.silent then 0 else 1;
      ShownFromBack(op, memaddr, ns, w, i + 1);
      AllFitStep(op, memaddr, ns, i);
      assert FieldBack(op, memaddr, ns, w, i);
      if !o.silent {
        HeadTail(Shown(op, memaddr, o, w), ShownFrom(op, memaddr, w, i + 1), ns, j, n);
      }
    }
  }

  lemma FieldComesBack(op: Opcode, memaddr: nat, ns: seq<nat>, m: nat)
    requires WellFormed(op) && memaddr < WORD && (forall x | 0 <= x < |ns| :: ns[x] < WORD)
    requires Assembled(op, memaddr, ns).Word? && m < |op.fields|
    ensures FieldBack(op, memaddr, ns, Assembled(op, memaddr, ns).instr, m)
  {
    if !op.fields[m].silent {
      FieldPacked(op, memaddr, ns, m);
      ShownBack(op, memaddr, op.fields[m], ns[Spoken(op.fields, m)], Assembled(op, memaddr, ns).instr);
    }
  }

  lemma HeadTail(x: nat, xs: seq<nat>, ns: seq<nat>, j: nat, n: nat)
    requires j < n <= |ns|
    ensures [x] + xs == ns[j..n] <==> x == ns[j] && xs == ns[j + 1..n]
  {
    assert ([x] + xs)[0] == x && ([x] + xs)[1..] == xs;
    assert ns[j..n] == [ns[j]] + ns[j + 1..n];
    assert ns[j..n][1..] == ns[j + 1..n];
  }

  lemma AllFitStep(op: Opcode, memaddr: nat, ns: seq<nat>, i: nat)
    requires i < |op.fields|
    ensures AllFit(op, memaddr, ns, i) <==>
            AllFit(op, memaddr, ns, i + 1) && FitsAt(op, memaddr, ns, i)
  {
  }

  /** Disassembling an assembled instruction shows the operands it was given, exactly if each fits its field:
      registers and immediates below 2^bits, addresses word aligned and at a distance in
      [-2^(bits+1), 2^(bits+1)). */
  lemma DisassembleAssembled(op: Opcode, memaddr: nat, ns: seq<nat>)
    requires WellFormed(op) && memaddr < WORD && (forall x | 0 <= x < |ns| :: ns[x] < WORD)
    requires Assembled(op, memaddr, ns).Word?
    ensures Spoken(op.fields, |op.fields|) <= |ns|
    ensures ShownFrom(op, memaddr, Assembled(op, memaddr, ns).instr, 0) == ns[..Spoken(op.fields, |op.fields|)]
            <==> AllFit(op, memaddr, ns, 0)
  {
    var w := Assembled(op, memaddr, ns).instr;
    SpokenRead(op, memaddr, ns, 0, op.value);
    forall m: nat | m < |op.fields| ensures FieldBack(op, memaddr, ns, w, m) {
      FieldComesBack(op, memaddr, ns, m);
    }
    ShownFromBack(op, memaddr, ns, w, 0);
    assert ns[0..Spoken(op.fields, |op.fields|)] == ns[..Spoken(op.fields, |op.fields|)];
  }

  // ----- what the instruction says -----

  /** A field as a signed number of its width. */
  function SignedField(bits: nat, f: nat): int { if 2 * f >= Pow2(bits) then f - Pow2(bits) else f }

  /** An address field leads to `n` from its origin; any other field holds `n`. */
  predicate Says(op: Opcode, memaddr: nat, o: Operand, n: nat, f: nat)
  {
    if o.kind == Address then (4 * SignedField(o.bits, f) + if op.relative then memaddr else 0) % WORD == n else f == n
  }

  lemma FieldSign(o: Operand, instr: nat)
    requires InWord(o) && o.kind == Address
    ensures DecodeAddress(o.bits, Extract(o, instr)) == 4 * SignedField(o.bits, Extract(o, instr))
  {
    LowBound(Shr(instr, o.shift), o.bits);
    TopBit(Extract(o, instr), o.bits - 1);
    assert Pow2(o.bits) == 2 * Pow2(o.bits - 1);
  }

  lemma OperandMeans(op: Opcode, memaddr: nat, o: Operand, n: nat, instr: nat)
    requires InWord(o) && n < WORD && memaddr < WORD && Fits(op, memaddr, o, n)
    requires Extract(o, instr) == Low(Data(op, memaddr, o, n), o.bits)
    ensures Says(op, memaddr, o, n, Extract(o, instr))
  {
    if o.kind == Address {
      ShownBack(op, memaddr, o, n, instr);
      FieldSign(o, instr);
    } else {
      LowSmall(n, o.bits);
    }
  }

  /** An address field leads to the address that was given, from the instruction on if the opcode is relative and from 0 on
      otherwise; any other field holds the number. */
  lemma FieldMeans(op: Opcode, memaddr: nat, ns: seq<nat>, m: nat)
    requires WellFormed(op) && memaddr < WORD && (forall x | 0 <= x < |ns| :: ns[x] < WORD)
    requires Assembled(op, memaddr, ns).Word? && m < |op.fields| && !op.fields[m].silent && FitsAt(op, memaddr, ns, m)
    ensures var o, n := op.fields[m], ns[Spoken(op.fields, m)];
            Says(op, memaddr, o, n, Extract(o, Assembled(op, memaddr, ns).instr))
  {
    FieldPacked(op, memaddr, ns, m);
    OperandMeans(op, memaddr, op.fields[m], ns[Spoken(op.fields, m)], Assembled(op, memaddr, ns).instr);
  }

  // ----- when there is an instruction -----

  /** A register is a number up to 31, or one that is negative as a signed word; a special register was found by name. */
  predicate Acceptable(o: Operand, n: nat)
  {
    && (o.kind == Register ==> n <= 31 || n >= 0x8000_0000)
    && (o.kind == Spr || o.kind == Tbr ==> n != 0)
  }

  /** Field `m` is silent, or a number was given for it that its kind takes. */
  predicate Supplied(op: Opcode, ns: seq<nat>, m: nat)
    requires m < |op.fields|
  {
    op.fields[m].silent || (Spoken(op.fields, m) < |ns| && Acceptable(op.fields[m], ns[Spoken(op.fields, m)]))
  }

  /** What is wrong with field `m`. */
  function Complaint(op: Opcode, ns: seq<nat>, m: nat): Error
    requires m < |op.fields|
  {
    if Spoken(op.fields, m) >= |ns| then NumOperands
    else if op.fields[m].kind == Register then BadRegister
    else if op.fields[m].kind == Spr then BadSpr
    else BadTbr
  }

  lemma {:induction false} AsmOutcome(op: Opcode, memaddr: nat, ns: seq<nat>, i: nat, w: nat) returns (m: nat)
    requires InWords(op) && i <= |op.fields|
    ensures i <= m <= |op.fields| && (forall x | i <= x < m :: Supplied(op, ns, x))
    ensures var r := Asm(op, memaddr, ns, i, Spoken(op.fields, i), w);
            if m == |op.fields| then r.Word? else !Supplied(op, ns, m) && r == Failed(Complaint(op, ns, m))
    decreases |op.fields| - i
  {
    m := i;
    if i < |op.fields| && Supplied(op, ns, i) {
      var o, j := op.fields[i], Spoken(op.fields, i);
      assert Spoken(op.fields, i + 1) == j + if o.silent then 0 else 1;
      m := AsmOutcome(op, memaddr, ns, i + 1, if o.silent then w else Or(w, Place(o, Data(op, memaddr, o, ns[j]))));
    }
  }

  /** An instruction is assembled if and only if every spoken field is supplied; otherwise the first one that is not is
      the error. */
  lemma Assembles(op: Opcode, memaddr: nat, ns: seq<nat>)
    requires InWords(op)
    ensures Assembled(op, memaddr, ns).Word? <==> forall m: nat | m < |op.fields| :: Supplied(op, ns, m)
    ensures forall m: nat | m < |op.fields| && !Supplied(op, ns, m) && (forall x: nat | x < m :: Supplied(op, ns, x)) ::
              Assembled(op, memaddr, ns) == Failed(Complaint(op, ns, m))
  {
    var m := AsmOutcome(op, memaddr, ns, 0, op.value);
    assert m < |op.fields| ==> !Supplied(op, ns, m);
  }

  /** The two commands one after the other, at the same address. */
  method AssembleAndShow(op: Opcode, memaddr: nat, ns: seq<nat>) returns (r: Outcome, shown: seq<nat>)
    requires WellFormed(op) && memaddr < WORD && (forall x | 0 <= x < |ns| :: ns[x] < WORD)
    ensures r.Word? ==> And(r.instr, op.mask) == op.value && Spoken(op.fields, |op.fields|) <= |ns|
    ensures r.Word? ==> (shown == ns[..Spoken(op.fields, |op.fields|)] <==> AllFit(op, memaddr, ns, 0))
  {
    r := Asmppc(op, memaddr, ns);
    shown := [];
    if r.Word? {
      MatchesOpcode(op, memaddr, ns);
      DisassembleAssembled(op, memaddr, ns);
      shown := PrintOperands(op, memaddr, r.instr);
    }
  }
}
