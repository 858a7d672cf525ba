/** The numbers that `fdt set` takes in a cell list: decimal, octal after 0, hexadecimal after 0x, digits of either case. */
module FdtNumbers {
  import opened Bits
  import opened Bytes
  import opened Fdt

  // ----- numerals, stated without the scanner -----

  /** A digit in either case. */
  predicate IsDigit(c: byte, d: nat)
  {
    if d < 10 then c == '0' as int + d else d < 16 && (c == 'A' as int + d - 10 || c == 'a' as int + d - 10)
  }

  ghost predicate NoDigit(c: byte, base: nat) { forall d: nat | d < base :: !IsDigit(c, d) }

  /** The number that digits stand for, the first being the highest. */
  function Value(ds: seq<nat>, base: nat): nat
  {
    if ds == [] then 0 else Value(ds[..|ds| - 1], base) * base + ds[|ds| - 1]
  }

  predicate InBase(ds: seq<nat>, base: nat) { forall k | 0 <= k < |ds| :: ds[k] < base }

  /** From `i` on there are these digits, and no further one. */
  ghost predicate Digits(t: Token, i: nat, ds: seq<nat>, base: nat)
  {
    && InBase(ds, base) && i + |ds| <= |t| && (forall k | 0 <= k < |ds| :: IsDigit(t[i + k], ds[k]))
    && NoDigit(At(t, i + |ds|), base)
  }

  datatype Numeral = Decimal(ds: seq<nat>) | Octal(ds: seq<nat>) | Hexadecimal(ds: seq<nat>)

  function Length(n: Numeral): nat
  {
    match n
    case Decimal(ds) => |ds|
    case Octal(ds) => 1 + |ds|
    case Hexadecimal(ds) => 2 + |ds|
  }

  function Meaning(n: Numeral): nat
  {
    match n
    case Decimal(ds) => Value(ds, 10)
    case Octal(ds) => Value(ds, 8)
    case Hexadecimal(ds) => Value(ds, 16)
  }

  /** The numeral stands at `i`. */
  ghost predicate Spelled(t: Token, i: nat, n: Numeral)
  {
    match n
    case Decimal(ds) => ds != [] && ds[0] != 0 && Digits(t, i, ds, 10)
    case Octal(ds) => At(t, i) == '0' as int && Digits(t, i + 1, ds, 8) && At(t, i + 1) != 'x' as int
    case Hexadecimal(ds) =>
      ds != [] && At(t, i) == '0' as int && At(t, i + 1) == 'x' as int && Digits(t, i + 2, ds, 16)
  }

  // ----- the scanner agrees with them -----

  lemma DigitRead(c: byte, d: nat)
    ensures IsXDigit(c) && DigitValue(c) == d <==> IsDigit(c, d)
  {
  }

  lemma ValueSnoc(ds: seq<nat>, d: nat, base: nat)
    ensures Value(ds + [d], base) == Value(ds, base) * base + d
  {
    assert (ds + [d])[..|ds|] == ds;
  }

  lemma WrapStep(v: nat, base: nat, d: nat)
    requires base <= 16
    ensures (v % WORD * base + d) % WORD == (v * base + d) % WORD
  {
    var q, r := v / WORD, v % WORD;
    DivMod(v, WORD);
    assert v * base + d == WORD * (q * base) + (r * base + d);
    var x := r * base + d;
    DivMod(x, WORD);
    assert v * base + d == WORD * (q * base + x / WORD) + x % WORD;
    DivModUnique(v * base + d, WORD, q * base + x / WORD, x % WORD);
  }

  /** One digit more. */
  lemma ScanOne(t: Token, i: nat, ds: seq<nat>, base: nat, k: nat, acc: nat, acc': nat)
    requires base <= 16 && Digits(t, i, ds, base) && k < |ds|
    requires acc == Value(ds[..k], base) % WORD && acc' == Value(ds[..k + 1], base) % WORD
    ensures Scan(t, i + k, base, acc) == Scan(t, i + k + 1, base, acc')
  {
    DigitRead(t[i + k], ds[k]);
    ValueSnoc(ds[..k], ds[k], base);
    assert ds[..k + 1] == ds[..k] + [ds[k]];
    WrapStep(Value(ds[..k], base), base, ds[k]);
  }

  lemma ScanOver(t: Token, j: nat, base: nat, acc: nat)
    requires base <= 16 && NoDigit(At(t, j), base)
    ensures Scan(t, j, base, acc) == (acc, j)
  {
    var c := At(t, j);
    if IsXDigit(c) {
      DigitRead(c, DigitValue(c));
    }
  }

  lemma {:induction false} ScanDigits(t: Token, i: nat, ds: seq<nat>, base: nat, k: nat, at: nat, acc: nat)
    requires base <= 16 && Digits(t, i, ds, base) && k <= |ds| && at == i + k && acc == Value(ds[..k], base) % WORD
    ensures Scan(t, at, base, acc) == (Value(ds, base) % WORD, i + |ds|)
    decreases |ds| - k
  {
    if k < |ds| {
      var acc' := Value(ds[..k + 1], base) % WORD;
      ScanOne(t, i, ds, base, k, acc, acc');
      ScanDigits(t, i, ds, base, k + 1, at + 1, acc');
    } else {
      assert ds[..k] == ds;
      ScanOver(t, at, base, acc);
    }
  }

  lemma DigitsScanned(t: Token, i: nat, ds: seq<nat>, base: nat)
    requires base <= 16 && Digits(t, i, ds, base)
    ensures Scan(t, i, base, 0) == (Value(ds, base) % WORD, i + |ds|)
  {
    assert Value(ds[..0], base) == 0;
    ScanDigits(t, i, ds, base, 0, i, 0);
  }

  /** A numeral is read to its end, and as what it means, modulo 32 bits. */
  lemma NumeralRead(t: Token, i: nat, n: Numeral)
    requires i <= |t| && Spelled(t, i, n)
    ensures StrToUl(t, i, 0) == (Meaning(n) % WORD, i + Length(n)) && Length(n) > 0
    ensures At(t, i) != 0 && At(t, i) != GT && i + Length(n) <= |t|
  {
    match n
    case Decimal(ds) =>
      assert t[i] == t[i + 0] && IsDigit(t[i + 0], ds[0]);
      DigitsScanned(t, i, ds, 10);
    case Octal(ds) => DigitsScanned(t, i + 1, ds, 8);
    case Hexadecimal(ds) =>
      assert IsDigit(t[i + 2 + 0], ds[0]);
      DigitRead(t[i + 2], ds[0]);
      DigitsScanned(t, i + 2, ds, 16);
  }

  /** In a byte list digits are hexadecimal with or without 0x. */
  lemma HexadecimalRead(t: Token, i: nat, ds: seq<nat>)
    requires i <= |t| && ds != [] && Digits(t, i, ds, 16) && At(t, i + |ds|) != 'x' as int
    ensures StrToUl(t, i, 16) == (Value(ds, 16) % WORD, i + |ds|)
  {
    assert t[i] == t[i + 0] && IsDigit(t[i + 0], ds[0]);
    if t[i] == ZERO {
      ZeroFirst(t, i, ds);
      if |ds| > 1 {
        assert IsDigit(t[i + 1], ds[1]);
      }
      DigitsScanned(t, i + 1, ds[1..], 16);
    } else {
      DigitsScanned(t, i, ds, 16);
    }
  }

  lemma {:induction false} LeadingZero(ds: seq<nat>, base: nat)
    requires ds != [] && ds[0] == 0
    ensures Value(ds, base) == Value(ds[1..], base)
    decreases |ds|
  {
    if |ds| > 1 {
      LeadingZero(ds[..|ds| - 1], base);
      assert ds[..|ds| - 1][1..] == ds[1..][..|ds| - 2];
    }
  }

  lemma ZeroFirst(t: Token, i: nat, ds: seq<nat>)
    requires ds != [] && Digits(t, i, ds, 16) && t[i] == ZERO
    ensures Digits(t, i + 1, ds[1..], 16) && Value(ds, 16) == Value(ds[1..], 16)
  {
    assert IsDigit(t[i + 0], ds[0]);
    LeadingZero(ds, 16);
    forall k | 0 <= k < |ds| - 1 ensures IsDigit(t[i + 1 + k], ds[1..][k]) {
      assert IsDigit(t[i + (k + 1)], ds[k + 1]);
    }
  }

  // ----- numbers and their digits -----

  /** The digits of a number, without leading zeros. */
  function DigitsOf(v: nat, base: nat): seq<nat>
    requires base >= 2
  {
    if v < base then [v]
    else
      Smaller(v, base);
      DigitsOf(v / base, base) + [v % base]
  }

  lemma LastDigit(v: nat, base: nat) returns (q: nat, r: nat)
    requires 2 <= base <= v
    ensures v == q * base + r && r < base && 0 < q < v && DigitsOf(v, base) == DigitsOf(q, base) + [r]
  {
    DivMod(v, base);
    Smaller(v, base);
    q, r := v / base, v % base;
  }

  lemma {:induction false} DigitsBack(v: nat, base: nat)
    requires base >= 2
    ensures var ds := DigitsOf(v, base);
            ds != [] && InBase(ds, base) && Value(ds, base) == v && (v > 0 ==> ds[0] != 0)
    decreases v
  {
    if v >= base {
      var q, r := LastDigit(v, base);
      DigitsBack(q, base);
      ValueSnoc(DigitsOf(q, base), r, base);
    } else {
      assert [v][..0] == [];
    }
  }

  lemma Twice(base: nat, q: int)
    requires base >= 2
    ensures q <= 0 ==> base * q <= 0
    ensures q > 0 ==> base * q >= 2 * q
  {
    if q < 0 {
      MulStep(base, q, 0);
    } else if q > 0 {
      assert base * q == 2 * q + (base - 2) * q;
    }
  }

  lemma Smaller(v: nat, base: nat)
    requires 2 <= base <= v
    ensures 0 < v / base < v && 0 <= v % base < base
  {
    DivMod(v, base);
    Twice(base, v / base);
  }

  /** The decimal, octal or hexadecimal numeral of a number. */
  predicate NumeralOf(n: Numeral, v: nat)
  {
    n == Decimal(DigitsOf(v, 10)) || n == Octal(DigitsOf(v, 8)) || n == Hexadecimal(DigitsOf(v, 16))
  }

  /** Every 32-bit number comes back from its decimal, octal and hexadecimal text. */
  lemma NumberRead(t: Token, i: nat, n: Numeral, v: nat)
    requires v < WORD && i <= |t| && NumeralOf(n, v) && Spelled(t, i, n)
    ensures StrToUl(t, i, 0) == (v, i + Length(n))
  {
    NumeralRead(t, i, n);
    NumeralMeans(n, v);
    SmallWord(v);
  }

  lemma NumeralMeans(n: Numeral, v: nat)
    requires NumeralOf(n, v)
    ensures Meaning(n) == v
  {
    match n
    case Decimal(_) => DigitsBack(v, 10);
    case Octal(_) => DigitsBack(v, 8);
    case Hexadecimal(_) => DigitsBack(v, 16);
  }

  // ----- lists -----

  /** How a list ends: with its bracket, with the arguments, or with a character that starts no number. */
  datatype Ending = Closed | Missing | Wrong

  function Result(e: Ending, bytes: seq<byte>): Parsed
  {
    match e
    case Closed => Ok(bytes)
    case Missing => Fault
    case Wrong => Bad
  }

  /** From character `i` of argument `k` on there are these numerals, with any blanks between them and cut into arguments
      between them anywhere, and then the end. */
  ghost predicate CellList(ts: seq<Token>, k: nat, i: nat, ns: seq<Numeral>, e: Ending)
    decreases |ns|, |ts| - k
  {
    if k >= |ts| then k == |ts| && ns == [] && e == Missing
    else if i >= |ts[k]| then i == |ts[k]| && CellList(ts, k + 1, 0, ns, e)
    else if ns == [] then
      || (e == Closed && ts[k][i] == '>' as int)
      || (e == Wrong && ts[k][i] != '>' as int && ts[k][i] != 0 && NoDigit(ts[k][i], 10))
    else
      && Spelled(ts[k], i, ns[0]) && i + Length(ns[0]) <= |ts[k]|
      && CellList(ts, k, SkipSpaces(ts[k], i + Length(ns[0])), ns[1..], e)
  }

  /** A cell is the 32-bit big-endian form of its number. */
  function CellMeant(n: Numeral): seq<byte> { BytesOf(Meaning(n) % WORD, 4) }

  function CellBytes(ns: seq<Numeral>): seq<byte>
  {
    if ns == [] then [] else CellMeant(ns[0]) + CellBytes(ns[1..])
  }

  lemma NoNumber(t: Token, i: nat)
    requires i < |t| && NoDigit(t[i], 10)
    ensures StrToUl(t, i, 0) == (0, i)
  {
    assert t[i] != ZERO by {
      assert !IsDigit(t[i], 0);
    }
    if IsXDigit(t[i]) {
      DigitRead(t[i], DigitValue(t[i]));
    }
  }

  lemma CellTaken(ts: seq<Token>, k: nat, i: nat, n: Numeral, acc: seq<byte>)
    requires k < |ts| && i < |ts[k]| && Spelled(ts[k], i, n)
    ensures i + Length(n) <= |ts[k]|
    ensures Cells(ts, k, i, acc) == Cells(ts, k, SkipSpaces(ts[k], i + Length(n)), acc + CellMeant(n))
  {
    NumeralRead(ts[k], i, n);
  }

  ghost predicate CellsGive(ts: seq<Token>, k: nat, i: nat, acc: seq<byte>, r: Parsed)
  {
    k <= |ts| && (k < |ts| ==> i <= |ts[k]|) && Cells(ts, k, i, acc) == r
  }

  lemma ArgumentOver(ts: seq<Token>, k: nat, acc: seq<byte>, r: Parsed)
    requires k < |ts| && CellsGive(ts, k + 1, 0, acc, r)
    ensures CellsGive(ts, k, |ts[k]|, acc, r)
  {
  }

  lemma CellsOver(ts: seq<Token>, k: nat, i: nat, e: Ending, acc: seq<byte>)
    requires k < |ts| && i < |ts[k]| && CellList(ts, k, i, [], e)
    ensures CellsGive(ts, k, i, acc, Result(e, acc))
  {
    if e == Wrong {
      NoNumber(ts[k], i);
    }
  }

  lemma CellFirst(ts: seq<Token>, k: nat, i: nat, n: Numeral, acc: seq<byte>, r: Parsed)
    requires k < |ts| && i < |ts[k]| && Spelled(ts[k], i, n) && i + Length(n) <= |ts[k]|
    requires CellsGive(ts, k, SkipSpaces(ts[k], i + Length(n)), acc + CellMeant(n), r)
    ensures CellsGive(ts, k, i, acc, r)
  {
    CellTaken(ts, k, i, n, acc);
  }

  lemma CellListStep(ts: seq<Token>, k: nat, i: nat, ns: seq<Numeral>, e: Ending)
    requires k < |ts| && i < |ts[k]| && ns != [] && CellList(ts, k, i, ns, e)
    ensures Spelled(ts[k], i, ns[0]) && i + Length(ns[0]) <= |ts[k]|
    ensures CellList(ts, k, SkipSpaces(ts[k], i + Length(ns[0])), ns[1..], e)
  {
  }

  lemma CellBytesStep(ns: seq<Numeral>, acc: seq<byte>)
    requires ns != []
    ensures acc + CellMeant(ns[0]) + CellBytes(ns[1..]) == acc + CellBytes(ns)
  {
    var cell := CellMeant(ns[0]);
    assert acc + cell + CellBytes(ns[1..]) == acc + (cell + CellBytes(ns[1..]));
  }

  lemma CellListNext(ts: seq<Token>, k: nat, ns: seq<Numeral>, e: Ending)
    requires k < |ts| && CellList(ts, k, |ts[k]|, ns, e)
    ensures CellList(ts, k + 1, 0, ns, e)
  {
  }

  lemma CellsMissing(ts: seq<Token>, i: nat, ns: seq<Numeral>, e: Ending, acc: seq<byte>)
    requires CellList(ts, |ts|, i, ns, e)
    ensures CellsGive(ts, |ts|, i, acc, Result(e, acc + CellBytes(ns)))
  {
  }

  lemma CellListCons(ts: seq<Token>, k: nat, i: nat, ns: seq<Numeral>, e: Ending, acc: seq<byte>)
    requires k < |ts| && i < |ts[k]| && ns != [] && Spelled(ts[k], i, ns[0]) && i + Length(ns[0]) <= |ts[k]|
    requires CellsGive(ts, k, SkipSpaces(ts[k], i + Length(ns[0])), acc + CellMeant(ns[0]),
                       Result(e, acc + CellMeant(ns[0]) + CellBytes(ns[1..])))
    ensures CellsGive(ts, k, i, acc, Result(e, acc + CellBytes(ns)))
  {
    CellBytesStep(ns, acc);
    CellFirst(ts, k, i, ns[0], acc, Result(e, acc + CellBytes(ns)));
  }

  lemma {:induction false} CellListParsed(ts: seq<Token>, k: nat, i: nat, ns: seq<Numeral>, e: Ending, acc: seq<byte>)
    requires k <= |ts| && (k < |ts| ==> i <= |ts[k]|) && CellList(ts, k, i, ns, e)
    ensures CellsGive(ts, k, i, acc, Result(e, acc + CellBytes(ns)))
    decreases |ns|, |ts| - k
  {
    if k == |ts| {
      CellsMissing(ts, i, ns, e, acc);
    } else if i == |ts[k]| {
      CellListNext(ts, k, ns, e);
      CellListParsed(ts, k + 1, 0, ns, e, acc);
      ArgumentOver(ts, k, acc, Result(e, acc + CellBytes(ns)));
    } else if ns == [] {
      CellsOver(ts, k, i, e, acc);
      assert acc + [] == acc;
    } else {
      CellListStep(ts, k, i, ns, e);
      CellListParsed(ts, k, SkipSpaces(ts[k], i + Length(ns[0])), ns[1..], e, acc + CellMeant(ns[0]));
      CellListCons(ts, k, i, ns, e, acc);
    }
  }

  /** The same for bytes in hexadecimal, which may also follow each other without a blank if a letter ends one. */
  ghost predicate ByteList(ts: seq<Token>, k: nat, i: nat, bs: seq<seq<nat>>, e: Ending)
    decreases |bs|, |ts| - k
  {
    if k >= |ts| then k == |ts| && bs == [] && e == Missing
    else
      && i <= |ts[k]|
      && var s := SkipSpaces(ts[k], i);
         if s == |ts[k]| then ByteList(ts, k + 1, 0, bs, e)
         else if bs == [] then
           || (e == Closed && ts[k][s] == ']' as int)
           || (e == Wrong && ts[k][s] != ']' as int && ts[k][s] != 0 && NoDigit(ts[k][s], 16))
         else
           && bs[0] != [] && Digits(ts[k], s, bs[0], 16) && At(ts[k], s + |bs[0]|) != 'x' as int
           && ByteList(ts, k, s + |bs[0]|, bs[1..], e)
  }

  function ByteMeant(ds: seq<nat>): byte { Value(ds, 16) % WORD % 256 }

  function BytesMeant(bs: seq<seq<nat>>): seq<byte>
  {
    if bs == [] then [] else [ByteMeant(bs[0])] + BytesMeant(bs[1..])
  }

  lemma NoHexDigit(c: byte)
    requires NoDigit(c, 16)
    ensures !IsXDigit(c)
  {
    if IsXDigit(c) {
      DigitRead(c, DigitValue(c));
    }
  }

  lemma ByteTakenAt(ts: seq<Token>, k: nat, i: nat, ds: seq<nat>, acc: seq<byte>)
    requires k < |ts| && i <= |ts[k]| && SkipSpaces(ts[k], i) < |ts[k]|
    requires var s := SkipSpaces(ts[k], i); ds != [] && Digits(ts[k], s, ds, 16) && At(ts[k], s + |ds|) != 'x' as int
    ensures ByteStream(ts, k, i, acc) ==
            ByteStream(ts, k, SkipSpaces(ts[k], i) + |ds|, acc + [ByteMeant(ds)])
  {
    var s := SkipSpaces(ts[k], i);
    HexadecimalRead(ts[k], s, ds);
    DigitRead(ts[k][s + 0], ds[0]);
    BlanksSkipped(ts[k], i);
  }

  lemma BytesMeantStep(bs: seq<seq<nat>>, acc: seq<byte>)
    requires bs != []
    ensures acc + [ByteMeant(bs[0])] + BytesMeant(bs[1..]) == acc + BytesMeant(bs)
  {
    MoveOver(acc, ByteMeant(bs[0]), BytesMeant(bs[1..]));
  }

  ghost predicate BytesGive(ts: seq<Token>, k: nat, i: nat, acc: seq<byte>, r: Parsed)
  {
    k <= |ts| && (k < |ts| ==> i <= |ts[k]|) && ByteStream(ts, k, i, acc) == r
  }

  lemma BytesOver(ts: seq<Token>, k: nat, i: nat, e: Ending, acc: seq<byte>)
    requires k < |ts| && i <= |ts[k]| && SkipSpaces(ts[k], i) < |ts[k]| && ByteList(ts, k, i, [], e)
    ensures BytesGive(ts, k, i, acc, Result(e, acc))
  {
    var s := SkipSpaces(ts[k], i);
    BlanksSkipped(ts[k], i);
    if e == Wrong {
      NoHexDigit(ts[k][s]);
    }
  }

  lemma ByteListNext(ts: seq<Token>, k: nat, i: nat, bs: seq<seq<nat>>, e: Ending)
    requires k < |ts| && i <= |ts[k]| && SkipSpaces(ts[k], i) == |ts[k]| && ByteList(ts, k, i, bs, e)
    ensures ByteList(ts, k + 1, 0, bs, e)
  {
  }

  lemma ByteArgumentOver(ts: seq<Token>, k: nat, i: nat, acc: seq<byte>, r: Parsed)
    requires k < |ts| && i <= |ts[k]| && SkipSpaces(ts[k], i) == |ts[k]| && BytesGive(ts, k + 1, 0, acc, r)
    ensures BytesGive(ts, k, i, acc, r)
  {
    BlanksSkipped(ts[k], i);
  }

  lemma ByteFirst(ts: seq<Token>, k: nat, i: nat, ds: seq<nat>, acc: seq<byte>, r: Parsed)
    requires k < |ts| && i <= |ts[k]| && SkipSpaces(ts[k], i) < |ts[k]|
    requires var s := SkipSpaces(ts[k], i); ds != [] && Digits(ts[k], s, ds, 16) && At(ts[k], s + |ds|) != 'x' as int
    requires BytesGive(ts, k, SkipSpaces(ts[k], i) + |ds|, acc + [ByteMeant(ds)], r)
    ensures BytesGive(ts, k, i, acc, r)
  {
    ByteTakenAt(ts, k, i, ds, acc);
  }

  lemma ByteListStep(ts: seq<Token>, k: nat, i: nat, bs: seq<seq<nat>>, e: Ending)
    requires k < |ts| && i <= |ts[k]| && SkipSpaces(ts[k], i) < |ts[k]| && bs != [] && ByteList(ts, k, i, bs, e)
    ensures var s := SkipSpaces(ts[k], i);
            && bs[0] != [] && Digits(ts[k], s, bs[0], 16) && At(ts[k], s + |bs[0]|) != 'x' as int
            && ByteList(ts, k, s + |bs[0]|, bs[1..], e)
  {
  }

  lemma {:induction false} ByteListParsed(ts: seq<Token>, k: nat, i: nat, bs: seq<seq<nat>>, e: Ending, acc: seq<byte>)
    requires k <= |ts| && (k < |ts| ==> i <= |ts[k]|) && ByteList(ts, k, i, bs, e)
    ensures BytesGive(ts, k, i, acc, Result(e, acc + BytesMeant(bs)))
    decreases |bs|, |ts| - k
  {
    if k == |ts| {
    } else if SkipSpaces(ts[k], i) == |ts[k]| {
      ByteListNext(ts, k, i, bs, e);
      ByteListParsed(ts, k + 1, 0, bs, e, acc);
      ByteArgumentOver(ts, k, i, acc, Result(e, acc + BytesMeant(bs)));
    } else if bs == [] {
      BytesOver(ts, k, i, e, acc);
      assert acc + [] == acc;
    } else {
      ByteListStep(ts, k, i, bs, e);
      BytesMeantStep(bs, acc);
      ByteListParsed(ts, k, SkipSpaces(ts[k], i) + |bs[0]|, bs[1..], e, acc + [ByteMeant(bs[0])]);
      ByteFirst(ts, k, i, bs[0], acc, Result(e, acc + BytesMeant(bs)));
    }
  }

  /** `fdt set` of such a list: its value, or the error. */
  lemma ListParsed(ts: seq<Token>, ns: seq<Numeral>, bs: seq<seq<nat>>, e: Ending)
    requires ts != []
    ensures At(ts[0], 0) == '<' as int && CellList(ts, 0, 1, ns, e) ==> Parse(ts) == Result(e, CellBytes(ns))
    ensures At(ts[0], 0) == '[' as int && ByteList(ts, 0, 1, bs, e) ==> Parse(ts) == Result(e, BytesMeant(bs))
  {
    if At(ts[0], 0) == '<' as int && CellList(ts, 0, 1, ns, e) {
      CellListParsed(ts, 0, 1, ns, e, []);
      assert [] + CellBytes(ns) == CellBytes(ns);
    }
    if At(ts[0], 0) == '[' as int && ByteList(ts, 0, 1, bs, e) {
      ByteListParsed(ts, 0, 1, bs, e, []);
      assert [] + BytesMeant(bs) == BytesMeant(bs);
    }
  }
}
