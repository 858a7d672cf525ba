/**
 Device tree property values: `print_data` writes them in the best guess of a format, `fdt_parse_prop`
 reads them from command line arguments. Characters are bytes; a C string is given without its NUL.
 */
module Fdt {
  import opened Bytes

  const LT: byte := 60
  const GT: byte := 62
  const LB: byte := 91
  const RB: byte := 93
  const SPACE: byte := 32
  const ZERO: byte := 48
  const SMALL_X: byte := 120
  const NEWLINE: byte := 10

  type Token = seq<byte>

  /** A character of a C string; its end reads as NUL. */
  function At(t: Token, i: nat): byte { if i < |t| then t[i] else 0 }

  // ----- simple_strtoul -----

  predicate IsXDigit(c: byte) { 48 <= c <= 57 || 65 <= c <= 70 || 97 <= c <= 102 }

  function DigitValue(c: byte): nat
    requires IsXDigit(c)
  {
    if c <= 57 then c - 48 else if c <= 70 then c - 55 else c - 87
  }

  /** The digits of `base` from `i` on, appended to `acc`, in 32-bit arithmetic. */
  function Scan(t: Token, i: nat, base: nat, acc: nat): (r: (nat, nat))
    ensures i <= r.1 && (i <= |t| ==> r.1 <= |t|)
    decreases |t| - i
  {
    if i < |t| && IsXDigit(t[i]) && DigitValue(t[i]) < base
    then Scan(t, i + 1, base, (acc * base + DigitValue(t[i])) % WORD)
    else (acc, i)
  }

  /** Where the digits start, and their base; base 0 means "by prefix". */
  function Prefix(t: Token, i: nat, base: nat): (nat, nat)
  {
    if At(t, i) == ZERO then
      if At(t, i + 1) == SMALL_X && IsXDigit(At(t, i + 2)) then (i + 2, 16)
      else (i + 1, if base == 0 then 8 else base)
    else (i, if base == 0 then 10 else base)
  }

  /** Value and end of the number at `i`. */
  function StrToUl(t: Token, i: nat, base: nat): (r: (nat, nat))
    requires i <= |t|
    ensures i <= r.1 <= |t|
  {
    var p := Prefix(t, i, base);
    Scan(t, p.0, p.1, 0)
  }

  // ----- the parser -----

  /** `Fault`: the argument list ends without the closing bracket, and a null pointer is read. */
  datatype Parsed = Ok(bytes: seq<byte>) | Bad | Fault

  function SkipSpaces(t: Token, i: nat): (j: nat)
    requires i <= |t|
    ensures i <= j <= |t| && At(t, j) != SPACE
    decreases |t| - i
  {
    if At(t, i) == SPACE then SkipSpaces(t, i + 1) else i
  }

  /** Nothing but blanks is skipped. */
  lemma {:induction false} BlanksSkipped(t: Token, i: nat)
    requires i <= |t|
    ensures forall k | i <= k < SkipSpaces(t, i) :: t[k] == SPACE
    decreases |t| - i
  {
    if At(t, i) == SPACE {
      BlanksSkipped(t, i + 1);
    }
  }

  function Cells(ts: seq<Token>, k: nat, i: nat, acc: seq<byte>): Parsed
    requires k <= |ts| && (k < |ts| ==> i <= |ts[k]|)
    decreases |ts| - k, if k < |ts| then |ts[k]| - i else 0
  {
    if k == |ts| then Fault
    else if At(ts[k], i) == GT then Ok(acc)
    else if At(ts[k], i) == 0 then Cells(ts, k + 1, 0, acc)
    else
      var (v, j) := StrToUl(ts[k], i, 0);
      if j <= i then Bad else Cells(ts, k, SkipSpaces(ts[k], j), acc + BytesOf(v, 4))
  }

  function ByteStream(ts: seq<Token>, k: nat, i: nat, acc: seq<byte>): Parsed
    requires k <= |ts| && (k < |ts| ==> i <= |ts[k]|)
    decreases |ts| - k, if k < |ts| then |ts[k]| - i else 0
  {
    if k == |ts| then Fault
    else if At(ts[k], i) == RB then Ok(acc)
    else
      var s := SkipSpaces(ts[k], i);
      if At(ts[k], s) == 0 then ByteStream(ts, k + 1, 0, acc)
      else if !IsXDigit(At(ts[k], s)) then (if At(ts[k], s) == RB then Ok(acc) else Bad)
      else
        var (v, j) := StrToUl(ts[k], s, 16);
        HexAdvances(ts[k], s);
        ByteStream(ts, k, j, acc + [v % 256])
  }

  lemma HexAdvances(t: Token, i: nat)
    requires i < |t| && IsXDigit(t[i])
    ensures StrToUl(t, i, 16).1 > i
  {
  }

  /** Strings, each with its NUL. */
  function Strings(ts: seq<Token>): seq<byte>
  {
    if ts == [] then [] else ts[0] + [0] + Strings(ts[1..])
  }

  /** `fdt_parse_prop`. */
  function Parse(ts: seq<Token>): Parsed
    requires ts != []
  {
    if At(ts[0], 0) == LT then Cells(ts, 0, 1, [])
    else if At(ts[0], 0) == LB then ByteStream(ts, 0, 1, [])
    else Ok(Strings(ts))
  }

  // ----- the same, loop by loop -----

  method SimpleStrtoul(t: Token, i: nat, base: nat) returns (v: nat, j: nat)
    requires i <= |t|
    ensures (v, j) == StrToUl(t, i, base)
  {
    var b := base;
    v, j := 0, i;
    if At(t, j) == ZERO {
      j := j + 1;
      if At(t, j) == SMALL_X && IsXDigit(At(t, j + 1)) {
        b, j := 16, j + 1;
      }
      if b == 0 { b := 8; }
    }
    if b == 0 { b := 10; }
    assert (j, b) == Prefix(t, i, base);
    ghost var all := Scan(t, j, b, 0);
    while IsXDigit(At(t, j)) && DigitValue(At(t, j)) < b
      invariant j <= |t| && all == Scan(t, j, b, v)
      decreases |t| - j
    {
      v, j := (v * b + DigitValue(t[j])) % WORD, j + 1;
    }
  }

  method SkipBlanks(t: Token, i: nat) returns (j: nat)
    requires i <= |t|
    ensures j == SkipSpaces(t, i)
  {
    j := i;
    while At(t, j) == SPACE
      invariant j <= |t| && SkipSpaces(t, i) == SkipSpaces(t, j)
      decreases |t| - j
    {
      j := j + 1;
    }
  }

  method ParseCells(ts: seq<Token>) returns (r: Parsed)
    requires ts != [] && At(ts[0], 0) == LT
    ensures r == Cells(ts, 0, 1, [])
  {
    var k: nat, i: nat, data: seq<byte> := 0, 1, [];
    while At(ts[k], i) != GT
      invariant k < |ts| && i <= |ts[k]|
      invariant Cells(ts, 0, 1, []) == Cells(ts, k, i, data)
      decreases |ts| - k, |ts[k]| - i
    {
      if At(ts[k], i) == 0 {
        k, i := k + 1, 0;
        if k == |ts| {
          return Fault;
        }
      } else {
        var v, j := SimpleStrtoul(ts[k], i, 0);
        data := data + BytesOf(v, 4);
        if j <= i {
          return Bad;
        }
        i := SkipBlanks(ts[k], j);
      }
    }
    r := Ok(data);
  }

  method ParseBytes(ts: seq<Token>) returns (r: Parsed)
    requires ts != [] && At(ts[0], 0) == LB
    ensures r == ByteStream(ts, 0, 1, [])
  {
    var k: nat, i: nat, data: seq<byte> := 0, 1, [];
    while At(ts[k], i) != RB
      invariant k < |ts| && i <= |ts[k]|
      invariant ByteStream(ts, 0, 1, []) == ByteStream(ts, k, i, data)
      decreases |ts| - k, |ts[k]| - i
    {
      var s := SkipBlanks(ts[k], i);
      if At(ts[k], s) == 0 {
        k, i := k + 1, 0;
        if k == |ts| {
          return Fault;
        }
      } else if !IsXDigit(At(ts[k], s)) {
        return if At(ts[k], s) == RB then Ok(data) else Bad;
      } else {
        HexAdvances(ts[k], s);
        var v, j := SimpleStrtoul(ts[k], s, 16);
        data, i := data + [v % 256], j;
      }
    }
    r := Ok(data);
  }

  method ParseProp(ts: seq<Token>) returns (r: Parsed)
    requires ts != []
    ensures r == Parse(ts)
  {
    if At(ts[0], 0) == LT {
      r := ParseCells(ts);
    } else if At(ts[0], 0) == LB {
      r := ParseBytes(ts);
    } else {
      var data: seq<byte> := [];
      for k := 0 to |ts|
        invariant data + Strings(ts[k..]) == Strings(ts)
      {
        assert data + (ts[k] + [0] + Strings(ts[k + 1..])) == data + (ts[k] + [0]) + Strings(ts[k + 1..]);
        data := data + (ts[k] + [0]);
      }
      r := Ok(data);
    }
  }

  // ----- what `printf` writes -----

  function DigitChar(d: nat): byte
    requires d < 16
  {
    if d < 10 then 48 + d else 87 + d
  }

  /** `%0<width>x`. */
  function Hex(v: nat, width: nat): (t: Token)
    ensures |t| == width
  {
    if width == 0 then [] else Hex(v / 16, width - 1) + [DigitChar(v % 16)]
  }

  function Power16(n: nat): nat { if n == 0 then 1 else 16 * Power16(n - 1) }

  lemma DigitCharIsDigit(d: nat)
    requires d < 16
    ensures IsXDigit(DigitChar(d)) && DigitValue(DigitChar(d)) == d && DigitChar(d) != SMALL_X
    ensures DigitChar(d) == ZERO <==> d == 0
  {
  }

  lemma ScanDigit(t: Token, j: nat, acc: nat, d: nat)
    requires j < |t| && d < 16 && t[j] == DigitChar(d) && acc * 16 + d < WORD
    ensures Scan(t, j, 16, acc) == Scan(t, j + 1, 16, acc * 16 + d)
  {
    DigitCharIsDigit(d);
    SmallWord(acc * 16 + d);
  }

  lemma HexLast(t: Token, i: nat, v: nat, width: nat)
    requires 0 < width && i + width <= |t| && t[i..i + width] == Hex(v, width)
    ensures t[i..i + width - 1] == Hex(v / 16, width - 1) && t[i + width - 1] == DigitChar(v % 16)
  {
    SliceOfSlice(t, i, i + width, 0, width - 1);
    assert t[i + width - 1] == t[i..i + width][width - 1];
  }

  /** Scanning printed digits brings the number back. */
  lemma {:induction false} ScanHex(t: Token, i: nat, v: nat, width: nat)
    requires i + width <= |t| && t[i..i + width] == Hex(v, width) && v < Power16(width) && v < WORD
    ensures Scan(t, i, 16, 0) == Scan(t, i + width, 16, v)
    decreases width
  {
    if width > 0 {
      HexLast(t, i, v, width);
      ScanHex(t, i, v / 16, width - 1);
      ScanDigit(t, i + width - 1, v / 16, v % 16);
    }
  }

  function CellText(v: nat): (t: Token)
    ensures |t| == 10
  {
    [ZERO, SMALL_X] + Hex(v, 8)
  }

  lemma {:induction false} HexDigits(v: nat, width: nat, k: nat)
    requires k < width
    ensures IsXDigit(Hex(v, width)[k])
    decreases width
  {
    if k < width - 1 {
      HexDigits(v / 16, width - 1, k);
    }
  }

  lemma CellScanned(t: Token, i: nat, v: nat)
    requires v < WORD && i + 10 <= |t| && t[i..i + 10] == CellText(v) && !IsXDigit(At(t, i + 10))
    ensures StrToUl(t, i, 0) == (v, i + 10)
  {
    var c := CellText(v);
    assert t[i] == t[i..i + 10][0] && t[i + 1] == t[i..i + 10][1] && t[i + 2] == t[i..i + 10][2];
    HexDigits(v, 8, 0);
    SliceOfSlice(t, i, i + 10, 2, 10);
    assert t[i + 2..i + 10] == Hex(v, 8);
    assert Power16(8) == WORD by {
      assert Power16(4) == 16 * (16 * (16 * (16 * Power16(0))));
      assert Power16(8) == 16 * (16 * (16 * (16 * Power16(4))));
    }
    ScanHex(t, i + 2, v, 8);
  }

  lemma ByteScanned(t: Token, i: nat, v: nat)
    requires v < 256 && i + 2 <= |t| && t[i..i + 2] == Hex(v, 2) && !IsXDigit(At(t, i + 2))
    ensures IsXDigit(t[i]) && StrToUl(t, i, 16) == (v, i + 2)
  {
    assert Hex(v, 2) == Hex(v / 16, 1) + [DigitChar(v % 16)];
    assert Hex(v / 16, 1) == Hex(v / 16 / 16, 0) + [DigitChar(v / 16 % 16)] == [DigitChar(v / 16)];
    assert t[i] == t[i..i + 2][0] == DigitChar(v / 16) && t[i + 1] == t[i..i + 2][1] == DigitChar(v % 16);
    DigitCharIsDigit(v / 16);
    DigitCharIsDigit(v % 16);
    assert Power16(2) == 256 && Power16(1) == 16;
    if v / 16 == 0 {
      assert t[i + 1..i + 1 + 1] == [t[i + 1]] == Hex(v, 1) by { assert Hex(v, 1) == Hex(v / 16, 0) + [DigitChar(v % 16)]; }
      ScanHex(t, i + 1, v, 1);
    } else {
      ScanHex(t, i, v, 2);
    }
  }

  // ----- items laid out on arguments -----

  datatype Format = CellFormat | ByteFormat

  function ItemText(f: Format, v: nat): Token
  {
    match f
    case CellFormat => CellText(v)
    case ByteFormat => Hex(v, 2)
  }

  function ItemBytes(f: Format, v: nat): seq<byte>
  {
    match f
    case CellFormat => BytesOf(v, 4)
    case ByteFormat => [v % 256]
  }

  function Closer(f: Format): byte { if f == CellFormat then GT else RB }

  predicate ItemFits(f: Format, v: nat) { if f == CellFormat then v < WORD else v < 256 }

  function AllBytes(f: Format, vs: seq<nat>): seq<byte>
  {
    if vs == [] then [] else ItemBytes(f, vs[0]) + AllBytes(f, vs[1..])
  }

  lemma AllBytesStep(f: Format, vs: seq<nat>, acc: seq<byte>)
    requires vs != []
    ensures acc + ItemBytes(f, vs[0]) + AllBytes(f, vs[1..]) == acc + AllBytes(f, vs)
  {
  }

  /** From character `i` of argument `k` on there are the items `vs` and the closing bracket, each separated
      from the next by one blank or by the end of an argument. */
  predicate LaidOut(f: Format, ts: seq<Token>, k: nat, i: nat, vs: seq<nat>)
    decreases |vs|
  {
    && k < |ts| && i <= |ts[k]|
    && if vs == [] then At(ts[k], i) == Closer(f)
       else
         && ItemFits(f, vs[0])
         && var j := i + |ItemText(f, vs[0])|;
            && j <= |ts[k]| && ts[k][i..j] == ItemText(f, vs[0])
            && if j == |ts[k]| then LaidOut(f, ts, k + 1, 0, vs[1..])
               else if ts[k][j] == SPACE then At(ts[k], j + 1) != SPACE && LaidOut(f, ts, k, j + 1, vs[1..])
               else ts[k][j] == Closer(f) && vs[1..] == []
  }

  lemma {:induction false} CellsParsed(ts: seq<Token>, k: nat, i: nat, vs: seq<nat>, acc: seq<byte>)
    requires LaidOut(CellFormat, ts, k, i, vs)
    ensures Cells(ts, k, i, acc) == Ok(acc + AllBytes(CellFormat, vs))
    decreases |vs|
  {
    if vs == [] {
      assert acc + [] == acc;
    } else {
      var t, v, j := ts[k], vs[0], i + 10;
      CellScanned(t, i, v);
      assert t[i] == t[i..j][0];
      var acc' := acc + BytesOf(v, 4);
      AllBytesStep(CellFormat, vs, acc);
      if j == |t| {
        CellsParsed(ts, k + 1, 0, vs[1..], acc');
      } else if t[j] == SPACE {
        OneSpace(t, j);
        CellsParsed(ts, k, j + 1, vs[1..], acc');
      } else {
        assert AllBytes(CellFormat, vs[1..]) == [];
      }
    }
  }

  lemma OneSpace(t: Token, j: nat)
    requires At(t, j) == SPACE && At(t, j + 1) != SPACE
    ensures j < |t| && SkipSpaces(t, j) == j + 1
  {
    assert SkipSpaces(t, j) == SkipSpaces(t, j + 1);
  }

  /** The blank before an item is skipped when the item is read. */
  lemma BlankSkipped(ts: seq<Token>, k: nat, j: nat, acc: seq<byte>)
    requires k < |ts| && At(ts[k], j) == SPACE && At(ts[k], j + 1) != SPACE && j < |ts[k]|
    ensures ByteStream(ts, k, j, acc) == ByteStream(ts, k, j + 1, acc)
  {
    OneSpace(ts[k], j);
    assert SkipSpaces(ts[k], j + 1) == j + 1;
  }

  lemma EndSkipped(ts: seq<Token>, k: nat, acc: seq<byte>)
    requires k < |ts|
    ensures ByteStream(ts, k, |ts[k]|, acc) == ByteStream(ts, k + 1, 0, acc)
  {
    assert SkipSpaces(ts[k], |ts[k]|) == |ts[k]|;
  }

  lemma ByteTaken(ts: seq<Token>, k: nat, i: nat, v: nat, acc: seq<byte>)
    requires k < |ts| && v < 256 && i + 2 <= |ts[k]| && ts[k][i..i + 2] == Hex(v, 2) && !IsXDigit(At(ts[k], i + 2))
    ensures ByteStream(ts, k, i, acc) == ByteStream(ts, k, i + 2, acc + [v])
  {
    ByteScanned(ts[k], i, v);
    assert SkipSpaces(ts[k], i) == i;
  }

  /** One byte is read, and what follows it is passed over; the rest of the values is laid out from there on. */
  lemma ByteRead(ts: seq<Token>, k: nat, i: nat, vs: seq<nat>, acc: seq<byte>) returns (k': nat, i': nat)
    requires vs != [] && LaidOut(ByteFormat, ts, k, i, vs)
    ensures LaidOut(ByteFormat, ts, k', i', vs[1..])
    ensures vs[0] < 256 && ByteStream(ts, k, i, acc) == ByteStream(ts, k', i', acc + [vs[0]])
  {
    var t, j := ts[k], i + 2;
    ByteTaken(ts, k, i, vs[0], acc);
    if j == |t| {
      EndSkipped(ts, k, acc + [vs[0]]);
      k', i' := k + 1, 0;
    } else if t[j] == SPACE {
      BlankSkipped(ts, k, j, acc + [vs[0]]);
      k', i' := k, j + 1;
    } else {
      k', i' := k, j;
    }
  }

  lemma StreamClosed(ts: seq<Token>, k: nat, i: nat, acc: seq<byte>)
    requires k < |ts| && i <= |ts[k]| && At(ts[k], i) == RB
    ensures ByteStream(ts, k, i, acc) == Ok(acc)
  {
  }

  lemma ByteItem(vs: seq<nat>, acc: seq<byte>)
    requires vs != [] && vs[0] < 256
    ensures acc + [vs[0]] + AllBytes(ByteFormat, vs[1..]) == acc + AllBytes(ByteFormat, vs)
  {
    AllBytesStep(ByteFormat, vs, acc);
    assert ItemBytes(ByteFormat, vs[0]) == [vs[0]];
  }

  lemma {:induction false} BytesParsed(ts: seq<Token>, k: nat, i: nat, vs: seq<nat>, acc: seq<byte>)
    requires LaidOut(ByteFormat, ts, k, i, vs)
    ensures ByteStream(ts, k, i, acc) == Ok(acc + AllBytes(ByteFormat, vs))
    decreases |vs|
  {
    if vs == [] {
      StreamClosed(ts, k, i, acc);
      assert acc + [] == acc;
    } else {
      var k', i' := ByteRead(ts, k, i, vs, acc);
      BytesParsed(ts, k', i', vs[1..], acc + [vs[0]]);
      ByteItem(vs, acc);
    }
  }
}
