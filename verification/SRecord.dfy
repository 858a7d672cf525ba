/**
 Motorola S-Records: the decoder of common/s_record.c, and the record format it must agree with.
 A C string is a `string` without its terminating NUL; reading at its end yields the NUL.
 */
module SRecord {
  import opened Bits
  import opened Bytes
  import opened Wrappers

  // ----- hexadecimal -----

  const HEX: string := "0123456789ABCDEF"

  function Digit(d: nat): char
    requires d < 16
  {
    HEX[d]
  }

  /** The value of a hexadecimal digit, or -1. */
  function Hex1Bin(c: char): int
  {
    if '0' <= c <= '9' then c as int - '0' as int
    else if 'a' <= c <= 'f' then c as int + 10 - 'a' as int
    else if 'A' <= c <= 'F' then c as int + 10 - 'A' as int
    else -1
  }

  function At(s: string, i: nat): char { if i < |s| then s[i] else 0 as char }

  /** The byte written as two digits at `i`, or -1. */
  function Hex2Bin(s: string, i: nat): (v: int)
    ensures -1 <= v < 256
    ensures v >= 0 ==> i + 2 <= |s|
  {
    if Hex1Bin(At(s, i)) < 0 || Hex1Bin(At(s, i + 1)) < 0 then -1
    else Hex1Bin(At(s, i)) * 16 + Hex1Bin(At(s, i + 1))
  }

  function HexText(bs: seq<byte>): (t: string)
    ensures |t| == 2 * |bs|
  {
    if bs == [] then "" else [Digit(bs[0] / 16), Digit(bs[0] % 16)] + HexText(bs[1..])
  }

  /** What `%0<width>X` prints for a value that needs no more digits. */
  function HexNumber(v: nat, width: nat): (t: string)
    ensures |t| == width
  {
    if width == 0 then "" else HexNumber(v / 16, width - 1) + [Digit(v % 16)]
  }

  lemma DigitValue(d: nat)
    requires d < 16
    ensures Hex1Bin(Digit(d)) == d
  {
    assert HEX == ['0', '1', '2', '3', '4', '5', '6', '7', '8', '9', 'A', 'B', 'C', 'D', 'E', 'F'];
  }

  lemma {:induction false} HexTextAppend(a: seq<byte>, b: seq<byte>)
    ensures HexText(a + b) == HexText(a) + HexText(b)
  {
    if a == [] {
      assert a + b == b;
    } else {
      assert (a + b)[1..] == a[1..] + b;
      HexTextAppend(a[1..], b);
    }
  }

  lemma HexNumberByte(v: nat)
    requires v < 256
    ensures HexNumber(v, 2) == HexText([v])
  {
    assert HexNumber(v / 16, 1) == HexNumber(v / 16 / 16, 0) + [Digit(v / 16 % 16)];
    assert [v][1..] == [];
  }

  /** Printing a number digit by digit or byte by byte is the same. */
  lemma {:induction false} HexNumberBytes(v: nat, n: nat)
    ensures HexNumber(v, 2 * n) == HexText(BytesOf(v, n))
    decreases n
  {
    if n > 0 {
      HexNumberSplit(v, n - 1);
      HexNumberBytes(v / 256, n - 1);
      HexTextAppend(BytesOf(v / 256, n - 1), [v % 256]);
    }
  }

  lemma Nibbles(v: nat)
    ensures v % 16 == v % 256 % 16 && v / 16 % 16 == v % 256 / 16 && v / 16 / 16 == v / 256
  {
    var q, r := v / 256, v % 256;
    DivModUnique(v, 16, 16 * q + r / 16, r % 16);
    DivModUnique(v / 16, 16, q, r / 16);
  }

  lemma HexNumberSplit(v: nat, n: nat)
    ensures HexNumber(v, 2 * n + 2) == HexNumber(v / 256, 2 * n) + HexText([v % 256])
  {
    HexNumberByte(v % 256);
    Nibbles(v);
    assert HexNumber(v, 2 * n + 2) == HexNumber(v / 16, 2 * n + 1) + [Digit(v % 16)];
    assert HexNumber(v / 16, 2 * n + 1) == HexNumber(v / 16 / 16, 2 * n) + [Digit(v / 16 % 16)];
    assert [v % 256][1..] == [];
  }

  // ----- the record format -----

  /** `k` bytes in hexadecimal from index `i`, if all their digits are there. */
  function HexBytes(s: string, i: nat, k: nat): (r: Option<seq<byte>>)
    ensures r.Some? ==> |r.value| == k
    decreases k
  {
    if k == 0 then Some([])
    else if Hex2Bin(s, i) < 0 then None
    else
      var rest := HexBytes(s, i + 2, k - 1);
      if rest.None? then None else Some([Hex2Bin(s, i)] + rest.value)
  }

  /** The two digits of the first byte, and the text of the others behind them. */
  lemma FirstByte(s: string, i: nat, bs: seq<byte>)
    requires bs != [] && i + 2 * |bs| <= |s| && s[i..i + 2 * |bs|] == HexText(bs)
    ensures Hex2Bin(s, i) == bs[0] && s[i + 2..i + 2 + 2 * |bs[1..]|] == HexText(bs[1..])
  {
    var t := s[i..i + 2 * |bs|];
    assert s[i] == t[0] && s[i + 1] == t[1];
    DigitValue(bs[0] / 16);
    DigitValue(bs[0] % 16);
    SliceOfSlice(s, i, i + 2 * |bs|, 2, 2 * |bs|);
    assert t[2..] == HexText(bs[1..]);
  }

  lemma {:induction false} HexBytesText(s: string, i: nat, bs: seq<byte>)
    requires i + 2 * |bs| <= |s| && s[i..i + 2 * |bs|] == HexText(bs)
    ensures HexBytes(s, i, |bs|) == Some(bs)
    decreases |bs|
  {
    if bs != [] {
      FirstByte(s, i, bs);
      HexBytesText(s, i + 2, bs[1..]);
      assert bs == [bs[0]] + bs[1..];
    }
  }

  /** `HexBytes` in two steps. */
  lemma {:induction false} HexBytesSplit(s: string, i: nat, j: nat, k: nat)
    ensures HexBytes(s, i, j + k) ==
            if HexBytes(s, i, j).None? || HexBytes(s, i + 2 * j, k).None? then None
            else Some(HexBytes(s, i, j).value + HexBytes(s, i + 2 * j, k).value)
    decreases j
  {
    if j == 0 {
      if HexBytes(s, i, k).Some? {
        assert [] + HexBytes(s, i, k).value == HexBytes(s, i, k).value;
      }
    } else if Hex2Bin(s, i) >= 0 {
      HexBytesSplit(s, i + 2, j - 1, k);
      assert i + 2 + 2 * (j - 1) == i + 2 * j;
      if HexBytes(s, i, j).Some? && HexBytes(s, i + 2 * j, k).Some? {
        assert [Hex2Bin(s, i)] + (HexBytes(s, i + 2, j - 1).value + HexBytes(s, i + 2 * j, k).value)
            == [Hex2Bin(s, i)] + HexBytes(s, i + 2, j - 1).value + HexBytes(s, i + 2 * j, k).value;
      }
    }
  }

  datatype Decoded =
    | Empty
    | BadType
    | NotSRecord
    | BadChecksum
    | Record(kind: char, count: int, addr: nat, data: seq<byte>)

  /** Bytes in the address field, by record type; 0 for types that do not exist. */
  function AddressLength(kind: char): nat
  {
    if kind == '3' || kind == '7' then 4
    else if kind == '2' || kind == '8' then 3
    else if kind == '0' || kind == '1' || kind == '5' || kind == '9' then 2
    else 0
  }

  /** The data count announced by a length byte; a count record never has data. */
  function DataCount(kind: char, length: nat): int
  {
    if kind == '5' then 0 else length - AddressLength(kind) - 1
  }

  function Max0(x: int): nat { if x < 0 then 0 else x }

  function IndexOfS(s: string, i: nat): (p: nat)
    requires i <= |s|
    ensures i <= p <= |s| && (p < |s| ==> s[p] == 'S') && (forall k | i <= k < p :: s[k] != 'S')
    decreases |s| - i
  {
    if i == |s| || s[i] == 'S' then i else IndexOfS(s, i + 1)
  }

  /** Addition of a byte to an 8-bit checksum. */
  function Add8(chksum: nat, v: nat): nat { (chksum + v) % 256 }

  /** The checksum after some bytes. */
  function Sum8(chksum: nat, bs: seq<byte>): nat { (chksum + Sum(bs)) % 256 }

  lemma Add8Low(x: nat, v: nat)
    ensures Add8(x % 256, v) == (x + v) % 256
  {
  }

  lemma Sum8Snoc(chksum: nat, bs: seq<byte>, v: byte)
    ensures Sum8(chksum, bs + [v]) == Add8(Sum8(chksum, bs), v)
  {
    SumAppend(bs, [v]);
    assert Sum([v]) == v by {
      assert [v][1..] == [];
    }
    Add8Low(chksum + Sum(bs), v);
  }

  lemma ChecksumByte(chksum: nat, bs: seq<byte>, v: byte)
    ensures Sum8(chksum, bs + [v]) == 255 <==> v == 255 - Sum8(chksum, bs)
  {
    Sum8Snoc(chksum, bs, v);
  }

  lemma Sum8Append(chksum: nat, a: seq<byte>, b: seq<byte>)
    ensures Sum8(Sum8(chksum, a), b) == Sum8(chksum, a + b)
  {
    SumAppend(a, b);
    Add8Low(chksum + Sum(a), Sum(b));
  }

  /** What is left of a record after its length byte and type: address, data, checksum. */
  function DecodeRest(s: string, p: nat, kind: char, length: nat): Decoded
  {
    var count, alen := DataCount(kind, length), AddressLength(kind);
    var bytes := HexBytes(s, p, alen + Max0(count) + 1);
    if bytes.None? then NotSRecord
    else if Sum8(length, bytes.value) != 255 then BadChecksum
    else Record(kind, count, BigEndian(bytes.value[..alen]), bytes.value[alen..alen + Max0(count)])
  }

  /** The record that starts at the first 'S'. All bytes, the checksum included, must sum to 0xFF. */
  function Decode(s: string): Decoded
  {
    var p := IndexOfS(s, 0);
    if p + 1 >= |s| then Empty
    else if Hex2Bin(s, p + 2) < 0 then NotSRecord
    else if AddressLength(s[p + 1]) == 0 then BadType
    else DecodeRest(s, p + 4, s[p + 1], Hex2Bin(s, p + 2))
  }

  // ----- the decoder -----

  const SREC_DATA2 := 1
  const SREC_DATA3 := 2
  const SREC_DATA4 := 3
  const SREC_END4 := 7
  const SREC_END3 := 8
  const SREC_END2 := 9
  const SREC_EMPTY := 10
  const SREC_E_BADTYPE := -1
  const SREC_E_NOSREC := -2
  const SREC_E_BADCHKS := -3
  const SREC_MAXBINLEN := 255

  /** The return code of `srec_decode`. */
  function Code(d: Decoded): int
  {
    match d
    case Empty => SREC_EMPTY
    case BadType => SREC_E_BADTYPE
    case NotSRecord => SREC_E_NOSREC
    case BadChecksum => SREC_E_BADCHKS
    case Record(kind, _, _, _) => kind as int - '0' as int
  }

  /** One more byte, or the first bad digit. */
  lemma HexBytesStep(s: string, i: nat, j: nat, k: nat)
    requires j < k && HexBytes(s, i, j).Some?
    ensures Hex2Bin(s, i + 2 * j) < 0 ==> HexBytes(s, i, k).None?
    ensures Hex2Bin(s, i + 2 * j) >= 0 ==>
              HexBytes(s, i, j + 1) == Some(HexBytes(s, i, j).value + [Hex2Bin(s, i + 2 * j)])
  {
    var v := Hex2Bin(s, i + 2 * j);
    HexBytesSplit(s, i, j, k - j);
    HexBytesSplit(s, i, j, 1);
    if v >= 0 {
      assert HexBytes(s, i + 2 * j + 2, 0) == Some([]) && [v] + [] == [v];
    }
  }

  /** Reads `k` bytes of the record, adding them to the checksum and shifting them into `acc`. */
  method ReadField(s: string, i: nat, k: nat, chksum0: nat) returns (ok: bool, next: nat, chksum: nat, acc: nat)
    requires chksum0 < 256
    ensures ok <==> HexBytes(s, i, k).Some?
    ensures ok ==>
              var bs := HexBytes(s, i, k).value;
              next == i + 2 * k && chksum == Sum8(chksum0, bs) && acc == BigEndian(bs)
  {
    ok, next, chksum, acc := true, i, chksum0, 0;
    ghost var bs: seq<byte> := [];
    for j := 0 to k
      invariant next == i + 2 * j && HexBytes(s, i, j) == Some(bs)
      invariant chksum == Sum8(chksum0, bs) && acc == BigEndian(bs)
    {
      var v := Hex2Bin(s, next);
      HexBytesStep(s, i, j, k);
      if v < 0 {
        ok := false;
        return;
      }
      Sum8Snoc(chksum0, bs, v);
      BigEndianSnoc(bs, v);
      bs := bs + [v];
      acc := acc * 256 + v;
      chksum := Add8(chksum, v);
      next := next + 2;
    }
  }

  /** Converts the data bytes into the caller's buffer. */
  method ReadData(s: string, i: nat, count: int, chksum0: nat, data: array<byte>)
    returns (ok: bool, next: nat, chksum: nat)
    requires count <= data.Length && chksum0 < 256
    modifies data
    ensures ok <==> HexBytes(s, i, Max0(count)).Some?
    ensures ok ==>
              var bs := HexBytes(s, i, Max0(count)).value;
              next == i + 2 * Max0(count) && chksum == Sum8(chksum0, bs) && data[..Max0(count)] == bs
  {
    ok, next, chksum := true, i, chksum0;
    var j := 0;
    while j < count
      invariant 0 <= j <= Max0(count) && next == i + 2 * j
      invariant HexBytes(s, i, j) == Some(data[..j])
      invariant chksum == Sum8(chksum0, data[..j])
    {
      var v := Hex2Bin(s, next);
      HexBytesStep(s, i, j, count);
      if v < 0 {
        ok := false;
        return;
      }
      ghost var bs := data[..j];
      Sum8Snoc(chksum0, bs, v);
      data[j] := v;
      assert data[..j + 1] == bs + [v];
      chksum := Add8(chksum, v);
      next := next + 2;
      j := j + 1;
    }
  }

  lemma ThreeParts(length: nat, a: seq<byte>, d: seq<byte>, v: byte)
    ensures (a + d + [v])[..|a|] == a && (a + d + [v])[|a|..|a| + |d|] == d
    ensures Sum8(length, a + d + [v]) == 255 <==> v == 255 - Sum8(Sum8(length, a), d)
  {
    Sum8Append(length, a, d);
    ChecksumByte(length, a + d, v);
  }

  /** Three fields are there exactly if each of them is. */
  lemma ThreeFields(s: string, p: nat, a: nat, n: nat)
    ensures var x, y, v := HexBytes(s, p, a), HexBytes(s, p + 2 * a, n), Hex2Bin(s, p + 2 * a + 2 * n);
            HexBytes(s, p, a + n + 1) ==
            if x.None? || y.None? || v < 0 then None else Some(x.value + y.value + [v])
  {
    HexBytesSplit(s, p, a, n);
    HexBytesSplit(s, p, a + n, 1);
    var v := Hex2Bin(s, p + 2 * (a + n));
    if v >= 0 {
      assert HexBytes(s, p + 2 * (a + n) + 2, 0) == Some([]) && [v] + [] == [v];
    }
  }

  /** The three fields one after the other, with a running checksum, are the rest of the record. */
  lemma DecodeInSteps(s: string, p: nat, kind: char, length: nat)
    ensures var count, alen := DataCount(kind, length), AddressLength(kind);
            var addr, q := HexBytes(s, p, alen), p + 2 * alen;
            var data, r := HexBytes(s, q, Max0(count)), p + 2 * alen + 2 * Max0(count);
            DecodeRest(s, p, kind, length) ==
            if addr.None? || data.None? || Hex2Bin(s, r) < 0 then NotSRecord
            else if Hex2Bin(s, r) != 255 - Sum8(Sum8(length, addr.value), data.value) then BadChecksum
            else Record(kind, count, BigEndian(addr.value), data.value)
  {
    var n, alen := Max0(DataCount(kind, length)), AddressLength(kind);
    ThreeFields(s, p, alen, n);
    if HexBytes(s, p, alen + n + 1).Some? {
      ThreeParts(length, HexBytes(s, p, alen).value, HexBytes(s, p + 2 * alen, n).value, Hex2Bin(s, p + 2 * alen + 2 * n));
    }
  }

  /** Everything behind the length byte. */
  method DecodeFields(input: string, next0: nat, kind: char, length: byte, count: int, data: array<byte>)
    returns (code: int, addr: nat)
    requires data.Length == SREC_MAXBINLEN && count == DataCount(kind, length) && AddressLength(kind) > 0
    modifies data
    ensures var d := DecodeRest(input, next0, kind, length);
            && code == Code(d)
            && (d.Record? ==> count == d.count <= SREC_MAXBINLEN && addr == d.addr && data[..Max0(count)] == d.data)
  {
    var next, chksum: nat, ok := next0, length, true;
    DecodeInSteps(input, next, kind, chksum);
    ok, next, chksum, addr := ReadField(input, next, AddressLength(kind), chksum);
    if !ok {
      return SREC_E_NOSREC, addr;
    }
    ok, next, chksum := ReadData(input, next, count, chksum, data);
    if !ok {
      return SREC_E_NOSREC, addr;
    }
    var v := Hex2Bin(input, next);
    if v < 0 {
      return SREC_E_NOSREC, addr;
    }
    if v != 255 - chksum {
      return SREC_E_BADCHKS, addr;
    }
    code := kind as int - '0' as int;
  }

  /** `srec_decode`: the return code, the data count, the address and, in `data`, the bytes of one line. */
  method SrecDecode(input: string, data: array<byte>) returns (code: int, count: int, addr: nat)
    requires data.Length == SREC_MAXBINLEN
    modifies data
    ensures code == Code(Decode(input))
    ensures Decode(input).Record? ==>
              && count == Decode(input).count && addr == Decode(input).addr && count <= SREC_MAXBINLEN
              && data[..Max0(count)] == Decode(input).data
  {
    count, addr := 0, 0;
    var i := 0;
    while i < |input| && input[i] != 'S'
      invariant 0 <= i <= |input| && IndexOfS(input, 0) == IndexOfS(input, i)
    {
      i := i + 1;
    }
    if i + 1 >= |input| {
      return SREC_EMPTY, count, addr;
    }
    var kind, next := input[i + 1], i + 4;
    count := Hex2Bin(input, i + 2);
    if count < 0 {
      return SREC_E_NOSREC, count, addr;
    }
    var chksum: nat := count;
    if AddressLength(kind) == 0 {
      return SREC_E_BADTYPE, count, addr;
    }
    count := DataCount(kind, count);
    code, addr := DecodeFields(input, next, kind, chksum, count, data);
  }
}
