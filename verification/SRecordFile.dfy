/** Loading any file of S-Records, as a linker writes it: record types, spelling, line ends, entry address. */
module SRecordFile {
  import opened Bytes
  import opened SRecord
  import opened SRecordTransfer
  import opened Wrappers

  // ----- the format, stated without the decoder -----

  const UPPER: string := "0123456789ABCDEF"
  const LOWER: string := "0123456789abcdef"

  /** A digit in either case. */
  predicate IsDigit(c: char, d: nat) { d < 16 && (c == UPPER[d] || c == LOWER[d]) }

  /** Bytes in hexadecimal, in any mixture of cases. */
  predicate Spells(u: string, bs: seq<byte>)
  {
    |u| == 2 * |bs| && forall i | 0 <= i < |bs| :: IsDigit(u[2 * i], bs[i] / 16) && IsDigit(u[2 * i + 1], bs[i] % 16)
  }

  /** The record types and the sizes of their addresses. */
  predicate Format(kind: char, width: nat)
  {
    || (width == 2 && kind in {'0', '1', '5', '9'})
    || (width == 3 && kind in {'2', '8'})
    || (width == 4 && kind in {'3', '7'})
  }

  /** What the checksum covers: length, address and data. */
  function Body(address: seq<byte>, data: seq<byte>): seq<byte>
    requires |address| + |data| + 1 < 256
  {
    [|address| + |data| + 1] + address + data
  }

  /** A line that holds a record behind text without an S; what follows the checksum does not matter. */
  predicate Writes(t: string, p: nat, kind: char, address: seq<byte>, data: seq<byte>, check: byte)
  {
    && Format(kind, |address|) && |address| + |data| + 1 < 256 && (kind == '5' ==> data == [])
    && p + 2 + 2 * (|address| + |data| + 2) <= |t| && 'S' !in t[..p] && t[p] == 'S' && t[p + 1] == kind
    && Spells(t[p + 2..p + 2 + 2 * (|address| + |data| + 2)], Body(address, data) + [check])
  }

  // ----- the decoder agrees with it -----

  lemma DigitTables(d: nat)
    requires d < 16
    ensures UPPER[d] as int == (if d < 10 then 48 + d else 55 + d) && LOWER[d] as int == if d < 10 then 48 + d else 87 + d
  {
    assert UPPER == ['0', '1', '2', '3', '4', '5', '6', '7', '8', '9', 'A', 'B', 'C', 'D', 'E', 'F'];
    assert LOWER == ['0', '1', '2', '3', '4', '5', '6', '7', '8', '9', 'a', 'b', 'c', 'd', 'e', 'f'];
  }

  lemma DigitRead(c: char, d: nat)
    requires d < 16
    ensures Hex1Bin(c) == d <==> IsDigit(c, d)
  {
    DigitTables(d);
  }

  lemma ByteRead(s: string, i: nat, v: byte)
    ensures Hex2Bin(s, i) == v <==> i + 2 <= |s| && IsDigit(s[i], v / 16) && IsDigit(s[i + 1], v % 16)
  {
    if i + 2 <= |s| {
      DigitRead(s[i], v / 16);
      DigitRead(s[i + 1], v % 16);
    }
  }

  lemma SpellsCons(u: string, bs: seq<byte>)
    requires bs != [] && |u| == 2 * |bs|
    ensures Spells(u, bs) <==> IsDigit(u[0], bs[0] / 16) && IsDigit(u[1], bs[0] % 16) && Spells(u[2..], bs[1..])
  {
    var v, cs := u[2..], bs[1..];
    assert forall i | 0 <= i < |cs| :: cs[i] == bs[i + 1] && v[2 * i] == u[2 * (i + 1)] && v[2 * i + 1] == u[2 * (i + 1) + 1];
    if IsDigit(u[0], bs[0] / 16) && IsDigit(u[1], bs[0] % 16) && Spells(v, cs) {
      forall i | 0 <= i < |bs| ensures IsDigit(u[2 * i], bs[i] / 16) && IsDigit(u[2 * i + 1], bs[i] % 16) {
        if i > 0 {
          assert cs[i - 1] == bs[i];
        }
      }
    }
  }

  /** The decoder reads exactly the spellings of some bytes as these bytes. */
  lemma {:induction false} SpelledBytes(s: string, i: nat, bs: seq<byte>)
    requires i <= |s|
    ensures HexBytes(s, i, |bs|) == Some(bs) <==> i + 2 * |bs| <= |s| && Spells(s[i..i + 2 * |bs|], bs)
    decreases |bs|
  {
    if bs != [] && i + 2 <= |s| {
      ByteRead(s, i, bs[0]);
      SpelledBytes(s, i + 2, bs[1..]);
      FirstSpelled(s, i, bs);
      assert bs == [bs[0]] + bs[1..];
    }
  }

  lemma FirstSpelled(s: string, i: nat, bs: seq<byte>)
    requires bs != []
    ensures i + 2 * |bs| <= |s| ==>
              (Spells(s[i..i + 2 * |bs|], bs) <==>
               && IsDigit(s[i], bs[0] / 16) && IsDigit(s[i + 1], bs[0] % 16)
               && Spells(s[i + 2..i + 2 + 2 * |bs[1..]|], bs[1..]))
  {
    if i + 2 * |bs| <= |s| {
      SpellsCons(s[i..i + 2 * |bs|], bs);
      SliceOfSlice(s, i, i + 2 * |bs|, 2, 2 * |bs|);
    }
  }

  lemma FirstS(t: string, p: nat)
    requires p < |t| && 'S' !in t[..p] && t[p] == 'S'
    ensures IndexOfS(t, 0) == p
  {
    forall k | 0 <= k < p ensures t[k] != 'S' {
      assert t[k] == t[..p][k];
    }
  }

  /** The length byte and the bytes behind it. */
  lemma FieldsRead(t: string, p: nat, e: nat, all: seq<byte>, length: byte, rest: seq<byte>)
    requires e == p + 4 + 2 * |rest| <= |t| && all == [length] + rest && Spells(t[p + 2..e], all)
    ensures Hex2Bin(t, p + 2) == length && HexBytes(t, p + 4, |rest|) == Some(rest)
  {
    SpelledBytes(t, p + 2, all);
    assert all[1..] == rest;
  }

  lemma RestRead(t: string, p: nat, kind: char, length: byte, addr: nat, address: seq<byte>, data: seq<byte>, rest: seq<byte>)
    requires AddressLength(kind) == |address| && BigEndian(address) == addr && (kind == '5' ==> data == [])
    requires length == |address| + |data| + 1 == |rest| && rest[..|address| + |data|] == address + data
    requires HexBytes(t, p, length) == Some(rest)
    ensures DecodeRest(t, p, kind, length) ==
            if Sum8(length, rest) == 255 then Record(kind, |data|, addr, data) else BadChecksum
  {
    var n, all := |address|, rest[..|address| + |data|];
    assert rest[..n] == all[..n] == address && rest[n..n + |data|] == all[n..] == data;
  }

  lemma WholeSum(length: byte, address: seq<byte>, data: seq<byte>, check: byte)
    ensures [length] + address + data + [check] == [length] + (address + data + [check])
    ensures Sum8(length, address + data + [check]) == (Sum([length] + address + data) + check) % 256
  {
    var rest := address + data + [check];
    assert [length] + address + data + [check] == [length] + rest;
    SumAppend([length], rest);
    SumAppend([length] + address + data, [check]);
    assert Sum([length]) == length by { assert [length][1..] == []; }
    assert Sum([check]) == check by { assert [check][1..] == []; }
  }

  lemma DecodeFrom(t: string, p: nat)
    requires p + 1 < |t| && 'S' !in t[..p] && t[p] == 'S' && Hex2Bin(t, p + 2) >= 0 && AddressLength(t[p + 1]) > 0
    ensures Decode(t) == DecodeRest(t, p + 4, t[p + 1], Hex2Bin(t, p + 2))
  {
    FirstS(t, p);
  }

  /** The record in `t[p..e]`, field by field. */
  ghost predicate Laid(t: string, p: nat, e: nat, kind: char, length: byte, address: seq<byte>, data: seq<byte>, rest: seq<byte>)
  {
    && AddressLength(kind) == |address| > 0 && (kind == '5' ==> data == [])
    && length == |address| + |data| + 1 == |rest| && rest[..|address| + |data|] == address + data
    && e == p + 4 + 2 * |rest| <= |t| && 'S' !in t[..p] && t[p] == 'S' && t[p + 1] == kind
    && Spells(t[p + 2..e], [length] + rest)
  }

  lemma RecordRead(t: string, p: nat, e: nat, kind: char, length: byte, address: seq<byte>, data: seq<byte>, rest: seq<byte>)
    requires Laid(t, p, e, kind, length, address, data, rest)
    ensures Decode(t) == if Sum8(length, rest) == 255 then Record(kind, |data|, BigEndian(address), data) else BadChecksum
  {
    LineFields(t, p, e, [length] + rest, kind, length, rest);
    RestRead(t, p + 4, kind, length, BigEndian(address), address, data, rest);
  }

  lemma WrittenLaid(t: string, p: nat, e: nat, kind: char, length: byte, address: seq<byte>, data: seq<byte>, check: byte,
                    rest: seq<byte>)
    requires Writes(t, p, kind, address, data, check) && length == |address| + |data| + 1
    requires rest == address + data + [check] && e == p + 2 + 2 * (|address| + |data| + 2)
    ensures Laid(t, p, e, kind, length, address, data, rest)
  {
    FormatKnown(kind, |address|);
    assert Body(address, data) + [check] == [length] + rest;
    assert rest[..|address| + |data|] == address + data;
  }

  lemma BodySum(length: byte, address: seq<byte>, data: seq<byte>, check: byte, rest: seq<byte>)
    requires length == |address| + |data| + 1 && rest == address + data + [check]
    ensures Sum8(length, rest) == (Sum(Body(address, data)) + check) % 256
  {
    WholeSum(length, address, data, check);
  }

  /** A line with a record of any type decodes to it if and only if its bytes sum to 0xFF. */
  lemma LineDecodes(t: string, p: nat, kind: char, address: seq<byte>, data: seq<byte>, check: byte)
    requires Writes(t, p, kind, address, data, check)
    ensures Decode(t) ==
            if (Sum(Body(address, data)) + check) % 256 == 255 then Record(kind, |data|, BigEndian(address), data)
            else BadChecksum
  {
    var length, rest, e := |address| + |data| + 1, address + data + [check], p + 2 + 2 * (|address| + |data| + 2);
    WrittenLaid(t, p, e, kind, length, address, data, check, rest);
    RecordRead(t, p, e, kind, length, address, data, rest);
    BodySum(length, address, data, check, rest);
  }

  lemma FormatKnown(kind: char, width: nat)
    requires Format(kind, width)
    ensures AddressLength(kind) == width > 0
  {
  }

  lemma LineFields(t: string, p: nat, e: nat, all: seq<byte>, kind: char, length: byte, rest: seq<byte>)
    requires e == p + 4 + 2 * |rest| <= |t| && 'S' !in t[..p] && t[p] == 'S' && t[p + 1] == kind && AddressLength(kind) > 0
    requires all == [length] + rest && Spells(t[p + 2..e], all)
    ensures HexBytes(t, p + 4, |rest|) == Some(rest) && Decode(t) == DecodeRest(t, p + 4, kind, length)
  {
    FieldsRead(t, p, e, all, length, rest);
    DecodeFrom(t, p);
  }

  // ----- a file -----

  /** What a line is there for. */
  datatype Item = Blank | Item(kind: char, addr: nat, data: seq<byte>)

  ghost predicate Means(t: string, it: Item)
  {
    && ShortAndPlain(t)
    && if it.Blank? then t == ""
       else exists p, address, check :: Correct(t, p, it, address, check)
  }

  predicate Correct(t: string, p: nat, it: Item, address: seq<byte>, check: byte)
    requires it.Item?
  {
    && Writes(t, p, it.kind, address, it.data, check) && BigEndian(address) == it.addr
    && (Sum(Body(address, it.data)) + check) % 256 == 255
  }

  lemma CorrectDecoded(t: string, p: nat, it: Item, address: seq<byte>, check: byte)
    requires it.Item? && Correct(t, p, it, address, check)
    ensures Decode(t) == AsRecord(it) && Known(it)
  {
    LineDecodes(t, p, it.kind, address, it.data, check);
  }

  function AsRecord(it: Item): Decoded
  {
    if it.Blank? then Empty else Record(it.kind, |it.data|, it.addr, it.data)
  }

  lemma MeaningDecoded(t: string, it: Item)
    requires Means(t, it)
    ensures Decode(t) == AsRecord(it) && Known(it)
  {
    if it.Item? {
      var p, address, check :| Correct(t, p, it, address, check);
      CorrectDecoded(t, p, it, address, check);
    }
  }

  predicate Stored(it: Item) { it.Item? && it.kind in {'1', '2', '3'} }

  predicate Final(it: Item) { it.Item? && it.kind in {'7', '8', '9'} }

  predicate LineEnd(e: char) { e == '\n' || e == '\r' }

  /** The lines, each with its end, CR or LF; a CR LF is a line and a blank one. */
  function FileText(lines: seq<string>, ends: string): string
    requires |lines| == |ends|
  {
    if lines == [] then "" else lines[0] + [ends[0]] + FileText(lines[1..], ends[1..])
  }

  ghost predicate IsFile(lines: seq<string>, ends: string, items: seq<Item>)
  {
    && |lines| == |ends| == |items| && forall j | 0 <= j < |lines| :: LineEnd(ends[j]) && Means(lines[j], items[j])
  }

  ghost predicate Passes(it: Item, t: Target)
  {
    !Final(it) && (Stored(it) ==> t.takes(t.Place(it.addr), it.data))
  }

  /** Every data record of the file is taken, and the file is not over. */
  ghost predicate Goes(items: seq<Item>, t: Target)
  {
    forall j | 0 <= j < |items| :: Passes(items[j], t)
  }

  function StepOf(st: Loading, it: Item, t: Target): Loading
  {
    if Stored(it) then Put(st, t.Place(it.addr), it.data) else st
  }

  function After(st: Loading, items: seq<Item>, t: Target): Loading
    decreases |items|
  {
    if items == [] then st else After(StepOf(st, items[0], t), items[1..], t)
  }

  predicate Known(it: Item) { it.Item? ==> it.kind >= '0' }

  /** The same for any decoder. */
  ghost predicate Reads(decode: string -> Decoded, lines: seq<string>, ends: string, items: seq<Item>)
  {
    && |lines| == |ends| == |items|
    && forall j | 0 <= j < |lines| :: LineEnd(ends[j]) && ReadAs(decode, lines[j], items[j])
  }

  ghost predicate ReadAs(decode: string -> Decoded, line: string, it: Item)
  {
    ShortAndPlain(line) && decode(line) == AsRecord(it) && Known(it)
  }

  lemma FileReads(lines: seq<string>, ends: string, items: seq<Item>)
    requires IsFile(lines, ends, items)
    ensures Reads(Decode, lines, ends, items)
  {
    forall j | 0 <= j < |lines| ensures LineEnd(ends[j]) && ReadAs(Decode, lines[j], items[j]) {
      MeaningDecoded(lines[j], items[j]);
    }
  }

  lemma ItemTaken(it: Item, st: Loading, t: Target)
    requires Known(it)
    ensures TakeRecord(AsRecord(it), st, t) ==
            if Final(it) then Stop(Loaded(it.addr, st, (st.last - st.first + 1) % WORD))
            else if Stored(it) && !t.takes(t.Place(it.addr), it.data) then Stop(Aborted)
            else Go(StepOf(st, it, t))
  {
  }

  /** Going on from the one place is going on from the other. */
  ghost predicate SameLoad(decode: string -> Decoded, inp: string, t: Target, i: nat, st: Loading, j: nat, st': Loading)
  {
    i <= |inp| && j <= |inp| && LoadWith(decode, inp, i, st, t) == LoadWith(decode, inp, j, st', t)
  }

  lemma SameLoads(decode: string -> Decoded, inp: string, t: Target, i: nat, st: Loading, j: nat, st': Loading, k: nat,
                  st'': Loading)
    requires SameLoad(decode, inp, t, i, st, j, st') && SameLoad(decode, inp, t, j, st', k, st'')
    ensures SameLoad(decode, inp, t, i, st, k, st'')
  {
  }

  lemma LineGoes(decode: string -> Decoded, inp: string, i: nat, line: string, e: char, rest: string, it: Item, st: Loading,
                 st': Loading, t: Target)
    requires i <= |inp| && inp[i..] == line + [e] + rest && LineEnd(e) && ReadAs(decode, line, it) && Passes(it, t)
    requires st' == StepOf(st, it, t)
    ensures i + |line| + 1 <= |inp| && inp[i + |line| + 1..] == rest
    ensures SameLoad(decode, inp, t, i, st, i + |line| + 1, st')
  {
    NextLine(inp, i, line, e, rest);
    ItemTaken(it, st, t);
  }

  lemma ReadsTail(decode: string -> Decoded, lines: seq<string>, ends: string, items: seq<Item>, t: Target)
    requires lines != [] && Reads(decode, lines, ends, items) && Goes(items, t)
    ensures LineEnd(ends[0]) && ReadAs(decode, lines[0], items[0]) && Passes(items[0], t)
    ensures Reads(decode, lines[1..], ends[1..], items[1..]) && Goes(items[1..], t)
  {
  }

  lemma AfterCons(st: Loading, items: seq<Item>, t: Target, st': Loading)
    requires items != [] && st' == StepOf(st, items[0], t)
    ensures After(st, items, t) == After(st', items[1..], t)
  {
  }

  lemma FirstLine(line: string, e: char, more: string, rest: string)
    ensures line + [e] + more + rest == line + [e] + (more + rest)
  {
  }

  /** The lines before the end of the file, whatever follows them. */
  lemma {:induction false} LinesTaken(decode: string -> Decoded, inp: string, i: nat, lines: seq<string>, ends: string,
                                      items: seq<Item>, rest: string, st: Loading, t: Target) returns (e: nat)
    requires i <= |inp| && Reads(decode, lines, ends, items) && Goes(items, t) && inp[i..] == FileText(lines, ends) + rest
    ensures e <= |inp| && inp[e..] == rest && SameLoad(decode, inp, t, i, st, e, After(st, items, t))
    decreases |lines|
  {
    if lines == [] {
      e := i;
      assert FileText(lines, ends) + rest == rest;
    } else {
      var more := FileText(lines[1..], ends[1..]);
      ReadsTail(decode, lines, ends, items, t);
      FirstLine(lines[0], ends[0], more, rest);
      var st' := StepOf(st, items[0], t);
      LineGoes(decode, inp, i, lines[0], ends[0], more + rest, items[0], st, st', t);
      e := LinesTaken(decode, inp, i + |lines[0]| + 1, lines[1..], ends[1..], items[1..], rest, st', t);
      AfterCons(st, items, t, st');
      SameLoads(decode, inp, t, i, st, i + |lines[0]| + 1, st', e, After(st', items[1..], t));
    }
  }

  /** The load after the lines, from the start. */
  lemma StartTaken(decode: string -> Decoded, inp: string, lines: seq<string>, ends: string, items: seq<Item>, rest: string,
                   m0: map<int, byte>, t: Target)
    returns (i: nat, st: Loading)
    requires Reads(decode, lines, ends, items) && Goes(items, t) && inp == FileText(lines, ends) + rest
    ensures i <= |inp| && inp[i..] == rest && st == After(Loading(m0, WORD - 1, 0), items, t)
    ensures LoadWith(decode, inp, 0, Loading(m0, WORD - 1, 0), t) == LoadWith(decode, inp, i, st, t)
  {
    assert inp[0..] == inp;
    st := After(Loading(m0, WORD - 1, 0), items, t);
    i := LinesTaken(decode, inp, 0, lines, ends, items, rest, Loading(m0, WORD - 1, 0), t);
  }

  /** The lines and one more that ends the load. */
  lemma StoppedAt(decode: string -> Decoded, inp: string, lines: seq<string>, ends: string, items: seq<Item>, line: string,
                  e: char, r: Decoded, rest: string, m0: map<int, byte>, t: Target)
    requires Reads(decode, lines, ends, items) && Goes(items, t) && ShortAndPlain(line) && decode(line) == r && LineEnd(e)
    requires inp == FileText(lines, ends) + (line + [e] + rest)
    requires TakeRecord(r, After(Loading(m0, WORD - 1, 0), items, t), t).Stop?
    ensures LoadWith(decode, inp, 0, Loading(m0, WORD - 1, 0), t) ==
            TakeRecord(r, After(Loading(m0, WORD - 1, 0), items, t), t).result
  {
    var i, st := StartTaken(decode, inp, lines, ends, items, line + [e] + rest, m0, t);
    NextLine(inp, i, line, e, rest);
  }

  lemma StoppedByItem(decode: string -> Decoded, inp: string, lines: seq<string>, ends: string, items: seq<Item>,
                      line: string, e: char, it: Item, rest: string, m0: map<int, byte>, t: Target)
    requires Reads(decode, lines, ends, items) && Goes(items, t) && ReadAs(decode, line, it) && LineEnd(e) && !Passes(it, t)
    requires inp == FileText(lines, ends) + (line + [e] + rest)
    ensures var st := After(Loading(m0, WORD - 1, 0), items, t);
            LoadWith(decode, inp, 0, Loading(m0, WORD - 1, 0), t) ==
            if Final(it) then Loaded(it.addr, st, (st.last - st.first + 1) % WORD) else Aborted
  {
    ItemTaken(it, After(Loading(m0, WORD - 1, 0), items, t), t);
    StoppedAt(decode, inp, lines, ends, items, line, e, AsRecord(it), rest, m0, t);
  }

  lemma MeansRead(line: string, it: Item)
    requires Means(line, it)
    ensures ReadAs(Decode, line, it)
  {
    MeaningDecoded(line, it);
  }

  /** A file that ends in an end record: the load reports its address, and what the data records have left. */
  lemma FileLoaded(inp: string, lines: seq<string>, ends: string, items: seq<Item>, line: string, e: char, end: Item,
                   rest: string, m0: map<int, byte>, t: Target)
    requires IsFile(lines, ends, items) && Goes(items, t) && Means(line, end) && Final(end) && LineEnd(e)
    requires inp == FileText(lines, ends) + (line + [e] + rest)
    ensures var st := After(Loading(m0, WORD - 1, 0), items, t);
            LoadWith(Decode, inp, 0, Loading(m0, WORD - 1, 0), t) == Loaded(end.addr, st, (st.last - st.first + 1) % WORD)
  {
    FileReads(lines, ends, items);
    MeansRead(line, end);
    StoppedByItem(Decode, inp, lines, ends, items, line, e, end, rest, m0, t);
  }

  /** A data record that flash refuses ends the load. */
  lemma FileRefused(inp: string, lines: seq<string>, ends: string, items: seq<Item>, line: string, e: char, it: Item,
                    rest: string, m0: map<int, byte>, t: Target)
    requires IsFile(lines, ends, items) && Goes(items, t) && Means(line, it) && LineEnd(e)
    requires Stored(it) && !Passes(it, t)
    requires inp == FileText(lines, ends) + (line + [e] + rest)
    ensures LoadWith(Decode, inp, 0, Loading(m0, WORD - 1, 0), t) == Aborted
  {
    FileReads(lines, ends, items);
    MeansRead(line, it);
    StoppedByItem(Decode, inp, lines, ends, items, line, e, it, rest, m0, t);
  }

  /** So does a record whose bytes do not sum to 0xFF. */
  lemma FileDamaged(inp: string, lines: seq<string>, ends: string, items: seq<Item>, line: string, e: char, p: nat, kind: char,
                    address: seq<byte>, data: seq<byte>, check: byte, rest: string, m0: map<int, byte>, t: Target)
    requires IsFile(lines, ends, items) && Goes(items, t) && ShortAndPlain(line) && LineEnd(e)
    requires Writes(line, p, kind, address, data, check) && (Sum(Body(address, data)) + check) % 256 != 255
    requires inp == FileText(lines, ends) + (line + [e] + rest)
    ensures LoadWith(Decode, inp, 0, Loading(m0, WORD - 1, 0), t) == Aborted
  {
    FileReads(lines, ends, items);
    LineDecodes(line, p, kind, address, data, check);
    StoppedAt(Decode, inp, lines, ends, items, line, e, BadChecksum, rest, m0, t);
  }

  lemma {:induction false} Cancelling(inp: string, start: nat, i: nat, t: string)
    requires start <= i && i - start + |t| < SREC_MAXRECLEN && Plain(t) && i + |t| < |inp| && inp[i..i + |t|] == t
    requires inp[i + |t|] == 3 as char || inp[i + |t|] == 0 as char
    ensures ReadLine(inp, start, i) == Cancelled
    decreases |t|
  {
    if t != "" {
      assert inp[i] == inp[i..i + |t|][0];
      SliceOfSlice(inp, i, i + |t|, 1, |t|);
      Cancelling(inp, start, i + 1, t[1..]);
    }
  }

  /** ^C or a NUL anywhere in a line ends the load. */
  lemma FileCancelled(inp: string, lines: seq<string>, ends: string, items: seq<Item>, line: string, c: char, rest: string,
                      m0: map<int, byte>, t: Target)
    requires IsFile(lines, ends, items) && Goes(items, t) && ShortAndPlain(line) && (c == 3 as char || c == 0 as char)
    requires inp == FileText(lines, ends) + (line + [c] + rest)
    ensures LoadWith(Decode, inp, 0, Loading(m0, WORD - 1, 0), t) == Aborted
  {
    FileReads(lines, ends, items);
    var i, st := StartTaken(Decode, inp, lines, ends, items, line + [c] + rest, m0, t);
    assert inp[i..i + |line|] == inp[i..][..|line|] && inp[i + |line|] == inp[i..][|line|];
    Cancelling(inp, i, i, line);
  }

  lemma {:induction false} CutAt(inp: string, start: nat, i: nat, end: nat)
    requires start <= i <= end <= |inp| && end == start + 516 && forall k | i <= k < end :: inp[k] >= ' '
    ensures ReadLine(inp, start, i) == Line(inp[start..end], end)
    decreases end - i
  {
    if i < end {
      CutAt(inp, start, i + 1, end);
    }
  }

  /** A line without an end is cut after 516 characters, and what follows is the next one. */
  lemma LongLineCut(inp: string, i: nat)
    requires i + 516 <= |inp| && forall k | i <= k < i + 516 :: inp[k] >= ' '
    ensures ReadLine(inp, i, i) == Line(inp[i..i + 516], i + 516)
  {
    CutAt(inp, i, i, i + 516);
  }

  // ----- what the data records leave -----

  /** Address `x` gets byte `k` of the record, if it gets one. */
  predicate Hits(it: Item, t: Target, x: nat) { Stored(it) && (x - t.Place(it.addr)) % WORD < |it.data| }

  /** The byte at `x`: that of the last record that has one for it, or the old one. */
  ghost predicate HoldsAt(mem: map<int, byte>, m0: map<int, byte>, items: seq<Item>, t: Target, x: nat)
  {
    if items == [] then (x in mem <==> x in m0) && (x in m0 ==> mem[x] == m0[x])
    else
      var it := items[|items| - 1];
      if Hits(it, t, x) then x in mem && mem[x] == it.data[(x - t.Place(it.addr)) % WORD]
      else HoldsAt(mem, m0, items[..|items| - 1], t, x)
  }

  lemma {:induction false} AfterSnoc(st: Loading, items: seq<Item>, t: Target)
    requires items != []
    ensures After(st, items, t) == StepOf(After(st, items[..|items| - 1], t), items[|items| - 1], t)
    decreases |items|
  {
    if |items| > 1 {
      AfterSnoc(StepOf(st, items[0], t), items[1..], t);
      assert items[1..][..|items| - 2] == items[..|items| - 1][1..];
    } else {
      assert items[1..] == [] && items[..0] == [];
    }
  }

  lemma {:induction false} SameByte(mem: map<int, byte>, mem': map<int, byte>, m0: map<int, byte>, items: seq<Item>, t: Target,
                                    x: nat)
    requires HoldsAt(mem, m0, items, t, x) && (x in mem <==> x in mem') && (x in mem ==> mem[x] == mem'[x])
    ensures HoldsAt(mem', m0, items, t, x)
    decreases |items|
  {
    if items != [] && !Hits(items[|items| - 1], t, x) {
      SameByte(mem, mem', m0, items[..|items| - 1], t, x);
    }
  }

  /** Memory after a load, byte by byte, for any records in any order, overlapping or not. */
  lemma {:induction false} FileInMemory(m0: map<int, byte>, items: seq<Item>, t: Target, x: nat)
    requires x < WORD && forall j | 0 <= j < |items| :: items[j].Item? ==> |items[j].data| < 256
    ensures HoldsAt(After(Loading(m0, WORD - 1, 0), items, t).mem, m0, items, t, x)
    decreases |items|
  {
    var st0 := Loading(m0, WORD - 1, 0);
    if items != [] {
      var n := |items| - 1;
      var st, it := After(st0, items[..n], t), items[n];
      AfterSnoc(st0, items, t);
      FileInMemory(m0, items[..n], t, x);
      if Stored(it) {
        StoreAt(st.mem, t.Place(it.addr), it.data, x);
      }
      if !Hits(it, t, x) {
        SameByte(st.mem, After(st0, items, t).mem, m0, items[..n], t, x);
      }
    }
  }

  function EndOf(it: Item, t: Target): int
    requires it.Item?
  {
    (t.Place(it.addr) + |it.data| - 1) % WORD
  }

  /** The lowest start of a data record, or 0xFFFFFFFF. */
  ghost predicate FirstOf(first: int, items: seq<Item>, t: Target)
  {
    && first < WORD && (forall j | 0 <= j < |items| && Stored(items[j]) :: first <= t.Place(items[j].addr))
    && (first == WORD - 1 || exists j :: 0 <= j < |items| && StartsAt(items[j], t, first))
  }

  /** The highest end of a data record, or 0. */
  ghost predicate LastOf(last: int, items: seq<Item>, t: Target)
  {
    && last < WORD && (forall j | 0 <= j < |items| && Stored(items[j]) :: EndOf(items[j], t) <= last)
    && (last == 0 || exists j :: 0 <= j < |items| && EndsAt(items[j], t, last))
  }

  predicate StartsAt(it: Item, t: Target, x: int) { Stored(it) && t.Place(it.addr) == x }

  predicate EndsAt(it: Item, t: Target, x: int) { Stored(it) && EndOf(it, t) == x }

  ghost predicate Bounds(st: Loading, items: seq<Item>, t: Target) { FirstOf(st.first, items, t) && LastOf(st.last, items, t) }

  lemma FirstStep(st: Loading, items: seq<Item>, it: Item, t: Target, all: seq<Item>)
    requires FirstOf(st.first, items, t) && all == items + [it]
    ensures FirstOf(StepOf(st, it, t).first, all, t)
  {
    assert all[|items|] == it;
    var first := StepOf(st, it, t).first;
    if first != WORD - 1 {
      if first == st.first {
        var j :| 0 <= j < |items| && StartsAt(items[j], t, st.first);
        assert StartsAt(all[j], t, first);
      } else {
        assert StartsAt(all[|items|], t, first);
      }
    }
  }

  lemma LastStep(st: Loading, items: seq<Item>, it: Item, t: Target, all: seq<Item>)
    requires LastOf(st.last, items, t) && all == items + [it]
    ensures LastOf(StepOf(st, it, t).last, all, t)
  {
    assert all[|items|] == it;
    var last := StepOf(st, it, t).last;
    if last != 0 {
      if last == st.last {
        var j :| 0 <= j < |items| && EndsAt(items[j], t, st.last);
        assert EndsAt(all[j], t, last);
      } else {
        assert EndsAt(all[|items|], t, last);
      }
    }
  }

  /** First and last after a load are the lowest start and the highest end of a data record. */
  lemma {:induction false} FileBounds(m0: map<int, byte>, items: seq<Item>, t: Target)
    ensures Bounds(After(Loading(m0, WORD - 1, 0), items, t), items, t)
    decreases |items|
  {
    if items != [] {
      var n := |items| - 1;
      AfterSnoc(Loading(m0, WORD - 1, 0), items, t);
      FileBounds(m0, items[..n], t);
      var st := After(Loading(m0, WORD - 1, 0), items[..n], t);
      assert items == items[..n] + [items[n]];
      FirstStep(st, items[..n], items[n], t, items);
      LastStep(st, items[..n], items[n], t, items);
    }
  }
}
