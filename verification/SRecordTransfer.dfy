/** Dumping a memory region as S-Records (`save_serial`) and loading it again (`load_serial`). */
module SRecordTransfer {
  import opened Bytes
  import opened SRecord
  import opened Wrappers

  const SREC_MAXRECLEN := 516
  const SREC_BYTES_PER_RECORD := 16
  const RECORD_SIZE := 2 * SREC_BYTES_PER_RECORD + 16
  const DATA_SIZE := 2 * SREC_BYTES_PER_RECORD + 1
  const SREC3_START: string := "S0030000FC"
  const SREC3_END: string := "S70500000000FA"

  // ----- the text of a dump -----

  /** Everything a record's checksum covers after its type: length, address, data. */
  function Covered(a: nat, bs: seq<byte>): seq<byte>
    requires |bs| <= 250
  {
    [5 + |bs|] + BytesOf(a, 4) + bs
  }

  function Checksum(a: nat, bs: seq<byte>): byte
    requires |bs| <= 250
  {
    255 - Sum(Covered(a, bs)) % 256
  }

  function RecordText(a: nat, bs: seq<byte>): string
    requires |bs| <= 250
  {
    "S3" + (HexNumber(5 + |bs|, 2) + HexNumber(a, 8) + HexText(bs) + HexNumber(Checksum(a, bs), 2))
  }

  /** How many bytes the next record takes. */
  function Chunk(bs: seq<byte>): nat { if |bs| < SREC_BYTES_PER_RECORD then |bs| else SREC_BYTES_PER_RECORD }

  /** The records of a dump of `bs` from address `a` on; addresses have 32 bits. */
  function RecordList(a: nat, bs: seq<byte>): seq<Decoded>
    decreases |bs|
  {
    if bs == [] then []
    else [Record('3', Chunk(bs), a, bs[..Chunk(bs)])] + RecordList((a + Chunk(bs)) % WORD, bs[Chunk(bs)..])
  }

  function Printed(r: Decoded): string
  {
    if r.Record? && |r.data| <= 250 then RecordText(r.addr, r.data) else ""
  }

  function Lines(rs: seq<Decoded>): (lines: seq<string>)
    ensures |lines| == |rs|
  {
    seq(|rs|, i requires 0 <= i < |rs| => Printed(rs[i]))
  }

  function Join(lines: seq<string>): string
  {
    if lines == [] then "" else lines[0] + "\n" + Join(lines[1..])
  }

  function Dump(a: nat, bs: seq<byte>): string
  {
    Join([SREC3_START] + Lines(RecordList(a, bs)) + [SREC3_END])
  }

  /** A record is hexadecimal byte by byte, its checksum byte included. */
  lemma RecordTextBytes(a: nat, bs: seq<byte>)
    requires |bs| <= 250
    ensures RecordText(a, bs) == "S3" + HexText(Covered(a, bs) + [Checksum(a, bs)])
  {
    HexNumberByte(5 + |bs|);
    HexNumberByte(Checksum(a, bs));
    HexNumberBytes(a, 4);
    HexTextAppend([5 + |bs|], BytesOf(a, 4));
    HexTextAppend([5 + |bs|] + BytesOf(a, 4), bs);
    HexTextAppend(Covered(a, bs), [Checksum(a, bs)]);
  }

  /** All bytes of a record, checksum included, sum to 0xFF. */
  lemma RecordSum(a: nat, bs: seq<byte>)
    requires |bs| <= 250
    ensures Sum(Covered(a, bs) + [Checksum(a, bs)]) % 256 == 255
    ensures Sum8(5 + |bs|, BytesOf(a, 4) + bs + [Checksum(a, bs)]) == 255
  {
    var length, rest := 5 + |bs|, BytesOf(a, 4) + bs + [Checksum(a, bs)];
    ChecksumByte(0, Covered(a, bs), Checksum(a, bs));
    assert Covered(a, bs) + [Checksum(a, bs)] == [length] + rest;
    SumAppend([length], rest);
    assert Sum([length]) == length by { assert [length][1..] == []; }
  }

  /** A type, a length and bytes in hexadecimal, as the decoder reads them. */
  lemma HexFields(t: string, kind: string, length: byte, rest: seq<byte>)
    requires |kind| == 2 && t == kind + (HexText([length]) + HexText(rest))
    ensures |t| == 4 + 2 * |rest| && t[0] == kind[0] && t[1] == kind[1]
    ensures Hex2Bin(t, 2) == length && HexBytes(t, 4, |rest|) == Some(rest)
  {
    assert t[2..2 + 2 * 1] == HexText([length]);
    HexBytesText(t, 2, [length]);
    assert HexBytes(t, 2, 1) == Some([length]);
    assert t[4..4 + 2 * |rest|] == HexText(rest);
    HexBytesText(t, 4, rest);
  }

  /** The fields of a record's text. */
  lemma RecordFields(a: nat, bs: seq<byte>)
    requires |bs| <= 250
    ensures var t, rest := RecordText(a, bs), BytesOf(a, 4) + bs + [Checksum(a, bs)];
            && |t| == 14 + 2 * |bs| && t[0] == 'S' && t[1] == '3'
            && Hex2Bin(t, 2) == 5 + |bs| && HexBytes(t, 4, 5 + |bs|) == Some(rest)
  {
    RecordTextBytes(a, bs);
    CoveredFields(RecordText(a, bs), 5 + |bs|, BytesOf(a, 4), bs, Checksum(a, bs));
  }

  lemma CoveredFields(t: string, length: byte, address: seq<byte>, bs: seq<byte>, check: byte)
    requires t == "S3" + HexText([length] + address + bs + [check])
    ensures |t| == 6 + 2 * (|address| + |bs|) && t[0] == 'S' && t[1] == '3'
    ensures Hex2Bin(t, 2) == length && HexBytes(t, 4, |address| + |bs| + 1) == Some(address + bs + [check])
  {
    Flattened([length], address, bs, [check]);
    HexTextAppend([length], address + bs + [check]);
    HexFields(t, "S3", length, address + bs + [check]);
  }

  lemma Flattened<T>(a: seq<T>, b: seq<T>, c: seq<T>, d: seq<T>)
    ensures a + b + c + d == a + (b + c + d)
  {
  }

  lemma DecodeAtS(t: string)
    requires |t| >= 2 && t[0] == 'S' && Hex2Bin(t, 2) >= 0 && AddressLength(t[1]) > 0
    ensures Decode(t) == DecodeRest(t, 4, t[1], Hex2Bin(t, 2))
  {
    assert IndexOfS(t, 0) == 0;
  }

  /** A data record decodes to its address and data, and fits the buffer it is printed into. */
  lemma RecordDecodes(a: nat, bs: seq<byte>)
    requires a < WORD && |bs| <= 250
    ensures Decode(RecordText(a, bs)) == Record('3', |bs|, a, bs)
    ensures |bs| <= SREC_BYTES_PER_RECORD ==> |RecordText(a, bs) + "\n"| + 1 <= RECORD_SIZE
  {
    RecordFields(a, bs);
    RecordSum(a, bs);
    DecodeAtS(RecordText(a, bs));
    assert Limit(4) == WORD by { assert Limit(4) == 256 * (256 * (256 * (256 * Limit(0)))); }
    BytesOfValue(a, 4);
    var rest := BytesOf(a, 4) + bs + [Checksum(a, bs)];
    assert rest[..4] == BytesOf(a, 4) && rest[4..4 + |bs|] == bs;
  }

  // ----- reading lines -----

  datatype Line = Blocked | Cancelled | Line(text: string, next: nat)

  function ReadLine(inp: string, start: nat, i: nat): (r: Line)
    requires start <= i <= |inp| && i - start <= SREC_MAXRECLEN
    ensures r.Line? ==> i <= r.next <= |inp| && start < r.next
    decreases |inp| - i
  {
    if i - start == SREC_MAXRECLEN then Line(inp[start..i], i)
    else if i == |inp| then Blocked
    else if inp[i] == '\r' || inp[i] == '\n' then Line(inp[start..i], i + 1)
    else if inp[i] == 0 as char || inp[i] == 3 as char then Cancelled
    else ReadLine(inp, start, i + 1)
  }

  predicate Plain(t: string) { forall i | 0 <= i < |t| :: t[i] >= ' ' }

  lemma {:induction false} ReadPlainLine(inp: string, start: nat, i: nat, t: string, e: char)
    requires start <= i <= |inp| && i - start + |t| < SREC_MAXRECLEN && Plain(t) && (e == '\n' || e == '\r')
    requires t + [e] <= inp[i..]
    ensures ReadLine(inp, start, i) == Line(inp[start..i + |t|], i + |t| + 1)
    decreases |t|
  {
    assert inp[i] == (t + [e])[0];
    if t != "" {
      assert t[0] == inp[i];
      assert inp[i + 1..] == inp[i..][1..] && (t + [e])[1..] == t[1..] + [e];
      ReadPlainLine(inp, start, i + 1, t[1..], e);
    }
  }

  lemma {:induction false} HexTextPlain(bs: seq<byte>)
    ensures Plain(HexText(bs))
  {
    if bs != [] {
      HexTextPlain(bs[1..]);
    }
  }

  // ----- loading -----

  datatype Loading = Loading(mem: map<int, byte>, first: nat, last: nat)

  /** `Undefined`: a data record with a negative byte count reaches `memcpy`. */
  datatype LoadResult = Pending | Aborted | Undefined | Loaded(addr: nat, state: Loading, size: nat)

  /** Where a load goes: the offset, and whether storing bytes at an address succeeds. Memory always takes them; flash
      may refuse, and holds them if it does not. */
  datatype Target = Target(offset: int, takes: (nat, seq<byte>) -> bool)
  {
    function Place(addr: nat): nat { (addr + offset) % WORD }
  }

  /** The bytes from address `at` on, in a 32-bit address space. */
  function Store(mem: map<int, byte>, at: nat, bs: seq<byte>): map<int, byte>
  {
    if bs == [] then mem else Store(mem, at, bs[..|bs| - 1])[(at + |bs| - 1) % WORD := bs[|bs| - 1]]
  }

  /** Bytes that go to address `at`. */
  function Put(st: Loading, at: nat, bs: seq<byte>): Loading
  {
    var end := (at + |bs| - 1) % WORD;
    Loading(Store(st.mem, at, bs), if at < st.first then at else st.first, if end > st.last then end else st.last)
  }

  predicate IsData(kind: char) { kind == '1' || kind == '2' || kind == '3' }
  predicate IsEnd(kind: char) { kind == '7' || kind == '8' || kind == '9' }

  datatype Step = Stop(result: LoadResult) | Go(state: Loading)

  /** What the loader does with one decoded line. */
  function TakeRecord(r: Decoded, st: Loading, t: Target): Step
  {
    if Code(r) < 0 then Stop(Aborted)
    else if r.Record? && IsData(r.kind) then
      if r.count != |r.data| then Stop(Undefined)
      else if !t.takes(t.Place(r.addr), r.data) then Stop(Aborted)
      else Go(Put(st, t.Place(r.addr), r.data))
    else if r.Record? && IsEnd(r.kind) then Stop(Loaded(r.addr, st, (st.last - st.first + 1) % WORD))
    else Go(st)
  }

  /** The load from index `i` on; `decode` is the decoder in use. */
  function LoadWith(decode: string -> Decoded, inp: string, i: nat, st: Loading, t: Target): LoadResult
    requires i <= |inp|
    decreases |inp| - i
  {
    match ReadLine(inp, i, i)
    case Blocked => Pending
    case Cancelled => Aborted
    case Line(text, next) =>
      match TakeRecord(decode(text), st, t)
      case Stop(result) => result
      case Go(st') => LoadWith(decode, inp, next, st', t)
  }

  /** The same on records already cut and decoded. */
  function LoadAll(rs: seq<Decoded>, st: Loading, t: Target): LoadResult
    decreases |rs|
  {
    if rs == [] then Pending
    else
      match TakeRecord(rs[0], st, t)
      case Stop(result) => result
      case Go(st') => LoadAll(rs[1..], st', t)
  }

  predicate ShortAndPlain(t: string) { Plain(t) && |t| < SREC_MAXRECLEN }

  /** One line of a known text: where it ends, and what follows. */
  lemma NextLine(inp: string, i: nat, t: string, e: char, rest: string)
    requires Plain(t) && |t| < SREC_MAXRECLEN && (e == '\n' || e == '\r') && i <= |inp| && inp[i..] == (t + [e]) + rest
    ensures i + |t| + 1 <= |inp| && inp[i + |t| + 1..] == rest
    ensures ReadLine(inp, i, i) == Line(t, i + |t| + 1)
  {
    ReadPlainLine(inp, i, i, t, e);
    assert inp[i..i + |t|] == inp[i..][..|t|] == t;
    assert inp[i + |t| + 1..] == inp[i..][|t| + 1..] == rest;
  }

  lemma {:induction false} LoadJoined(decode: string -> Decoded, inp: string, i: nat, lines: seq<string>,
                                      rs: seq<Decoded>, st: Loading, t: Target)
    requires i <= |inp| && inp[i..] == Join(lines) && |rs| == |lines|
    requires forall j | 0 <= j < |lines| :: ShortAndPlain(lines[j]) && decode(lines[j]) == rs[j]
    ensures LoadWith(decode, inp, i, st, t) == LoadAll(rs, st, t)
    decreases |lines|
  {
    if lines == [] {
      assert i == |inp|;
    } else {
      NextLine(inp, i, lines[0], '\n', Join(lines[1..]));
      var step := TakeRecord(rs[0], st, t);
      if step.Go? {
        LoadJoined(decode, inp, i + |lines[0]| + 1, lines[1..], rs[1..], step.state, t);
      }
    }
  }

  lemma WrapAdd(a: int, k: int, n: int)
    ensures ((a + k) % WORD + n) % WORD == (a + (k + n)) % WORD
  {
  }

  /** The address behind `at` by `k` is `x` exactly if `x` is that far behind. */
  lemma Behind(at: nat, k: nat, x: nat)
    requires at < WORD && k < WORD && x < WORD
    ensures (at + k) % WORD == x <==> (x - at) % WORD == k
  {
  }

  /** Storing is pointwise: the region gets the bytes, everything else stays. */
  lemma {:induction false} StoreAt(mem: map<int, byte>, at: nat, bs: seq<byte>, x: nat)
    requires at < WORD && |bs| <= WORD && x < WORD
    ensures var k := (x - at) % WORD;
            if k < |bs| then x in Store(mem, at, bs) && Store(mem, at, bs)[x] == bs[k]
            else (x in Store(mem, at, bs) <==> x in mem) && (x in mem ==> Store(mem, at, bs)[x] == mem[x])
    decreases |bs|
  {
    if bs != [] {
      StoreAt(mem, at, bs[..|bs| - 1], x);
      Behind(at, |bs| - 1, x);
    }
  }

  lemma {:induction false} StoreAppend(mem: map<int, byte>, at: nat, a: seq<byte>, b: seq<byte>)
    ensures Store(Store(mem, at, a), (at + |a|) % WORD, b) == Store(mem, at, a + b)
    decreases |b|
  {
    if b == [] {
      assert a + b == a;
    } else {
      assert (a + b)[..|a + b| - 1] == a + b[..|b| - 1];
      StoreAppend(mem, at, a, b[..|b| - 1]);
      WrapAdd(at, |a|, |b| - 1);
    }
  }

  // ----- the round trip -----

  lemma ShortRest(t: string, kind: char, bytes: seq<byte>)
    requires kind != '5' && |bytes| == AddressLength(kind) + 1
    requires HexBytes(t, 4, |bytes|) == Some(bytes) && Sum8(|bytes|, bytes) == 255
    ensures DecodeRest(t, 4, kind, |bytes|) == Record(kind, 0, BigEndian(bytes[..|bytes| - 1]), [])
  {
    var n := AddressLength(kind);
    assert bytes[n..n + 0] == [];
  }

  /** A record without data whose length byte counts only address and checksum. */
  lemma ShortRecord(t: string, bytes: seq<byte>)
    requires |t| >= 4 && t[0] == 'S' && AddressLength(t[1]) > 0 && t[1] != '5'
    requires Hex2Bin(t, 2) == |bytes| == AddressLength(t[1]) + 1
    requires HexBytes(t, 4, |bytes|) == Some(bytes) && Sum8(|bytes|, bytes) == 255
    ensures Decode(t) == Record(t[1], 0, BigEndian(bytes[..|bytes| - 1]), [])
  {
    ShortRest(t, t[1], bytes);
    DecodeAtS(t);
  }

  lemma RecordTextPlain(a: nat, bs: seq<byte>)
    requires |bs| <= 250
    ensures Plain(RecordText(a, bs))
  {
    RecordTextBytes(a, bs);
    HexTextPlain(Covered(a, bs) + [Checksum(a, bs)]);
  }

  lemma {:induction false} ZeroBytes(n: nat)
    ensures Sum(BytesOf(0, n)) == 0 && BigEndian(BytesOf(0, n)) == 0
  {
    if n > 0 {
      ZeroBytes(n - 1);
      SumAppend(BytesOf(0, n - 1), [0]);
      assert BytesOf(0, n)[..n - 1] == BytesOf(0, n - 1);
      assert Sum([0]) == 0 by { assert [0][1..] == []; }
    }
  }

  lemma ZeroRecordFields(t: string, kind: char, n: nat, v: byte)
    requires n < 255 && t == ['S', kind] + (HexText([n + 1]) + (HexNumber(0, 2 * n) + HexText([v])))
    ensures Hex2Bin(t, 2) == n + 1 && HexBytes(t, 4, n + 1) == Some(BytesOf(0, n) + [v]) && Plain(t[2..])
  {
    var bs := BytesOf(0, n) + [v];
    HexNumberBytes(0, n);
    HexTextAppend(BytesOf(0, n), [v]);
    HexFields(t, ['S', kind], n + 1, bs);
    assert t[2..] == HexText([n + 1]) + HexText(bs);
    HexTextPlain([n + 1]);
    HexTextPlain(bs);
  }

  lemma ZeroSum(n: nat, v: byte)
    requires n < 255 && v == 254 - n
    ensures Sum8(n + 1, BytesOf(0, n) + [v]) == 255
  {
    ZeroBytes(n);
    SumAppend(BytesOf(0, n), [v]);
    assert Sum([v]) == v by { assert [v][1..] == []; }
  }

  /** A record that has nothing but the address 0: a type, a length, zeros and the checksum. */
  lemma ZeroRecord(t: string, kind: char, n: nat)
    requires n == AddressLength(kind) > 0 && kind != '5'
    requires t == ['S', kind] + (HexText([n + 1]) + (HexNumber(0, 2 * n) + HexText([254 - n])))
    ensures Decode(t) == Record(kind, 0, 0, []) && Plain(t[2..])
  {
    var v: byte := 254 - n;
    var bs := BytesOf(0, n) + [v];
    ZeroRecordFields(t, kind, n, v);
    ZeroSum(n, v);
    ZeroBytes(n);
    assert bs[..|bs| - 1] == BytesOf(0, n);
    ShortRecord(t, bs);
  }

  lemma TwoDigits(v: byte, high: char, low: char)
    requires Digit(v / 16) == high && Digit(v % 16) == low
    ensures HexText([v]) == [high, low]
  {
    assert [v][1..] == [];
  }

  lemma ZeroDigits()
    ensures HexNumber(0, 4) == "0000" && HexNumber(0, 8) == "00000000"
  {
    assert HexNumber(0, 2) == "00";
    assert HexNumber(0, 6) == "000000";
  }

  lemma PlainFromTail(t: string)
    requires |t| >= 2 && t[0] >= ' ' && t[1] >= ' ' && Plain(t[2..])
    ensures Plain(t)
  {
    assert forall i | 2 <= i < |t| :: t[i] == t[2..][i - 2];
  }

  /** A text of a type, two digits, zeros and two digits is the record without data for address 0. */
  lemma FixedRecord(t: string, kind: char, n: nat, digits: string, check: string)
    requires n == AddressLength(kind) > 0 && kind != '5' && kind >= ' '
    requires digits == HexText([n + 1]) && check == HexText([254 - n])
    requires t == ['S', kind] + (digits + (HexNumber(0, 2 * n) + check))
    ensures Decode(t) == Record(kind, 0, 0, []) && Plain(t)
  {
    ZeroRecord(t, kind, n);
    PlainFromTail(t);
  }

  /** The header is a start record for address 0, without data. */
  lemma StartRecord(t: string)
    requires t == SREC3_START
    ensures Decode(t) == Record('0', 0, 0, []) && Plain(t)
  {
    ZeroDigits();
    TwoDigits(3, '0', '3');
    TwoDigits(0xFC, 'F', 'C');
    StartText(t);
    FixedRecord(t, '0', 2, ['0', '3'], ['F', 'C']);
  }

  lemma StartText(t: string)
    requires t == SREC3_START
    ensures t == ['S', '0'] + (['0', '3'] + ("0000" + ['F', 'C']))
  {
  }

  /** The trailer is an end record for address 0. */
  lemma EndRecord(t: string)
    requires t == SREC3_END
    ensures Decode(t) == Record('7', 0, 0, []) && Plain(t)
  {
    ZeroDigits();
    TwoDigits(5, '0', '5');
    TwoDigits(0xFA, 'F', 'A');
    EndText(t);
    FixedRecord(t, '7', 4, ['0', '5'], ['F', 'A']);
  }

  lemma EndText(t: string)
    requires t == SREC3_END
    ensures t == ['S', '7'] + (['0', '5'] + ("00000000" + ['F', 'A']))
  {
  }

  // How far a load has come. Records of a dump are 16 bytes apart, so the first one behind the end of the address
  // space starts `Lead` bytes into the region, and `Whole` bytes of it are in records that end before that end.

  function Lead(at: nat): nat
    requires at < WORD
  {
    SREC_BYTES_PER_RECORD * ((WORD - at + SREC_BYTES_PER_RECORD - 1) / SREC_BYTES_PER_RECORD)
  }

  function Whole(at: nat): nat
    requires at < WORD
  {
    SREC_BYTES_PER_RECORD * ((WORD - at) / SREC_BYTES_PER_RECORD)
  }

  /** The lowest address at which one of the records with `n` bytes of a region that goes to `at` starts. */
  function Lowest(at: nat, n: nat): nat
    requires at < WORD
  {
    if n == 0 then WORD - 1 else if n <= Lead(at) then at else at + Lead(at) - WORD
  }

  /** The highest address at which one of them ends. */
  function Highest(at: nat, n: nat): nat
    requires at < WORD
  {
    if n == 0 then 0
    else if at + n <= WORD then at + n - 1
    else if Whole(at) == 0 then at + n - 1 - WORD
    else at + Whole(at) - 1
  }

  function Come(mem: map<int, byte>, at: nat, n: nat): Loading
    requires at < WORD
  {
    Loading(mem, Lowest(at, n), Highest(at, n))
  }

  function Partial(mem: map<int, byte>, at: nat, bs: seq<byte>): Loading
    requires at < WORD
  {
    Come(Store(mem, at, bs), at, |bs|)
  }

  /** Where the next record stands to the end of the address space. */
  lemma RecordAtEnd(at: nat, n: nat)
    requires at < WORD && n % SREC_BYTES_PER_RECORD == 0
    ensures at + n < WORD ==> n + SREC_BYTES_PER_RECORD <= Lead(at)
    ensures at + n >= WORD ==> Lead(at) <= n
    ensures at + n <= WORD < at + n + SREC_BYTES_PER_RECORD ==> n == Whole(at)
    ensures at + Whole(at) <= WORD <= at + Lead(at)
  {
  }

  lemma PutLower(at: nat, n: nat, k: nat, x: nat)
    requires at < WORD && n % SREC_BYTES_PER_RECORD == 0 && 0 < k <= SREC_BYTES_PER_RECORD && n + k < WORD
    requires x == (at + n) % WORD
    ensures (if x < Lowest(at, n) then x else Lowest(at, n)) == Lowest(at, n + k)
  {
    RecordAtEnd(at, n);
  }

  lemma PutUpper(at: nat, n: nat, k: nat, x: nat, end: nat)
    requires at < WORD && n % SREC_BYTES_PER_RECORD == 0 && 0 < k <= SREC_BYTES_PER_RECORD && n + k < WORD
    requires x == (at + n) % WORD && end == (x + k - 1) % WORD
    ensures (if end > Highest(at, n) then end else Highest(at, n)) == Highest(at, n + k)
  {
    RecordAtEnd(at, n);
  }

  lemma PutPartial(m0: map<int, byte>, at: nat, done: seq<byte>, bs: seq<byte>)
    requires at < WORD && |done| % SREC_BYTES_PER_RECORD == 0 && 0 < |bs| <= SREC_BYTES_PER_RECORD
    requires |done| + |bs| < WORD
    ensures Put(Partial(m0, at, done), (at + |done|) % WORD, bs) == Partial(m0, at, done + bs)
  {
    var x := (at + |done|) % WORD;
    StoreAppend(m0, at, done, bs);
    PutLower(at, |done|, |bs|, x);
    PutUpper(at, |done|, |bs|, x, (x + |bs| - 1) % WORD);
  }

  predicate Dumped(r: Decoded)
  {
    r.Record? && r.kind == '3' && r.count == |r.data| && 0 < |r.data| <= SREC_BYTES_PER_RECORD && r.addr < WORD
  }

  predicate StartsAt(r: Decoded, a: nat) { r.Record? && r.addr == a }

  function Data(rs: seq<Decoded>): seq<byte>
  {
    if rs == [] then [] else (if rs[0].Record? then rs[0].data else []) + Data(rs[1..])
  }

  lemma RecordListStep(a: nat, bs: seq<byte>)
    requires bs != []
    ensures var k := Chunk(bs);
            0 < k <= |bs| && RecordList(a, bs) == [Record('3', k, a, bs[..k])] + RecordList((a + k) % WORD, bs[k..])
  {
  }

  /** The records of a dump carry 1 to 16 bytes each. */
  lemma {:induction false} RecordListDumped(a: nat, bs: seq<byte>)
    requires a < WORD
    ensures forall r | r in RecordList(a, bs) :: Dumped(r)
    decreases |bs|
  {
    if bs != [] {
      var k := Chunk(bs);
      RecordListDumped((a + k) % WORD, bs[k..]);
    }
  }

  lemma DataCons(r: Decoded, rs: seq<Decoded>)
    requires r.Record?
    ensures Data([r] + rs) == r.data + Data(rs)
  {
    assert ([r] + rs)[1..] == rs;
  }

  /** Together they hold the region. */
  lemma {:induction false} RecordListData(a: nat, bs: seq<byte>)
    ensures Data(RecordList(a, bs)) == bs
    decreases |bs|
  {
    if bs != [] {
      var k := Chunk(bs);
      RecordListData((a + k) % WORD, bs[k..]);
      DataCons(Record('3', k, a, bs[..k]), RecordList((a + k) % WORD, bs[k..]));
      assert bs[..k] + bs[k..] == bs;
    }
  }

  /** Each starts where the one before it ends. */
  lemma {:induction false} RecordListTiles(a: nat, bs: seq<byte>, i: nat)
    requires a < WORD && i < |RecordList(a, bs)|
    ensures StartsAt(RecordList(a, bs)[i], (a + |Data(RecordList(a, bs)[..i])|) % WORD)
    decreases |bs|
  {
    var k := Chunk(bs);
    RecordListStep(a, bs);
    var r, rest := Record('3', k, a, bs[..k]), RecordList((a + k) % WORD, bs[k..]);
    if i == 0 {
      SmallWord(a);
    } else {
      RecordListTiles((a + k) % WORD, bs[k..], i - 1);
      StartsInTail(RecordList(a, bs), r, rest, i, a, k);
    }
  }

  lemma StartsInTail(rs: seq<Decoded>, r: Decoded, rest: seq<Decoded>, i: nat, a: nat, k: nat)
    requires rs == [r] + rest && 0 < i < |rs| && r.Record? && |r.data| == k
    requires StartsAt(rest[i - 1], ((a + k) % WORD + |Data(rest[..i - 1])|) % WORD)
    ensures StartsAt(rs[i], (a + |Data(rs[..i])|) % WORD)
  {
    assert rs[..i] == [r] + rest[..i - 1];
    DataCons(r, rest[..i - 1]);
    WrapAdd(a, k, |Data(rest[..i - 1])|);
  }

  lemma PrintedDecodes(r: Decoded)
    requires Dumped(r)
    ensures ShortAndPlain(Printed(r)) && Decode(Printed(r)) == r
  {
    RecordTextPlain(r.addr, r.data);
    RecordFields(r.addr, r.data);
    RecordDecodes(r.addr, r.data);
  }

  function Finish(st: Loading): LoadResult { Loaded(0, st, (st.last - st.first + 1) % WORD) }

  /** Every record is stored. */
  predicate AllTaken(rs: seq<Decoded>, t: Target)
  {
    rs == [] || (rs[0].Record? && t.takes(t.Place(rs[0].addr), rs[0].data) && AllTaken(rs[1..], t))
  }

  lemma AllTakenCons(r: Decoded, rs: seq<Decoded>, t: Target)
    requires r.Record?
    ensures AllTaken([r] + rs, t) <==> t.takes(t.Place(r.addr), r.data) && AllTaken(rs, t)
  {
    assert ([r] + rs)[1..] == rs;
  }

  lemma LoadLast(st: Loading, t: Target)
    ensures LoadAll([Record('7', 0, 0, [])], st, t) == Finish(st)
  {
    assert TakeRecord([Record('7', 0, 0, [])][0], st, t) == Stop(Finish(st));
  }

  lemma LoadStep(r: Decoded, rs: seq<Decoded>, st: Loading, t: Target)
    ensures LoadAll([r] + rs, st, t) ==
            var step := TakeRecord(r, st, t); if step.Stop? then step.result else LoadAll(rs, step.state, t)
  {
    assert ([r] + rs)[1..] == rs;
  }

  /** The place of the next record. */
  lemma NextPlace(from: nat, t: Target, at: nat, n: nat, k: nat)
    requires t.Place(from) == (at + n) % WORD
    ensures t.Place((from + k) % WORD) == (at + (n + k)) % WORD
  {
    WrapAdd(from, k, t.offset);
    WrapAdd(from, t.offset, k);
    WrapAdd(at, n, k);
  }

  /** The first record of a dump that is left. */
  lemma FirstTaken(m0: map<int, byte>, at: nat, t: Target, done: seq<byte>, bs: seq<byte>, from: nat, end: seq<Decoded>)
    requires at < WORD && bs != [] && |done| % SREC_BYTES_PER_RECORD == 0 && |done| + |bs| < WORD
    requires t.Place(from) == (at + |done|) % WORD
    ensures var k := Chunk(bs);
            LoadAll(RecordList(from, bs) + end, Partial(m0, at, done), t) ==
            if t.takes(t.Place(from), bs[..k])
            then LoadAll(RecordList((from + k) % WORD, bs[k..]) + end, Partial(m0, at, done + bs[..k]), t)
            else Aborted
  {
    var k := Chunk(bs);
    var r, rest := Record('3', k, from, bs[..k]), RecordList((from + k) % WORD, bs[k..]);
    RecordListStep(from, bs);
    assert [r] + rest + end == [r] + (rest + end);
    PutPartial(m0, at, done, bs[..k]);
    LoadStep(r, rest + end, Partial(m0, at, done), t);
  }

  lemma NoneLeft(m0: map<int, byte>, at: nat, t: Target, done: seq<byte>, from: nat, end: seq<Decoded>)
    requires at < WORD && end == [Record('7', 0, 0, [])]
    ensures LoadAll(RecordList(from, []) + end, Partial(m0, at, done), t) == Finish(Partial(m0, at, done + []))
  {
    assert RecordList(from, []) + end == end && done + [] == done;
    LoadLast(Partial(m0, at, done), t);
  }

  /** All records of a dump are taken, one after the other, until one is refused. */
  lemma {:induction false} LoadRecords(m0: map<int, byte>, at: nat, t: Target, done: seq<byte>, bs: seq<byte>, from: nat,
                                       end: seq<Decoded>)
    requires at < WORD && (bs != [] ==> |done| % SREC_BYTES_PER_RECORD == 0) && |done| + |bs| < WORD
    requires t.Place(from) == (at + |done|) % WORD && end == [Record('7', 0, 0, [])]
    ensures LoadAll(RecordList(from, bs) + end, Partial(m0, at, done), t) ==
            if AllTaken(RecordList(from, bs), t) then Finish(Partial(m0, at, done + bs)) else Aborted
    decreases |bs|
  {
    if bs == [] {
      NoneLeft(m0, at, t, done, from, end);
    } else {
      var k := Chunk(bs);
      FirstTaken(m0, at, t, done, bs, from, end);
      NextPlace(from, t, at, |done|, k);
      RecordListStep(from, bs);
      AllTakenCons(Record('3', k, from, bs[..k]), RecordList((from + k) % WORD, bs[k..]), t);
      LoadRecords(m0, at, t, done + bs[..k], bs[k..], (from + k) % WORD, end);
      Rejoin(done, bs, k);
    }
  }

  lemma Rejoin(done: seq<byte>, bs: seq<byte>, k: nat)
    requires k <= |bs|
    ensures done + bs[..k] + bs[k..] == done + bs
  {
  }

  lemma LoadFramed(decode: string -> Decoded, head: string, tail: string, lines: seq<string>, rs: seq<Decoded>,
                   st: Loading, t: Target)
    requires |lines| == |rs| && forall i | 0 <= i < |rs| :: ShortAndPlain(lines[i]) && decode(lines[i]) == rs[i]
    requires ShortAndPlain(head) && decode(head) == Record('0', 0, 0, [])
    requires ShortAndPlain(tail) && decode(tail) == Record('7', 0, 0, [])
    ensures LoadWith(decode, Join([head] + lines + [tail]), 0, st, t) == LoadAll(rs + [Record('7', 0, 0, [])], st, t)
  {
    var ls := [head] + lines + [tail];
    var ds := [Record('0', 0, 0, [])] + rs + [Record('7', 0, 0, [])];
    assert Join(ls)[0..] == Join(ls);
    LoadJoined(decode, Join(ls), 0, ls, ds, st, t);
    assert ds[1..] == rs + [Record('7', 0, 0, [])];
    assert TakeRecord(ds[0], st, t) == Go(st);
  }

  lemma LoadDump(a: nat, bs: seq<byte>, st: Loading, t: Target)
    requires a < WORD
    ensures LoadWith(Decode, Dump(a, bs), 0, st, t) == LoadAll(RecordList(a, bs) + [Record('7', 0, 0, [])], st, t)
  {
    var rs, head, tail := RecordList(a, bs), SREC3_START, SREC3_END;
    RecordListDumped(a, bs);
    StartRecord(head);
    EndRecord(tail);
    forall i | 0 <= i < |rs| ensures ShortAndPlain(Lines(rs)[i]) && Decode(Lines(rs)[i]) == rs[i] {
      PrintedDecodes(rs[i]);
    }
    LoadFramed(Decode, head, tail, Lines(rs), rs, st, t);
  }

  /** The exact report for a region that went to `at`, in 32-bit addresses; an empty one is reported as 0xFFFFFFFF, 0
      and 2. */
  function Reported(m0: map<int, byte>, at: nat, bs: seq<byte>): LoadResult
  {
    if bs == [] then Loaded(0, Loading(m0, WORD - 1, 0), 2)
    else Loaded(0, Loading(Store(m0, at, bs), at, (at + |bs| - 1) % WORD), |bs|)
  }

  /** What the loader reports. */
  function Told(m0: map<int, byte>, at: nat, bs: seq<byte>): LoadResult
    requires at < WORD
  {
    Finish(Partial(m0, at, bs))
  }

  lemma BoundsExact(at: nat, n: nat)
    requires at < WORD && 0 < n < WORD
    ensures Lowest(at, n) == at && Highest(at, n) == (at + n - 1) % WORD <==>
            at + n <= WORD || n <= SREC_BYTES_PER_RECORD
  {
    RecordAtEnd(at, 0);
  }

  lemma SizeExact(at: nat, n: nat, last: nat)
    requires at < WORD && 0 < n < WORD && last == (at + n - 1) % WORD
    ensures (last - at + 1) % WORD == n
  {
  }

  /** First, last and size are those of the region exactly if it stays below the end of the address space or comes in
      one record; the bytes are in either case. */
  lemma ToldExact(m0: map<int, byte>, at: nat, bs: seq<byte>)
    requires at < WORD && |bs| < WORD
    ensures Told(m0, at, bs).Loaded? && Told(m0, at, bs).state.mem == Store(m0, at, bs)
    ensures Told(m0, at, bs) == Reported(m0, at, bs) <==> at + |bs| <= WORD || |bs| <= SREC_BYTES_PER_RECORD
  {
    if bs != [] {
      BoundsExact(at, |bs|);
      SizeExact(at, |bs|, (at + |bs| - 1) % WORD);
    }
  }

  /** Behind the end of the address space the records start again at the bottom, and so does the report. */
  lemma PassingTheEnd(m0: map<int, byte>, at: nat, bs: seq<byte>)
    requires at < WORD && |bs| < WORD && at + |bs| > WORD && |bs| > SREC_BYTES_PER_RECORD
    ensures var st := Told(m0, at, bs).state;
            && (|bs| > Lead(at) ==> st.first == at + Lead(at) - WORD < SREC_BYTES_PER_RECORD)
            && (|bs| <= Lead(at) ==> st.first == at && st.last == at + Whole(at) - 1 > (at + |bs| - 1) % WORD)
  {
    RecordAtEnd(at, 0);
  }

  /** The records of a dump, loaded from the start. */
  lemma LoadList(m0: map<int, byte>, at: nat, a: nat, bs: seq<byte>, t: Target, end: seq<Decoded>)
    requires |bs| < WORD && at == t.Place(a) && end == [Record('7', 0, 0, [])]
    ensures LoadAll(RecordList(a, bs) + end, Loading(m0, WORD - 1, 0), t) ==
            if AllTaken(RecordList(a, bs), t) then Told(m0, at, bs) else Aborted
  {
    SmallWord(at);
    LoadRecords(m0, at, t, [], bs, a, end);
    assert [] + bs == bs;
  }

  /**
   Loading a dump with any offset: if every record is stored, the region arrives at `a` plus the offset, in 32-bit
   arithmetic, and the loader reports what `Told` says; if one is refused, the load is aborted.
   */
  lemma RoundTrip(a: nat, bs: seq<byte>, m0: map<int, byte>, t: Target)
    requires a < WORD && |bs| < WORD
    ensures LoadWith(Decode, Dump(a, bs), 0, Loading(m0, WORD - 1, 0), t) ==
            if AllTaken(RecordList(a, bs), t) then Told(m0, t.Place(a), bs) else Aborted
  {
    LoadDump(a, bs, Loading(m0, WORD - 1, 0), t);
    LoadList(m0, t.Place(a), a, bs, t, [Record('7', 0, 0, [])]);
  }

  // ----- the two commands -----

  method ReadRecord(inp: string, pos: nat) returns (r: Line)
    requires pos <= |inp|
    ensures r == ReadLine(inp, pos, pos)
  {
    var buf, p := "", pos;
    while |buf| < SREC_MAXRECLEN
      invariant pos <= p <= |inp| && buf == inp[pos..p] && |buf| <= SREC_MAXRECLEN
      invariant ReadLine(inp, pos, pos) == ReadLine(inp, pos, p)
    {
      if p == |inp| {
        return Blocked;
      }
      var c := inp[p];
      if c == '\r' || c == '\n' {
        return Line(buf, p + 1);
      } else if c == 0 as char || c == 3 as char {
        return Cancelled;
      }
      buf := buf + [c];
      p := p + 1;
    }
    return Line(buf, p);
  }

  /** Stores the data of one line, and keeps the lowest and the highest address. */
  method TakeData(addr: nat, bs: seq<byte>, st: Loading, t: Target) returns (step: Step)
    ensures step == if t.takes(t.Place(addr), bs) then Go(Put(st, t.Place(addr), bs)) else Stop(Aborted)
  {
    var mem, startAddr, endAddr := st.mem, st.first, st.last;
    var storeAddr := (addr + t.offset) % WORD;
    if !t.takes(storeAddr, bs) {
      return Stop(Aborted);
    }
    mem := Store(mem, storeAddr, bs);
    if storeAddr < startAddr {
      startAddr := storeAddr;
    }
    var lastAddr := (storeAddr + |bs| - 1) % WORD;
    if lastAddr > endAddr {
      endAddr := lastAddr;
    }
    step := Go(Loading(mem, startAddr, endAddr));
  }

  /** Decodes one line and stores its data, if it has any. */
  method TakeLine(text: string, binbuf: array<byte>, st: Loading, t: Target) returns (step: Step)
    requires binbuf.Length == SREC_MAXBINLEN
    modifies binbuf
    ensures step == TakeRecord(Decode(text), st, t)
  {
    var kind, binlen, addr := SrecDecode(text, binbuf);
    if kind < 0 {
      return Stop(Aborted);
    }
    if kind == SREC_DATA2 || kind == SREC_DATA3 || kind == SREC_DATA4 {
      if binlen < 0 {
        return Stop(Undefined);
      }
      step := TakeData(addr, binbuf[..binlen], st, t);
    } else if kind == SREC_END2 || kind == SREC_END3 || kind == SREC_END4 {
      step := Stop(Loaded(addr, st, (st.last - st.first + 1) % WORD));
    } else {
      step := Go(st);
    }
  }

  /** Loads S-Records from the line into memory at their addresses plus an offset. */
  method LoadSerial(inp: string, t: Target, mem0: map<int, byte>) returns (r: LoadResult)
    ensures r == LoadWith(Decode, inp, 0, Loading(mem0, WORD - 1, 0), t)
  {
    var binbuf := new byte[SREC_MAXBINLEN](_ => 0);
    var pos, st := 0, Loading(mem0, WORD - 1, 0);
    while true
      invariant 0 <= pos <= |inp|
      invariant LoadWith(Decode, inp, 0, Loading(mem0, WORD - 1, 0), t) == LoadWith(Decode, inp, pos, st, t)
      decreases |inp| - pos
    {
      var line := ReadRecord(inp, pos);
      match line
      case Blocked => return Pending;
      case Cancelled => return Aborted;
      case Line(text, next) =>
        var step := TakeLine(text, binbuf, st, t);
        match step
        case Stop(result) => return result;
        case Go(st') => pos, st := next, st';
    }
  }

  lemma {:induction false} JoinSnoc(lines: seq<string>, t: string)
    ensures Join(lines + [t]) == Join(lines) + (t + "\n")
  {
    if lines == [] {
      assert (lines + [t])[1..] == [] && Join([]) == "";
    } else {
      assert (lines + [t])[1..] == lines[1..] + [t];
      JoinSnoc(lines[1..], t);
    }
  }

  /** Adds the low `n` bytes of a value to a checksum, low byte first. */
  method AddBytes(checksum0: nat, value: nat, n: nat) returns (checksum: nat)
    ensures checksum == checksum0 + Sum(BytesOf(value, n))
  {
    checksum := checksum0;
    var v := value;
    for i := 0 to n
      invariant checksum + Sum(BytesOf(v, n - i)) == checksum0 + Sum(BytesOf(value, n))
    {
      SumAppend(BytesOf(v / 256, n - i - 1), [v % 256]);
      assert Sum([v % 256]) == v % 256 by { assert [v % 256][1..] == []; }
      checksum := checksum + v % 256;
      v := v / 256;
    }
  }

  lemma RecordLength(a: nat, bs: seq<byte>)
    requires |bs| <= 250
    ensures |RecordText(a, bs)| == 14 + 2 * |bs|
  {
    RecordFields(a, bs);
  }

  /** One record for `reclen` bytes, whose hexadecimal text and sum have been collected. */
  method FormatRecord(address: nat, reclen: nat, data: string, sum: nat, ghost bs: seq<byte>) returns (record: string)
    requires address < WORD && |bs| == reclen <= SREC_BYTES_PER_RECORD && data == HexText(bs) && sum == Sum(bs)
    ensures record == RecordText(address, bs) + "\n" && |record| + 1 <= RECORD_SIZE
  {
    var length := 4 + reclen + 1;
    var checksum := AddBytes(sum, length, 2);
    checksum := AddBytes(checksum, address, 4);
    checksum := 255 - checksum % 256;
    ChecksumFound(address, bs, checksum);
    RecordLength(address, bs);
    record := "S3" + (HexNumber(length, 2) + HexNumber(address, 8) + data + HexNumber(checksum, 2)) + "\n";
  }

  lemma ChecksumFound(a: nat, bs: seq<byte>, checksum: int)
    requires |bs| <= 250
    requires checksum == 255 - (Sum(bs) + Sum(BytesOf(5 + |bs|, 2)) + Sum(BytesOf(a, 4))) % 256
    ensures checksum == Checksum(a, bs)
  {
    CoveredSum(a, bs);
  }

  lemma CoveredSum(a: nat, bs: seq<byte>)
    requires |bs| <= 250
    ensures Sum(Covered(a, bs)) == Sum(bs) + Sum(BytesOf(5 + |bs|, 2)) + Sum(BytesOf(a, 4))
  {
    var n := 5 + |bs|;
    SumAppend([n], BytesOf(a, 4));
    SumAppend([n] + BytesOf(a, 4), bs);
    assert BytesOf(n, 2) == BytesOf(n / 256, 1) + [n % 256];
    assert BytesOf(n / 256, 1) == BytesOf(n / 256 / 256, 0) + [n / 256 % 256];
    assert BytesOf(n, 2) == [0] + [n];
    SumAppend([0], [n]);
    assert Sum([0]) == 0 by { assert [0][1..] == []; }
  }

  lemma LinesStart(head: string)
    ensures Join([head] + Lines([])) == head + "\n"
  {
    assert [head] + Lines([]) == [head];
    assert [head][1..] == [] && Join([]) == "";
  }

  lemma LinesSnoc(head: string, rs: seq<Decoded>, a: nat, bs: seq<byte>)
    requires |bs| <= 250
    ensures Join([head] + Lines(rs + [Record('3', |bs|, a, bs)])) == Join([head] + Lines(rs)) + (RecordText(a, bs) + "\n")
  {
    var r := Record('3', |bs|, a, bs);
    JoinSnoc([head] + Lines(rs), Printed(r));
    assert [head] + Lines(rs + [r]) == [head] + Lines(rs) + [Printed(r)];
  }

  /** Collects the hexadecimal text and the sum of one more byte. */
  method Collect(mem: seq<byte>, reclen: nat, data: string, checksum: nat) returns (data': string, checksum': nat)
    requires reclen < |mem| && data == HexText(mem[..reclen]) && checksum == Sum(mem[..reclen])
    ensures data' == HexText(mem[..reclen + 1]) && checksum' == Sum(mem[..reclen + 1])
    ensures reclen < SREC_BYTES_PER_RECORD ==> |data'| < DATA_SIZE
  {
    var c := mem[reclen];
    HexTextAppend(mem[..reclen], [c]);
    SumTake(mem, reclen);
    assert mem[..reclen + 1] == mem[..reclen] + [c] && [c][1..] == [];
    data', checksum' := data + [Digit(c / 16), Digit(c % 16)], checksum + c;
  }

  lemma RecordMoved(done: seq<Decoded>, a: nat, bs: seq<byte>, k: nat)
    requires bs != [] && k == Chunk(bs)
    ensures done + [Record('3', k, a, bs[..k])] + RecordList((a + k) % WORD, bs[k..]) == done + RecordList(a, bs)
  {
    RecordListStep(a, bs);
  }

  /** Appends one data record. */
  method WriteData(out: string, ghost done: seq<Decoded>, ghost head: string, address: nat, reclen: nat, data: string,
                   checksum: nat, ghost left: seq<byte>)
    returns (out': string, ghost done': seq<Decoded>)
    requires 0 < reclen <= SREC_BYTES_PER_RECORD && (reclen == SREC_BYTES_PER_RECORD <= |left| || reclen == |left|)
    requires address < WORD && out == Join([head] + Lines(done))
    requires data == HexText(left[..reclen]) && checksum == Sum(left[..reclen])
    ensures out' == Join([head] + Lines(done'))
    ensures done' + RecordList((address + reclen) % WORD, left[reclen..]) == done + RecordList(address, left)
  {
    var record := FormatRecord(address, reclen, data, checksum, left[..reclen]);
    out' := out + record;
    LinesSnoc(head, done, address, left[..reclen]);
    done' := done + [Record('3', reclen, address, left[..reclen])];
    RecordMoved(done, address, left, reclen);
  }

  /** The header and the data records; `mem` is the memory from `address0` on. */
  method SaveRecords(mem: seq<byte>, address0: nat, head: string) returns (out: string, ghost done: seq<Decoded>)
    requires address0 < WORD
    ensures out == Join([head] + Lines(RecordList(address0, mem))) && done == RecordList(address0, mem)
  {
    var address: nat, count: nat, reclen: nat, checksum: nat, data := address0, |mem|, 0, 0, "";
    var left := mem;   // the memory from address on
    done := [];
    out := head + "\n";
    LinesStart(head);
    ghost var all := RecordList(address0, mem);
    while true
      invariant out == Join([head] + Lines(done))
      invariant |left| == reclen + count && address < WORD
      invariant done + RecordList(address, left) == all
      invariant reclen < SREC_BYTES_PER_RECORD && (count == 0 ==> reclen == 0)
      invariant data == HexText(left[..reclen]) && checksum == Sum(left[..reclen])
      decreases count
    {
      if count > 0 {
        data, checksum := Collect(left, reclen, data, checksum);
        reclen := reclen + 1;
        count := count - 1;
      }
      if reclen == SREC_BYTES_PER_RECORD || count == 0 {
        if reclen > 0 {
          out, done := WriteData(out, done, head, address, reclen, data, checksum, left);
          left := left[reclen..];
        }
        address := (address + reclen) % WORD;
        data, checksum, reclen := "", 0, 0;
      }
      if count == 0 {
        break;
      }
    }
    assert done + [] == done;
    assert done == all;
  }

  /** Dumps the memory `mem` from `address` on as S-Records. */
  method SaveSerial(mem: seq<byte>, address: nat) returns (out: string)
    requires address < WORD
    ensures out == Dump(address, mem)
  {
    ghost var done;
    out, done := SaveRecords(mem, address, SREC3_START);
    JoinSnoc([SREC3_START] + Lines(done), SREC3_END);
    out := out + (SREC3_END + "\n");
  }

  /** Dumping a region and loading the text. */
  method DumpAndLoad(region: seq<byte>, address: nat, t: Target, mem: map<int, byte>) returns (r: LoadResult)
    requires address < WORD && |region| < WORD
    ensures var at := t.Place(address);
            if AllTaken(RecordList(address, region), t)
            then
              && r == Told(mem, at, region)
              && (r == Reported(mem, at, region) <==> at + |region| <= WORD || |region| <= SREC_BYTES_PER_RECORD)
            else r == Aborted
  {
    var text := SaveSerial(region, address);
    r := LoadSerial(text, t, mem);
    RoundTrip(address, region, mem, t);
    ToldExact(mem, t.Place(address), region);
  }

  /** The loaded memory, byte by byte. */
  lemma RegionLoaded(mem: map<int, byte>, at: nat, region: seq<byte>, x: nat)
    requires at < WORD && |region| < WORD && x < WORD
    ensures var m, k := Told(mem, at, region).state.mem, (x - at) % WORD;
            if k < |region| then x in m && m[x] == region[k]
            else (x in m <==> x in mem) && (x in mem ==> m[x] == mem[x])
  {
    StoreAt(mem, at, region, x);
  }
}
