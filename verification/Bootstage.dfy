/**
 Boot progress records: `bootstage_stash` writes them into a bounded buffer, `bootstage_unstash` reads
 them back in a later boot phase. Memory and integers are those of a 32-bit machine.
 */
module Bootstage {
  import opened Bytes
  import opened Wrappers

  const HDR_SIZE := 16
  const REC_SIZE := 20
  const BOOTSTAGE_VERSION := 0
  const BOOTSTAGE_MAGIC := 0xb00757a3
  const NAME_BUF := 20

  /** A name pointer and the string it points to. */
  datatype Name = NoName | Name(ptr: nat, text: seq<byte>)

  datatype Record = Record(time: nat, start: nat, name: Name, flags: nat, id: nat)

  predicate CString(s: seq<byte>) { forall i | 0 <= i < |s| :: s[i] != 0 }

  /** What fits the fields of `struct bootstage_record`. */
  predicate Fits(r: Record)
  {
    && r.time < WORD && r.start < WORD && r.flags < WORD && r.id < 0x8000_0000
    && (r.name.Name? ==> r.name.ptr < WORD && CString(r.name.text))
  }

  // ----- printable names -----

  function Decimal(n: nat): (s: seq<byte>)
    ensures CString(s)
  {
    if n < 10 then [48 + n] else Decimal(n / 10) + [48 + n % 10]
  }

  function Printable(r: Record, idUser: nat): seq<byte>
  {
    if r.name.Name? then r.name.text
    else if r.id >= idUser then [117, 115, 101, 114, 95] + Decimal(r.id - idUser)    // user_%d
    else [105, 100, 61] + Decimal(r.id)                                              // id=%d
  }

  lemma {:induction false} DecimalShort(n: nat, digits: nat, bound: nat)
    requires n < bound && (digits > 0 && bound == Power10(digits))
    ensures |Decimal(n)| <= digits
    decreases digits
  {
    if n >= 10 {
      assert digits > 1 by { assert Power10(1) == 10; }
      DecimalShort(n / 10, digits - 1, Power10(digits - 1));
    }
  }

  function Power10(n: nat): nat { if n == 0 then 1 else 10 * Power10(n - 1) }

  /** A generated name fits the buffer it is printed into, its NUL included. */
  lemma GeneratedNameFits(r: Record, idUser: nat)
    requires Fits(r) && r.name.NoName?
    ensures |Printable(r, idUser)| + 1 <= NAME_BUF && CString(Printable(r, idUser))
  {
    var n := if r.id >= idUser then r.id - idUser else r.id;
    assert Power10(2) == 100 && Power10(3) == 1000 && Power10(4) == 10000 && Power10(5) == 100000;
    assert Power10(6) == 1000000 && Power10(7) == 10000000 && Power10(8) == 100000000;
    assert Power10(9) == 1000000000 && Power10(10) == 10000000000;
    DecimalShort(n, 10, 10000000000);
  }

  lemma PrintableIsCString(r: Record, idUser: nat)
    requires Fits(r)
    ensures CString(Printable(r, idUser))
  {
    if r.name.NoName? {
      GeneratedNameFits(r, idUser);
    }
  }

  // ----- layout -----

  function Word(v: nat): (w: seq<byte>)
    ensures |w| == 4
  {
    BytesOf(v, 4)
  }

  function WordAt(m: seq<byte>, i: nat): nat
    requires i + 4 <= |m|
  {
    BigEndian(m[i..i + 4])
  }

  function Encode(r: Record): (bs: seq<byte>)
    ensures |bs| == REC_SIZE
  {
    Word(r.time) + Word(r.start) + Word(if r.name.Name? then r.name.ptr else 0) + Word(r.flags) + Word(r.id)
  }

  function Header(count: nat, size: nat): (bs: seq<byte>)
    ensures |bs| == HDR_SIZE
  {
    Word(BOOTSTAGE_VERSION) + Word(count) + Word(size) + Word(BOOTSTAGE_MAGIC)
  }

  function Live(rs: seq<Record>): seq<Record>
  {
    if rs == [] then []
    else if rs[|rs| - 1].time != 0 then Live(rs[..|rs| - 1]) + [rs[|rs| - 1]]
    else Live(rs[..|rs| - 1])
  }

  function RecordBytes(rs: seq<Record>): (bs: seq<byte>)
    ensures |bs| == REC_SIZE * |rs|
  {
    if rs == [] then [] else RecordBytes(rs[..|rs| - 1]) + Encode(rs[|rs| - 1])
  }

  /** Strings one after the other, each with its NUL. */
  function Cat(ts: seq<seq<byte>>): seq<byte>
  {
    if ts == [] then [] else ts[0] + [0] + Cat(ts[1..])
  }

  function Texts(rs: seq<Record>, idUser: nat): (ts: seq<seq<byte>>)
    ensures |ts| == |rs|
  {
    seq(|rs|, i requires 0 <= i < |rs| => Printable(rs[i], idUser))
  }

  function StashSize(rs: seq<Record>, idUser: nat): nat { HDR_SIZE + REC_SIZE * |rs| + |Cat(Texts(rs, idUser))| }

  /** The stash of the records `rs`. */
  function Image(rs: seq<Record>, idUser: nat): seq<byte>
  {
    Header(|rs|, StashSize(rs, idUser)) + RecordBytes(rs) + Cat(Texts(rs, idUser))
  }

  lemma WordValue(m: seq<byte>, i: nat, v: nat)
    requires v < WORD && i + 4 <= |m| && m[i..i + 4] == Word(v)
    ensures WordAt(m, i) == v
  {
    assert Limit(4) == WORD by { assert Limit(4) == 256 * (256 * (256 * (256 * Limit(0)))); }
    BytesOfValue(v, 4);
  }

  lemma {:induction false} RecordBytesAt(rs: seq<Record>, k: nat)
    requires k < |rs|
    ensures RecordBytes(rs)[REC_SIZE * k..REC_SIZE * k + REC_SIZE] == Encode(rs[k])
    decreases |rs|
  {
    var es := rs[..|rs| - 1];
    if k < |rs| - 1 {
      RecordBytesAt(es, k);
      assert RecordBytes(rs)[REC_SIZE * k..REC_SIZE * k + REC_SIZE] == RecordBytes(es)[REC_SIZE * k..REC_SIZE * k + REC_SIZE];
    }
  }

  // ----- reading a stash -----

  /** The index of the first NUL from `p` on; `|m|` if there is none. */
  function StrEnd(m: seq<byte>, p: nat): (q: nat)
    requires p <= |m|
    ensures p <= q <= |m|
    decreases |m| - p
  {
    if p == |m| || m[p] == 0 then p else StrEnd(m, p + 1)
  }

  /** `n` strings from `p` on, with their places; `None` if they run out of memory. */
  function ReadNames(m: seq<byte>, n: nat, p: nat): (r: Option<seq<Name>>)
    requires p <= |m|
    ensures r.Some? ==> |r.value| == n
    decreases n
  {
    if n == 0 then Some([])
    else
      var q := StrEnd(m, p);
      if q == |m| then None
      else
        var rest := ReadNames(m, n - 1, q + 1);
        if rest.None? then None else Some([Name(p, m[p..q])] + rest.value)
  }

  /** The `k`-th record of a stash, under a given name. */
  function RecordAt(m: seq<byte>, k: nat, name: Name): Record
    requires HDR_SIZE + REC_SIZE * (k + 1) <= |m|
  {
    var i := HDR_SIZE + REC_SIZE * k;
    Record(WordAt(m, i), WordAt(m, i + 4), name, WordAt(m, i + 12), WordAt(m, i + 16))
  }

  function RecordsAt(m: seq<byte>, names: seq<Name>): (rs: seq<Record>)
    requires HDR_SIZE + REC_SIZE * |names| <= |m|
    ensures |rs| == |names|
  {
    seq(|names|, k requires 0 <= k < |names| => RecordAt(m, k, names[k]))
  }

  /** `Fault`: the reader leaves accessible memory, which takes a corrupt stash. */
  datatype Unstashed = Rejected | Fault | Loaded(table: seq<Record>, nextId: nat)

  /** `bootstage_unstash` of the memory `m` at address `base`; a size of -1 stands for no limit. */
  function Unstash(m: seq<byte>, base: nat, size: int, table: seq<Record>, nextId: nat): Unstashed
    requires size <= |m| && base + |m| < WORD
  {
    if size != -1 && HDR_SIZE > size then Rejected
    else if HDR_SIZE > |m| then Fault
    else
      match Screen(WordAt(m, 0), WordAt(m, 4), WordAt(m, 8), WordAt(m, 12), base, size, |m|, |table|, nextId)
      case Refuse => Rejected
      case Crash => Fault
      case Pass => Adopted(m, WordAt(m, 4), table, nextId)
  }

  datatype Screening = Refuse | Crash | Pass

  /**
   The header checks, in their order; `Crash` where they let through what cannot be copied. The end of the data is an
   address, so it wraps if a corrupt header announces too much.
   */
  function Screen(version: nat, count: nat, total: nat, magic: nat, base: nat, size: int, length: nat, room: nat, nextId: nat):
    Screening
  {
    if magic != BOOTSTAGE_MAGIC then Refuse
    else if size != -1 && (base + total) % WORD > base + size then Refuse
    else if count * REC_SIZE % WORD > total then Refuse
    else if version != BOOTSTAGE_VERSION then Refuse
    else if (nextId + count) % WORD > room then Refuse
    else if nextId + count > room || HDR_SIZE + REC_SIZE * count > length then Crash
    else Pass
  }

  /** Records and names behind a header that passed. */
  function Adopted(m: seq<byte>, count: nat, table: seq<Record>, nextId: nat): Unstashed
    requires nextId + count <= |table| && HDR_SIZE + REC_SIZE * count <= |m|
  {
    match ReadNames(m, count, HDR_SIZE + REC_SIZE * count)
    case None => Fault
    case Some(names) => Loaded(table[..nextId] + RecordsAt(m, names) + table[nextId + count..], nextId + count)
  }

  // ----- the round trip -----

  /** A record that came through a stash: the same, under its printable name. */
  predicate CameThrough(r: Record, r': Record, idUser: nat)
  {
    && r'.time == r.time && r'.start == r.start && r'.flags == r.flags && r'.id == r.id
    && r'.name.Name? && r'.name.text == Printable(r, idUser)
  }

  lemma EncodedAt(m: seq<byte>, k: nat, r: Record, name: Name)
    requires HDR_SIZE + REC_SIZE * (k + 1) <= |m| && Fits(r)
    requires m[HDR_SIZE + REC_SIZE * k..HDR_SIZE + REC_SIZE * k + REC_SIZE] == Encode(r)
    ensures RecordAt(m, k, name) == r.(name := name)
  {
    var i := HDR_SIZE + REC_SIZE * k;
    var e := Encode(r);
    SliceOfSlice(m, i, i + REC_SIZE, 0, 4);
    SliceOfSlice(m, i, i + REC_SIZE, 4, 8);
    SliceOfSlice(m, i, i + REC_SIZE, 12, 16);
    SliceOfSlice(m, i, i + REC_SIZE, 16, 20);
    EncodeFields(r);
    WordValue(m, i, r.time);
    WordValue(m, i + 4, r.start);
    WordValue(m, i + 12, r.flags);
    WordValue(m, i + 16, r.id);
  }

  lemma EncodeFields(r: Record)
    ensures var e := Encode(r);
            e[0..4] == Word(r.time) && e[4..8] == Word(r.start) && e[12..16] == Word(r.flags) && e[16..20] == Word(r.id)
  {
  }

  lemma {:induction false} StrEndAt(m: seq<byte>, p: nat, s: seq<byte>)
    requires p + |s| < |m| && m[p..p + |s|] == s && CString(s) && m[p + |s|] == 0
    ensures StrEnd(m, p) == p + |s|
    decreases |s|
  {
    if s != [] {
      assert m[p] == s[0];
      assert m[p + 1..p + 1 + |s[1..]|] == m[p..p + |s|][1..] == s[1..];
      StrEndAt(m, p + 1, s[1..]);
    }
  }

  lemma FirstName(m: seq<byte>, n: nat, p: nat, t: seq<byte>)
    requires n > 0 && p + |t| < |m| && m[p..p + |t|] == t && CString(t) && m[p + |t|] == 0
    requires ReadNames(m, n - 1, p + |t| + 1).Some?
    ensures ReadNames(m, n, p) == Some([Name(p, t)] + ReadNames(m, n - 1, p + |t| + 1).value)
  {
    StrEndAt(m, p, t);
  }

  ghost predicate Reads(names: seq<Name>, ts: seq<seq<byte>>)
  {
    |names| == |ts| && forall i | 0 <= i < |ts| :: names[i].Name? && names[i].text == ts[i]
  }

  lemma ReadsCons(name: Name, names: seq<Name>, ts: seq<seq<byte>>)
    requires ts != [] && name.Name? && name.text == ts[0] && Reads(names, ts[1..])
    ensures Reads([name] + names, ts)
  {
  }

  /** Strings are read back as they were laid out. */
  lemma {:induction false} NamesRead(m: seq<byte>, p: nat, ts: seq<seq<byte>>)
    requires p + |Cat(ts)| <= |m| && m[p..p + |Cat(ts)|] == Cat(ts)
    requires forall t | t in ts :: CString(t)
    ensures var names := ReadNames(m, |ts|, p); names.Some? && Reads(names.value, ts)
    decreases |ts|
  {
    if ts != [] {
      var t := ts[0];
      FirstText(m, p, ts);
      NamesRead(m, p + |t| + 1, ts[1..]);
      FirstName(m, |ts|, p, t);
      ReadsCons(Name(p, t), ReadNames(m, |ts| - 1, p + |t| + 1).value, ts);
    }
  }

  lemma FirstText(m: seq<byte>, p: nat, ts: seq<seq<byte>>)
    requires ts != [] && p + |Cat(ts)| <= |m| && m[p..p + |Cat(ts)|] == Cat(ts)
    ensures var t, rest := ts[0], Cat(ts[1..]);
            && p + |t| + 1 + |rest| <= |m| && m[p..p + |t|] == t && m[p + |t|] == 0
            && m[p + |t| + 1..p + |t| + 1 + |rest|] == rest
  {
    CatStep(ts);
    TextThenRest(m, p, Cat(ts), ts[0], Cat(ts[1..]));
  }

  lemma CatStep(ts: seq<seq<byte>>)
    requires ts != []
    ensures Cat(ts) == ts[0] + [0] + Cat(ts[1..])
  {
  }

  lemma TextThenRest(m: seq<byte>, p: nat, all: seq<byte>, t: seq<byte>, rest: seq<byte>)
    requires all == t + [0] + rest && p + |all| <= |m| && m[p..p + |all|] == all
    ensures p + |t| < |m| && m[p..p + |t|] == t && m[p + |t|] == 0
    ensures m[p + |t| + 1..p + |t| + 1 + |rest|] == rest
  {
    SliceOfSlice(m, p, p + |all|, 0, |t|);
    SliceOfSlice(m, p, p + |all|, |t| + 1, |all|);
    assert all[..|t|] == t && all[|t| + 1..] == rest;
    assert m[p + |t|] == m[p..p + |all|][|t|];
  }

  /** Memory that begins with a stash of `rs`. */
  ghost predicate HasBody(m: seq<byte>, rs: seq<Record>, names: seq<byte>)
  {
    && HDR_SIZE + REC_SIZE * |rs| + |names| <= |m|
    && m[HDR_SIZE..HDR_SIZE + REC_SIZE * |rs|] == RecordBytes(rs)
    && m[HDR_SIZE + REC_SIZE * |rs|..HDR_SIZE + REC_SIZE * |rs| + |names|] == names
  }

  lemma RecordInBody(m: seq<byte>, rs: seq<Record>, names: seq<byte>, k: nat, name: Name)
    requires HasBody(m, rs, names) && k < |rs| && Fits(rs[k])
    ensures HDR_SIZE + REC_SIZE * (k + 1) <= |m| && RecordAt(m, k, name) == rs[k].(name := name)
  {
    RecordBytesAt(rs, k);
    SliceOfSlice(m, HDR_SIZE, HDR_SIZE + REC_SIZE * |rs|, REC_SIZE * k, REC_SIZE * k + REC_SIZE);
    EncodedAt(m, k, rs[k], name);
  }

  lemma BodyRead(m: seq<byte>, rs: seq<Record>, idUser: nat)
    requires HasBody(m, rs, Cat(Texts(rs, idUser))) && forall r | r in rs :: Fits(r)
    ensures var names := ReadNames(m, |rs|, HDR_SIZE + REC_SIZE * |rs|);
            names.Some? && forall k | 0 <= k < |rs| :: CameThrough(rs[k], RecordsAt(m, names.value)[k], idUser)
  {
    var ts := Texts(rs, idUser);
    forall t | t in ts ensures CString(t) {
      var i :| 0 <= i < |ts| && ts[i] == t;
      PrintableIsCString(rs[i], idUser);
    }
    NamesRead(m, HDR_SIZE + REC_SIZE * |rs|, ts);
    var names := ReadNames(m, |rs|, HDR_SIZE + REC_SIZE * |rs|).value;
    forall k | 0 <= k < |rs| ensures CameThrough(rs[k], RecordsAt(m, names)[k], idUser) {
      RecordInBody(m, rs, Cat(ts), k, names[k]);
    }
  }

  lemma HeaderAt(m: seq<byte>, count: nat, size: nat)
    requires |m| >= HDR_SIZE && m[..HDR_SIZE] == Header(count, size) && count < WORD && size < WORD
    ensures WordAt(m, 0) == BOOTSTAGE_VERSION && WordAt(m, 4) == count
    ensures WordAt(m, 8) == size && WordAt(m, 12) == BOOTSTAGE_MAGIC
  {
    var h := Header(count, size);
    HeaderFields(count, size);
    SliceOfSlice(m, 0, HDR_SIZE, 0, 4);
    SliceOfSlice(m, 0, HDR_SIZE, 4, 8);
    SliceOfSlice(m, 0, HDR_SIZE, 8, 12);
    SliceOfSlice(m, 0, HDR_SIZE, 12, 16);
    assert m[0..HDR_SIZE] == m[..HDR_SIZE];
    WordValue(m, 0, BOOTSTAGE_VERSION);
    WordValue(m, 4, count);
    WordValue(m, 8, size);
    WordValue(m, 12, BOOTSTAGE_MAGIC);
  }

  lemma HeaderFields(count: nat, size: nat)
    ensures var h := Header(count, size);
            && h[0..4] == Word(BOOTSTAGE_VERSION) && h[4..8] == Word(count)
            && h[8..12] == Word(size) && h[12..16] == Word(BOOTSTAGE_MAGIC)
  {
  }

  lemma ImageParts(m: seq<byte>, rs: seq<Record>, idUser: nat)
    requires Image(rs, idUser) <= m
    ensures m[..HDR_SIZE] == Header(|rs|, StashSize(rs, idUser))
    ensures HasBody(m, rs, Cat(Texts(rs, idUser)))
  {
    var h, r, n := Header(|rs|, StashSize(rs, idUser)), RecordBytes(rs), Cat(Texts(rs, idUser));
    ThreeParts(m, h, r, n);
  }

  lemma ThreeParts(m: seq<byte>, a: seq<byte>, b: seq<byte>, c: seq<byte>)
    requires a + b + c <= m
    ensures m[..|a|] == a && m[|a|..|a| + |b|] == b && m[|a| + |b|..|a| + |b| + |c|] == c
  {
    var all := a + b + c;
    assert m[..|a|] == all[..|a|];
    assert m[|a|..|a| + |b|] == all[|a|..|a| + |b|];
    assert m[|a| + |b|..|a| + |b| + |c|] == all[|a| + |b|..];
  }

  /** What the header of a stash says. */
  ghost predicate Announces(m: seq<byte>, count: nat, total: nat)
  {
    && HDR_SIZE + REC_SIZE * count <= total <= |m|
    && WordAt(m, 0) == BOOTSTAGE_VERSION && WordAt(m, 4) == count
    && WordAt(m, 8) == total && WordAt(m, 12) == BOOTSTAGE_MAGIC
  }

  /** What can be read behind the header. */
  ghost predicate Yields(m: seq<byte>, count: nat, news: seq<Record>)
  {
    && HDR_SIZE + REC_SIZE * count <= |m|
    && var names := ReadNames(m, count, HDR_SIZE + REC_SIZE * count);
       names.Some? && news == RecordsAt(m, names.value)
  }

  lemma ImageAnnounces(m: seq<byte>, rs: seq<Record>, idUser: nat)
    requires Image(rs, idUser) <= m && |m| < 0x8000_0000
    ensures Announces(m, |rs|, StashSize(rs, idUser))
  {
    ImageParts(m, rs, idUser);
    HeaderAt(m, |rs|, StashSize(rs, idUser));
  }

  lemma ImageYields(m: seq<byte>, rs: seq<Record>, idUser: nat) returns (news: seq<Record>)
    requires Image(rs, idUser) <= m && forall r | r in rs :: Fits(r)
    ensures Yields(m, |rs|, news) && |news| == |rs|
    ensures forall k | 0 <= k < |rs| :: CameThrough(rs[k], news[k], idUser)
  {
    ImageParts(m, rs, idUser);
    BodyRead(m, rs, idUser);
    news := RecordsAt(m, ReadNames(m, |rs|, HDR_SIZE + REC_SIZE * |rs|).value);
  }

  lemma ScreenPassed(count: nat, total: nat, base: nat, size: int, length: nat, room: nat, nextId: nat)
    requires nextId + count <= room < 0x8000_0000 && length < 0x8000_0000 && base + length < WORD
    requires HDR_SIZE + REC_SIZE * count <= total <= length && (size == -1 || total <= size <= length)
    ensures Screen(BOOTSTAGE_VERSION, count, total, BOOTSTAGE_MAGIC, base, size, length, room, nextId) == Pass
  {
    SmallWord(base + total);
    SmallWord(count * REC_SIZE);
    SmallWord(nextId + count);
  }

  lemma Accepted(m: seq<byte>, base: nat, size: int, table: seq<Record>, nextId: nat, count: nat, total: nat,
                 news: seq<Record>)
    requires base + |m| < WORD
    requires nextId + count <= |table| < 0x8000_0000 && |m| < 0x8000_0000 && (size == -1 || total <= size <= |m|)
    requires Announces(m, count, total) && Yields(m, count, news)
    ensures Unstash(m, base, size, table, nextId) ==
            Loaded(table[..nextId] + news + table[nextId + count..], nextId + count)
  {
    ScreenPassed(count, total, base, size, |m|, |table|, nextId);
    assert Adopted(m, count, table, nextId) ==
           Loaded(table[..nextId] + news + table[nextId + count..], nextId + count);
  }

  /** The records of a stash are appended to the table, in order, under their printable names. */
  lemma RoundTrip(m: seq<byte>, base: nat, size: int, rs: seq<Record>, idUser: nat, table: seq<Record>, nextId: nat)
    returns (news: seq<Record>)
    requires base + |m| < WORD
    requires Image(rs, idUser) <= m && |m| < 0x8000_0000 && (size == -1 || StashSize(rs, idUser) <= size <= |m|)
    requires nextId + |rs| <= |table| < 0x8000_0000 && forall r | r in rs :: Fits(r)
    ensures |news| == |rs| && forall k | 0 <= k < |rs| :: CameThrough(rs[k], news[k], idUser)
    ensures Unstash(m, base, size, table, nextId) ==
            Loaded(table[..nextId] + news + table[nextId + |rs|..], nextId + |rs|)
  {
    ImageAnnounces(m, rs, idUser);
    news := ImageYields(m, rs, idUser);
    Accepted(m, base, size, table, nextId, |rs|, StashSize(rs, idUser), news);
  }

  /** A stash that ran out of space after its header, with at least one record, is never accepted. */
  lemma FailedStashRejected(m: seq<byte>, base: nat, size: int, count: nat, table: seq<Record>, nextId: nat)
    requires |m| >= HDR_SIZE && m[..HDR_SIZE] == Header(count, 0) && 0 < count && count * REC_SIZE < WORD
    requires size <= |m| && base + |m| < WORD
    ensures Unstash(m, base, size, table, nextId) == Rejected
  {
    HeaderAt(m, count, 0);
    assert count * REC_SIZE % WORD == count * REC_SIZE;
  }

  // ----- the commands -----

  /** Writes the data if it ends inside the buffer; moves the pointer in any case. */
  method AppendData(buffer: array<byte>, ptr: nat, data: seq<byte>) returns (ptr': nat)
    modifies buffer
    ensures ptr' == ptr + |data|
    ensures ptr' > buffer.Length ==> buffer[..] == old(buffer[..])
    ensures ptr' <= buffer.Length ==> buffer[..] == old(buffer[..ptr]) + data + old(buffer[ptr'..])
  {
    ptr' := ptr + |data|;
    if ptr' > buffer.Length {
      return;
    }
    forall i | 0 <= i < |data| {
      buffer[ptr + i] := data[i];
    }
  }

  /** What has been appended so far is in the buffer as long as it fits; the header is untouched. */
  ghost predicate Appended(b: seq<byte>, ptr: nat, header: seq<byte>, body: seq<byte>)
  {
    && |header| == HDR_SIZE <= |b| && ptr == HDR_SIZE + |body|
    && b[..HDR_SIZE] == header && (ptr <= |b| ==> b[HDR_SIZE..ptr] == body)
  }

  lemma ImageGrouped(rs: seq<Record>, idUser: nat)
    ensures Image(rs, idUser) == Header(|rs|, StashSize(rs, idUser)) + (RecordBytes(rs) + Cat(Texts(rs, idUser)))
    ensures |RecordBytes(rs) + Cat(Texts(rs, idUser))| == StashSize(rs, idUser) - HDR_SIZE
  {
  }

  /** A new header before an old body. */
  lemma Rewritten(b: seq<byte>, b': seq<byte>, ptr: nat, header: seq<byte>, body: seq<byte>)
    requires |header| == HDR_SIZE <= ptr <= |b| == |b'| && b[HDR_SIZE..ptr] == body
    requires b'[..HDR_SIZE] == header && b'[HDR_SIZE..] == b[HDR_SIZE..]
    ensures header + body <= b'
  {
    var n := ptr - HDR_SIZE;
    assert b'[HDR_SIZE..ptr] == b'[HDR_SIZE..][..n] == b[HDR_SIZE..][..n] == b[HDR_SIZE..ptr];
    assert b'[..ptr] == b'[..HDR_SIZE] + b'[HDR_SIZE..ptr];
  }

  lemma AppendedStep(b: seq<byte>, b': seq<byte>, ptr: nat, header: seq<byte>, body: seq<byte>, data: seq<byte>)
    requires Appended(b, ptr, header, body)
    requires b' == if ptr + |data| > |b| then b else b[..ptr] + data + b[ptr + |data|..]
    ensures Appended(b', ptr + |data|, header, body + data)
  {
    if ptr + |data| <= |b| {
      assert b'[HDR_SIZE..ptr + |data|] == b[HDR_SIZE..ptr] + data;
    }
  }

  /** One piece of a stash behind the others. */
  method Append(buffer: array<byte>, ptr: nat, data: seq<byte>, ghost header: seq<byte>, ghost body: seq<byte>)
    returns (ptr': nat)
    requires Appended(buffer[..], ptr, header, body)
    modifies buffer
    ensures Appended(buffer[..], ptr', header, body + data)
  {
    ghost var before := buffer[..];
    ptr' := AppendData(buffer, ptr, data);
    AppendedStep(before, buffer[..], ptr, header, body, data);
  }

  lemma {:induction false} CatSnoc(ts: seq<seq<byte>>, t: seq<byte>)
    ensures Cat(ts + [t]) == Cat(ts) + (t + [0])
  {
    if ts == [] {
      assert (ts + [t])[1..] == [] && Cat([]) == [];
    } else {
      assert (ts + [t])[1..] == ts[1..] + [t];
      CatSnoc(ts[1..], t);
    }
  }

  lemma LiveTake(rs: seq<Record>, i: nat)
    requires i < |rs|
    ensures Live(rs[..i + 1]) == if rs[i].time != 0 then Live(rs[..i]) + [rs[i]] else Live(rs[..i])
  {
    assert rs[..i + 1][..i] == rs[..i];
  }

  lemma TextsSnoc(body: seq<byte>, rs: seq<Record>, r: Record, idUser: nat)
    ensures body + Cat(Texts(rs + [r], idUser)) == body + Cat(Texts(rs, idUser)) + (Printable(r, idUser) + [0])
  {
    assert Texts(rs + [r], idUser) == Texts(rs, idUser) + [Printable(r, idUser)];
    CatSnoc(Texts(rs, idUser), Printable(r, idUser));
  }

  lemma RecordBytesSnoc(rs: seq<Record>, r: Record)
    ensures RecordBytes(rs + [r]) == RecordBytes(rs) + Encode(r)
  {
    assert (rs + [r])[..|rs|] == rs;
  }

  function Prefixed(done: seq<Name>, r: Option<seq<Name>>): Option<seq<Name>>
  {
    if r.None? then None else Some(done + r.value)
  }

  lemma PrefixedNone(r: Option<seq<Name>>)
    ensures Prefixed([], r) == r
  {
    if r.Some? {
      assert [] + r.value == r.value;
    }
  }

  lemma PrefixedStep(done: seq<Name>, m: seq<byte>, n: nat, p: nat)
    requires n > 0 && p <= |m|
    ensures var q := StrEnd(m, p);
            Prefixed(done, ReadNames(m, n, p)) ==
            if q == |m| then None else Prefixed(done + [Name(p, m[p..q])], ReadNames(m, n - 1, q + 1))
  {
    var q := StrEnd(m, p);
    if q < |m| && ReadNames(m, n - 1, q + 1).Some? {
      var rest := ReadNames(m, n - 1, q + 1).value;
      assert done + ([Name(p, m[p..q])] + rest) == done + [Name(p, m[p..q])] + rest;
    }
  }

  /** The places and texts of `n` strings from `p` on; `ok` is false if they run out of memory. */
  method NameList(m: seq<byte>, n: nat, p0: nat) returns (ok: bool, names: seq<Name>)
    requires p0 <= |m|
    ensures ok <==> ReadNames(m, n, p0).Some?
    ensures ok ==> ReadNames(m, n, p0) == Some(names)
  {
    var p: nat := p0;
    names := [];
    PrefixedNone(ReadNames(m, n, p0));
    for id := 0 to n
      invariant p <= |m| && |names| == id && ReadNames(m, n, p0) == Prefixed(names, ReadNames(m, n - id, p))
    {
      PrefixedStep(names, m, n - id, p);
      var q := StrEnd(m, p);
      if q == |m| {
        return false, names;
      }
      names := names + [Name(p, m[p..q])];
      p := q + 1;
    }
    assert names + [] == names;
    ok := true;
  }

  method StoreAll<T>(a: array<T>, at: nat, xs: seq<T>)
    requires at + |xs| <= a.Length
    modifies a
    ensures a[..] == old(a[..])[..at] + xs + old(a[..])[at + |xs|..]
  {
    forall i | 0 <= i < |xs| {
      a[at + i] := xs[i];
    }
  }

  class Stage {
    const idUser: nat
    var record: array<Record>
    var nextId: nat

    constructor (idUser: nat, idCount: nat)
      ensures this.idUser == idUser && nextId == idUser && fresh(record) && record.Length == idCount
      ensures forall i | 0 <= i < record.Length :: Fits(record[i])
    {
      this.idUser, nextId := idUser, idUser;
      record := new Record[idCount](i => Record(if i == 0 then 1 else 0, 0, NoName, 0, 0));
    }

    /** `bootstage_add_record`: only the first event of each stage is recorded. */
    method AddRecord(id0: nat, name: Name, flags: nat, mark: nat) returns (stamp: nat, ghost id: nat)
      modifies this`nextId, record
      ensures record == old(record) && stamp == mark
      ensures if flags / 2 % 2 == 1 then id == old(nextId) && nextId == id + 1 else id == id0 && nextId == old(nextId)
      ensures forall i | 0 <= i < record.Length ::
                record[i] == if i == id && old(record[i]).time == 0
                             then old(record[i]).(time := mark, name := name, flags := flags, id := id)
                             else old(record[i])
    {
      var stage := id0;
      if flags / 2 % 2 == 1 {       // BOOTSTAGEF_ALLOC
        stage := nextId;
        nextId := nextId + 1;
      }
      if stage < record.Length && record[stage].time == 0 {
        record[stage] := record[stage].(time := mark, name := name, flags := flags, id := stage);
      }
      return mark, stage;
    }

    method CountLive() returns (count: nat)
      ensures count == |Live(record[..])|
    {
      count := 0;
      for i := 0 to record.Length
        invariant count == |Live(record[..i])|
      {
        LiveTake(record[..], i);
        assert record[..][..i + 1] == record[..i + 1] && record[..][..i] == record[..i];
        if record[i].time != 0 {
          count := count + 1;
        }
      }
      assert record[..] == record[..record.Length];
    }

    method StashRecords(buffer: array<byte>, ghost header: seq<byte>) returns (ptr: nat)
      requires Appended(buffer[..], HDR_SIZE, header, [])
      modifies buffer
      ensures Appended(buffer[..], ptr, header, RecordBytes(Live(record[..])))
    {
      ptr := HDR_SIZE;
      ghost var rs := record[..];
      for i := 0 to record.Length
        invariant Appended(buffer[..], ptr, header, RecordBytes(Live(rs[..i])))
      {
        LiveTake(rs, i);
        if record[i].time != 0 {
          ptr := Append(buffer, ptr, Encode(record[i]), header, RecordBytes(Live(rs[..i])));
          RecordBytesSnoc(Live(rs[..i]), rs[i]);
        }
      }
      assert rs[..record.Length] == rs;
    }

    method StashNames(buffer: array<byte>, ptr0: nat, ghost header: seq<byte>, ghost body: seq<byte>) returns (ptr: nat)
      requires Appended(buffer[..], ptr0, header, body)
      modifies buffer
      ensures Appended(buffer[..], ptr, header, body + Cat(Texts(Live(record[..]), idUser)))
    {
      ptr := ptr0;
      ghost var rs := record[..];
      assert Texts([], idUser) == [] && body + [] == body;
      for i := 0 to record.Length
        invariant Appended(buffer[..], ptr, header, body + Cat(Texts(Live(rs[..i]), idUser)))
      {
        LiveTake(rs, i);
        if record[i].time != 0 {
          ptr := Append(buffer, ptr, Printable(record[i], idUser) + [0], header, body + Cat(Texts(Live(rs[..i]), idUser)));
          TextsSnoc(body, Live(rs[..i]), rs[i], idUser);
        }
      }
      assert rs[..record.Length] == rs;
    }

    /** A header that announces nothing, then records and names as far as they fit. */
    method Fill(buffer: array<byte>, count: nat) returns (ptr: nat)
      requires HDR_SIZE <= buffer.Length
      modifies buffer
      ensures Appended(buffer[..], ptr, Header(count, 0),
                       RecordBytes(Live(record[..])) + Cat(Texts(Live(record[..]), idUser)))
    {
      WriteHeader(buffer, count, 0);
      ptr := StashRecords(buffer, Header(count, 0));
      ptr := StashNames(buffer, ptr, Header(count, 0), RecordBytes(Live(record[..])));
    }

    /**
     `bootstage_stash` into a buffer: succeeds exactly if header, records and names fit, and then leaves the
     image of the live records; after a failure past the header check the header says that nothing is there.
     */
    method Stash(buffer: array<byte>) returns (rc: int)
      modifies buffer
      ensures var rs := Live(record[..]);
              && rc == (if StashSize(rs, idUser) <= buffer.Length then 0 else -1)
              && (rc == 0 ==> Image(rs, idUser) <= buffer[..])
              && (rc != 0 && HDR_SIZE <= buffer.Length ==> buffer[..HDR_SIZE] == Header(|rs|, 0) && |rs| > 0)
              && (buffer.Length < HDR_SIZE ==> buffer[..] == old(buffer[..]))
    {
      ghost var rs := Live(record[..]);
      if HDR_SIZE > buffer.Length {
        return -1;
      }
      var count := CountLive();
      var ptr := Fill(buffer, count);
      if ptr > buffer.Length {
        NoRecordsFit(rs, idUser);
        return -1;
      }
      Seal(buffer, count, ptr, rs);
      rc := 0;
    }

    /** The header of a stash that fitted. */
    method Seal(buffer: array<byte>, count: nat, ptr: nat, ghost rs: seq<Record>)
      requires ptr <= buffer.Length && count == |rs| && HDR_SIZE <= buffer.Length
      requires Appended(buffer[..], ptr, Header(count, 0), RecordBytes(rs) + Cat(Texts(rs, idUser)))
      modifies buffer
      ensures Image(rs, idUser) <= buffer[..]
    {
      ghost var before := buffer[..];
      WriteHeader(buffer, count, ptr);
      assert buffer[..][..HDR_SIZE] == buffer[..HDR_SIZE] && buffer[..][HDR_SIZE..] == buffer[HDR_SIZE..];
      Rewritten(before, buffer[..], ptr, Header(count, ptr), RecordBytes(rs) + Cat(Texts(rs, idUser)));
      ImageGrouped(rs, idUser);
    }

    method WriteHeader(buffer: array<byte>, count: nat, size: nat)
      requires HDR_SIZE <= buffer.Length
      modifies buffer
      ensures buffer[..HDR_SIZE] == Header(count, size) && buffer[HDR_SIZE..] == old(buffer[..])[HDR_SIZE..]
      ensures Appended(buffer[..], HDR_SIZE, Header(count, size), [])
    {
      var h := Header(count, size);
      forall i | 0 <= i < HDR_SIZE {
        buffer[i] := h[i];
      }
      assert buffer[..][..HDR_SIZE] == buffer[..HDR_SIZE] == h;
    }

    /** The copy of the records, each under its name. */
    method CopyRecords(m: seq<byte>, names: seq<Name>)
      requires nextId + |names| <= record.Length && HDR_SIZE + REC_SIZE * |names| <= |m|
      modifies record
      ensures record[..] == old(record[..])[..nextId] + RecordsAt(m, names) + old(record[..])[nextId + |names|..]
    {
      StoreAll(record, nextId, RecordsAt(m, names));
    }

    /** The checks of `bootstage_unstash`: -1 to reject, 0 to go on with `count` records. */
    method CheckHeader(m: seq<byte>, base: nat, size: int) returns (rc: int, count: nat)
      requires size <= |m| && base + |m| < WORD
      ensures rc == -1 ==> Unstash(m, base, size, record[..], nextId) == Rejected
      ensures rc == -2 ==> Unstash(m, base, size, record[..], nextId) == Fault
      ensures rc == -1 || rc == -2 || rc == 0
      ensures rc == 0 ==>
                && nextId + count <= record.Length && HDR_SIZE + REC_SIZE * count <= |m|
                && Unstash(m, base, size, record[..], nextId) == Adopted(m, count, record[..], nextId)
    {
      count := 0;
      if size != -1 && HDR_SIZE > size {
        return -1, count;
      }
      if HDR_SIZE > |m| {
        return -2, count;
      }
      count := WordAt(m, 4);
      if WordAt(m, 12) != BOOTSTAGE_MAGIC {
        return -1, count;
      }
      if size != -1 && (base + WordAt(m, 8)) % WORD > base + size {
        return -1, count;
      }
      if count * REC_SIZE % WORD > WordAt(m, 8) {
        return -1, count;
      }
      if WordAt(m, 0) != BOOTSTAGE_VERSION {
        return -1, count;
      }
      if (nextId + count) % WORD > record.Length {
        return -1, count;
      }
      if nextId + count > record.Length || HDR_SIZE + REC_SIZE * count > |m| {
        return -2, count;
      }
      rc := 0;
    }

    /** `bootstage_unstash`; -2 stands for leaving accessible memory. */
    method UnstashFrom(m: seq<byte>, base: nat, size: int) returns (rc: int)
      requires size <= |m| && base + |m| < WORD
      modifies this`nextId, record
      ensures record == old(record)
      ensures match Unstash(m, base, size, old(record[..]), old(nextId))
              case Rejected => rc == -1 && record[..] == old(record[..]) && nextId == old(nextId)
              case Fault => rc == -2
              case Loaded(table, next) => rc == 0 && record[..] == table && nextId == next
    {
      var count;
      rc, count := CheckHeader(m, base, size);
      if rc != 0 {
        return;
      }
      var ok, names := NameList(m, count, HDR_SIZE + REC_SIZE * count);
      if !ok {
        return -2;
      }
      CopyRecords(m, names);
      nextId := nextId + count;
    }
  }

  lemma NoRecordsFit(rs: seq<Record>, idUser: nat)
    ensures rs == [] ==> StashSize(rs, idUser) == HDR_SIZE
  {
    assert Texts([], idUser) == [];
  }

  /** From `first` on the table holds the records `rs` as they came through, elsewhere what it held before. */
  ghost predicate Arrived(before: seq<Record>, after: seq<Record>, first: nat, rs: seq<Record>, idUser: nat)
  {
    && |after| == |before|
    && forall i | 0 <= i < |after| ::
         if first <= i < first + |rs| then CameThrough(rs[i - first], after[i], idUser) else after[i] == before[i]
  }

  /** Stashing one table and unstashing into another: with room in buffer and table, exactly the live records
      arrive, in order and by name; a stash that did not fit is rejected and changes nothing. */
  method CarryOver(from: Stage, to: Stage, buffer: array<byte>, base: nat) returns (stashed: int, loaded: int)
    requires base + buffer.Length < WORD
    requires from.record != to.record && buffer.Length < 0x8000_0000 && to.record.Length < 0x8000_0000
    requires var rs := Live(from.record[..]);
             && |rs| * REC_SIZE < WORD && to.nextId + |rs| <= to.record.Length
             && forall r | r in rs :: Fits(r)
    modifies to`nextId, to.record, buffer
    ensures to.record == old(to.record)
    ensures var rs := Live(old(from.record[..]));
            && stashed == loaded == (if StashSize(rs, from.idUser) <= buffer.Length then 0 else -1)
            && (stashed == 0 ==>
                  && to.nextId == old(to.nextId) + |rs|
                  && Arrived(old(to.record[..]), to.record[..], old(to.nextId), rs, from.idUser))
            && (stashed != 0 ==> to.nextId == old(to.nextId) && to.record[..] == old(to.record[..]))
  {
    ghost var rs := Live(from.record[..]);
    stashed := from.Stash(buffer);
    assert from.record[..] == old(from.record[..]);
    assert buffer[..][..if HDR_SIZE <= buffer.Length then HDR_SIZE else 0]
        == buffer[..if HDR_SIZE <= buffer.Length then HDR_SIZE else 0];
    if stashed == 0 {
      loaded := LoadImage(to, buffer[..], base, rs, from.idUser);
    } else {
      loaded := LoadFailed(to, buffer[..], base, rs);
    }
  }

  method LoadImage(to: Stage, m: seq<byte>, base: nat, ghost rs: seq<Record>, ghost idUser: nat) returns (loaded: int)
    requires Image(rs, idUser) <= m && |m| < 0x8000_0000 && StashSize(rs, idUser) <= |m| && base + |m| < WORD
    requires to.nextId + |rs| <= to.record.Length < 0x8000_0000 && forall r | r in rs :: Fits(r)
    modifies to`nextId, to.record
    ensures to.record == old(to.record) && loaded == 0 && to.nextId == old(to.nextId) + |rs|
    ensures Arrived(old(to.record[..]), to.record[..], old(to.nextId), rs, idUser)
  {
    ghost var after := ImageLoads(m, base, rs, idUser, to.record[..], to.nextId);
    loaded := Adopt(to, m, base, after, to.nextId + |rs|);
  }

  lemma ImageLoads(m: seq<byte>, base: nat, rs: seq<Record>, idUser: nat, table: seq<Record>,
                   first: nat) returns (after: seq<Record>)
    requires Image(rs, idUser) <= m && |m| < 0x8000_0000 && StashSize(rs, idUser) <= |m| && base + |m| < WORD
    requires first + |rs| <= |table| < 0x8000_0000 && forall r | r in rs :: Fits(r)
    ensures Unstash(m, base, |m|, table, first) == Loaded(after, first + |rs|) && Arrived(table, after, first, rs, idUser)
  {
    var news := RoundTrip(m, base, |m|, rs, idUser, table, first);
    after := table[..first] + news + table[first + |rs|..];
    CameThroughAll(table, after, first, news, rs, idUser);
  }

  method Adopt(to: Stage, m: seq<byte>, base: nat, ghost after: seq<Record>, ghost next: nat) returns (loaded: int)
    requires base + |m| < WORD
    requires Unstash(m, base, |m|, to.record[..], to.nextId) == Loaded(after, next)
    modifies to`nextId, to.record
    ensures to.record == old(to.record) && loaded == 0 && to.nextId == next && to.record[..] == after
  {
    loaded := to.UnstashFrom(m, base, |m|);
  }

  method LoadFailed(to: Stage, m: seq<byte>, base: nat, ghost rs: seq<Record>) returns (loaded: int)
    requires base + |m| < WORD
    requires |rs| * REC_SIZE < WORD && (|m| >= HDR_SIZE ==> m[..HDR_SIZE] == Header(|rs|, 0) && |rs| > 0)
    modifies to`nextId, to.record
    ensures to.record == old(to.record) && loaded == -1
    ensures to.nextId == old(to.nextId) && to.record[..] == old(to.record[..])
  {
    if |m| >= HDR_SIZE {
      FailedStashRejected(m, base, |m|, |rs|, to.record[..], to.nextId);
    }
    loaded := to.UnstashFrom(m, base, |m|);
  }

  lemma CameThroughAll(before: seq<Record>, after: seq<Record>, first: nat, news: seq<Record>, rs: seq<Record>,
                       idUser: nat)
    requires first + |news| <= |before| && after == before[..first] + news + before[first + |news|..]
    requires |news| == |rs| && forall k | 0 <= k < |rs| :: CameThrough(rs[k], news[k], idUser)
    ensures Arrived(before, after, first, rs, idUser)
  {
  }
}
