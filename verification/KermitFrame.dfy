/**
 Kermit packets on the wire: the characters that `k_recv` takes between a START
 character and its decision to accept or reject the packet, and the packets a
 sender (or this receiver's own replies) must build to be accepted.
 */
module KermitFrame {
  import opened Bits
  import opened Bytes

  const START_CHAR: byte := 0x01
  const ETX_CHAR: byte := 0x03
  const END_CHAR: byte := 0x0D
  const SPACE: byte := 0x20
  const K_ESCAPE: byte := 0x23
  const SEND_TYPE: byte := 0x53
  const DATA_TYPE: byte := 0x44
  const ACK_TYPE: byte := 0x59
  const NACK_TYPE: byte := 0x4E
  const BREAK_TYPE: byte := 0x42

  function ToChar(x: int): byte { (x + SPACE) % 256 }

  function UnToChar(c: byte): nat { (c - SPACE) % 256 }

  /** The single-character block check of a character sum, before `ToChar`. */
  function Check(total: int): nat { (total + total / 64 % 4) % 64 }

  /** The check depends on the sum's low byte only. */
  lemma CheckOfByte(total: int)
    ensures Check(total) == (total % 256 + total % 256 / 64) % 64
  {
    var q, r := total / 256, total % 256;
    DivModUnique(total, 64, 4 * q + r / 64, r % 64);
    DivModUnique(total / 64, 4, q, r / 64);
    var c := r + r / 64;
    DivModUnique(total + r / 64, 64, 4 * q + c / 64, c % 64);
  }

  /** `chk1` sums plain `char`s, signed or not, and `k_recv` sums unsigned ones: both give one check. */
  lemma CheckIgnoresSign(total: int, total': int)
    requires total % 256 == total' % 256
    ensures Check(total) == Check(total')
  {
    CheckOfByte(total);
    CheckOfByte(total');
  }

  /** What becomes of one packet. `next` is the index of the first character not consumed. */
  datatype Frame =
    | Starved                                  // the line falls silent inside the packet
    | HeaderError(next: nat)                   // a control character before the sequence number is known
    | Rejected(n: nat, next: nat)              // damaged after the sequence number
    | Accepted(n: nat, kind: byte, data: seq<byte>, next: nat)

  function ReadFrame(inp: seq<byte>, i: nat): (f: Frame)
    requires i <= |inp|
    ensures !f.Starved? ==> i < f.next <= |inp|
    ensures f.Rejected? || f.Accepted? ==> f.n < 224
  {
    if i == |inp| then Starved
    else if inp[i] < SPACE then HeaderError(i + 1)
    else if i + 1 == |inp| then Starved
    else if inp[i + 1] < SPACE then HeaderError(i + 2)
    else ReadType(inp, i + 2, UnToChar(inp[i + 1]), UnToChar(inp[i]) - 1, inp[i] as int + inp[i + 1])
  }

  function ReadType(inp: seq<byte>, i: nat, n: nat, length: int, sum: nat): (f: Frame)
    requires i <= |inp|
    ensures !f.Starved? ==> i < f.next <= |inp|
    ensures (f.Rejected? || f.Accepted? ==> f.n == n) && !f.HeaderError?
  {
    if i == |inp| then Starved
    else if inp[i] < SPACE then Rejected(n, i + 1)
    else if length - 1 == -2 then ReadExtended(inp, i + 1, n, inp[i], sum + inp[i])
    else ReadData(inp, i + 1, i + 1, n, inp[i], length - 1, sum + inp[i])
  }

  /** Extended length: two base-95 digits and a check of the header so far. */
  function ReadExtended(inp: seq<byte>, i: nat, n: nat, kind: byte, sum: nat): (f: Frame)
    requires i <= |inp|
    ensures !f.Starved? ==> i < f.next <= |inp|
    ensures f.Accepted? ==> f.kind == kind
    ensures (f.Rejected? || f.Accepted? ==> f.n == n) && !f.HeaderError?
  {
    if i == |inp| then Starved
    else if inp[i] < SPACE then Rejected(n, i + 1)
    else if i + 1 == |inp| then Starved
    else if inp[i + 1] < SPACE then Rejected(n, i + 2)
    else if i + 2 == |inp| then Starved
    else if inp[i + 2] < SPACE then Rejected(n, i + 3)
    else if inp[i + 2] != ToChar(Check(sum + inp[i] + inp[i + 1])) then Rejected(n, i + 3)
    else ReadData(inp, i + 3, i + 3, n, kind, UnToChar(inp[i]) * 95 + UnToChar(inp[i + 1]),
                  sum + inp[i] + inp[i + 1] + inp[i + 2])
  }

  function ReadData(inp: seq<byte>, start: nat, i: nat, n: nat, kind: byte, length: int, sum: nat): (f: Frame)
    requires start <= i <= |inp|
    ensures !f.Starved? ==> i < f.next <= |inp|
    ensures f.Accepted? ==> f.kind == kind
    ensures (f.Rejected? || f.Accepted? ==> f.n == n) && !f.HeaderError?
    decreases |inp| - i
  {
    if length <= 1 then ReadCheck(inp, i, n, kind, inp[start..i], sum)
    else if i == |inp| then Starved
    else if inp[i] < SPACE then Rejected(n, i + 1)
    else ReadData(inp, start, i + 1, n, kind, length - 1, sum + inp[i])
  }

  function ReadCheck(inp: seq<byte>, i: nat, n: nat, kind: byte, data: seq<byte>, sum: nat): (f: Frame)
    requires i <= |inp|
    ensures !f.Starved? ==> i < f.next <= |inp|
    ensures f.Accepted? ==> f.kind == kind
    ensures (f.Rejected? || f.Accepted? ==> f.n == n) && !f.HeaderError?
  {
    if i == |inp| then Starved
    else if inp[i] < SPACE then Rejected(n, i + 1)
    else if inp[i] != ToChar(Check(sum)) then Rejected(n, i + 1)
    else if i + 1 == |inp| then Starved
    else if inp[i + 1] != END_CHAR then Rejected(n, i + 2)
    else Accepted(n, kind, data, i + 2)
  }

  // ----- the packet format, stated without reference to how it is read -----

  predicate Printable(s: seq<byte>) { forall k | 0 <= k < |s| :: s[k] >= SPACE }

  /** The number of data characters that a remaining length announces (the block check counts as one). */
  function DataCount(length: int): nat { if length <= 1 then 0 else length - 1 }

  /** A packet from its length character through its terminator. */
  predicate Packet(f: seq<byte>, header: nat, count: nat, n: nat, kind: byte, data: seq<byte>)
  {
    && |f| == header + count + 2 && header >= 3
    && Printable(f[..|f| - 1])
    && f[1] == ToChar(n) && n < 224 && f[2] == kind
    && f[header..|f| - 2] == data
    && f[|f| - 2] == ToChar(Check(Sum(f[..|f| - 2])))
    && f[|f| - 1] == END_CHAR
  }

  predicate ShortPacket(f: seq<byte>, n: nat, kind: byte, data: seq<byte>)
  {
    && |f| >= 5 && UnToChar(f[0]) != 0
    && Packet(f, 3, DataCount(UnToChar(f[0]) - 2), n, kind, data)
  }

  predicate LongPacket(f: seq<byte>, n: nat, kind: byte, data: seq<byte>)
  {
    && |f| >= 8 && UnToChar(f[0]) == 0
    && Packet(f, 6, DataCount(UnToChar(f[3]) * 95 + UnToChar(f[4])), n, kind, data)
    && f[5] == ToChar(Check(Sum(f[..5])))
  }

  predicate IsPacket(f: seq<byte>, n: nat, kind: byte, data: seq<byte>)
  {
    ShortPacket(f, n, kind, data) || LongPacket(f, n, kind, data)
  }

  lemma FirstOfField(inp: seq<byte>, i: nat, next: nat)
    requires i + 3 <= next <= |inp| && inp[i] >= SPACE
    ensures Printable(inp[i..next - 1]) <==> Printable(inp[i + 1..next - 1])
    ensures Sum(inp[i..next - 2]) == inp[i] + Sum(inp[i + 1..next - 2])
  {
    assert inp[i..next - 1] == [inp[i]] + inp[i + 1..next - 1];
    PrintableAppend([inp[i]], inp[i + 1..next - 1]);
    assert inp[i..next - 2][1..] == inp[i + 1..next - 2];
  }

  /** The body of a packet is accepted exactly when it is printable, checks and is terminated. */
  lemma {:induction false} DataAccepted(inp: seq<byte>, start: nat, i: nat, n: nat, kind: byte, length: int, sum: nat,
                                        data: seq<byte>, next: nat)
    requires start <= i <= |inp|
    ensures ReadData(inp, start, i, n, kind, length, sum) == Accepted(n, kind, data, next) <==>
            && next == i + DataCount(length) + 2 && next <= |inp|
            && data == inp[start..next - 2]
            && Printable(inp[i..next - 1])
            && inp[next - 2] == ToChar(Check(sum + Sum(inp[i..next - 2])))
            && inp[next - 1] == END_CHAR
    decreases |inp| - i
  {
    if length <= 1 {
      if next == i + 2 && next <= |inp| {
        assert inp[i..next - 1] == [inp[i]];
        assert inp[i..next - 2] == [];
      }
    } else if i < |inp| && inp[i] >= SPACE {
      DataAccepted(inp, start, i + 1, n, kind, length - 1, sum + inp[i], data, next);
      if next == i + DataCount(length) + 2 && next <= |inp| {
        FirstOfField(inp, i, next);
      }
    } else if next == i + DataCount(length) + 2 && next <= |inp| {
      assert inp[i..next - 1][0] == inp[i];
    }
  }

  lemma SequenceChar(c: byte, n: nat)
    requires c >= SPACE
    ensures c == ToChar(n) && n < 224 <==> n == UnToChar(c)
  {
  }

  lemma PacketSlice(inp: seq<byte>, i: nat, header: nat, next: nat, cut: nat)
    requires cut <= 2 && i + header + 2 <= next <= |inp|
    ensures var f := inp[i..next]; f[..|f| - cut] == inp[i..i + header] + inp[i + header..next - cut]
  {
    var f := inp[i..next];
    SliceOfSlice(inp, i, next, 0, |f| - cut);
    SlicesJoin(inp, i, i + header, next - cut);
    assert f[..|f| - cut] == f[0..|f| - cut];
  }

  /** The header characters and the rest of a packet `inp[i..next]`, whose body starts at `i + header`. */
  lemma PacketParts(inp: seq<byte>, i: nat, header: nat, next: nat)
    requires 3 <= header && i + header + 2 <= next <= |inp|
    ensures var f := inp[i..next];
            && Sum(f[..|f| - 2]) == Sum(inp[i..i + header]) + Sum(inp[i + header..next - 2])
            && (Printable(f[..|f| - 1]) <==> Printable(inp[i..i + header]) && Printable(inp[i + header..next - 1]))
            && f[header..|f| - 2] == inp[i + header..next - 2]
            && f[|f| - 2] == inp[next - 2] && f[|f| - 1] == inp[next - 1]
  {
    var f := inp[i..next];
    PacketSlice(inp, i, header, next, 2);
    PacketSlice(inp, i, header, next, 1);
    SliceOfSlice(inp, i, next, header, |f| - 2);
    SumAppend(inp[i..i + header], inp[i + header..next - 2]);
    PrintableAppend(inp[i..i + header], inp[i + header..next - 1]);
  }

  lemma PrintableAppend(a: seq<byte>, b: seq<byte>)
    ensures Printable(a + b) <==> Printable(a) && Printable(b)
  {
    if Printable(a + b) {
      forall k | 0 <= k < |a| ensures a[k] >= SPACE { assert (a + b)[k] == a[k]; }
      forall k | 0 <= k < |b| ensures b[k] >= SPACE { assert (a + b)[|a| + k] == b[k]; }
    }
  }

  /** A short header that passes leads to the body; one that does not is never accepted. */
  lemma ShortHeader(inp: seq<byte>, i: nat)
    requires i < |inp| && UnToChar(inp[i]) != 0
    ensures if i + 3 <= |inp| && Printable(inp[i..i + 3])
            then ReadFrame(inp, i) == ReadData(inp, i + 3, i + 3, UnToChar(inp[i + 1]), inp[i + 2],
                                               UnToChar(inp[i]) - 2, Sum(inp[i..i + 3]))
            else !ReadFrame(inp, i).Accepted?
  {
    if i + 3 <= |inp| {
      var h := inp[i..i + 3];
      SumTake(h, 0);
      SumTake(h, 1);
      SumTake(h, 2);
      assert h[..3] == h;
      assert h[0] == inp[i] && h[1] == inp[i + 1] && h[2] == inp[i + 2];
      assert Printable(h) <==> h[0] >= SPACE && h[1] >= SPACE && h[2] >= SPACE;
    }
  }

  lemma LongHeader(inp: seq<byte>, i: nat)
    requires i < |inp| && UnToChar(inp[i]) == 0
    ensures if i + 6 <= |inp| && Printable(inp[i..i + 6]) && inp[i + 5] == ToChar(Check(Sum(inp[i..i + 5])))
            then ReadFrame(inp, i) == ReadData(inp, i + 6, i + 6, UnToChar(inp[i + 1]), inp[i + 2],
                                               UnToChar(inp[i + 3]) * 95 + UnToChar(inp[i + 4]), Sum(inp[i..i + 6]))
            else !ReadFrame(inp, i).Accepted?
  {
    if i + 6 <= |inp| {
      var h := inp[i..i + 6];
      SumTake(h, 0);
      SumTake(h, 1);
      SumTake(h, 2);
      SumTake(h, 3);
      SumTake(h, 4);
      SumTake(h, 5);
      assert h[..6] == h && h[..5] == inp[i..i + 5];
      assert forall k | 0 <= k < 6 :: h[k] == inp[i + k];
      assert Printable(h) <==>
             h[0] >= SPACE && h[1] >= SPACE && h[2] >= SPACE && h[3] >= SPACE && h[4] >= SPACE && h[5] >= SPACE;
    }
  }

  /** What the packet format asks for behind a printable header. */
  lemma PacketShape(inp: seq<byte>, i: nat, header: nat, count: nat, n: nat, kind: byte, data: seq<byte>, next: nat)
    requires 3 <= header && i + header <= |inp| && Printable(inp[i..i + header]) && i <= next <= |inp|
    ensures Packet(inp[i..next], header, count, n, kind, data) <==>
            && next == i + header + count + 2 && n == UnToChar(inp[i + 1]) && kind == inp[i + 2]
            && data == inp[i + header..next - 2] && Printable(inp[i + header..next - 1])
            && inp[next - 2] == ToChar(Check(Sum(inp[i..i + header]) + Sum(inp[i + header..next - 2])))
            && inp[next - 1] == END_CHAR
  {
    assert inp[i + 1] == inp[i..i + header][1];
    SequenceChar(inp[i + 1], n);
    if i + header + 2 <= next {
      PacketParts(inp, i, header, next);
      assert inp[i..next][1] == inp[i + 1] && inp[i..next][2] == inp[i + 2];
    }
  }

  /** Past a good header of either form, accepting the body is accepting the packet. */
  lemma BodyAccepted(inp: seq<byte>, i: nat, header: nat, length: int, n: nat, kind: byte, data: seq<byte>, next: nat)
    requires 3 <= header && i + header <= |inp| && Printable(inp[i..i + header])
    ensures ReadData(inp, i + header, i + header, UnToChar(inp[i + 1]), inp[i + 2], length, Sum(inp[i..i + header]))
              == Accepted(n, kind, data, next) <==>
            i <= next <= |inp| && Packet(inp[i..next], header, DataCount(length), n, kind, data)
  {
    var at, m, k, sum := i + header, UnToChar(inp[i + 1]), inp[i + 2], Sum(inp[i..i + header]);
    DataAccepted(inp, at, at, m, k, length, sum, data, next);
    DataNumber(inp, at, at, m, k, length, sum);
    if i <= next <= |inp| {
      PacketShape(inp, i, header, DataCount(length), n, kind, data, next);
    }
  }

  /** Number and type of an accepted packet are those it came with. */
  lemma {:induction false} DataNumber(inp: seq<byte>, start: nat, i: nat, n: nat, kind: byte, length: int, sum: nat)
    requires start <= i <= |inp|
    ensures var f := ReadData(inp, start, i, n, kind, length, sum); f.Accepted? ==> f.n == n && f.kind == kind
    decreases |inp| - i
  {
    if length > 1 && i < |inp| && inp[i] >= SPACE {
      DataNumber(inp, start, i + 1, n, kind, length - 1, sum + inp[i]);
    }
  }

  lemma ShortFrameAccepted(inp: seq<byte>, i: nat, n: nat, kind: byte, data: seq<byte>, next: nat)
    requires i < |inp| && UnToChar(inp[i]) != 0
    ensures ReadFrame(inp, i) == Accepted(n, kind, data, next) <==>
            i <= next <= |inp| && IsPacket(inp[i..next], n, kind, data)
  {
    if i < next <= |inp| {
      assert inp[i..next][0] == inp[i];
    }
    ShortHeader(inp, i);
    if i + 3 <= |inp| && Printable(inp[i..i + 3]) {
      BodyAccepted(inp, i, 3, UnToChar(inp[i]) - 2, n, kind, data, next);
    } else if i + 5 <= next <= |inp| {
      PacketParts(inp, i, 3, next);
    }
  }

  lemma LongFrameAccepted(inp: seq<byte>, i: nat, n: nat, kind: byte, data: seq<byte>, next: nat)
    requires i < |inp| && UnToChar(inp[i]) == 0
    ensures ReadFrame(inp, i) == Accepted(n, kind, data, next) <==>
            i <= next <= |inp| && IsPacket(inp[i..next], n, kind, data)
  {
    if i < next <= |inp| {
      assert inp[i..next][0] == inp[i];
    }
    LongHeader(inp, i);
    if i + 8 <= next <= |inp| {
      LongPacketHeader(inp, i, n, kind, data, next);
    }
    if i + 6 <= |inp| && Printable(inp[i..i + 6]) {
      BodyAccepted(inp, i, 6, UnToChar(inp[i + 3]) * 95 + UnToChar(inp[i + 4]), n, kind, data, next);
    }
  }

  /** What the extended format says of the header, in terms of the line. */
  lemma LongPacketHeader(inp: seq<byte>, i: nat, n: nat, kind: byte, data: seq<byte>, next: nat)
    requires i + 8 <= next <= |inp| && UnToChar(inp[i]) == 0
    ensures IsPacket(inp[i..next], n, kind, data) <==>
            && Printable(inp[i..i + 6]) && inp[i + 5] == ToChar(Check(Sum(inp[i..i + 5])))
            && Packet(inp[i..next], 6, DataCount(UnToChar(inp[i + 3]) * 95 + UnToChar(inp[i + 4])), n, kind, data)
  {
    var f := inp[i..next];
    PacketParts(inp, i, 6, next);
    assert f[..5] == inp[i..i + 5];
    assert f[0] == inp[i] && f[3] == inp[i + 3] && f[4] == inp[i + 4] && f[5] == inp[i + 5];
  }

  /** The reader accepts exactly the well-formed packets, and reports their contents. */
  lemma FrameAccepted(inp: seq<byte>, i: nat, n: nat, kind: byte, data: seq<byte>, next: nat)
    requires i <= |inp|
    ensures ReadFrame(inp, i) == Accepted(n, kind, data, next) <==>
            i <= next <= |inp| && IsPacket(inp[i..next], n, kind, data)
  {
    if i < next <= |inp| {
      assert inp[i..next][0] == inp[i];
    }
    if i == |inp| {
    } else if UnToChar(inp[i]) != 0 {
      ShortFrameAccepted(inp, i, n, kind, data, next);
    } else {
      LongFrameAccepted(inp, i, n, kind, data, next);
    }
  }

  // ----- building packets -----

  function WithCheck(head: seq<byte>): seq<byte> { head + [ToChar(Check(Sum(head)))] }

  function ShortPacketOf(n: nat, kind: byte, data: seq<byte>): seq<byte>
  {
    WithCheck([ToChar(|data| + 3), ToChar(n), kind] + data) + [END_CHAR]
  }

  function LongPacketOf(n: nat, kind: byte, data: seq<byte>): seq<byte>
  {
    var header := WithCheck([SPACE, ToChar(n), kind, ToChar((|data| + 1) / 95), ToChar((|data| + 1) % 95)]);
    WithCheck(header + data) + [END_CHAR]
  }

  lemma CharRoundTrip(x: nat)
    requires x < 224
    ensures ToChar(x) == x + SPACE && UnToChar(ToChar(x)) == x
  {
  }

  lemma WithCheckPrintable(head: seq<byte>)
    requires Printable(head)
    ensures Printable(WithCheck(head))
  {
  }

  lemma PacketBuilt(h: seq<byte>, n: nat, kind: byte, data: seq<byte>)
    requires |h| >= 3 && Printable(h) && Printable(data)
    requires n < 224 && h[1] == ToChar(n) && h[2] == kind
    ensures Packet(WithCheck(h + data) + [END_CHAR], |h|, |data|, n, kind, data)
  {
    PrintableAppend(h, data);
    WithCheckPrintable(h + data);
    var f := WithCheck(h + data) + [END_CHAR];
    assert f[..|f| - 1] == WithCheck(h + data) && f[..|f| - 2] == h + data;
  }

  lemma FirstChar(h: seq<byte>, data: seq<byte>)
    requires h != []
    ensures (WithCheck(h + data) + [END_CHAR])[0] == h[0]
  {
  }

  lemma ShortPacketAccepted(n: nat, kind: byte, data: seq<byte>)
    requires n < 224 && kind >= SPACE && Printable(data) && |data| <= 220
    ensures ShortPacket(ShortPacketOf(n, kind, data), n, kind, data)
  {
    var h := [ToChar(|data| + 3), ToChar(n), kind];
    CharRoundTrip(|data| + 3);
    CharRoundTrip(n);
    FirstChar(h, data);
    PacketBuilt(h, n, kind, data);
  }

  /** The bound is the most two base-95 digits can announce. */
  lemma LongPacketAccepted(n: nat, kind: byte, data: seq<byte>)
    requires n < 224 && kind >= SPACE && Printable(data) && |data| + 1 < 95 * 95
    ensures LongPacket(LongPacketOf(n, kind, data), n, kind, data)
  {
    var hi, lo := (|data| + 1) / 95, (|data| + 1) % 95;
    assert 0 <= hi < 95 && 0 <= lo < 95 && hi * 95 + lo == |data| + 1;
    CharRoundTrip(hi);
    CharRoundTrip(lo);
    var h := [SPACE, ToChar(n), kind, ToChar(hi), ToChar(lo)];
    WithCheckPrintable(h);
    PacketBuilt(WithCheck(h), n, kind, data);
    var f := LongPacketOf(n, kind, data);
    assert f[..5] == h;
    assert f[0] == h[0] && f[3] == h[3] && f[4] == h[4] && f[5] == WithCheck(h)[5];
    assert DataCount(UnToChar(f[3]) * 95 + UnToChar(f[4])) == |data|;
  }
}
