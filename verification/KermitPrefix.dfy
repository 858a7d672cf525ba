/**
 How much of the line a packet takes: the reader decides on a packet at the first character with which the
 characters since START are one, or can no longer become one.
 */
module KermitPrefix {
  import opened Bytes
  import opened KermitFrame

  /** Characters that more characters can make into a packet. */
  ghost predicate Unfinished(s: seq<byte>)
  {
    exists t, n, kind, data :: t != [] && IsPacket(s + t, n, kind, data)
  }

  /** Characters of which the last is the first one to show that they are damaged. */
  ghost predicate Ruined(s: seq<byte>)
  {
    && s != [] && Unfinished(s[..|s| - 1]) && !Unfinished(s)
    && forall n, kind, data :: !IsPacket(s, n, kind, data)
  }

  // ----- only the characters of the packet matter -----

  ghost predicate Occurs(s: seq<byte>, inp: seq<byte>, i: nat)
  {
    i + |s| <= |inp| && forall k | 0 <= k < |s| :: s[k] == inp[i + k]
  }

  function Shift(f: Frame, i: nat): Frame
  {
    match f
    case Starved => Starved
    case HeaderError(next) => HeaderError(next + i)
    case Rejected(n, next) => Rejected(n, next + i)
    case Accepted(n, kind, data, next) => Accepted(n, kind, data, next + i)
  }

  /** `f` is read from `s`, and `g` from a line that has `s` at `i`. */
  predicate Agree(f: Frame, g: Frame, s: seq<byte>, i: nat)
  {
    if f.Starved? then g.Starved? || g.next > i + |s| else g == Shift(f, i)
  }

  lemma CheckLocal(s: seq<byte>, j: nat, inp: seq<byte>, i: nat, n: nat, kind: byte, data: seq<byte>, sum: nat)
    requires Occurs(s, inp, i) && j <= |s|
    ensures Agree(ReadCheck(s, j, n, kind, data, sum), ReadCheck(inp, i + j, n, kind, data, sum), s, i)
  {
    if j + 1 < |s| {
      assert s[j + 1] == inp[i + (j + 1)];
    }
  }

  lemma OccursSlice(s: seq<byte>, inp: seq<byte>, i: nat, a: nat, b: nat)
    requires Occurs(s, inp, i) && a <= b <= |s|
    ensures s[a..b] == inp[i + a..i + b]
  {
    forall k | 0 <= k < b - a ensures s[a..b][k] == inp[i + a..i + b][k] {
      assert s[a + k] == inp[i + (a + k)];
    }
  }

  lemma {:induction false} DataLocal(s: seq<byte>, start: nat, j: nat, inp: seq<byte>, i: nat, n: nat, kind: byte,
                                     length: int, sum: nat)
    requires Occurs(s, inp, i) && start <= j <= |s|
    ensures Agree(ReadData(s, start, j, n, kind, length, sum), ReadData(inp, i + start, i + j, n, kind, length, sum), s, i)
    decreases |s| - j
  {
    if length <= 1 {
      OccursSlice(s, inp, i, start, j);
      CheckLocal(s, j, inp, i, n, kind, s[start..j], sum);
    } else if j < |s| && s[j] >= SPACE {
      DataLocal(s, start, j + 1, inp, i, n, kind, length - 1, sum + s[j]);
    }
  }

  lemma ExtendedLocal(s: seq<byte>, j: nat, inp: seq<byte>, i: nat, n: nat, kind: byte, sum: nat)
    requires Occurs(s, inp, i) && j <= |s|
    ensures Agree(ReadExtended(s, j, n, kind, sum), ReadExtended(inp, i + j, n, kind, sum), s, i)
  {
    if j + 2 < |s| {
      assert s[j] == inp[i + j] && s[j + 1] == inp[i + (j + 1)] && s[j + 2] == inp[i + (j + 2)];
      DataLocal(s, j + 3, j + 3, inp, i, n, kind, UnToChar(s[j]) * 95 + UnToChar(s[j + 1]),
                sum + s[j] + s[j + 1] + s[j + 2]);
    } else if j + 1 < |s| {
      assert s[j] == inp[i + j] && s[j + 1] == inp[i + (j + 1)];
    }
  }

  lemma TypeLocal(s: seq<byte>, j: nat, inp: seq<byte>, i: nat, n: nat, length: int, sum: nat)
    requires Occurs(s, inp, i) && j <= |s|
    ensures Agree(ReadType(s, j, n, length, sum), ReadType(inp, i + j, n, length, sum), s, i)
  {
    if j < |s| && s[j] >= SPACE {
      if length == -1 {
        ExtendedLocal(s, j + 1, inp, i, n, s[j], sum + s[j]);
      } else {
        DataLocal(s, j + 1, j + 1, inp, i, n, s[j], length - 1, sum + s[j]);
      }
    }
  }

  /** The reader finds in `s` what it finds on any line that has `s` there; if it needs more, it takes more. */
  lemma FrameLocal(s: seq<byte>, inp: seq<byte>, i: nat)
    requires Occurs(s, inp, i)
    ensures Agree(ReadFrame(s, 0), ReadFrame(inp, i), s, i)
  {
    if |s| >= 2 {
      assert s[0] == inp[i + 0] && s[1] == inp[i + 1];
      if s[0] >= SPACE && s[1] >= SPACE {
        TypeLocal(s, 2, inp, i, UnToChar(s[1]), UnToChar(s[0]) - 1, s[0] as int + s[1]);
      }
    } else if |s| == 1 {
      assert s[0] == inp[i + 0];
    }
  }

  // ----- what the reader still waits for can come -----

  predicate GoesOn(f: Frame, s: seq<byte>) { f.Starved? || (f.Accepted? && f.next == |s|) }

  lemma {:induction false} DataGoesOn(s: seq<byte>, start: nat, j: nat, n: nat, kind: byte, length: int, sum: nat)
    returns (c: byte)
    requires start <= j <= |s| && ReadData(s, start, j, n, kind, length, sum).Starved?
    ensures GoesOn(ReadData(s + [c], start, j, n, kind, length, sum), s + [c])
    decreases |s| - j
  {
    if length <= 1 {
      c := if j == |s| then ToChar(Check(sum)) else END_CHAR;
    } else if j == |s| {
      c := SPACE;
    } else {
      c := DataGoesOn(s, start, j + 1, n, kind, length - 1, sum + s[j]);
    }
  }

  lemma ExtendedGoesOn(s: seq<byte>, j: nat, n: nat, kind: byte, sum: nat) returns (c: byte)
    requires j <= |s| && ReadExtended(s, j, n, kind, sum).Starved?
    ensures GoesOn(ReadExtended(s + [c], j, n, kind, sum), s + [c])
  {
    if |s| < j + 2 {
      c := SPACE;
    } else if |s| == j + 2 {
      c := ToChar(Check(sum + s[j] + s[j + 1]));
    } else {
      c := DataGoesOn(s, j + 3, j + 3, n, kind, UnToChar(s[j]) * 95 + UnToChar(s[j + 1]),
                      sum + s[j] + s[j + 1] + s[j + 2]);
    }
  }

  lemma FrameGoesOn(s: seq<byte>) returns (c: byte)
    requires ReadFrame(s, 0).Starved?
    ensures GoesOn(ReadFrame(s + [c], 0), s + [c])
  {
    if |s| < 3 {
      c := SPACE;
    } else {
      var n, length, sum := UnToChar(s[1]), UnToChar(s[0]) - 1, s[0] as int + s[1];
      if length == -1 {
        c := ExtendedGoesOn(s, 3, n, s[2], sum + s[2]);
      } else {
        c := DataGoesOn(s, 3, 3, n, s[2], length - 1, sum + s[2]);
      }
    }
  }

  /** A data field that is there in full is read to its end or to a damaged character, never beyond. */
  lemma {:induction false} DataWithin(inp: seq<byte>, start: nat, i: nat, n: nat, kind: byte, length: int, sum: nat)
    requires start <= i && i + DataCount(length) + 2 <= |inp|
    ensures !ReadData(inp, start, i, n, kind, length, sum).Starved?
    decreases |inp| - i
  {
    if length > 1 && inp[i] >= SPACE {
      DataWithin(inp, start, i + 1, n, kind, length - 1, sum + inp[i]);
    }
  }

  /** More characters than any packet has. */
  const PACKET_MAX := 6 + 256 * 95 + 256 + 2

  lemma FrameWithin(s: seq<byte>)
    requires ReadFrame(s, 0).Starved?
    ensures |s| < PACKET_MAX
  {
    if |s| >= PACKET_MAX {
      var n, length, sum := UnToChar(s[1]), UnToChar(s[0]) - 1, s[0] as int + s[1];
      if length == -1 {
        DataWithin(s, 6, 6, n, s[2], UnToChar(s[3]) * 95 + UnToChar(s[4]), sum + s[2] + s[3] + s[4] + s[5]);
      } else {
        DataWithin(s, 3, 3, n, s[2], length - 1, sum + s[2]);
      }
      assert false;
    }
  }

  /** The rest of a packet of which the reader has seen the first part. */
  lemma {:induction false} Completed(s: seq<byte>) returns (t: seq<byte>, n: nat, kind: byte, data: seq<byte>)
    requires ReadFrame(s, 0).Starved?
    ensures t != [] && IsPacket(s + t, n, kind, data)
    decreases PACKET_MAX - |s|
  {
    FrameWithin(s);
    var c := FrameGoesOn(s);
    var f := ReadFrame(s + [c], 0);
    if f.Accepted? {
      t, n, kind, data := [c], f.n, f.kind, f.data;
      FrameAccepted(s + [c], 0, n, kind, data, |s| + 1);
      assert (s + [c])[0..|s| + 1] == s + [c];
    } else {
      t, n, kind, data := Completed(s + [c]);
      assert s + [c] + t == s + ([c] + t);
      t := [c] + t;
    }
  }

  // ----- when the reader decides -----

  /** The reader waits for more exactly as long as more can make a packet of what it has. */
  lemma StarvedIsUnfinished(s: seq<byte>)
    ensures ReadFrame(s, 0).Starved? <==> Unfinished(s)
  {
    if ReadFrame(s, 0).Starved? {
      var t, n, kind, data := Completed(s);
    } else if Unfinished(s) {
      var t, n, kind, data :| t != [] && IsPacket(s + t, n, kind, data);
      NoneInside(s, t, n, kind, data);
    }
  }

  lemma NoneInside(s: seq<byte>, t: seq<byte>, n: nat, kind: byte, data: seq<byte>)
    requires t != [] && IsPacket(s + t, n, kind, data)
    ensures ReadFrame(s, 0).Starved?
  {
    var p := s + t;
    assert p[0..|p|] == p;
    FrameAccepted(p, 0, n, kind, data, |p|);
    FrameLocal(s, p, 0);
  }

  /** It accepts exactly the packets that are there. */
  lemma AcceptedIsPacket(s: seq<byte>, n: nat, kind: byte, data: seq<byte>)
    ensures ReadFrame(s, 0) == Accepted(n, kind, data, |s|) <==> IsPacket(s, n, kind, data)
  {
    assert s[0..|s|] == s;
    FrameAccepted(s, 0, n, kind, data, |s|);
  }

  /** All but the last character leave it open what `s` is: the reader decides at the end of `s` if at all. */
  lemma DecidedLast(s: seq<byte>)
    requires s != [] && Unfinished(s[..|s| - 1])
    ensures var f := ReadFrame(s, 0); f.Starved? || f.next == |s|
  {
    StarvedIsUnfinished(s[..|s| - 1]);
    FrameLocal(s[..|s| - 1], s, 0);
  }

  /** Damage is noticed at once: before the number is known it is a header error, later a rejected packet. */
  lemma RuinedRead(s: seq<byte>)
    requires Ruined(s)
    ensures ReadFrame(s, 0) == if |s| <= 2 then HeaderError(|s|) else Rejected(UnToChar(s[1]), |s|)
  {
    DecidedLast(s);
    StarvedIsUnfinished(s);
    var f := ReadFrame(s, 0);
    if f.Accepted? {
      AcceptedIsPacket(s, f.n, f.kind, f.data);
    }
  }

  /** Whatever is on the line: what the reader takes and does not accept is ruined, and it takes no more. */
  lemma NotAcceptedIsRuined(s: seq<byte>)
    requires ReadFrame(s, 0).HeaderError? || ReadFrame(s, 0).Rejected?
    ensures Ruined(s[..ReadFrame(s, 0).next])
  {
    var f := ReadFrame(s, 0);
    var u := s[..f.next];
    FrameLocal(u, s, 0);
    assert ReadFrame(u, 0) == f;
    StarvedIsUnfinished(u);
    var v := u[..|u| - 1];
    FrameLocal(v, s, 0);
    StarvedIsUnfinished(v);
    forall n, kind, data ensures !IsPacket(u, n, kind, data) {
      AcceptedIsPacket(u, n, kind, data);
    }
  }
}
