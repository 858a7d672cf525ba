/**
 The Kermit receiver as it runs: `k_recv` with its static variables, writing data straight
 to memory, checkpointing and rolling back, and building replies in a fixed buffer.
 The line is a finite sequence of characters; running out of it is a receiver still waiting.
 */
module KermitReceiver {
  import opened Bytes
  import opened KermitFrame
  import opened KermitText
  import opened KermitSession

  const SEND_DATA_SIZE := 20
  const REPLY_SIZE := 24

  predicate Holds(mem: map<int, byte>, at: int, s: seq<byte>)
  {
    forall x | at <= x < at + |s| :: x in mem && mem[x] == s[x - at]
  }

  // ----- checkpoint safety over a whole run -----

  /** The download pointer, its checkpoint and memory, at one moment. */
  datatype Snapshot = Snapshot(addr: int, saved: int, mem: map<int, byte>)

  ghost predicate SameByte(m: map<int, byte>, m': map<int, byte>, x: int)
  {
    (x in m <==> x in m') && (x in m ==> m[x] == m'[x])
  }

  ghost predicate AgreeBelow(m: map<int, byte>, m': map<int, byte>, limit: int)
  {
    forall x | x < limit :: SameByte(m, m', x)
  }

  ghost predicate AgreeFrom(m: map<int, byte>, m': map<int, byte>, limit: int)
  {
    forall x | x >= limit :: SameByte(m, m', x)
  }

  /** From one moment to a later one the checkpoint has not moved down and nothing below it has changed. */
  ghost predicate Later(a: Snapshot, b: Snapshot)
  {
    a.saved <= a.addr && a.saved <= b.saved && AgreeBelow(a.mem, b.mem, a.saved)
  }

  ghost predicate Safe(h: seq<Snapshot>)
  {
    forall i, j {:trigger Later(h[i], h[j])} | 0 <= i <= j < |h| :: Later(h[i], h[j])
  }

  lemma LaterStill(a: Snapshot, b: Snapshot, c: Snapshot)
    requires Later(a, b) && Later(b, c)
    ensures Later(a, c)
  {
    forall x | x < a.saved ensures SameByte(a.mem, c.mem, x) {
      assert SameByte(a.mem, b.mem, x) && SameByte(b.mem, c.mem, x);
    }
  }

  lemma SafeExtends(h: seq<Snapshot>, s: Snapshot)
    requires Safe(h) && s.saved <= s.addr
    requires h != [] ==> Later(h[|h| - 1], s)
    ensures Safe(h + [s])
  {
    var g := h + [s];
    forall i, j | 0 <= i <= j < |g| ensures Later(g[i], g[j]) {
      if j < |h| {
        assert Later(h[i], h[j]);
      } else if i < |h| {
        assert Later(h[i], h[|h| - 1]);
        LaterStill(h[i], h[|h| - 1], s);
      }
    }
  }

  /** The download pointer has been past address `x`. */
  ghost predicate Reached(h: seq<Snapshot>, x: int)
  {
    exists k :: 0 <= k < |h| && x < h[k].addr
  }

  /** Bytes the download never reached have stayed what they were. */
  ghost predicate Untouched(h: seq<Snapshot>)
  {
    h != [] ==> forall x :: Reached(h, x) || SameByte(h[0].mem, h[|h| - 1].mem, x)
  }

  lemma UntouchedExtends(h: seq<Snapshot>, s: Snapshot)
    requires Untouched(h)
    requires h != [] ==> AgreeFrom(h[|h| - 1].mem, s.mem, s.addr)
    ensures Untouched(h + [s])
  {
    var g := h + [s];
    forall x ensures Reached(g, x) || SameByte(g[0].mem, g[|g| - 1].mem, x) {
      if h == [] {
        assert g[0] == s;
      } else if Reached(h, x) {
        var k :| 0 <= k < |h| && x < h[k].addr;
        assert x < g[k].addr;
      } else if x < s.addr {
        assert x < g[|h|].addr;
      } else {
        assert SameByte(h[0].mem, h[|h| - 1].mem, x) && SameByte(h[|h| - 1].mem, s.mem, x);
      }
    }
  }

  lemma FeedSnoc(q: byte, t: Text, s: seq<byte>, c: byte)
    ensures Feed(q, t, s + [c]) == FeedChar(q, Feed(q, t, s), c)
  {
    FeedAppend(q, t, s, [c]);
    assert [c][1..] == [];
  }

  datatype Progress = Silence | Bad | Whole

  datatype Ending = Waiting | Aborted | Complete

  lemma SignDropped(total: int, sum: nat, c: int, b: byte)
    requires total % 256 == sum % 256 && (c == b || c == b as int - 256)
    ensures (total + c) % 256 == (sum + b) % 256
  {
  }

  /** No character of a reply up to its check is NUL. */
  lemma PacketNonZero(n: nat, kind: byte, data: seq<byte>)
    requires n < 224 && kind >= SPACE && Printable(data) && |data| <= 220
    ensures var packet := [START_CHAR] + WithCheck([ToChar(|data| + 3), ToChar(n), kind] + data);
            forall i | 0 <= i < |packet| :: packet[i] != 0
  {
    var head := [ToChar(|data| + 3), ToChar(n), kind];
    CharRoundTrip(|data| + 3);
    CharRoundTrip(n);
    PrintableAppend(head, data);
    WithCheckPrintable(head + data);
  }

  class Receiver {
    const input: seq<byte>
    const binStart: int
    const signedChar: bool
    const aB: array<byte>
    const sendParms: array<byte>
    var pos: nat
    var output: seq<byte>
    var hisEol: byte
    var hisPadCount: nat
    var hisPadChar: byte
    var hisQuote: byte
    var sendPtr: nat
    var osDataState: int
    var osDataStateSaved: int
    var osDataAddr: int
    var osDataAddrSaved: int
    var mem: map<int, byte>
    var kDataEscape: bool
    var kDataEscapeSaved: bool
    ghost var stored: seq<byte>        // memory from binStart up to osDataAddr
    ghost var storedSaved: seq<byte>   // memory from binStart up to osDataAddrSaved
    ghost var history: seq<Snapshot>   // every moment at which memory or one of the two pointers changed

    ghost predicate Buffers()
      reads this
    {
      aB.Length == REPLY_SIZE && sendParms.Length == SEND_DATA_SIZE && aB != sendParms && pos <= |input|
    }

    ghost predicate Current()
      reads this
    {
      && osDataState == 0 && osDataAddr == binStart + |stored| && Holds(mem, binStart, stored)
      && Safe(history) && Untouched(history)
      && (history != [] ==> history[|history| - 1].mem == mem && history[|history| - 1].saved <= osDataAddr)
    }

    ghost predicate Valid()
      reads this
    {
      && Buffers() && Current()
      && osDataStateSaved == 0 && osDataAddrSaved == binStart + |storedSaved| && storedSaved <= stored
      && history != [] && history[|history| - 1] == Snapshot(osDataAddr, osDataAddrSaved, mem)
    }

    ghost function Text(): Text
      reads this
    {
      KermitText.Text(stored, kDataEscape)
    }

    ghost function TextSaved(): Text
      reads this
    {
      KermitText.Text(storedSaved, kDataEscapeSaved)
    }

    ghost function Station(lastN: int): Station
      reads this
    {
      KermitSession.Station(Parms(hisEol, hisPadCount, hisPadChar, hisQuote), TextSaved(), Text(), lastN, output)
    }

    constructor (input: seq<byte>, binStart: int, mem: map<int, byte>, signedChar: bool)
      ensures Buffers() && this.input == input && this.binStart == binStart && this.mem == mem && pos == 0
      ensures fresh(aB) && fresh(sendParms) && output == []
    {
      this.input, this.binStart, this.mem, this.signedChar := input, binStart, mem, signedChar;
      aB := new byte[REPLY_SIZE](_ => 0);
      sendParms := new byte[SEND_DATA_SIZE](_ => 0);
      pos, output, sendPtr := 0, [], 0;
      hisEol, hisPadCount, hisPadChar, hisQuote := 0, 0, 0, 0;
      osDataState, osDataStateSaved, osDataAddr, osDataAddrSaved := 0, 0, 0, 0;
      kDataEscape, kDataEscapeSaved := false, false;
      stored, storedSaved, history := [], [], [];
    }

    method GetC() returns (ok: bool, c: byte)
      requires pos <= |input|
      modifies `pos
      ensures ok <==> old(pos) < |input|
      ensures ok ==> c == input[old(pos)] && pos == old(pos) + 1
      ensures !ok ==> pos == old(pos)
    {
      if pos == |input| {
        return false, 0;
      }
      ok, c := true, input[pos];
      pos := pos + 1;
    }

    // ----- storing data -----

    method KDataInit()
      requires Buffers()
      modifies `kDataEscape, `osDataState, `osDataAddr, `stored, `history
      ensures Current() && Text() == EMPTY && history == []
    {
      kDataEscape := false;
      osDataState := 0;
      osDataAddr := binStart;
      stored, history := [], [];
    }

    method KDataSave()
      requires Buffers() && Current()
      modifies `kDataEscapeSaved, `osDataStateSaved, `osDataAddrSaved, `storedSaved, `history
      ensures Valid() && TextSaved() == Text()
      ensures history == old(history) + [Snapshot(osDataAddr, osDataAddr, mem)]
    {
      kDataEscapeSaved := kDataEscape;
      osDataStateSaved := osDataState;
      osDataAddrSaved := osDataAddr;
      storedSaved := stored;
      ghost var s := Snapshot(osDataAddr, osDataAddrSaved, mem);
      assert history != [] ==> Later(history[|history| - 1], history[|history| - 1]);
      SafeExtends(history, s);
      UntouchedExtends(history, s);
      history := history + [s];
    }

    method KDataRestore()
      requires Valid()
      modifies `kDataEscape, `osDataState, `osDataAddr, `stored, `history
      ensures Valid() && Text() == TextSaved()
      ensures old(history) <= history
    {
      kDataEscape := kDataEscapeSaved;
      osDataState := osDataStateSaved;
      osDataAddr := osDataAddrSaved;
      stored := storedSaved;
      ghost var s := Snapshot(osDataAddr, osDataAddrSaved, mem);
      assert Later(history[|history| - 1], s);
      SafeExtends(history, s);
      UntouchedExtends(history, s);
      history := history + [s];
    }

    method BinDataChar(c: byte)
      requires Valid()
      modifies `mem, `osDataAddr, `stored, `history
      ensures Valid() && stored == old(stored) + [c] && mem == old(mem)[old(osDataAddr) := c]
      ensures old(history) <= history
    {
      if osDataState == 0 {
        mem := mem[osDataAddr := c];
        osDataAddr := osDataAddr + 1;
      }
      stored := stored + [c];
      ghost var s := Snapshot(osDataAddr, osDataAddrSaved, mem);
      assert Later(history[|history| - 1], s);
      SafeExtends(history, s);
      UntouchedExtends(history, s);
      history := history + [s];
    }

    method KDataChar(c: byte)
      requires Valid()
      modifies `mem, `osDataAddr, `stored, `history, `kDataEscape
      ensures Valid() && Text() == FeedChar(hisQuote, old(Text()), c)
      ensures old(history) <= history
    {
      if kDataEscape {
        BinDataChar(KTrans(c));
        kDataEscape := false;
      } else if c == hisQuote {
        kDataEscape := true;
      } else {
        BinDataChar(c);
      }
    }

    // ----- replies -----

    /** Sums plain characters up to the NUL at `end`, and folds the sum. */
    method Chk1(start: nat, ghost end: nat) returns (check: nat)
      requires Buffers() && start <= end < REPLY_SIZE && aB[end] == 0
      requires forall i | start <= i < end :: aB[i] != 0
      ensures check == Check(Sum(aB[start..end]))
    {
      var total: int, i := 0, start;
      while aB[i] != 0
        invariant start <= i <= end
        invariant total % 256 == Sum(aB[start..i]) % 256
        decreases end - i
      {
        SumTake(aB[start..end], i - start);
        assert aB[start..end][..i - start] == aB[start..i] && aB[start..end][..i + 1 - start] == aB[start..i + 1];
        var c: int := if signedChar && aB[i] >= 128 then aB[i] as int - 256 else aB[i] as int;
        SignDropped(total, Sum(aB[start..i]), c, aB[i]);
        total, i := total + c, i + 1;
      }
      CheckIgnoresSign(total, Sum(aB[start..end]));
      check := (total + total / 64 % 4) % 64;
    }

    method S1SendPacket(ghost end: nat)
      requires Buffers() && end < REPLY_SIZE && aB[end] == 0
      requires forall i | 0 <= i < end :: aB[i] != 0
      modifies `output
      ensures output == old(output) + (Pads(Parms(hisEol, hisPadCount, hisPadChar, hisQuote)) + aB[..end])
    {
      ghost var pads := Pads(Parms(hisEol, hisPadCount, hisPadChar, hisQuote));
      var count := hisPadCount;
      while count > 0
        invariant 0 <= count <= hisPadCount
        invariant output == old(output) + pads[..hisPadCount - count]
      {
        output := output + [hisPadChar];
        count := count - 1;
      }
      var i := 0;
      while aB[i] != 0
        invariant 0 <= i <= end
        invariant output == old(output) + (pads + aB[..i])
        decreases end - i
      {
        output := output + [aB[i]];
        i := i + 1;
      }
    }

    /** Everything before the check, ended by a NUL for `Chk1`. */
    method PutHeader(length: nat, n: nat, kind: byte, ghost data: seq<byte>)
      requires Buffers() && 4 + |data| == length && length + 3 <= REPLY_SIZE && aB[4..length] == data
      modifies aB
      ensures aB[0] == START_CHAR && aB[length] == 0
      ensures aB[1..length] == [ToChar(|data| + 3), ToChar(n), kind] + data
    {
      aB[0] := START_CHAR;
      aB[1] := ToChar(length - 1);
      aB[2] := ToChar(n);
      aB[3] := kind;
      aB[length] := 0;
      assert aB[1..length] == aB[1..4] + aB[4..length];
    }

    /** Completes the packet whose data lies in `aB[4..length]`. */
    method SealPacket(length: nat, n: nat, kind: byte, ghost data: seq<byte>)
      requires Buffers() && kind >= SPACE && n < 224
      requires 4 + |data| == length && length + 3 <= REPLY_SIZE && aB[4..length] == data && Printable(data)
      modifies aB
      ensures aB[..length + 1] == [START_CHAR] + WithCheck([ToChar(|data| + 3), ToChar(n), kind] + data)
      ensures aB[length + 1] == hisEol && aB[length + 2] == 0
    {
      ghost var head := [ToChar(|data| + 3), ToChar(n), kind] + data;
      PutHeader(length, n, kind, data);
      assert Printable(head) by {
        CharRoundTrip(|data| + 3);
        CharRoundTrip(n);
        PrintableAppend([ToChar(|data| + 3), ToChar(n), kind], data);
      }
      assert forall i | 1 <= i < length :: aB[i] == aB[1..length][i - 1];
      var check := Chk1(1, length);
      aB[length] := ToChar(check);
      aB[length + 1] := hisEol;
      aB[length + 2] := 0;
      assert aB[1..length] == head;
      assert aB[..length + 1] == [START_CHAR] + aB[1..length] + [ToChar(check)];
    }

    method SendReply(length: nat, n: nat, kind: byte, ghost data: seq<byte>)
      requires Buffers() && kind >= SPACE && n < 224
      requires 4 + |data| == length && length + 3 <= REPLY_SIZE && aB[4..length] == data && Printable(data)
      modifies aB, `output
      ensures output == old(output) + Reply(Parms(hisEol, hisPadCount, hisPadChar, hisQuote), n, kind, data)
    {
      SealPacket(length, n, kind, data);
      ghost var p := Parms(hisEol, hisPadCount, hisPadChar, hisQuote);
      ghost var packet := [START_CHAR] + WithCheck([ToChar(|data| + 3), ToChar(n), kind] + data);
      PacketNonZero(n, kind, data);
      assert forall i | 0 <= i <= length :: aB[i] == packet[i];
      if hisEol == 0 {
        S1SendPacket(length + 1);
        assert Reply(p, n, kind, data) == Pads(p) + packet;
      } else {
        assert aB[..length + 2] == packet + [hisEol];
        S1SendPacket(length + 2);
        assert Reply(p, n, kind, data) == Pads(p) + (packet + [hisEol]);
      }
    }

    ghost predicate Offering(length: nat)
      requires Buffers()
      reads this, aB
    {
      3 <= length < 17 && forall i | 4 <= i <= length :: aB[i] == OFFER[i - 4]
    }

    method Offer(length: nat, x: byte) returns (length': nat)
      requires Buffers() && Offering(length) && length < 16 && x == OFFER[length - 3]
      modifies aB
      ensures length' == length + 1 && Offering(length')
    {
      length' := length + 1;
      aB[length'] := x;
    }

    method NegotiateMore(bytes: nat, length0: nat) returns (length: nat)
      requires Buffers() && 6 <= bytes <= 18 && length0 == 9 && Offering(length0)
      modifies aB
      ensures Offering(length) && length - 3 == (if bytes >= 10 then 13 else bytes)
    {
      length := length0;
      if bytes <= 6 { return; }
      length := Offer(length, 0x4E);                             // QBIN
      if bytes <= 7 { return; }
      length := Offer(length, 0x31);                             // CHKT
      if bytes <= 8 { return; }
      length := Offer(length, 0x4E);                             // REPT
      if bytes <= 9 { return; }
      length := Offer(length, ToChar(2));                        // CAPAS: long packets only
      length := Offer(length, ToChar(0));
      length := Offer(length, ToChar(94));
      length := Offer(length, ToChar(94));
    }

    method DefaultParms()
      modifies `hisEol, `hisPadCount, `hisPadChar, `hisQuote
      ensures hisEol == END_CHAR && hisPadCount == 0 && hisPadChar == 0 && hisQuote == K_ESCAPE
    {
      hisEol := END_CHAR;
      hisPadCount := 0;
      hisPadChar := 0;
      hisQuote := K_ESCAPE;
    }

    method NegotiateMiddle(bytes: nat, length0: nat) returns (length: nat)
      requires Buffers() && 3 <= bytes <= 18 && length0 == 5 && Offering(length0)
      modifies aB, `hisEol, `hisPadCount, `hisPadChar, `hisQuote
      ensures Offering(length) && length - 3 == (if bytes >= 10 then 13 else bytes)
      ensures hisPadCount == UnToChar(sendParms[2])
      ensures hisPadChar == if bytes >= 4 then KTrans(sendParms[3]) else old(hisPadChar)
      ensures hisEol == if bytes >= 5 then UnToChar(sendParms[4]) else old(hisEol)
      ensures hisQuote == if bytes >= 6 then sendParms[5] else old(hisQuote)
    {
      hisPadCount := UnToChar(sendParms[2]);
      length := Offer(length0, ToChar(0));                       // NPAD
      if bytes <= 3 { return; }
      hisPadChar := KTrans(sendParms[3]);
      length := Offer(length, 0x40);                             // PADC
      if bytes <= 4 { return; }
      hisEol := UnToChar(sendParms[4]);
      length := Offer(length, ToChar(END_CHAR));                 // EOL
      if bytes <= 5 { return; }
      hisQuote := sendParms[5];
      length := Offer(length, 0x23);                             // QCTL
      length := NegotiateMore(bytes, length);
    }

    /** Reads the parameters that were offered and collects one answer for each. */
    method NegotiateFields(bytes: nat) returns (length: nat)
      requires Buffers() && bytes <= 18
      modifies aB, `hisEol, `hisPadCount, `hisPadChar, `hisQuote
      ensures Offering(length) && length - 3 == (if bytes >= 10 then 13 else bytes)
      ensures hisPadCount == if bytes >= 3 then UnToChar(sendParms[2]) else 0
      ensures hisPadChar == if bytes >= 4 then KTrans(sendParms[3]) else 0
      ensures hisEol == if bytes >= 5 then UnToChar(sendParms[4]) else END_CHAR
      ensures hisQuote == if bytes >= 6 then sendParms[5] else K_ESCAPE
    {
      length := 3;
      DefaultParms();
      if bytes <= 0 { return; }
      length := Offer(length, ToChar(94));                       // MAXL
      if bytes <= 1 { return; }
      length := Offer(length, ToChar(1));                        // TIME
      if bytes <= 2 { return; }
      length := NegotiateMiddle(bytes, length);
    }

    /** Interprets the sender's parameters and answers with what this receiver can do. */
    method HandleSendPacket(n: nat, ghost data: seq<byte>)
      requires Buffers() && n < 224 && ParmsHeld(data)
      modifies aB, `output, `sendPtr, `hisEol, `hisPadCount, `hisPadChar, `hisQuote
      ensures Parms(hisEol, hisPadCount, hisPadChar, hisQuote) == ParmsOf(data)
      ensures output == old(output) + Reply(ParmsOf(data), n, ACK_TYPE, Offered(|data|))
    {
      if sendPtr == SEND_DATA_SIZE - 1 {
        sendPtr := sendPtr - 1;
      }
      var length := NegotiateFields(sendPtr);
      assert aB[4..length + 1] == OFFER[..length - 3] == Offered(|data|);
      assert Printable(OFFER);
      SendReply(length + 1, n, ACK_TYPE, Offered(|data|));
    }

    method SendAck(n: nat)
      requires Buffers() && n < 224
      modifies aB, `output
      ensures output == old(output) + Reply(Parms(hisEol, hisPadCount, hisPadChar, hisQuote), n, ACK_TYPE, [])
    {
      SendReply(4, n, ACK_TYPE, []);
    }

    method SendNack(n: nat)
      requires Buffers() && n < 224
      modifies aB, `output
      ensures output == old(output) + Reply(Parms(hisEol, hisPadCount, hisPadChar, hisQuote), n, NACK_TYPE, [])
    {
      SendReply(4, n, NACK_TYPE, []);
    }

    // ----- packets -----

    /** The send-init characters so far are in the buffer, but for those that did not fit. */
    ghost predicate ParmsHeld(data: seq<byte>)
      requires Buffers()
      reads this, sendParms
    {
      && sendPtr == (if |data| < 19 then |data| else 19)
      && forall i | 0 <= i < sendPtr :: sendParms[i] == data[i]
    }

    /** Any excess goes to the last slot of the buffer, which is reused. */
    method SaveParm(c: byte, ghost data: seq<byte>)
      requires Buffers() && ParmsHeld(data)
      modifies sendParms, `sendPtr
      ensures ParmsHeld(data + [c])
    {
      sendParms[sendPtr] := c;
      sendPtr := sendPtr + 1;
      if sendPtr >= SEND_DATA_SIZE {
        sendPtr := sendPtr - 1;
      }
    }

    /** Passes one data character on, by packet type. */
    method TakeChar(kind: byte, c: byte, ghost t: Text, ghost data: seq<byte>)
      requires Valid()
      requires kind == DATA_TYPE ==> Text() == Feed(hisQuote, t, data)
      requires kind == SEND_TYPE ==> ParmsHeld(data)
      modifies `mem, `osDataAddr, `stored, `history, `kDataEscape, sendParms, `sendPtr
      ensures Valid() && old(history) <= history
      ensures if kind == DATA_TYPE then Text() == Feed(hisQuote, t, data + [c]) else Text() == old(Text())
      ensures kind == SEND_TYPE ==> ParmsHeld(data + [c])
    {
      if kind == DATA_TYPE {
        FeedSnoc(hisQuote, t, data, c);
        KDataChar(c);
      } else if kind == SEND_TYPE {
        SaveParm(c, data);
      }
    }

    /** Takes in the data characters of a packet, storing them as they come. */
    method BringInData(kind: byte, length0: int, sum0: nat, ghost n: nat) returns (progress: Progress, sum: nat)
      requires Valid() && sendPtr == 0
      modifies `pos, `mem, `osDataAddr, `stored, `history, `kDataEscape, sendParms, `sendPtr
      ensures Valid() && old(history) <= history && old(pos) <= pos
      ensures kind != DATA_TYPE ==> Text() == old(Text())
      ensures progress.Whole? && kind == DATA_TYPE ==> Text() == Feed(hisQuote, old(Text()), input[old(pos)..pos])
      ensures progress.Whole? && kind == SEND_TYPE ==> ParmsHeld(input[old(pos)..pos])
      ensures ReadData(input, old(pos), old(pos), n, kind, length0, sum0) ==
              match progress
              case Silence => Starved
              case Bad => Rejected(n, pos)
              case Whole => ReadCheck(input, pos, n, kind, input[old(pos)..pos], sum)
    {
      var length := length0;
      sum := sum0;
      while length > 1
        invariant Valid() && old(history) <= history
        invariant old(pos) <= pos
        invariant kind != DATA_TYPE ==> Text() == old(Text())
        invariant kind == DATA_TYPE ==> Text() == Feed(hisQuote, old(Text()), input[old(pos)..pos])
        invariant kind == SEND_TYPE ==> ParmsHeld(input[old(pos)..pos])
        invariant ReadData(input, old(pos), old(pos), n, kind, length0, sum0) ==
                  ReadData(input, old(pos), pos, n, kind, length, sum)
        decreases length
      {
        ghost var data := input[old(pos)..pos];
        var ok, c := GetC();
        if !ok {
          return Silence, sum;
        }
        if c < SPACE {
          return Bad, sum;
        }
        assert input[old(pos)..pos] == data + [c];
        sum := sum + c;
        length := length - 1;
        TakeChar(kind, c, old(Text()), data);
      }
      progress := Whole;
    }

    /** The two length characters of a long packet and the check of its header. */
    method ExtendedLength(kind: byte, sum0: nat, ghost n: nat) returns (progress: Progress, length: int, sum: nat)
      requires Buffers()
      modifies `pos
      ensures Buffers() && old(pos) <= pos
      ensures ReadExtended(input, old(pos), n, kind, sum0) ==
              match progress
              case Silence => Starved
              case Bad => Rejected(n, pos)
              case Whole => ReadData(input, pos, pos, n, kind, length, sum)
    {
      length, sum := -2, sum0;
      var ok, c := GetC();
      if !ok { return Silence, length, sum; }
      if c < SPACE { return Bad, length, sum; }
      sum := sum + c;
      var lenHi := UnToChar(c);
      ok, c := GetC();
      if !ok { return Silence, length, sum; }
      if c < SPACE { return Bad, length, sum; }
      sum := sum + c;
      var lenLo := UnToChar(c);
      length := lenHi * 95 + lenLo;
      ok, c := GetC();
      if !ok { return Silence, length, sum; }
      if c < SPACE { return Bad, length, sum; }
      if c != ToChar(Check(sum)) { return Bad, length, sum; }
      sum := sum + c;
      progress := Whole;
    }

    method BlockCheck(sum: nat, ghost n: nat, ghost kind: byte, ghost data: seq<byte>) returns (progress: Progress)
      requires Buffers()
      modifies `pos
      ensures Buffers() && old(pos) <= pos
      ensures ReadCheck(input, old(pos), n, kind, data, sum) ==
              match progress
              case Silence => Starved
              case Bad => Rejected(n, pos)
              case Whole => Accepted(n, kind, data, pos)
    {
      var ok, c := GetC();
      if !ok { return Silence; }
      if c < SPACE { return Bad; }
      if c != ToChar(Check(sum)) { return Bad; }
      ok, c := GetC();
      if !ok { return Silence; }
      progress := if c == END_CHAR then Whole else Bad;
    }

    /** A packet from its type character on. */
    method Body(length0: int, sum0: nat, kState0: byte, ghost n: nat)
      returns (progress: Progress, kState: byte, ghost data: seq<byte>)
      requires Valid() && sendPtr == 0
      modifies `pos, `mem, `osDataAddr, `stored, `history, `kDataEscape, sendParms, `sendPtr
      ensures Valid() && old(history) <= history
      ensures ReadType(input, old(pos), n, length0, sum0) ==
              match progress
              case Silence => Starved
              case Bad => Rejected(n, pos)
              case Whole => Accepted(n, kState, data, pos)
      ensures progress.Whole? && kState == DATA_TYPE ==> Text() == Feed(hisQuote, old(Text()), data)
      ensures progress.Whole? && kState != DATA_TYPE ==> Text() == old(Text())
      ensures progress.Whole? && kState == SEND_TYPE ==> ParmsHeld(data)
    {
      var length, sum := length0, sum0;
      kState, data := kState0, [];
      var ok, c := GetC();
      if !ok { return Silence, kState, data; }
      if c < SPACE { return Bad, kState, data; }
      sum := sum + c;
      kState := c;
      length := length - 1;
      if length == -2 {
        progress, length, sum := ExtendedLength(kState, sum, n);
        if !progress.Whole? { return progress, kState, data; }
      }
      ghost var start := pos;
      progress, sum := BringInData(kState, length, sum, n);
      if !progress.Whole? { return progress, kState, data; }
      data := input[start..pos];
      progress := BlockCheck(sum, n, kState, data);
    }

    /** Checks the sequence number for a retried packet: roll back, or checkpoint the download. */
    method CheckNumber(n: nat, kState0: byte, kStateSaved0: byte, lastN0: int)
      returns (kState: byte, kStateSaved: byte, lastN: int)
      requires Valid()
      modifies `kDataEscape, `osDataState, `osDataAddr, `stored, `history,
               `kDataEscapeSaved, `osDataStateSaved, `osDataAddrSaved, `storedSaved
      ensures Valid() && old(history) <= history && lastN == n
      ensures Station(lastN) == Enter(old(Station(lastN0)), n)
    {
      kState, kStateSaved, lastN := kState0, kStateSaved0, lastN0;
      if n == lastN {
        kState := kStateSaved;
        KDataRestore();
      } else {
        lastN := n;
        kStateSaved := kState;
        KDataSave();
      }
    }

    /** `packet_error`: restore the state machines and ask for the packet again. */
    method PacketError(n: nat, kStateSaved: byte) returns (kState: byte)
      requires Valid() && n < 224
      modifies `kDataEscape, `osDataState, `osDataAddr, `stored, `history, aB, `output
      ensures Valid() && old(history) <= history
      ensures Text() == TextSaved()
      ensures output == old(output) + Reply(Parms(hisEol, hisPadCount, hisPadChar, hisQuote), n, NACK_TYPE, [])
    {
      kState := kStateSaved;
      KDataRestore();
      SendNack(n);
    }

    /** An intact packet: acknowledge it, and see whether it was the last. */
    method Acknowledge(n: nat, kState: byte, ghost data: seq<byte>) returns (done: bool)
      requires Valid() && n < 224 && (kState == SEND_TYPE ==> ParmsHeld(data))
      modifies aB, `output, `sendPtr, `hisEol, `hisPadCount, `hisPadChar, `hisQuote
      ensures Valid() && done == (kState == BREAK_TYPE)
      ensures Parms(hisEol, hisPadCount, hisPadChar, hisQuote) ==
              if kState == SEND_TYPE then ParmsOf(data) else old(Parms(hisEol, hisPadCount, hisPadChar, hisQuote))
      ensures output == old(output) + Reply(Parms(hisEol, hisPadCount, hisPadChar, hisQuote), n, ACK_TYPE,
                                            if kState == SEND_TYPE then Offered(|data|) else [])
    {
      done := false;
      if kState == SEND_TYPE {
        HandleSendPacket(n, data);
      } else {
        SendAck(n);
        if kState == BREAK_TYPE {
          done := true;
        }
      }
    }

    /** The answer to a packet that was taken in to its end or broke off. */
    method Conclude(n: nat, whole: bool, kState0: byte, kStateSaved: byte, ghost data: seq<byte>)
      returns (done: bool, kState: byte)
      requires Valid() && n < 224 && (whole && kState0 == SEND_TYPE ==> ParmsHeld(data))
      modifies `kDataEscape, `osDataState, `osDataAddr, `stored, `history,
               aB, `output, `sendPtr, `hisEol, `hisPadCount, `hisPadChar, `hisQuote
      ensures Valid() && old(history) <= history && TextSaved() == old(TextSaved())
      ensures done == (whole && kState0 == BREAK_TYPE)
      ensures Text() == if whole then old(Text()) else old(TextSaved())
      ensures Parms(hisEol, hisPadCount, hisPadChar, hisQuote) ==
              if whole && kState0 == SEND_TYPE then ParmsOf(data)
              else old(Parms(hisEol, hisPadCount, hisPadChar, hisQuote))
      ensures output == old(output) +
                Reply(Parms(hisEol, hisPadCount, hisPadChar, hisQuote), n, if whole then ACK_TYPE else NACK_TYPE,
                      if whole && kState0 == SEND_TYPE then Offered(|data|) else [])
    {
      done, kState := false, kState0;
      if whole {
        done := Acknowledge(n, kState, data);
      } else {
        kState := PacketError(n, kStateSaved);
      }
    }

    /** A packet whose number has been entered: taken in, then answered. */
    method TakePacket(n: nat, length: int, sum: nat, kState0: byte, kStateSaved: byte, ghost lastN: int)
      returns (waiting: bool, done: bool, kState: byte)
      requires Valid() && sendPtr == 0 && n < 224
      modifies this, aB, sendParms
      ensures Valid() && old(history) <= history
      ensures var f := ReadType(input, old(pos), n, length, sum);
              && waiting == f.Starved?
              && (!waiting ==>
                    && (f.Rejected? || f.Accepted?) && f.n == n && pos == f.next
                    && done == (f.Accepted? && f.kind == BREAK_TYPE)
                    && Station(lastN) == Answer(old(Station(lastN)), f))
    {
      waiting, done := false, false;
      var progress;
      ghost var data;
      progress, kState, data := Body(length, sum, kState0, n);
      if progress == Silence {
        waiting := true;
        return;
      }
      done, kState := Conclude(n, progress == Whole, kState, kStateSaved, data);
    }

    /** The rest of a packet whose sequence number `n` is known. */
    method NumberedPacket(n: nat, length: int, sum: nat, kState0: byte, kStateSaved0: byte, lastN0: int)
      returns (waiting: bool, done: bool, kState: byte, kStateSaved: byte, lastN: int)
      requires Valid() && sendPtr == 0 && n < 224
      modifies this, aB, sendParms
      ensures Valid() && old(history) <= history && lastN == n
      ensures var f := ReadType(input, old(pos), n, length, sum);
              && waiting == f.Starved?
              && (!waiting ==>
                    && pos == f.next
                    && done == (f.Accepted? && f.kind == BREAK_TYPE)
                    && Station(lastN) == Absorb(old(Station(lastN0)), f))
    {
      kState, kStateSaved, lastN := CheckNumber(n, kState0, kStateSaved0, lastN0);
      waiting, done, kState := TakePacket(n, length, sum, kState, kStateSaved, lastN);
    }

    /** The length and number characters. */
    method Header() returns (progress: Progress, length: int, n: nat, sum: nat)
      requires Buffers()
      modifies `pos
      ensures Buffers() && n < 224
      ensures ReadFrame(input, old(pos)) ==
              match progress
              case Silence => Starved
              case Bad => HeaderError(pos)
              case Whole => ReadType(input, pos, n, length, sum)
    {
      length, n, sum := 0, 0, 0;
      var ok, c := GetC();
      if !ok { return Silence, length, n, sum; }
      if c < SPACE { return Bad, length, n, sum; }
      sum := c;
      length := UnToChar(c);
      ok, c := GetC();
      if !ok { return Silence, length, n, sum; }
      if c < SPACE { return Bad, length, n, sum; }
      sum := sum + c;
      n := UnToChar(c);
      length := length - 1;
      progress := Whole;
    }

    /** One packet, from the character after START. */
    method ReceivePacket(kState0: byte, kStateSaved0: byte, n0: nat, lastN0: int)
      returns (waiting: bool, done: bool, kState: byte, kStateSaved: byte, n: nat, lastN: int)
      requires Valid() && sendPtr == 0
      requires -1 <= lastN0 < 224 && n0 == (if lastN0 < 0 then 0 else lastN0)
      modifies this, aB, sendParms
      ensures Valid() && old(history) <= history
      ensures -1 <= lastN < 224 && n == (if lastN < 0 then 0 else lastN)
      ensures var f := ReadFrame(input, old(pos));
              && waiting == f.Starved?
              && (!waiting ==>
                    && pos == f.next
                    && done == (f.Accepted? && f.kind == BREAK_TYPE)
                    && Station(lastN) == Absorb(old(Station(lastN0)), f))
    {
      done, kState, kStateSaved, n, lastN := false, kState0, kStateSaved0, n0, lastN0;
      var progress, length, number, sum := Header();
      waiting := progress == Silence;
      if progress == Whole {
        n := number;
        waiting, done, kState, kStateSaved, lastN := NumberedPacket(n, length, sum, kState, kStateSaved, lastN);
      } else if progress == Bad {
        kState := PacketError(n, kStateSaved);
      }
    }

    /** Skips line noise up to a START character or ^C. */
    method AwaitStart() returns (end: Ending)
      requires Buffers()
      modifies `pos
      ensures old(pos) <= pos && Buffers()
      ensures match WaitStart(input, old(pos))
              case NoStart => end == Waiting
              case CtrlC => end == Aborted
              case StartAt(next) => end == Complete && pos == next
    {
      while true
        invariant Buffers() && old(pos) <= pos && WaitStart(input, old(pos)) == WaitStart(input, pos)
        decreases |input| - pos
      {
        var ok, c := GetC();
        if !ok { return Waiting; }
        if c == START_CHAR { return Complete; }
        if c == ETX_CHAR { return Aborted; }
      }
    }

    method Begin()
      requires Buffers() && pos == 0 && output == []
      modifies this
      ensures Valid() && Station(-1) == START && pos == 0
      ensures history == [Snapshot(binStart, binStart, old(mem))]
    {
      DefaultParms();
      KDataInit();
      KDataSave();
    }

    /** One round of the main loop; `end` is `Complete` unless the line fell silent or ^C was seen. */
    method Round(kState0: byte, kStateSaved0: byte, n0: nat, lastN0: int)
      returns (end: Ending, done: bool, kState: byte, kStateSaved: byte, n: nat, lastN: int)
      requires Valid()
      requires -1 <= lastN0 < 224 && n0 == (if lastN0 < 0 then 0 else lastN0)
      modifies this, aB, sendParms
      ensures Valid() && old(history) <= history && (end == Complete ==> old(pos) < pos)
      ensures -1 <= lastN < 224 && n == (if lastN < 0 then 0 else lastN)
      ensures Session(input, old(pos), old(Station(lastN0))) ==
              match end
              case Waiting => Blocked
              case Aborted => Interrupted
              case Complete => if done then Finished(Station(lastN)) else Session(input, pos, Station(lastN))
    {
      done, kState, kStateSaved, n, lastN := false, kState0, kStateSaved0, n0, lastN0;
      sendPtr := 0;
      end := AwaitStart();
      if end == Complete {
        var waiting;
        waiting, done, kState, kStateSaved, n, lastN := ReceivePacket(kState, kStateSaved, n, lastN);
        if waiting { end := Waiting; }
      }
    }

    /** Receives a file over a kermit line. */
    method KRecv() returns (end: Ending, size: int)
      requires Buffers() && pos == 0 && output == []
      modifies this, aB, sendParms
      ensures Safe(history) && history != []
      ensures history[0] == Snapshot(binStart, binStart, old(mem)) && history[|history| - 1].mem == mem
      ensures forall x :: Reached(history, x) || SameByte(old(mem), mem, x)
      ensures match Session(input, 0, START)
              case Blocked => end == Waiting
              case Interrupted => end == Aborted && size == 0
              case Finished(st) =>
                end == Complete && size == |st.cur.bytes| && Holds(mem, binStart, st.cur.bytes) && output == st.sent
    {
      var done, kState: byte, kStateSaved: byte := false, 0, 0;
      Begin();
      var n: nat, lastN := 0, -1;
      while !done
        invariant Valid() && history[0] == Snapshot(binStart, binStart, old(mem))
        invariant -1 <= lastN < 224 && n == (if lastN < 0 then 0 else lastN)
        invariant Session(input, 0, START) ==
                  if done then Finished(Station(lastN)) else Session(input, pos, Station(lastN))
        decreases |input| - pos
      {
        end, done, kState, kStateSaved, n, lastN := Round(kState, kStateSaved, n, lastN);
        if end != Complete { return end, 0; }
      }
      return Complete, osDataAddr - binStart;
    }
  }
}
