/** A whole file transfer: from the characters on the line to the bytes in memory. */
module KermitTransfer {
  import opened Bytes
  import opened KermitFrame
  import opened KermitText
  import opened KermitSession
  import opened KermitDelivery
  import opened KermitLine
  import opened KermitReceiver

  /** A sender that negotiates once, sends a quoted file in data messages, and ends with a break. */
  ghost predicate Sends(ms: seq<Message>, file: seq<byte>)
  {
    && ms != [] && ms[0].kind == SEND_TYPE && GoodQuote(ParmsOf(ms[0].data).quote)
    && (forall j | 0 < j < |ms| :: ms[j].kind != SEND_TYPE)
    && ms[|ms| - 1].kind == BREAK_TYPE
    && Concat(DataPieces(ms)) == Quote(ParmsOf(ms[0].data).quote, file)
  }

  /** The last frame of an exchange is a whole copy of its last message. */
  lemma ExchangeEnds(ms: seq<Message>, gs: seq<seq<Frame>>)
    requires Exchange(ms, gs) && ms != []
    ensures Flatten(gs) != [] && CopyOf(Flatten(gs)[|Flatten(gs)| - 1], ms[|ms| - 1])
  {
    var last := gs[|gs| - 1];
    assert Attempts(last, ms[|ms| - 1]);
    assert Flatten(gs)[|Flatten(gs)| - 1] == last[|last| - 1];
  }

  /** If the packets seen on the line are attempts at the messages of an exchange that ends with a break, memory
      from `binStart` holds the unquoted data fields, one per message and in order, and their length is
      returned. */
  method ReceiveExchange(r: Receiver, ghost ms: seq<Message>, ghost gs: seq<seq<Frame>>)
    returns (end: Ending, size: int)
    requires r.Buffers() && r.pos == 0 && r.output == []
    requires Exchange(ms, gs) && ms != [] && ms[|ms| - 1].kind == BREAK_TYPE && Frames(r.input, 0) == Flatten(gs)
    modifies r, r.aB, r.sendParms
    ensures var stored := FeedAll(EMPTY, DataPieces(ms)).bytes;
            end == Complete && size == |stored| && Holds(r.mem, r.binStart, stored)
  {
    ExchangeEnds(ms, gs);
    BreakEnds(r.input, 0, START);
    ExactlyOnce(ms, gs);
    end, size := r.KRecv();
  }

  /** If they are the messages of a quoted file, memory holds the file, whatever damage and repetition there was. */
  method ReceiveFile(r: Receiver, ghost ms: seq<Message>, ghost gs: seq<seq<Frame>>, ghost file: seq<byte>)
    returns (end: Ending, size: int)
    requires r.Buffers() && r.pos == 0 && r.output == []
    requires Exchange(ms, gs) && Sends(ms, file) && Frames(r.input, 0) == Flatten(gs)
    modifies r, r.aB, r.sendParms
    ensures end == Complete && size == |file| && Holds(r.mem, r.binStart, file)
  {
    ExactlyOnce(ms, gs);
    FileReceived(ms, gs, file);
    end, size := ReceiveExchange(r, ms, gs);
  }

  /**
   The same from the characters themselves: noise, then copies of each message of which the first comes with its
   number and the last comes whole, the others damaged in ways that show, with noise between them, and after the
   break anything.
   */
  method ReceiveLine(r: Receiver, ghost ms: seq<Message>, ghost gs: seq<seq<Copy>>, ghost lead: seq<byte>,
                     ghost tail: seq<byte>)
    returns (end: Ending, size: int)
    requires r.Buffers() && r.pos == 0 && r.output == []
    requires Sending(ms, gs) && Noise(lead) && r.input == lead + (Line(FlatCopies(gs)) + tail)
    modifies r, r.aB, r.sendParms
    ensures var stored := FeedAll(EMPTY, DataPieces(ms)).bytes;
            end == Complete && size == |stored| && Holds(r.mem, r.binStart, stored)
  {
    ghost var fss := LeadSkipped(r.input, ms, gs, lead, tail);
    end, size := ReceiveExchange(r, ms, fss);
  }

  lemma LastOfFlat(gs: seq<seq<Copy>>, g: seq<Copy>)
    requires gs != [] && g == gs[|gs| - 1] && g != []
    ensures FlatCopies(gs) != [] && FlatCopies(gs)[|FlatCopies(gs)| - 1] == g[|g| - 1]
  {
  }

  lemma LastEnds(cs: seq<Copy>)
    requires EndsOnce(cs)
    ensures cs[|cs| - 1].m.kind == BREAK_TYPE
  {
    assert EndsSession(cs[|cs| - 1]);
  }

  lemma TriedLast(cs: seq<Copy>, m: Message)
    requires Tries(cs, m)
    ensures cs != [] && cs[|cs| - 1].m == m
  {
  }

  lemma LastIsBreak(ms: seq<Message>, gs: seq<seq<Copy>>)
    requires Sending(ms, gs)
    ensures ms != [] && ms[|ms| - 1].kind == BREAK_TYPE
  {
    assert gs != [];
    var j := |ms| - 1;
    TriedLast(gs[j], ms[j]);
    LastOfFlat(gs, gs[j]);
    LastEnds(FlatCopies(gs));
  }

  lemma FramesFrom(inp: seq<byte>, lead: seq<byte>, rest: seq<byte>)
    requires Noise(lead) && inp == lead + rest
    ensures inp[|lead|..] == rest && Frames(inp, 0) == Frames(inp, |lead|)
  {
    assert inp[0..|lead|] == lead;
    NoiseSkipped(inp, 0, |lead|);
  }

  lemma LeadSkipped(inp: seq<byte>, ms: seq<Message>, gs: seq<seq<Copy>>, lead: seq<byte>, tail: seq<byte>)
    returns (fss: seq<seq<Frame>>)
    requires Sending(ms, gs) && Noise(lead) && inp == lead + (Line(FlatCopies(gs)) + tail)
    ensures Exchange(ms, fss) && Frames(inp, 0) == Flatten(fss)
    ensures ms != [] && ms[|ms| - 1].kind == BREAK_TYPE
  {
    FramesFrom(inp, lead, Line(FlatCopies(gs)) + tail);
    fss := LineIsExchange(inp, |lead|, ms, gs, tail);
    LastIsBreak(ms, gs);
  }
}
