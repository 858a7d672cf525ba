/**
 Exactly-once delivery, seen from the sender: a list of messages, each sent as often as
 the line makes necessary, is stored once, in order.
 */
module KermitDelivery {
  import opened Bytes
  import opened KermitFrame
  import opened KermitText
  import opened KermitSession

  datatype Message = Message(n: nat, kind: byte, data: seq<byte>)

  predicate CopyOf(f: Frame, m: Message)
  {
    f.Accepted? && f.n == m.n && f.kind == m.kind && f.data == m.data
  }

  /**
   What the receiver may see of one message: copies, damaged or whole, in any order and number. The first
   must arrive with its number, the last must be a whole copy; in between even headers may be lost.
   */
  predicate Attempts(g: seq<Frame>, m: Message)
  {
    && |g| > 0 && !g[0].HeaderError? && CopyOf(g[|g| - 1], m)
    && forall i | 0 <= i < |g| :: CopyOf(g[i], m) || g[i].HeaderError? || (g[i].Rejected? && g[i].n == m.n)
  }

  function QuoteIn(m: Message, q: byte): byte
  {
    if m.kind == SEND_TYPE then ParmsOf(m.data).quote else q
  }

  function TextAfter(m: Message, q: byte, t: Text): Text
  {
    if m.kind == DATA_TYPE then Feed(q, t, m.data) else t
  }

  /** After any number of attempts at a new message the checkpoint is what there was before the first. */
  lemma {:induction false} AttemptsSoFar(st: Station, g: seq<Frame>, m: Message, k: nat)
    requires st.lastN != m.n && Attempts(g, m) && 0 < k <= |g|
    ensures var r := Fold(st, g[..k]);
            && r.ck == st.cur && r.lastN == m.n
            && r.cur == (if g[k - 1].Accepted? then TextAfter(m, st.parms.quote, st.cur) else st.cur)
            && (m.kind == DATA_TYPE ==> r.parms == st.parms)
            && (g[k - 1].Accepted? ==> r.parms.quote == QuoteIn(m, st.parms.quote))
            && (m.kind != SEND_TYPE ==> r.parms.quote == st.parms.quote)
  {
    assert g[..k] == g[..k - 1] + [g[k - 1]];
    FoldSnoc(st, g[..k - 1], g[k - 1]);
    if k > 1 {
      AttemptsSoFar(st, g, m, k - 1);
    } else {
      assert g[..0] == [];
    }
  }

  lemma AttemptsAbsorbed(st: Station, g: seq<Frame>, m: Message)
    requires st.lastN != m.n && Attempts(g, m)
    ensures var r := Fold(st, g);
            && r.cur == TextAfter(m, st.parms.quote, st.cur)
            && r.lastN == m.n
            && r.parms.quote == QuoteIn(m, st.parms.quote)
  {
    AttemptsSoFar(st, g, m, |g|);
    assert g[..|g|] == g;
  }

  function Flatten(gs: seq<seq<Frame>>): seq<Frame>
  {
    if gs == [] then [] else Flatten(gs[..|gs| - 1]) + gs[|gs| - 1]
  }

  function QuoteAfterAll(ms: seq<Message>): byte
  {
    if ms == [] then K_ESCAPE else QuoteIn(ms[|ms| - 1], QuoteAfterAll(ms[..|ms| - 1]))
  }

  /** The data messages, each with the quote character negotiated before it. */
  function DataPieces(ms: seq<Message>): seq<Piece>
  {
    if ms == [] then []
    else
      var m := ms[|ms| - 1];
      DataPieces(ms[..|ms| - 1]) + if m.kind == DATA_TYPE then [Piece(QuoteAfterAll(ms[..|ms| - 1]), m.data)] else []
  }

  ghost predicate Exchange(ms: seq<Message>, gs: seq<seq<Frame>>)
  {
    && |ms| == |gs|
    && (forall j | 0 <= j < |ms| :: Attempts(gs[j], ms[j]))
    && (forall j | 0 < j < |ms| :: ms[j].n != ms[j - 1].n)
  }

  lemma ExchangeInit(ms: seq<Message>, gs: seq<seq<Frame>>)
    requires Exchange(ms, gs) && ms != []
    ensures var j := |ms| - 1;
            Exchange(ms[..j], gs[..j]) && Attempts(gs[j], ms[j]) && (j > 0 ==> ms[j].n != ms[j - 1].n)
  {
  }

  /** The last message adds its data, if it has any. */
  lemma LastMessage(ms: seq<Message>, es: seq<Message>, m: Message)
    requires ms != [] && es == ms[..|ms| - 1] && m == ms[|ms| - 1]
    ensures FeedAll(EMPTY, DataPieces(ms)) ==
            if m.kind == DATA_TYPE then Feed(QuoteAfterAll(es), FeedAll(EMPTY, DataPieces(es)), m.data)
            else FeedAll(EMPTY, DataPieces(es))
  {
    if m.kind == DATA_TYPE {
      FeedAllSnoc(EMPTY, DataPieces(es), Piece(QuoteAfterAll(es), m.data));
    } else {
      assert DataPieces(ms) == DataPieces(es) + [] == DataPieces(es);
    }
  }

  /** Every data message is stored once, in order, however often it had to be sent. */
  lemma {:induction false} ExactlyOnce(ms: seq<Message>, gs: seq<seq<Frame>>)
    requires Exchange(ms, gs)
    ensures var st := Fold(START, Flatten(gs));
            && st.cur == FeedAll(EMPTY, DataPieces(ms))
            && st.lastN == (if ms == [] then -1 else ms[|ms| - 1].n)
            && st.parms.quote == QuoteAfterAll(ms)
    decreases |ms|
  {
    if ms != [] {
      var j := |ms| - 1;
      ExchangeInit(ms, gs);
      ExactlyOnce(ms[..j], gs[..j]);
      FoldAppend(START, Flatten(gs[..j]), gs[j]);
      AttemptsAbsorbed(Fold(START, Flatten(gs[..j])), gs[j], ms[j]);
      LastMessage(ms, ms[..j], ms[j]);
    }
  }

  /** Once the send-init message has fixed the quote character, it stays. */
  lemma {:induction false} QuoteFixed(ms: seq<Message>)
    requires ms != [] && ms[0].kind == SEND_TYPE
    requires forall j | 0 < j < |ms| :: ms[j].kind != SEND_TYPE
    ensures QuoteAfterAll(ms) == ParmsOf(ms[0].data).quote
    ensures forall i | 0 <= i < |DataPieces(ms)| :: DataPieces(ms)[i].quote == ParmsOf(ms[0].data).quote
    decreases |ms|
  {
    var es := ms[..|ms| - 1];
    if es == [] {
      assert DataPieces(es) == [];
    } else {
      assert es[0] == ms[0];
      QuoteFixed(es);
    }
  }

  /**
   A file, quoted and cut into data messages at any places after a send-init message, arrives as the file,
   whatever happened to individual packets.
   */
  lemma FileReceived(ms: seq<Message>, gs: seq<seq<Frame>>, file: seq<byte>)
    requires Exchange(ms, gs)
    requires ms != [] && ms[0].kind == SEND_TYPE && GoodQuote(ParmsOf(ms[0].data).quote)
    requires forall j | 0 < j < |ms| :: ms[j].kind != SEND_TYPE
    requires Concat(DataPieces(ms)) == Quote(ParmsOf(ms[0].data).quote, file)
    ensures Fold(START, Flatten(gs)).cur == Text(file, false)
  {
    ExactlyOnce(ms, gs);
    QuoteFixed(ms);
    SplitFileStored(ParmsOf(ms[0].data).quote, file, DataPieces(ms));
  }
}
