/**
 Control quoting: the receiver's `k_data_char` with its one bit of memory, and the
 quoting a sender performs. Quoting state survives packet boundaries.
 */
module KermitText {
  import opened Bytes
  import opened KermitFrame

  /** Converts an escaped kermit character to the character it stands for. */
  function KTrans(c: byte): byte
  {
    if c / 32 % 4 == 2 then c - 64
    else if c % 128 == 63 then c + 64
    else c
  }

  /** Bytes stored so far, and whether the last character seen was an unanswered quote. */
  datatype Text = Text(bytes: seq<byte>, escape: bool)

  const EMPTY := Text([], false)

  function FeedChar(q: byte, t: Text, c: byte): Text
  {
    if t.escape then Text(t.bytes + [KTrans(c)], false)
    else if c == q then Text(t.bytes, true)
    else Text(t.bytes + [c], false)
  }

  function Feed(q: byte, t: Text, s: seq<byte>): (r: Text)
    ensures t.bytes <= r.bytes
    decreases |s|
  {
    if s == [] then t else Feed(q, FeedChar(q, t, s[0]), s[1..])
  }

  /** Feeding may be cut anywhere, also between a quote and the character it quotes. */
  lemma {:induction false} FeedAppend(q: byte, t: Text, a: seq<byte>, b: seq<byte>)
    ensures Feed(q, t, a + b) == Feed(q, Feed(q, t, a), b)
    decreases |a|
  {
    if a == [] {
      assert a + b == b;
    } else {
      assert (a + b)[1..] == a[1..] + b;
      FeedAppend(q, FeedChar(q, t, a[0]), a[1..], b);
    }
  }

  lemma FeedPair(q: byte, t: Text, a: byte, b: byte)
    ensures Feed(q, t, [a, b]) == FeedChar(q, FeedChar(q, t, a), b)
  {
    assert [a, b][1..] == [b] && [b][1..] == [];
    assert Feed(q, FeedChar(q, t, a), [b]) == FeedChar(q, FeedChar(q, t, a), b);
  }

  // ----- the sender's side -----

  predicate Control(b: byte) { b % 128 < 32 || b % 128 == 127 }

  /** A control character goes as the quote and the character with bit 6 flipped; the quote itself is doubled. */
  function QuoteByte(q: byte, b: byte): seq<byte>
  {
    if Control(b) then [q, if b / 64 % 2 == 0 then b + 64 else b - 64]
    else if b == q then [q, q]
    else [b]
  }

  function Quote(q: byte, s: seq<byte>): seq<byte>
  {
    if s == [] then [] else QuoteByte(q, s[0]) + Quote(q, s[1..])
  }

  /** The quote characters that survive doubling. The Kermit protocol allows 33-62 and 96-126; the receiver takes
      whatever it is told. */
  predicate GoodQuote(q: byte) { KTrans(q) == q }

  lemma QuoteByteFed(q: byte, t: Text, b: byte)
    requires GoodQuote(q) && !t.escape
    ensures Feed(q, t, QuoteByte(q, b)) == Text(t.bytes + [b], false)
  {
    if Control(b) || b == q {
      var c := QuoteByte(q, b)[1];
      FeedPair(q, t, q, c);
      assert KTrans(c) == b;
    } else {
      assert [b][1..] == [];
    }
  }

  lemma FedBoth(q: byte, t: Text, x: seq<byte>, rest: seq<byte>, b: byte, bs: seq<byte>)
    requires Feed(q, t, x) == Text(t.bytes + [b], false)
    requires Feed(q, Text(t.bytes + [b], false), rest) == Text(t.bytes + [b] + bs, false)
    ensures Feed(q, t, x + rest) == Text(t.bytes + ([b] + bs), false)
  {
    FeedAppend(q, t, x, rest);
    assert t.bytes + [b] + bs == t.bytes + ([b] + bs);
  }

  lemma {:induction false} QuoteFed(q: byte, t: Text, s: seq<byte>)
    requires GoodQuote(q) && !t.escape
    ensures Feed(q, t, Quote(q, s)) == Text(t.bytes + s, false)
    decreases |s|
  {
    if s == [] {
      assert t.bytes + s == t.bytes;
    } else {
      QuoteByteFed(q, t, s[0]);
      QuoteFed(q, Text(t.bytes + [s[0]], false), s[1..]);
      FedBoth(q, t, QuoteByte(q, s[0]), Quote(q, s[1..]), s[0], s[1..]);
      assert [s[0]] + s[1..] == s;
    }
  }

  lemma {:induction false} QuotePrintable(q: byte, s: seq<byte>)
    requires SPACE <= q
    ensures Printable(Quote(q, s))
  {
    if s != [] {
      QuotePrintable(q, s[1..]);
      PrintableAppend(QuoteByte(q, s[0]), Quote(q, s[1..]));
    }
  }

  /** Unquoting undoes quoting on every byte string exactly when the quote character translates to itself. */
  lemma QuoteCharacters(q: byte)
    ensures (forall s: seq<byte> :: Feed(q, EMPTY, Quote(q, s)) == Text(s, false)) <==> KTrans(q) == q
  {
    if KTrans(q) == q {
      forall s: seq<byte> ensures Feed(q, EMPTY, Quote(q, s)) == Text(s, false) {
        QuoteFed(q, EMPTY, s);
        assert [] + s == s;
      }
    } else {
      var s := [q];
      assert !Control(q);
      assert Quote(q, s) == [q, q] by { assert s[1..] == []; }
      FeedPair(q, EMPTY, q, q);
      assert Feed(q, EMPTY, [q, q]).bytes[0] == KTrans(q);
    }
  }

  // ----- pieces: data fields with the quote character in force when each was read -----

  datatype Piece = Piece(quote: byte, data: seq<byte>)

  function FeedAll(t: Text, ps: seq<Piece>): Text
    decreases |ps|
  {
    if ps == [] then t else FeedAll(Feed(ps[0].quote, t, ps[0].data), ps[1..])
  }

  lemma {:induction false} FeedAllSnoc(t: Text, ps: seq<Piece>, p: Piece)
    ensures FeedAll(t, ps + [p]) == Feed(p.quote, FeedAll(t, ps), p.data)
    decreases |ps|
  {
    if ps == [] {
      assert (ps + [p])[1..] == [];
    } else {
      assert (ps + [p])[1..] == ps[1..] + [p];
      FeedAllSnoc(Feed(ps[0].quote, t, ps[0].data), ps[1..], p);
    }
  }

  function Concat(ps: seq<Piece>): seq<byte>
  {
    if ps == [] then [] else ps[0].data + Concat(ps[1..])
  }

  /** With one quote character throughout, packet boundaries do not matter. */
  lemma {:induction false} FeedAllConcat(q: byte, t: Text, ps: seq<Piece>)
    requires forall i | 0 <= i < |ps| :: ps[i].quote == q
    ensures FeedAll(t, ps) == Feed(q, t, Concat(ps))
    decreases |ps|
  {
    if ps != [] {
      FeedAllConcat(q, Feed(q, t, ps[0].data), ps[1..]);
      FeedAppend(q, t, ps[0].data, Concat(ps[1..]));
    }
  }

  /** A quoted file, cut into packets at any places, is stored as the file. */
  lemma SplitFileStored(q: byte, file: seq<byte>, ps: seq<Piece>)
    requires GoodQuote(q)
    requires forall i | 0 <= i < |ps| :: ps[i].quote == q
    requires Concat(ps) == Quote(q, file)
    ensures FeedAll(EMPTY, ps) == Text(file, false)
  {
    FeedAllConcat(q, EMPTY, ps);
    QuoteFed(q, EMPTY, file);
    assert [] + file == file;
  }
}
