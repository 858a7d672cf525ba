/** What `print_data` writes, and what `fdt_parse_prop` makes of it. */
module FdtRoundTrip {
  import opened Bytes
  import opened Fdt

  /** CONFIG_CMD_FDT_MAX_DUMP. */
  const MAX_DUMP := 64

  // ----- is_printable_string -----

  /** `isprint` or `isspace`. */
  predicate PrintableChar(c: byte) { 9 <= c <= 13 || 32 <= c <= 126 || 160 <= c }

  predicate Shown(c: byte) { c == 0 || PrintableChar(c) }

  /** Every byte is shown and no two NULs meet. */
  predicate Texty(data: seq<byte>)
  {
    && (forall i | 0 <= i < |data| :: Shown(data[i]))
    && (forall i | 0 <= i < |data| - 1 :: data[i] == 0 ==> data[i + 1] != 0)
  }

  /** `past` is the byte after the value, which is read when the value ends in a newline. */
  predicate IsText(data: seq<byte>, past: byte)
  {
    && data != [] && Texty(data)
    && (data[|data| - 1] == 0 || (data[|data| - 1] == NEWLINE && past == 0))
  }

  method IsPrintableString(data: seq<byte>, past: byte) returns (yes: bool)
    ensures yes == IsText(data, past)
  {
    var n := |data|;
    if n == 0 {
      return false;
    }
    if data[n - 1] != 0 && data[n - 1] != NEWLINE {
      return false;
    }
    var i := 0;
    while i < n && Shown(data[i])
      invariant 0 <= i <= n
      invariant forall k | 0 <= k < i :: Shown(data[k])
      invariant forall k | 0 <= k < i && k < n - 1 :: data[k] == 0 ==> data[k + 1] != 0
      invariant i == n ==> data[n - 1] != 0
    {
      if data[i] == 0 {
        if i == n - 1 {
          return true;
        }
        if data[i + 1] == 0 {
          return false;
        }
      }
      i := i + 1;
    }
    return i == n && past == 0;
  }

  // ----- print_data -----

  /** `Elided`: only the address and the length are shown. */
  datatype Printed = Nothing | Quoted(strings: seq<Token>) | Text(text: Token) | Elided

  /** Where the string at `j` ends: `j + strlen`, for a value with a NUL behind it. */
  function StringEnd(data: seq<byte>, j: nat): (e: nat)
    requires j <= |data|
    ensures j <= e <= |data| && (e < |data| ==> data[e] == 0) && (e > j ==> data[e - 1] != 0)
    decreases |data| - j
  {
    if j == |data| || data[j] == 0 then j else StringEnd(data, j + 1)
  }

  function StringsFrom(data: seq<byte>, j: nat): seq<Token>
    decreases |data| - j
  {
    if j >= |data| then []
    else
      var e := StringEnd(data, j);
      [data[j..e]] + StringsFrom(data, e + 1)
  }

  /** Items with one blank between them, and the closing bracket. */
  function Items(f: Format, vs: seq<nat>): Token
  {
    if vs == [] then [Closer(f)]
    else ItemText(f, vs[0]) + ((if |vs| == 1 then [] else [SPACE]) + Items(f, vs[1..]))
  }

  function Opener(f: Format): byte { if f == CellFormat then LT else LB }

  function CellsOf(data: seq<byte>): (vs: seq<nat>)
    requires |data| % 4 == 0
  {
    if data == [] then [] else [BigEndian(data[..4])] + CellsOf(data[4..])
  }

  function FormatOf(data: seq<byte>): Format { if |data| % 4 == 0 then CellFormat else ByteFormat }

  function ValuesOf(data: seq<byte>): seq<nat>
  {
    if |data| % 4 == 0 then CellsOf(data) else seq(|data|, i requires 0 <= i < |data| => data[i])
  }

  function Print(data: seq<byte>, past: byte): Printed
  {
    if data == [] then Nothing
    else if IsText(data, past) then Quoted(StringsFrom(data, 0))
    else if |data| > MAX_DUMP then Elided
    else Text([Opener(FormatOf(data))] + Items(FormatOf(data), ValuesOf(data)))
  }

  lemma ItemMoved(f: Format, text: Token, vs: seq<nat>, j: nat, blank: Token)
    requires j < |vs| && blank == if j < |vs| - 1 then [SPACE] else []
    ensures text + Items(f, vs[j..]) == text + (ItemText(f, vs[j]) + blank) + Items(f, vs[j + 1..])
  {
    assert vs[j..][1..] == vs[j + 1..];
    Regroup(text, ItemText(f, vs[j]), blank, Items(f, vs[j + 1..]));
  }

  method PrintItems(f: Format, vs: seq<nat>) returns (text: Token)
    ensures text == [Opener(f)] + Items(f, vs)
  {
    text := [Opener(f)];
    ghost var all := text + Items(f, vs);
    assert vs[0..] == vs;
    for j := 0 to |vs|
      invariant text + Items(f, vs[j..]) == all
    {
      var blank: Token := if j < |vs| - 1 then [SPACE] else [];
      ItemMoved(f, text, vs, j, blank);
      text := text + (ItemText(f, vs[j]) + blank);
    }
    text := text + [Closer(f)];
  }

  method PrintStrings(data: seq<byte>) returns (strings: seq<Token>)
    ensures strings == StringsFrom(data, 0)
  {
    strings := [];
    var j: nat := 0;
    ghost var all := StringsFrom(data, 0);
    while j < |data|
      invariant strings + StringsFrom(data, j) == all
    {
      var e := StringEnd(data, j);
      MoveOver(strings, data[j..e], StringsFrom(data, e + 1));
      strings, j := strings + [data[j..e]], e + 1;
    }
  }

  method PrintData(data: seq<byte>, past: byte) returns (p: Printed)
    ensures p == Print(data, past)
  {
    if |data| == 0 {
      return Nothing;
    }
    var isText := IsPrintableString(data, past);
    if isText {
      var strings := PrintStrings(data);
      return Quoted(strings);
    }
    if |data| > MAX_DUMP {
      return Elided;
    }
    var text := PrintItems(FormatOf(data), ValuesOf(data));
    p := Text(text);
  }

  // ----- what counts as text -----

  /** By the classes of the character table: white space, punctuation, digits, letters, and the upper half from 160 on. */
  lemma PrintableClasses(c: byte)
    ensures PrintableChar(c) <==>
            || c in {9, 10, 11, 12, 13, 32, 160}
            || 33 <= c <= 47 || 58 <= c <= 64 || 91 <= c <= 96 || 123 <= c <= 126 || 161 <= c <= 191
            || 48 <= c <= 57 || 65 <= c <= 90 || 97 <= c <= 122 || 192 <= c <= 255
  {
  }

  predicate NoneEmpty(ts: seq<Token>) { forall k | 0 <= k < |ts| :: ts[k] != [] }

  lemma NoneEmptyCons(t: Token, ts: seq<Token>)
    ensures NoneEmpty([t] + ts) <==> t != [] && NoneEmpty(ts)
  {
    var all := [t] + ts;
    if NoneEmpty(all) {
      assert all[0] != [];
      forall k | 0 <= k < |ts| ensures ts[k] != [] {
        assert all[k + 1] != [];
      }
    }
  }

  /** No NUL from `j` on is followed by another. */
  predicate Single(data: seq<byte>, j: nat) { forall i | j <= i < |data| - 1 :: data[i] == 0 ==> data[i + 1] != 0 }

  lemma {:induction false} NoNulBefore(data: seq<byte>, j: nat, e: nat)
    requires j <= |data| && e == StringEnd(data, j)
    ensures forall i | j <= i < e :: data[i] != 0
    decreases |data| - j
  {
    if j < e {
      NoNulBefore(data, j + 1, e);
    }
  }

  lemma {:induction false} FullFrom(data: seq<byte>, j: nat)
    ensures NoneEmpty(StringsFrom(data, j)) <==> (j < |data| ==> data[j] != 0) && Single(data, j)
    decreases |data| - j
  {
    if j < |data| {
      var e := StringEnd(data, j);
      FullFrom(data, e + 1);
      StringsStep(data, j);
      NoneEmptyCons(data[j..e], StringsFrom(data, e + 1));
      NoNulBefore(data, j, e);
      SingleFrom(data, j, e);
    }
  }

  lemma SingleFrom(data: seq<byte>, j: nat, e: nat)
    requires j <= e <= |data| && (e < |data| ==> data[e] == 0) && forall i | j <= i < e :: data[i] != 0
    ensures Single(data, j) <==> (e + 1 < |data| ==> data[e + 1] != 0) && Single(data, e + 1)
  {
    if Single(data, j) && e + 1 < |data| {
      assert data[e] == 0;
    }
  }

  /** A value is taken for text if and only if it ends in a NUL, or in a newline with a NUL behind it, has no other
      characters than printable ones, and no string in it is empty but perhaps the first. */
  lemma TextIff(data: seq<byte>, past: byte)
    requires data != []
    ensures IsText(data, past) <==>
            && (data[|data| - 1] == 0 || (data[|data| - 1] == '\n' as int && past == 0))
            && (forall i | 0 <= i < |data| :: data[i] == 0 || PrintableChar(data[i]))
            && NoneEmpty(StringsFrom(data, 0)[1..])
  {
    var e := StringEnd(data, 0);
    StringsStep(data, 0);
    assert StringsFrom(data, 0)[1..] == StringsFrom(data, e + 1);
    FullFrom(data, e + 1);
    NoNulBefore(data, 0, e);
    SingleFrom(data, 0, e);
  }

  // ----- the shape of a printed value -----

  function LowerDigit(d: nat): byte
    requires d < 16
  {
    if d < 10 then '0' as int + d else 'a' as int + d - 10
  }

  /** A byte as two digits at `p`. */
  predicate ByteShown(t: Token, p: nat, b: byte) { p + 2 <= |t| && t[p] == LowerDigit(b / 16) && t[p + 1] == LowerDigit(b % 16) }

  lemma ByteHalves(v: nat, b: byte)
    ensures (v * 256 + b) % 16 == b % 16 && (v * 256 + b) / 16 % 16 == b / 16 && (v * 256 + b) / 16 / 16 == v
  {
  }

  /** The digits of a number, byte by byte. */
  lemma {:induction false} HexShows(bs: seq<byte>, k: nat)
    requires k < |bs|
    ensures ByteShown(Hex(BigEndian(bs), 2 * |bs|), 2 * k, bs[k])
    decreases |bs|
  {
    var n := |bs| - 1;
    var v, b := BigEndian(bs[..n]), bs[n];
    ByteHalves(v, b);
    assert Hex(BigEndian(bs), 2 * n + 2) == Hex(BigEndian(bs) / 16, 2 * n + 1) + [DigitChar(BigEndian(bs) % 16)];
    assert Hex(BigEndian(bs), 2 * n + 2) == Hex(v, 2 * n) + [DigitChar(b / 16)] + [DigitChar(b % 16)];
    if k < n {
      HexShows(bs[..n], k);
    }
  }

  /** Words with one blank between them, and the closing bracket. */
  function Joined(ws: seq<Token>, close: byte): Token
  {
    if ws == [] then [close] else ws[0] + ((if |ws| == 1 then [] else [SPACE]) + Joined(ws[1..], close))
  }

  function Words(f: Format, vs: seq<nat>): (ws: seq<Token>)
    ensures |ws| == |vs|
  {
    seq(|vs|, k requires 0 <= k < |vs| => ItemText(f, vs[k]))
  }

  lemma {:induction false} ItemsJoined(f: Format, vs: seq<nat>)
    ensures Items(f, vs) == Joined(Words(f, vs), Closer(f))
    decreases |vs|
  {
    if vs != [] {
      ItemsJoined(f, vs[1..]);
      assert Words(f, vs)[1..] == Words(f, vs[1..]);
    }
  }

  lemma WordsWide(vs: seq<nat>)
    ensures SameWidth(Words(CellFormat, vs), 10) && SameWidth(Words(ByteFormat, vs), 2)
  {
  }

  /** A word at `p`, and one character behind it. */
  predicate WordThen(t: Token, p: nat, w: Token, c: byte) { p + |w| < |t| && t[p..p + |w|] == w && t[p + |w|] == c }

  lemma ThenInRest(t: Token, k: nat, p: nat, w: Token, c: byte)
    requires k <= |t| && WordThen(t[k..], p, w, c)
    ensures WordThen(t, k + p, w, c)
  {
    var u, n := t[k..], |w|;
    assert t[k + p..k + p + n] == u[p..p + n] && t[k + p + n] == u[p + n];
  }

  lemma OneOf(w: Token, c: byte, more: Token, t: Token)
    requires t == w + ([c] + more)
    ensures |t| == |w| + 1 + |more| && WordThen(t, 0, w, c) && t[|w| + 1..] == more
  {
  }

  lemma JoinedStep(ws: seq<Token>, close: byte, t: Token)
    requires ws != [] && t == Joined(ws, close)
    ensures WordThen(t, 0, ws[0], if |ws| == 1 then close else SPACE)
    ensures if |ws| == 1 then |t| == |ws[0]| + 1 else t[|ws[0]| + 1..] == Joined(ws[1..], close)
  {
    var more := Joined(ws[1..], close);
    if |ws| == 1 {
      assert [] + more == [close] + [];
      OneOf(ws[0], close, [], t);
    } else {
      OneOf(ws[0], SPACE, more, t);
    }
  }

  /** Where word `j` starts, for words of `w` characters. */
  function Offset(w: nat, j: nat): nat { if j == 0 then 0 else Offset(w, j - 1) + w + 1 }

  lemma {:induction false} OffsetIs(j: nat)
    ensures Offset(10, j) == 11 * j && Offset(2, j) == 3 * j
  {
    if j > 0 {
      OffsetIs(j - 1);
    }
  }

  predicate SameWidth(ws: seq<Token>, w: nat) { forall k | 0 <= k < |ws| :: |ws[k]| == w }

  lemma {:induction false} JoinedLength(ws: seq<Token>, close: byte, w: nat)
    requires ws != [] && SameWidth(ws, w)
    ensures |Joined(ws, close)| == Offset(w, |ws|)
    decreases |ws|
  {
    JoinedStep(ws, close, Joined(ws, close));
    if |ws| > 1 {
      JoinedLength(ws[1..], close, w);
    }
  }

  lemma {:induction false} WordFound(ws: seq<Token>, close: byte, w: nat, j: nat, p: nat, t: Token)
    requires j < |ws| && SameWidth(ws, w) && p == Offset(w, j) && t == Joined(ws, close)
    ensures WordThen(t, p, ws[j], if j == |ws| - 1 then close else SPACE)
    decreases j
  {
    JoinedStep(ws, close, t);
    if j > 0 {
      var u, c := Joined(ws[1..], close), if j == |ws| - 1 then close else SPACE;
      WordFound(ws[1..], close, w, j - 1, Offset(w, j - 1), u);
      LaterWord(t, u, w, Offset(w, j - 1), ws[j], c);
    }
  }

  lemma LaterWord(t: Token, u: Token, w: nat, p: nat, word: Token, c: byte)
    requires w + 1 <= |t| && t[w + 1..] == u && WordThen(u, p, word, c)
    ensures WordThen(t, p + w + 1, word, c)
  {
    ThenInRest(t, w + 1, p, word, c);
  }

  lemma BracketedWord(ws: seq<Token>, close: byte, w: nat, open: byte, t: Token, j: nat, p: nat)
    requires j < |ws| && SameWidth(ws, w) && t == [open] + Joined(ws, close) && p == 1 + Offset(w, j)
    ensures |t| == 1 + Offset(w, |ws|) && t[0] == open && WordThen(t, p, ws[j], if j == |ws| - 1 then close else SPACE)
  {
    var u := Joined(ws, close);
    WordFound(ws, close, w, j, Offset(w, j), u);
    JoinedLength(ws, close, w);
    assert t[1..] == u;
    ThenInRest(t, 1, Offset(w, j), ws[j], if j == |ws| - 1 then close else SPACE);
  }

  /** Item `j` of a bracketed list. */
  lemma ListItem(f: Format, vs: seq<nat>, w: nat, open: byte, t: Token, j: nat, p: nat)
    requires j < |vs| && SameWidth(Words(f, vs), w) && t == [open] + Items(f, vs) && p == 1 + Offset(w, j)
    ensures |t| == 1 + Offset(w, |vs|) && t[0] == open
    ensures WordThen(t, p, Words(f, vs)[j], if j == |vs| - 1 then Closer(f) else SPACE)
  {
    ItemsJoined(f, vs);
    BracketedWord(Words(f, vs), Closer(f), w, open, t, j, p);
  }

  lemma CellsStep(data: seq<byte>, n: nat)
    requires |data| == 4 * n && n > 0
    ensures |data| % 4 == 0 && |data[4..]| == 4 * (n - 1) && |data[4..]| % 4 == 0
    ensures CellsOf(data) == [BigEndian(data[..4])] + CellsOf(data[4..])
  {
  }

  lemma {:induction false} CellOf(data: seq<byte>, n: nat, j: nat)
    requires |data| == 4 * n && |data| % 4 == 0 && j < n
    ensures |CellsOf(data)| == n && CellsOf(data)[j] == BigEndian(data[4 * j..4 * j + 4])
    decreases n
  {
    var rest := data[4..];
    CellsStep(data, n);
    if j > 0 {
      CellOf(rest, n - 1, j - 1);
      assert rest[4 * (j - 1)..4 * (j - 1) + 4] == data[4 * j..4 * j + 4];
    } else {
      if n > 1 {
        CellOf(rest, n - 1, 0);
      }
      assert data[4 * j..4 * j + 4] == data[..4];
    }
  }

  /** What is printed of a value that is no text: words in angle brackets if there are only whole words, bytes in square
      ones otherwise, each byte as two digits, with one blank between two items. */
  ghost predicate Laid(t: Token, data: seq<byte>)
  {
    if |data| % 4 == 0 then
      && |t| == 1 + 11 * (|data| / 4) && t[0] == '<' as int
      && forall j | 0 <= j < |data| / 4 :: WordLaid(t, data, j)
    else
      && |t| == 1 + 3 * |data| && t[0] == '[' as int
      && forall j | 0 <= j < |data| :: ByteLaid(t, data, j)
  }

  ghost predicate WordLaid(t: Token, data: seq<byte>, j: nat)
    requires 4 * j + 4 <= |data|
  {
    var p := 1 + 11 * j;
    && p + 11 <= |t| && t[p] == '0' as int && t[p + 1] == 'x' as int
    && ByteShown(t, p + 2, data[4 * j]) && ByteShown(t, p + 4, data[4 * j + 1])
    && ByteShown(t, p + 6, data[4 * j + 2]) && ByteShown(t, p + 8, data[4 * j + 3])
    && t[p + 10] == if 4 * j + 4 == |data| then '>' as int else ' ' as int
  }

  ghost predicate ByteLaid(t: Token, data: seq<byte>, j: nat)
    requires j < |data|
  {
    var p := 1 + 3 * j;
    p + 3 <= |t| && ByteShown(t, p, data[j]) && t[p + 2] == if j + 1 == |data| then ']' as int else ' ' as int
  }

  lemma ShownIn(t: Token, p: nat, u: Token, k: nat, b: byte)
    requires p + |u| <= |t| && t[p..p + |u|] == u && ByteShown(u, k, b)
    ensures ByteShown(t, p + k, b)
  {
    assert t[p + k] == t[p..p + |u|][k] && t[p + (k + 1)] == t[p..p + |u|][k + 1];
  }

  /** A word of four bytes as text. */
  predicate CellLook(w: Token, bs: seq<byte>)
  {
    && |w| == 10 && |bs| == 4 && w[0] == '0' as int && w[1] == 'x' as int
    && ByteShown(w, 2, bs[0]) && ByteShown(w, 4, bs[1]) && ByteShown(w, 6, bs[2]) && ByteShown(w, 8, bs[3])
  }

  lemma CellLooks(bs: seq<byte>)
    requires |bs| == 4
    ensures CellLook(CellText(BigEndian(bs)), bs)
  {
    HexShows(bs, 0);
    HexShows(bs, 1);
    HexShows(bs, 2);
    HexShows(bs, 3);
  }

  lemma WordsLook(vs: seq<nat>, j: nat, bs: seq<byte>)
    requires j < |vs| && |bs| == 4 && vs[j] == BigEndian(bs)
    ensures CellLook(Words(CellFormat, vs)[j], bs)
  {
    CellLooks(bs);
  }

  lemma WordFrom(t: Token, p: nat, data: seq<byte>, j: nat, w: Token)
    requires 4 * j + 4 <= |data| && p == 1 + 11 * j && CellLook(w, data[4 * j..4 * j + 4])
    requires WordThen(t, p, w, if 4 * j + 4 == |data| then GT else SPACE)
    ensures WordLaid(t, data, j)
  {
    var bs := data[4 * j..4 * j + 4];
    ShownIn(t, p, w, 2, bs[0]);
    ShownIn(t, p, w, 4, bs[1]);
    ShownIn(t, p, w, 6, bs[2]);
    ShownIn(t, p, w, 8, bs[3]);
    assert t[p] == t[p..p + 10][0] && t[p + 1] == t[p..p + 10][1];
    assert bs[0] == data[4 * j] && bs[1] == data[4 * j + 1] && bs[2] == data[4 * j + 2] && bs[3] == data[4 * j + 3];
  }

  lemma CellAt(vs: seq<nat>, t: Token, n: nat, j: nat)
    requires j < n == |vs| && t == [LT] + Items(CellFormat, vs)
    ensures |t| == 1 + 11 * n && t[0] == LT
    ensures WordThen(t, 1 + 11 * j, Words(CellFormat, vs)[j], if j == n - 1 then GT else SPACE)
  {
    WordsWide(vs);
    OffsetIs(j);
    OffsetIs(n);
    ListItem(CellFormat, vs, 10, LT, t, j, 1 + 11 * j);
  }

  lemma CellThere(t: Token, vs: seq<nat>, n: nat, j: nat, bs: seq<byte>) returns (w: Token)
    requires j < n == |vs| && t == [LT] + Items(CellFormat, vs) && |bs| == 4 && vs[j] == BigEndian(bs)
    ensures |t| == 1 + 11 * n && t[0] == LT && CellLook(w, bs) && WordThen(t, 1 + 11 * j, w, if j == n - 1 then GT else SPACE)
  {
    w := Words(CellFormat, vs)[j];
    WordsLook(vs, j, bs);
    CellAt(vs, t, n, j);
  }

  lemma WordAt(t: Token, data: seq<byte>, n: nat, j: nat)
    requires |data| == 4 * n && j < n && t == [LT] + Items(CellFormat, CellsOf(data))
    ensures |t| == 1 + 11 * n && t[0] == LT && WordLaid(t, data, j)
  {
    CellOf(data, n, j);
    var w := CellThere(t, CellsOf(data), n, j, data[4 * j..4 * j + 4]);
    WordFrom(t, 1 + 11 * j, data, j, w);
  }

  lemma PairAt(vs: seq<nat>, t: Token, n: nat, j: nat)
    requires j < n == |vs| && t == [LB] + Items(ByteFormat, vs)
    ensures |t| == 1 + 3 * n && t[0] == LB
    ensures WordThen(t, 1 + 3 * j, Words(ByteFormat, vs)[j], if j == n - 1 then RB else SPACE)
  {
    WordsWide(vs);
    OffsetIs(j);
    OffsetIs(n);
    ListItem(ByteFormat, vs, 2, LB, t, j, 1 + 3 * j);
  }

  lemma ByteAt(t: Token, data: seq<byte>, vs: seq<nat>, j: nat)
    requires j < |data| == |vs| && (forall k | 0 <= k < |vs| :: vs[k] == data[k]) && t == [LB] + Items(ByteFormat, vs)
    ensures |t| == 1 + 3 * |data| && t[0] == LB && ByteLaid(t, data, j)
  {
    PairAt(vs, t, |vs|, j);
    OneByteShown(data[j]);
    ShownIn(t, 1 + 3 * j, Hex(data[j], 2), 0, data[j]);
  }

  lemma OneByteShown(b: byte)
    ensures ByteShown(Hex(b, 2), 0, b)
  {
    HexShows([b], 0);
    assert BigEndian([b]) == b by { assert [b][..0] == []; }
  }

  /** Which of the four outputs is chosen, and how a list looks. */
  lemma PrintedAs(data: seq<byte>, past: byte)
    ensures var p := Print(data, past);
            if data == [] then p.Nothing?
            else if IsText(data, past) then p.Quoted?
            else if |data| > 64 then p.Elided?
            else p.Text? && Laid(p.text, data)
  {
    if data != [] && !IsText(data, past) && |data| <= 64 {
      var t := Print(data, past).text;
      if |data| % 4 == 0 {
        WordAt(t, data, |data| / 4, 0);
        forall j | 0 <= j < |data| / 4 ensures WordLaid(t, data, j) {
          WordAt(t, data, |data| / 4, j);
        }
      } else {
        ByteAt(t, data, ValuesOf(data), 0);
        forall j | 0 <= j < |data| ensures ByteLaid(t, data, j) {
          ByteAt(t, data, ValuesOf(data), j);
        }
      }
    }
  }

  // ----- the printed words as arguments -----

  /** Arguments from character `i` of argument `k` on, with one blank between two of them. */
  function Rest(ts: seq<Token>, k: nat, i: nat): Token
    requires k < |ts| && i <= |ts[k]|
    decreases |ts| - k
  {
    ts[k][i..] + if k + 1 < |ts| then [SPACE] + Rest(ts, k + 1, 0) else []
  }

  /** `ts` are the arguments when `p` is typed in again: strings one by one; a bracketed list cut at any,
      all or none of its blanks. */
  predicate Retyped(p: Printed, ts: seq<Token>)
  {
    && ts != []
    && match p
       case Quoted(strings) => ts == strings
       case Text(text) => Rest(ts, 0, 0) == text
       case _ => false
  }

  lemma RestStep(ts: seq<Token>, k: nat, j: nat)
    requires k < |ts| && j < |ts[k]|
    ensures Rest(ts, k, j) == [ts[k][j]] + Rest(ts, k, j + 1)
  {
    assert ts[k][j..] == [ts[k][j]] + ts[k][j + 1..];
  }

  /** A blank is the next character of the argument, or lies between two arguments. */
  lemma AfterBlank(ts: seq<Token>, k: nat, j: nat, more: Token)
    requires k < |ts| && j <= |ts[k]| && Rest(ts, k, j) == [SPACE] + more
    requires more != [] && more[0] != SPACE
    ensures j == |ts[k]| ==> k + 1 < |ts| && Rest(ts, k + 1, 0) == more
    ensures j < |ts[k]| ==> ts[k][j] == SPACE && At(ts[k], j + 1) != SPACE && Rest(ts, k, j + 1) == more
  {
    assert Rest(ts, k, j)[1..] == more;
    if j == |ts[k]| {
      assert Rest(ts, k, j) == [SPACE] + Rest(ts, k + 1, 0);
    } else {
      RestStep(ts, k, j);
    }
  }

  predicate NoBlank(w: Token) { SPACE !in w }

  /** An argument is followed by a blank or by nothing. */
  lemma CutIsBlank(ts: seq<Token>, k: nat, i: nat)
    requires k < |ts| && i <= |ts[k]| && |ts[k]| - i < |Rest(ts, k, i)|
    ensures Rest(ts, k, i)[|ts[k]| - i] == SPACE
  {
  }

  /** A word without blanks is not cut. */
  lemma WordInOneArgument(ts: seq<Token>, k: nat, i: nat, w: Token, after: Token)
    requires k < |ts| && i <= |ts[k]| && NoBlank(w) && Rest(ts, k, i) == w + after
    ensures i + |w| <= |ts[k]| && ts[k][i..i + |w|] == w
    ensures Rest(ts, k, i + |w|) == after
  {
    var all := Rest(ts, k, i);
    if |ts[k]| - i < |w| {
      CutIsBlank(ts, k, i);
    }
    forall x | 0 <= x < |w| ensures ts[k][i..i + |w|][x] == w[x] {
      assert ts[k][i..][x] == all[x];
    }
    assert ts[k][i..] == ts[k][i..i + |w|] + ts[k][i + |w|..];
    assert all[|w|..] == Rest(ts, k, i + |w|);
  }

  lemma {:induction false} HexNoBlank(v: nat, width: nat)
    ensures NoBlank(Hex(v, width))
  {
    forall i | 0 <= i < width ensures Hex(v, width)[i] != SPACE {
      HexDigits(v, width, i);
    }
  }

  lemma ItemShape(f: Format, v: nat)
    ensures NoBlank(ItemText(f, v)) && ItemText(f, v) != [] && ItemText(f, v)[0] !in {0, SPACE, Closer(f)}
  {
    HexNoBlank(v, 8);
    HexNoBlank(v, 2);
    HexDigits(v, 2, 0);
  }

  /** The first item lies in one argument; behind it comes the bracket, a blank, or the end of the argument. */
  lemma FirstItem(f: Format, ts: seq<Token>, k: nat, i: nat, vs: seq<nat>)
    requires k < |ts| && i <= |ts[k]| && vs != [] && Rest(ts, k, i) == Items(f, vs)
    ensures var t, w, more := ts[k], ItemText(f, vs[0]), Items(f, vs[1..]);
            var j := i + |w|;
            && j <= |t| && t[i..j] == w
            && (|vs| == 1 ==> j < |t| && t[j] == Closer(f))
            && (|vs| > 1 ==>
                  if j == |t| then k + 1 < |ts| && Rest(ts, k + 1, 0) == more
                  else t[j] == SPACE && At(t, j + 1) != SPACE && Rest(ts, k, j + 1) == more)
  {
    var w, more := ItemText(f, vs[0]), Items(f, vs[1..]);
    var after := (if |vs| == 1 then [] else [SPACE]) + more;
    ItemShape(f, vs[0]);
    WordInOneArgument(ts, k, i, w, after);
    assert |vs| == 1 ==> more == [Closer(f)];
    assert after[0] == if |vs| == 1 then Closer(f) else SPACE;
    if |vs| > 1 {
      ItemShape(f, vs[1]);
      assert more[0] == ItemText(f, vs[1])[0];
      AfterBlank(ts, k, i + |w|, more);
    }
  }

  lemma {:induction false} RestLaidOut(f: Format, ts: seq<Token>, k: nat, i: nat, vs: seq<nat>)
    requires k < |ts| && i <= |ts[k]| && vs != [] && Rest(ts, k, i) == Items(f, vs)
    requires forall x | 0 <= x < |vs| :: ItemFits(f, vs[x])
    ensures LaidOut(f, ts, k, i, vs)
    decreases |vs|
  {
    FirstItem(f, ts, k, i, vs);
    var j := i + |ItemText(f, vs[0])|;
    if |vs| > 1 {
      if j == |ts[k]| {
        RestLaidOut(f, ts, k + 1, 0, vs[1..]);
      } else {
        RestLaidOut(f, ts, k, j + 1, vs[1..]);
      }
    }
  }

  // ----- the values bring the bytes back -----

  lemma {:induction false} BytesOfBigEndian(b: seq<byte>)
    ensures BytesOf(BigEndian(b), |b|) == b && BigEndian(b) < Limit(|b|)
  {
    if b != [] {
      var n := |b| - 1;
      BytesOfBigEndian(b[..n]);
      assert b == b[..n] + [b[n]];
    }
  }

  lemma Limit4()
    ensures Limit(4) == WORD
  {
    assert Limit(4) == 256 * (256 * (256 * (256 * Limit(0))));
  }

  lemma {:induction false} CellsOfBytes(data: seq<byte>)
    requires |data| % 4 == 0
    ensures AllBytes(CellFormat, CellsOf(data)) == data && (data != [] ==> CellsOf(data) != [])
    ensures forall x | 0 <= x < |CellsOf(data)| :: ItemFits(CellFormat, CellsOf(data)[x])
  {
    if data != [] {
      CellsOfBytes(data[4..]);
      BytesOfBigEndian(data[..4]);
      Limit4();
      assert CellsOf(data)[1..] == CellsOf(data[4..]);
      assert data == data[..4] + data[4..];
    }
  }

  lemma {:induction false} BytesAsItems(vs: seq<nat>, data: seq<byte>)
    requires |vs| == |data| && forall x | 0 <= x < |vs| :: vs[x] == data[x]
    ensures AllBytes(ByteFormat, vs) == data
  {
    if vs != [] {
      BytesAsItems(vs[1..], data[1..]);
      assert data == [data[0]] + data[1..];
    }
  }

  lemma ValuesBack(data: seq<byte>)
    requires data != []
    ensures ValuesOf(data) != [] && AllBytes(FormatOf(data), ValuesOf(data)) == data
    ensures forall x | 0 <= x < |ValuesOf(data)| :: ItemFits(FormatOf(data), ValuesOf(data)[x])
  {
    if |data| % 4 == 0 {
      CellsOfBytes(data);
    } else {
      BytesAsItems(ValuesOf(data), data);
    }
  }

  /** A bracketed list, however it is cut into arguments, parses to the value it shows. */
  lemma ListParsed(data: seq<byte>, past: byte, ts: seq<Token>)
    requires Print(data, past).Text? && Retyped(Print(data, past), ts)
    ensures Parse(ts) == Ok(data)
  {
    var f, vs := FormatOf(data), ValuesOf(data);
    ValuesBack(data);
    assert Rest(ts, 0, 0) == [Opener(f)] + Items(f, vs);
    WordInOneArgument(ts, 0, 0, [Opener(f)], Items(f, vs));
    assert ts[0][0] == ts[0][0..1][0];
    RestLaidOut(f, ts, 0, 1, vs);
    if f == CellFormat {
      CellsParsed(ts, 0, 1, vs, []);
    } else {
      BytesParsed(ts, 0, 1, vs, []);
    }
  }

  // ----- strings -----

  function Chars(ts: seq<Token>): nat { if ts == [] then 0 else |ts[0]| + Chars(ts[1..]) }

  lemma Cons(t: Token, ts: seq<Token>)
    ensures Strings([t] + ts) == t + [0] + Strings(ts)
    ensures Chars([t] + ts) == |t| + Chars(ts)
  {
    assert ([t] + ts)[1..] == ts;
  }

  /** What the strings of a value parse to: the value, closed by a NUL if it was not. */
  function Closed(data: seq<byte>): seq<byte>
    requires data != []
  {
    if data[|data| - 1] == 0 then data else data + [0]
  }

  lemma {:induction false} CharsFrom(data: seq<byte>, j: nat)
    requires j <= |data|
    ensures Chars(StringsFrom(data, j)) <= |data| - j
    decreases |data| - j
  {
    if j < |data| {
      var e := StringEnd(data, j);
      Cons(data[j..e], StringsFrom(data, e + 1));
      if e < |data| {
        CharsFrom(data, e + 1);
      }
    }
  }

  /** One string and its NUL, cut from the closed value. */
  lemma StringCut(data: seq<byte>, j: nat, e: nat)
    requires j <= e <= |data| && j < |data| && (e < |data| ==> data[e] == 0) && (e > j ==> data[e - 1] != 0)
    ensures e < |Closed(data)| && Closed(data)[j..] == data[j..e] + [0] + Closed(data)[e + 1..]
  {
    var all := Closed(data);
    assert all[e] == 0;
    assert all[j..] == all[j..e] + ([all[e]] + all[e + 1..]);
    assert all[j..e] == data[j..e];
  }

  lemma StringsStep(data: seq<byte>, j: nat)
    requires j < |data|
    ensures var e := StringEnd(data, j); StringsFrom(data, j) == [data[j..e]] + StringsFrom(data, e + 1)
  {
  }

  lemma {:induction false} StringsBack(data: seq<byte>, j: nat)
    requires data != [] && (j < |data| || j == |Closed(data)|)
    ensures Strings(StringsFrom(data, j)) == Closed(data)[j..]
    decreases |data| - j
  {
    if j < |data| {
      var e := StringEnd(data, j);
      StringCut(data, j, e);
      StringsStep(data, j);
      StringsBack(data, e + 1);
      Cons(data[j..e], StringsFrom(data, e + 1));
    }
  }

  // ----- strings that look like a list -----

  /** Characters not yet read. */
  function Left(ts: seq<Token>, k: nat, i: nat): nat
    requires k <= |ts| && (k < |ts| ==> i <= |ts[k]|)
  {
    if k == |ts| then 0 else |ts[k]| - i + Chars(ts[k + 1..])
  }

  lemma NextArgument(ts: seq<Token>, k: nat)
    requires k < |ts|
    ensures Left(ts, k + 1, 0) == Chars(ts[k + 1..])
  {
    if k + 1 < |ts| {
      assert ts[k + 1..][1..] == ts[k + 2..];
    }
  }

  /** A byte stream yields at most one byte for each character. */
  lemma {:induction false} BytesBound(ts: seq<Token>, k: nat, i: nat, acc: seq<byte>)
    requires k <= |ts| && (k < |ts| ==> i <= |ts[k]|) && ByteStream(ts, k, i, acc).Ok?
    ensures |ByteStream(ts, k, i, acc).bytes| <= |acc| + Left(ts, k, i)
    decreases |ts| - k, if k < |ts| then |ts[k]| - i else 0
  {
    if At(ts[k], i) != RB {
      var s := SkipSpaces(ts[k], i);
      if At(ts[k], s) == 0 {
        NextArgument(ts, k);
        BytesBound(ts, k + 1, 0, acc);
      } else if IsXDigit(At(ts[k], s)) {
        HexAdvances(ts[k], s);
        var (v, j) := StrToUl(ts[k], s, 16);
        BytesBound(ts, k, j, acc + [v % 256]);
      }
    }
  }

  lemma Within(a: nat, base: nat, limit: nat, d: nat)
    requires a < limit && base <= 10 && d < 10
    ensures a * base + d < limit * 10
  {
    assert a * base <= a * 10;
  }

  lemma DigitTaken(t: Token, j: nat, base: nat, acc: nat, limit: nat) returns (next: nat)
    requires base <= 10 && acc < limit <= 100 && Scan(t, j, base, acc).1 > j
    ensures next < limit * 10 && Scan(t, j, base, acc) == Scan(t, j + 1, base, next)
  {
    Within(acc, base, limit, DigitValue(t[j]));
    next := acc * base + DigitValue(t[j]);
    SmallWord(next);
  }

  /** Up to three digits from `j` on, in a base up to ten. */
  lemma FewDigits(t: Token, j: nat, base: nat)
    requires base <= 10 && Scan(t, j, base, 0).1 <= j + 3
    ensures Scan(t, j, base, 0).0 < 1000
  {
    var r := Scan(t, j, base, 0);
    if r.1 > j {
      var a := DigitTaken(t, j, base, 0, 1);
      if r.1 > j + 1 {
        var b := DigitTaken(t, j + 1, base, a, 10);
        if r.1 > j + 2 {
          var _ := DigitTaken(t, j + 2, base, b, 100);
        }
      }
    }
  }

  /** A number of at most three characters is below 1000. */
  lemma ShortNumber(t: Token, i: nat)
    requires i <= |t| && StrToUl(t, i, 0).1 < i + 4
    ensures StrToUl(t, i, 0).0 < 1000
  {
    var (j, base) := Prefix(t, i, 0);
    if base == 16 {
      assert Scan(t, j, 16, 0) == Scan(t, j + 1, 16, DigitValue(t[j]));
    } else {
      FewDigits(t, j, base);
    }
  }

  lemma SmallCell(v: nat)
    requires v < 1000
    ensures BytesOf(v, 4)[0] == 0 && BytesOf(v, 4)[1] == 0
  {
    assert BytesOf(v, 4) == BytesOf(v / 256, 3) + [v % 256];
    assert BytesOf(v / 256, 3) == BytesOf(v / 256 / 256, 2) + [v / 256 % 256];
    assert BytesOf(0, 2) == BytesOf(0, 1) + [0] && BytesOf(0, 1) == BytesOf(0, 0) + [0];
  }

  lemma {:induction false} CellsExtend(ts: seq<Token>, k: nat, i: nat, acc: seq<byte>)
    requires k <= |ts| && (k < |ts| ==> i <= |ts[k]|) && Cells(ts, k, i, acc).Ok?
    ensures acc <= Cells(ts, k, i, acc).bytes
    decreases |ts| - k, if k < |ts| then |ts[k]| - i else 0
  {
    if At(ts[k], i) == GT {
    } else if At(ts[k], i) == 0 {
      CellsExtend(ts, k + 1, 0, acc);
    } else {
      var (v, j) := StrToUl(ts[k], i, 0);
      CellsExtend(ts, k, SkipSpaces(ts[k], j), acc + BytesOf(v, 4));
    }
  }

  /** Cells whose bytes could be text take at least four characters each. */
  lemma {:induction false} CellsBound(ts: seq<Token>, k: nat, i: nat, acc: seq<byte>)
    requires k <= |ts| && (k < |ts| ==> i <= |ts[k]|) && Cells(ts, k, i, acc).Ok?
    requires Texty(Cells(ts, k, i, acc).bytes)
    ensures |Cells(ts, k, i, acc).bytes| <= |acc| + Left(ts, k, i)
    decreases |ts| - k, if k < |ts| then |ts[k]| - i else 0
  {
    if At(ts[k], i) == GT {
    } else if At(ts[k], i) == 0 {
      NextArgument(ts, k);
      CellsBound(ts, k + 1, 0, acc);
    } else {
      var (v, j) := StrToUl(ts[k], i, 0);
      var s, acc' := SkipSpaces(ts[k], j), acc + BytesOf(v, 4);
      var r := Cells(ts, k, s, acc').bytes;
      CellsExtend(ts, k, s, acc');
      assert r[|acc|] == acc'[|acc|] && r[|acc| + 1] == acc'[|acc| + 1];
      if j < i + 4 {
        ShortNumber(ts[k], i);
        SmallCell(v);
      }
      CellsBound(ts, k, s, acc');
    }
  }

  /** A text starting with a bracket is taken for a list, and never comes back. */
  lemma BracketLost(data: seq<byte>, past: byte)
    requires IsText(data, past) && data[0] in {LT, LB}
    ensures Parse(StringsFrom(data, 0)) != Ok(data)
  {
    var ts := StringsFrom(data, 0);
    CharsFrom(data, 0);
    assert ts[0][0] == data[0];
    assert Left(ts, 0, 1) == Chars(ts) - 1;
    if Parse(ts) == Ok(data) {
      if data[0] == LT {
        CellsBound(ts, 0, 1, []);
      } else {
        BytesBound(ts, 0, 1, []);
      }
    }
  }

  /** Printing and parsing undo each other, except for a text that ends in a newline or starts with a
      bracket. */
  lemma PrintParse(data: seq<byte>, past: byte, ts: seq<Token>)
    requires Retyped(Print(data, past), ts)
    ensures Parse(ts) == Ok(data) <==>
            (IsText(data, past) ==> data[|data| - 1] == 0 && data[0] !in {LT, LB})
    ensures IsText(data, past) && data[0] !in {LT, LB} && data[|data| - 1] != 0 ==> Parse(ts) == Ok(data + [0])
  {
    if !IsText(data, past) {
      ListParsed(data, past, ts);
    } else if data[0] in {LT, LB} {
      BracketLost(data, past);
    } else {
      StringsBack(data, 0);
      assert Closed(data)[0..] == Closed(data);
      assert At(ts[0], 0) == data[0];
    }
  }
}
