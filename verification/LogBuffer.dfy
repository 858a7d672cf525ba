/**
 The log buffer: a ring of characters kept under either of two index representations, and the
 line prefixes that `logbuff_printk` inserts in place.
 */
module LogBuffer {
  import opened Bytes
  import opened Bits

  const LOGBUFF_LEN := 16384

  // ----- indices -----

  /** What is shown of everything logged: the last LOGBUFF_LEN characters. */
  function Shown(logged: string): string { logged[Dropped(|logged|)..] }

  function Dropped(n: nat): nat { if n <= LOGBUFF_LEN then 0 else n - LOGBUFF_LEN }

  /** A 32-bit index and an offset to it, masked to the ring. */
  lemma RingIndex(a: nat, k: nat)
    ensures (a % WORD + k) % WORD % LOGBUFF_LEN == (a + k) % LOGBUFF_LEN
  {
    assert WORD == LOGBUFF_LEN * 262144;
    ModMultiple(a % WORD + k, LOGBUFF_LEN, 262144);
    ModAdd(a, k, LOGBUFF_LEN, 262144);
  }

  lemma ModAdd(a: nat, k: nat, p: nat, m: nat)
    requires p > 0 && m > 0
    ensures p * m > 0 && (a % (p * m) + k) % p == (a + k) % p
  {
    var big := p * m;
    MulStep(p, 0, m);
    var q, r := a / big, a % big;
    assert a == big * q + r;
    var c, d := (r + k) / p, (r + k) % p;
    assert r + k == p * c + d;
    assert big * q == p * (m * q);
    assert p * (m * q) + p * c == p * (m * q + c);
    DivModUnique(a + k, p, m * q + c, d);
  }

  /** The 32-bit difference of two wrapped counters that are close together. */
  lemma WrappedDifference(a: nat, b: nat)
    requires b <= a < b + WORD
    ensures (a % WORD - b % WORD) % WORD == a - b
  {
    var qa, qb := a / WORD, b / WORD;
    assert a == WORD * qa + a % WORD && b == WORD * qb + b % WORD;
    var x := a % WORD - b % WORD;
    assert x == WORD * (qb - qa) + (a - b);
    DivModUnique(x, WORD, qb - qa, a - b);
  }

  lemma WrappedIncrement(a: nat)
    ensures (a % WORD + 1) % WORD == (a + 1) % WORD
  {
  }

  /** Distinct positions among any LOGBUFF_LEN consecutive ones have distinct slots. */
  lemma SlotsDistinct(a: nat, b: nat)
    requires a < b < a + LOGBUFF_LEN
    ensures a % LOGBUFF_LEN != b % LOGBUFF_LEN
  {
  }

  // ----- the ring -----

  class Ring {
    const version: int
    const lbuf: array<char>
    var start: nat
    var size: nat     // version 1
    var end: nat      // version 2
    var chars: nat
    ghost var logged: string   // everything since the last reset

    ghost predicate Valid()
      reads this, lbuf
    {
      && lbuf.Length == LOGBUFF_LEN
      && start == Dropped(|logged|) % WORD && chars == |logged| % WORD
      && (if version == 2 then end == |logged| % WORD else size == |Shown(logged)|)
      && Held()
    }

    ghost predicate Held()
      requires lbuf.Length == LOGBUFF_LEN
      reads this, lbuf
    {
      forall k | Dropped(|logged|) <= k < |logged| :: lbuf[k % LOGBUFF_LEN] == logged[k]
    }

    constructor (version: int)
      ensures Valid() && this.version == version && logged == "" && fresh(lbuf)
    {
      this.version := version;
      lbuf := new char[LOGBUFF_LEN](_ => ' ');
      start, size, end, chars, logged := 0, 0, 0, 0, "";
    }

    /** `logbuff_reset`. */
    method Reset()
      requires lbuf.Length == LOGBUFF_LEN
      modifies `start, `size, `end, `chars, `logged
      ensures Valid() && logged == ""
    {
      start, size, end, chars, logged := 0, 0, 0, 0, "";
    }

    /** Slot of the next character, under either representation. */
    method NextSlot() returns (slot: nat)
      requires Valid()
      ensures slot == |logged| % LOGBUFF_LEN
    {
      if version == 2 {
        RingIndex(|logged|, 0);
        slot := end % LOGBUFF_LEN;
      } else {
        RingIndex(Dropped(|logged|), |Shown(logged)|);
        slot := (start + size) % WORD % LOGBUFF_LEN;
      }
    }

    /** Version 2: both ends of the log as wrapping counters. */
    method AdvanceEnd(ghost n: nat)
      requires start == Dropped(n) % WORD && end == n % WORD
      modifies `start, `end
      ensures start == Dropped(n + 1) % WORD && end == (n + 1) % WORD
    {
      WrappedIncrement(n);
      WrappedIncrement(Dropped(n));
      end := (end + 1) % WORD;
      WrappedDifference(n + 1, Dropped(n));
      if (end - start) % WORD > LOGBUFF_LEN {
        start := (start + 1) % WORD;
      }
    }

    /** Version 1: the start of the log and its size. */
    method AdvanceSize(ghost n: nat)
      requires start == Dropped(n) % WORD && size == n - Dropped(n)
      modifies `start, `size
      ensures start == Dropped(n + 1) % WORD && size == n + 1 - Dropped(n + 1)
    {
      WrappedIncrement(Dropped(n));
      if size < LOGBUFF_LEN {
        size := size + 1;
      } else {
        start := (start + 1) % WORD;
      }
    }

    /** The per-character step of `logbuff_printk`. */
    method Append(c: char)
      requires Valid()
      modifies `start, `size, `end, `chars, `logged, lbuf
      ensures Valid() && logged == old(logged) + [c]
    {
      var slot := NextSlot();
      lbuf[slot] := c;
      ghost var n := |logged|;
      forall k | Dropped(n + 1) <= k < n ensures k % LOGBUFF_LEN != slot {
        SlotsDistinct(k, n);
      }
      if version == 2 {
        AdvanceEnd(n);
      } else {
        AdvanceSize(n);
      }
      chars := (chars + 1) % WORD;
      WrappedIncrement(n);
      logged := logged + [c];
    }

    /** `log show`: whatever the representation, the last LOGBUFF_LEN characters logged. */
    method Show() returns (out: string)
      requires Valid()
      ensures out == Shown(logged)
    {
      var count := size;
      if version == 2 {
        WrappedDifference(|logged|, Dropped(|logged|));
        count := (end - start) % WORD;
      }
      if count > LOGBUFF_LEN {
        count := LOGBUFF_LEN;
      }
      out := "";
      for i := 0 to count
        invariant out == Shown(logged)[..i]
      {
        RingIndex(Dropped(|logged|), i);
        assert logged[Dropped(|logged|) + i] == Shown(logged)[i];
        out := out + [lbuf[(start + i) % WORD % LOGBUFF_LEN]];
      }
    }
  }

  // ----- line prefixes -----

  const DEFAULT_PREFIX: string := "<4>"

  /** A message that brings its own level. */
  predicate Tagged(t: string) { |t| >= 3 && t[0] == '<' && '0' <= t[1] <= '7' && t[2] == '>' }

  /** What is put before a text. */
  function Lead(atStart: bool, t: string): string { if atStart && !Tagged(t) then DEFAULT_PREFIX else "" }

  /** The text of one call as it is logged; `atStart` says that the last call ended a line. */
  function Render(atStart: bool, t: string): string
    decreases |t|
  {
    if t == "" then ""
    else Lead(atStart, t) + [t[0]] + Render(t[0] == '\n', t[1..])
  }

  function EndsLine(atStart: bool, t: string): bool
  {
    if t == "" then atStart else t[|t| - 1] == '\n'
  }

  predicate OneLine(t: string) { forall i | 0 <= i < |t| - 1 :: t[i] != '\n' }

  lemma OneLineTail(t: string, k: nat)
    requires 1 < k <= |t| && OneLine(t[..k])
    ensures OneLine(t[1..][..k - 1]) && t[0] != '\n' && t[1..][k - 1..] == t[k..] && t[1..][k - 2] == t[k - 1]
  {
    assert t[0] == t[..k][0];
    assert t[1..][..k - 1] == t[..k][1..];
  }

  lemma CharsJoined(lead: string, c: char, u: string, rest: string)
    ensures lead + [c] + (u + rest) == lead + ([c] + u) + rest
  {
  }

  /** A stretch without a newline before its end is logged as it is, after at most one prefix. */
  lemma {:induction false} RenderStretch(atStart: bool, t: string, k: nat)
    requires 0 < k <= |t| && OneLine(t[..k])
    ensures Render(atStart, t) == Lead(atStart, t) + t[..k] + Render(t[k - 1] == '\n', t[k..])
    decreases k
  {
    if k == 1 {
      assert t[..1] == [t[0]];
    } else {
      var u, rest := t[1..], Render(t[k - 1] == '\n', t[k..]);
      OneLineTail(t, k);
      RenderStretch(false, u, k - 1);
      assert Lead(false, u) + u[..k - 1] == u[..k - 1];
      CharsJoined(Lead(atStart, t), t[0], u[..k - 1], rest);
      assert [t[0]] + u[..k - 1] == t[..k];
    }
  }

  /** A level from 0 to 7 in angle brackets at `i`. */
  predicate LevelAt(out: string, i: nat) { i + 3 <= |out| && out[i] == '<' && out[i + 1] in "01234567" && out[i + 2] == '>' }

  predicate LineStart(atStart: bool, out: string, i: nat) { i < |out| && if i == 0 then atStart else out[i - 1] == '\n' }

  /** The first character of a text with what is put before it, and the rest. */
  lemma RenderStep(atStart: bool, t: string, head: string, rest: string)
    requires t != "" && head == Lead(atStart, t) + [t[0]] && rest == Render(t[0] == '\n', t[1..])
    ensures Render(atStart, t) == head + rest && (head == [t[0]] || head == ['<', '4', '>', t[0]])
  {
  }

  lemma TagIsLevel(t: string)
    ensures Tagged(t) <==> LevelAt(t, 0)
  {
    if |t| >= 3 {
      LevelDigits(t[1]);
    }
  }

  lemma LevelDigits(c: char)
    ensures c in "01234567" <==> '0' <= c <= '7'
  {
    assert "01234567" == ['0', '1', '2', '3', '4', '5', '6', '7'];
    if '0' <= c <= '7' {
      assert "01234567"[c as int - 48] == c;
    }
  }

  /** A line that brings a level is logged as it is, and any other behind level 4. */
  lemma LineLogged(t: string)
    requires t != "" && '\n' !in t
    ensures Render(true, t) == if LevelAt(t, 0) then t else "<4>" + t
  {
    TagIsLevel(t);
    assert t[..|t|] == t && t[|t|..] == "";
    RenderStretch(true, t, |t|);
    assert Lead(true, t) + t + "" == Lead(true, t) + t && "" + t == t;
  }

  /** Every line in the log starts with a level, whatever is logged. */
  lemma {:induction false} EveryLineHasLevel(atStart: bool, t: string, i: nat)
    requires LineStart(atStart, Render(atStart, t), i)
    ensures LevelAt(Render(atStart, t), i)
    decreases |t|
  {
    var head, rest := Lead(atStart, t) + [t[0]], Render(t[0] == '\n', t[1..]);
    RenderStep(atStart, t, head, rest);
    if i >= |head| {
      LevelLater(atStart, t, head, rest, i);
    } else if i == 0 && Tagged(t) {
      TagKept(t);
    }
  }

  lemma LevelLater(atStart: bool, t: string, head: string, rest: string, i: nat)
    requires t != "" && head == Lead(atStart, t) + [t[0]] && rest == Render(t[0] == '\n', t[1..])
    requires |head| <= i && LineStart(atStart, head + rest, i)
    ensures LevelAt(head + rest, i)
    decreases |t|, 0
  {
    var j := i - |head|;
    assert (head + rest)[i] == rest[j];
    if j > 0 {
      assert (head + rest)[i - 1] == rest[j - 1];
    }
    EveryLineHasLevel(t[0] == '\n', t[1..], j);
  }

  /** The characters of a level are logged one after the other. */
  lemma TagKept(t: string)
    requires Tagged(t)
    ensures LevelAt(Render(true, t), 0)
  {
    RenderStretch(true, t, 3);
    assert t[..3] == [t[0], t[1], t[2]];
  }

  /** The unfinished line at the end of a text, if it began in this text or the text began a line. */
  function Tail(atStart: bool, t: string): string
    decreases |t|
  {
    if t == "" then ""
    else if '\n' in t then Tail(t[0] == '\n', t[1..])
    else if atStart then t
    else ""
  }

  /** A tag at a line start, cut by the boundary between two calls. */
  predicate CutTag(atStart: bool, a: string, b: string)
  {
    var t := Tail(atStart, a);
    0 < |t| < 3 && Tagged(t + b)
  }

  /** Logging two texts in two calls or in one is the same, exactly when no tag is cut by the boundary. */
  lemma {:induction false} TwoCalls(atStart: bool, a: string, b: string)
    ensures Render(atStart, a + b) == Render(atStart, a) + Render(EndsLine(atStart, a), b) <==> !CutTag(atStart, a, b)
    ensures CutTag(atStart, a, b) ==> |Render(atStart, a + b)| + 3 == |Render(atStart, a) + Render(EndsLine(atStart, a), b)|
    decreases |a|
  {
    if a == "" {
      assert a + b == b && Render(atStart, a) + Render(atStart, b) == Render(atStart, b);
    } else {
      var rest := a[1..];
      assert (a + b)[1..] == rest + b;
      TwoCalls(a[0] == '\n', rest, b);
      CutHere(atStart, a, b);
      CompareHeads(Lead(atStart, a) + [a[0]], Render(a[0] == '\n', rest), Render(EndsLine(atStart, a), b),
                   Lead(atStart, a + b) + [a[0]], Render(a[0] == '\n', rest + b));
    }
  }

  lemma CompareHeads(head: string, r: string, q: string, head': string, r': string)
    ensures |head + r + q| == |head| + |r + q|
    ensures head == head' ==> (head + r + q == head' + r' <==> r + q == r')
  {
    if head == head' {
      assert head + r + q == head + (r + q);
      assert (head + (r + q))[|head|..] == r + q && (head + r')[|head|..] == r';
    }
  }

  /** The first character decides alike in one call or two unless a tag is cut right here. */
  lemma CutHere(atStart: bool, a: string, b: string)
    requires a != ""
    ensures '\n' in a ==> Tagged(a) == Tagged(a + b) && CutTag(atStart, a, b) == CutTag(a[0] == '\n', a[1..], b)
    ensures '\n' !in a ==> !CutTag(a[0] == '\n', a[1..], b)
    ensures '\n' !in a ==> (CutTag(atStart, a, b) <==> atStart && Tagged(a) != Tagged(a + b))
  {
    if '\n' in a {
      var i :| 0 <= i < |a| && a[i] == '\n';
      assert (a + b)[i] == '\n';
    } else {
      assert '\n' !in a[1..];
      assert Tagged(a) ==> Tagged(a + b);
    }
  }

  // ----- logging a message -----

  /** The stretch from `q` through the first newline, or to the end: a prefix up to `p`, then text. */
  lemma StretchFacts(b: string, q: nat, p: nat, end: nat, stop: nat, lineFeed: bool)
    requires q <= p < end <= |b| && q <= stop <= end
    requires '\n' !in b[q..p] && '\n' !in b[q..stop]
    requires if lineFeed then stop < end && b[stop] == '\n' else stop == end
    ensures p <= stop
    ensures var k, t := if lineFeed then stop + 1 - p else stop - p, b[p..end];
            && 0 < k <= |t| && b[q..p + k] == b[q..p] + t[..k]
            && OneLine(t[..k]) && (t[k - 1] == '\n') == lineFeed
  {
    var k, t := if lineFeed then stop + 1 - p else stop - p, b[p..end];
    assert b[q..p + k] == b[q..p] + t[..k];
    forall i | 0 <= i < stop - p ensures t[i] != '\n' {
      assert t[i] == b[q..stop][p + i - q];
    }
  }

  const BUF_SIZE := 1024
  const NUL := 0 as char

  class Logger {
    const ring: Ring
    const buf: array<char>
    var msgLevel: int       // negative at the start of a line

    ghost predicate Valid()
      reads this, ring, ring.lbuf
    {
      ring.Valid() && buf.Length == BUF_SIZE && buf != ring.lbuf && msgLevel >= -1
    }

    constructor (ring: Ring)
      requires ring.Valid()
      ensures Valid() && this.ring == ring && msgLevel == -1 && fresh(buf)
    {
      this.ring := ring;
      buf := new char[BUF_SIZE](_ => NUL);
      msgLevel := -1;
    }

    /** Copies a string to `buf + 3`, leaving room for a prefix. */
    method CopyIn(line: string)
      requires Valid() && |line| + 4 <= BUF_SIZE
      modifies buf
      ensures buf[3..3 + |line|] == line && buf[3 + |line|] == NUL
    {
      for i := 0 to |line|
        invariant forall j | 0 <= j < i :: buf[3 + j] == line[j]
      {
        buf[3 + i] := line[i];
      }
      buf[3 + |line|] := NUL;
    }

    /** At a line start: keeps a tag that is there, or puts the default one over the three characters before. */
    method OpenLine(p: nat, ghost end: nat) returns (p': nat)
      requires Valid() && 3 <= p < end < BUF_SIZE && buf[end] == NUL && NUL !in buf[p..end]
      modifies buf, `msgLevel
      ensures Valid() && msgLevel >= 0
      ensures buf[p..end] == old(buf[p..end]) && buf[end] == NUL
      ensures if Tagged(old(buf[p..end])) then p' == p else p' == p - 3 && buf[p - 3..p] == DEFAULT_PREFIX
    {
      p' := p;
      ghost var t := buf[p..end];
      assert forall i | 0 <= i < |t| :: t[i] == buf[p + i];
      if buf[p] != '<' || buf[p + 1] < '0' || buf[p + 1] > '7' || buf[p + 2] != '>' {
        assert !Tagged(t);
        p' := p - 3;
        buf[p'] := '<';
        buf[p' + 1] := '4';
        buf[p' + 2] := '>';
        assert buf[p - 3..p] == DEFAULT_PREFIX;
      } else {
        assert p + 1 < end && p + 2 < end;
      }
      msgLevel := buf[p' + 1] as int - '0' as int;
    }

    /** Logs from `p` through the next newline, or to the end. */
    method LogLine(p: nat, end: nat) returns (stop: nat, lineFeed: bool)
      requires Valid() && p <= end < BUF_SIZE
      modifies ring, ring.lbuf
      ensures Valid() && p <= stop <= end && (lineFeed ==> stop < end && buf[stop] == '\n')
      ensures '\n' !in buf[p..stop] && (!lineFeed ==> stop == end)
      ensures ring.logged == old(ring.logged) + buf[p..if lineFeed then stop + 1 else stop]
    {
      stop, lineFeed := p, false;
      while stop < end
        invariant Valid() && p <= stop <= end && '\n' !in buf[p..stop]
        invariant ring.logged == old(ring.logged) + buf[p..stop]
      {
        ring.Append(buf[stop]);
        assert buf[p..stop + 1] == buf[p..stop] + [buf[stop]];
        if buf[stop] == '\n' {
          lineFeed := true;
          break;
        }
        stop := stop + 1;
      }
    }

    /** One turn of the outer loop: the rest `t` of the text starts at `p`, and `u` of it remains. */
    method Turn(p: nat, end: nat, ghost t: string) returns (next: nat, ghost u: string)
      requires Valid() && 3 <= p < end < BUF_SIZE && buf[p..end] == t && buf[end] == NUL && NUL !in t
      modifies this, buf, ring, ring.lbuf
      ensures Valid() && p < next <= end + 1 && buf[end] == NUL && NUL !in u
      ensures if next <= end then buf[next..end] == u else u == ""
      ensures ring.logged + Render(msgLevel < 0, u) == old(ring.logged) + Render(old(msgLevel) < 0, t)
      ensures EndsLine(msgLevel < 0, u) == EndsLine(old(msgLevel) < 0, t)
    {
      var q := p;
      ghost var prefix := "";
      if msgLevel < 0 {
        q := OpenLine(p, end);
        prefix := if Tagged(t) then "" else DEFAULT_PREFIX;
      }
      ghost var before, atStart := ring.logged, old(msgLevel) < 0;
      next, u := LogStretch(q, p, end, prefix, t);
      RestAfter(before, ring.logged, atStart, msgLevel < 0, prefix, t, u);
    }

    /** Logs from `q` on, where a prefix may stand before the rest `t` of the text. */
    method LogStretch(q: nat, p: nat, end: nat, ghost prefix: string, ghost t: string)
      returns (next: nat, ghost u: string)
      requires Valid() && q <= p < end < BUF_SIZE && buf[q..p] == prefix && '\n' !in prefix
      requires buf[p..end] == t && buf[end] == NUL && NUL !in t
      modifies `msgLevel, ring, ring.lbuf
      ensures Valid() && p < next <= end + 1 && NUL !in u
      ensures if next <= end then buf[next..end] == u else u == ""
      ensures |u| < |t| && u == t[|t| - |u|..] && OneLine(t[..|t| - |u|])
      ensures ring.logged == old(ring.logged) + (prefix + t[..|t| - |u|])
      ensures if t[|t| - |u| - 1] == '\n' then msgLevel < 0 else msgLevel == old(msgLevel)
    {
      ghost var b := buf[..];
      assert b[p..end] == t && b[q..p] == prefix;
      var stop, lineFeed := LogLine(q, end);
      assert buf[q..stop] == b[q..stop];
      StretchFacts(b, q, p, end, stop, lineFeed);
      ghost var k := if lineFeed then stop + 1 - p else stop - p;
      assert buf[q..p + k] == b[q..p + k];
      if lineFeed {
        msgLevel := -1;
        assert buf[stop + 1..end] == b[p..end][stop + 1 - p..];
      }
      next := stop + 1;
      u := t[k..];
    }

    /** `logbuff_printk`: the logged stream grows by the text of the call with its line prefixes. */
    method Printk(line: string) returns (length: nat)
      requires Valid() && |line| + 4 <= BUF_SIZE && NUL !in line
      modifies this, buf, ring, ring.lbuf
      ensures Valid() && length == |line|
      ensures ring.logged == old(ring.logged) + Render(old(msgLevel) < 0, line)
      ensures (msgLevel < 0) == EndsLine(old(msgLevel) < 0, line)
    {
      CopyIn(line);
      length := |line|;
      var end, p := 3 + length, 3;
      ghost var rest := line;
      assert old(ring.logged) + Render(msgLevel < 0, line) == ring.logged + Render(msgLevel < 0, rest);
      while p < end
        invariant Valid() && 3 <= p <= end + 1 && buf[end] == NUL && NUL !in rest
        invariant if p <= end then buf[p..end] == rest else rest == ""
        invariant ring.logged + Render(msgLevel < 0, rest) == old(ring.logged) + Render(old(msgLevel) < 0, line)
        invariant EndsLine(msgLevel < 0, rest) == EndsLine(old(msgLevel) < 0, line)
        decreases end + 1 - p
      {
        p, rest := Turn(p, end, rest);
      }
    }
  }

  /** What remains to be logged after a stretch, as one stream. */
  lemma RestAfter(before: string, logged: string, atStart: bool, atStart': bool, prefix: string, t: string, u: string)
    requires |u| < |t| && u == t[|t| - |u|..] && OneLine(t[..|t| - |u|]) && prefix == Lead(atStart, t)
    requires logged == before + (prefix + t[..|t| - |u|]) && atStart' == (t[|t| - |u| - 1] == '\n')
    ensures logged + Render(atStart', u) == before + Render(atStart, t)
    ensures EndsLine(atStart', u) == EndsLine(atStart, t)
  {
    RenderStretch(atStart, t, |t| - |u|);
  }
}
