/** What a stash looks like in memory, which records it holds, what their names say, and which memory is not taken for one. */
module BootstageFormat {
  import opened Bytes
  import opened Bootstage

  // ----- names -----

  predicate DecimalDigits(s: seq<byte>) { s != [] && forall i | 0 <= i < |s| :: '0' as int <= s[i] <= '9' as int }

  /** The number that decimal digits stand for, the first being the highest. */
  function NumberIn(s: seq<byte>): int { if s == [] then 0 else NumberIn(s[..|s| - 1]) * 10 + (s[|s| - 1] - '0' as int) }

  lemma {:induction false} DecimalMeans(n: nat)
    ensures var s := Decimal(n); DecimalDigits(s) && NumberIn(s) == n && (n > 0 ==> s[0] != '0' as int)
  {
    var s := Decimal(n);
    if n < 10 {
      assert s[..0] == [];
    } else {
      DecimalMeans(n / 10);
      assert s[..|s| - 1] == Decimal(n / 10);
    }
  }

  /** A text and a number behind it. */
  predicate TextAndNumber(t: seq<byte>, head: string, n: int)
  {
    && |head| <= |t| && (forall i | 0 <= i < |head| :: t[i] == head[i] as int)
    && DecimalDigits(t[|head|..]) && NumberIn(t[|head|..]) == n
  }

  /** A record without a name of its own is shown by its number, counted from the first user stage if it is one. */
  lemma NameMeans(r: Record, idUser: nat)
    ensures r.name.Name? ==> Printable(r, idUser) == r.name.text
    ensures r.name.NoName? && r.id >= idUser ==> TextAndNumber(Printable(r, idUser), "user_", r.id - idUser)
    ensures r.name.NoName? && r.id < idUser ==> TextAndNumber(Printable(r, idUser), "id=", r.id)
  {
    var t := Printable(r, idUser);
    if r.name.NoName? && r.id >= idUser {
      DecimalMeans(r.id - idUser);
      assert t[5..] == Decimal(r.id - idUser);
    } else if r.name.NoName? {
      DecimalMeans(r.id);
      assert t[3..] == Decimal(r.id);
    }
  }

  // ----- which records -----

  /** A record whose time is set is in the stash, behind those before it in the table. */
  lemma {:induction false} LivePlace(rs: seq<Record>, i: nat)
    requires i < |rs| && rs[i].time != 0
    ensures var k := |Live(rs[..i])|; k < |Live(rs)| && Live(rs)[k] == rs[i]
    decreases |rs|
  {
    var n := |rs| - 1;
    if i < n {
      LivePlace(rs[..n], i);
      assert rs[..n][..i] == rs[..i];
    }
  }

  /** There are no others. */
  lemma {:induction false} LiveFrom(rs: seq<Record>, k: nat) returns (i: nat)
    requires k < |Live(rs)|
    ensures i < |rs| && rs[i].time != 0 && k == |Live(rs[..i])| && Live(rs)[k] == rs[i]
    decreases |rs|
  {
    var n := |rs| - 1;
    if k < |Live(rs[..n])| {
      i := LiveFrom(rs[..n], k);
      assert rs[..n][..i] == rs[..i];
    } else {
      i := n;
    }
  }

  // ----- layout -----

  /** Header words, record words and names of a stash, by address. */
  lemma Layout(m: seq<byte>, rs: seq<Record>, idUser: nat, k: nat)
    requires Image(rs, idUser) <= m && StashSize(rs, idUser) < WORD && |rs| < WORD && k < |rs| && Fits(rs[k])
    ensures |m| >= 16 + 20 * |rs|
    ensures WordAt(m, 0) == 0 && WordAt(m, 4) == |rs| && WordAt(m, 8) == |Image(rs, idUser)| && WordAt(m, 12) == 0xb00757a3
    ensures var i := 16 + 20 * k;
            && WordAt(m, i) == rs[k].time && WordAt(m, i + 4) == rs[k].start
            && WordAt(m, i + 12) == rs[k].flags && WordAt(m, i + 16) == rs[k].id
    ensures m[16 + 20 * |rs|..|Image(rs, idUser)|] == Cat(Texts(rs, idUser))
  {
    ImageParts(m, rs, idUser);
    HeaderAt(m, |rs|, StashSize(rs, idUser));
    RecordInBody(m, rs, Cat(Texts(rs, idUser)), k, NoName);
  }

  // ----- what is refused -----

  /** Memory is refused if and only if its header lacks magic or version, or announces what the caller's limit, its own
      size or the table does not allow, in 32-bit arithmetic. */
  lemma Refused(m: seq<byte>, base: nat, size: int, table: seq<Record>, nextId: nat)
    requires size <= |m| && base + |m| < WORD && |m| >= 16
    ensures Unstash(m, base, size, table, nextId) == Rejected <==>
            || (size != -1 && size < 16)
            || WordAt(m, 12) != 0xb00757a3 || WordAt(m, 0) != 0
            || (size != -1 && (base + WordAt(m, 8)) % WORD > base + size)
            || 20 * WordAt(m, 4) % WORD > WordAt(m, 8)
            || (nextId + WordAt(m, 4)) % WORD > |table|
  {
  }
}
