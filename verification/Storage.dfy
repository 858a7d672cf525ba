/**
 Enumeration of storage devices through the API: a cookie handed back by the caller and two flags for each
 storage group decide which device comes next.
 */
module Storage {
  import opened Bytes

  /** Storage groups: IDE, USB, SCSI, MMC, SATA. */
  const ENUM_MAX := 5

  /** The address of a device; 0 is NULL. */
  type cookie = nat

  /** What the board offers: a stable table of devices, which of them are of a known type, and the network
      device, if any. */
  datatype Board = Board(getDev: (nat, nat) -> cookie, maxDev: nat -> nat, known: cookie -> bool, net: cookie)

  /** Every device belongs to one place. */
  ghost predicate Injective(b: Board)
  {
    && (forall g, i, h, j :: b.getDev(g, i) != 0 && b.getDev(g, i) == b.getDev(h, j) ==> g == h && i == j)
    && (forall g, i :: b.getDev(g, i) != 0 ==> b.getDev(g, i) != b.net)
  }

  /** The first device of a group can be returned. */
  predicate Ready(b: Board, g: nat) { b.getDev(g, 0) != 0 && b.known(b.getDev(g, 0)) }

  /** The first group from `f` on with such a device, or ENUM_MAX. */
  function NextGroup(b: Board, f: nat): (g: nat)
    requires f <= ENUM_MAX
    ensures f <= g <= ENUM_MAX && (g < ENUM_MAX ==> Ready(b, g)) && forall h | f <= h < g :: !Ready(b, h)
    decreases ENUM_MAX - f
  {
    if f == ENUM_MAX || Ready(b, f) then f else NextGroup(b, f + 1)
  }

  /** The devices enumerated from group `f` on: the first of every group that has one. */
  function Listed(b: Board, f: nat): seq<cookie>
    requires f <= ENUM_MAX
    decreases ENUM_MAX - f
  {
    var g := NextGroup(b, f);
    if g == ENUM_MAX then [] else [b.getDev(g, 0)] + Listed(b, g + 1)
  }

  predicate InGroup(b: Board, g: nat, c: cookie) { exists j | 0 <= j < b.maxDev(g) :: b.getDev(g, j) == c }

  class Api {
    const b: Board
    var started: seq<bool>
    var ended: seq<bool>
    /** The caller's device_info. */
    var di: cookie

    constructor (b: Board)
      ensures this.b == b && Shaped()
    {
      this.b := b;
      started := seq(ENUM_MAX, i => false);
      ended := seq(ENUM_MAX, i => false);
    }

    predicate Shaped()
      reads this
    {
      |started| == |ended| == ENUM_MAX
    }

    /** Groups below `f` are done, the others untouched. */
    predicate Frontier(f: nat)
      reads this
    {
      && Shaped() && f <= ENUM_MAX
      && (forall i | 0 <= i < f :: started[i] && ended[i])
      && (forall i | f <= i < ENUM_MAX :: !started[i] && !ended[i])
    }

    /** Where in the group the cookie is, or its size. */
    function Position(g: nat, i: nat): (p: nat)
      requires i <= b.maxDev(g)
      reads this
      ensures i <= p <= b.maxDev(g) && (p < b.maxDev(g) ==> b.getDev(g, p) == di)
      decreases b.maxDev(g) - i
    {
      if i == b.maxDev(g) || b.getDev(g, i) == di then i else Position(g, i + 1)
    }

    method DevStorGet(g: nat, first: bool) returns (found: bool, more: bool)
      modifies `di
      ensures first ==> !more && di == b.getDev(g, 0) && found == Ready(b, g)
      ensures !first ==>
                var p := old(Position(g, 0)) + 1;
                if p < b.maxDev(g) && b.getDev(g, p) != 0 then
                  di == b.getDev(g, p) && found == b.known(di) && more == (p + 1 < b.maxDev(g))
                else
                  di == 0 && !found && !more
    {
      found, more := false, false;
      if first {
        di := b.getDev(g, 0);
        if di == 0 {
          return;
        }
        found := true;
      } else {
        var i := 0;
        while i < b.maxDev(g) && di != b.getDev(g, i)
          invariant 0 <= i <= b.maxDev(g) && di == old(di)
          invariant Position(g, 0) == Position(g, i)
        {
          i := i + 1;
        }
        if i < b.maxDev(g) {
          i := i + 1;
          if i < b.maxDev(g) {
            di := b.getDev(g, i);
            if di == 0 {
              return;
            }
            found := true;
            more := i + 1 < b.maxDev(g);
          }
        }
      }
      if found {
        found := b.known(di);
      } else {
        di := 0;
      }
    }

    /** The first group the cookie is in. */
    method DevStorType(c: cookie) returns (g: nat)
      ensures g <= ENUM_MAX && (g < ENUM_MAX ==> InGroup(b, g, c)) && forall h | 0 <= h < g :: !InGroup(b, h, c)
    {
      g := 0;
      while g < ENUM_MAX
        invariant g <= ENUM_MAX && forall h | 0 <= h < g :: !InGroup(b, h, c)
      {
        var j := 0;
        while j < b.maxDev(g)
          invariant 0 <= j <= b.maxDev(g) && forall i | 0 <= i < j :: b.getDev(g, i) != c
        {
          if c == b.getDev(g, j) {
            return;
          }
          j := j + 1;
        }
        g := g + 1;
      }
    }

    /** `dev_is_stor`: the cookie is in this group and in none before it. */
    predicate Owns(g: nat)
      reads this
    {
      InGroup(b, g, di) && forall h | 0 <= h < g :: !InGroup(b, h, di)
    }

    method DevEnumStor(g: nat) returns (found: bool)
      requires Shaped() && g < ENUM_MAX
      modifies `di, `started, `ended
      ensures Shaped() && (forall h | 0 <= h < ENUM_MAX && h != g ::
                             started[h] == old(started[h]) && ended[h] == old(ended[h]))
      // start of an enumeration, or of this group
      ensures old(di == 0 || (!ended[g] && !Owns(g) && !started[g])) ==>
                di == b.getDev(g, 0) && found == Ready(b, g) && started[g] && ended[g]
      // nothing more in this group
      ensures old(di != 0 && ended[g]) ==> !found && di == old(di) && started[g] == old(started[g]) && ended[g]
      // the next device of this group
      ensures old(di != 0 && !ended[g] && Owns(g)) ==>
                && started[g] == old(started[g])
                && var p := old(Position(g, 0)) + 1;
                   if p < b.maxDev(g) && b.getDev(g, p) != 0 then
                     di == b.getDev(g, p) && found == b.known(di) && ended[g] == (p + 1 >= b.maxDev(g))
                   else
                     di == 0 && !found && ended[g]
      // out of order
      ensures old(di != 0 && !ended[g] && !Owns(g) && started[g]) ==> !found && di == old(di) && started[g] && ended[g]
    {
      found := false;
      var more := false;
      if di == 0 {
        found, more := DevStorGet(g, true);
        started := started[g := true];
      } else {
        var own := DevStorType(di);
        if ended[g] {
          return;
        }
        if own == g {
          found, more := DevStorGet(g, false);
        } else if !started[g] {
          started := started[g := true];
          found, more := DevStorGet(g, true);
        }
      }
      ended := ended[g := !more];
    }

    /** Groups from the frontier on are tried in order; the frontier moves past the one that answers. */
    method DevEnumStorage(ghost f: nat) returns (found: bool)
      requires Injective(b) && Frontier(f) && (di == 0 ==> f == 0)
      requires forall g | f <= g < ENUM_MAX :: di == 0 || !InGroup(b, g, di)
      modifies `di, `started, `ended
      ensures found == (NextGroup(b, f) < ENUM_MAX)
      ensures found ==> di == b.getDev(NextGroup(b, f), 0) && Frontier(NextGroup(b, f) + 1)
      ensures !found ==> Frontier(ENUM_MAX)
    {
      found := false;
      var i := 0;
      while i < ENUM_MAX
        invariant 0 <= i <= ENUM_MAX
        invariant i <= f ==> Frontier(f) && di == old(di)
        invariant i >= f ==> Frontier(i) && NextGroup(b, f) == NextGroup(b, i)
        invariant i > f ==> di == b.getDev(i - 1, 0)
      {
        if i >= f {
          NotYet(i);
        }
        found := DevEnumStor(i);
        if found {
          return;
        }
        i := i + 1;
      }
    }

    /** The cookie is not from a group still to be tried. */
    lemma NotYet(i: nat)
      requires Injective(b) && i < ENUM_MAX
      requires di == 0 || !InGroup(b, i, di) || (i > 0 && di == b.getDev(i - 1, 0))
      ensures di != 0 ==> !Owns(i)
    {
    }

    method DevEnumReset()
      requires Shaped()
      modifies `started, `ended
      ensures Frontier(0)
    {
      for i := 0 to ENUM_MAX
        invariant Shaped() && forall h | 0 <= h < i :: !started[h] && !ended[h]
      {
        started, ended := started[i := false], ended[i := false];
      }
    }

    /** The cookie handed back is from a group before `f`, and those are done. */
    ghost predicate Pending(f: nat)
      reads this
    {
      Frontier(f) && forall g | f <= g < ENUM_MAX :: !InGroup(b, g, di)
    }

    /** What is still to come, the cookie first. */
    ghost function Coming(f: nat): seq<cookie>
      requires f <= ENUM_MAX
      reads this
    {
      if di == 0 then [] else [di] + Listed(b, f)
    }

    /** `API_dev_enum`: a NULL cookie starts over, another one moves on. */
    method DevEnum(ghost f: nat) returns (ghost f': nat)
      requires Injective(b) && Shaped() && (di != 0 ==> Pending(f))
      modifies `di, `started, `ended
      ensures Shaped() && f' <= ENUM_MAX && (di != 0 ==> Pending(f'))
      ensures Coming(f') == if old(di) == 0 then Enumerated(b) else Listed(b, f)
      ensures old(di) != 0 && di != 0 ==> f < f'
    {
      f' := f;
      if di == 0 {
        DevEnumReset();
        f' := 0;
        if b.net != 0 {
          di := b.net;
          return;
        }
      }
      ghost var g := NextGroup(b, f');
      assert [] + Listed(b, f') == Listed(b, f');
      var found := DevEnumStorage(f');
      if !found {
        di := 0;
      }
      f' := if found then g + 1 else ENUM_MAX;
    }

    /** A caller that starts with a NULL cookie and hands every cookie back until it gets NULL again, from any
        state the flags were left in. */
    method EnumerateAll() returns (devices: seq<cookie>, calls: nat)
      requires Injective(b) && Shaped()
      modifies `di, `started, `ended
      ensures devices == Enumerated(b) && calls == |devices| + 1 <= ENUM_MAX + 2
    {
      di := 0;
      ghost var f: nat := DevEnum(0);
      devices, calls := [], 1;
      while di != 0
        invariant Shaped() && f <= ENUM_MAX && calls == |devices| + 1
        invariant di != 0 ==> Pending(f)
        invariant devices + Coming(f) == Enumerated(b)
        decreases if di == 0 then 0 else ENUM_MAX - f + 1
      {
        MoveOver(devices, di, Listed(b, f));
        devices, calls := devices + [di], calls + 1;
        f := DevEnum(f);
      }
      EnumeratedLength(b);
    }
  }

  /** What an enumeration returns, in order. */
  function Enumerated(b: Board): seq<cookie> { (if b.net != 0 then [b.net] else []) + Listed(b, 0) }

  /** The groups of a list of devices: one each, in increasing order, from `f` on. */
  ghost predicate GroupsOf(b: Board, f: nat, devices: seq<cookie>, groups: seq<nat>)
  {
    && |groups| == |devices| <= ENUM_MAX - f
    && (forall i | 0 <= i < |groups| :: f <= groups[i] < ENUM_MAX && devices[i] == b.getDev(groups[i], 0) != 0)
    && (forall i, j | 0 <= i < j < |groups| :: groups[i] < groups[j])
  }

  lemma GroupsCons(b: Board, f: nat, g: nat, devices: seq<cookie>, groups: seq<nat>)
    requires f <= g < ENUM_MAX && b.getDev(g, 0) != 0 && GroupsOf(b, g + 1, devices, groups)
    ensures GroupsOf(b, f, [b.getDev(g, 0)] + devices, [g] + groups)
  {
  }

  /** At most one device of each group, groups in increasing order, none twice. */
  lemma {:induction false} ListedGroups(b: Board, f: nat) returns (groups: seq<nat>)
    requires f <= ENUM_MAX
    ensures GroupsOf(b, f, Listed(b, f), groups)
    decreases ENUM_MAX - f
  {
    var g := NextGroup(b, f);
    if g == ENUM_MAX {
      groups := [];
    } else {
      var rest := ListedGroups(b, g + 1);
      GroupsCons(b, f, g, Listed(b, g + 1), rest);
      groups := [g] + rest;
    }
  }

  lemma EnumeratedLength(b: Board)
    ensures |Enumerated(b)| <= ENUM_MAX + 1
  {
    var _ := ListedGroups(b, 0);
  }

  lemma ListedApart(b: Board, i: nat, j: nat)
    requires Injective(b) && i < j < |Listed(b, 0)|
    ensures Listed(b, 0)[i] != Listed(b, 0)[j]
  {
    var groups := ListedGroups(b, 0);
    assert groups[i] < groups[j];
  }

  lemma ListedNotNet(b: Board, i: nat)
    requires Injective(b) && i < |Listed(b, 0)|
    ensures Listed(b, 0)[i] != b.net
  {
    var groups := ListedGroups(b, 0);
    assert Listed(b, 0)[i] == b.getDev(groups[i], 0);
  }

  lemma NoneTwice(b: Board, i: nat, j: nat)
    requires Injective(b) && i < j < |Enumerated(b)|
    ensures Enumerated(b)[i] != Enumerated(b)[j]
  {
    var n := if b.net != 0 then 1 else 0;
    if i >= n {
      ListedApart(b, i - n, j - n);
    } else {
      ListedNotNet(b, j - n);
    }
  }

  /** The first device of every group that is ready is listed. */
  lemma {:induction false} ReadyListed(b: Board, f: nat, g: nat)
    requires f <= g < ENUM_MAX && Ready(b, g)
    ensures b.getDev(g, 0) in Listed(b, f)
    decreases ENUM_MAX - f
  {
    var n := NextGroup(b, f);
    assert n <= g;
    if n < g {
      ReadyListed(b, n + 1, g);
    }
  }

  /** Nothing else is. */
  lemma {:induction false} ListedReady(b: Board, f: nat, c: cookie) returns (g: nat)
    requires f <= ENUM_MAX && c in Listed(b, f)
    ensures f <= g < ENUM_MAX && Ready(b, g) && c == b.getDev(g, 0)
    decreases ENUM_MAX - f
  {
    g := NextGroup(b, f);
    if c != b.getDev(g, 0) {
      g := ListedReady(b, g + 1, c);
    }
  }

  /** A device is returned if and only if it is the first of its group and of a known type. */
  lemma DevicesReturned(b: Board, g: nat, i: nat)
    requires Injective(b) && b.getDev(g, i) != 0
    ensures b.getDev(g, i) in Enumerated(b) <==> g < ENUM_MAX && i == 0 && b.known(b.getDev(g, i))
  {
    var c := b.getDev(g, i);
    assert c != b.net;
    assert c in Enumerated(b) <==> c in Listed(b, 0);
    if c in Listed(b, 0) {
      var h := ListedReady(b, 0, c);
      assert b.getDev(h, 0) == b.getDev(g, i);
    } else if g < ENUM_MAX && i == 0 && b.known(c) {
      ReadyListed(b, 0, g);
    }
  }

  /** Nothing but the network device and such devices is returned. */
  lemma NothingElse(b: Board, c: cookie)
    requires c in Enumerated(b)
    ensures c == b.net || exists g: nat :: g < ENUM_MAX && Ready(b, g) && c == b.getDev(g, 0)
  {
    if c != b.net {
      assert c in Listed(b, 0);
      var g := ListedReady(b, 0, c);
    }
  }

  /** The second device of a group is never returned, whatever its type. */
  lemma LaterDevicesMissed(b: Board, g: nat, i: nat)
    requires Injective(b) && i > 0 && b.getDev(g, i) != 0
    ensures b.getDev(g, i) !in Enumerated(b)
  {
    DevicesReturned(b, g, i);
  }
}
