/** The enumerated-value registry of the link decoder: interface flags with
    their display decomposition, operational state, link mode, and the
    hardware (link) type table. Mirrors linetface/consts.py. */
module Consts {
  import opened Outcomes

  // ---------------------------------------------------------------------------
  // Operational state
  // ---------------------------------------------------------------------------

  /** The kernel's operational state of a link, a closed set of seven strings. */
  datatype OperState = Unknown | NotPresent | Down | LowerLayerDown | Testing | Dormant | Up

  /** The display form of a state: its string value. */
  function OperStateText(s: OperState): string
  {
    match s
    case Unknown => "UNKNOWN"
    case NotPresent => "NOTPRESENT"
    case Down => "DOWN"
    case LowerLayerDown => "LOWERLAYERDOWN"
    case Testing => "TESTING"
    case Dormant => "DORMANT"
    case Up => "UP"
  }

  /** Lookup of a state by value, `OperState(text)`: exactly the seven display
      strings are accepted, each giving back the state it displays. */
  function OperStateFromText(text: string): (r: Option<OperState>)
    ensures r.Some? ==> OperStateText(r.value) == text
    ensures r.None? <==> forall s: OperState :: OperStateText(s) != text
  {
    if text == "UNKNOWN" then Some(Unknown)
    else if text == "NOTPRESENT" then Some(NotPresent)
    else if text == "DOWN" then Some(Down)
    else if text == "LOWERLAYERDOWN" then Some(LowerLayerDown)
    else if text == "TESTING" then Some(Testing)
    else if text == "DORMANT" then Some(OperState.Dormant)
    else if text == "UP" then Some(OperState.Up)
    else None
  }

  /** Every state survives display followed by lookup. */
  lemma OperStateRoundTrip(s: OperState)
    ensures OperStateFromText(OperStateText(s)) == Some(s)
  {
  }

  // ---------------------------------------------------------------------------
  // Link mode
  // ---------------------------------------------------------------------------

  /** The link mode reported in IFLA_LINKMODE. */
  datatype LinkMode = Default | Dormant

  /** The kernel code of a mode. */
  function LinkModeValue(m: LinkMode): int
  {
    match m
    case Default => 0
    case Dormant => 1
  }

  /** The display form of a mode: its name, not its code. */
  function LinkModeText(m: LinkMode): string
  {
    match m
    case Default => "DEFAULT"
    case Dormant => "DORMANT"
  }

  /** Lookup of a mode by code, `LinkMode(code)`: only 0 and 1 are accepted,
      each giving back the mode carrying that code. */
  function LinkModeFromValue(code: int): (r: Option<LinkMode>)
    ensures r.Some? <==> 0 <= code <= 1
    ensures r.Some? ==> LinkModeValue(r.value) == code
    ensures r.None? <==> forall m: LinkMode :: LinkModeValue(m) != code
  {
    if code == 0 then Some(Default)
    else if code == 1 then Some(LinkMode.Dormant)
    else None
  }

  /** Every mode survives code followed by lookup, and the displayed names differ. */
  lemma LinkModeRoundTrip(m: LinkMode)
    ensures LinkModeFromValue(LinkModeValue(m)) == Some(m)
    ensures forall n: LinkMode :: LinkModeText(n) == LinkModeText(m) ==> n == m
  {
  }

  // ---------------------------------------------------------------------------
  // Bits of a flag word
  // ---------------------------------------------------------------------------

  /** 2 to the power `k`: the value `1 << k`. */
  function Pow2(k: nat): (p: nat)
    ensures p >= 1
  {
    if k == 0 then 1 else 2 * Pow2(k - 1)
  }

  /** The powers of two up to `1 << 19`. */
  lemma Pow2Table()
    ensures Pow2(0) == 0x1 && Pow2(1) == 0x2 && Pow2(2) == 0x4 && Pow2(3) == 0x8
    ensures Pow2(4) == 0x10 && Pow2(5) == 0x20 && Pow2(6) == 0x40 && Pow2(7) == 0x80
    ensures Pow2(8) == 0x100 && Pow2(9) == 0x200 && Pow2(10) == 0x400 && Pow2(11) == 0x800
    ensures Pow2(12) == 0x1000 && Pow2(13) == 0x2000 && Pow2(14) == 0x4000
    ensures Pow2(15) == 0x8000 && Pow2(16) == 0x1_0000 && Pow2(17) == 0x2_0000
    ensures Pow2(18) == 0x4_0000 && Pow2(19) == 0x8_0000
  {
  }

  /** Bit `i` of the non-negative integer `x`. */
  predicate Bit(x: nat, i: nat)
  {
    if i == 0 then x % 2 == 1 else Bit(x / 2, i - 1)
  }

  /** Python's `|` on non-negative integers. */
  function Or(a: nat, b: nat): nat
    decreases a + b
  {
    if a == 0 && b == 0 then 0
    else 2 * Or(a / 2, b / 2) + (if a % 2 == 1 || b % 2 == 1 then 1 else 0)
  }

  /** `x` with bit `k` cleared: Python's `x & ~(1 << k)`. */
  function ClearBit(x: nat, k: nat): nat
  {
    if Bit(x, k) then BitAtLeast(x, k); x - Pow2(k) else x
  }

  lemma {:induction false} BitZero(i: nat)
    ensures !Bit(0, i)
  {
    if i > 0 {
      BitZero(i - 1);
    }
  }

  /** The only bit of `1 << p` is bit `p`. */
  lemma {:induction false} BitOfPow2(p: nat, i: nat)
    ensures Bit(Pow2(p), i) <==> i == p
  {
    if i > 0 {
      if p == 0 {
        BitZero(i - 1);
      } else {
        BitOfPow2(p - 1, i - 1);
      }
    }
  }

  /** A bit of `x | y` is set exactly when it is set in `x` or in `y`. */
  lemma {:induction false} BitOfOr(a: nat, b: nat, i: nat)
    ensures Bit(Or(a, b), i) <==> Bit(a, i) || Bit(b, i)
    decreases i
  {
    if a == 0 && b == 0 {
      BitZero(i);
    } else if i > 0 {
      BitOfOr(a / 2, b / 2, i - 1);
    }
  }

  lemma {:induction false} OrBelow(a: nat, b: nat, n: nat)
    requires a < Pow2(n) && b < Pow2(n)
    ensures Or(a, b) < Pow2(n)
    decreases a + b
  {
    if (a != 0 || b != 0) && n > 0 {
      OrBelow(a / 2, b / 2, n - 1);
    }
  }

  /** A set bit `k` makes `x` at least `1 << k`. */
  lemma {:induction false} BitAtLeast(x: nat, k: nat)
    requires Bit(x, k)
    ensures x >= Pow2(k)
  {
    if k > 0 {
      BitAtLeast(x / 2, k - 1);
    }
  }

  lemma {:induction false} BitOfDifference(x: nat, k: nat, i: nat)
    requires Bit(x, k)
    ensures x >= Pow2(k)
    ensures Bit(x - Pow2(k), i) <==> i != k && Bit(x, i)
  {
    BitAtLeast(x, k);
    if k == 0 {
      if i > 0 {
        assert (x - 1) / 2 == x / 2;
      }
    } else if i > 0 {
      assert (x - Pow2(k)) / 2 == x / 2 - Pow2(k - 1);
      BitOfDifference(x / 2, k - 1, i - 1);
    }
  }

  /** Clearing bit `k` changes bit `k` only, and never makes the word larger. */
  lemma BitOfClearBit(x: nat, k: nat, i: nat)
    ensures Bit(ClearBit(x, k), i) <==> i != k && Bit(x, i)
    ensures ClearBit(x, k) <= x
  {
    if Bit(x, k) {
      BitOfDifference(x, k, i);
    }
  }

  /** Two words below `1 << n` with the same low `n` bits are equal. */
  lemma {:induction false} BitsDetermine(x: nat, y: nat, n: nat)
    requires x < Pow2(n) && y < Pow2(n)
    requires forall i: nat :: i < n ==> (Bit(x, i) <==> Bit(y, i))
    ensures x == y
  {
    if n > 0 {
      assert Bit(x, 0) <==> Bit(y, 0);
      forall i: nat | i < n - 1
        ensures Bit(x / 2, i) <==> Bit(y / 2, i)
      {
        assert Bit(x, i + 1) <==> Bit(y, i + 1);
      }
      BitsDetermine(x / 2, y / 2, n - 1);
    }
  }

  /** OR-ing a power of two onto a smaller number adds it. */
  lemma {:induction false} OrPow2Below(k: nat, b: nat)
    requires b < Pow2(k)
    ensures Or(Pow2(k), b) == Pow2(k) + b
  {
    if k > 0 {
      OrPow2Below(k - 1, b / 2);
    }
  }

  // ---------------------------------------------------------------------------
  // Interface flags
  // ---------------------------------------------------------------------------

  /** The members of the interface-flag set. `NoCarrier` is synthetic: its value
      is 0, and it is shown when RUNNING is clear. The others are the kernel's
      IFF_* bits, in ascending bit order. */
  datatype LinkFlag =
    | NoCarrier
    | Up | Broadcast | Debug | Loopback | PointToPoint | NoTrailers | Running | NoArp
    | Promisc | AllMulti | Master | Slave | Multicast | PortSel | AutoMedia | Dynamic
    | LowerUp | Dormant | Echo

  /** A flag word uses only the 19 named bit positions. */
  predicate Defined(mask: nat)
  {
    mask < 0x8_0000
  }

  /** The integer value of a member. */
  function FlagValue(f: LinkFlag): nat
  {
    match f
    case NoCarrier => 0
    case Up => 0x1
    case Broadcast => 0x2
    case Debug => 0x4
    case Loopback => 0x8
    case PointToPoint => 0x10
    case NoTrailers => 0x20
    case Running => 0x40
    case NoArp => 0x80
    case Promisc => 0x100
    case AllMulti => 0x200
    case Master => 0x400
    case Slave => 0x800
    case Multicast => 0x1000
    case PortSel => 0x2000
    case AutoMedia => 0x4000
    case Dynamic => 0x8000
    case LowerUp => 0x1_0000
    case Dormant => 0x2_0000
    case Echo => 0x4_0000
  }

  /** Bit position of a named member; the inverse of `FlagAt`. */
  function Position(f: LinkFlag): (i: nat)
    requires f != NoCarrier
    ensures i < 19 && FlagAt(i) == f
  {
    match f
    case Up => 0
    case Broadcast => 1
    case Debug => 2
    case Loopback => 3
    case PointToPoint => 4
    case NoTrailers => 5
    case Running => 6
    case NoArp => 7
    case Promisc => 8
    case AllMulti => 9
    case Master => 10
    case Slave => 11
    case Multicast => 12
    case PortSel => 13
    case AutoMedia => 14
    case Dynamic => 15
    case LowerUp => 16
    case Dormant => 17
    case Echo => 18
  }

  /** The named member at bit position `i`. */
  function FlagAt(i: nat): LinkFlag
    requires i < 19
  {
    match i
    case 0 => LinkFlag.Up
    case 1 => Broadcast
    case 2 => Debug
    case 3 => LinkFlag.Loopback
    case 4 => PointToPoint
    case 5 => NoTrailers
    case 6 => Running
    case 7 => NoArp
    case 8 => Promisc
    case 9 => AllMulti
    case 10 => Master
    case 11 => Slave
    case 12 => Multicast
    case 13 => PortSel
    case 14 => AutoMedia
    case 15 => Dynamic
    case 16 => LowerUp
    case 17 => LinkFlag.Dormant
    case _ => Echo
  }

  lemma PositionOfFlagAt(i: nat)
    requires i < 19
    ensures FlagAt(i) != NoCarrier && Position(FlagAt(i)) == i
  {
  }

  /** `NoCarrier` is 0 and every other member is `1 << k` for its own bit
      position `k` below 19. */
  lemma FlagValueIsPower(f: LinkFlag)
    ensures f == NoCarrier <==> FlagValue(f) == 0
    ensures f != NoCarrier ==> FlagValue(f) == Pow2(Position(f))
    ensures Defined(FlagValue(f))
  {
    Pow2Table();
  }

  /** Different powers of two are different numbers with no bit in common. */
  lemma PowersDisjoint(p: nat, q: nat)
    requires p != q
    ensures Pow2(p) != Pow2(q)
    ensures forall i: nat :: !(Bit(Pow2(p), i) && Bit(Pow2(q), i))
  {
    BitOfPow2(p, p);
    BitOfPow2(q, p);
    forall i: nat
      ensures !(Bit(Pow2(p), i) && Bit(Pow2(q), i))
    {
      BitOfPow2(p, i);
      BitOfPow2(q, i);
    }
  }

  /** The 19 named members are pairwise-distinct single bits, so no two
      members share a value or a bit. */
  lemma FlagValuesDistinct(f: LinkFlag, g: LinkFlag)
    requires f != g
    ensures FlagValue(f) != FlagValue(g)
    ensures forall i: nat :: !(Bit(FlagValue(f), i) && Bit(FlagValue(g), i))
  {
    FlagValueIsPower(f);
    FlagValueIsPower(g);
    if f == NoCarrier || g == NoCarrier {
      forall i: nat
        ensures !Bit(0, i)
      {
        BitZero(i);
      }
    } else {
      PowersDisjoint(Position(f), Position(g));
    }
  }

  /** The member whose value is exactly `v`, if any (the enumeration's
      value-to-member table; 0 gives `NoCarrier`). */
  function NamedMember(v: nat): (r: Option<LinkFlag>)
    ensures r.Some? ==> FlagValue(r.value) == v
    ensures r.None? <==> forall f: LinkFlag :: FlagValue(f) != v
  {
    if v == 0 then Some(NoCarrier)
    else if v == 0x1 then Some(LinkFlag.Up)
    else if v == 0x2 then Some(Broadcast)
    else if v == 0x4 then Some(Debug)
    else if v == 0x8 then Some(LinkFlag.Loopback)
    else if v == 0x10 then Some(PointToPoint)
    else if v == 0x20 then Some(NoTrailers)
    else if v == 0x40 then Some(Running)
    else if v == 0x80 then Some(NoArp)
    else if v == 0x100 then Some(Promisc)
    else if v == 0x200 then Some(AllMulti)
    else if v == 0x400 then Some(Master)
    else if v == 0x800 then Some(Slave)
    else if v == 0x1000 then Some(Multicast)
    else if v == 0x2000 then Some(PortSel)
    else if v == 0x4000 then Some(AutoMedia)
    else if v == 0x8000 then Some(Dynamic)
    else if v == 0x1_0000 then Some(LowerUp)
    else if v == 0x2_0000 then Some(LinkFlag.Dormant)
    else if v == 0x4_0000 then Some(Echo)
    else None
  }

  /** The display form of a member: `NoCarrier` shows as "NO-CARRIER", as the
      `ip` tool prints it, and every other member as its name. */
  function FlagText(f: LinkFlag): string
  {
    match f
    case NoCarrier => "NO-CARRIER"
    case Up => "UP"
    case Broadcast => "BROADCAST"
    case Debug => "DEBUG"
    case Loopback => "LOOPBACK"
    case PointToPoint => "POINTOPOINT"
    case NoTrailers => "NOTRAILERS"
    case Running => "RUNNING"
    case NoArp => "NOARP"
    case Promisc => "PROMISC"
    case AllMulti => "ALLMULTI"
    case Master => "MASTER"
    case Slave => "SLAVE"
    case Multicast => "MULTICAST"
    case PortSel => "PORTSEL"
    case AutoMedia => "AUTOMEDIA"
    case Dynamic => "DYNAMIC"
    case LowerUp => "LOWER_UP"
    case Dormant => "DORMANT"
    case Echo => "ECHO"
  }

  /** Different members never display alike. */
  lemma FlagTextInjective(f: LinkFlag, g: LinkFlag)
    ensures FlagText(f) == FlagText(g) ==> f == g
  {
  }

  /** The bit of member `f` is set in `mask`: for the single-bit members this
      is the decomposition's test `value & mask == value`; `NoCarrier`, whose
      value is 0, never passes it. */
  predicate HasFlag(mask: nat, f: LinkFlag)
  {
    f != NoCarrier && Bit(mask, Position(f))
  }

  /** A member is set in an OR exactly when it is set in either side. */
  lemma HasFlagOr(a: nat, b: nat, g: LinkFlag)
    ensures HasFlag(Or(a, b), g) <==> HasFlag(a, g) || HasFlag(b, g)
  {
    if g != NoCarrier {
      BitOfOr(a, b, Position(g));
    }
  }

  /** The only member set in a member's own value is that member. */
  lemma HasFlagOfMember(f: LinkFlag, g: LinkFlag)
    ensures HasFlag(FlagValue(f), g) <==> f == g && f != NoCarrier
  {
    FlagValueIsPower(f);
    if g != NoCarrier {
      if f == NoCarrier {
        BitZero(Position(g));
      } else {
        BitOfPow2(Position(f), Position(g));
      }
    }
  }

  /** The RUNNING bit position. */
  const RunningPosition: nat := 6

  /** Clearing RUNNING changes the test of RUNNING only. */
  lemma ClearedHasFlag(mask: nat, g: LinkFlag)
    ensures HasFlag(ClearBit(mask, RunningPosition), g) <==> g != Running && HasFlag(mask, g)
    ensures ClearBit(mask, RunningPosition) <= mask
  {
    if g != NoCarrier {
      BitOfClearBit(mask, RunningPosition, Position(g));
    } else {
      BitOfClearBit(mask, RunningPosition, 0);
    }
  }

  /** Two flag words over the defined bits are equal when the same members
      are set in both. */
  lemma MembersDetermine(x: nat, y: nat)
    requires Defined(x) && Defined(y)
    requires forall g :: HasFlag(x, g) == HasFlag(y, g)
    ensures x == y
  {
    forall i: nat | i < 19
      ensures Bit(x, i) <==> Bit(y, i)
    {
      PositionOfFlagAt(i);
      assert HasFlag(x, FlagAt(i)) == HasFlag(y, FlagAt(i));
    }
    Pow2Table();
    BitsDetermine(x, y, 19);
  }

  /** OR of the values of the members in `fs` (the flag word they stand for). */
  function Combine(fs: seq<LinkFlag>): nat
  {
    if fs == [] then 0 else Or(FlagValue(fs[0]), Combine(fs[1..]))
  }

  /** The members set in `Combine(fs)` are exactly the named members of `fs`,
      and `Combine(fs)` uses the defined bits only. */
  lemma {:induction false} CombineFacts(fs: seq<LinkFlag>)
    ensures forall g :: HasFlag(Combine(fs), g) <==> g in fs && g != NoCarrier
    ensures Defined(Combine(fs))
  {
    if fs == [] {
      forall g | g != NoCarrier
        ensures !HasFlag(0, g)
      {
        BitZero(Position(g));
      }
    } else {
      var h := fs[0];
      var c := Combine(fs[1..]);
      CombineFacts(fs[1..]);
      assert fs == [h] + fs[1..];
      forall g
        ensures HasFlag(Combine(fs), g) <==> g in fs && g != NoCarrier
      {
        HasFlagOr(FlagValue(h), c, g);
        HasFlagOfMember(h, g);
      }
      FlagValueIsPower(h);
      Pow2Table();
      OrBelow(FlagValue(h), c, 19);
    }
  }

  predicate NoDuplicates(fs: seq<LinkFlag>)
  {
    forall i, j :: 0 <= i < j < |fs| ==> fs[i] != fs[j]
  }

  /** Putting `x` in front of a list keeps it duplicate-free exactly when
      the list was duplicate-free and did not hold `x`. */
  lemma ConsDistinct(x: LinkFlag, s: seq<LinkFlag>)
    ensures NoDuplicates([x] + s) <==> x !in s && NoDuplicates(s)
  {
    var xs := [x] + s;
    assert forall i :: 0 <= i < |s| ==> xs[i + 1] == s[i];
    if x in s {
      var k :| 0 <= k < |s| && s[k] == x;
      assert xs[0] == xs[k + 1];
    }
    if NoDuplicates(xs) {
      forall i, j | 0 <= i < j < |s|
        ensures s[i] != s[j]
      {
        assert xs[i + 1] != xs[j + 1];
      }
    }
  }

  /** A duplicate-free list whose only element is `x` is `[x]`. */
  lemma OnlyElement(s: seq<LinkFlag>, x: LinkFlag)
    requires NoDuplicates(s) && x in s
    requires forall y :: y in s ==> y == x
    ensures s == [x]
  {
    if |s| >= 2 {
      FirstTwoIn(s);
      assert false;
    }
  }

  lemma FirstTwoIn(s: seq<LinkFlag>)
    ensures |s| >= 2 ==> s[0] in s && s[1] in s
  {
  }

  /** The members at bit positions below `n` that are set in `mask`, highest
      position first (the order in which the decomposition lists them). */
  function SetBelow(mask: nat, n: nat): seq<LinkFlag>
    requires n <= 19
  {
    if n == 0 then []
    else (if HasFlag(mask, FlagAt(n - 1)) then [FlagAt(n - 1)] else []) + SetBelow(mask, n - 1)
  }

  lemma {:induction false} SetBelowContents(mask: nat, n: nat)
    requires n <= 19
    ensures forall f :: f in SetBelow(mask, n) <==> HasFlag(mask, f) && Position(f) < n
  {
    if n > 0 {
      SetBelowContents(mask, n - 1);
      PositionOfFlagAt(n - 1);
    }
  }

  lemma {:induction false} SetBelowDistinct(mask: nat, n: nat)
    requires n <= 19
    ensures NoDuplicates(SetBelow(mask, n))
  {
    if n > 0 {
      SetBelowDistinct(mask, n - 1);
      SetBelowContents(mask, n - 1);
      PositionOfFlagAt(n - 1);
      ConsDistinct(FlagAt(n - 1), SetBelow(mask, n - 1));
    }
  }

  /** Removing RUNNING from the selected members is the same as selecting
      from the word with RUNNING cleared. */
  lemma {:induction false} SetBelowClearRunning(mask: nat, n: nat)
    requires n <= 19
    ensures RemoveFirst(SetBelow(mask, n), Running) == SetBelow(ClearBit(mask, RunningPosition), n)
  {
    if n > 0 {
      SetBelowClearRunning(mask, n - 1);
      if FlagAt(n - 1) == Running {
        ClearRunningStepAtRunning(mask, n);
      } else {
        ClearRunningStepElsewhere(mask, n);
      }
    }
  }

  /** The induction step of `SetBelowClearRunning` at RUNNING's own position. */
  lemma ClearRunningStepAtRunning(mask: nat, n: nat)
    requires 0 < n <= 19 && FlagAt(n - 1) == Running
    requires RemoveFirst(SetBelow(mask, n - 1), Running) == SetBelow(ClearBit(mask, RunningPosition), n - 1)
    ensures RemoveFirst(SetBelow(mask, n), Running) == SetBelow(ClearBit(mask, RunningPosition), n)
  {
    var rest := SetBelow(mask, n - 1);
    var cleared := ClearBit(mask, RunningPosition);
    ClearedHasFlag(mask, Running);
    assert SetBelow(cleared, n) == SetBelow(cleared, n - 1);
    if HasFlag(mask, Running) {
      RemoveFirstCons(Running, rest, Running);
      SetBelowContents(mask, n - 1);
      PositionOfFlagAt(n - 1);
      RemoveFirstAbsent(rest, Running);
    }
  }

  /** The induction step of `SetBelowClearRunning` at any other position. */
  lemma ClearRunningStepElsewhere(mask: nat, n: nat)
    requires 0 < n <= 19 && FlagAt(n - 1) != Running
    requires RemoveFirst(SetBelow(mask, n - 1), Running) == SetBelow(ClearBit(mask, RunningPosition), n - 1)
    ensures RemoveFirst(SetBelow(mask, n), Running) == SetBelow(ClearBit(mask, RunningPosition), n)
  {
    var g := FlagAt(n - 1);
    var rest := SetBelow(mask, n - 1);
    var cleared := ClearBit(mask, RunningPosition);
    ClearedHasFlag(mask, g);
    if HasFlag(mask, g) {
      assert SetBelow(mask, n) == [g] + rest;
      RemoveFirstCons(g, rest, Running);
      assert SetBelow(cleared, n) == [g] + SetBelow(cleared, n - 1);
    } else {
      assert SetBelow(mask, n) == rest;
      assert SetBelow(cleared, n) == SetBelow(cleared, n - 1);
    }
  }

  /** The named members set in `mask`, highest bit first. */
  function Members(mask: nat): seq<LinkFlag>
  {
    SetBelow(mask, 19)
  }

  /** `Members` lists exactly the members set in `mask`, once each, and
      removing RUNNING from it is the same as clearing the RUNNING bit. */
  lemma MembersFacts(mask: nat)
    ensures forall f :: f in Members(mask) <==> HasFlag(mask, f)
    ensures NoDuplicates(Members(mask))
    ensures RemoveFirst(Members(mask), Running) == Members(ClearBit(mask, RunningPosition))
  {
    SetBelowContents(mask, 19);
    SetBelowDistinct(mask, 19);
    SetBelowClearRunning(mask, 19);
  }

  /** A named member's value has that member alone. */
  lemma MembersOfMember(f: LinkFlag)
    requires f != NoCarrier
    ensures Members(FlagValue(f)) == [f]
  {
    MembersFacts(FlagValue(f));
    forall g
      ensures g in Members(FlagValue(f)) <==> g == f
    {
      HasFlagOfMember(f, g);
    }
    OnlyElement(Members(FlagValue(f)), f);
  }

  /** The members of a flag word as the enumeration's decomposition finds
      them: the set members, or `NoCarrier` (the member of value 0) for 0. */
  function FlagMembers(mask: nat): seq<LinkFlag>
  {
    if mask == 0 then [NoCarrier] else Members(mask)
  }

  /** `xs` without the first occurrence of `x` (Python's `list.remove`, except
      that an absent `x` leaves the list unchanged instead of raising, which
      the caller catches). */
  function RemoveFirst(xs: seq<LinkFlag>, x: LinkFlag): seq<LinkFlag>
  {
    if xs == [] then []
    else if xs[0] == x then xs[1..]
    else [xs[0]] + RemoveFirst(xs[1..], x)
  }

  lemma RemoveFirstCons(y: LinkFlag, ys: seq<LinkFlag>, x: LinkFlag)
    ensures RemoveFirst([y] + ys, x) == if y == x then ys else [y] + RemoveFirst(ys, x)
  {
    assert ([y] + ys)[0] == y && ([y] + ys)[1..] == ys;
  }

  /** Removing an absent element leaves the list unchanged. */
  lemma {:induction false} RemoveFirstAbsent(xs: seq<LinkFlag>, x: LinkFlag)
    requires x !in xs
    ensures RemoveFirst(xs, x) == xs
  {
    if xs != [] {
      assert xs == [xs[0]] + xs[1..];
      RemoveFirstAbsent(xs[1..], x);
    }
  }

  /** Removing takes away exactly one occurrence of `x`, if there is one,
      and keeps every other element. */
  lemma {:induction false} RemoveFirstCounts(xs: seq<LinkFlag>, x: LinkFlag)
    ensures multiset(RemoveFirst(xs, x)) == multiset(xs) - multiset{x}
  {
    if xs != [] {
      var ys := xs[1..];
      assert xs == [xs[0]] + ys;
      assert multiset(xs) == multiset{xs[0]} + multiset(ys);
      RemoveFirstCounts(ys, x);
      if xs[0] != x {
        assert multiset(RemoveFirst(xs, x)) == multiset{xs[0]} + multiset(RemoveFirst(ys, x));
      }
    }
  }

  /** The display list of a flag word, `tuple(LinkFlag(mask))`: a word that
      decomposes to one member stands for that member; otherwise RUNNING is
      dropped, and `NoCarrier` is put first when RUNNING was clear. */
  function Decompose(mask: nat): seq<LinkFlag>
    requires Defined(mask)
  {
    var members := FlagMembers(mask);
    if |members| == 1 then members
    else
      var marked := if Running in members then members else [NoCarrier] + members;
      RemoveFirst(marked, Running)
  }

  /** Over the defined bits, the decomposition finds exactly one member
      precisely when the word is some member's value (0 included). */
  lemma MemberCount(mask: nat)
    requires Defined(mask)
    ensures |FlagMembers(mask)| == 1 <==> NamedMember(mask).Some?
  {
    if NamedMember(mask).Some? {
      var h := NamedMember(mask).value;
      if h != NoCarrier {
        MembersOfMember(h);
      }
    } else if mask != 0 && |Members(mask)| == 1 {
      var ms := Members(mask);
      var f := ms[0];
      MembersFacts(mask);
      assert ms == [f];
      FlagValueIsPower(f);
      forall g
        ensures HasFlag(mask, g) == HasFlag(FlagValue(f), g)
      {
        HasFlagOfMember(f, g);
      }
      MembersDetermine(mask, FlagValue(f));
      assert false;
    }
  }

  /** A value that is exactly one member decomposes to that member alone:
      0 gives `[NoCarrier]`, UP alone `[UP]`, RUNNING alone `[RUNNING]`. */
  lemma DecomposeSingleMember(f: LinkFlag)
    ensures Defined(FlagValue(f)) && Decompose(FlagValue(f)) == [f]
  {
    FlagValueIsPower(f);
    if f != NoCarrier {
      MembersOfMember(f);
    }
  }

  /** The display list of a word that is no single member's value: `NoCarrier`
      when RUNNING is clear, then the set members other than RUNNING. */
  lemma DecomposeMultiShape(mask: nat)
    requires Defined(mask) && NamedMember(mask).None?
    ensures Decompose(mask) ==
      (if HasFlag(mask, Running) then [] else [NoCarrier]) + Members(ClearBit(mask, RunningPosition))
  {
    MemberCount(mask);
    MembersFacts(mask);
    var ms := Members(mask);
    assert FlagMembers(mask) == ms;
    if !HasFlag(mask, Running) {
      RemoveFirstCons(NoCarrier, ms, Running);
    }
  }

  /** The display list of a word that is no single member's value: RUNNING
      never appears; `NoCarrier` appears, and then first, exactly when RUNNING
      was clear; the other entries are exactly the set members except RUNNING;
      nothing is repeated; and OR-ing the list gives back the word with
      RUNNING cleared. */
  lemma DecomposeMultiMember(mask: nat)
    requires Defined(mask) && NamedMember(mask).None?
    ensures var r := Decompose(mask);
      && Running !in r
      && NoDuplicates(r)
      && (NoCarrier in r <==> !HasFlag(mask, Running))
      && (NoCarrier in r ==> r[0] == NoCarrier)
      && (forall g :: g != NoCarrier ==> (g in r <==> g != Running && HasFlag(mask, g)))
      && Combine(r) == ClearBit(mask, RunningPosition)
  {
    DecomposeMultiShape(mask);
    var cleared := ClearBit(mask, RunningPosition);
    MembersFacts(cleared);
    var ms := Members(cleared);
    var r := Decompose(mask);
    forall g
      ensures g in ms <==> g != Running && HasFlag(mask, g)
    {
      ClearedHasFlag(mask, g);
    }
    if !HasFlag(mask, Running) {
      ConsDistinct(NoCarrier, ms);
    }
    CombineFacts(r);
    MembersDetermine(Combine(r), cleared);
  }

  /** 4099 is UP | BROADCAST | MULTICAST. */
  lemma Example4099Members(mask: nat)
    requires mask == 4099
    ensures forall g :: HasFlag(mask, g) <==> g == LinkFlag.Up || g == Broadcast || g == Multicast
  {
    var fs := [Multicast, Broadcast, LinkFlag.Up];
    Pow2Table();
    OrPow2Below(0, 0);
    OrPow2Below(1, 1);
    OrPow2Below(12, 3);
    assert Combine(fs[2..]) == 1;
    assert Combine(fs[1..]) == 3;
    assert Combine(fs) == 4099;
    CombineFacts(fs);
  }

  /** The worked example of the source: 4099 (UP, BROADCAST, MULTICAST, with
      RUNNING clear) shows as NO-CARRIER first, followed by exactly those
      three, once each. */
  lemma DecomposeExample4099(mask: nat)
    requires mask == 4099
    ensures var r := Decompose(mask);
      && NoDuplicates(r)
      && (forall g :: g in r <==> g == NoCarrier || g == LinkFlag.Up || g == Broadcast || g == Multicast)
      && r[0] == NoCarrier
  {
    assert NamedMember(mask).None?;
    Example4099Members(mask);
    DecomposeMultiMember(mask);
  }

  /** 65609 is UP | LOOPBACK | RUNNING | LOWER_UP, the flags of a loopback
      interface that is up. */
  lemma LoopbackFlagsValue(fs: seq<LinkFlag>)
    requires fs == [LowerUp, Running, LinkFlag.Loopback, LinkFlag.Up]
    ensures Combine(fs) == 65609
  {
    Pow2Table();
    OrPow2Below(0, 0);
    OrPow2Below(3, 1);
    OrPow2Below(6, 9);
    OrPow2Below(16, 73);
    assert Combine(fs[3..]) == 1;
    assert Combine(fs[2..]) == 9;
    assert Combine(fs[1..]) == 73;
  }

  lemma Example65609Members(mask: nat)
    requires mask == 65609
    ensures forall g :: HasFlag(mask, g) <==> g == LinkFlag.Up || g == LinkFlag.Loopback || g == Running || g == LowerUp
  {
    var fs := [LowerUp, Running, LinkFlag.Loopback, LinkFlag.Up];
    LoopbackFlagsValue(fs);
    CombineFacts(fs);
  }

  /** The loopback flags 65609 show as UP, LOOPBACK and LOWER_UP: RUNNING is
      dropped and, since it was set, no NO-CARRIER is added. */
  lemma DecomposeExample65609(mask: nat)
    requires mask == 65609
    ensures var r := Decompose(mask);
      && NoDuplicates(r)
      && forall g :: g in r <==> g == LinkFlag.Up || g == LinkFlag.Loopback || g == LowerUp
  {
    assert NamedMember(mask).None?;
    Example65609Members(mask);
    DecomposeMultiMember(mask);
  }

  /** UP | RUNNING is 0x41, with exactly those two members. */
  lemma UpRunningMembers(mask: nat)
    requires mask == Or(FlagValue(Running), FlagValue(LinkFlag.Up))
    ensures mask == 0x41
    ensures forall g :: HasFlag(mask, g) <==> g == Running || g == LinkFlag.Up
  {
    var fs := [Running, LinkFlag.Up];
    Pow2Table();
    OrPow2Below(0, 0);
    OrPow2Below(6, 1);
    assert Combine(fs[1..]) == 1;
    assert Combine(fs) == 0x41;
    CombineFacts(fs);
  }

  /** Because a single member stands for itself, UP alone displays the same
      as UP together with RUNNING: the missing carrier is not shown. */
  lemma LoneUpHidesMissingCarrier(mask: nat)
    requires mask == Or(FlagValue(Running), FlagValue(LinkFlag.Up))
    ensures mask == 0x41 && Decompose(mask) == Decompose(FlagValue(LinkFlag.Up)) == [LinkFlag.Up]
  {
    UpRunningMembers(mask);
    assert NamedMember(mask).None?;
    DecomposeSingleMember(LinkFlag.Up);
    DecomposeMultiShape(mask);
    var cleared := ClearBit(mask, RunningPosition);
    forall g
      ensures HasFlag(cleared, g) == HasFlag(FlagValue(LinkFlag.Up), g)
    {
      ClearedHasFlag(mask, g);
      HasFlagOfMember(LinkFlag.Up, g);
    }
    MembersDetermine(cleared, FlagValue(LinkFlag.Up));
    MembersOfMember(LinkFlag.Up);
  }

  // ---------------------------------------------------------------------------
  // Link (hardware) type
  // ---------------------------------------------------------------------------

  /** Display names of the ARP hardware types, codes 0 to 32. */
  function ArpHardwareName(code: int): Option<string>
  {
    match code
    case 0 => Some("netrom")
    case 1 => Some("ether")
    case 2 => Some("eether")
    case 3 => Some("ax25")
    case 4 => Some("pronet")
    case 5 => Some("chaos")
    case 6 => Some("ieee802")
    case 7 => Some("arcnet")
    case 8 => Some("atalk")
    case 15 => Some("dlci")
    case 19 => Some("atm")
    case 23 => Some("metricom")
    case 24 => Some("ieee1394")
    case 32 => Some("infiniband")
    case _ => None
  }

  /** Display names of the dummy types for non-ARP hardware, codes 256 to 280. */
  function NonArpName(code: int): Option<string>
  {
    match code
    case 256 => Some("slip")
    case 257 => Some("cslip")
    case 258 => Some("slip6")
    case 259 => Some("cslip6")
    case 260 => Some("rsrvd")
    case 264 => Some("adapt")
    case 270 => Some("rose")
    case 271 => Some("x25")
    case 272 => Some("hwx25")
    case 280 => Some("can")
    case _ => None
  }

  /** Display names of the PPP and HDLC family, codes 512 to 518. */
  function SerialName(code: int): Option<string>
  {
    match code
    case 512 => Some("ppp")
    case 513 => Some("hdlc")
    case 516 => Some("lapb")
    case 517 => Some("ddcmp")
    case 518 => Some("rawhdlc")
    case _ => None
  }

  /** Display names of tunnels and other virtual devices, codes 768 to 783. */
  function VirtualName(code: int): Option<string>
  {
    match code
    case 768 => Some("ipip")
    case 769 => Some("tunnel6")
    case 770 => Some("frad")
    case 771 => Some("skip")
    case 772 => Some("loopback")
    case 773 => Some("ltalk")
    case 774 => Some("fddi")
    case 775 => Some("bif")
    case 776 => Some("sit")
    case 777 => Some("ip/ddp")
    case 778 => Some("gre")
    case 779 => Some("pimreg")
    case 780 => Some("hippi")
    case 781 => Some("ash")
    case 782 => Some("econet")
    case 783 => Some("irda")
    case _ => None
  }

  /** Display names of the Fibre Channel types, codes 784 to 799. */
  function FibreChannelName(code: int): Option<string>
  {
    match code
    case 784 => Some("fcpp")
    case 785 => Some("fcal")
    case 786 => Some("fcpl")
    case 787 => Some("fcfb0")
    case 788 => Some("fcfb1")
    case 789 => Some("fcfb2")
    case 790 => Some("fcfb3")
    case 791 => Some("fcfb4")
    case 792 => Some("fcfb5")
    case 793 => Some("fcfb6")
    case 794 => Some("fcfb7")
    case 795 => Some("fcfb8")
    case 796 => Some("fcfb9")
    case 797 => Some("fcfb10")
    case 798 => Some("fcfb11")
    case 799 => Some("fcfb12")
    case _ => None
  }

  /** Display names of token ring, wireless and later media types, codes 800 to 825. */
  function MediaName(code: int): Option<string>
  {
    match code
    case 800 => Some("tr")
    case 801 => Some("ieee802.11")
    case 802 => Some("ieee802.11/prism")
    case 803 => Some("ieee802.11/radiotap")
    case 804 => Some("ieee802.15.4")
    case 805 => Some("ieee802.15.4/monitor")
    case 820 => Some("phonet")
    case 821 => Some("phonet_pipe")
    case 822 => Some("caif")
    case 823 => Some("gre6")
    case 824 => Some("netlink")
    case 825 => Some("6lowpan")
    case _ => None
  }

  /** Display names of the two header-less types, codes 65534 and 65535. */
  function NoHeaderName(code: int): Option<string>
  {
    match code
    case 65534 => Some("none")
    case 65535 => Some("void")
    case _ => None
  }

  /** The display name of a kernel hardware-type code (an ARPHRD_* value), if
      the table has it. Codes 27 (EUI64), 519 (RAWIP) and 826 (VSOCKMON) exist
      in the kernel but are deliberately absent. */
  function LinkTypeName(code: int): Option<string>
  {
    if code < 256 then ArpHardwareName(code)
    else if code < 512 then NonArpName(code)
    else if code < 768 then SerialName(code)
    else if code < 784 then VirtualName(code)
    else if code < 800 then FibreChannelName(code)
    else if code < 65534 then MediaName(code)
    else NoHeaderName(code)
  }

  /** A member of the integer-valued hardware-type enumeration is its kernel
      code; the codes are exactly those the table names. */
  type LinkType = code: int | LinkTypeName(code).Some? witness 1

  const EtherType: LinkType := 1
  const LoopbackType: LinkType := 772

  /** The display form of a type, `str(link_type)`. */
  function LinkTypeText(t: LinkType): string
  {
    LinkTypeName(t).value
  }

  /** Lookup of a type by kernel code, `LinkType(code)`: a code in the table
      gives the member carrying exactly that code; any other code is
      rejected. */
  function LinkTypeFromCode(code: int): (r: Option<LinkType>)
    ensures r.Some? ==> r.value == code
    ensures r.None? <==> LinkTypeName(code).None?
  {
    if LinkTypeName(code).Some? then Some(code) else None
  }

  /** The lookup is a partial injective map: two codes that give the same
      member are the same code, and every member is found again from its
      code. */
  lemma LinkTypeLookupExact(a: int, b: int, t: LinkType)
    ensures LinkTypeFromCode(a).Some? && LinkTypeFromCode(a) == LinkTypeFromCode(b) ==> a == b
    ensures LinkTypeFromCode(t) == Some(t)
  {
  }

  /** The lookup table names exactly the codes the enumeration declares,
      listed here in declaration order. */
  lemma LinkTypeCodes(code: int)
    ensures LinkTypeName(code).Some? <==> code in {
      0, 1, 2, 3, 4, 5, 6, 7, 8, 15, 19, 23, 24, 32, 256, 257, 258, 259, 260, 264, 270, 271, 272,
      280, 512, 513, 516, 517, 518, 768, 769, 770, 771, 772, 773, 774, 775, 776, 777, 778, 779,
      780, 781, 782, 783, 784, 785, 786, 787, 788, 789, 790, 791, 792, 793, 794, 795, 796, 797,
      798, 799, 800, 801, 802, 803, 804, 805, 820, 821, 822, 823, 824, 825, 65535, 65534}
  {
  }

  /** Display examples of the table, and the three kernel codes it leaves out. */
  lemma LinkTypeExamples()
    ensures LinkTypeFromCode(1) == Some(EtherType) && LinkTypeText(EtherType) == "ether"
    ensures LinkTypeFromCode(768).Some? && LinkTypeText(768) == "ipip"
    ensures LinkTypeFromCode(772) == Some(LoopbackType) && LinkTypeText(LoopbackType) == "loopback"
    ensures LinkTypeFromCode(65535).Some? && LinkTypeText(65535) == "void"
    ensures LinkTypeFromCode(65534).Some? && LinkTypeText(65534) == "none"
    ensures LinkTypeFromCode(27).None? && LinkTypeFromCode(519).None? && LinkTypeFromCode(826).None?
  {
  }
}
