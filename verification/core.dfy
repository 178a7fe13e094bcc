/** The record shapes of the link decoder and the Linux display format of
    hardware addresses. Mirrors linetface/core.py. */
module Core {
  import opened Outcomes
  import opened Consts

  // ---------------------------------------------------------------------------
  // Hardware addresses
  // ---------------------------------------------------------------------------

  newtype Octet = x: int | 0 <= x < 256

  /** A 48-bit hardware address, most significant octet first. */
  type Mac = s: seq<Octet> | |s| == 6 witness [0, 0, 0, 0, 0, 0]

  /** A hardware address as the decoder receives it: a MAC when it is
      six octets long, rejected otherwise (absent or of another length). */
  function LinuxMac(raw: Option<seq<Octet>>): (r: Option<Mac>)
    ensures r.Some? <==> raw.Some? && |raw.value| == 6
    ensures r.Some? ==> r.value == raw.value
  {
    if raw.Some? && |raw.value| == 6 then Some(raw.value) else None
  }

  predicate IsLowerHex(c: char)
  {
    '0' <= c <= '9' || 'a' <= c <= 'f'
  }

  /** The lowercase hexadecimal digit of `d`. */
  function HexDigit(d: int): (c: char)
    requires 0 <= d < 16
    ensures IsLowerHex(c)
  {
    if d < 10 then ('0' as int + d) as char else ('a' as int + d - 10) as char
  }

  /** The value of a lowercase hexadecimal digit. */
  function HexValue(c: char): int
    requires IsLowerHex(c)
  {
    if c <= '9' then c as int - '0' as int else c as int - 'a' as int + 10
  }

  lemma HexDigitValue(d: int, c: char)
    requires 0 <= d < 16 && IsLowerHex(c)
    ensures HexValue(HexDigit(d)) == d
    ensures HexDigit(HexValue(c)) == c
  {
  }

  /** An octet as two lowercase hexadecimal digits, `%.2x`. */
  function OctetText(o: Octet): string
  {
    [HexDigit(o as int / 16), HexDigit(o as int % 16)]
  }

  /** Octets joined by ':'. */
  function JoinOctets(os: seq<Octet>): string
    requires |os| >= 1
  {
    if |os| == 1 then OctetText(os[0]) else OctetText(os[0]) + ":" + JoinOctets(os[1..])
  }

  /** The `mac_unix_expanded` display of a MAC, as `ip` prints it:
      `aa:bb:cc:dd:ee:ff`. */
  function MacText(m: Mac): string
  {
    JoinOctets(m)
  }

  /** The shape of a displayed MAC: 17 characters, a ':' at every third
      place and lowercase hexadecimal digits elsewhere. */
  predicate IsMacText(s: string)
  {
    |s| == 17 && forall i :: 0 <= i < 17 ==> if i % 3 == 2 then s[i] == ':' else IsLowerHex(s[i])
  }

  /** Reading a displayed MAC back: two digits per octet. */
  function ParseMac(s: string): (r: Option<Mac>)
  {
    if IsMacText(s) then
      Some(seq(6, k requires 0 <= k < 6 => (HexValue(s[3 * k]) * 16 + HexValue(s[3 * k + 1])) as Octet))
    else None
  }

  /** Character `i` of the joined text is a ':' at every third place and
      otherwise digit `i % 3` of octet `i / 3`. */
  lemma {:induction false} JoinOctetsShape(os: seq<Octet>)
    requires |os| >= 1
    ensures |JoinOctets(os)| == 3 * |os| - 1
    ensures forall i :: 0 <= i < 3 * |os| - 1 ==>
      JoinOctets(os)[i] == if i % 3 == 2 then ':' else OctetText(os[i / 3])[i % 3]
  {
    if |os| > 1 {
      var rest := os[1..];
      JoinOctetsShape(rest);
      var s := JoinOctets(os);
      var h := OctetText(os[0]) + ":";
      assert s == h + JoinOctets(rest);
      forall i | 0 <= i < 3 * |os| - 1
        ensures s[i] == if i % 3 == 2 then ':' else OctetText(os[i / 3])[i % 3]
      {
        if i >= 3 {
          assert s[i] == JoinOctets(rest)[i - 3];
          assert (i - 3) / 3 == i / 3 - 1 && (i - 3) % 3 == i % 3;
          assert rest[(i - 3) / 3] == os[i / 3];
        }
      }
    }
  }

  /** An octet is recovered from its two digits. */
  lemma OctetDigits(o: Octet)
    ensures HexValue(HexDigit(o as int / 16)) * 16 + HexValue(HexDigit(o as int % 16)) == o as int
  {
    HexDigitValue(o as int / 16, '0');
    HexDigitValue(o as int % 16, '0');
  }

  /** Every displayed MAC has the display shape, octet `k` occupying places
      `3k` and `3k + 1`. */
  lemma MacTextShape(m: Mac)
    ensures IsMacText(MacText(m))
    ensures forall k :: 0 <= k < 6 ==>
      MacText(m)[3 * k] == HexDigit(m[k] as int / 16) && MacText(m)[3 * k + 1] == HexDigit(m[k] as int % 16)
  {
    JoinOctetsShape(m);
    var s := MacText(m);
    forall k | 0 <= k < 6
      ensures s[3 * k] == HexDigit(m[k] as int / 16) && s[3 * k + 1] == HexDigit(m[k] as int % 16)
    {
      assert (3 * k) / 3 == k && (3 * k) % 3 == 0;
      assert (3 * k + 1) / 3 == k && (3 * k + 1) % 3 == 1;
    }
  }

  /** Displaying a MAC and reading it back gives the same MAC. */
  lemma MacRoundTrip(m: Mac)
    ensures ParseMac(MacText(m)) == Some(m)
  {
    MacTextShape(m);
    var s := MacText(m);
    var p := ParseMac(s).value;
    forall k | 0 <= k < 6
      ensures p[k] == m[k]
    {
      OctetDigits(m[k]);
    }
    assert p == m;
  }

  /** The display form is canonical: a text that reads as a MAC is exactly
      that MAC's display. */
  lemma {:induction false} ParseMacCanonical(s: string)
    requires ParseMac(s).Some?
    ensures MacText(ParseMac(s).value) == s
  {
    var m := ParseMac(s).value;
    JoinOctetsShape(m);
    var t := MacText(m);
    forall i | 0 <= i < 17
      ensures t[i] == s[i]
    {
      if i % 3 != 2 {
        var k := i / 3;
        var hi := s[3 * k];
        var lo := s[3 * k + 1];
        assert 3 * k % 3 == 0 && (3 * k + 1) % 3 == 1;
        HexDigitValue(0, hi);
        HexDigitValue(0, lo);
        var o := HexValue(hi) * 16 + HexValue(lo);
        assert m[k] as int == o;
        assert o / 16 == HexValue(hi) && o % 16 == HexValue(lo);
      }
    }
  }

  /** Different MACs never display alike. */
  lemma MacTextInjective(m: Mac, n: Mac)
    ensures MacText(m) == MacText(n) ==> m == n
  {
    MacRoundTrip(m);
    MacRoundTrip(n);
  }

  // ---------------------------------------------------------------------------
  // Records
  // ---------------------------------------------------------------------------

  /** An IPv4 or IPv6 address, kept opaque. */
  datatype IpAddress = IPv4Address(v4: nat) | IPv6Address(v6: nat)

  /** The fields a link and an address listing share, in declaration order.
      Attribute values the kernel may omit are optional; so are the counters
      the decoder never fills. */
  datatype IPCommonInfo = IPCommonInfo(
    ifindex: int,
    ifname: Option<string>,
    flags: seq<LinkFlag>,
    mtu: Option<int>,
    qdisc: Option<string>,
    operstate: OperState,
    group: string,
    txqlen: Option<int>,
    linkType: LinkType,
    address: Mac,
    broadcast: Mac,
    promiscuity: Option<int>,
    minMtu: Option<int>,
    maxMtu: Option<int>,
    numTxQueues: Option<int>,
    numRxQueues: Option<int>,
    gsoMaxSize: Option<int>,
    gsoMaxSegs: Option<int>)

  /** One entry of `ip -j -d link`: every common field, then the link mode
      and the IPv6 address-generation mode. */
  datatype IPLink = IPLink(common: IPCommonInfo, linkmode: LinkMode, inet6AddrGenMode: Option<string>)

  /** One address of an interface; `broadcast` may be absent and the
      booleans and label are optional. */
  datatype AddrInfo = AddrInfo(
    family: string,
    local: IpAddress,
    prefixlen: string,
    broadcast: Option<IpAddress>,
    scope: string,
    dynamic: Option<bool>,
    mngtmpaddr: Option<bool>,
    noprefixroute: Option<bool>,
    addrLabel: Option<string>,
    validLifeTime: int,
    preferredLifeTime: int)

  /** One entry of `ip -j -d addr`: the common fields and the interface's
      addresses in order; no link mode and no generation mode. */
  datatype IPAddr = IPAddr(common: IPCommonInfo, addrInfo: seq<AddrInfo>)

  // ---------------------------------------------------------------------------
  // Conversion to a mapping
  // ---------------------------------------------------------------------------

  /** The fields of a link record. */
  datatype Field =
    | Ifindex | Ifname | Flags | Mtu | Qdisc | Operstate | Group | Txqlen | LinkTypeField
    | Address | BroadcastField | Promiscuity | MinMtu | MaxMtu | NumTxQueues | NumRxQueues
    | GsoMaxSize | GsoMaxSegs | Linkmode | Inet6AddrGenMode

  /** The record's fields in declaration order (inherited fields first). */
  const LinkFields: seq<Field> := [
    Ifindex, Ifname, Flags, Mtu, Qdisc, Operstate, Group, Txqlen, LinkTypeField,
    Address, BroadcastField, Promiscuity, MinMtu, MaxMtu, NumTxQueues, NumRxQueues,
    GsoMaxSize, GsoMaxSegs, Linkmode, Inet6AddrGenMode]

  /** The attribute name of a field. */
  function FieldName(f: Field): string
  {
    match f
    case Ifindex => "ifindex"
    case Ifname => "ifname"
    case Flags => "flags"
    case Mtu => "mtu"
    case Qdisc => "qdisc"
    case Operstate => "operstate"
    case Group => "group"
    case Txqlen => "txqlen"
    case LinkTypeField => "link_type"
    case Address => "address"
    case BroadcastField => "broadcast"
    case Promiscuity => "promiscuity"
    case MinMtu => "min_mtu"
    case MaxMtu => "max_mtu"
    case NumTxQueues => "num_tx_queues"
    case NumRxQueues => "num_rx_queues"
    case GsoMaxSize => "gso_max_size"
    case GsoMaxSegs => "gso_max_segs"
    case Linkmode => "linkmode"
    case Inet6AddrGenMode => "inet6_addr_gen_mode"
  }

  /** The place of a field in declaration order. */
  function FieldPosition(f: Field): (i: nat)
    ensures i < |LinkFields| && LinkFields[i] == f
  {
    match f
    case Ifindex => 0
    case Ifname => 1
    case Flags => 2
    case Mtu => 3
    case Qdisc => 4
    case Operstate => 5
    case Group => 6
    case Txqlen => 7
    case LinkTypeField => 8
    case Address => 9
    case BroadcastField => 10
    case Promiscuity => 11
    case MinMtu => 12
    case MaxMtu => 13
    case NumTxQueues => 14
    case NumRxQueues => 15
    case GsoMaxSize => 16
    case GsoMaxSegs => 17
    case Linkmode => 18
    case Inet6AddrGenMode => 19
  }

  lemma PositionOfField(i: nat)
    requires i < |LinkFields|
    ensures FieldPosition(LinkFields[i]) == i
  {
  }

  /** No two fields share a name. */
  lemma FieldNamesDistinct(f: Field, g: Field)
    ensures FieldName(f) == FieldName(g) ==> f == g
  {
  }

  /** A value of the mapping: the field's own value (`asdict` copies enum
      members and addresses as they are); `NoValue` is `None`. */
  datatype Value =
    | NoValue | IntValue(n: int) | TextValue(s: string) | FlagList(fs: seq<LinkFlag>)
    | StateValue(st: OperState) | ModeValue(m: LinkMode) | TypeValue(t: LinkType) | MacValue(mac: Mac)

  function OptInt(x: Option<int>): Value
  {
    if x.Some? then IntValue(x.value) else NoValue
  }

  function OptText(x: Option<string>): Value
  {
    if x.Some? then TextValue(x.value) else NoValue
  }

  /** The value the mapping holds for a field. */
  function FieldValue(l: IPLink, f: Field): Value
  {
    var c := l.common;
    match f
    case Ifindex => IntValue(c.ifindex)
    case Ifname => OptText(c.ifname)
    case Flags => FlagList(c.flags)
    case Mtu => OptInt(c.mtu)
    case Qdisc => OptText(c.qdisc)
    case Operstate => StateValue(c.operstate)
    case Group => TextValue(c.group)
    case Txqlen => OptInt(c.txqlen)
    case LinkTypeField => TypeValue(c.linkType)
    case Address => MacValue(c.address)
    case BroadcastField => MacValue(c.broadcast)
    case Promiscuity => OptInt(c.promiscuity)
    case MinMtu => OptInt(c.minMtu)
    case MaxMtu => OptInt(c.maxMtu)
    case NumTxQueues => OptInt(c.numTxQueues)
    case NumRxQueues => OptInt(c.numRxQueues)
    case GsoMaxSize => OptInt(c.gsoMaxSize)
    case GsoMaxSegs => OptInt(c.gsoMaxSegs)
    case Linkmode => ModeValue(l.linkmode)
    case Inet6AddrGenMode => OptText(l.inet6AddrGenMode)
  }

  /** A mapping with its entries in insertion order, as a Python dict keeps
      them. */
  type Dict = seq<(Field, Value)>

  /** The value stored under `k`; the first entry wins. */
  function Lookup(d: Dict, k: Field): Option<Value>
  {
    if d == [] then None else if d[0].0 == k then Some(d[0].1) else Lookup(d[1..], k)
  }

  predicate DistinctKeys(d: Dict)
  {
    forall a, b :: 0 <= a < b < |d| ==> d[a].0 != d[b].0
  }

  /** In a mapping without repeated keys, an entry's key finds that entry. */
  lemma {:induction false} LookupEntry(d: Dict, i: nat)
    requires DistinctKeys(d) && i < |d|
    ensures Lookup(d, d[i].0) == Some(d[i].1)
  {
    if i > 0 {
      assert d[0].0 != d[i].0;
      assert d[1..][i - 1] == d[i];
      LookupEntry(d[1..], i - 1);
    }
  }

  /** A key no entry carries finds nothing. */
  lemma {:induction false} LookupMissing(d: Dict, k: Field)
    requires forall i :: 0 <= i < |d| ==> d[i].0 != k
    ensures Lookup(d, k).None?
  {
    if d != [] {
      assert forall i :: 0 <= i < |d[1..]| ==> d[1..][i] == d[i + 1];
      LookupMissing(d[1..], k);
    }
  }

  /** `to_dict()`: the record as a mapping from field name to field value,
      in declaration order. */
  function ToDict(l: IPLink): Dict
  {
    seq(|LinkFields|, i requires 0 <= i < |LinkFields| => (LinkFields[i], FieldValue(l, LinkFields[i])))
  }

  /** An optional integer field: an integer or `None`. */
  function ReadInt(d: Dict, f: Field): Option<Option<int>>
  {
    var v :- Lookup(d, f);
    match v
    case NoValue => Some(None)
    case IntValue(n) => Some(Some(n))
    case _ => None
  }

  /** An optional text field: a string or `None`. */
  function ReadText(d: Dict, f: Field): Option<Option<string>>
  {
    var v :- Lookup(d, f);
    match v
    case NoValue => Some(None)
    case TextValue(s) => Some(Some(s))
    case _ => None
  }

  /** Rebuilding the common fields from a mapping; fails when a field is
      missing or its value has the wrong kind. */
  function CommonFromDict(d: Dict): Option<IPCommonInfo>
  {
    var ifindex := Lookup(d, Ifindex);
    var flags := Lookup(d, Flags);
    var operstate := Lookup(d, Operstate);
    var group := Lookup(d, Group);
    var linkType := Lookup(d, LinkTypeField);
    var address := Lookup(d, Address);
    var broadcast := Lookup(d, BroadcastField);
    var ifname := ReadText(d, Ifname);
    var mtu := ReadInt(d, Mtu);
    var qdisc := ReadText(d, Qdisc);
    var txqlen := ReadInt(d, Txqlen);
    var promiscuity := ReadInt(d, Promiscuity);
    var minMtu := ReadInt(d, MinMtu);
    var maxMtu := ReadInt(d, MaxMtu);
    var numTxQueues := ReadInt(d, NumTxQueues);
    var numRxQueues := ReadInt(d, NumRxQueues);
    var gsoMaxSize := ReadInt(d, GsoMaxSize);
    var gsoMaxSegs := ReadInt(d, GsoMaxSegs);
    if && ifindex.Some? && ifindex.value.IntValue?
       && flags.Some? && flags.value.FlagList?
       && operstate.Some? && operstate.value.StateValue?
       && group.Some? && group.value.TextValue?
       && linkType.Some? && linkType.value.TypeValue?
       && address.Some? && address.value.MacValue?
       && broadcast.Some? && broadcast.value.MacValue?
       && ifname.Some? && mtu.Some? && qdisc.Some? && txqlen.Some? && promiscuity.Some?
       && minMtu.Some? && maxMtu.Some? && numTxQueues.Some? && numRxQueues.Some?
       && gsoMaxSize.Some? && gsoMaxSegs.Some?
    then
      Some(IPCommonInfo(ifindex.value.n, ifname.value, flags.value.fs, mtu.value, qdisc.value,
        operstate.value.st, group.value.s, txqlen.value, linkType.value.t, address.value.mac,
        broadcast.value.mac, promiscuity.value, minMtu.value, maxMtu.value,
        numTxQueues.value, numRxQueues.value, gsoMaxSize.value, gsoMaxSegs.value))
    else None
  }

  /** Rebuilding a link record from a mapping. */
  function FromDict(d: Dict): Option<IPLink>
  {
    var common := CommonFromDict(d);
    var linkmode := Lookup(d, Linkmode);
    var genMode := ReadText(d, Inet6AddrGenMode);
    if common.Some? && linkmode.Some? && linkmode.value.ModeValue? && genMode.Some?
    then Some(IPLink(common.value, linkmode.value.m, genMode.value))
    else None
  }

  /** No key of `to_dict()` is repeated. */
  lemma ToDictDistinct(l: IPLink)
    ensures DistinctKeys(ToDict(l))
  {
    var d := ToDict(l);
    forall a, b | 0 <= a < b < |d|
      ensures d[a].0 != d[b].0
    {
      PositionOfField(a);
      PositionOfField(b);
      FieldNamesDistinct(LinkFields[a], LinkFields[b]);
    }
  }

  /** The mapping holds each field's value under the field's name. */
  lemma ReadToDict(l: IPLink, f: Field)
    ensures Lookup(ToDict(l), f) == Some(FieldValue(l, f))
  {
    ToDictDistinct(l);
    LookupEntry(ToDict(l), FieldPosition(f));
  }

  /** The mapping is keyed by exactly the record's fields, in declaration
      order, and its keys have pairwise-distinct names. */
  lemma ToDictKeys(l: IPLink)
    ensures forall f :: Lookup(ToDict(l), f).Some?
    ensures forall a, b :: 0 <= a < b < |ToDict(l)| ==> FieldName(ToDict(l)[a].0) != FieldName(ToDict(l)[b].0)
  {
    var d := ToDict(l);
    forall f
      ensures Lookup(d, f).Some?
    {
      ReadToDict(l, f);
    }
    forall a, b | 0 <= a < b < |d|
      ensures FieldName(d[a].0) != FieldName(d[b].0)
    {
      PositionOfField(a);
      PositionOfField(b);
      FieldNamesDistinct(LinkFields[a], LinkFields[b]);
    }
  }

  lemma ReadIntOf(d: Dict, f: Field, x: Option<int>)
    requires Lookup(d, f) == Some(OptInt(x))
    ensures ReadInt(d, f) == Some(x)
  {
  }

  lemma ReadTextOf(d: Dict, f: Field, x: Option<string>)
    requires Lookup(d, f) == Some(OptText(x))
    ensures ReadText(d, f) == Some(x)
  {
  }

  /** A mapping that holds every common field of `c` under its name
      rebuilds `c`. */
  lemma CommonFromFaithfulDict(d: Dict, c: IPCommonInfo)
    requires Lookup(d, Ifindex) == Some(IntValue(c.ifindex))
    requires Lookup(d, Flags) == Some(FlagList(c.flags))
    requires Lookup(d, Operstate) == Some(StateValue(c.operstate))
    requires Lookup(d, Group) == Some(TextValue(c.group))
    requires Lookup(d, LinkTypeField) == Some(TypeValue(c.linkType))
    requires Lookup(d, Address) == Some(MacValue(c.address))
    requires Lookup(d, BroadcastField) == Some(MacValue(c.broadcast))
    requires ReadText(d, Ifname) == Some(c.ifname)
    requires ReadText(d, Qdisc) == Some(c.qdisc)
    requires ReadInt(d, Mtu) == Some(c.mtu)
    requires ReadInt(d, Txqlen) == Some(c.txqlen)
    requires ReadInt(d, Promiscuity) == Some(c.promiscuity)
    requires ReadInt(d, MinMtu) == Some(c.minMtu)
    requires ReadInt(d, MaxMtu) == Some(c.maxMtu)
    requires ReadInt(d, NumTxQueues) == Some(c.numTxQueues)
    requires ReadInt(d, NumRxQueues) == Some(c.numRxQueues)
    requires ReadInt(d, GsoMaxSize) == Some(c.gsoMaxSize)
    requires ReadInt(d, GsoMaxSegs) == Some(c.gsoMaxSegs)
    ensures CommonFromDict(d) == Some(c)
  {
  }

  /** The common part of `to_dict()` rebuilds the common fields. */
  lemma CommonRoundTrip(l: IPLink)
    ensures CommonFromDict(ToDict(l)) == Some(l.common)
  {
    CommonRequiredEntries(l);
    CommonOptionalEntries(l);
    CommonLimitEntries(l);
    CommonFromFaithfulDict(ToDict(l), l.common);
  }

  /** The mapping holds the seven always-present common fields. */
  lemma CommonRequiredEntries(l: IPLink)
    ensures var d := ToDict(l); var c := l.common;
      && Lookup(d, Ifindex) == Some(IntValue(c.ifindex))
      && Lookup(d, Flags) == Some(FlagList(c.flags))
      && Lookup(d, Operstate) == Some(StateValue(c.operstate))
      && Lookup(d, Group) == Some(TextValue(c.group))
      && Lookup(d, LinkTypeField) == Some(TypeValue(c.linkType))
      && Lookup(d, Address) == Some(MacValue(c.address))
      && Lookup(d, BroadcastField) == Some(MacValue(c.broadcast))
  {
    ReadToDict(l, Ifindex);
    ReadToDict(l, Flags);
    ReadToDict(l, Operstate);
    ReadToDict(l, Group);
    ReadToDict(l, LinkTypeField);
    ReadToDict(l, Address);
    ReadToDict(l, BroadcastField);
  }

  /** The mapping holds the optional names and sizes of the common record. */
  lemma CommonOptionalEntries(l: IPLink)
    ensures var d := ToDict(l); var c := l.common;
      && ReadText(d, Ifname) == Some(c.ifname)
      && ReadText(d, Qdisc) == Some(c.qdisc)
      && ReadInt(d, Mtu) == Some(c.mtu)
      && ReadInt(d, Txqlen) == Some(c.txqlen)
      && ReadInt(d, Promiscuity) == Some(c.promiscuity)
  {
    var d := ToDict(l);
    var c := l.common;
    ReadToDict(l, Ifname);
    ReadTextOf(d, Ifname, c.ifname);
    ReadToDict(l, Qdisc);
    ReadTextOf(d, Qdisc, c.qdisc);
    ReadToDict(l, Mtu);
    ReadIntOf(d, Mtu, c.mtu);
    ReadToDict(l, Txqlen);
    ReadIntOf(d, Txqlen, c.txqlen);
    ReadToDict(l, Promiscuity);
    ReadIntOf(d, Promiscuity, c.promiscuity);
  }

  /** The mapping holds the optional limits of the common record. */
  lemma CommonLimitEntries(l: IPLink)
    ensures var d := ToDict(l); var c := l.common;
      && ReadInt(d, MinMtu) == Some(c.minMtu)
      && ReadInt(d, MaxMtu) == Some(c.maxMtu)
      && ReadInt(d, NumTxQueues) == Some(c.numTxQueues)
      && ReadInt(d, NumRxQueues) == Some(c.numRxQueues)
      && ReadInt(d, GsoMaxSize) == Some(c.gsoMaxSize)
      && ReadInt(d, GsoMaxSegs) == Some(c.gsoMaxSegs)
  {
    var d := ToDict(l);
    var c := l.common;
    ReadToDict(l, MinMtu);
    ReadIntOf(d, MinMtu, c.minMtu);
    ReadToDict(l, MaxMtu);
    ReadIntOf(d, MaxMtu, c.maxMtu);
    ReadToDict(l, NumTxQueues);
    ReadIntOf(d, NumTxQueues, c.numTxQueues);
    ReadToDict(l, NumRxQueues);
    ReadIntOf(d, NumRxQueues, c.numRxQueues);
    ReadToDict(l, GsoMaxSize);
    ReadIntOf(d, GsoMaxSize, c.gsoMaxSize);
    ReadToDict(l, GsoMaxSegs);
    ReadIntOf(d, GsoMaxSegs, c.gsoMaxSegs);
  }

  /** `to_dict()` loses nothing: the record can be rebuilt from it. */
  lemma ToDictRoundTrip(l: IPLink)
    ensures FromDict(ToDict(l)) == Some(l)
  {
    CommonRoundTrip(l);
    ReadToDict(l, Linkmode);
    ReadToDict(l, Inet6AddrGenMode);
    ReadTextOf(ToDict(l), Inet6AddrGenMode, l.inet6AddrGenMode);
  }
}
