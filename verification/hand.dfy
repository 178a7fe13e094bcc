/** The link decoder: one netlink link message to one `IPLink` record, and
    the listing of all links. Mirrors linetface/hand.py. */
module Hand {
  import opened Outcomes
  import opened Consts
  import opened Core

  // ---------------------------------------------------------------------------
  // Input and errors
  // ---------------------------------------------------------------------------

  /** A link message as the transport delivers it: the header integers and
      the attributes the decoder asks for, each absent when the kernel did
      not send it. */
  datatype LinkMessage = LinkMessage(
    index: int,
    flags: nat,
    ifiType: int,
    ifname: Option<string>,
    mtu: Option<int>,
    qdisc: Option<string>,
    operstate: Option<string>,
    group: Option<int>,
    txqlen: Option<int>,
    linkmode: Option<int>,
    address: Option<seq<Octet>>,
    broadcast: Option<seq<Octet>>)

  /** Why a message does not decode. The first four are the lookup failures
      (a `ValueError` from an enumeration, or the address parser rejecting
      its input); `MissingLinkArguments` is the `TypeError` of building a
      record without all its required fields. */
  datatype DecodeError =
    | UnknownOperState(text: Option<string>)
    | UnknownLinkMode(mode: Option<int>)
    | UnknownLinkType(code: int)
    | BadAddress(raw: Option<seq<Octet>>)
    | BadBroadcast(raw: Option<seq<Octet>>)
    | MissingLinkArguments

  // ---------------------------------------------------------------------------
  // Group names
  // ---------------------------------------------------------------------------

  function DigitChar(d: int): char
    requires 0 <= d < 10
  {
    ('0' as int + d) as char
  }

  predicate IsDigit(c: char)
  {
    '0' <= c <= '9'
  }

  /** The decimal digits of `n`, most significant first, without leading
      zeros. */
  function Digits(n: nat): string
  {
    if n < 10 then [DigitChar(n)] else Digits(n / 10) + [DigitChar(n % 10)]
  }

  /** The value of a string of decimal digits. */
  function DigitsValue(s: string): nat
    requires forall i :: 0 <= i < |s| ==> IsDigit(s[i])
  {
    if s == [] then 0 else DigitsValue(s[..|s| - 1]) * 10 + DigitValue(s[|s| - 1])
  }

  function DigitValue(c: char): nat
    requires IsDigit(c)
  {
    c as int - '0' as int
  }

  /** `Digits(n)` is a non-empty string of digits, with no leading zero
      unless it is "0", whose value is `n`. */
  lemma {:induction false} DigitsRoundTrip(n: nat)
    ensures |Digits(n)| >= 1 && forall i :: 0 <= i < |Digits(n)| ==> IsDigit(Digits(n)[i])
    ensures Digits(n)[0] == '0' ==> n == 0
    ensures DigitsValue(Digits(n)) == n
  {
    if n >= 10 {
      DigitsRoundTrip(n / 10);
      var s := Digits(n);
      assert s[..|s| - 1] == Digits(n / 10);
      assert s[0] == Digits(n / 10)[0];
    }
  }

  /** `str(n)` for an integer. */
  function DecimalText(n: int): string
  {
    if n < 0 then "-" + Digits(-n) else Digits(n)
  }

  /** Different integers have different decimal texts, and a decimal text
      starts with a digit or '-'. */
  lemma DecimalTextInjective(a: int, b: int)
    ensures DecimalText(a) == DecimalText(b) ==> a == b
    ensures |DecimalText(a)| >= 1 && (IsDigit(DecimalText(a)[0]) || DecimalText(a)[0] == '-')
  {
    var ma := if a < 0 then -a else a;
    var mb := if b < 0 then -b else b;
    DigitsRoundTrip(ma);
    DigitsRoundTrip(mb);
    if DecimalText(a) == DecimalText(b) {
      if a < 0 && b < 0 {
        assert Digits(ma) == DecimalText(a)[1..];
        assert Digits(mb) == DecimalText(b)[1..];
      }
    }
  }

  /** The displayed group of a link: group 0 is "default", any other group is
      its decimal number, and a missing group shows as Python's "None". */
  function GroupName(group: Option<int>): string
  {
    match group
    case None => "None"
    case Some(n) => if n == 0 then "default" else DecimalText(n)
  }

  /** Group names are unambiguous: different groups never show alike. */
  lemma GroupNameInjective(a: Option<int>, b: Option<int>)
    ensures GroupName(a) == GroupName(b) ==> a == b
  {
    if a.Some? {
      DecimalTextInjective(a.value, a.value);
    }
    if b.Some? {
      DecimalTextInjective(b.value, b.value);
    }
    if a.Some? && b.Some? {
      DecimalTextInjective(a.value, b.value);
    }
  }

  /** Group examples: 0 is "default" and 5 is "5". */
  lemma GroupNameExamples()
    ensures GroupName(Some(0)) == "default"
    ensures GroupName(Some(5)) == "5"
    ensures GroupName(Some(1000)) == "1000"
  {
  }

  // ---------------------------------------------------------------------------
  // Decoding one link
  // ---------------------------------------------------------------------------

  /** `OperState(attr)`: a missing attribute is rejected like an unknown
      string. */
  function OperStateOf(attr: Option<string>): Option<OperState>
  {
    if attr.Some? then OperStateFromText(attr.value) else None
  }

  /** `LinkMode(attr)`: a missing attribute is rejected like an unknown code. */
  function LinkModeOf(attr: Option<int>): Option<LinkMode>
  {
    if attr.Some? then LinkModeFromValue(attr.value) else None
  }

  /** The state lookup succeeds exactly on the display strings, and gives
      back the state displayed. */
  lemma OperStateLookup(attr: Option<string>)
    ensures OperStateOf(attr).Some? <==> exists s :: attr == Some(OperStateText(s))
    ensures OperStateOf(attr).Some? ==> attr == Some(OperStateText(OperStateOf(attr).value))
  {
    if exists s :: attr == Some(OperStateText(s)) {
      var s :| attr == Some(OperStateText(s));
      OperStateRoundTrip(s);
    }
  }

  /** The mode lookup succeeds exactly on the mode codes, and gives back the
      mode carrying the code. */
  lemma LinkModeLookup(attr: Option<int>)
    ensures LinkModeOf(attr).Some? <==> exists m :: attr == Some(LinkModeValue(m))
    ensures LinkModeOf(attr).Some? ==> attr == Some(LinkModeValue(LinkModeOf(attr).value))
  {
    if exists m :: attr == Some(LinkModeValue(m)) {
      var m :| attr == Some(LinkModeValue(m));
      LinkModeRoundTrip(m);
    }
  }

  /** What the lookups of one message resolve to. */
  datatype Resolved = Resolved(operstate: OperState, linkmode: LinkMode, linkType: LinkType, address: Mac, broadcast: Mac)

  /** The lookups of one message, in the order the decoder evaluates its
      keyword arguments: operational state, link mode, link type, address,
      broadcast. The flags and the group never fail. */
  function Lookups(msg: LinkMessage): Result<Resolved, DecodeError>
  {
    var operstate := OperStateOf(msg.operstate);
    if operstate.None? then Err(UnknownOperState(msg.operstate)) else
    var linkmode := LinkModeOf(msg.linkmode);
    if linkmode.None? then Err(UnknownLinkMode(msg.linkmode)) else
    var linkType := LinkTypeFromCode(msg.ifiType);
    if linkType.None? then Err(UnknownLinkType(msg.ifiType)) else
    var address := LinuxMac(msg.address);
    if address.None? then Err(BadAddress(msg.address)) else
    var broadcast := LinuxMac(msg.broadcast);
    if broadcast.None? then Err(BadBroadcast(msg.broadcast)) else
    Ok(Resolved(operstate.value, linkmode.value, linkType.value, address.value, broadcast.value))
  }

  /** The keyword arguments the decoder passes to the record constructor. */
  const DecoderArguments: set<Field> := {
    Ifindex, Ifname, Flags, Mtu, Qdisc, Operstate, Linkmode, Group, Txqlen,
    LinkTypeField, Address, BroadcastField}

  /** The record fields the decoder has no attribute for; the corrected
      decoder passes them as `None`. */
  const UnfilledArguments: set<Field> := {
    Promiscuity, MinMtu, MaxMtu, NumTxQueues, NumRxQueues, GsoMaxSize, GsoMaxSegs,
    Inet6AddrGenMode}

  /** No field of the link record has a default, so its constructor raises
      `TypeError` unless every field is passed. */
  predicate AllArguments(given: set<Field>)
  {
    forall f: Field :: f in given
  }

  /** The written arguments miss exactly the unfilled ones; together they
      are complete. */
  lemma ArgumentsCover()
    ensures AllArguments(DecoderArguments + UnfilledArguments)
    ensures !AllArguments(DecoderArguments) && Promiscuity !in DecoderArguments
    ensures DecoderArguments !! UnfilledArguments
  {
    forall f: Field
      ensures f in DecoderArguments + UnfilledArguments
    {
      match f
      case Ifindex =>
      case Ifname =>
      case Flags =>
      case Mtu =>
      case Qdisc =>
      case Operstate =>
      case Group =>
      case Txqlen =>
      case LinkTypeField =>
      case Address =>
      case BroadcastField =>
      case Promiscuity =>
      case MinMtu =>
      case MaxMtu =>
      case NumTxQueues =>
      case NumRxQueues =>
      case GsoMaxSize =>
      case GsoMaxSegs =>
      case Linkmode =>
      case Inet6AddrGenMode =>
    }
  }

  /** The decoder with the record constructor given the fields `given`:
      the lookups first, then construction, which fails unless every field
      is passed. */
  function ShinifyWith(msg: LinkMessage, given: set<Field>): Result<IPLink, DecodeError>
    requires Defined(msg.flags)
  {
    var found :- Lookups(msg);
    if !AllArguments(given) then Err(MissingLinkArguments) else
    Ok(IPLink(
      IPCommonInfo(
        ifindex := msg.index,
        ifname := msg.ifname,
        flags := Decompose(msg.flags),
        mtu := msg.mtu,
        qdisc := msg.qdisc,
        operstate := found.operstate,
        group := GroupName(msg.group),
        txqlen := msg.txqlen,
        linkType := found.linkType,
        address := found.address,
        broadcast := found.broadcast,
        promiscuity := None,
        minMtu := None,
        maxMtu := None,
        numTxQueues := None,
        numRxQueues := None,
        gsoMaxSize := None,
        gsoMaxSegs := None),
      linkmode := found.linkmode,
      inet6AddrGenMode := None))
  }

  /** The message's operational state is the display string of some state. */
  predicate KnownOperState(msg: LinkMessage)
  {
    exists s :: msg.operstate == Some(OperStateText(s))
  }

  /** The message's link mode is the code of some mode. */
  predicate KnownLinkMode(msg: LinkMessage)
  {
    exists m :: msg.linkmode == Some(LinkModeValue(m))
  }

  predicate IsMac(raw: Option<seq<Octet>>)
  {
    raw.Some? && |raw.value| == 6
  }

  /** The decoder with every field passed: the corrected `shinify_link`.
      Constructing the record can no longer fail, so it fails exactly when a
      lookup does, and with that lookup's error. */
  function ShinifyLink(msg: LinkMessage): (r: Result<IPLink, DecodeError>)
    requires Defined(msg.flags)
    ensures r.Ok? <==> Lookups(msg).Ok?
    ensures r.Err? ==> r.error == Lookups(msg).error && r.error != MissingLinkArguments
  {
    ArgumentsCover();
    ShinifyWith(msg, DecoderArguments + UnfilledArguments)
  }

  /** The corrected decoder succeeds exactly when all four lookups do, and
      then holds the header flags decomposed for display, the group named,
      the looked-up values, the copied attributes unchanged, and `None` in
      the fields with no attribute. A failed lookup reports the first
      failing one in argument order: state, mode, type, address, broadcast. */
  lemma ShinifyLinkSpec(msg: LinkMessage)
    requires Defined(msg.flags)
    ensures var r := ShinifyLink(msg);
      r.Ok? <==>
        KnownOperState(msg) && KnownLinkMode(msg) && LinkTypeName(msg.ifiType).Some?
        && IsMac(msg.address) && IsMac(msg.broadcast)
    ensures var r := ShinifyLink(msg);
      r.Ok? ==> var c := r.value.common;
        && c.ifindex == msg.index
        && c.ifname == msg.ifname && c.mtu == msg.mtu && c.qdisc == msg.qdisc && c.txqlen == msg.txqlen
        && c.flags == Decompose(msg.flags)
        && c.group == GroupName(msg.group)
        && msg.operstate == Some(OperStateText(c.operstate))
        && msg.linkmode == Some(LinkModeValue(r.value.linkmode))
        && c.linkType == msg.ifiType
        && msg.address == Some(c.address) && msg.broadcast == Some(c.broadcast)
        && c.promiscuity.None? && c.minMtu.None? && c.maxMtu.None?
        && c.numTxQueues.None? && c.numRxQueues.None? && c.gsoMaxSize.None? && c.gsoMaxSegs.None?
        && r.value.inet6AddrGenMode.None?
    ensures !KnownOperState(msg) ==> ShinifyLink(msg) == Err(UnknownOperState(msg.operstate))
    ensures KnownOperState(msg) && !KnownLinkMode(msg) ==> ShinifyLink(msg) == Err(UnknownLinkMode(msg.linkmode))
    ensures KnownOperState(msg) && KnownLinkMode(msg) && LinkTypeName(msg.ifiType).None? ==>
      ShinifyLink(msg) == Err(UnknownLinkType(msg.ifiType))
    ensures KnownOperState(msg) && KnownLinkMode(msg) && LinkTypeName(msg.ifiType).Some? && !IsMac(msg.address) ==>
      ShinifyLink(msg) == Err(BadAddress(msg.address))
    ensures (KnownOperState(msg) && KnownLinkMode(msg) && LinkTypeName(msg.ifiType).Some? && IsMac(msg.address)
      && !IsMac(msg.broadcast)) ==> ShinifyLink(msg) == Err(BadBroadcast(msg.broadcast))
  {
    OperStateLookup(msg.operstate);
    LinkModeLookup(msg.linkmode);
    ArgumentsCover();
  }

  /** `shinify_link` as written: the same lookups in the same order, then
      the record constructor given only the decoder's twelve arguments. */
  function ShinifyLinkAsWritten(msg: LinkMessage): Result<IPLink, DecodeError>
    requires Defined(msg.flags)
  {
    ShinifyWith(msg, DecoderArguments)
  }

  /** The written decoder never produces a record: it fails with the
      corrected decoder's error when a lookup fails, and with
      `MissingLinkArguments` exactly when every lookup succeeds. */
  lemma AsWrittenNeverDecodes(msg: LinkMessage)
    requires Defined(msg.flags)
    ensures ShinifyLinkAsWritten(msg).Err?
    ensures ShinifyLink(msg).Err? ==> ShinifyLinkAsWritten(msg) == ShinifyLink(msg)
    ensures ShinifyLink(msg).Ok? <==> ShinifyLinkAsWritten(msg) == Err(MissingLinkArguments)
  {
    ArgumentsCover();
  }

  /** A loopback interface that is up, with every attribute the kernel sends
      for it. */
  function LoopbackMessage(): LinkMessage
  {
    LinkMessage(
      index := 1, flags := 65609, ifiType := 772,
      ifname := Some("lo"), mtu := Some(65536), qdisc := Some("noqueue"),
      operstate := Some("UNKNOWN"), group := Some(0), txqlen := Some(1000), linkmode := Some(0),
      address := Some([0, 0, 0, 0, 0, 0]), broadcast := Some([0, 0, 0, 0, 0, 0]))
  }

  /** Every lookup of the loopback message succeeds. */
  lemma LoopbackLookups(msg: LinkMessage)
    requires msg == LoopbackMessage()
    ensures Lookups(msg) == Ok(Resolved(OperState.Unknown, LinkMode.Default, LoopbackType, [0, 0, 0, 0, 0, 0], [0, 0, 0, 0, 0, 0]))
  {
  }

  /** The all-zero MAC displays as six "00" groups. */
  lemma ZeroMacText(m: Mac)
    requires m == [0, 0, 0, 0, 0, 0]
    ensures MacText(m) == "00:00:00:00:00:00"
  {
    MacTextShape(m);
  }

  /** The loopback message decodes to "lo" with flags UP, LOOPBACK and
      LOWER_UP, group "default" and link type "loopback"; the written decoder
      rejects this same well-formed message. */
  lemma LoopbackDecodes(msg: LinkMessage)
    requires msg == LoopbackMessage()
    ensures Defined(msg.flags)
    ensures ShinifyLink(msg).Ok?
    ensures var c := ShinifyLink(msg).value.common;
      && c.ifindex == 1 && c.ifname == Some("lo")
      && (forall g :: g in c.flags <==> g == LinkFlag.Up || g == LinkFlag.Loopback || g == LowerUp)
      && c.group == "default"
      && LinkTypeText(c.linkType) == "loopback"
      && MacText(c.address) == "00:00:00:00:00:00"
    ensures ShinifyLinkAsWritten(msg) == Err(MissingLinkArguments)
  {
    LoopbackLookups(msg);
    ArgumentsCover();
    var r := ShinifyWith(msg, DecoderArguments + UnfilledArguments);
    assert r.Ok?;
    DecomposeExample65609(msg.flags);
    LinkTypeExamples();
    ZeroMacText(r.value.common.address);
  }

  // ---------------------------------------------------------------------------
  // Listing
  // ---------------------------------------------------------------------------

  /** `get_links()` over the messages the transport returned: one record per
      message, in order; the first message that does not decode aborts the
      listing with its error. */
  method GetLinks(msgs: seq<LinkMessage>) returns (r: Result<seq<IPLink>, DecodeError>)
    requires forall i :: 0 <= i < |msgs| ==> Defined(msgs[i].flags)
    ensures r.Ok? <==> forall i :: 0 <= i < |msgs| ==> ShinifyLink(msgs[i]).Ok?
    ensures r.Ok? ==> |r.value| == |msgs| && forall i :: 0 <= i < |msgs| ==> ShinifyLink(msgs[i]) == Ok(r.value[i])
    ensures r.Err? ==> exists k :: FirstFailure(msgs, k) && ShinifyLink(msgs[k]) == Err(r.error)
  {
    r := MapDecode(msgs, ShinifyLink);
  }

  /** The listing loop over any decoder: the records of the messages in
      order, or the error of the first message that does not decode. */
  method MapDecode(msgs: seq<LinkMessage>, decode: LinkMessage --> Result<IPLink, DecodeError>) returns (r: Result<seq<IPLink>, DecodeError>)
    requires forall i :: 0 <= i < |msgs| ==> decode.requires(msgs[i])
    ensures r.Ok? <==> forall i :: 0 <= i < |msgs| ==> decode(msgs[i]).Ok?
    ensures r.Ok? ==> |r.value| == |msgs| && forall i :: 0 <= i < |msgs| ==> decode(msgs[i]) == Ok(r.value[i])
    ensures r.Err? ==> exists k :: 0 <= k < |msgs| && decode(msgs[k]) == Err(r.error) && forall j :: 0 <= j < k ==> decode(msgs[j]).Ok?
  {
    var links: seq<IPLink> := [];
    var i := 0;
    while i < |msgs|
      invariant 0 <= i <= |msgs|
      invariant |links| == i
      invariant forall j :: 0 <= j < i ==> decode(msgs[j]) == Ok(links[j])
    {
      var link := decode(msgs[i]);
      if link.Err? {
        return Err(link.error);
      }
      links := links + [link.value];
      i := i + 1;
    }
    return Ok(links);
  }

  /** Message `k` is the first one that does not decode. */
  predicate FirstFailure(msgs: seq<LinkMessage>, k: int)
    requires forall i :: 0 <= i < |msgs| ==> Defined(msgs[i].flags)
  {
    && 0 <= k < |msgs| && ShinifyLink(msgs[k]).Err?
    && forall j :: 0 <= j < k ==> ShinifyLink(msgs[j]).Ok?
  }

  /** `get_links()` as written: the same loop over the written decoder. It
      succeeds only when there is nothing to list, and then gives no links. */
  method GetLinksAsWritten(msgs: seq<LinkMessage>) returns (r: Result<seq<IPLink>, DecodeError>)
    requires forall i :: 0 <= i < |msgs| ==> Defined(msgs[i].flags)
    ensures r.Ok? <==> msgs == []
    ensures r.Ok? ==> r.value == []
  {
    r := MapDecode(msgs, ShinifyLinkAsWritten);
    if msgs != [] {
      AsWrittenNeverDecodes(msgs[0]);
    }
  }
}
