# linetface decode layer in Dafny

linetface turns the kernel's netlink link messages into records shaped like the
entries of `ip -j -d link`. This project models the decode layer of that library.
It models the value registry (`linetface/consts.py`), the record shapes and the
Linux display of hardware addresses (`linetface/core.py`), and the link decoder
(`linetface/hand.py`). It proves what these promise.

There are four modules:

- `Outcomes` defines `Option` and `Result`.
- `Consts` covers the registry:
  - the operational states and link modes, with their lookups;
  - the 19 interface flags and the `NO_CARRIER` sentinel, modelled over `nat`
    masks with explicit bit arithmetic (`Bit`, `Or`, `ClearBit`);
  - the custom flag iteration `Decompose`;
  - the hardware-type table `LinkTypeName`.

  A `LinkType` member is its kernel code. `LinkType` is the subtype of codes the
  table names, because the source enumeration is an `int` enumeration.
- `Core` covers the records:
  - `IPCommonInfo`, `IPLink`, `AddrInfo` and `IPAddr`;
  - the six-octet `Mac` and its `aa:bb:cc:dd:ee:ff` display;
  - `to_dict`, a sequence of (field, value) pairs keyed by the record's fields
    in declaration order, with a reader `FromDict` that inverts it.
- `Hand` covers the decoder:
  - a link message is its header integers (`index`, `flags`, `ifi_type`) plus
    the attributes the decoder reads, each optional;
  - `ShinifyLink` decodes one message;
  - `GetLinks` maps the decoder over a given list of messages.

## Model

| member | source | states |
|---|---|---|
| Consts.OperStateText | linetface/consts.py:8-18 | a state displays as its string value; `OperStateFromText` and `OperStateRoundTrip` state that the seven displays are exactly the accepted strings |
| Consts.OperStateFromText | linetface/consts.py:8-18 | `OperState(text)` accepts exactly the seven state strings; a hit displays as the text looked up, and a miss means no state displays as that text |
| Consts.OperStateRoundTrip | linetface/consts.py:8-18 | every state is found again from its display string |
| Consts.LinkModeFromValue | linetface/consts.py:21-23 | `LinkMode(code)` accepts exactly 0 and 1, giving the mode that carries the code; any other code is rejected |
| Consts.LinkModeRoundTrip | linetface/consts.py:21-26 | every mode is found again from its code, and the two modes have different display names |
| Consts.LinkModeText | linetface/consts.py:25-26 | a mode displays as its name, `DEFAULT` or `DORMANT`; `LinkModeRoundTrip` states that the two names differ |
| Consts.Pow2Table | linetface/consts.py:33-51 | the shifted constants `1 << 0` … `1 << 18` and the first undefined bit `1 << 19` as numbers |
| Consts.FlagValueIsPower | linetface/consts.py:32-51 | `NO_CARRIER` is exactly the zero member; every other flag is the single bit `1 << position`, inside the 19 defined bits |
| Consts.FlagValuesDistinct | linetface/consts.py:32-51 | two different flags have different values and share no bit |
| Consts.PositionOfFlagAt | linetface/consts.py:33-51 | the position table and the member table are inverse on the 19 bit positions |
| Consts.NamedMember | linetface/consts.py:32-51 | a value names a member exactly when some flag has that value, and then names that flag |
| Consts.FlagText | linetface/consts.py:53-58 | the display of a member: `NO-CARRIER` for the sentinel and the member name otherwise; `FlagTextInjective` states that no two members display alike |
| Consts.FlagTextInjective | linetface/consts.py:53-58 | flag display names are unambiguous: `NO-CARRIER` for the sentinel and the member name otherwise |
| Consts.BitOfOr | linetface/consts.py:29-51 | bit `i` of an OR is set iff it is set in either operand |
| Consts.BitOfClearBit | linetface/consts.py:75-80 | clearing a bit removes exactly that bit and never increases the mask |
| Consts.BitsDetermine | linetface/consts.py:29-51 | two masks below `2^n` that agree on every bit below `n` are equal |
| Consts.HasFlagOr | linetface/consts.py:29-51 | a flag is in an OR of masks iff it is in one of them |
| Consts.HasFlagOfMember | linetface/consts.py:32-51 | the value of flag `f` contains flag `g` iff they are the same non-sentinel flag |
| Consts.ClearedHasFlag | linetface/consts.py:75-80 | clearing `RUNNING` removes `RUNNING` and keeps every other flag |
| Consts.MembersDetermine | linetface/consts.py:29-51 | a defined mask is determined by the flags it contains |
| Consts.CombineFacts | linetface/consts.py:61-81 | OR-ing a list of flags gives a defined mask that contains exactly the non-sentinel flags of the list |
| Consts.ConsDistinct | linetface/consts.py:61-81 | a list with a head has no duplicates iff the head is not in the tail and the tail has no duplicates |
| Consts.OnlyElement | linetface/consts.py:69-72 | a duplicate-free list all of whose elements are `x` and which contains `x` is `[x]` |
| Consts.SetBelowContents | linetface/consts.py:69 | the members collected from the lowest `n` positions are exactly the flags of the mask at those positions |
| Consts.SetBelowDistinct | linetface/consts.py:69 | the collected members have no duplicates |
| Consts.SetBelowClearRunning | linetface/consts.py:77-80 | removing `RUNNING` from the collected members gives the members of the mask with `RUNNING` cleared |
| Consts.MembersFacts | linetface/consts.py:69 | the members of a mask are exactly its flags, without duplicates; removing `RUNNING` from them gives the members of the mask with `RUNNING` cleared |
| Consts.MembersOfMember | linetface/consts.py:69-72 | the members of a single flag's value are that flag alone |
| Consts.RemoveFirstCons | linetface/consts.py:77-80 | `list.remove` removes the first occurrence: the head if it matches, otherwise from the tail |
| Consts.RemoveFirstAbsent | linetface/consts.py:77-80 | removing an absent member leaves the list unchanged, as the suppressed `ValueError` does |
| Consts.RemoveFirstCounts | linetface/consts.py:77-80 | when the member is present, removal takes out exactly one occurrence of it, and nothing else changes |
| Consts.Decompose | linetface/consts.py:61-81 | the custom iteration: the members `_decompose` collects, yielded as they are when there is one, otherwise with `NO_CARRIER` inserted at the front when `RUNNING` is absent and `RUNNING` removed; its properties are the `Decompose…` lemmas below |
| Consts.MemberCount | linetface/consts.py:69-70 | the decomposition has exactly one member iff the value is a named member (including 0, `NO_CARRIER`) |
| Consts.DecomposeSingleMember | linetface/consts.py:69-72 | a value that is exactly one flag, including 0 and `RUNNING` alone, iterates to that flag alone |
| Consts.DecomposeMultiShape | linetface/consts.py:69-81 | a value that is not a single member iterates to `NO_CARRIER` when `RUNNING` is clear, followed by the members of the mask without `RUNNING` |
| Consts.DecomposeMultiMember | linetface/consts.py:69-81 | for a value that is not a single member: no `RUNNING` and no duplicates in the output; `NO_CARRIER` appears iff `RUNNING` is clear, and then first; the other flags are exactly the set bits other than `RUNNING`; OR-ing the output gives the mask with `RUNNING` cleared |
| Consts.DecomposeExample4099 | linetface/consts.py:66 | 4099 iterates to `NO_CARRIER` first, followed by `UP`, `BROADCAST` and `MULTICAST` in an unstated order, without duplicates |
| Consts.LoopbackFlagsValue | linetface/consts.py:33-49 | the OR of `LOWER_UP`, `RUNNING`, `LOOPBACK` and `UP` is 65609 |
| Consts.DecomposeExample65609 | linetface/consts.py:69-81 | 65609 iterates to exactly `UP`, `LOOPBACK` and `LOWER_UP`, without duplicates |
| Consts.LoneUpHidesMissingCarrier | linetface/consts.py:69-72 | `UP` with `RUNNING` and `UP` alone both iterate to `[UP]` |
| Consts.LinkTypeName | linetface/consts.py:98-183 | the code-to-display table of the enumeration; `LinkTypeCodes` states which codes it names and `LinkTypeExamples` what some of them display |
| Consts.LinkTypeText | linetface/consts.py:95-96 | a type displays as its table entry |
| Consts.LinkTypeCodes | linetface/consts.py:98-183 | the table names exactly the 75 codes the enumeration declares, 0 to 825 with the gaps of the declaration, and 65534 and 65535 |
| Consts.LinkTypeFromCode | linetface/consts.py:88-183 | `LinkType(code)` succeeds exactly on the codes the table names, and gives the member carrying that code |
| Consts.LinkTypeLookupExact | linetface/consts.py:88-93 | the lookup is injective and finds every member from its own code |
| Consts.LinkTypeExamples | linetface/consts.py:95-183 | 1 shows "ether", 768 "ipip", 772 "loopback", 65535 "void" and 65534 "none"; codes 27, 519 and 826 are rejected |
| Core.LinuxMac | linetface/core.py:11-14 | a hardware address is accepted iff it is present and six octets long, and then is kept unchanged |
| Core.HexDigitValue | linetface/core.py:7 | lowercase hex digit and digit value are inverse |
| Core.JoinOctetsShape | linetface/core.py:7 | joined octets have length `3n-1`, with ':' at every third place and the octets' two digits in between |
| Core.MacText | linetface/core.py:7-14 | the `mac_unix_expanded` display of a MAC; `MacTextShape`, `MacRoundTrip` and `ParseMacCanonical` state its shape and that `ParseMac` inverts it |
| Core.MacTextShape | linetface/core.py:7-14 | a MAC displays as 17 characters: six two-digit lowercase hex groups joined by ':' |
| Core.MacRoundTrip | linetface/core.py:11-14 | reading back the display of a MAC gives the MAC |
| Core.ParseMacCanonical | linetface/core.py:11-14 | every string that reads as a MAC is exactly the display of that MAC |
| Core.MacTextInjective | linetface/core.py:11-14 | different MACs display differently |
| Core.FieldPosition | linetface/core.py:17-50 | every field of the link record has a place in the declaration order |
| Core.PositionOfField | linetface/core.py:17-50 | each place in the declaration order holds a different field |
| Core.FieldNamesDistinct | linetface/core.py:24-50 | the twenty attribute names are pairwise different |
| Core.LookupEntry | linetface/core.py:52-53 | in a mapping with distinct keys, looking up an entry's key gives its value |
| Core.LookupMissing | linetface/core.py:52-53 | a key no entry carries is not found |
| Core.ToDict | linetface/core.py:52-53 | `to_dict`: one (field, value) entry per field in declaration order; `ToDictKeys` and `ToDictRoundTrip` state its keys and that `FromDict` inverts it |
| Core.ToDictDistinct | linetface/core.py:52-53 | `to_dict` has one entry per field, with no key twice |
| Core.ReadToDict | linetface/core.py:52-53 | every field of the record is found in `to_dict` with the record's value |
| Core.ToDictKeys | linetface/core.py:52-53 | `to_dict` is keyed by exactly the record's fields, and their names are pairwise distinct |
| Core.CommonFromFaithfulDict | linetface/core.py:17-42 | a mapping that holds the value of every common field reads back as those common fields |
| Core.CommonRoundTrip | linetface/core.py:17-53 | the common fields survive `to_dict` followed by reading back |
| Core.ToDictRoundTrip | linetface/core.py:44-53 | a link record survives `to_dict` followed by reading back: the mapping loses no field |
| Hand.DigitsRoundTrip | linetface/hand.py:16 | the decimal digits of `n` are non-empty digits without a leading zero, and read back as `n` |
| Hand.DecimalTextInjective | linetface/hand.py:16 | `str(n)` differs for different integers and starts with a digit or '-' |
| Hand.GroupName | linetface/hand.py:13-16 | the group attribute as displayed: "default" for 0, `str` of the attribute otherwise (so a missing group is "None"); `GroupNameInjective` states that no two groups display alike |
| Hand.GroupNameInjective | linetface/hand.py:12-16 | group names are unambiguous: "default" is group 0 only, and no number shows like another or like "None" |
| Hand.GroupNameExamples | linetface/hand.py:14-16 | group 0 shows "default", 5 shows "5", 1000 shows "1000" |
| Hand.OperStateLookup | linetface/hand.py:12-23 | the state lookup of an attribute succeeds iff it is present and a state's display string, and then gives that state back |
| Hand.LinkModeLookup | linetface/hand.py:24 | the mode lookup of an attribute succeeds iff it is present and a mode's code, and then gives that mode back |
| Hand.ArgumentsCover | linetface/hand.py:17-30 | the twelve arguments the decoder passes to `IPLink` miss `promiscuity` and seven other fields; with those eight added, every field is passed |
| Hand.ShinifyLink | linetface/hand.py:10-30 | with every record field passed, decoding fails exactly when one of the lookups fails, and then with that lookup's error; it never fails for missing arguments |
| Hand.ShinifyLinkSpec | linetface/hand.py:10-30 | decoding succeeds iff the state, mode and type lookups succeed and both addresses are 6-octet MACs. On success: flags are the decomposition of the header flags; `ifindex` comes from `index`; name, MTU, qdisc and queue length are copied; the group is named; the looked-up values display as the attributes; the unfilled fields are `None`. On failure: the first failing lookup in argument order (state, mode, type, address, broadcast) is reported, with the value it rejected |
| Hand.ShinifyLinkAsWritten | linetface/hand.py:10-30 | `shinify_link` as written: the same lookups, then the record constructor given only the twelve arguments of the call; `AsWrittenNeverDecodes` states that it never yields a record |
| Hand.AsWrittenNeverDecodes | linetface/hand.py:17-30 | the decoder as written fails on every message: with the lookup error when a lookup fails, and with the missing-arguments error exactly when the corrected decoder succeeds |
| Hand.LoopbackDecodes | linetface/hand.py:10-30 | the loopback message decodes to "lo" with flags `UP`, `LOOPBACK` and `LOWER_UP`, group "default", type "loopback" and address "00:00:00:00:00:00"; as written it fails |
| Hand.LoopbackLookups | linetface/hand.py:23-29 | every lookup of the loopback message succeeds with `UNKNOWN`, `DEFAULT`, loopback and the zero MACs |
| Hand.MapDecode | linetface/hand.py:35-38 | the listing loop over a decoder succeeds iff every message decodes, and then holds one record per message in order; otherwise it reports the error of the first message that fails |
| Hand.GetLinks | linetface/hand.py:33-38 | listing with the corrected decoder succeeds iff every message decodes, and then holds each message's record at its index; otherwise it reports the error of the first message that fails |
| Hand.GetLinksAsWritten | linetface/hand.py:33-38 | `get_links` as written, the same loop over the written decoder: it succeeds only on an empty message list, giving no links |

## Left out

- Netlink transport: the `IPRoute` socket and its `get_links()` request are not modelled. `GetLinks` takes the list of messages as a parameter.
- Addresses: the kernel's address attributes reach the model as octet sequences, and parsing by the netaddr `EUI` class is not modelled. Core.LinuxMac accepts only a present address of exactly six octets. An absent address reaches `LinuxMAC(None)`, which raises, so the model makes it a decode error. Rejecting every other length is the model's own restriction. What netaddr does with other lengths, EUI-64 included, is not modelled, and neither is what the transport delivers for such interfaces.
- Flag masks with bits outside the 19 defined positions are excluded by the precondition `Defined`. Python gives them nameless pseudo-members, and the model does not.
- Consts.DecomposeMultiMember: the order of the non-sentinel members is not stated. It comes from the standard library's private `enum._decompose`. The model lists members in descending bit value, but no contract depends on that order.
- Consts.FlagTextInjective: the `__str__` fallback for nameless values is not modelled, for the same reason as the undefined bits.
- Consts.LinkTypeFromCode: a member of the int enumeration is represented by its code. Identity of enumeration objects therefore coincides with equality of codes.
- The `ipaddress` types are opaque numbers. `AddrInfo` and `IPAddr` are declared but never built, because no code in the library constructs them.
- `ifindex` is declared `str` but filled with the integer header index. The model uses `int`.
- `to_dict` uses `dataclasses.asdict`, which deep-copies the flag list, the enumeration members and the MACs. The model keeps these as values of their own types instead of modelling copies.
- Hand.ShinifyLink: the corrected decoder passes `None` for `promiscuity`, `min_mtu`, `max_mtu`, `num_tx_queues`, `num_rx_queues`, `gso_max_size`, `gso_max_segs` and `inet6_addr_gen_mode`. It does not decode them from their attributes. The library has no code for decoding them, so that decoding is out of scope.
- `linetface/__init__.py` (version glue) and the test module are not modelled.

## Findings

| source | as written | input that shows it | evidently intended | confidence | as-written member | corrected member |
|---|---|---|---|---|---|---|
| linetface/hand.py:17-30 | `IPLink(...)` receives 12 keyword arguments. The dataclass (linetface/core.py:17-50) declares 20 fields without defaults, so construction raises `TypeError` whenever every lookup succeeds | the loopback message: index 1, "lo", flags 65609, type 772, state "UNKNOWN", mode 0, group 0, zero MACs | one record per link, with the eight fields the call leaves out filled from their own attributes (the test module compares `max_mtu` and `inet6_addr_gen_mode` with what `ip` prints) | not executed | Hand.ShinifyLinkAsWritten | Hand.ShinifyLink |

Two consequences of the code worth knowing:

- An absent `IFLA_ADDRESS` is passed straight to `LinuxMAC(None)`, which raises. It does not give an absent address.
- Flags 65609 include `LOWER_UP` (bit 16), so a loopback link lists `LOWER_UP` alongside `UP` and `LOOPBACK`.
