/**
  Transport helpers of the routed messaging layer (src/rml/rml.c): the
  port rules applied at parameter registration, the choice of the network
  interfaces a daemon listens on, the resolution of an interface
  include/exclude list, the contact URI a daemon advertises, the mapping
  from a failed send to a process state, and the send object's initial
  values.

  The library calls the code relies on (interface matching, address
  parsing, subnet comparison, index lookups, host-name formatting) are the
  fields of a `NetLib` value: total functions the model knows nothing
  about. The interface list the PMIx library discovered is a parameter.
*/
module Rml {
  import opened Types
  import opened Strings

  // ---------------------------------------------------------------------
  // Interfaces and the network library

  datatype Family = AfInet | AfInet6 | AfOther(code: int)

  /** An entry of the discovered interface list (pmix_pif_t); of its flags only IFF_LOOPBACK matters here. */
  datatype Iface = Iface(
    name: string, index: int, kernelIndex: int, family: Family, loopback: bool,
    speed: int, addr: seq<uint8>, mask: uint32, bandwidth: int, mac: seq<uint8>, mtu: int)

  /** What pmix_ifmatches reports: the interface matches a specification, does not, or a specification is unparseable. */
  datatype MatchResult = Matched | NotMatched | NotParseable

  datatype NetLib = NetLib(
    /** pmix_ifmatches(kernel index, specifications) */
    ifMatches: (int, seq<string>) -> MatchResult,
    /** inet_pton(AF_INET, text): the address, or None when it does not parse */
    inetPton: string -> Option<seq<uint8>>,
    /** pmix_net_samenetwork(address, address, prefix length) */
    sameNetwork: (seq<uint8>, seq<uint8>, uint32) -> bool,
    /** pmix_ifindextoaddr(kernel index) */
    indexToAddr: int -> seq<uint8>,
    /** pmix_ifindextoname(kernel index) */
    indexToName: int -> string,
    /** pmix_net_get_hostname(address): the printable address */
    hostName: seq<uint8> -> string)

  /** A message payload (pmix_data_buffer_t), passed by reference and never inspected here. */
  datatype DataBuffer = DataBuffer(bytes: seq<uint8>)

  /** A message posted for local receipt (prte_rml_recv_t). */
  datatype Recv = Recv(sender: ProcName, tag: uint32, dbuf: DataBuffer)

  /** A pending send (prte_rml_send_t); send_nb writes its status. */
  class SendMsg {
    var dst: ProcName
    var origin: ProcName
    var tag: uint32
    var dbuf: Option<DataBuffer>
    var cbdata: Option<nat>
    var retries: nat
    var seqNum: uint32
    var status: Status

    /** send_cons: no retries yet, no callback data, no buffer, sequence number all ones. */
    constructor ()
      ensures retries == 0 && cbdata == None && dbuf == None && seqNum == 0xFFFF_FFFF
    {
      dst := ProcName("", 0);
      origin := ProcName("", 0);
      tag := 0;
      dbuf := None;
      cbdata := None;
      retries := 0;
      seqNum := 0xFFFF_FFFF;
      status := Success;
    }
  }

  /** An item threadshifted onto the event base: the callback it will run and its payload. */
  datatype RmlWork =
    | ProcessMessage(rcv: Recv)
    | SendNb(snd: SendMsg)
    | SendComplete(snd: SendMsg)

  /** A help message shown to the user. */
  datatype Help =
    | StaticAndDynamic(staticPorts: string, dynamicPorts: string)
    | StaticAndDynamicIpv6(staticPorts4: string, staticPorts6: string, dynamicPorts6: string)
    | NotParseableSpec
    | InvalidIfInexclude(listName: string, nodename: string, element: string, reason: BadElement)

  /** Why split_and_resolve skips an element of an include or exclude list. */
  datatype BadElement = MissingSlash | InetPtonFailed | NoMatchingInterface

  // ---------------------------------------------------------------------
  // Send failure to proc state

  /**
    prte_rml_send_callback: the process state to activate on the peer for a
    completed send, None when the send succeeded.
  */
  function SendCallback(status: Status): (r: Option<int>)
    ensures r.None? <==> status == Success
    ensures status == ErrNoPathToTarget ==> r == Some(PROC_STATE_NO_PATH_TO_TARGET)
    ensures status == ErrAddresseeUnknown ==> r == Some(PROC_STATE_PEER_UNKNOWN)
    ensures status != Success && status != ErrNoPathToTarget && status != ErrAddresseeUnknown
      ==> r == Some(PROC_STATE_UNABLE_TO_SEND_MSG)
  {
    if status == Success then None
    else if status == ErrNoPathToTarget then Some(PROC_STATE_NO_PATH_TO_TARGET)
    else if status == ErrAddresseeUnknown then Some(PROC_STATE_PEER_UNKNOWN)
    else Some(PROC_STATE_UNABLE_TO_SEND_MSG)
  }

  /** Every failed send is reported as an abnormal termination of the peer (a state above ERROR). */
  lemma SendFailureIsAbnormal(status: Status)
    requires status != Success
    ensures SendCallback(status).Some? && SendCallback(status).value > PROC_STATE_ERROR
  {
  }

  // ---------------------------------------------------------------------
  // Port parameters

  /** A port parameter as the user gave it and as the range parser split it. */
  datatype PortParam = PortParam(raw: string, parsed: seq<string>)

  /** The range parser returns at least one element: the source reads the first one unconditionally. */
  predicate ParsedOk(p: Option<PortParam>) {
    p.Some? ==> |p.value.parsed| > 0
  }

  /** A parsed port list whose first element is "-1" means no ports. */
  function PortsFrom(p: Option<PortParam>): (r: Option<seq<string>>)
    requires ParsedOk(p)
    ensures r.None? <==> (p.None? || p.value.parsed[0] == "-1")
    ensures r.Some? ==> r.value == p.value.parsed && r.value[0] != "-1"
  {
    if p.None? || p.value.parsed[0] == "-1" then None else Some(p.value.parsed)
  }

  /** The argv join of a possibly absent list, "" when absent. */
  function JoinOpt(xs: Option<seq<string>>): string {
    if xs.None? then "" else Join(xs.value, ',')
  }

  /** The user's settings of the registered parameters, after MCA processing. */
  datatype RegisterParams = RegisterParams(
    maxRetries: Option<int>, peerRetries: Option<int>,
    static4: Option<PortParam>, static6: Option<PortParam>,
    dyn4: Option<PortParam>, dyn6: Option<PortParam>,
    disable4: Option<bool>, disable6: Option<bool>)

  /**
    The retry limit as registration leaves it: max_retries and peer_retries
    are registered over the same storage, so the later one (default 2) wins.
  */
  function RegisteredRetries(p: RegisterParams): (r: int)
    ensures p.peerRetries.Some? ==> r == p.peerRetries.value
    ensures p.peerRetries.None? ==> r == 2
  {
    if p.peerRetries.Some? then p.peerRetries.value else 2
  }

  /** Setting max_retries alone has no effect on the retry limit. */
  lemma MaxRetriesSettingIgnored()
    ensures RegisteredRetries(RegisterParams(Some(10), None, None, None, None, None, None, None)) == 2
  {
  }

  /** The two limits on separate storage, as the parameter descriptions intend. */
  datatype RetryLimits = RetryLimits(maxRetries: int, peerRetries: int)

  function SeparateRetries(p: RegisterParams): (r: RetryLimits)
    ensures r.maxRetries == (if p.maxRetries.Some? then p.maxRetries.value else 3)
    ensures r.peerRetries == (if p.peerRetries.Some? then p.peerRetries.value else 2)
  {
    RetryLimits(if p.maxRetries.Some? then p.maxRetries.value else 3,
                if p.peerRetries.Some? then p.peerRetries.value else 2)
  }

  /** With separate storage the send retry limit follows max_retries, whatever peer_retries says. */
  lemma SeparateRetriesHonoursSetting(p: RegisterParams, q: RegisterParams)
    requires p.maxRetries == q.maxRetries
    ensures SeparateRetries(p).maxRetries == SeparateRetries(q).maxRetries
    ensures p.maxRetries == Some(10) ==> SeparateRetries(p).maxRetries == 10
  {
  }

  /** The registration-time port and family settings of prte_rml_base, and the help messages shown. */
  datatype PortState = PortState(
    static4: Option<seq<string>>, static6: Option<seq<string>>,
    dyn4: Option<seq<string>>, dyn6: Option<seq<string>>,
    staticPorts: bool, disable4: bool, disable6: bool, help: seq<Help>)

  /**
    The port rules of prte_rml_register, in the order the source applies
    them; the IPv6 steps exist only in an IPv6 build.
  */
  function RegisterPorts(s: PortState, p: RegisterParams, ipv6Build: bool): PortState
    requires ParsedOk(p.static4) && ParsedOk(p.static6) && ParsedOk(p.dyn4) && ParsedOk(p.dyn6)
  {
    DynamicPorts(StaticPorts(s, p, ipv6Build), p, ipv6Build)
  }

  /** The static port lists, and prte_static_ports when either survives. */
  function StaticPorts(s: PortState, p: RegisterParams, ipv6Build: bool): PortState
    requires ParsedOk(p.static4) && ParsedOk(p.static6)
  {
    var st4 := PortsFrom(p.static4);
    var st6 := if ipv6Build then PortsFrom(p.static6) else s.static6;
    s.(static4 := st4, static6 := st6, staticPorts := s.staticPorts || st4.Some? || st6.Some?)
  }

  /** The dynamic port lists and the family switches, unless static ports conflict. */
  function DynamicPorts(s: PortState, p: RegisterParams, ipv6Build: bool): PortState
    requires ParsedOk(p.dyn4) && ParsedOk(p.dyn6)
  {
    if p.dyn4.Some? && s.staticPorts then
      s.(help := s.help + [StaticAndDynamic(JoinOpt(s.static4), p.dyn4.value.raw)])
    else
      var s2 := s.(dyn4 := PortsFrom(p.dyn4));
      if ipv6Build && p.dyn6.Some? && s.staticPorts then
        s2.(help := s.help + [StaticAndDynamicIpv6(if s.static4.None? then "N/A" else JoinOpt(s.static4),
                                                   if s.static6.None? then "N/A" else JoinOpt(s.static6),
                                                   p.dyn6.value.raw)])
      else
        s2.(dyn6 := if ipv6Build then PortsFrom(p.dyn6) else s.dyn6,
            disable4 := if p.disable4.Some? then p.disable4.value else false,
            disable6 := if ipv6Build then (if p.disable6.Some? then p.disable6.value else false) else s.disable6)
  }

  /**
    Static and dynamic ports exclude each other: once static ports are set,
    dynamic IPv4 ports produce exactly one help message and leave the dynamic
    lists and the family switches as they were.
  */
  lemma StaticExcludesDynamic(s: PortState, p: RegisterParams, ipv6Build: bool)
    requires ParsedOk(p.static4) && ParsedOk(p.static6) && ParsedOk(p.dyn4) && ParsedOk(p.dyn6)
    requires p.dyn4.Some? && RegisterPorts(s, p, ipv6Build).staticPorts
    ensures var r := RegisterPorts(s, p, ipv6Build);
      && |r.help| == |s.help| + 1 && r.help[|s.help|].StaticAndDynamic?
      && r.help[|s.help|].dynamicPorts == p.dyn4.value.raw
      && r.dyn4 == s.dyn4 && r.dyn6 == s.dyn6 && r.disable4 == s.disable4 && r.disable6 == s.disable6
  {
  }

  /** A list (static or dynamic) whose first element is "-1" is recorded as no list at all. */
  lemma MinusOneMeansNoPorts(s: PortState, p: RegisterParams, ipv6Build: bool)
    requires ParsedOk(p.static4) && ParsedOk(p.static6) && ParsedOk(p.dyn4) && ParsedOk(p.dyn6)
    ensures var r := RegisterPorts(s, p, ipv6Build);
      && (p.static4.Some? && p.static4.value.parsed[0] == "-1" ==> r.static4.None?)
      && (ipv6Build && p.static6.Some? && p.static6.value.parsed[0] == "-1" ==> r.static6.None?)
      && (p.dyn4.Some? && p.dyn4.value.parsed[0] == "-1" && !r.staticPorts ==> r.dyn4.None?)
      && (r.static4.Some? ==> r.static4.value[0] != "-1")
      && (r.dyn4 != s.dyn4 && r.dyn4.Some? ==> r.dyn4.value[0] != "-1")
  {
  }

  /** Registration never clears prte_static_ports, and sets it whenever a static list survives. */
  lemma StaticFlagMonotone(s: PortState, p: RegisterParams, ipv6Build: bool)
    requires ParsedOk(p.static4) && ParsedOk(p.static6) && ParsedOk(p.dyn4) && ParsedOk(p.dyn6)
    ensures var r := RegisterPorts(s, p, ipv6Build);
      && (s.staticPorts ==> r.staticPorts)
      && (r.static4.Some? || r.static6.Some? ==> r.staticPorts)
      && |r.help| <= |s.help| + 1
  {
  }

  // ---------------------------------------------------------------------
  // Interface selection

  datatype Verdict = Skip | Keep | Abort

  /** What setup_interfaces does with one interface, given the resolved include/exclude names. */
  datatype ScanCtx = ScanCtx(keepLoopback: bool, filter: seq<string>, including: bool, ipv6: bool, net: NetLib)

  predicate FamilyEnabled(f: Family, ipv6: bool) {
    f == AfInet || (ipv6 && f == AfInet6)
  }

  function Decide(i: Iface, c: ScanCtx): Verdict {
    if i.loopback && !c.keepLoopback then Skip
    else if !FamilyEnabled(i.family, c.ipv6) then Skip
    else if StartsWith(i.name, "vir") then Skip
    else if |c.filter| == 0 then Keep
    else
      var rc := c.net.ifMatches(i.kernelIndex, c.filter);
      if rc == NotParseable then Abort
      else if c.including then (if rc == Matched then Keep else Skip)
      else (if rc == Matched then Skip else Keep)
  }

  datatype Scanned = Scanned(kept: seq<Iface>, aborted: bool)

  /** The interfaces kept, in order, up to the first unparseable specification. */
  function Scan(ifs: seq<Iface>, c: ScanCtx): Scanned
    decreases |ifs|
  {
    if ifs == [] then Scanned([], false)
    else
      match Decide(ifs[0], c)
      case Abort => Scanned([], true)
      case Skip => Scan(ifs[1..], c)
      case Keep =>
        var rest := Scan(ifs[1..], c);
        Scanned([ifs[0]] + rest.kept, rest.aborted)
  }

  /** The rules an interface that setup_interfaces keeps obeys. */
  predicate ObeysRules(i: Iface, c: ScanCtx) {
    && (i.loopback ==> c.keepLoopback)
    && FamilyEnabled(i.family, c.ipv6)
    && !StartsWith(i.name, "vir")
    && (|c.filter| > 0 ==> c.net.ifMatches(i.kernelIndex, c.filter) != NotParseable)
    && (|c.filter| > 0 && c.including ==> c.net.ifMatches(i.kernelIndex, c.filter) == Matched)
    && (|c.filter| > 0 && !c.including ==> c.net.ifMatches(i.kernelIndex, c.filter) != Matched)
  }

  /** Soundness: every kept interface is one of the list and obeys the rules. */
  lemma {:induction false} ScanSound(ifs: seq<Iface>, c: ScanCtx)
    ensures forall k :: k in Scan(ifs, c).kept ==> k in ifs && ObeysRules(k, c)
    decreases |ifs|
  {
    if ifs != [] {
      ScanSound(ifs[1..], c);
    }
  }

  /**
    Completeness: the scan aborts exactly when some interface reaches an
    unparseable specification, and otherwise keeps every interface that
    obeys the rules.
  */
  lemma {:induction false} ScanComplete(ifs: seq<Iface>, c: ScanCtx)
    ensures Scan(ifs, c).aborted <==> exists i :: 0 <= i < |ifs| && Decide(ifs[i], c) == Abort
    ensures !Scan(ifs, c).aborted ==>
      forall i :: 0 <= i < |ifs| && ObeysRules(ifs[i], c) ==> ifs[i] in Scan(ifs, c).kept
    decreases |ifs|
  {
    if ifs != [] {
      ScanComplete(ifs[1..], c);
      assert forall i :: 1 <= i < |ifs| ==> ifs[i] == ifs[1..][i - 1];
      if Decide(ifs[0], c) != Abort {
        if exists i :: 0 <= i < |ifs| && Decide(ifs[i], c) == Abort {
          var i :| 0 <= i < |ifs| && Decide(ifs[i], c) == Abort;
          assert Decide(ifs[1..][i - 1], c) == Abort;
        }
      }
    }
  }

  /** The copy appended to the local interface list: a non-positive bandwidth becomes 1. */
  function Copy(i: Iface): (r: Iface)
    ensures r.bandwidth >= 1
    ensures i.bandwidth > 0 ==> r.bandwidth == i.bandwidth
    ensures r.(bandwidth := i.bandwidth) == i
  {
    i.(bandwidth := if i.bandwidth > 0 then i.bandwidth else 1)
  }

  /** `sprintf("%d")` of the 32-bit mask: the value read as a signed 32-bit integer. */
  function MaskString(m: uint32): string {
    IntToDecimal(if m < 0x8000_0000 then m else m - 0x1_0000_0000)
  }

  /** The mask text reads back, through atoi and the unsigned conversion, as the mask. */
  lemma MaskStringRoundTrip(m: uint32)
    ensures Atoi(MaskString(m)) % 0x1_0000_0000 == m
  {
    var n: int := if m < 0x8000_0000 then m else m - 0x1_0000_0000;
    AtoiIntToDecimal(n);
    UnsignedOfSigned(m, n);
  }

  lemma UnsignedOfSigned(m: uint32, n: int)
    requires n == if m < 0x8000_0000 then m else m - 0x1_0000_0000
    ensures n % 0x1_0000_0000 == m
  {
  }

  /** The printable addresses of the kept interfaces of one family, in order. */
  function Hosts(kept: seq<Iface>, f: Family, net: NetLib): seq<string>
  {
    if kept == [] then []
    else (if kept[0].family == f then [net.hostName(kept[0].addr)] else []) + Hosts(kept[1..], f, net)
  }

  function Masks(kept: seq<Iface>): (r: seq<string>)
    ensures |r| == |kept|
  {
    if kept == [] then [] else [MaskString(kept[0].mask)] + Masks(kept[1..])
  }

  function Copies(kept: seq<Iface>): (r: seq<Iface>)
    ensures |r| == |kept|
  {
    if kept == [] then [] else [Copy(kept[0])] + Copies(kept[1..])
  }

  /** The four lists setup_interfaces appends to: IPv4 and IPv6 addresses, masks, local interfaces. */
  datatype IfLists = IfLists(v4: seq<string>, v6: seq<string>, masks: seq<string>, locals: seq<Iface>)
  {
    /** One kept interface appended: its address to its family's list, its mask, its copy. */
    function Add(i: Iface, net: NetLib): IfLists {
      IfLists(v4 + (if i.family == AfInet then [net.hostName(i.addr)] else []),
              v6 + (if i.family == AfInet6 then [net.hostName(i.addr)] else []),
              masks + [MaskString(i.mask)],
              locals + [Copy(i)])
    }

    /** The kept interfaces appended in order. */
    function Extend(kept: seq<Iface>, net: NetLib): IfLists
      decreases |kept|
    {
      if kept == [] then this else Add(kept[0], net).Extend(kept[1..], net)
    }
  }

  /** Extending the lists appends the addresses, masks and copies of the kept interfaces, in order. */
  lemma {:induction false} ExtendAppends(l: IfLists, kept: seq<Iface>, net: NetLib)
    ensures l.Extend(kept, net).v4 == l.v4 + Hosts(kept, AfInet, net)
    ensures l.Extend(kept, net).v6 == l.v6 + Hosts(kept, AfInet6, net)
    ensures l.Extend(kept, net).masks == l.masks + Masks(kept)
    ensures l.Extend(kept, net).locals == l.locals + Copies(kept)
    decreases |kept|
  {
    if kept != [] {
      var i := kept[0];
      var l1 := l.Add(i, net);
      ExtendAppends(l1, kept[1..], net);
      var h4 := if i.family == AfInet then [net.hostName(i.addr)] else [];
      var h6 := if i.family == AfInet6 then [net.hostName(i.addr)] else [];
      assert Hosts(kept, AfInet, net) == h4 + Hosts(kept[1..], AfInet, net);
      assert Hosts(kept, AfInet6, net) == h6 + Hosts(kept[1..], AfInet6, net);
      assert l1.v4 + Hosts(kept[1..], AfInet, net) == l.v4 + (h4 + Hosts(kept[1..], AfInet, net));
      assert l1.v6 + Hosts(kept[1..], AfInet6, net) == l.v6 + (h6 + Hosts(kept[1..], AfInet6, net));
      assert l1.masks + Masks(kept[1..]) == l.masks + ([MaskString(i.mask)] + Masks(kept[1..]));
      assert l1.locals + Copies(kept[1..]) == l.locals + ([Copy(i)] + Copies(kept[1..]));
    }
  }

  /**
    Each kept interface contributes exactly one address, to its own
    family's list, one mask and one local-interface entry.
  */
  lemma {:induction false} OneEntryPerInterface(kept: seq<Iface>, net: NetLib)
    requires forall k :: k in kept ==> k.family == AfInet || k.family == AfInet6
    ensures |Hosts(kept, AfInet, net)| + |Hosts(kept, AfInet6, net)| == |kept|
    ensures |Masks(kept)| == |kept| && |Copies(kept)| == |kept|
  {
    if kept != [] {
      assert kept[0] in kept;
      assert forall k :: k in kept[1..] ==> k in kept;
      OneEntryPerInterface(kept[1..], net);
    }
  }

  /** The interfaces a scan keeps are all IPv4 or IPv6, so the counts of the lists agree. */
  lemma ScanEntryCounts(ifs: seq<Iface>, c: ScanCtx)
    ensures var kept := Scan(ifs, c).kept;
      |Hosts(kept, AfInet, c.net)| + |Hosts(kept, AfInet6, c.net)| == |kept| == |Masks(kept)| == |Copies(kept)|
  {
    ScanSound(ifs, c);
    OneEntryPerInterface(Scan(ifs, c).kept, c.net);
  }

  /**
    Loopbacks are kept only by the master, and only when every interface is
    a loopback (the loop stops at the first one that is not).
  */
  method KeepLoopback(ifs: seq<Iface>, isMaster: bool) returns (keep: bool)
    ensures keep <==> isMaster && forall i :: 0 <= i < |ifs| ==> ifs[i].loopback
  {
    keep := false;
    if isMaster {
      keep := true;
      var n := 0;
      while n < |ifs|
        invariant 0 <= n <= |ifs|
        invariant keep <==> forall i :: 0 <= i < n ==> ifs[i].loopback
        invariant keep
      {
        if !ifs[n].loopback {
          keep := false;
          break;
        }
        n := n + 1;
      }
    }
  }

  // ---------------------------------------------------------------------
  // Include/exclude resolution

  predicate NoDup(s: seq<string>) {
    forall i, j :: 0 <= i < j < |s| ==> s[i] != s[j]
  }

  function AddUnique(acc: seq<string>, x: string): (r: seq<string>)
    ensures NoDup(acc) ==> NoDup(r)
    ensures forall y :: y in r <==> y in acc || y == x
  {
    if x in acc then acc else acc + [x]
  }

  /** The subnet prefix after '/': atoi's value stored in a uint32_t. */
  function Prefix(digits: string): uint32 {
    Atoi(digits) % 0x1_0000_0000
  }

  predicate SubnetMatch(a: seq<uint8>, prefix: uint32, i: Iface, net: NetLib) {
    net.sameNetwork(a, net.indexToAddr(i.kernelIndex), prefix)
  }

  /** The names of the interfaces on the subnet, added one by one without repeats. */
  function MatchFrom(acc: seq<string>, a: seq<uint8>, prefix: uint32, ifs: seq<Iface>, net: NetLib): seq<string>
    decreases |ifs|
  {
    if ifs == [] then acc
    else
      var acc' := if SubnetMatch(a, prefix, ifs[0], net) then AddUnique(acc, net.indexToName(ifs[0].kernelIndex)) else acc;
      MatchFrom(acc', a, prefix, ifs[1..], net)
  }

  /** One argv element: a name (letter first), or address/prefix resolved against the interfaces. */
  function TokenStep(acc: seq<string>, t: string, ifList: seq<Iface>, net: NetLib): seq<string> {
    if |t| > 0 && IsAlpha(t[0]) then AddUnique(acc, t)
    else
      var k := IndexOf(t, '/');
      if k == |t| then acc
      else
        match net.inetPton(t[..k])
        case None => acc
        case Some(a) => MatchFrom(acc, a, Prefix(t[k + 1..]), ifList, net)
  }

  function ResolveFrom(acc: seq<string>, ts: seq<string>, ifList: seq<Iface>, net: NetLib): seq<string>
    decreases |ts|
  {
    if ts == [] then acc else ResolveFrom(TokenStep(acc, ts[0], ifList, net), ts[1..], ifList, net)
  }

  /** The interface names split_and_resolve returns for a comma-separated specification. */
  function Resolve(spec: string, ifList: seq<Iface>, net: NetLib): seq<string> {
    ResolveFrom([], Split(spec, ','), ifList, net)
  }

  /** The names one argv element stands for. */
  ghost predicate Contributes(t: string, x: string, ifList: seq<Iface>, net: NetLib) {
    if |t| > 0 && IsAlpha(t[0]) then x == t
    else
      var k := IndexOf(t, '/');
      && k < |t|
      && net.inetPton(t[..k]).Some?
      && exists j :: 0 <= j < |ifList| && SubnetMatch(net.inetPton(t[..k]).value, Prefix(t[k + 1..]), ifList[j], net)
                                        && net.indexToName(ifList[j].kernelIndex) == x
  }

  lemma {:induction false} MatchFromSpec(acc: seq<string>, a: seq<uint8>, prefix: uint32, ifs: seq<Iface>, net: NetLib)
    ensures NoDup(acc) ==> NoDup(MatchFrom(acc, a, prefix, ifs, net))
    ensures forall x :: x in MatchFrom(acc, a, prefix, ifs, net) <==>
      x in acc || exists j :: 0 <= j < |ifs| && SubnetMatch(a, prefix, ifs[j], net) && net.indexToName(ifs[j].kernelIndex) == x
    decreases |ifs|
  {
    if ifs != [] {
      var acc' := if SubnetMatch(a, prefix, ifs[0], net) then AddUnique(acc, net.indexToName(ifs[0].kernelIndex)) else acc;
      MatchFromSpec(acc', a, prefix, ifs[1..], net);
      assert forall j :: 1 <= j < |ifs| ==> ifs[j] == ifs[1..][j - 1];
      forall x | x in MatchFrom(acc, a, prefix, ifs, net)
        ensures x in acc || exists j :: 0 <= j < |ifs| && SubnetMatch(a, prefix, ifs[j], net) && net.indexToName(ifs[j].kernelIndex) == x
      {
        if x !in acc' {
          var j :| 0 <= j < |ifs[1..]| && SubnetMatch(a, prefix, ifs[1..][j], net) && net.indexToName(ifs[1..][j].kernelIndex) == x;
          assert ifs[1..][j] == ifs[j + 1];
        }
      }
      forall x | x in acc || exists j :: 0 <= j < |ifs| && SubnetMatch(a, prefix, ifs[j], net) && net.indexToName(ifs[j].kernelIndex) == x
        ensures x in MatchFrom(acc, a, prefix, ifs, net)
      {
        if x !in acc {
          var j :| 0 <= j < |ifs| && SubnetMatch(a, prefix, ifs[j], net) && net.indexToName(ifs[j].kernelIndex) == x;
          if j > 0 {
            assert ifs[1..][j - 1] == ifs[j];
          }
        }
      }
    }
  }

  lemma TokenStepSpec(acc: seq<string>, t: string, ifList: seq<Iface>, net: NetLib)
    ensures NoDup(acc) ==> NoDup(TokenStep(acc, t, ifList, net))
    ensures forall x :: x in TokenStep(acc, t, ifList, net) <==> x in acc || Contributes(t, x, ifList, net)
  {
    if |t| > 0 && IsAlpha(t[0]) {
      assert TokenStep(acc, t, ifList, net) == AddUnique(acc, t);
      forall x
        ensures Contributes(t, x, ifList, net) <==> x == t
      {
      }
    } else {
      var k := IndexOf(t, '/');
      if k == |t| || net.inetPton(t[..k]).None? {
        assert TokenStep(acc, t, ifList, net) == acc;
        forall x
          ensures !Contributes(t, x, ifList, net)
        {
        }
      } else {
        var a := net.inetPton(t[..k]).value;
        var prefix := Prefix(t[k + 1..]);
        assert TokenStep(acc, t, ifList, net) == MatchFrom(acc, a, prefix, ifList, net);
        MatchFromSpec(acc, a, prefix, ifList, net);
        forall x
          ensures Contributes(t, x, ifList, net) <==>
            exists j :: 0 <= j < |ifList| && SubnetMatch(a, prefix, ifList[j], net) && net.indexToName(ifList[j].kernelIndex) == x
        {
        }
      }
    }
  }

  lemma {:induction false} ResolveFromSpec(acc: seq<string>, ts: seq<string>, ifList: seq<Iface>, net: NetLib)
    ensures NoDup(acc) ==> NoDup(ResolveFrom(acc, ts, ifList, net))
    ensures forall x :: x in ResolveFrom(acc, ts, ifList, net) <==>
      x in acc || exists i :: 0 <= i < |ts| && Contributes(ts[i], x, ifList, net)
    decreases |ts|
  {
    if ts != [] {
      var acc' := TokenStep(acc, ts[0], ifList, net);
      TokenStepSpec(acc, ts[0], ifList, net);
      ResolveFromSpec(acc', ts[1..], ifList, net);
      forall x | x in ResolveFrom(acc, ts, ifList, net)
        ensures x in acc || exists i :: 0 <= i < |ts| && Contributes(ts[i], x, ifList, net)
      {
        if x !in acc' {
          var i :| 0 <= i < |ts[1..]| && Contributes(ts[1..][i], x, ifList, net);
          assert ts[1..][i] == ts[i + 1];
        } else if x !in acc {
          assert Contributes(ts[0], x, ifList, net);
        }
      }
      forall x | x in acc || exists i :: 0 <= i < |ts| && Contributes(ts[i], x, ifList, net)
        ensures x in ResolveFrom(acc, ts, ifList, net)
      {
        if x !in acc {
          var i :| 0 <= i < |ts| && Contributes(ts[i], x, ifList, net);
          if i > 0 {
            assert ts[1..][i - 1] == ts[i];
          }
        }
      }
    }
  }

  /**
    split_and_resolve's result has no repeated name, and holds exactly the
    names given literally and the names of the interfaces on a listed subnet;
    elements lacking "/", with an unparseable address or matching no
    interface contribute nothing.
  */
  lemma ResolveSpec(spec: string, ifList: seq<Iface>, net: NetLib)
    ensures NoDup(Resolve(spec, ifList, net))
    ensures forall x :: x in Resolve(spec, ifList, net) <==>
      exists i :: 0 <= i < |Split(spec, ',')| && Contributes(Split(spec, ',')[i], x, ifList, net)
  {
    var ts := Split(spec, ',');
    ResolveFromSpec([], ts, ifList, net);
    assert Resolve(spec, ifList, net) == ResolveFrom([], ts, ifList, net);
    forall x
      ensures x in Resolve(spec, ifList, net) <==>
        exists i :: 0 <= i < |ts| && Contributes(ts[i], x, ifList, net)
    {
      assert x !in [];
    }
  }

  /** The warning split_and_resolve shows for one argv element, if it skips it. */
  function ElementWarning(t: string, ifList: seq<Iface>, net: NetLib): Option<BadElement> {
    if |t| > 0 && IsAlpha(t[0]) then None
    else
      var k := IndexOf(t, '/');
      if k == |t| then Some(MissingSlash)
      else
        match net.inetPton(t[..k])
        case None => Some(InetPtonFailed)
        case Some(a) =>
          if exists j :: 0 <= j < |ifList| && SubnetMatch(a, Prefix(t[k + 1..]), ifList[j], net) then None
          else Some(NoMatchingInterface)
  }

  /** The warning for an element, as the list split_and_resolve shows. */
  function WarningFor(listName: string, nodename: string, t: string, ifList: seq<Iface>, net: NetLib): seq<Help> {
    var w := ElementWarning(t, ifList, net);
    if w.Some? then [InvalidIfInexclude(listName, nodename, t, w.value)] else []
  }

  /** The warnings for a list of argv elements, in their order. */
  function Warnings(listName: string, nodename: string, ts: seq<string>, ifList: seq<Iface>, net: NetLib): seq<Help>
    decreases |ts|
  {
    if ts == [] then []
    else WarningFor(listName, nodename, ts[0], ifList, net) + Warnings(listName, nodename, ts[1..], ifList, net)
  }

  /** Some name is contributed by the element. */
  ghost predicate StandsForName(t: string, ifList: seq<Iface>, net: NetLib) {
    exists x :: Contributes(t, x, ifList, net)
  }

  /** An element is warned about exactly when it stands for no name at all. */
  lemma ElementWarningSpec(t: string, ifList: seq<Iface>, net: NetLib)
    ensures ElementWarning(t, ifList, net).None? <==> StandsForName(t, ifList, net)
  {
    if |t| > 0 && IsAlpha(t[0]) {
      assert Contributes(t, t, ifList, net);
    } else {
      var k := IndexOf(t, '/');
      if k < |t| && net.inetPton(t[..k]).Some? {
        var a := net.inetPton(t[..k]).value;
        if j :| 0 <= j < |ifList| && SubnetMatch(a, Prefix(t[k + 1..]), ifList[j], net) {
          assert Contributes(t, net.indexToName(ifList[j].kernelIndex), ifList, net);
        }
      }
    }
  }

  /**
    The warnings name the skipped elements, each with its reason, in the
    order of the list: none for an element that stands for a name, and
    one for every element that stands for none.
  */
  lemma {:induction false} WarningsSpec(listName: string, nodename: string, ts: seq<string>, ifList: seq<Iface>, net: NetLib)
    ensures |Warnings(listName, nodename, ts, ifList, net)| <= |ts|
    ensures forall h :: h in Warnings(listName, nodename, ts, ifList, net) <==>
      exists i :: 0 <= i < |ts| && ElementWarning(ts[i], ifList, net).Some?
        && h == InvalidIfInexclude(listName, nodename, ts[i], ElementWarning(ts[i], ifList, net).value)
    ensures (forall i :: 0 <= i < |ts| ==> StandsForName(ts[i], ifList, net))
      ==> Warnings(listName, nodename, ts, ifList, net) == []
    decreases |ts|
  {
    if ts != [] {
      ElementWarningSpec(ts[0], ifList, net);
      WarningsSpec(listName, nodename, ts[1..], ifList, net);
      var rest := Warnings(listName, nodename, ts[1..], ifList, net);
      forall h
        ensures h in Warnings(listName, nodename, ts, ifList, net) <==>
          exists i :: 0 <= i < |ts| && ElementWarning(ts[i], ifList, net).Some?
            && h == InvalidIfInexclude(listName, nodename, ts[i], ElementWarning(ts[i], ifList, net).value)
      {
        if h in rest {
          var i :| 0 <= i < |ts[1..]| && ElementWarning(ts[1..][i], ifList, net).Some?
            && h == InvalidIfInexclude(listName, nodename, ts[1..][i], ElementWarning(ts[1..][i], ifList, net).value);
          assert ts[1..][i] == ts[i + 1];
        }
        if exists i :: 0 <= i < |ts| && ElementWarning(ts[i], ifList, net).Some?
            && h == InvalidIfInexclude(listName, nodename, ts[i], ElementWarning(ts[i], ifList, net).value) {
          var i :| 0 <= i < |ts| && ElementWarning(ts[i], ifList, net).Some?
            && h == InvalidIfInexclude(listName, nodename, ts[i], ElementWarning(ts[i], ifList, net).value);
          if i > 0 {
            assert ts[1..][i - 1] == ts[i];
          }
        }
      }
      if forall i :: 0 <= i < |ts| ==> StandsForName(ts[i], ifList, net) {
        assert StandsForName(ts[0], ifList, net);
        forall i | 0 <= i < |ts[1..]|
          ensures StandsForName(ts[1..][i], ifList, net)
        {
          assert ts[1..][i] == ts[i + 1];
        }
        assert rest == [];
        assert Warnings(listName, nodename, ts, ifList, net) == [] + rest;
      }
    }
  }

  /** The de-duplicating append of the source's inner loops. */
  method AppendUnique(names: seq<string>, x: string) returns (r: seq<string>)
    ensures r == AddUnique(names, x)
  {
    var n := 0;
    while n < |names|
      invariant 0 <= n <= |names|
      invariant forall k :: 0 <= k < n ==> names[k] != x
    {
      if names[n] == x {
        break;
      }
      n := n + 1;
    }
    if n == |names| {
      r := names + [x];
    } else {
      r := names;
    }
  }

  /** split_and_resolve's loop over the interfaces for one subnet, counting the matches. */
  method MatchSubnet(names: seq<string>, a: seq<uint8>, prefix: uint32, ifList: seq<Iface>, net: NetLib)
    returns (r: seq<string>, matchCount: nat)
    ensures r == MatchFrom(names, a, prefix, ifList, net)
    ensures matchCount > 0 <==> exists j :: 0 <= j < |ifList| && SubnetMatch(a, prefix, ifList[j], net)
  {
    r, matchCount := names, 0;
    var j := 0;
    while j < |ifList|
      invariant 0 <= j <= |ifList|
      invariant MatchFrom(r, a, prefix, ifList[j..], net) == MatchFrom(names, a, prefix, ifList, net)
      invariant matchCount > 0 <==> exists jj :: 0 <= jj < j && SubnetMatch(a, prefix, ifList[jj], net)
    {
      assert ifList[j..][0] == ifList[j] && ifList[j..][1..] == ifList[j + 1..];
      var kindex := ifList[j].kernelIndex;
      if net.sameNetwork(a, net.indexToAddr(kindex), prefix) {
        matchCount := matchCount + 1;
        r := AppendUnique(r, net.indexToName(kindex));
      }
      j := j + 1;
    }
  }

  /** One element of split_and_resolve: its names, or the warning that skips it. */
  method ResolveElement(names: seq<string>, t: string, listName: string, nodename: string, ifList: seq<Iface>, net: NetLib)
    returns (r: seq<string>, warnings: seq<Help>)
    ensures r == TokenStep(names, t, ifList, net)
    ensures warnings == WarningFor(listName, nodename, t, ifList, net)
  {
    r, warnings := names, [];
    if |t| > 0 && IsAlpha(t[0]) {
      r := AppendUnique(names, t);
      return;
    }
    var k := IndexOf(t, '/');
    if k == |t| {
      warnings := [InvalidIfInexclude(listName, nodename, t, MissingSlash)];
      return;
    }
    var prefix := Prefix(t[k + 1..]);
    var a := net.inetPton(t[..k]);
    if a.None? {
      warnings := [InvalidIfInexclude(listName, nodename, t, InetPtonFailed)];
      return;
    }
    var matchCount;
    r, matchCount := MatchSubnet(names, a.value, prefix, ifList, net);
    if matchCount == 0 {
      warnings := [InvalidIfInexclude(listName, nodename, t, NoMatchingInterface)];
    }
  }

  /** split_and_resolve's loop over the specification's elements. */
  method ResolveNames(spec: string, listName: string, nodename: string, ifList: seq<Iface>, net: NetLib)
    returns (names: seq<string>, warnings: seq<Help>)
    ensures names == Resolve(spec, ifList, net)
    ensures warnings == Warnings(listName, nodename, Split(spec, ','), ifList, net)
  {
    var argv := Split(spec, ',');
    names, warnings := [], [];
    var i := 0;
    while i < |argv|
      invariant 0 <= i <= |argv|
      invariant ResolveFrom(names, argv[i..], ifList, net) == Resolve(spec, ifList, net)
      invariant warnings + Warnings(listName, nodename, argv[i..], ifList, net) == Warnings(listName, nodename, argv, ifList, net)
    {
      assert argv[i..][0] == argv[i] && argv[i..][1..] == argv[i + 1..];
      var w;
      names, w := ResolveElement(names, argv[i], listName, nodename, ifList, net);
      assert Warnings(listName, nodename, argv[i..], ifList, net) == w + Warnings(listName, nodename, argv[i + 1..], ifList, net);
      warnings := warnings + w;
      i := i + 1;
    }
    assert argv[i..] == [];
  }

  /**
    split_and_resolve with the rewrite of its argument: an empty
    specification is left alone and yields nothing; otherwise the
    specification is replaced by the comma-join of the resolved names, and
    every skipped element is reported with its reason.
  */
  method SplitAndResolve(orig: string, listName: string, nodename: string, ifList: seq<Iface>, net: NetLib)
    returns (names: seq<string>, rewritten: string, warnings: seq<Help>)
    ensures names == Resolve(orig, ifList, net)
    ensures rewritten == if Split(orig, ',') == [] then orig else Join(names, ',')
    ensures warnings == Warnings(listName, nodename, Split(orig, ','), ifList, net)
  {
    if Split(orig, ',') == [] {
      names, rewritten, warnings := [], orig, [];
      return;
    }
    names, warnings := ResolveNames(orig, listName, nodename, ifList, net);
    rewritten := Join(names, ',');
  }

  /**
    Resolving the rewritten specification gives the same names again,
    whenever the names are free of commas and the interface names a subnet
    resolves to start with a letter.
  */
  lemma RewriteStable(spec: string, ifList: seq<Iface>, net: NetLib)
    requires forall x :: x in Resolve(spec, ifList, net) ==> ',' !in x && |x| > 0 && IsAlpha(x[0])
    ensures Resolve(Join(Resolve(spec, ifList, net), ','), ifList, net) == Resolve(spec, ifList, net)
  {
    var ns := Resolve(spec, ifList, net);
    assert NoDup(ns) by {
      ResolveSpec(spec, ifList, net);
    }
    forall i | 0 <= i < |ns|
      ensures ns[i] != "" && ',' !in ns[i] && IsAlpha(ns[i][0])
    {
      assert ns[i] in ns;
    }
    SplitJoin(ns, ',');
    assert [] + ns == ns;
    AllNamesResolve([], ns, ifList, net);
    assert Resolve(Join(ns, ','), ifList, net) == ResolveFrom([], ns, ifList, net);
  }

  lemma {:induction false} AllNamesResolve(acc: seq<string>, ns: seq<string>, ifList: seq<Iface>, net: NetLib)
    requires NoDup(acc + ns)
    requires forall i :: 0 <= i < |ns| ==> |ns[i]| > 0 && IsAlpha(ns[i][0])
    ensures ResolveFrom(acc, ns, ifList, net) == acc + ns
    decreases |ns|
  {
    if ns != [] {
      assert (acc + ns)[|acc|] == ns[0];
      assert ns[0] !in acc by {
        forall k | 0 <= k < |acc| ensures acc[k] != ns[0] {
          assert (acc + ns)[k] == acc[k];
        }
      }
      assert acc + ns == (acc + [ns[0]]) + ns[1..];
      AllNamesResolve(acc + [ns[0]], ns[1..], ifList, net);
    }
  }

  // ---------------------------------------------------------------------
  // The contact URI

  /** The IPv4 part of the URI, when IPv4 is enabled and has addresses. */
  function Ipv4Part(conns: seq<string>, ports: seq<string>, masks: seq<string>): string {
    "tcp://" + Join(conns, ',') + ":" + Join(ports, ',') + ":" + Join(masks, ',')
  }

  /** The IPv6 part: the address list enclosed in square brackets (section 3.2.2 of RFC 3986). */
  function Ipv6Part(conns: seq<string>, ports: seq<string>, masks: seq<string>): string {
    "tcp6://[" + Join(conns, ',') + "]:" + Join(ports, ',') + ":" + Join(masks, ',')
  }

  /** get_addr: the URI, None (NULL) when neither family contributes. */
  function ContactUri(
    disable4: bool, conns4: seq<string>, ports4: seq<string>,
    ipv6Build: bool, disable6: bool, conns6: seq<string>, ports6: seq<string>,
    masks: seq<string>): (uri: Option<string>)
    ensures uri.None? <==> (disable4 || conns4 == []) && (!ipv6Build || disable6 || conns6 == [])
  {
    var v4 := !disable4 && conns4 != [];
    var v6 := ipv6Build && !disable6 && conns6 != [];
    if v4 && v6 then Some(Ipv4Part(conns4, ports4, masks) + ";" + Ipv6Part(conns6, ports6, masks))
    else if v4 then Some(Ipv4Part(conns4, ports4, masks))
    else if v6 then Some(Ipv6Part(conns6, ports6, masks))
    else None
  }

  /** The host of a "tcp6://[...]" URI part: the text up to the first closing bracket. */
  function BracketedHost(s: string): Option<string> {
    if StartsWith(s, "tcp6://[") then
      var rest := s[8..];
      var k := IndexOf(rest, ']');
      if k < |rest| then Some(rest[..k]) else None
    else None
  }

  /**
    The bracketed literal delimits the IPv6 address list even though the
    addresses contain ':' separators: reading up to the first ']' recovers it.
  */
  lemma Ipv6HostRecoverable(conns: seq<string>, ports: seq<string>, masks: seq<string>)
    requires forall i :: 0 <= i < |conns| ==> ']' !in conns[i]
    ensures BracketedHost(Ipv6Part(conns, ports, masks)) == Some(Join(conns, ','))
  {
    JoinAvoids(conns, ',', ']');
    BracketedHostOf(Join(conns, ','), Join(ports, ','), Join(masks, ','));
  }

  /** A bracketed host free of ']' is read back whatever ports and masks follow it. */
  lemma BracketedHostOf(h: string, ports: string, masks: string)
    requires ']' !in h
    ensures BracketedHost("tcp6://[" + h + "]:" + ports + ":" + masks) == Some(h)
  {
    var tail := ":" + ports + ":" + masks;
    var rest := h + [']'] + tail;
    var s := "tcp6://[" + h + "]:" + ports + ":" + masks;
    assert s == "tcp6://[" + rest;
    assert s[..8] == "tcp6://[";
    assert s[8..] == rest;
    IndexOfPrefix(h, ']', tail);
    assert rest[..|h|] == h;
  }

  /** A join avoids a character that neither its elements nor the separator hold. */
  lemma {:induction false} JoinAvoids(xs: seq<string>, sep: char, c: char)
    requires c != sep
    requires forall i :: 0 <= i < |xs| ==> c !in xs[i]
    ensures c !in Join(xs, sep)
  {
    if |xs| > 1 {
      assert c !in xs[0];
      JoinAvoids(xs[1..], sep, c);
    }
  }

  /**
    With both families, the URI is the IPv4 part and the IPv6 part separated
    by ';', and splitting at ';' recovers the two when no element holds one.
  */
  lemma BothFamiliesSplit(
    conns4: seq<string>, ports4: seq<string>, conns6: seq<string>, ports6: seq<string>, masks: seq<string>)
    requires conns4 != [] && conns6 != []
    requires forall i :: 0 <= i < |conns4| ==> ';' !in conns4[i]
    requires forall i :: 0 <= i < |ports4| ==> ';' !in ports4[i]
    requires forall i :: 0 <= i < |conns6| ==> ';' !in conns6[i]
    requires forall i :: 0 <= i < |ports6| ==> ';' !in ports6[i]
    requires forall i :: 0 <= i < |masks| ==> ';' !in masks[i]
    ensures var uri := ContactUri(false, conns4, ports4, true, false, conns6, ports6, masks);
      uri.Some? && Split(uri.value, ';') == [Ipv4Part(conns4, ports4, masks), Ipv6Part(conns6, ports6, masks)]
  {
    var p4 := Ipv4Part(conns4, ports4, masks);
    var p6 := Ipv6Part(conns6, ports6, masks);
    JoinAvoids(conns4, ',', ';');
    JoinAvoids(ports4, ',', ';');
    JoinAvoids(conns6, ',', ';');
    JoinAvoids(ports6, ',', ';');
    JoinAvoids(masks, ',', ';');
    assert ';' !in p4;
    assert ';' !in p6;
    assert Join([p4, p6], ';') == p4 + ";" + p6;
    SplitJoin([p4, p6], ';');
  }

  // ---------------------------------------------------------------------
  // The transport's global state (prte_rml_base)

  class RmlBase {
    /** Whether IPv6 support is compiled in (PRTE_ENABLE_IPV6). */
    const ipv6Build: bool

    var maxRetries: int
    var tcpStaticPorts: Option<seq<string>>
    var tcp6StaticPorts: Option<seq<string>>
    var tcpDynPorts: Option<seq<string>>
    var tcp6DynPorts: Option<seq<string>>
    /** prte_static_ports: static ports were given for either family. */
    var staticPorts: bool
    var disable4: bool
    var disable6: bool
    var ipv4conns: seq<string>
    var ipv6conns: seq<string>
    var ipv4ports: seq<string>
    var ipv6ports: seq<string>
    var ifMasks: seq<string>
    var localIfs: seq<Iface>
    /** prte_if_include / prte_if_exclude */
    var ifInclude: Option<string>
    var ifExclude: Option<string>
    /** prte_process_info.my_uri */
    var myUri: Option<string>
    /** Help messages shown, oldest first. */
    var help: seq<Help>
    /** Items threadshifted onto the event base, oldest first. */
    var queue: seq<RmlWork>

    /** The static initializer of prte_rml_base; IPv6 starts disabled. */
    constructor (ipv6Build: bool, ifInclude0: Option<string>, ifExclude0: Option<string>)
      ensures this.ipv6Build == ipv6Build && ifInclude == ifInclude0 && ifExclude == ifExclude0
      ensures maxRetries == 0 && !staticPorts && !disable4 && disable6
      ensures tcpStaticPorts == None && tcp6StaticPorts == None && tcpDynPorts == None && tcp6DynPorts == None
      ensures ipv4conns == [] && ipv6conns == [] && ipv4ports == [] && ipv6ports == []
      ensures ifMasks == [] && localIfs == [] && myUri == None && help == [] && queue == []
    {
      this.ipv6Build := ipv6Build;
      maxRetries := 0;
      tcpStaticPorts, tcp6StaticPorts, tcpDynPorts, tcp6DynPorts := None, None, None, None;
      staticPorts := false;
      disable4, disable6 := false, true;
      ipv4conns, ipv6conns, ipv4ports, ipv6ports := [], [], [], [];
      ifMasks, localIfs := [], [];
      ifInclude, ifExclude := ifInclude0, ifExclude0;
      myUri := None;
      help, queue := [], [];
    }

    /** The port and family settings registration decides. */
    function Ports(): PortState
      reads this
    {
      PortState(tcpStaticPorts, tcp6StaticPorts, tcpDynPorts, tcp6DynPorts, staticPorts, disable4, disable6, help)
    }

    /**
      The retry and port part of prte_rml_register. The retry limit is the
      one the shared storage of max_retries and peer_retries leaves.
    */
    method Register(p: RegisterParams)
      requires ParsedOk(p.static4) && ParsedOk(p.static6) && ParsedOk(p.dyn4) && ParsedOk(p.dyn6)
      modifies this`maxRetries, this`tcpStaticPorts, this`tcp6StaticPorts, this`tcpDynPorts,
               this`tcp6DynPorts, this`staticPorts, this`disable4, this`disable6, this`help
      ensures maxRetries == RegisteredRetries(p)
      ensures Ports() == RegisterPorts(old(Ports()), p, ipv6Build)
    {
      maxRetries := RegisteredRetries(p);
      RegisterStaticPorts(p);
      RegisterDynamicPorts(p);
    }

    method RegisterStaticPorts(p: RegisterParams)
      requires ParsedOk(p.static4) && ParsedOk(p.static6)
      modifies this`tcpStaticPorts, this`tcp6StaticPorts, this`staticPorts
      ensures Ports() == StaticPorts(old(Ports()), p, ipv6Build)
    {
      tcpStaticPorts := PortsFrom(p.static4);
      if ipv6Build {
        tcp6StaticPorts := PortsFrom(p.static6);
      }
      if tcpStaticPorts.Some? || tcp6StaticPorts.Some? {
        staticPorts := true;
      }
    }

    /** Dynamic ports while static ports are set: a help message, and registration ends. */
    method RegisterDynamicPorts(p: RegisterParams)
      requires ParsedOk(p.dyn4) && ParsedOk(p.dyn6)
      modifies this`tcpDynPorts, this`tcp6DynPorts, this`disable4, this`disable6, this`help
      ensures Ports() == DynamicPorts(old(Ports()), p, ipv6Build)
    {
      if p.dyn4.Some? {
        if staticPorts {
          help := help + [StaticAndDynamic(JoinOpt(tcpStaticPorts), p.dyn4.value.raw)];
          return;
        }
      }
      tcpDynPorts := PortsFrom(p.dyn4);
      if ipv6Build {
        if p.dyn6.Some? {
          if staticPorts {
            var err4 := if tcpStaticPorts.None? then "N/A" else JoinOpt(tcpStaticPorts);
            var err6 := if tcp6StaticPorts.None? then "N/A" else JoinOpt(tcp6StaticPorts);
            help := help + [StaticAndDynamicIpv6(err4, err6, p.dyn6.value.raw)];
            return;
          }
        }
        tcp6DynPorts := PortsFrom(p.dyn6);
      }
      disable4 := if p.disable4.Some? then p.disable4.value else false;
      if ipv6Build {
        disable6 := if p.disable6.Some? then p.disable6.value else false;
      }
    }

    /** The include/exclude names setup_interfaces filters with, and whether they include. */
    function Filter(ifList: seq<Iface>, net: NetLib): (seq<string>, bool)
      reads this
    {
      if ifInclude.Some? then (Resolve(ifInclude.value, ifList, net), true)
      else if ifExclude.Some? then (Resolve(ifExclude.value, ifList, net), false)
      else ([], false)
    }

    /** The warnings split_and_resolve shows while setup_interfaces resolves its list. */
    function FilterWarnings(ifList: seq<Iface>, nodename: string, net: NetLib): seq<Help>
      reads this
    {
      if ifInclude.Some? then Warnings("include", nodename, Split(ifInclude.value, ','), ifList, net)
      else if ifExclude.Some? then Warnings("exclude", nodename, Split(ifExclude.value, ','), ifList, net)
      else []
    }

    /** The lists setup_interfaces appends to. */
    function Lists(): IfLists
      reads this
    {
      IfLists(ipv4conns, ipv6conns, ifMasks, localIfs)
    }

    /**
      setup_interfaces: resolve the include or exclude list, decide the
      loopback rule, then append every kept interface's address, mask and
      copy, stopping with BAD_PARAM at an unparseable specification; with no
      IPv4 address, and no IPv6 address in an IPv6 build, the result is
      NOT_AVAILABLE. The node name is the one the warnings show.
    */
    method SetupInterfaces(ifList: seq<Iface>, isMaster: bool, nodename: string, net: NetLib) returns (rc: Status)
      modifies this`ipv4conns, this`ipv6conns, this`ifMasks, this`localIfs, this`ifInclude, this`ifExclude, this`help
      ensures var (filter, including) := old(Filter(ifList, net));
              var keep := isMaster && forall i :: 0 <= i < |ifList| ==> ifList[i].loopback;
              var s := Scan(ifList, ScanCtx(keep, filter, including, ipv6Build, net));
        && Lists() == old(Lists()).Extend(s.kept, net)
        && help == old(help) + old(FilterWarnings(ifList, nodename, net)) + (if s.aborted then [NotParseableSpec] else [])
        && rc == (if s.aborted then ErrBadParam
                  else if ipv4conns == [] && (!ipv6Build || ipv6conns == []) then ErrNotAvailable
                  else Success)
      ensures old(ifInclude).Some? ==>
        ifInclude == Some(if Split(old(ifInclude).value, ',') == [] then old(ifInclude).value
                          else Join(old(Filter(ifList, net)).0, ','))
      ensures old(ifInclude).None? ==> ifInclude == old(ifInclude)
      ensures old(ifInclude).None? && old(ifExclude).Some? ==>
        ifExclude == Some(if Split(old(ifExclude).value, ',') == [] then old(ifExclude).value
                          else Join(old(Filter(ifList, net)).0, ','))
      ensures old(ifInclude).Some? || old(ifExclude).None? ==> ifExclude == old(ifExclude)
    {
      ghost var filter0 := Filter(ifList, net);
      ghost var help0 := help + FilterWarnings(ifList, nodename, net);
      var filter: seq<string> := [];
      var including := false;
      if ifInclude.Some? {
        var rewritten, warnings;
        filter, rewritten, warnings := SplitAndResolve(ifInclude.value, "include", nodename, ifList, net);
        ifInclude := Some(rewritten);
        help := help + warnings;
        including := true;
      } else if ifExclude.Some? {
        var rewritten, warnings;
        filter, rewritten, warnings := SplitAndResolve(ifExclude.value, "exclude", nodename, ifList, net);
        ifExclude := Some(rewritten);
        help := help + warnings;
      }
      assert (filter, including) == filter0;
      assert help == help0;
      var keep := KeepLoopback(ifList, isMaster);
      var aborted := SelectInterfaces(ifList, ScanCtx(keep, filter, including, ipv6Build, net));
      if aborted {
        rc := ErrBadParam;
        return;
      }
      if ipv4conns == [] && (!ipv6Build || ipv6conns == []) {
        rc := ErrNotAvailable;
      } else {
        rc := Success;
      }
    }

    /** The loop of setup_interfaces over the discovered interfaces. */
    method SelectInterfaces(ifList: seq<Iface>, c: ScanCtx) returns (aborted: bool)
      modifies this`ipv4conns, this`ipv6conns, this`ifMasks, this`localIfs, this`help
      ensures aborted == Scan(ifList, c).aborted
      ensures Lists() == old(Lists()).Extend(Scan(ifList, c).kept, c.net)
      ensures help == old(help) + (if aborted then [NotParseableSpec] else [])
    {
      ghost var target := old(Lists()).Extend(Scan(ifList, c).kept, c.net);
      var n := 0;
      while n < |ifList|
        invariant 0 <= n <= |ifList|
        invariant Scan(ifList[n..], c).aborted == Scan(ifList, c).aborted
        invariant Lists().Extend(Scan(ifList[n..], c).kept, c.net) == target
        invariant help == old(help)
      {
        var i := ifList[n];
        assert ifList[n..][0] == i && ifList[n..][1..] == ifList[n + 1..];
        var d := Decide(i, c);
        if d == Abort {
          help := help + [NotParseableSpec];
          aborted := true;
          return;
        }
        if d == Skip {
          n := n + 1;
          continue;
        }
        ghost var before := Lists();
        ghost var rest := Scan(ifList[n + 1..], c).kept;
        assert Scan(ifList[n..], c).kept == [i] + rest;
        assert ([i] + rest)[1..] == rest;
        if i.family == AfInet {
          ipv4conns := ipv4conns + [c.net.hostName(i.addr)];
        } else {
          ipv6conns := ipv6conns + [c.net.hostName(i.addr)];
        }
        ifMasks := ifMasks + [MaskString(i.mask)];
        localIfs := localIfs + [Copy(i)];
        assert Lists() == before.Add(i, c.net);
        n := n + 1;
      }
      assert ifList[n..] == [];
      aborted := false;
    }

    /** get_addr: store the contact URI built from the current lists. */
    method GetAddr()
      modifies this`myUri
      ensures myUri == ContactUri(disable4, ipv4conns, ipv4ports, ipv6Build, disable6, ipv6conns, ipv6ports, ifMasks)
    {
      var cptr: Option<string> := None;
      if !disable4 && ipv4conns != [] {
        cptr := Some(Ipv4Part(ipv4conns, ipv4ports, ifMasks));
      }
      if ipv6Build && !disable6 && ipv6conns != [] {
        if cptr.None? {
          cptr := Some(Ipv6Part(ipv6conns, ipv6ports, ifMasks));
        } else {
          cptr := Some(cptr.value + ";" + Ipv6Part(ipv6conns, ipv6ports, ifMasks));
        }
      }
      myUri := cptr;
    }
  }
}
