/**
 * ICE candidates (section 4.1.2.1 of RFC 5245 for their priority), their
 * SDP `candidate:` line, and the gatherer of host candidates.
 *
 * A socket address is given by the textual form of its IP address and its
 * port; the rendering of an `IpAddr` is not part of this model.
 */
module Ice {
  import opened Base

  datatype IceCandidateType = Host | Srflx | Prflx | Relay

  /** A `SocketAddr`: `ip().to_string()` and `port()`. */
  datatype SocketAddr = SocketAddr(ip: string, port: u16)

  datatype IceCandidate = IceCandidate(
    candidateType: IceCandidateType,
    foundation: string,
    component: u16,
    protocol: string,
    priority: u32,
    address: string,
    port: u16,
    relatedAddress: Option<string>,
    relatedPort: Option<u16>)

  datatype IceConnectionState = New | Checking | Connected | Completed | Failed | Disconnected | Closed

  // ---------------------------------------------------------------- priority

  const TYPE_SHIFT: nat := 0x100_0000
  const LOCAL_SHIFT: nat := 0x100
  const LOCAL_PREFERENCE: nat := 65535

  /** The type preferences: host over peer reflexive over server reflexive over relay. */
  function TypePreference(t: IceCandidateType): (p: nat)
    ensures p <= 126
    ensures t == Host <==> p == 126
  {
    match t
    case Host => 126
    case Prflx => 110
    case Srflx => 100
    case Relay => 0
  }

  /**
   * `calculate_priority`: 2^24 * type preference + 2^8 * 65535 + (256 -
   * component). The subtraction needs `component <= 256`; for a component
   * of at least 1 the three terms occupy the top byte, the middle two bytes
   * and the low byte, while component 0 carries into the top byte.
   */
  function CalculatePriority(t: IceCandidateType, component: u16): (p: u32)
    requires component <= 256
    ensures component >= 1 ==>
      p / TYPE_SHIFT == TypePreference(t)
      && (p / LOCAL_SHIFT) % 0x1_0000 == LOCAL_PREFERENCE
      && p % LOCAL_SHIFT == 256 - component
    ensures component == 0 ==> p == (TypePreference(t) + 1) * TYPE_SHIFT
  {
    PriorityLayout(TypePreference(t), 256 - component);
    TYPE_SHIFT * TypePreference(t) + LOCAL_SHIFT * LOCAL_PREFERENCE + (256 - component)
  }

  /** The byte layout of a priority whose low term is below 256. */
  lemma PriorityLayout(pref: nat, low: nat)
    requires low <= 256
    ensures low < 256 ==>
      var p := TYPE_SHIFT * pref + LOCAL_SHIFT * LOCAL_PREFERENCE + low;
      p / TYPE_SHIFT == pref && (p / LOCAL_SHIFT) % 0x1_0000 == LOCAL_PREFERENCE && p % LOCAL_SHIFT == low
  {
    if low < 256 {
      var p := TYPE_SHIFT * pref + LOCAL_SHIFT * LOCAL_PREFERENCE + low;
      ModOfMultiplePlus(pref * 0x1_0000 + LOCAL_PREFERENCE, LOCAL_SHIFT, low);
      assert p == (pref * 0x1_0000 + LOCAL_PREFERENCE) * LOCAL_SHIFT + low;
      ModOfMultiplePlus(pref, 0x1_0000, LOCAL_PREFERENCE);
      ModOfMultiplePlus(pref, TYPE_SHIFT, LOCAL_SHIFT * LOCAL_PREFERENCE + low);
    }
  }

  /**
   * A candidate of a more preferred type outranks one of a less preferred
   * type whatever their components: the component never reaches the type
   * byte far enough to close the gap.
   */
  lemma {:induction false} PriorityOrdersByType(t1: IceCandidateType, c1: u16, t2: IceCandidateType, c2: u16)
    requires c1 <= 256 && c2 <= 256
    requires TypePreference(t1) > TypePreference(t2)
    ensures CalculatePriority(t1, c1) > CalculatePriority(t2, c2)
  {
    var p1, p2 := TypePreference(t1), TypePreference(t2);
    MulMonotone(p2 + 1, p1, TYPE_SHIFT);
  }

  /** Among candidates of one type, the lower component has the higher priority. */
  lemma PriorityOrdersByComponent(t: IceCandidateType, c1: u16, c2: u16)
    requires c1 <= 256 && c2 <= 256
    ensures CalculatePriority(t, c1) > CalculatePriority(t, c2) <==> c1 < c2
  {
  }

  // ---------------------------------------------------------------- constructors

  /**
   * What every constructor guarantees: protocol "udp", the priority of the
   * type and component, and a related address and port exactly for server
   * reflexive and relay candidates.
   */
  predicate WellFormed(c: IceCandidate)
  {
    c.component <= 256
    && c.protocol == "udp"
    && c.priority == CalculatePriority(c.candidateType, c.component)
    && (c.relatedAddress.Some? <==> c.candidateType in {Srflx, Relay})
    && (c.relatedPort.Some? <==> c.candidateType in {Srflx, Relay})
  }

  /** `IceCandidate::host`: the local address, no related address. */
  function NewHost(addr: SocketAddr, foundation: string, component: u16): (c: IceCandidate)
    requires component <= 256
    ensures WellFormed(c) && c.candidateType == Host
    ensures c.foundation == foundation && c.component == component
    ensures c.address == addr.ip && c.port == addr.port
  {
    IceCandidate(Host, foundation, component, "udp", CalculatePriority(Host, component),
      addr.ip, addr.port, None, None)
  }

  /** `IceCandidate::srflx`: the public address, related to the local one. */
  function NewSrflx(publicAddr: SocketAddr, localAddr: SocketAddr, foundation: string, component: u16): (c: IceCandidate)
    requires component <= 256
    ensures WellFormed(c) && c.candidateType == Srflx
    ensures c.foundation == foundation && c.component == component
    ensures c.address == publicAddr.ip && c.port == publicAddr.port
    ensures c.relatedAddress == Some(localAddr.ip) && c.relatedPort == Some(localAddr.port)
  {
    IceCandidate(Srflx, foundation, component, "udp", CalculatePriority(Srflx, component),
      publicAddr.ip, publicAddr.port, Some(localAddr.ip), Some(localAddr.port))
  }

  /** `IceCandidate::relay`: the relay address, related to the local one. */
  function NewRelay(relayAddr: SocketAddr, localAddr: SocketAddr, foundation: string, component: u16): (c: IceCandidate)
    requires component <= 256
    ensures WellFormed(c) && c.candidateType == Relay
    ensures c.foundation == foundation && c.component == component
    ensures c.address == relayAddr.ip && c.port == relayAddr.port
    ensures c.relatedAddress == Some(localAddr.ip) && c.relatedPort == Some(localAddr.port)
  {
    IceCandidate(Relay, foundation, component, "udp", CalculatePriority(Relay, component),
      relayAddr.ip, relayAddr.port, Some(localAddr.ip), Some(localAddr.port))
  }

  /** A host candidate outranks a server reflexive one of the same component. */
  lemma HostOutranksSrflx(hostAddr: SocketAddr, publicAddr: SocketAddr, component: u16)
    requires component <= 256
    ensures NewHost(hostAddr, "h1", component).priority > NewSrflx(publicAddr, hostAddr, "s1", component).priority
  {
    PriorityOrdersByType(Host, component, Srflx, component);
  }

  // ---------------------------------------------------------------- SDP

  function TypeName(t: IceCandidateType): string
  {
    match t
    case Host => "host"
    case Srflx => "srflx"
    case Prflx => "prflx"
    case Relay => "relay"
  }

  const CANDIDATE_PREFIX: string := "candidate:"

  /** Words separated by single spaces, as a `format!` template with spaces between its fields writes them. */
  function Join(ws: seq<string>): string
    requires |ws| >= 1
  {
    if |ws| == 1 then ws[0] else ws[0] + " " + Join(ws[1..])
  }

  /** The eight words of `candidate:{} {} {} {} {} {} typ {}`. */
  function HeadWords(c: IceCandidate): seq<string>
  {
    [CANDIDATE_PREFIX + c.foundation, DecimalString(c.component), c.protocol, DecimalString(c.priority),
     c.address, DecimalString(c.port), "typ", TypeName(c.candidateType)]
  }

  /**
   * `to_sdp`: the `candidate:` line, followed by ` raddr <addr> rport
   * <port>` only when both the related address and port are present.
   */
  function ToSdp(c: IceCandidate): string
  {
    var sdp := Join(HeadWords(c));
    if c.relatedAddress.Some? && c.relatedPort.Some? then
      sdp + " raddr " + c.relatedAddress.value + " rport " + DecimalString(c.relatedPort.value)
    else
      sdp
  }

  /** The words `to_sdp` writes, in order. */
  function SdpWords(c: IceCandidate): (ws: seq<string>)
    ensures |ws| == 8 || |ws| == 12
    ensures ws[..8] == HeadWords(c)
  {
    HeadWords(c)
    + if c.relatedAddress.Some? && c.relatedPort.Some? then
        ["raddr", c.relatedAddress.value, "rport", DecimalString(c.relatedPort.value)]
      else []
  }

  predicate NoSpace(s: string)
  {
    forall i :: 0 <= i < |s| ==> s[i] != ' '
  }

  /** The space-separated words of a line, empty words included, as `str::split(' ')` gives them. */
  function Words(s: string): (ws: seq<string>)
    ensures |ws| >= 1
    decreases |s|
  {
    if |s| == 0 then [""]
    else if s[0] == ' ' then [""] + Words(s[1..])
    else
      var rest := Words(s[1..]);
      [[s[0]] + rest[0]] + rest[1..]
  }

  /** A word with no space in it is a single word. */
  lemma {:induction false} WordsOfWord(w: string)
    requires NoSpace(w)
    ensures Words(w) == [w]
    decreases |w|
  {
    if |w| > 0 {
      WordsOfWord(w[1..]);
      assert [w[0]] + w[1..] == w;
    }
  }

  /** A word with no space in it, then a space, ends the first word there. */
  lemma {:induction false} WordsSplitAt(w: string, rest: string)
    requires NoSpace(w)
    ensures Words(w + " " + rest) == [w] + Words(rest)
    decreases |w|
  {
    if |w| == 0 {
      assert (w + " " + rest)[1..] == rest;
    } else {
      assert (w + " " + rest)[1..] == w[1..] + " " + rest;
      WordsSplitAt(w[1..], rest);
      assert [w[0]] + w[1..] == w;
    }
  }

  /** Splitting a join of space-free words gives the words back. */
  lemma {:induction false} WordsOfJoin(ws: seq<string>)
    requires |ws| >= 1
    requires forall i :: 0 <= i < |ws| ==> NoSpace(ws[i])
    ensures Words(Join(ws)) == ws
    decreases |ws|
  {
    if |ws| == 1 {
      WordsOfWord(ws[0]);
    } else {
      WordsSplitAt(ws[0], Join(ws[1..]));
      WordsOfJoin(ws[1..]);
    }
  }

  lemma {:induction false} JoinAppend(a: seq<string>, b: seq<string>)
    requires |a| >= 1 && |b| >= 1
    ensures Join(a + b) == Join(a) + " " + Join(b)
    decreases |a|
  {
    if |a| == 1 {
      assert (a + b)[1..] == b;
    } else {
      assert (a + b)[1..] == a[1..] + b;
      JoinAppend(a[1..], b);
    }
  }

  /** `to_sdp` is the join of its words. */
  lemma SdpIsJoin(c: IceCandidate)
    ensures ToSdp(c) == Join(SdpWords(c))
  {
    if c.relatedAddress.Some? && c.relatedPort.Some? {
      var a, p := c.relatedAddress.value, DecimalString(c.relatedPort.value);
      var tail := ["raddr", a, "rport", p];
      JoinAppend(HeadWords(c), tail);
      assert tail[1..] == [a, "rport", p] && tail[1..][1..] == ["rport", p] && tail[1..][1..][1..] == [p];
      assert Join([p]) == p;
      assert Join(["rport", p]) == "rport" + " " + p;
      assert Join([a, "rport", p]) == a + " " + ("rport" + " " + p);
      assert Join(tail) == "raddr" + " " + (a + " " + ("rport" + " " + p));
      var sdp := Join(HeadWords(c));
      assert sdp + " raddr " + a + " rport " + p == sdp + " " + ("raddr" + " " + (a + " " + ("rport" + " " + p)));
    } else {
      assert SdpWords(c) == HeadWords(c) + [] == HeadWords(c);
      assert ToSdp(c) == Join(HeadWords(c));
    }
  }

  function TypeFromName(w: string): Option<IceCandidateType>
  {
    if w == "host" then Some(Host)
    else if w == "srflx" then Some(Srflx)
    else if w == "prflx" then Some(Prflx)
    else if w == "relay" then Some(Relay)
    else None
  }

  /** A decimal word below `limit`, or `None`. */
  function NumberBelow(w: string, limit: nat): (r: Option<nat>)
    ensures r.Some? ==> r.value < limit && AllDigits(w) && |w| >= 1
  {
    if |w| >= 1 && AllDigits(w) && ParseDecimal(w) < limit then Some(ParseDecimal(w)) else None
  }

  /**
   * The reading of a `candidate:` line: eight words, or twelve with the
   * related address and port, every number in range and every keyword in
   * place.
   */
  function ParseSdp(s: string): Option<IceCandidate>
  {
    var ws := Words(s);
    if !(|ws| == 8 || |ws| == 12) then None
    else if !(|ws[0]| >= |CANDIDATE_PREFIX| && ws[0][..|CANDIDATE_PREFIX|] == CANDIDATE_PREFIX) then None
    else if ws[6] != "typ" then None
    else
      var component := NumberBelow(ws[1], U16_LIMIT);
      var priority := NumberBelow(ws[3], U32_LIMIT);
      var port := NumberBelow(ws[5], U16_LIMIT);
      var t := TypeFromName(ws[7]);
      if component.None? || priority.None? || port.None? || t.None? then None
      else if |ws| == 8 then
        Some(IceCandidate(t.value, ws[0][|CANDIDATE_PREFIX|..], component.value, ws[2], priority.value,
          ws[4], port.value, None, None))
      else if ws[8] != "raddr" || ws[10] != "rport" then None
      else
        var relatedPort := NumberBelow(ws[11], U16_LIMIT);
        if relatedPort.None? then None
        else
          Some(IceCandidate(t.value, ws[0][|CANDIDATE_PREFIX|..], component.value, ws[2], priority.value,
            ws[4], port.value, Some(ws[9]), Some(relatedPort.value)))
  }

  /** Text fields that a space would split. */
  predicate SpaceFree(c: IceCandidate)
  {
    NoSpace(c.foundation) && NoSpace(c.protocol) && NoSpace(c.address)
    && (c.relatedAddress.Some? ==> NoSpace(c.relatedAddress.value))
  }

  lemma DecimalNoSpace(n: nat)
    ensures NoSpace(DecimalString(n))
  {
    var s := DecimalString(n);
    forall i | 0 <= i < |s|
      ensures s[i] != ' '
    {
      assert IsDigit(s[i]);
    }
  }

  lemma NumberRoundTrip(n: nat, limit: nat)
    requires n < limit
    ensures NumberBelow(DecimalString(n), limit) == Some(n)
  {
    DecimalRoundTrip(n);
  }

  lemma {:induction false} PrefixNoSpace(w: string)
    requires NoSpace(w)
    ensures NoSpace(CANDIDATE_PREFIX + w)
  {
    var s := CANDIDATE_PREFIX + w;
    forall i | 0 <= i < |s|
      ensures s[i] != ' '
    {
      if i >= |CANDIDATE_PREFIX| {
        assert s[i] == w[i - |CANDIDATE_PREFIX|];
      }
    }
  }

  /**
   * `to_sdp` splits back into exactly the words it wrote: eight, ending
   * `typ <type>`, and four more `raddr <addr> rport <port>` when both are
   * present.
   */
  lemma SdpSplitsIntoWords(c: IceCandidate)
    requires SpaceFree(c)
    ensures Words(ToSdp(c)) == SdpWords(c)
    ensures Words(ToSdp(c))[0] == CANDIDATE_PREFIX + c.foundation
    ensures Words(ToSdp(c))[6..8] == ["typ", TypeName(c.candidateType)]
    ensures |Words(ToSdp(c))| == 12 <==> c.relatedAddress.Some? && c.relatedPort.Some?
  {
    var ws := SdpWords(c);
    PrefixNoSpace(c.foundation);
    DecimalNoSpace(c.component);
    DecimalNoSpace(c.priority);
    DecimalNoSpace(c.port);
    if c.relatedPort.Some? {
      DecimalNoSpace(c.relatedPort.value);
    }
    assert NoSpace(TypeName(c.candidateType));
    forall i | 0 <= i < |ws|
      ensures NoSpace(ws[i])
    {
      if i < 8 {
        assert ws[i] == HeadWords(c)[i];
      }
    }
    SdpIsJoin(c);
    WordsOfJoin(ws);
  }

  lemma SdpParsesWords(c: IceCandidate)
    requires SpaceFree(c)
    ensures c.relatedAddress.Some? && c.relatedPort.Some? ==> ParseSdp(ToSdp(c)) == Some(c)
    ensures !(c.relatedAddress.Some? && c.relatedPort.Some?) ==>
      ParseSdp(ToSdp(c)) == Some(c.(relatedAddress := None, relatedPort := None))
  {
    SdpSplitsIntoWords(c);
    var ws := SdpWords(c);
    assert ws[0] == CANDIDATE_PREFIX + c.foundation;
    assert ws[0][..|CANDIDATE_PREFIX|] == CANDIDATE_PREFIX;
    assert ws[0][|CANDIDATE_PREFIX|..] == c.foundation;
    NumberRoundTrip(c.component, U16_LIMIT);
    NumberRoundTrip(c.priority, U32_LIMIT);
    NumberRoundTrip(c.port, U16_LIMIT);
    assert TypeFromName(TypeName(c.candidateType)) == Some(c.candidateType);
    if c.relatedAddress.Some? && c.relatedPort.Some? {
      NumberRoundTrip(c.relatedPort.value, U16_LIMIT);
    }
  }

  /**
   * Reading back a `candidate:` line gives the candidate, as long as its
   * text fields hold no space and it has both or neither of a related
   * address and port.
   */
  lemma SdpRoundTrip(c: IceCandidate)
    requires SpaceFree(c)
    requires c.relatedAddress.Some? == c.relatedPort.Some?
    ensures ParseSdp(ToSdp(c)) == Some(c)
  {
    SdpParsesWords(c);
  }

  /**
   * A related address without a port, or a port without an address, is
   * dropped from the line: reading it back gives the candidate without
   * either.
   */
  lemma SdpDropsUnpairedRelated(c: IceCandidate)
    requires SpaceFree(c)
    requires c.relatedAddress.Some? != c.relatedPort.Some?
    ensures ParseSdp(ToSdp(c)) == Some(c.(relatedAddress := None, relatedPort := None))
  {
    SdpParsesWords(c);
  }

  /**
   * The line of a host candidate, as the test reads it: it starts
   * `candidate:`, names the address and says `typ host`.
   */
  lemma HostSdpWords(addr: SocketAddr, foundation: string, component: u16)
    requires component <= 256
    requires NoSpace(addr.ip) && NoSpace(foundation)
    ensures var ws := Words(ToSdp(NewHost(addr, foundation, component)));
      |ws| == 8 && ws[0] == CANDIDATE_PREFIX + foundation && ws[4] == addr.ip && ws[6..8] == ["typ", "host"]
  {
    var c := NewHost(addr, foundation, component);
    assert NoSpace("udp");
    SdpSplitsIntoWords(c);
  }

  // ---------------------------------------------------------------- gatherer

  /** `get_local_addresses`: only the loopback address, port 0. */
  const LOCAL_ADDRESSES: seq<SocketAddr> := [SocketAddr("127.0.0.1", 0)]

  /** The host candidate gathered for the `idx`-th local address. */
  function GatheredHost(addr: SocketAddr, idx: nat): (c: IceCandidate)
    ensures WellFormed(c) && c.candidateType == Host && c.component == 1
  {
    NewHost(addr, "host" + DecimalString(idx), 1)
  }

  class IceGatherer {
    var candidates: seq<IceCandidate>
    var state: IceConnectionState

    /** `IceGatherer::new`: no candidates, state `New`. */
    constructor ()
      ensures candidates == [] && state == New
    {
      candidates := [];
      state := New;
    }

    /**
     * `gather_host_candidates` over the given local addresses: one host
     * candidate of component 1 per address, founded `host<idx>`, appended
     * in order; the state does not change.
     */
    method GatherHostCandidates(interfaces: seq<SocketAddr>)
      modifies this
      ensures |candidates| == |old(candidates)| + |interfaces|
      ensures candidates[..|old(candidates)|] == old(candidates)
      ensures forall i :: 0 <= i < |interfaces| ==>
        candidates[|old(candidates)| + i] == GatheredHost(interfaces[i], i)
      ensures state == old(state)
    {
      for idx := 0 to |interfaces|
        invariant |candidates| == |old(candidates)| + idx
        invariant candidates[..|old(candidates)|] == old(candidates)
        invariant forall i :: 0 <= i < idx ==> candidates[|old(candidates)| + i] == GatheredHost(interfaces[i], i)
        invariant state == old(state)
      {
        candidates := candidates + [GatheredHost(interfaces[idx], idx)];
      }
    }

    function Candidates(): seq<IceCandidate>
      reads this
    {
      candidates
    }

    function State(): IceConnectionState
      reads this
    {
      state
    }
  }

  /** Gathered host candidates have pairwise distinct foundations. */
  lemma GatheredFoundationsDistinct(interfaces: seq<SocketAddr>, i: nat, j: nat)
    requires i < |interfaces| && j < |interfaces| && i != j
    ensures GatheredHost(interfaces[i], i).foundation != GatheredHost(interfaces[j], j).foundation
  {
    DecimalInjective(i, j);
    var a, b := "host" + DecimalString(i), "host" + DecimalString(j);
    assert a[4..] == DecimalString(i) && b[4..] == DecimalString(j);
  }

  /** A new gatherer on the local addresses holds one well-formed host candidate and is still `New`. */
  method GatherScenario() returns (gathered: seq<IceCandidate>, state: IceConnectionState)
    ensures |gathered| == 1 && gathered[0].candidateType == Host && WellFormed(gathered[0])
    ensures gathered[0].address == "127.0.0.1" && gathered[0].port == 0
    ensures state == New
  {
    var g := new IceGatherer();
    g.GatherHostCandidates(LOCAL_ADDRESSES);
    gathered := g.Candidates();
    assert gathered[0] == GatheredHost(LOCAL_ADDRESSES[0], 0);
    state := g.State();
  }
}
