/** The rendered gateway firewall and its meaning (scripts/gateway_rendering.py, firewall): the rule
    list in the order in which it is handed to nft, evaluated first match first per hook. */
module GatewayFirewall {
  import opened RegionalAgreements
  import Contracts = GatewayContracts
  import GatewayMachine

  const TAILSCALE: string := "tailscale0"
  const REGIONAL_PORT: nat := 443
  const PROXY_PORT: nat := 3128

  datatype Hook = Input | Output | Forward

  datatype Packet = Packet(
    hook: Hook, iif: string, oif: string, ipv4: bool, source: Address, destination: Address,
    tcp: bool, sport: nat, dport: nat, established: bool)

  datatype Interface = AnyInterface | Named(names: set<string>) | Except(name: string)
  datatype Port = AnyPort | Source(port: nat) | Destination(port: nat)
  datatype Addresses = AnyAddress | Peers | Listed(addresses: set<Address>) | Overlay
  datatype Verdict = Accept | Drop

  datatype FilterRule = FilterRule(
    hook: Hook, iif: Interface, oif: Interface, port: Port, source: Addresses, destination: Addresses, verdict: Verdict)

  /** One element of the peer set, with its timeout in seconds. */
  datatype Member = Member(address: Address, seconds: nat)

  datatype Ruleset = Ruleset(members: seq<Member>, rules: seq<FilterRule>)

  // ----- First-match meaning -----

  predicate InterfaceMatches(m: Interface, name: string) {
    match m
    case AnyInterface => true
    case Named(names) => name in names
    case Except(other) => name != other
  }

  predicate PortMatches(m: Port, p: Packet) {
    match m
    case AnyPort => true
    case Source(n) => p.tcp && p.sport == n
    case Destination(n) => p.tcp && p.dport == n
  }

  /** An `ip` expression never matches an IPv6 packet. */
  predicate AddressMatches(m: Addresses, ipv4: bool, a: Address, peers: set<Address>) {
    match m
    case AnyAddress => true
    case Peers => ipv4 && a in peers
    case Listed(s) => ipv4 && a in s
    case Overlay => ipv4 && InRegionalOverlay(a)
  }

  predicate Matches(r: FilterRule, p: Packet, peers: set<Address>) {
    && r.hook == p.hook && InterfaceMatches(r.iif, p.iif) && InterfaceMatches(r.oif, p.oif) && PortMatches(r.port, p)
    && AddressMatches(r.source, p.ipv4, p.source, peers) && AddressMatches(r.destination, p.ipv4, p.destination, peers)
  }

  /** The chains' policy is accept. */
  function Evaluate(rules: seq<FilterRule>, p: Packet, peers: set<Address>): Verdict {
    if rules == [] then Accept
    else if Matches(rules[0], p, peers) then rules[0].verdict
    else Evaluate(rules[1..], p, peers)
  }

  lemma {:induction false} EvaluateSplit(a: seq<FilterRule>, b: seq<FilterRule>, p: Packet, peers: set<Address>)
    ensures Evaluate(a + b, p, peers)
            == if exists r :: r in a && Matches(r, p, peers) then Evaluate(a, p, peers) else Evaluate(b, p, peers)
  {
    if a == [] {
      assert a + b == b;
    } else {
      assert (a + b)[1..] == a[1..] + b;
      EvaluateSplit(a[1..], b, p, peers);
      assert a == [a[0]] + a[1..];
      assert a[0] in a && forall r :: r in a <==> r == a[0] || r in a[1..];
    }
  }

  // ----- The rendered rules -----

  function SelectorRules(s: Port): seq<FilterRule> {
    var ts := Named({TAILSCALE});
    [ FilterRule(Input, ts, AnyInterface, s, Peers, AnyAddress, Accept),
      FilterRule(Input, ts, AnyInterface, s, AnyAddress, AnyAddress, Drop),
      FilterRule(Output, AnyInterface, ts, s, AnyAddress, Peers, Accept),
      FilterRule(Output, AnyInterface, ts, s, AnyAddress, AnyAddress, Drop),
      FilterRule(Output, AnyInterface, Except(TAILSCALE), s, AnyAddress, Overlay, Drop) ]
  }

  function SelectorsRules(selectors: seq<Port>): seq<FilterRule> {
    if selectors == [] then []
    else SelectorsRules(selectors[..|selectors| - 1]) + SelectorRules(selectors[|selectors| - 1])
  }

  const SELECTORS: seq<Port> := [Destination(REGIONAL_PORT), Source(REGIONAL_PORT)]

  function LanRules(lan: string, local: Address, sources: set<Address>): seq<FilterRule> {
    [FilterRule(Input, Except(TAILSCALE), AnyInterface, Destination(REGIONAL_PORT), AnyAddress, Overlay, Drop)]
    + (if sources == {} then []
       else [FilterRule(Input, Named({lan}), AnyInterface, Destination(PROXY_PORT), Listed(sources), Listed({local}), Accept)])
    + [ FilterRule(Input, AnyInterface, AnyInterface, Destination(PROXY_PORT), AnyAddress, AnyAddress, Drop),
        FilterRule(Forward, Named({TAILSCALE, lan}), AnyInterface, AnyPort, AnyAddress, AnyAddress, Drop),
        FilterRule(Forward, AnyInterface, Named({TAILSCALE, lan}), AnyPort, AnyAddress, AnyAddress, Drop) ]
  }

  function MembersOf(peers: seq<Contracts.Rule>, now: Time): seq<Member> {
    if peers == [] then []
    else
      var last := peers[|peers| - 1];
      MembersOf(peers[..|peers| - 1], now)
      + (if last.expiresAt > now && last.services * SERVICES != {} then [Member(last.address, last.expiresAt - now)] else [])
  }

  function AddressesOf(members: seq<Member>): set<Address> {
    set m | m in members :: m.address
  }

  // ----- Members -----

  /** The rendered set holds exactly the unexpired peers with a supported service, each for the rest
      of its agreement. */
  lemma {:induction false} MembersAre(peers: seq<Contracts.Rule>, now: Time)
    ensures forall m :: m in MembersOf(peers, now) <==>
              exists r :: r in peers && r.expiresAt > now && r.services * SERVICES != {}
                          && m == Member(r.address, r.expiresAt - now)
  {
    if peers != [] {
      var front, last := peers[..|peers| - 1], peers[|peers| - 1];
      assert peers == front + [last];
      MembersAre(front, now);
      assert forall r :: r in peers <==> r in front || r == last;
    }
  }

  /** The addresses of the rendered set are those that the gateway machine installs. */
  lemma MembersInstalled(peers: seq<Contracts.Rule>, second: Time)
    ensures AddressesOf(MembersOf(peers, second + 1)) == GatewayMachine.Members(peers, second)
  {
    MembersAre(peers, second + 1);
    var members := MembersOf(peers, second + 1);
    forall a ensures a in AddressesOf(members) <==> a in GatewayMachine.Members(peers, second) {
      if a in GatewayMachine.Members(peers, second) {
        var r :| r in peers && r.expiresAt > second + 1 && r.services * SERVICES != {} && r.address == a;
        assert Member(r.address, r.expiresAt - (second + 1)) in members;
      }
    }
  }

  // ----- Meaning -----

  predicate Regional(p: Packet) {
    p.tcp && (p.sport == REGIONAL_PORT || p.dport == REGIONAL_PORT)
  }

  /** What the firewall is for, stated by traffic instead of by rules. */
  predicate Permitted(p: Packet, peers: set<Address>, lan: string, local: Address, sources: set<Address>) {
    match p.hook
    case Input =>
      if p.iif == TAILSCALE && Regional(p) then p.ipv4 && p.source in peers
      else if p.tcp && p.dport == REGIONAL_PORT && p.ipv4 && InRegionalOverlay(p.destination) then p.iif == TAILSCALE
      else if p.tcp && p.dport == PROXY_PORT then
        p.iif == lan && p.ipv4 && p.source in sources && p.destination == local
      else true
    case Output =>
      if !Regional(p) then true
      else if p.oif == TAILSCALE then p.ipv4 && p.destination in peers
      else !(p.ipv4 && InRegionalOverlay(p.destination))
    case Forward => p.iif !in {TAILSCALE, lan} && p.oif !in {TAILSCALE, lan}
  }

  lemma Unroll(rules: seq<FilterRule>, i: nat, p: Packet, peers: set<Address>)
    requires i < |rules|
    ensures Evaluate(rules[i..], p, peers)
            == if Matches(rules[i], p, peers) then rules[i].verdict else Evaluate(rules[i + 1..], p, peers)
  {
    assert rules[i..][0] == rules[i] && rules[i..][1..] == rules[i + 1..];
  }

  lemma SelectorRulesMatch(s: Port, p: Packet, peers: set<Address>)
    ensures var rules, port := SelectorRules(s), PortMatches(s, p);
            && |rules| == 5
            && (Matches(rules[0], p, peers)
                <==> port && p.hook == Input && p.iif == TAILSCALE && p.ipv4 && p.source in peers)
            && (Matches(rules[1], p, peers) <==> port && p.hook == Input && p.iif == TAILSCALE)
            && (Matches(rules[2], p, peers)
                <==> port && p.hook == Output && p.oif == TAILSCALE && p.ipv4 && p.destination in peers)
            && (Matches(rules[3], p, peers) <==> port && p.hook == Output && p.oif == TAILSCALE)
            && (Matches(rules[4], p, peers)
                <==> port && p.hook == Output && p.oif != TAILSCALE && p.ipv4 && InRegionalOverlay(p.destination))
            && rules[0].verdict == rules[2].verdict == Accept
            && rules[1].verdict == rules[3].verdict == rules[4].verdict == Drop
  {
    hide InRegionalOverlay, PortMatches;
  }

  lemma SelectorMeaning(s: Port, p: Packet, peers: set<Address>)
    ensures (exists r :: r in SelectorRules(s) && Matches(r, p, peers)) <==>
            && PortMatches(s, p)
            && (|| (p.hook == Input && p.iif == TAILSCALE)
                || (p.hook == Output && (p.oif == TAILSCALE || (p.ipv4 && InRegionalOverlay(p.destination)))))
    ensures (exists r :: r in SelectorRules(s) && Matches(r, p, peers)) ==>
              Evaluate(SelectorRules(s), p, peers) ==
              if p.hook == Input then (if p.ipv4 && p.source in peers then Accept else Drop)
              else if p.oif == TAILSCALE && p.ipv4 && p.destination in peers then Accept else Drop
  {
    hide Matches, SelectorRules, InRegionalOverlay, PortMatches;
    var rules := SelectorRules(s);
    SelectorRulesMatch(s, p, peers);
    assert rules[0..] == rules && rules[5..] == [];
    Unroll(rules, 0, p, peers);
    Unroll(rules, 1, p, peers);
    Unroll(rules, 2, p, peers);
    Unroll(rules, 3, p, peers);
    Unroll(rules, 4, p, peers);
    assert rules[0] in rules && rules[1] in rules && rules[2] in rules && rules[3] in rules && rules[4] in rules;
  }

  lemma LanMeaning(p: Packet, peers: set<Address>, lan: string, local: Address, sources: set<Address>)
    ensures Evaluate(LanRules(lan, local, sources), p, peers) ==
            match p.hook
            case Input =>
              if p.iif != TAILSCALE && p.tcp && p.dport == REGIONAL_PORT && p.ipv4 && InRegionalOverlay(p.destination) then Drop
              else if p.tcp && p.dport == PROXY_PORT then
                if p.iif == lan && p.ipv4 && p.source in sources && p.destination == local then Accept else Drop
              else Accept
            case Output => Accept
            case Forward => if p.iif in {TAILSCALE, lan} || p.oif in {TAILSCALE, lan} then Drop else Accept
  {
    var rules := LanRules(lan, local, sources);
    var n := |rules|;
    assert rules[0..] == rules && rules[n..] == [];
    Unroll(rules, n - 1, p, peers);
    Unroll(rules, n - 2, p, peers);
    Unroll(rules, n - 3, p, peers);
    Unroll(rules, n - 4, p, peers);
    Unroll(rules, 0, p, peers);
  }

  /** The rendered rules accept a packet exactly when its traffic is permitted: regional traffic only
      to and from current peers whatever the state of its connection, the proxy only from declared
      sources, nothing forwarded. */
  lemma FirewallMeaning(p: Packet, peers: set<Address>, lan: string, local: Address, sources: set<Address>)
    requires lan != TAILSCALE
    ensures Evaluate(SelectorsRules(SELECTORS) + LanRules(lan, local, sources), p, peers).Accept?
            <==> Permitted(p, peers, lan, local, sources)
  {
    var first, second, rest := SelectorRules(SELECTORS[0]), SelectorRules(SELECTORS[1]), LanRules(lan, local, sources);
    assert SELECTORS[..1] == [SELECTORS[0]] && SELECTORS[..1][..0] == [];
    assert SELECTORS[..|SELECTORS| - 1] == SELECTORS[..1];
    assert SelectorsRules(SELECTORS[..1]) == [] + first;
    assert SelectorsRules(SELECTORS) == first + second;
    assert first + second + rest == first + (second + rest);
    EvaluateSplit(first, second + rest, p, peers);
    EvaluateSplit(second, rest, p, peers);
    SelectorMeaning(SELECTORS[0], p, peers);
    SelectorMeaning(SELECTORS[1], p, peers);
    LanMeaning(p, peers, lan, local, sources);
    hide Evaluate, SelectorRules, LanRules, Matches;
  }

  /** With the empty peer set the gateway is closed to the region. */
  lemma ClosedMeansClosed(p: Packet, lan: string, local: Address, sources: set<Address>)
    requires lan != TAILSCALE && Regional(p)
    requires (p.hook == Input && p.iif == TAILSCALE) || (p.hook == Output && p.oif == TAILSCALE)
    ensures Evaluate(SelectorsRules(SELECTORS) + LanRules(lan, local, sources), p, {}).Drop?
  {
    FirewallMeaning(p, {}, lan, local, sources);
  }

  // ----- Rendering -----

  /** The addresses of the unexpired peers with a supported service. */
  function Admitted(peers: seq<Contracts.Rule>, now: Time): set<Address> {
    set x | x in peers && x.expiresAt > now && x.services * SERVICES != {} :: x.address
  }

  lemma RenderedMeaning(peers: seq<Contracts.Rule>, lan: string, local: Address, sources: set<Address>, now: Time)
    ensures AddressesOf(MembersOf(peers, now)) == Admitted(peers, now)
    ensures forall m :: m in MembersOf(peers, now) <==>
              exists p :: p in peers && p.expiresAt > now && p.services * SERVICES != {}
                          && m == Member(p.address, p.expiresAt - now)
    ensures lan != TAILSCALE ==>
              forall p :: Evaluate(SelectorsRules(SELECTORS) + LanRules(lan, local, sources), p, AddressesOf(MembersOf(peers, now))).Accept?
                          <==> Permitted(p, Admitted(peers, now), lan, local, sources)
  {
    hide MembersOf, Evaluate, Permitted, SelectorsRules, LanRules;
    MembersAre(peers, now);
    var members := MembersOf(peers, now);
    forall a ensures a in AddressesOf(members) <==> a in Admitted(peers, now) {
      if a in Admitted(peers, now) {
        var x :| x in peers && x.expiresAt > now && x.services * SERVICES != {} && x.address == a;
        assert Member(x.address, x.expiresAt - now) in members;
      }
    }
    assert AddressesOf(members) == Admitted(peers, now);
    if lan != TAILSCALE {
      forall p
        ensures Evaluate(SelectorsRules(SELECTORS) + LanRules(lan, local, sources), p, AddressesOf(members)).Accept?
                <==> Permitted(p, Admitted(peers, now), lan, local, sources)
      {
        FirewallMeaning(p, Admitted(peers, now), lan, local, sources);
      }
    }
  }

  method Render(peers: seq<Contracts.Rule>, lan: string, local: Address, sources: set<Address>, now: Time)
    returns (r: Ruleset)
    // The peer set admits the unexpired peers with a supported service, each for the rest of its agreement.
    ensures AddressesOf(r.members) == Admitted(peers, now)
    ensures forall m :: m in r.members <==>
              exists p :: p in peers && p.expiresAt > now && p.services * SERVICES != {}
                          && m == Member(p.address, p.expiresAt - now)
    // First match first, the rules accept exactly the permitted traffic of these peers.
    ensures lan != TAILSCALE ==>
              forall p :: Evaluate(r.rules, p, AddressesOf(r.members)).Accept?
                          <==> Permitted(p, Admitted(peers, now), lan, local, sources)
    // The order in which the parts are handed to nft.
    ensures r.members == MembersOf(peers, now)
    ensures r.rules == SelectorsRules(SELECTORS) + LanRules(lan, local, sources)
  {
    var members: seq<Member> := [];
    for i := 0 to |peers|
      invariant members == MembersOf(peers[..i], now)
    {
      assert peers[..i + 1][..i] == peers[..i];
      if peers[i].expiresAt > now && peers[i].services * SERVICES != {} {
        members := members + [Member(peers[i].address, peers[i].expiresAt - now)];
      }
    }
    assert peers[..|peers|] == peers;
    var rules: seq<FilterRule> := [];
    for i := 0 to |SELECTORS|
      invariant rules == SelectorsRules(SELECTORS[..i])
    {
      assert SELECTORS[..i + 1][..i] == SELECTORS[..i];
      rules := rules + SelectorRules(SELECTORS[i]);
    }
    assert SELECTORS[..|SELECTORS|] == SELECTORS;
    r := Ruleset(members, rules + LanRules(lan, local, sources));
    RenderedMeaning(peers, lan, local, sources, now);
  }
}
