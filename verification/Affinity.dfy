/** How near an address is to others, and how an agent's addresses are scored
    (src/management_discovery.rs). */
module Affinity {

  import opened Bytes
  import opened Fingerprint
  import Chunker

  const MIN_LOCAL_AFFINITY_PREFIX_BITS: nat := 8

  type Address = a: nat | a < U32

  // ---------------------------------------------------------------- common prefixes

  /** `x` without its low `n` bits. */
  function Shift(x: nat, n: nat): nat {
    if n == 0 then x else Shift(x / 2, n - 1)
  }

  function BitLength(x: nat): nat {
    if x == 0 then 0 else 1 + BitLength(x / 2)
  }

  lemma {:induction false} ShiftIsZero(x: nat, n: nat)
    ensures Shift(x, n) == 0 <==> BitLength(x) <= n
  {
    if n > 0 {
      ShiftIsZero(x / 2, n - 1);
    }
  }

  lemma {:induction false} ShiftXor(a: nat, b: nat, n: nat)
    ensures Shift(Xor(a, b), n) == Xor(Shift(a, n), Shift(b, n))
  {
    if n > 0 {
      XorHalves(a, b);
      ShiftXor(a / 2, b / 2, n - 1);
    }
  }

  lemma {:induction false} XorIsZero(a: nat, b: nat)
    ensures Xor(a, b) == 0 <==> a == b
    decreases a + b
  {
    if a + b != 0 {
      XorIsZero(a / 2, b / 2);
    }
  }

  lemma {:induction false} ShortWord(x: nat, k: nat)
    requires x < Chunker.Pow2(k)
    ensures BitLength(x) <= k
  {
    if k > 0 && x > 0 {
      ShortWord(x / 2, k - 1);
    }
  }

  lemma XorIsShort(a: Address, b: Address)
    ensures BitLength(Xor(a, b)) <= 32
  {
    Chunker.Pow2LargeStep(0);
    XorBelow(a, b, 32);
    ShortWord(Xor(a, b), 32);
  }

  /** `common_ipv4_prefix_bits`: the leading zeros of the exclusive or. */
  function CommonPrefix(a: Address, b: Address): (n: nat)
    ensures n <= 32
  {
    XorIsShort(a, b);
    32 - BitLength(Xor(a, b))
  }

  /** That is the length of the longest common prefix: the first `n` bits agree exactly when `n` is not
      above it. */
  lemma CommonPrefixMeans(a: Address, b: Address, n: nat)
    requires n <= 32
    ensures n <= CommonPrefix(a, b) <==> Shift(a, 32 - n) == Shift(b, 32 - n)
  {
    ShiftXor(a, b, 32 - n);
    XorIsZero(Shift(a, 32 - n), Shift(b, 32 - n));
    ShiftIsZero(Xor(a, b), 32 - n);
  }

  // ---------------------------------------------------------------- discovered agents

  /** An IPv6 endpoint is given by its printed form and by what printing leaves out, its flow label. */
  datatype Endpoint = V4(address: Address, port: nat) | V6(printed: string, unprinted: nat)

  datatype Identity = Instance(id: nat) | Unresolved(hostname: string, endpoint: Endpoint)

  datatype Agent = Agent(hostname: string, endpoint: Endpoint)

  datatype Resolved = Resolved(identity: Identity, agent: Agent)

  /** `automatic_lan_address_rank`. */
  function AddressRank(a: Address): nat {
    if Unusable(a) then 0 else if LinkLocal(a) then 1 else 2
  }

  /** Unspecified, loopback (127/8), multicast (224/4) or broadcast. */
  predicate Unusable(a: Address) {
    a == 0 || a / 0x100_0000 == 127 || a / 0x1000_0000 == 14 || a == 0xFFFF_FFFF
  }

  /** 169.254/16, section 2.1 of RFC 3927. */
  predicate LinkLocal(a: Address) {
    a / 0x1_0000 == 0xA9FE
  }

  /** The kinds of addresses by their first octets. */
  lemma AddressKinds(a: Address)
    ensures var o := BE(a, 4);
      && (LinkLocal(a) <==> o[0] == 169 && o[1] == 254)
      && (Unusable(a) <==>
          o == [0, 0, 0, 0] || o[0] == 127 || 224 <= o[0] < 240 || o == [255, 255, 255, 255])
      && AddressRank(a) == (if Unusable(a) then 0 else if LinkLocal(a) then 1 else 2)
  {
    var o := BE(a, 4);
    OctetsOf(a);
    assert o == [0, 0, 0, 0] <==> a == 0;
    assert o == [255, 255, 255, 255] <==> a == 0xFFFF_FFFF;
  }

  lemma OctetsOf(a: Address)
    ensures var o: seq<int> := BE(a, 4);
      && o[0] == a / 0x100_0000 && o[1] == a / 0x1_0000 % 256 && o[2] == a / 0x100 % 256 && o[3] == a % 256
      && a == 0x100_0000 * o[0] + 0x1_0000 * o[1] + 0x100 * o[2] + o[3]
  {
    BESnoc(a, 4);
    BESnoc(a / 256, 3);
    BESnoc(a / 256 / 256, 2);
    BESnoc(a / 256 / 256 / 256, 1);
    assert a / 256 / 256 == a / 0x1_0000 && a / 256 / 256 / 256 == a / 0x100_0000;
  }

  // ---------------------------------------------------------------- local networks

  /** The local addresses with the ranks of their interfaces. */
  type Interfaces = seq<(Address, byte)>

  /** The better of two interfaces: the longer prefix, then the higher rank. */
  predicate Nearer(p: nat, r: nat, q: nat, s: nat) {
    p > q || (p == q && r > s)
  }

  /** The longest prefix shared with a local address, and the best rank among the interfaces that share
      it. */
  function Nearest(a: Address, interfaces: Interfaces): (nat, nat) {
    if interfaces == [] then (0, 0)
    else
      var best := Nearest(a, interfaces[..|interfaces| - 1]);
      var (local, rank) := interfaces[|interfaces| - 1];
      if Nearer(CommonPrefix(a, local), rank, best.0, best.1) then (CommonPrefix(a, local), rank) else best
  }

  lemma {:induction false} NearestMeans(a: Address, interfaces: Interfaces)
    ensures var (p, r) := Nearest(a, interfaces);
      && (forall i | 0 <= i < |interfaces| :: !Nearer(CommonPrefix(a, interfaces[i].0), interfaces[i].1, p, r))
      && ((p, r) == (0, 0) ||
          exists i | 0 <= i < |interfaces| :: p == CommonPrefix(a, interfaces[i].0) && r == interfaces[i].1)
  {
    if interfaces != [] {
      var init := interfaces[..|interfaces| - 1];
      NearestMeans(a, init);
      var (p, r) := Nearest(a, init);
      if exists i | 0 <= i < |init| :: p == CommonPrefix(a, init[i].0) && r == init[i].1 {
        var i :| 0 <= i < |init| && p == CommonPrefix(a, init[i].0) && r == init[i].1;
        assert interfaces[i] == init[i];
      }
      forall i | 0 <= i < |init|
        ensures !Nearer(CommonPrefix(a, interfaces[i].0), interfaces[i].1, p, r)
      {
        assert interfaces[i] == init[i];
      }
    }
  }

  /** `local_network_affinity_score`. */
  function LocalAffinity(a: Address, interfaces: Interfaces): (nat, nat) {
    var (p, r) := Nearest(a, interfaces);
    if p < MIN_LOCAL_AFFINITY_PREFIX_BITS then (0, 0) else (r, p)
  }

  /** The local score in plain terms: nothing unless some interface shares at least eight leading bits, and then
      the longest shared prefix and the best rank among the interfaces that share it. */
  lemma LocalAffinityMeans(a: Address, interfaces: Interfaces)
    ensures var (rank, prefix) := LocalAffinity(a, interfaces);
      && ((rank, prefix) == (0, 0) || prefix >= 8)
      && ((rank, prefix) == (0, 0) ==> forall i | 0 <= i < |interfaces| :: CommonPrefix(a, interfaces[i].0) < 8)
      && (prefix >= 8 ==>
          && (forall i | 0 <= i < |interfaces| :: CommonPrefix(a, interfaces[i].0) <= prefix)
          && (forall i | 0 <= i < |interfaces| && CommonPrefix(a, interfaces[i].0) == prefix ::
                interfaces[i].1 <= rank)
          && (exists i | 0 <= i < |interfaces| ::
                CommonPrefix(a, interfaces[i].0) == prefix && interfaces[i].1 == rank))
  {
    NearestMeans(a, interfaces);
    var (p, r) := Nearest(a, interfaces);
    assert forall i | 0 <= i < |interfaces| :: !Nearer(CommonPrefix(a, interfaces[i].0), interfaces[i].1, p, r);
  }

  method ScoreLocal(a: Address, interfaces: Interfaces) returns (rank: nat, prefix: nat)
    ensures (rank, prefix) == LocalAffinity(a, interfaces)
  {
    var bestPrefix, bestRank := 0, 0;
    for i := 0 to |interfaces|
      invariant (bestPrefix, bestRank) == Nearest(a, interfaces[..i])
    {
      assert interfaces[..i + 1][..i] == interfaces[..i];
      var p := CommonPrefix(a, interfaces[i].0);
      if p > bestPrefix || (p == bestPrefix && interfaces[i].1 > bestRank) {
        bestPrefix, bestRank := p, interfaces[i].1;
      }
    }
    assert interfaces[..|interfaces|] == interfaces;
    if bestPrefix < MIN_LOCAL_AFFINITY_PREFIX_BITS {
      return 0, 0;
    }
    return bestRank, bestPrefix;
  }

  // ---------------------------------------------------------------- routes to other agents

  /** What one discovered agent contributes to the score of an address of `id`. */
  function Contribution(id: Identity, a: Address, r: Resolved): (n: nat)
    ensures n <= 32
  {
    if r.identity == id || r.agent.endpoint.V6? then 0 else CommonPrefix(a, r.agent.endpoint.address)
  }

  function RouteMaximum(id: Identity, a: Address, agents: seq<Resolved>): nat {
    if agents == [] then 0
    else
      var m, c := RouteMaximum(id, a, agents[..|agents| - 1]), Contribution(id, a, agents[|agents| - 1]);
      if c > m then c else m
  }

  function RouteTotal(id: Identity, a: Address, agents: seq<Resolved>): nat {
    if agents == [] then 0
    else RouteTotal(id, a, agents[..|agents| - 1]) + Contribution(id, a, agents[|agents| - 1])
  }

  function Saturated(n: nat): nat {
    if n < U32 then n else U32 - 1
  }

  /** `route_affinity_score`. Adding with saturation at every step is saturating the sum. */
  method ScoreRoutes(id: Identity, a: Address, agents: seq<Resolved>) returns (maximum: nat, total: nat)
    ensures maximum == RouteMaximum(id, a, agents) && total == Saturated(RouteTotal(id, a, agents))
  {
    maximum, total := 0, 0;
    for i := 0 to |agents|
      invariant maximum == RouteMaximum(id, a, agents[..i]) && total == Saturated(RouteTotal(id, a, agents[..i]))
    {
      assert agents[..i + 1][..i] == agents[..i];
      if agents[i].identity == id || agents[i].agent.endpoint.V6? {
        continue;
      }
      var prefix := CommonPrefix(a, agents[i].agent.endpoint.address);
      maximum := if prefix > maximum then prefix else maximum;
      total := Saturated(total + prefix);
    }
    assert agents[..|agents|] == agents;
  }

  lemma {:induction false} RoutesAppend(id: Identity, a: Address, xs: seq<Resolved>, ys: seq<Resolved>)
    ensures RouteTotal(id, a, xs + ys) == RouteTotal(id, a, xs) + RouteTotal(id, a, ys)
    ensures RouteMaximum(id, a, xs + ys) == Larger(RouteMaximum(id, a, xs), RouteMaximum(id, a, ys))
  {
    if ys == [] {
      assert xs + ys == xs;
    } else {
      RoutesAppend(id, a, xs, ys[..|ys| - 1]);
      assert (xs + ys)[..|xs + ys| - 1] == xs + ys[..|ys| - 1];
    }
  }

  function Larger(m: nat, n: nat): nat {
    if m > n then m else n
  }

  lemma RoutesOfOne(id: Identity, a: Address, r: Resolved)
    ensures RouteTotal(id, a, [r]) == Contribution(id, a, r)
    ensures RouteMaximum(id, a, [r]) == Contribution(id, a, r)
  {
    assert [r][..0] == [];
  }

  /** Taking one element out of the middle. */
  lemma RoutesWithout(id: Identity, a: Address, xs: seq<Resolved>, r: Resolved, ys: seq<Resolved>)
    ensures RouteTotal(id, a, xs + [r] + ys) == RouteTotal(id, a, xs + ys) + Contribution(id, a, r)
    ensures RouteMaximum(id, a, xs + [r] + ys) == Larger(RouteMaximum(id, a, xs + ys), Contribution(id, a, r))
  {
    RoutesOfOne(id, a, r);
    RoutesAppend(id, a, xs, [r]);
    RoutesAppend(id, a, xs + [r], ys);
    RoutesAppend(id, a, xs, ys);
  }

  /** In a permutation of `init + [r]`, `r` stands between two parts that permute `init`. */
  lemma FindIn(init: seq<Resolved>, r: Resolved, ys: seq<Resolved>)
    returns (before: seq<Resolved>, after: seq<Resolved>)
    requires multiset(init + [r]) == multiset(ys)
    ensures ys == before + [r] + after && multiset(init) == multiset(before + after)
  {
    assert multiset(init + [r]) == multiset(init) + multiset{r};
    assert r in multiset(ys);
    var i :| 0 <= i < |ys| && ys[i] == r;
    before, after := ys[..i], ys[i + 1..];
    assert ys == before + [r] + after;
    assert multiset(ys) == multiset(before + after) + multiset{r};
    assert multiset(init) == multiset(ys) - multiset{r};
  }

  /** The order in which the agents answered does not matter to the routes. */
  lemma {:induction false} RoutesPermute(id: Identity, a: Address, xs: seq<Resolved>, ys: seq<Resolved>)
    requires multiset(xs) == multiset(ys)
    ensures RouteTotal(id, a, xs) == RouteTotal(id, a, ys)
    ensures RouteMaximum(id, a, xs) == RouteMaximum(id, a, ys)
  {
    if xs == [] {
      assert |multiset(ys)| == 0;
    } else {
      var init, r := xs[..|xs| - 1], xs[|xs| - 1];
      assert xs == init + [r] == init + [r] + [];
      var before, after := FindIn(init, r, ys);
      RoutesPermute(id, a, init, before + after);
      RoutesWithout(id, a, before, r, after);
      RoutesWithout(id, a, init, r, []);
      assert init + [] == init;
    }
  }

  /** What counts towards a route score: the IPv4 answers of other agents, and nothing else. */
  predicate Counts(id: Identity, r: Resolved) {
    r.identity != id && r.agent.endpoint.V4?
  }

  lemma {:induction false} RouteMaximumMeans(id: Identity, a: Address, agents: seq<Resolved>)
    ensures forall r <- agents ::
      Counts(id, r) ==> CommonPrefix(a, r.agent.endpoint.address) <= RouteMaximum(id, a, agents)
    ensures RouteMaximum(id, a, agents) == 0 ||
      exists r <- agents :: Counts(id, r) && CommonPrefix(a, r.agent.endpoint.address) == RouteMaximum(id, a, agents)
  {
    if agents != [] {
      var init, last := agents[..|agents| - 1], agents[|agents| - 1];
      RouteMaximumMeans(id, a, init);
      assert agents == init + [last];
      var m := RouteMaximum(id, a, init);
      if m > 0 {
        var r :| r in init && Counts(id, r) && CommonPrefix(a, r.agent.endpoint.address) == m;
        assert r in agents;
      }
      assert last in agents;
    }
  }

  /** The route total adds up the shared prefixes of what counts. */
  lemma RouteTotalMeans(id: Identity, a: Address, agents: seq<Resolved>, r: Resolved)
    ensures RouteTotal(id, a, []) == 0
    ensures Counts(id, r) ==>
      RouteTotal(id, a, agents + [r]) == RouteTotal(id, a, agents) + CommonPrefix(a, r.agent.endpoint.address)
    ensures !Counts(id, r) ==> RouteTotal(id, a, agents + [r]) == RouteTotal(id, a, agents)
  {
    assert (agents + [r])[..|agents|] == agents;
  }

  // ---------------------------------------------------------------- the score

  datatype Score = Score(addressRank: nat, interfaceRank: nat, localPrefix: nat, remoteMaximum: nat, remoteTotal: nat)

  /** The lexicographic order of scores. */
  predicate Better(s: Score, t: Score) {
    s.addressRank > t.addressRank || (s.addressRank == t.addressRank && (
    s.interfaceRank > t.interfaceRank || (s.interfaceRank == t.interfaceRank && (
    s.localPrefix > t.localPrefix || (s.localPrefix == t.localPrefix && (
    s.remoteMaximum > t.remoteMaximum || (s.remoteMaximum == t.remoteMaximum && (
    s.remoteTotal > t.remoteTotal))))))))
  }

  function ScoreOf(id: Identity, e: Endpoint, agents: seq<Resolved>, interfaces: Interfaces): Score {
    match e
    case V6(_, _) => Score(0, 0, 0, 0, 0)
    case V4(a, _) =>
      var local := LocalAffinity(a, interfaces);
      Score(AddressRank(a), local.0, local.1, RouteMaximum(id, a, agents), Saturated(RouteTotal(id, a, agents)))
  }

  /** What each part of the score is. */
  lemma ScoreAt(id: Identity, e: Endpoint, agents: seq<Resolved>, interfaces: Interfaces)
    ensures var s := ScoreOf(id, e, agents, interfaces);
      && (e.V6? ==>
          && s.addressRank == 0 && s.interfaceRank == 0 && s.localPrefix == 0
          && s.remoteMaximum == 0 && s.remoteTotal == 0)
      && (e.V4? ==>
          && s.addressRank == AddressRank(e.address)
          && (s.interfaceRank, s.localPrefix) == LocalAffinity(e.address, interfaces)
          && s.remoteMaximum == RouteMaximum(id, e.address, agents)
          && s.remoteTotal == (var n := RouteTotal(id, e.address, agents); if n < U32 then n else U32 - 1))
  {
  }

  /** `candidate_preference_score`. */
  method ScoreCandidate(id: Identity, e: Endpoint, agents: seq<Resolved>, interfaces: Interfaces)
    returns (s: Score)
    ensures s == ScoreOf(id, e, agents, interfaces)
  {
    match e
    case V6(_, _) =>
      return Score(0, 0, 0, 0, 0);
    case V4(a, _) =>
      var rank, prefix := ScoreLocal(a, interfaces);
      var maximum, total := ScoreRoutes(id, a, agents);
      return Score(AddressRank(a), rank, prefix, maximum, total);
  }

  /** Scores depend on who answered, not on the order of the answers. */
  lemma ScorePermutes(id: Identity, e: Endpoint, xs: seq<Resolved>, ys: seq<Resolved>, interfaces: Interfaces)
    requires multiset(xs) == multiset(ys)
    ensures ScoreOf(id, e, xs, interfaces) == ScoreOf(id, e, ys, interfaces)
  {
    if e.V4? {
      RoutesPermute(id, e.address, xs, ys);
    }
  }
}
