/** One endpoint per discovered agent (src/management_discovery.rs,
    `deduplicate_resolved_agents_with_local_interface_ranks`). */
module Discovery {

  import opened Bytes
  import opened Affinity

  // ---------------------------------------------------------------- printed endpoints

  function DigitChar(d: nat): char
    requires d < 10
  {
    (48 + d) as char
  }

  function Decimal(n: nat): (s: string)
    ensures s != [] && forall c <- s :: '0' <= c <= '9'
  {
    if n < 10 then [DigitChar(n)] else Decimal(n / 10) + [DigitChar(n % 10)]
  }

  lemma {:induction false} DecimalIsInjective(m: nat, n: nat)
    requires Decimal(m) == Decimal(n)
    ensures m == n
  {
    var s, t := Decimal(m), Decimal(n);
    assert s[|s| - 1] == DigitChar(m % 10) && t[|t| - 1] == DigitChar(n % 10);
    if m >= 10 && n >= 10 {
      assert s[..|s| - 1] == Decimal(m / 10) && t[..|t| - 1] == Decimal(n / 10);
      DecimalIsInjective(m / 10, n / 10);
    }
  }

  /** A number ends at the first character that is not a digit. */
  lemma NumberEnds(m: nat, n: nat, sep: char, s: string, t: string)
    requires !('0' <= sep <= '9') && Decimal(m) + [sep] + s == Decimal(n) + [sep] + t
    ensures m == n && s == t
  {
    var u, v := Decimal(m), Decimal(n);
    NotShorter(u, v, sep, s, t);
    NotShorter(v, u, sep, t, s);
    var w := u + [sep] + s;
    assert u == w[..|u|] == v;
    assert s == w[|u| + 1..] == t;
    DecimalIsInjective(m, n);
  }

  lemma NotShorter(u: string, v: string, sep: char, s: string, t: string)
    requires sep !in v && u + [sep] + s == v + [sep] + t
    ensures |u| >= |v|
  {
    var w := v + [sep] + t;
    assert w[|u|] == sep;
    assert forall i | 0 <= i < |v| :: w[i] == v[i];
  }

  /** Octet `k` of an address, counting from the most significant. */
  function Octet(a: Address, k: nat): nat
    requires k < 4
  {
    BE(a, 4)[k]
  }

  function PortText(o: nat, port: nat): string {
    Decimal(o) + [':'] + Decimal(port)
  }

  /** `SocketAddr::to_string`. */
  function Text(e: Endpoint): string {
    match e
    case V6(printed, _) => printed
    case V4(a, port) =>
      Decimal(Octet(a, 0)) + ['.'] + (Decimal(Octet(a, 1)) + ['.'] +
      (Decimal(Octet(a, 2)) + ['.'] + PortText(Octet(a, 3), port)))
  }

  /** An IPv4 endpoint prints as its four octets in decimal, separated by dots, a colon and the port. */
  lemma TextAt(a: Address, port: nat)
    ensures Text(V4(a, port)) ==
      Decimal(a / 0x100_0000) + "." + Decimal(a / 0x1_0000 % 256) + "." + Decimal(a / 0x100 % 256) + "."
      + Decimal(a % 256) + ":" + Decimal(port)
  {
    OctetsOf(a);
    Dotted(Decimal(Octet(a, 0)), Decimal(Octet(a, 1)), Decimal(Octet(a, 2)), Decimal(Octet(a, 3)), Decimal(port));
  }

  lemma Dotted(a: string, b: string, c: string, d: string, p: string)
    ensures a + "." + (b + "." + (c + "." + (d + ":" + p))) == a + "." + b + "." + c + "." + d + ":" + p
  {
    DotJoins(c + ".", d + ":", p);
    DotJoins(b + ".", c + "." + d + ":", p);
    DotJoins(b + ".", c + ".", d + ":");
    DotJoins(a + ".", b + "." + c + "." + d + ":", p);
    DotJoins(a + ".", b + "." + c + ".", d + ":");
    DotJoins(a + ".", b + ".", c + ".");
  }

  lemma DotJoins(a: string, b: string, c: string)
    ensures a + (b + c) == a + b + c
  {
  }

  /** The number a string of digits stands for. */
  function Value(s: string): int {
    if s == [] then 0 else 10 * Value(s[..|s| - 1]) + (s[|s| - 1] as int - 48)
  }

  /** A number is printed in decimal, without leading zeros. */
  lemma {:induction false} DecimalMeans(n: nat)
    ensures Value(Decimal(n)) == n && (Decimal(n)[0] == '0' ==> n == 0)
  {
    var s := Decimal(n);
    if n >= 10 {
      DecimalMeans(n / 10);
      assert s[..|s| - 1] == Decimal(n / 10);
    } else {
      assert s[..0] == [];
    }
  }

  lemma OctetsDetermine(a: Address, b: Address)
    requires forall k | 0 <= k < 4 :: Octet(a, k) == Octet(b, k)
    ensures a == b
  {
    Widths();
    FromBEOfBE(a, 4);
    FromBEOfBE(b, 4);
    assert forall k | 0 <= k < 4 :: BE(a, 4)[k] == Octet(a, k) && BE(b, 4)[k] == Octet(b, k);
    assert BE(a, 4) == BE(b, 4);
  }

  /** IPv4 endpoints that print alike are the same. */
  lemma TextIsInjective(e: Endpoint, f: Endpoint)
    requires e.V4? && f.V4? && Text(e) == Text(f)
    ensures e == f
  {
    var (a, b) := (e.address, f.address);
    var e2 := Decimal(Octet(a, 2)) + ['.'] + PortText(Octet(a, 3), e.port);
    var f2 := Decimal(Octet(b, 2)) + ['.'] + PortText(Octet(b, 3), f.port);
    NumberEnds(Octet(a, 0), Octet(b, 0), '.', Decimal(Octet(a, 1)) + ['.'] + e2, Decimal(Octet(b, 1)) + ['.'] + f2);
    NumberEnds(Octet(a, 1), Octet(b, 1), '.', e2, f2);
    NumberEnds(Octet(a, 2), Octet(b, 2), '.', PortText(Octet(a, 3), e.port), PortText(Octet(b, 3), f.port));
    NumberEnds(Octet(a, 3), Octet(b, 3), ':', Decimal(e.port), Decimal(f.port));
    DecimalIsInjective(e.port, f.port);
    OctetsDetermine(a, b);
  }

  // ---------------------------------------------------------------- string order and sorting

  predicate AtMost(s: string, t: string) {
    s == [] || (t != [] && (s[0] < t[0] || (s[0] == t[0] && AtMost(s[1..], t[1..]))))
  }

  lemma {:induction false} AtMostIsTotal(s: string, t: string)
    ensures AtMost(s, t) || AtMost(t, s)
  {
    if s != [] && t != [] && s[0] == t[0] {
      AtMostIsTotal(s[1..], t[1..]);
    }
  }

  lemma {:induction false} AtMostIsTransitive(s: string, t: string, u: string)
    requires AtMost(s, t) && AtMost(t, u)
    ensures AtMost(s, u)
  {
    if s != [] && s[0] == t[0] == u[0] {
      AtMostIsTransitive(s[1..], t[1..], u[1..]);
    }
  }

  lemma {:induction false} AtMostIsAntisymmetric(s: string, t: string)
    requires AtMost(s, t) && AtMost(t, s)
    ensures s == t
  {
    if s != [] {
      AtMostIsAntisymmetric(s[1..], t[1..]);
      assert s == [s[0]] + s[1..] && t == [t[0]] + t[1..];
    }
  }

  /** The length of the longest common prefix. */
  function Common(s: string, t: string): nat {
    if s == [] || t == [] || s[0] != t[0] then 0 else 1 + Common(s[1..], t[1..])
  }

  lemma Unshift(s: string, k: nat)
    requires k < |s|
    ensures s[..k + 1] == [s[0]] + s[1..][..k]
  {
  }

  lemma {:induction false} CommonMeans(s: string, t: string)
    ensures var k := Common(s, t);
      k <= |s| && k <= |t| && s[..k] == t[..k] && (k == |s| || k == |t| || s[k] != t[k])
  {
    if s != [] && t != [] && s[0] == t[0] {
      CommonMeans(s[1..], t[1..]);
      var k := Common(s[1..], t[1..]);
      Unshift(s, k);
      Unshift(t, k);
    }
  }

  /** The order of strings: a prefix comes first, and otherwise the first difference decides. */
  lemma {:induction false} AtMostMeans(s: string, t: string)
    ensures var k := Common(s, t); AtMost(s, t) <==> k >= |s| || (k < |t| && s[k] < t[k])
  {
    if s != [] && t != [] && s[0] == t[0] {
      AtMostMeans(s[1..], t[1..]);
    }
  }

  ghost predicate IsOrder(le: (Resolved, Resolved) -> bool) {
    && (forall x, y :: le(x, y) || le(y, x))
    && (forall x, y, z :: le(x, y) && le(y, z) ==> le(x, z))
  }

  predicate Ordered(le: (Resolved, Resolved) -> bool, s: seq<Resolved>) {
    forall i, j | 0 <= i < j < |s| :: le(s[i], s[j])
  }

  /** Stable insertion: after the elements that are not larger. */
  function Insert(le: (Resolved, Resolved) -> bool, s: seq<Resolved>, x: Resolved): seq<Resolved> {
    if s == [] || le(s[|s| - 1], x) then s + [x] else Insert(le, s[..|s| - 1], x) + [s[|s| - 1]]
  }

  /** The library's stable sort. */
  function Sort(le: (Resolved, Resolved) -> bool, s: seq<Resolved>): seq<Resolved> {
    if s == [] then [] else Insert(le, Sort(le, s[..|s| - 1]), s[|s| - 1])
  }

  lemma {:induction false} InsertPermutes(le: (Resolved, Resolved) -> bool, s: seq<Resolved>, x: Resolved)
    ensures multiset(Insert(le, s, x)) == multiset(s) + multiset{x}
  {
    if s != [] {
      InsertPermutes(le, s[..|s| - 1], x);
      assert s == s[..|s| - 1] + [s[|s| - 1]];
    }
  }

  lemma Through(le: (Resolved, Resolved) -> bool, x: Resolved, y: Resolved, z: Resolved)
    requires IsOrder(le) && le(x, y) && le(y, z)
    ensures le(x, z)
  {
  }

  lemma OrderedSnoc(le: (Resolved, Resolved) -> bool, s: seq<Resolved>, x: Resolved)
    requires Ordered(le, s) && forall y <- s :: le(y, x)
    ensures Ordered(le, s + [x])
  {
  }

  lemma {:induction false} InsertOrders(le: (Resolved, Resolved) -> bool, s: seq<Resolved>, x: Resolved)
    requires IsOrder(le) && Ordered(le, s)
    ensures Ordered(le, Insert(le, s, x))
  {
    if s == [] {
    } else if le(s[|s| - 1], x) {
      forall y | y in s
        ensures le(y, x)
      {
        var i :| 0 <= i < |s| && s[i] == y;
        if i < |s| - 1 {
          Through(le, y, s[|s| - 1], x);
        }
      }
      OrderedSnoc(le, s, x);
    } else {
      var init, last := s[..|s| - 1], s[|s| - 1];
      InsertOrders(le, init, x);
      InsertPermutes(le, init, x);
      forall y | y in Insert(le, init, x)
        ensures le(y, last)
      {
        assert y in multiset(Insert(le, init, x));
      }
      OrderedSnoc(le, Insert(le, init, x), last);
    }
  }

  lemma {:induction false} SortPermutes(le: (Resolved, Resolved) -> bool, s: seq<Resolved>)
    ensures multiset(Sort(le, s)) == multiset(s)
  {
    if s != [] {
      var init, last := s[..|s| - 1], s[|s| - 1];
      SortPermutes(le, init);
      InsertPermutes(le, Sort(le, init), last);
      assert s == init + [last];
    }
  }

  lemma {:induction false} SortOrders(le: (Resolved, Resolved) -> bool, s: seq<Resolved>)
    requires IsOrder(le)
    ensures Ordered(le, Sort(le, s))
  {
    if s != [] {
      SortOrders(le, s[..|s| - 1]);
      InsertOrders(le, Sort(le, s[..|s| - 1]), s[|s| - 1]);
    }
  }

  lemma SortMeans(le: (Resolved, Resolved) -> bool, s: seq<Resolved>)
    requires IsOrder(le)
    ensures multiset(Sort(le, s)) == multiset(s) && Ordered(le, Sort(le, s))
  {
    SortPermutes(le, s);
    SortOrders(le, s);
  }

  predicate ByText(x: Resolved, y: Resolved) {
    AtMost(Text(x.agent.endpoint), Text(y.agent.endpoint))
  }

  predicate ByName(x: Resolved, y: Resolved) {
    if x.agent.hostname == y.agent.hostname then ByText(x, y) else AtMost(x.agent.hostname, y.agent.hostname)
  }

  lemma ByTextIsAnOrder()
    ensures IsOrder(ByText)
  {
    forall x, y
      ensures ByText(x, y) || ByText(y, x)
    {
      AtMostIsTotal(Text(x.agent.endpoint), Text(y.agent.endpoint));
    }
    forall x, y, z | ByText(x, y) && ByText(y, z)
      ensures ByText(x, z)
    {
      AtMostIsTransitive(Text(x.agent.endpoint), Text(y.agent.endpoint), Text(z.agent.endpoint));
    }
  }

  function IfPrinted(x: Resolved, text: string): seq<Resolved> {
    if Text(x.agent.endpoint) == text then [x] else []
  }

  /** The entries whose endpoints print as `text`. */
  function Printed(s: seq<Resolved>, text: string): seq<Resolved> {
    if s == [] then [] else Printed(s[..|s| - 1], text) + IfPrinted(s[|s| - 1], text)
  }

  lemma PrintedSnoc(s: seq<Resolved>, x: Resolved, text: string)
    ensures Printed(s + [x], text) == Printed(s, text) + IfPrinted(x, text)
  {
    assert (s + [x])[..|s|] == s;
  }

  /** Of two entries that do not print alike, at most one prints as `text`. */
  lemma Exchanged(p: seq<Resolved>, x: Resolved, y: Resolved, text: string)
    requires !ByText(y, x)
    ensures p + IfPrinted(x, text) + IfPrinted(y, text) == p + IfPrinted(y, text) + IfPrinted(x, text)
  {
    AtMostIsTotal(Text(x.agent.endpoint), Text(x.agent.endpoint));
  }

  lemma {:induction false} InsertIsStable(s: seq<Resolved>, x: Resolved, text: string)
    ensures Printed(Insert(ByText, s, x), text) == Printed(s, text) + IfPrinted(x, text)
  {
    if s == [] || ByText(s[|s| - 1], x) {
      PrintedSnoc(s, x, text);
    } else {
      var init, last := s[..|s| - 1], s[|s| - 1];
      InsertIsStable(init, x, text);
      PrintedSnoc(Insert(ByText, init, x), last, text);
      Exchanged(Printed(init, text), x, last, text);
    }
  }

  /** Entries that print alike keep their order. */
  lemma {:induction false} SortIsStable(s: seq<Resolved>, text: string)
    ensures Printed(Sort(ByText, s), text) == Printed(s, text)
  {
    if s != [] {
      var init, last := s[..|s| - 1], s[|s| - 1];
      SortIsStable(init, text);
      InsertIsStable(Sort(ByText, init), last, text);
    }
  }

  lemma ByNameIsAnOrder()
    ensures IsOrder(ByName)
  {
    forall x, y
      ensures ByName(x, y) || ByName(y, x)
    {
      AtMostIsTotal(Text(x.agent.endpoint), Text(y.agent.endpoint));
      AtMostIsTotal(x.agent.hostname, y.agent.hostname);
    }
    forall x, y, z | ByName(x, y) && ByName(y, z)
      ensures ByName(x, z)
    {
      ByNameIsTransitive(x, y, z);
    }
  }

  lemma ByNameIsTransitive(x: Resolved, y: Resolved, z: Resolved)
    requires ByName(x, y) && ByName(y, z)
    ensures ByName(x, z)
  {
    var a, b, c := x.agent.hostname, y.agent.hostname, z.agent.hostname;
    if a == b == c {
      AtMostIsTransitive(Text(x.agent.endpoint), Text(y.agent.endpoint), Text(z.agent.endpoint));
    } else if a == c {
      AtMostIsAntisymmetric(a, b);
    } else if a != b && b != c {
      AtMostIsTransitive(a, b, c);
    }
  }

  // ---------------------------------------------------------------- the preferred endpoint

  /** The answers of one agent, in the order they came. */
  function Answers(agents: seq<Resolved>, id: Identity): seq<Resolved> {
    if agents == [] then []
    else
      var init, last := agents[..|agents| - 1], agents[|agents| - 1];
      Answers(init, id) + (if last.identity == id then [last] else [])
  }

  lemma {:induction false} AnswersMeans(agents: seq<Resolved>, id: Identity, r: Resolved)
    ensures r in Answers(agents, id) <==> r in agents && r.identity == id
  {
    if agents != [] {
      AnswersMeans(agents[..|agents| - 1], id, r);
      assert agents == agents[..|agents| - 1] + [agents[|agents| - 1]];
    }
  }

  ghost predicate HasEndpoint(agents: seq<Resolved>, id: Identity, e: Endpoint) {
    exists r <- agents :: r.identity == id && r.agent.endpoint == e
  }

  /** `e` is one of the agent's endpoints, none scores better, and among the equally good ones none is
      printed before it. */
  ghost predicate Preferred(agents: seq<Resolved>, interfaces: Interfaces, id: Identity, e: Endpoint) {
    && HasEndpoint(agents, id, e)
    && forall f | HasEndpoint(agents, id, f) ::
         && !Better(ScoreOf(id, f, agents, interfaces), ScoreOf(id, e, agents, interfaces))
         && (ScoreOf(id, f, agents, interfaces) == ScoreOf(id, e, agents, interfaces) ==> AtMost(Text(e), Text(f)))
  }

  /** The first entry of `s` for which `p` holds. */
  function First(p: Resolved -> bool, s: seq<Resolved>): Option<Resolved> {
    if s == [] then None
    else
      var f, last := First(p, s[..|s| - 1]), s[|s| - 1];
      if f.None? && p(last) then Some(last) else f
  }

  lemma {:induction false} FirstMeans(p: Resolved -> bool, s: seq<Resolved>)
    ensures First(p, s).Some? ==> First(p, s).value in s && p(First(p, s).value)
    ensures First(p, s).None? ==> forall r <- s :: !p(r)
  {
    if s != [] {
      var init, last := s[..|s| - 1], s[|s| - 1];
      FirstMeans(p, init);
      assert s == init + [last];
    }
  }

  lemma {:induction false} FirstIsAt(p: Resolved -> bool, s: seq<Resolved>, k: nat)
    requires k < |s| && p(s[k]) && forall j | 0 <= j < k :: !p(s[j])
    ensures First(p, s) == Some(s[k])
  {
    var init := s[..|s| - 1];
    if k < |s| - 1 {
      FirstIsAt(p, init, k);
    } else {
      FirstMeans(p, init);
    }
  }

  lemma FirstSnoc(p: Resolved -> bool, s: seq<Resolved>, x: Resolved)
    ensures First(p, s + [x]) == if First(p, s).None? && p(x) then Some(x) else First(p, s)
  {
    assert (s + [x])[..|s|] == s;
  }

  /** When `p` holds only of entries that print as `text`, the first is found among those. */
  lemma {:induction false} FirstPrinted(p: Resolved -> bool, s: seq<Resolved>, text: string)
    requires forall r <- s :: p(r) ==> Text(r.agent.endpoint) == text
    ensures First(p, s) == First(p, Printed(s, text))
  {
    if s != [] {
      var init, last := s[..|s| - 1], s[|s| - 1];
      FirstPrinted(p, init, text);
      assert last in s && s == init + [last];
      FirstSnoc(p, init, last);
      PrintedSnoc(init, last, text);
      FirstSnoc(p, Printed(init, text), last);
      assert Printed(init, text) + [] == Printed(init, text);
    }
  }

  ghost function Prefers(agents: seq<Resolved>, interfaces: Interfaces, id: Identity): Resolved -> bool {
    (r: Resolved) => Preferred(agents, interfaces, id, r.agent.endpoint)
  }

  /** The first entry of `s` whose endpoint is preferred. */
  ghost function FirstPreferred(agents: seq<Resolved>, interfaces: Interfaces, id: Identity, s: seq<Resolved>)
    : Option<Resolved>
  {
    First(Prefers(agents, interfaces, id), s)
  }

  /** The answer an agent is listed with: the earliest one with a preferred endpoint. */
  ghost function Winner(agents: seq<Resolved>, interfaces: Interfaces, id: Identity): Option<Resolved> {
    FirstPreferred(agents, interfaces, id, Answers(agents, id))
  }

  lemma FirstPreferredMeans(agents: seq<Resolved>, interfaces: Interfaces, id: Identity, s: seq<Resolved>)
    ensures var f := FirstPreferred(agents, interfaces, id, s);
      && (f.Some? ==> f.value in s && Preferred(agents, interfaces, id, f.value.agent.endpoint))
      && (f.None? ==> forall r <- s :: !Preferred(agents, interfaces, id, r.agent.endpoint))
  {
    FirstMeans(Prefers(agents, interfaces, id), s);
  }

  /** A preferred entry with none before it is the first. */
  lemma FirstAt(agents: seq<Resolved>, interfaces: Interfaces, id: Identity, s: seq<Resolved>, k: nat)
    requires k < |s| && Preferred(agents, interfaces, id, s[k].agent.endpoint)
    requires forall j | 0 <= j < k :: !Preferred(agents, interfaces, id, s[j].agent.endpoint)
    ensures FirstPreferred(agents, interfaces, id, s) == Some(s[k])
  {
    FirstIsAt(Prefers(agents, interfaces, id), s, k);
  }

  /** The winner by position: it answered with a preferred endpoint, and no answer of the agent before it did. */
  lemma WinnerIsEarliest(agents: seq<Resolved>, interfaces: Interfaces, id: Identity) returns (k: nat)
    requires Winner(agents, interfaces, id).Some?
    ensures k < |agents| && agents[k] == Winner(agents, interfaces, id).value && agents[k].identity == id
    ensures Preferred(agents, interfaces, id, agents[k].agent.endpoint)
    ensures forall j | 0 <= j < k && agents[j].identity == id ::
      !Preferred(agents, interfaces, id, agents[j].agent.endpoint)
  {
    k := EarliestAnswer(Prefers(agents, interfaces, id), id, agents);
  }

  /** The first of an agent's answers for which `p` holds, by its position in the list. */
  lemma {:induction false} EarliestAnswer(p: Resolved -> bool, id: Identity, s: seq<Resolved>) returns (k: nat)
    requires First(p, Answers(s, id)).Some?
    ensures k < |s| && s[k].identity == id && First(p, Answers(s, id)) == Some(s[k]) && p(s[k])
    ensures forall j | 0 <= j < k && s[j].identity == id :: !p(s[j])
  {
    var init, last := s[..|s| - 1], s[|s| - 1];
    assert s == init + [last];
    LastAnswer(p, id, init, last);
    if First(p, Answers(init, id)).Some? {
      k := EarliestAnswer(p, id, init);
    } else {
      k := |s| - 1;
      NoEarlierAnswer(p, id, init);
    }
  }

  /** The last answer decides only when `p` holds of no earlier one. */
  lemma LastAnswer(p: Resolved -> bool, id: Identity, init: seq<Resolved>, last: Resolved)
    ensures First(p, Answers(init + [last], id)) ==
      (var f := First(p, Answers(init, id)); if f.None? && last.identity == id && p(last) then Some(last) else f)
  {
    OneMoreAnswer(init, last, id);
    FirstSnoc(p, Answers(init, id), last);
    assert Answers(init, id) + [] == Answers(init, id);
  }

  lemma NoEarlierAnswer(p: Resolved -> bool, id: Identity, s: seq<Resolved>)
    requires First(p, Answers(s, id)).None?
    ensures forall j | 0 <= j < |s| && s[j].identity == id :: !p(s[j])
  {
    FirstMeans(p, Answers(s, id));
    forall j | 0 <= j < |s| && s[j].identity == id
      ensures !p(s[j])
    {
      AnswersMeans(s, id, s[j]);
    }
  }

  /** Exactly one entry for every agent that answered, and it is the one the agent is listed with. */
  ghost predicate Deduplicated(agents: seq<Resolved>, interfaces: Interfaces, chosen: seq<Resolved>) {
    && (forall i, j | 0 <= i < j < |chosen| :: chosen[i].identity != chosen[j].identity)
    && (forall r <- agents :: exists c <- chosen :: c.identity == r.identity)
    && (forall c <- chosen :: Winner(agents, interfaces, c.identity) == Some(c))
  }

  lemma WinnerMeans(agents: seq<Resolved>, interfaces: Interfaces, id: Identity)
    requires Winner(agents, interfaces, id).Some?
    ensures var c := Winner(agents, interfaces, id).value;
      c in agents && c.identity == id && Preferred(agents, interfaces, id, c.agent.endpoint)
  {
    FirstPreferredMeans(agents, interfaces, id, Answers(agents, id));
    AnswersMeans(agents, id, Winner(agents, interfaces, id).value);
  }

  lemma SomeoneWins(agents: seq<Resolved>, interfaces: Interfaces, r: Resolved)
    requires r in agents && Preferred(agents, interfaces, r.identity, r.agent.endpoint)
    ensures Winner(agents, interfaces, r.identity).Some?
  {
    AnswersMeans(agents, r.identity, r);
    FirstPreferredMeans(agents, interfaces, r.identity, Answers(agents, r.identity));
  }

  lemma ScoresAreLinear(s: Score, t: Score)
    ensures s == t || Better(s, t) || Better(t, s)
    ensures !(Better(s, t) && Better(t, s))
  {
  }

  /** Two preferred endpoints of one agent print alike. */
  lemma PreferredPrintAlike(agents: seq<Resolved>, interfaces: Interfaces, id: Identity, e: Endpoint, f: Endpoint)
    requires Preferred(agents, interfaces, id, e) && Preferred(agents, interfaces, id, f)
    ensures Text(e) == Text(f)
  {
    ScoresAreLinear(ScoreOf(id, e, agents, interfaces), ScoreOf(id, f, agents, interfaces));
    AtMostIsAntisymmetric(Text(e), Text(f));
  }

  // ---------------------------------------------------------------- the order of the answers

  lemma EndpointsPermute(xs: seq<Resolved>, ys: seq<Resolved>, id: Identity, e: Endpoint)
    requires multiset(xs) == multiset(ys)
    ensures HasEndpoint(xs, id, e) == HasEndpoint(ys, id, e)
  {
    if HasEndpoint(xs, id, e) {
      var r :| r in xs && r.identity == id && r.agent.endpoint == e;
      assert r in multiset(ys);
    }
    if HasEndpoint(ys, id, e) {
      var r :| r in ys && r.identity == id && r.agent.endpoint == e;
      assert r in multiset(xs);
    }
  }

  lemma PreferredPermutes(xs: seq<Resolved>, ys: seq<Resolved>, interfaces: Interfaces, id: Identity, e: Endpoint)
    requires multiset(xs) == multiset(ys) && Preferred(xs, interfaces, id, e)
    ensures Preferred(ys, interfaces, id, e)
  {
    EndpointsPermute(xs, ys, id, e);
    ScorePermutes(id, e, xs, ys, interfaces);
    forall f | HasEndpoint(ys, id, f)
      ensures !Better(ScoreOf(id, f, ys, interfaces), ScoreOf(id, e, ys, interfaces))
      ensures ScoreOf(id, f, ys, interfaces) == ScoreOf(id, e, ys, interfaces) ==> AtMost(Text(e), Text(f))
    {
      EndpointsPermute(xs, ys, id, f);
      ScorePermutes(id, f, xs, ys, interfaces);
    }
  }

  /** The agents and the endpoints they are reached at. */
  ghost function RoutesOf(agents: seq<Resolved>, interfaces: Interfaces): set<(Identity, Endpoint)> {
    set r <- agents | Winner(agents, interfaces, r.identity).Some? ::
      (r.identity, Winner(agents, interfaces, r.identity).value.agent.endpoint)
  }

  function Routes(chosen: seq<Resolved>): set<(Identity, Endpoint)> {
    set c <- chosen :: (c.identity, c.agent.endpoint)
  }

  /** Whatever a deduplication returns, those are its routes. */
  lemma DeduplicatedRoutes(agents: seq<Resolved>, interfaces: Interfaces, chosen: seq<Resolved>)
    requires Deduplicated(agents, interfaces, chosen)
    ensures Routes(chosen) == RoutesOf(agents, interfaces)
  {
    forall c | c in chosen
      ensures (c.identity, c.agent.endpoint) in RoutesOf(agents, interfaces)
    {
      WinnerMeans(agents, interfaces, c.identity);
    }
    forall r | r in agents && Winner(agents, interfaces, r.identity).Some?
      ensures (r.identity, Winner(agents, interfaces, r.identity).value.agent.endpoint) in Routes(chosen)
    {
      var c :| c in chosen && c.identity == r.identity;
    }
  }

  /** No agent has two different endpoints that are both of best score and printed first. */
  ghost predicate Unambiguous(agents: seq<Resolved>, interfaces: Interfaces) {
    forall id, e, f | Preferred(agents, interfaces, id, e) && Preferred(agents, interfaces, id, f) :: e == f
  }

  ghost predicate OrderIrrelevant(agents: seq<Resolved>, interfaces: Interfaces) {
    forall ys | multiset(ys) == multiset(agents) :: RoutesOf(ys, interfaces) == RoutesOf(agents, interfaces)
  }

  lemma RoutesIncluded(xs: seq<Resolved>, ys: seq<Resolved>, interfaces: Interfaces)
    requires multiset(xs) == multiset(ys) && Unambiguous(ys, interfaces)
    ensures RoutesOf(xs, interfaces) <= RoutesOf(ys, interfaces)
  {
    forall r | r in xs && Winner(xs, interfaces, r.identity).Some?
      ensures (r.identity, Winner(xs, interfaces, r.identity).value.agent.endpoint) in RoutesOf(ys, interfaces)
    {
      SameRoute(xs, ys, interfaces, r.identity);
      assert r in multiset(ys);
    }
  }

  /** An agent listed from one order of the answers is listed from the other, at the same endpoint. */
  lemma SameRoute(xs: seq<Resolved>, ys: seq<Resolved>, interfaces: Interfaces, id: Identity)
    requires multiset(xs) == multiset(ys) && Unambiguous(ys, interfaces) && Winner(xs, interfaces, id).Some?
    ensures Winner(ys, interfaces, id).Some?
    ensures Winner(ys, interfaces, id).value.agent.endpoint == Winner(xs, interfaces, id).value.agent.endpoint
  {
    var c := Winner(xs, interfaces, id).value;
    WinnerMeans(xs, interfaces, id);
    assert c in multiset(ys);
    PreferredPermutes(xs, ys, interfaces, id, c.agent.endpoint);
    SomeoneWins(ys, interfaces, c);
    WinnerMeans(ys, interfaces, id);
  }

  lemma UnambiguousPermutes(xs: seq<Resolved>, ys: seq<Resolved>, interfaces: Interfaces)
    requires multiset(xs) == multiset(ys) && Unambiguous(xs, interfaces)
    ensures Unambiguous(ys, interfaces)
  {
    forall id, e, f | Preferred(ys, interfaces, id, e) && Preferred(ys, interfaces, id, f)
      ensures e == f
    {
      PreferredPermutes(ys, xs, interfaces, id, e);
      PreferredPermutes(ys, xs, interfaces, id, f);
    }
  }

  lemma {:induction false} AnswersOfFirst(r: Resolved, s: seq<Resolved>)
    ensures Answers([r] + s, r.identity) == [r] + Answers(s, r.identity)
  {
    if s == [] {
      assert ([r] + s)[..0] == [] && ([r] + s)[0] == r;
    } else {
      AnswersOfFirst(r, s[..|s| - 1]);
      assert ([r] + s)[..|s|] == [r] + s[..|s| - 1];
    }
  }

  /** A preferred answer that comes first wins. */
  lemma FirstWins(r: Resolved, s: seq<Resolved>, interfaces: Interfaces)
    requires Preferred([r] + s, interfaces, r.identity, r.agent.endpoint)
    ensures (r.identity, r.agent.endpoint) in RoutesOf([r] + s, interfaces)
  {
    var ys := [r] + s;
    assert Winner(ys, interfaces, r.identity) == Some(r) by {
      AnswersOfFirst(r, s);
      FirstAt(ys, interfaces, r.identity, [r] + Answers(s, r.identity), 0);
    }
    assert ys[0] == r;
    WinnerIsRoute(ys, interfaces, r);
  }

  lemma WinnerIsRoute(agents: seq<Resolved>, interfaces: Interfaces, r: Resolved)
    requires r in agents && Winner(agents, interfaces, r.identity) == Some(r)
    ensures (r.identity, r.agent.endpoint) in RoutesOf(agents, interfaces)
  {
  }

  /** Any answer can come first. */
  lemma ComesFirst(xs: seq<Resolved>, interfaces: Interfaces, id: Identity, e: Endpoint) returns (ys: seq<Resolved>)
    requires Preferred(xs, interfaces, id, e)
    ensures multiset(ys) == multiset(xs) && (id, e) in RoutesOf(ys, interfaces)
  {
    var r :| r in xs && r.identity == id && r.agent.endpoint == e;
    var rest := MovedToFront(xs, r);
    ys := [r] + rest;
    PreferredPermutes(xs, ys, interfaces, id, e);
    FirstWins(r, rest, interfaces);
  }

  lemma MovedToFront(xs: seq<Resolved>, r: Resolved) returns (rest: seq<Resolved>)
    requires r in xs
    ensures multiset([r] + rest) == multiset(xs)
  {
    var i :| 0 <= i < |xs| && xs[i] == r;
    rest := xs[..i] + xs[i + 1..];
    assert xs == xs[..i] + [r] + xs[i + 1..];
  }

  /** The order in which the agents answered is irrelevant if and only if no agent has two different
      endpoints that tie for the best. */
  lemma OrderIsIrrelevantExactly(agents: seq<Resolved>, interfaces: Interfaces)
    ensures OrderIrrelevant(agents, interfaces) <==> Unambiguous(agents, interfaces)
  {
    if Unambiguous(agents, interfaces) {
      forall ys | multiset(ys) == multiset(agents)
        ensures RoutesOf(ys, interfaces) == RoutesOf(agents, interfaces)
      {
        UnambiguousPermutes(agents, ys, interfaces);
        RoutesIncluded(agents, ys, interfaces);
        RoutesIncluded(ys, agents, interfaces);
      }
    }
    if OrderIrrelevant(agents, interfaces) {
      forall id, e, f | Preferred(agents, interfaces, id, e) && Preferred(agents, interfaces, id, f)
        ensures e == f
      {
        var ys := ComesFirst(agents, interfaces, id, e);
        var zs := ComesFirst(agents, interfaces, id, f);
        assert RoutesOf(ys, interfaces) == RoutesOf(zs, interfaces);
      }
    }
  }

  /** Two IPv6 endpoints of one agent that differ in their flow labels alone: swapping the answers swaps the
      choice. */
  lemma FlowLabelsTie()
    ensures var x := Resolved(Instance(1), Agent("PC", V6("[fe80::1]:80", 0)));
      var y := Resolved(Instance(1), Agent("PC", V6("[fe80::1]:80", 1)));
      RoutesOf([x, y], []) != RoutesOf([y, x], [])
  {
    var x := Resolved(Instance(1), Agent("PC", V6("[fe80::1]:80", 0)));
    var y := Resolved(Instance(1), Agent("PC", V6("[fe80::1]:80", 1)));
    TiePrefersBoth(x, y);
    TiePrefersBoth(y, x);
    assert [x] + [y] == [x, y] && [y] + [x] == [y, x];
    FirstWins(x, [y], []);
    FirstWins(y, [x], []);
  }

  lemma TiePrefersBoth(x: Resolved, y: Resolved)
    requires x.identity == y.identity && x.agent.endpoint.V6? && y.agent.endpoint.V6?
    requires x.agent.endpoint.printed == y.agent.endpoint.printed
    ensures Preferred([x] + [y], [], x.identity, x.agent.endpoint)
  {
    var s := [x] + [y];
    assert s[0] == x;
    forall f | HasEndpoint(s, x.identity, f)
      ensures f.V6? && Text(f) == Text(x.agent.endpoint)
    {
    }
    AtMostIsTotal(Text(x.agent.endpoint), Text(x.agent.endpoint));
  }

  /** No two different endpoints in the list print alike. */
  predicate Legible(agents: seq<Resolved>) {
    forall r <- agents, s <- agents ::
      Text(r.agent.endpoint) == Text(s.agent.endpoint) ==> r.agent.endpoint == s.agent.endpoint
  }

  lemma LegibleIsUnambiguous(agents: seq<Resolved>, interfaces: Interfaces)
    requires Legible(agents)
    ensures Unambiguous(agents, interfaces)
  {
    forall id, e, f | Preferred(agents, interfaces, id, e) && Preferred(agents, interfaces, id, f)
      ensures e == f
    {
      PreferredPrintAlike(agents, interfaces, id, e, f);
    }
  }

  /** An endpoint as discovery builds it from the source of a packet: an IPv6 address is printed in
      brackets, and its flow label is zero. */
  predicate AsDiscovered(e: Endpoint) {
    e.V6? ==> e.printed != [] && e.printed[0] == '[' && e.unprinted == 0
  }

  lemma DiscoveredPrintDifferently(e: Endpoint, f: Endpoint)
    requires AsDiscovered(e) && AsDiscovered(f) && Text(e) == Text(f)
    ensures e == f
  {
    TextStarts(e);
    TextStarts(f);
    if e.V4? && f.V4? {
      TextIsInjective(e, f);
    }
  }

  lemma TextStarts(e: Endpoint)
    requires AsDiscovered(e)
    ensures Text(e) != [] && (e.V4? <==> '0' <= Text(e)[0] <= '9')
  {
    if e.V4? {
      var d := Decimal(Octet(e.address, 0));
      assert d[0] in d;
      assert Text(e)[0] == d[0];
    }
  }

  /** Over the endpoints discovery builds, IPv4 or IPv6, each agent is reached at the same endpoint whatever
      the order in which the agents answered. */
  lemma OrderDoesNotMatter(xs: seq<Resolved>, ys: seq<Resolved>, interfaces: Interfaces, cs: seq<Resolved>,
                           ds: seq<Resolved>)
    requires multiset(xs) == multiset(ys) && forall r <- xs :: AsDiscovered(r.agent.endpoint)
    requires Deduplicated(xs, interfaces, cs) && Deduplicated(ys, interfaces, ds)
    ensures Routes(cs) == Routes(ds)
  {
    forall r, s | r in xs && s in xs && Text(r.agent.endpoint) == Text(s.agent.endpoint)
      ensures r.agent.endpoint == s.agent.endpoint
    {
      DiscoveredPrintDifferently(r.agent.endpoint, s.agent.endpoint);
    }
    LegibleIsUnambiguous(xs, interfaces);
    OrderIsIrrelevantExactly(xs, interfaces);
    DeduplicatedRoutes(xs, interfaces, cs);
    DeduplicatedRoutes(ys, interfaces, ds);
  }

  // ---------------------------------------------------------------- what the choice guarantees

  function RankOf(e: Endpoint): nat {
    if e.V4? then AddressRank(e.address) else 0
  }

  /** No endpoint of the agent has a better kind of address than the chosen one. In particular an agent
      with an ordinary unicast address is never reached at a link-local one, nor over IPv6. */
  lemma BestKindOfAddress(agents: seq<Resolved>, interfaces: Interfaces, id: Identity, e: Endpoint, f: Endpoint)
    requires Preferred(agents, interfaces, id, e) && HasEndpoint(agents, id, f)
    ensures RankOf(e) >= RankOf(f)
    ensures f.V4? && !Unusable(f.address) && !LinkLocal(f.address) ==>
      e.V4? && !LinkLocal(e.address) && !Unusable(e.address)
  {
    assert ScoreOf(id, e, agents, interfaces).addressRank == RankOf(e);
    assert ScoreOf(id, f, agents, interfaces).addressRank == RankOf(f);
  }

  /** Why an endpoint is preferred, part by part: no endpoint of the agent has a better kind of address; among
      those of the same kind none is on a better interface; among those none shares a longer local prefix, then
      none a longer prefix with another agent, then none more of them in total; and among the equals none is
      printed earlier. */
  lemma BestPartByPart(agents: seq<Resolved>, interfaces: Interfaces, id: Identity, e: Endpoint, f: Endpoint)
    requires Preferred(agents, interfaces, id, e) && HasEndpoint(agents, id, f)
    ensures var s, u := ScoreOf(id, e, agents, interfaces), ScoreOf(id, f, agents, interfaces);
      && s.addressRank >= u.addressRank
      && (s.addressRank == u.addressRank ==> s.interfaceRank >= u.interfaceRank)
      && (s.addressRank == u.addressRank && s.interfaceRank == u.interfaceRank ==> s.localPrefix >= u.localPrefix)
      && (s.addressRank == u.addressRank && s.interfaceRank == u.interfaceRank && s.localPrefix == u.localPrefix ==>
          s.remoteMaximum >= u.remoteMaximum)
      && ((&& s.addressRank == u.addressRank && s.interfaceRank == u.interfaceRank && s.localPrefix == u.localPrefix
           && s.remoteMaximum == u.remoteMaximum) ==>
          s.remoteTotal >= u.remoteTotal)
      && (s == u ==> AtMost(Text(e), Text(f)))
  {
  }

  /** The other way round: an endpoint of the agent that is best part by part is preferred. */
  lemma BestPartByPartIsPreferred(agents: seq<Resolved>, interfaces: Interfaces, id: Identity, e: Endpoint)
    requires HasEndpoint(agents, id, e)
    requires forall f | HasEndpoint(agents, id, f) ::
      var s, u := ScoreOf(id, e, agents, interfaces), ScoreOf(id, f, agents, interfaces);
      || (s == u && AtMost(Text(e), Text(f)))
      || s.addressRank > u.addressRank
      || (s.addressRank == u.addressRank && s.interfaceRank > u.interfaceRank)
      || (s.addressRank == u.addressRank && s.interfaceRank == u.interfaceRank && s.localPrefix > u.localPrefix)
      || (&& s.addressRank == u.addressRank && s.interfaceRank == u.interfaceRank && s.localPrefix == u.localPrefix
          && (|| s.remoteMaximum > u.remoteMaximum
              || (s.remoteMaximum == u.remoteMaximum && s.remoteTotal > u.remoteTotal)))
    ensures Preferred(agents, interfaces, id, e)
  {
  }

  // ---------------------------------------------------------------- the algorithm

  ghost predicate IsGrouping(agents: seq<Resolved>, groups: map<Identity, seq<Resolved>>, ids: seq<Identity>) {
    && (forall i, j | 0 <= i < j < |ids| :: ids[i] != ids[j])
    && (forall id :: id in ids <==> id in groups)
    && (forall id :: id in groups <==> Answers(agents, id) != [])
    && (forall id <- groups :: groups[id] == Answers(agents, id))
  }

  lemma OneMoreAnswer(agents: seq<Resolved>, r: Resolved, id: Identity)
    ensures Answers(agents + [r], id) == Answers(agents, id) + (if r.identity == id then [r] else [])
  {
    assert (agents + [r])[..|agents|] == agents;
  }

  lemma GroupingGrows(agents: seq<Resolved>, groups: map<Identity, seq<Resolved>>, ids: seq<Identity>, r: Resolved)
    requires IsGrouping(agents, groups, ids)
    ensures r.identity in groups ==>
      IsGrouping(agents + [r], groups[r.identity := groups[r.identity] + [r]], ids)
    ensures r.identity !in groups ==>
      IsGrouping(agents + [r], groups[r.identity := [r]], ids + [r.identity])
  {
    forall id
      ensures Answers(agents + [r], id) == Answers(agents, id) + (if r.identity == id then [r] else [])
    {
      OneMoreAnswer(agents, r, id);
    }
  }

  /** The answers grouped by agent, and the agents. */
  method Group(agents: seq<Resolved>) returns (groups: map<Identity, seq<Resolved>>, ids: seq<Identity>)
    ensures IsGrouping(agents, groups, ids)
  {
    groups, ids := map[], [];
    for i := 0 to |agents|
      invariant IsGrouping(agents[..i], groups, ids)
    {
      assert agents[..i + 1] == agents[..i] + [agents[i]];
      var r := agents[i];
      GroupingGrows(agents[..i], groups, ids, r);
      if r.identity in groups {
        groups := groups[r.identity := groups[r.identity] + [r]];
      } else {
        groups, ids := groups[r.identity := [r]], ids + [r.identity];
      }
    }
    assert agents[..|agents|] == agents;
  }

  /** `preferred_candidate_index`: the first of the best. */
  method PreferredIndex(id: Identity, candidates: seq<Resolved>, agents: seq<Resolved>, interfaces: Interfaces)
    returns (k: nat)
    requires candidates != []
    ensures IsFirstBest(id, candidates, k, agents, interfaces)
  {
    k := 0;
    var best := ScoreCandidate(id, candidates[0].agent.endpoint, agents, interfaces);
    for i := 1 to |candidates|
      invariant k < i && best == ScoreOf(id, candidates[k].agent.endpoint, agents, interfaces)
      invariant forall j | 0 <= j < i :: !Better(ScoreOf(id, candidates[j].agent.endpoint, agents, interfaces), best)
      invariant forall j | 0 <= j < k :: Better(best, ScoreOf(id, candidates[j].agent.endpoint, agents, interfaces))
    {
      var score := ScoreCandidate(id, candidates[i].agent.endpoint, agents, interfaces);
      if Better(score, best) {
        k, best := i, score;
      }
    }
  }

  /** One agent's answers sorted by their printed endpoints; the first of the best is the preferred one. */
  method Choose(id: Identity, group: seq<Resolved>, agents: seq<Resolved>, interfaces: Interfaces)
    returns (c: Resolved)
    requires group == Answers(agents, id) && group != []
    ensures Winner(agents, interfaces, id) == Some(c) && c.identity == id
  {
    var candidates := Sort(ByText, group);
    SortByText(group);
    assert |multiset(candidates)| == |multiset(group)|;
    var k := PreferredIndex(id, candidates, agents, interfaces);
    c := candidates[k];
    BestIsPreferred(id, candidates, k, agents, interfaces);
    NoneBefore(id, candidates, k, agents, interfaces);
    FirstAt(agents, interfaces, id, candidates, k);
    EarliestOfTheBest(id, group, c, agents, interfaces);
    WinnerMeans(agents, interfaces, id);
  }

  lemma SortByText(s: seq<Resolved>)
    ensures multiset(Sort(ByText, s)) == multiset(s) && Ordered(ByText, Sort(ByText, s))
  {
    ByTextIsAnOrder();
    SortMeans(ByText, s);
  }

  /** Position `k` of the sorted answers is the first of maximal score. */
  ghost predicate IsFirstBest(id: Identity, candidates: seq<Resolved>, k: nat, agents: seq<Resolved>,
                              interfaces: Interfaces)
  {
    && k < |candidates|
    && var best := ScoreOf(id, candidates[k].agent.endpoint, agents, interfaces);
       && (forall j | 0 <= j < |candidates| ::
             !Better(ScoreOf(id, candidates[j].agent.endpoint, agents, interfaces), best))
       && (forall j | 0 <= j < k :: Better(best, ScoreOf(id, candidates[j].agent.endpoint, agents, interfaces)))
  }

  lemma BestIsPreferred(id: Identity, candidates: seq<Resolved>, k: nat, agents: seq<Resolved>, interfaces: Interfaces)
    requires IsFirstBest(id, candidates, k, agents, interfaces) && Ordered(ByText, candidates)
    requires multiset(candidates) == multiset(Answers(agents, id))
    ensures Preferred(agents, interfaces, id, candidates[k].agent.endpoint)
  {
    var c := candidates[k];
    assert c in multiset(candidates);
    AnswersMeans(agents, id, c);
    forall f | HasEndpoint(agents, id, f)
      ensures !Better(ScoreOf(id, f, agents, interfaces), ScoreOf(id, c.agent.endpoint, agents, interfaces))
      ensures ScoreOf(id, f, agents, interfaces) == ScoreOf(id, c.agent.endpoint, agents, interfaces) ==>
        AtMost(Text(c.agent.endpoint), Text(f))
    {
      var j := Position(agents, id, f, candidates);
      if j == k {
        AtMostIsTotal(Text(f), Text(f));
      } else if j > k {
        assert ByText(candidates[k], candidates[j]);
      }
    }
  }

  lemma NoneBefore(id: Identity, candidates: seq<Resolved>, k: nat, agents: seq<Resolved>, interfaces: Interfaces)
    requires IsFirstBest(id, candidates, k, agents, interfaces)
    requires Preferred(agents, interfaces, id, candidates[k].agent.endpoint)
    ensures forall j | 0 <= j < k :: !Preferred(agents, interfaces, id, candidates[j].agent.endpoint)
  {
  }

  /** The first preferred entry is found among those that print like it. */
  lemma FirstAmongPrinted(agents: seq<Resolved>, interfaces: Interfaces, id: Identity, s: seq<Resolved>, text: string)
    requires forall r <- s :: Preferred(agents, interfaces, id, r.agent.endpoint) ==> Text(r.agent.endpoint) == text
    ensures FirstPreferred(agents, interfaces, id, s) == FirstPreferred(agents, interfaces, id, Printed(s, text))
  {
    FirstPrinted(Prefers(agents, interfaces, id), s, text);
  }

  /** Sorting does not change which answer wins: entries that print alike stay in the order they came. */
  lemma EarliestOfTheBest(id: Identity, group: seq<Resolved>, c: Resolved, agents: seq<Resolved>,
                          interfaces: Interfaces)
    requires FirstPreferred(agents, interfaces, id, Sort(ByText, group)) == Some(c)
    ensures FirstPreferred(agents, interfaces, id, group) == Some(c)
  {
    var sorted, text := Sort(ByText, group), Text(c.agent.endpoint);
    FirstPreferredMeans(agents, interfaces, id, sorted);
    forall e | Preferred(agents, interfaces, id, e)
      ensures Text(e) == text
    {
      PreferredPrintAlike(agents, interfaces, id, e, c.agent.endpoint);
    }
    FirstAmongPrinted(agents, interfaces, id, group, text);
    FirstAmongPrinted(agents, interfaces, id, sorted, text);
    SortIsStable(group, text);
  }

  lemma Position(agents: seq<Resolved>, id: Identity, f: Endpoint, candidates: seq<Resolved>) returns (j: nat)
    requires HasEndpoint(agents, id, f) && multiset(candidates) == multiset(Answers(agents, id))
    ensures j < |candidates| && candidates[j].agent.endpoint == f
  {
    var r :| r in agents && r.identity == id && r.agent.endpoint == f;
    AnswersMeans(agents, id, r);
    assert r in multiset(candidates);
    j :| 0 <= j < |candidates| && candidates[j] == r;
  }

  /** The entries chosen for the first agents. */
  ghost predicate ChosenFor(agents: seq<Resolved>, interfaces: Interfaces, chosen: seq<Resolved>, ids: seq<Identity>) {
    && |chosen| <= |ids|
    && forall i | 0 <= i < |chosen| ::
         chosen[i].identity == ids[i] && Winner(agents, interfaces, ids[i]) == Some(chosen[i])
  }

  lemma AllChosen(agents: seq<Resolved>, interfaces: Interfaces, chosen: seq<Resolved>,
                  groups: map<Identity, seq<Resolved>>, ids: seq<Identity>)
    requires IsGrouping(agents, groups, ids) && ChosenFor(agents, interfaces, chosen, ids) && |chosen| == |ids|
    ensures Deduplicated(agents, interfaces, chosen)
  {
    forall r | r in agents
      ensures exists c <- chosen :: c.identity == r.identity
    {
      var i := GroupOf(agents, groups, ids, r);
      assert chosen[i] in chosen;
    }
  }

  lemma OneMoreChosen(agents: seq<Resolved>, interfaces: Interfaces, chosen: seq<Resolved>, ids: seq<Identity>,
                      c: Resolved)
    requires ChosenFor(agents, interfaces, chosen, ids) && |chosen| < |ids| && c.identity == ids[|chosen|]
    requires Winner(agents, interfaces, c.identity) == Some(c)
    ensures ChosenFor(agents, interfaces, chosen + [c], ids)
  {
  }

  lemma GroupAt(agents: seq<Resolved>, groups: map<Identity, seq<Resolved>>, ids: seq<Identity>, i: nat)
    requires IsGrouping(agents, groups, ids) && i < |ids|
    ensures ids[i] in groups && groups[ids[i]] == Answers(agents, ids[i]) != []
  {
    assert ids[i] in ids;
  }

  lemma GroupOf(agents: seq<Resolved>, groups: map<Identity, seq<Resolved>>, ids: seq<Identity>, r: Resolved)
    returns (i: nat)
    requires IsGrouping(agents, groups, ids) && r in agents
    ensures i < |ids| && ids[i] == r.identity
  {
    AnswersMeans(agents, r.identity, r);
    assert r.identity in ids;
    i :| 0 <= i < |ids| && ids[i] == r.identity;
  }

  lemma SortedIsDeduplicated(agents: seq<Resolved>, interfaces: Interfaces, chosen: seq<Resolved>,
                             sorted: seq<Resolved>)
    requires Deduplicated(agents, interfaces, chosen) && multiset(sorted) == multiset(chosen)
    ensures Deduplicated(agents, interfaces, sorted)
  {
    forall c | c in sorted
      ensures c in chosen
    {
      assert c in multiset(chosen);
    }
    forall r | r in agents
      ensures exists c <- sorted :: c.identity == r.identity
    {
      var c :| c in chosen && c.identity == r.identity;
      assert c in multiset(sorted);
    }
    StillDistinct(chosen, sorted);
  }

  /** Different identities stay different when the list is reordered. */
  lemma StillDistinct(chosen: seq<Resolved>, sorted: seq<Resolved>)
    requires multiset(sorted) == multiset(chosen)
    requires forall i, j | 0 <= i < j < |chosen| :: chosen[i].identity != chosen[j].identity
    ensures forall i, j | 0 <= i < j < |sorted| :: sorted[i].identity != sorted[j].identity
  {
    forall i, j | 0 <= i < j < |sorted|
      ensures sorted[i].identity != sorted[j].identity
    {
      var a, b := sorted[i], sorted[j];
      assert a in multiset(chosen) && b in multiset(chosen);
      if a == b {
        Twice(sorted, i, j);
        OnlyOnce(chosen, a);
      }
    }
  }

  lemma Twice(s: seq<Resolved>, i: nat, j: nat)
    requires i < j < |s| && s[i] == s[j]
    ensures multiset(s)[s[i]] >= 2
  {
    assert s == s[..j] + [s[j]] + s[j + 1..];
    assert s[..j][i] == s[i];
    assert multiset(s[..j])[s[i]] >= 1;
  }

  lemma {:induction false} OnlyOnce(s: seq<Resolved>, x: Resolved)
    requires forall i, j | 0 <= i < j < |s| :: s[i].identity != s[j].identity
    ensures multiset(s)[x] <= 1
  {
    if s != [] {
      var init, last := s[..|s| - 1], s[|s| - 1];
      assert s == init + [last];
      OnlyOnce(init, x);
      if x == last {
        assert x !in init;
      }
    }
  }

  lemma SortByName(s: seq<Resolved>)
    ensures multiset(Sort(ByName, s)) == multiset(s) && Ordered(ByName, Sort(ByName, s))
  {
    ByNameIsAnOrder();
    SortMeans(ByName, s);
  }

  /** One entry from every group. The order of the groups is left to the final sort. */
  method ChooseAll(agents: seq<Resolved>, interfaces: Interfaces) returns (picked: seq<Resolved>)
    ensures Deduplicated(agents, interfaces, picked)
  {
    var groups, ids := Group(agents);
    picked := [];
    for i := 0 to |ids|
      invariant |picked| == i && ChosenFor(agents, interfaces, picked, ids)
    {
      GroupAt(agents, groups, ids, i);
      var c := Choose(ids[i], groups[ids[i]], agents, interfaces);
      OneMoreChosen(agents, interfaces, picked, ids, c);
      picked := picked + [c];
    }
    AllChosen(agents, interfaces, picked, groups, ids);
  }

  /** `deduplicate_resolved_agents_with_local_interface_ranks`: one endpoint per agent, the preferred one,
      listed by host name and printed endpoint. The second result keeps the identities beside them. */
  method Deduplicate(agents: seq<Resolved>, interfaces: Interfaces)
    returns (listed: seq<Agent>, chosen: seq<Resolved>)
    ensures Deduplicated(agents, interfaces, chosen) && Ordered(ByName, chosen)
    ensures |listed| == |chosen| && forall i | 0 <= i < |listed| :: listed[i] == chosen[i].agent
    ensures forall i, j | 0 <= i < j < |listed| ::
      if listed[i].hostname == listed[j].hostname then AtMost(Text(listed[i].endpoint), Text(listed[j].endpoint))
      else AtMost(listed[i].hostname, listed[j].hostname)
  {
    var picked := ChooseAll(agents, interfaces);
    var sorted := Sort(ByName, picked);
    SortByName(picked);
    SortedIsDeduplicated(agents, interfaces, picked, sorted);
    assert forall i, j | 0 <= i < j < |sorted| :: ByName(sorted[i], sorted[j]);
    chosen, listed := sorted, seq(|sorted|, i requires 0 <= i < |sorted| => sorted[i].agent);
  }
}
