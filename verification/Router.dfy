/** The router: one policy decision per dial over one snapshot of the rules, hot
    reloading of rule data, and one cached client per outbound - all under a
    configuration that passed validation. */
module Router {
  import opened Bytes
  import opened IpRules

  // ------------------------------------------------------------------
  // Configuration

  /** A rule's matcher: the rule texts it was made from and what they match. */
  datatype Matcher = Matcher(baked: seq<string>, domain: string -> bool, ip: IP -> bool)

  datatype Rule = Rule(matcher: Option<Matcher>, policy: string)

  datatype Routing = Routing(transport: string, rules: seq<Rule>, final: string)

  datatype ProxyNode = ProxyNode(host: string, tcpPort: Option<nat>)

  /** A nil map entry is None. */
  type Outbounds = map<string, Option<ProxyNode>>

  const DIRECT := "direct"
  const REJECT := "reject"
  const FINAL := "final"

  datatype Carrier = Shadowsocks | Trojan | NaiveProxy | SunnyQUIC

  function CarrierOf(transport: string): (c: Option<Carrier>)
  {
    if transport == "shadowsocks" || transport == "ss" then Some(Shadowsocks)
    else if transport == "trojan" || transport == "tr" then Some(Trojan)
    else if transport == "naiveproxy" || transport == "np" then Some(NaiveProxy)
    else if transport == "sunnyquic" || transport == "sq" then Some(SunnyQUIC)
    else None
  }

  /** Each transport goes by its name and a short form, and by nothing else. */
  lemma CarrierNames(transport: string)
    ensures CarrierOf(transport) == Some(Shadowsocks) <==> transport in {"shadowsocks", "ss"}
    ensures CarrierOf(transport) == Some(Trojan) <==> transport in {"trojan", "tr"}
    ensures CarrierOf(transport) == Some(NaiveProxy) <==> transport in {"naiveproxy", "np"}
    ensures CarrierOf(transport) == Some(SunnyQUIC) <==> transport in {"sunnyquic", "sq"}
  {
    assert "shadowsocks"[0] == 's' && "ss"[0] == 's' && "trojan"[0] == 't' && "tr"[0] == 't';
    assert "naiveproxy"[0] == 'n' && "np"[0] == 'n' && "sunnyquic"[1] == 'u' && "sq"[1] == 'q';
    assert "shadowsocks"[1] == 'h' && "ss"[1] == 's';
  }

  /** The checks of validate that routing relies on. */
  ghost predicate Validated(outbounds: Outbounds, routing: Routing)
  {
    && CarrierOf(routing.transport).Some?
    && (forall name :: name in outbounds ==> outbounds[name].Some?)
    && (CarrierOf(routing.transport) == Some(Shadowsocks) ==>
          forall name :: name in outbounds && outbounds[name].Some? ==> outbounds[name].value.tcpPort.Some?)
    && (forall i :: 0 <= i < |routing.rules| ==> RuleOk(outbounds, routing.rules[i]))
    && (routing.final == DIRECT || routing.final == REJECT || routing.final in outbounds)
  }

  predicate RuleOk(outbounds: Outbounds, rule: Rule)
  {
    && rule.matcher.Some? && rule.policy != ""
    && (rule.policy in {DIRECT, REJECT, FINAL} || rule.policy in outbounds)
  }

  // ------------------------------------------------------------------
  // The decision

  datatype Address = ByIP(ip: IP, port: nat) | ByDomain(domain: string, port: nat)

  predicate RuleMatches(rule: Rule, addr: Address)
  {
    rule.matcher.Some? &&
    match addr
    case ByIP(ip, _) => rule.matcher.value.ip(ip)
    case ByDomain(domain, _) => rule.matcher.value.domain(domain)
  }

  /** `i` is the first rule that matches `addr`, or the number of rules if none does. */
  ghost predicate IsFirst(rules: seq<Rule>, addr: Address, i: nat)
  {
    && i <= |rules| && (i < |rules| ==> RuleMatches(rules[i], addr))
    && forall k :: 0 <= k < i ==> !RuleMatches(rules[k], addr)
  }

  lemma FirstIsUnique(rules: seq<Rule>, addr: Address, i: nat, j: nat)
    requires IsFirst(rules, addr, i) && IsFirst(rules, addr, j)
    ensures i == j
  {
  }

  /** The address the rules finally see: a domain that no rule matches and that is
      an IP literal is tried once more as an IP. */
  ghost predicate IsRouted(parse: string -> Option<IP>, rules: seq<Rule>, addr: Address, routed: Address)
  {
    if addr.ByDomain? && parse(addr.domain).Some? && IsFirst(rules, addr, |rules|)
    then routed == ByIP(parse(addr.domain).value, addr.port)
    else routed == addr
  }

  /** The policy that rule `i` stands for; no rule and "final" mean the final policy. */
  function PolicyAt(routing: Routing, i: nat): (policy: string)
    requires i <= |routing.rules|
  {
    if i == |routing.rules| || routing.rules[i].policy in {FINAL, ""} then routing.final else routing.rules[i].policy
  }

  method FirstMatch(rules: seq<Rule>, addr: Address) returns (i: nat)
    ensures IsFirst(rules, addr, i)
  {
    i := 0;
    while i < |rules|
      invariant 0 <= i <= |rules| && forall k :: 0 <= k < i ==> !RuleMatches(rules[k], addr)
    {
      if RuleMatches(rules[i], addr) {
        return;
      }
      i := i + 1;
    }
  }

  /** The matching part of DialTCP with its jump back for IP literals. */
  method Choose(routing: Routing, parse: string -> Option<IP>, addr: Address)
    returns (policy: string, routed: Address, ghost i: nat)
    ensures IsRouted(parse, routing.rules, addr, routed) && IsFirst(routing.rules, routed, i)
    ensures policy == PolicyAt(routing, i)
  {
    routed, policy := addr, "";
    var again := true;
    i := 0;
    while again
      invariant again ==> routed == addr || (routed.ByIP? && IsRouted(parse, routing.rules, addr, routed))
      invariant !again ==> IsRouted(parse, routing.rules, addr, routed) && IsFirst(routing.rules, routed, i)
      invariant !again ==> policy == if i < |routing.rules| then routing.rules[i].policy else ""
      decreases again, routed.ByDomain?
    {
      var first := FirstMatch(routing.rules, routed);
      i, again := first, false;
      if first < |routing.rules| {
        policy := routing.rules[first].policy;
        if routed == addr && addr.ByDomain? {
          MatchedMeansNotAll(routing.rules, addr, first);
        }
      } else {
        policy := "";
        if routed.ByDomain? {
          var ip := parse(routed.domain);
          if ip.Some? {
            routed, again := ByIP(ip.value, routed.port), true;
          }
        }
      }
    }
    if policy == FINAL || policy == "" {
      policy := routing.final;
    }
  }

  lemma MatchedMeansNotAll(rules: seq<Rule>, addr: Address, i: nat)
    requires i < |rules| && IsFirst(rules, addr, i)
    ensures !IsFirst(rules, addr, |rules|)
  {
    assert RuleMatches(rules[i], addr);
  }

  /** Under a validated configuration the policy is direct, reject or a defined outbound. */
  lemma PolicyIsDefined(outbounds: Outbounds, routing: Routing, i: nat)
    requires Validated(outbounds, routing) && i <= |routing.rules|
    ensures var p := PolicyAt(routing, i); p == DIRECT || p == REJECT || p in outbounds
  {
    assert i < |routing.rules| ==> RuleOk(outbounds, routing.rules[i]);
  }

  // ------------------------------------------------------------------
  // Reloading

  /** Same rules as far as the configuration goes; only the matched data may differ. */
  ghost predicate SameRules(a: seq<Rule>, b: seq<Rule>)
  {
    |a| == |b| && forall i :: 0 <= i < |a| ==> SameRule(a[i], b[i])
  }

  predicate SameRule(a: Rule, b: Rule)
  {
    && a.policy == b.policy && a.matcher.Some? && b.matcher.Some?
    && a.matcher.value.baked == b.matcher.value.baked
  }

  /** Rules that have a matcher to reload. */
  ghost predicate Loaded(rules: seq<Rule>)
  {
    forall i :: 0 <= i < |rules| ==> rules[i].matcher.Some?
  }

  /** A rule database: whether it opens, and the matcher it gives for rule texts, if it does. */
  datatype RuleDB = RuleDB(opens: bool, load: seq<string> -> Option<Matcher>)

  /** A matcher keeps the texts it was made from. */
  ghost predicate Faithful(db: RuleDB)
  {
    forall baked :: db.load(baked).Some? ==> db.load(baked).value.baked == baked
  }

  ghost predicate LoadsAll(rules: seq<Rule>, db: RuleDB)
    requires Loaded(rules)
  {
    db.opens && forall i :: 0 <= i < |rules| ==> db.load(rules[i].matcher.value.baked).Some?
  }

  /** The rules with every matcher loaded anew; if that fails, the rules as they were. */
  ghost function Reloaded(rules: seq<Rule>, db: RuleDB): (r: seq<Rule>)
    requires Loaded(rules)
    ensures Loaded(r)
  {
    if LoadsAll(rules, db)
    then seq(|rules|, i requires 0 <= i < |rules| => Rule(db.load(rules[i].matcher.value.baked), rules[i].policy))
    else rules
  }

  /** CopyWithNewRulesData: fails if the database does not open, even without rules, and
      if some matcher cannot be loaded. */
  method CopyWithNewRulesData(rules: seq<Rule>, db: RuleDB) returns (copy: Option<seq<Rule>>)
    requires Loaded(rules) && Faithful(db)
    ensures copy.Some? <==> LoadsAll(rules, db)
    ensures copy.Some? ==> SameRules(rules, copy.value) && copy.value == Reloaded(rules, db)
    ensures copy.Some? ==> |copy.value| == |rules| && forall i :: 0 <= i < |rules| ==>
              copy.value[i] == Rule(db.load(rules[i].matcher.value.baked), rules[i].policy)
  {
    if !db.opens {
      return None;
    }
    var loaded: seq<Rule> := [];
    var i := 0;
    while i < |rules|
      invariant 0 <= i <= |rules| && |loaded| == i
      invariant forall k :: 0 <= k < i ==> SameRule(rules[k], loaded[k])
      invariant forall k :: 0 <= k < i ==> loaded[k] == Rule(db.load(rules[k].matcher.value.baked), rules[k].policy)
      invariant forall k :: 0 <= k < i ==> db.load(rules[k].matcher.value.baked).Some?
    {
      var matcher := db.load(rules[i].matcher.value.baked);
      if matcher == None {
        return None;
      }
      loaded := loaded + [Rule(matcher, rules[i].policy)];
      i := i + 1;
    }
    copy := Some(loaded);
  }

  /** The configuration after updateRouting. */
  ghost function AfterReload(routing: Routing, db: RuleDB): (r: Routing)
    requires Loaded(routing.rules)
    ensures Loaded(r.rules)
  {
    routing.(rules := Reloaded(routing.rules, db))
  }

  lemma ReloadKeepsValidated(outbounds: Outbounds, routing: Routing, rules: seq<Rule>)
    requires Validated(outbounds, routing) && SameRules(routing.rules, rules)
    ensures Validated(outbounds, routing.(rules := rules))
  {
    forall i | 0 <= i < |rules|
      ensures RuleOk(outbounds, rules[i])
    {
      assert RuleOk(outbounds, routing.rules[i]) && SameRule(routing.rules[i], rules[i]);
    }
  }

  // ------------------------------------------------------------------
  // The router object

  class CarrierClient {
    const carrier: Carrier
    const node: ProxyNode

    constructor (carrier: Carrier, node: ProxyNode)
      ensures this.carrier == carrier && this.node == node
    {
      this.carrier, this.node := carrier, node;
    }
  }

  datatype Dialed =
    | Directly(addr: Address)
    | Rejected
    | Through(outbound: string, client: CarrierClient, addr: Address)
    | BuildFailed(outbound: string)

  /** `d` is what the first matching rule of `routing` asks for. */
  ghost predicate Explains(parse: string -> Option<IP>, outbounds: Outbounds, routing: Routing, addr: Address,
                           d: Dialed)
  {
    exists routed, i ::
      && IsRouted(parse, routing.rules, addr, routed) && IsFirst(routing.rules, routed, i)
      && FollowsPolicy(outbounds, PolicyAt(routing, i), routed, d)
  }

  ghost predicate FollowsPolicy(outbounds: Outbounds, policy: string, routed: Address, d: Dialed)
  {
    if policy == DIRECT then d == Directly(routed)
    else if policy == REJECT then d == Rejected
    else
      && policy in outbounds
      && (d == BuildFailed(policy) || (d.Through? && d.outbound == policy && d.addr == routed))
  }

  /** One snapshot explains one outcome only, apart from a client that cannot be built. */
  lemma ExplainedOneWay(parse: string -> Option<IP>, outbounds: Outbounds, routing: Routing, addr: Address,
                        d: Dialed, e: Dialed)
    requires Explains(parse, outbounds, routing, addr, d) && Explains(parse, outbounds, routing, addr, e)
    ensures (d.Directly? || d.Rejected? || e.Directly? || e.Rejected?) ==> d == e
    ensures d.Through? && e.Through? ==> d.outbound == e.outbound && d.addr == e.addr
    ensures d.Through? && e.BuildFailed? ==> d.outbound == e.outbound
  {
    var r, i :| IsRouted(parse, routing.rules, addr, r) && IsFirst(routing.rules, r, i)
                && FollowsPolicy(outbounds, PolicyAt(routing, i), r, d);
    var r', j :| IsRouted(parse, routing.rules, addr, r') && IsFirst(routing.rules, r', j)
                 && FollowsPolicy(outbounds, PolicyAt(routing, j), r', e);
    FirstIsUnique(routing.rules, r, i, j);
  }

  /** `i` is the first rule with a matcher that hits, or the number of rules if none does. */
  ghost predicate FirstHit(rules: seq<Rule>, hits: Matcher -> bool, i: nat)
  {
    && i <= |rules| && (i < |rules| ==> rules[i].matcher.Some? && hits(rules[i].matcher.value))
    && forall k :: 0 <= k < i && rules[k].matcher.Some? ==> !hits(rules[k].matcher.value)
  }

  /** The dial of an IP follows the first rule that matches it: a rule without a policy of
      its own, like no rule, means the final policy. */
  lemma IPDecides(parse: string -> Option<IP>, outbounds: Outbounds, routing: Routing, ip: IP, port: nat, i: nat,
                  d: Dialed)
    requires Explains(parse, outbounds, routing, ByIP(ip, port), d)
    requires FirstHit(routing.rules, (m: Matcher) => m.ip(ip), i)
    ensures var own := i < |routing.rules| && routing.rules[i].policy != "final" && routing.rules[i].policy != "";
            var policy := if own then routing.rules[i].policy else routing.final;
            if policy == "direct" then d == Directly(ByIP(ip, port))
            else if policy == "reject" then d == Rejected
            else d == BuildFailed(policy) || (d.Through? && d.outbound == policy && d.addr == ByIP(ip, port))
  {
    assert IsFirst(routing.rules, ByIP(ip, port), i);
    Decided(parse, outbounds, routing, ByIP(ip, port), ByIP(ip, port), i, d);
  }

  /** So does the dial of a domain that a rule matches or that is no IP literal. */
  lemma DomainDecides(parse: string -> Option<IP>, outbounds: Outbounds, routing: Routing, domain: string, port: nat,
                      i: nat, d: Dialed)
    requires Explains(parse, outbounds, routing, ByDomain(domain, port), d)
    requires FirstHit(routing.rules, (m: Matcher) => m.domain(domain), i)
    requires i < |routing.rules| || parse(domain) == None
    ensures var own := i < |routing.rules| && routing.rules[i].policy != "final" && routing.rules[i].policy != "";
            var policy := if own then routing.rules[i].policy else routing.final;
            if policy == "direct" then d == Directly(ByDomain(domain, port))
            else if policy == "reject" then d == Rejected
            else d == BuildFailed(policy) || (d.Through? && d.outbound == policy && d.addr == ByDomain(domain, port))
  {
    var addr := ByDomain(domain, port);
    assert IsFirst(routing.rules, addr, i);
    if i < |routing.rules| {
      MatchedMeansNotAll(routing.rules, addr, i);
    }
    Decided(parse, outbounds, routing, addr, addr, i, d);
  }

  /** And an IP literal that no rule matches as a domain follows the first rule that
      matches it as an IP, and is dialled as one. */
  lemma LiteralDecides(parse: string -> Option<IP>, outbounds: Outbounds, routing: Routing, domain: string, ip: IP,
                       port: nat, i: nat, d: Dialed)
    requires Explains(parse, outbounds, routing, ByDomain(domain, port), d) && parse(domain) == Some(ip)
    requires FirstHit(routing.rules, (m: Matcher) => m.domain(domain), |routing.rules|)
    requires FirstHit(routing.rules, (m: Matcher) => m.ip(ip), i)
    ensures var own := i < |routing.rules| && routing.rules[i].policy != "final" && routing.rules[i].policy != "";
            var policy := if own then routing.rules[i].policy else routing.final;
            if policy == "direct" then d == Directly(ByIP(ip, port))
            else if policy == "reject" then d == Rejected
            else d == BuildFailed(policy) || (d.Through? && d.outbound == policy && d.addr == ByIP(ip, port))
  {
    assert IsFirst(routing.rules, ByDomain(domain, port), |routing.rules|);
    assert IsFirst(routing.rules, ByIP(ip, port), i);
    Decided(parse, outbounds, routing, ByDomain(domain, port), ByIP(ip, port), i, d);
  }

  lemma Decided(parse: string -> Option<IP>, outbounds: Outbounds, routing: Routing, addr: Address, routed: Address,
                i: nat, d: Dialed)
    requires Explains(parse, outbounds, routing, addr, d)
    requires IsRouted(parse, routing.rules, addr, routed) && IsFirst(routing.rules, routed, i)
    ensures FollowsPolicy(outbounds, PolicyAt(routing, i), routed, d)
  {
    var r, j :| IsRouted(parse, routing.rules, addr, r) && IsFirst(routing.rules, r, j)
                && FollowsPolicy(outbounds, PolicyAt(routing, j), r, d);
    FirstIsUnique(routing.rules, routed, i, j);
  }

  /** The result goes through the client that is cached for its outbound. */
  ghost predicate Kept(cache: map<string, CarrierClient>, d: Dialed)
  {
    d.Through? ==> d.outbound in cache && cache[d.outbound] == d.client
  }

  class Client {
    const parse: string -> Option<IP>
    const outbounds: Outbounds
    var routing: Option<Routing>
    var cache: map<string, CarrierClient>

    constructor (parse: string -> Option<IP>, outbounds: Outbounds, routing: Option<Routing>)
      requires routing.Some? ==> Validated(outbounds, routing.value)
      ensures Valid() && cache == map[] && this.routing == routing && this.outbounds == outbounds && this.parse == parse
    {
      this.parse, this.outbounds, this.routing, cache := parse, outbounds, routing, map[];
    }

    /** Cached clients were built for their own outbound with the configured carrier. */
    ghost predicate Valid()
      reads this
    {
      && (routing.Some? ==> Validated(outbounds, routing.value))
      && (cache != map[] ==> routing.Some?)
      && forall name :: name in cache ==> ClientOk(name)
    }

    ghost predicate ClientOk(name: string)
      requires name in cache
      reads this
    {
      && name in outbounds && outbounds[name] == Some(cache[name].node)
      && routing.Some? && CarrierOf(routing.value.transport) == Some(cache[name].carrier)
    }

    /** newCarrierClient: building may fail (TLS files), but neither for an unknown
        transport nor for a missing node or tcp-port. */
    method NewCarrierClient(name: string) returns (client: CarrierClient?)
      requires Valid() && routing.Some? && name in outbounds
      ensures client != null ==> fresh(client) && outbounds[name] == Some(client.node)
      ensures client != null ==> CarrierOf(routing.value.transport) == Some(client.carrier)
      ensures CarrierOf(routing.value.transport) == Some(Shadowsocks) ==> client != null
    {
      var carrier := CarrierOf(routing.value.transport).value;
      var node := outbounds[name].value;
      if carrier == Shadowsocks {
        var port := node.tcpPort.value;
        client := new CarrierClient(carrier, node);
      } else {
        var broken: bool := *;
        if broken {
          return null;
        }
        client := new CarrierClient(carrier, node);
      }
    }

    /** getCarrierClient: a cached client is returned as it is; a new one is cached. */
    method GetCarrierClient(name: string) returns (client: CarrierClient?)
      requires Valid() && routing.Some? && name in outbounds
      modifies this`cache
      ensures Valid() && old(cache).Keys <= cache.Keys
      ensures forall other :: other in old(cache) ==> cache[other] == old(cache)[other]
      ensures client != null ==> name in cache && cache[name] == client
      ensures name in old(cache) ==> client == old(cache)[name]
      ensures CarrierOf(routing.value.transport) == Some(Shadowsocks) ==> client != null
    {
      if name in cache {
        return cache[name];
      }
      client := NewCarrierClient(name);
      if client != null {
        cache := cache[name := client];
        forall other | other in cache
          ensures ClientOk(other)
        {
          assert other in old(cache) ==> old(ClientOk(other));
        }
      }
    }

    /** DialTCP up to handing over to the chosen client. */
    method DialTCP(addr: Address) returns (d: Dialed)
      requires Valid()
      modifies this`cache
      ensures Valid() && old(cache).Keys <= cache.Keys
      ensures forall other :: other in old(cache) ==> cache[other] == old(cache)[other]
      ensures routing == None ==> d == Directly(addr)
      ensures routing.Some? ==> Explains(parse, outbounds, routing.value, addr, d)
      ensures Kept(cache, d)
      ensures d.BuildFailed? ==> d.outbound !in old(cache) && CarrierOf(routing.value.transport) != Some(Shadowsocks)
    {
      if routing == None {
        return Directly(addr);
      }
      ghost var i;
      var policy, routed;
      policy, routed, i := Choose(routing.value, parse, addr);
      PolicyIsDefined(outbounds, routing.value, i);
      if policy == DIRECT {
        d := Directly(routed);
      } else if policy == REJECT {
        d := Rejected;
      } else {
        var client := GetCarrierClient(policy);
        d := if client == null then BuildFailed(policy) else Through(policy, client, routed);
      }
      assert FollowsPolicy(outbounds, PolicyAt(routing.value, i), routed, d);
    }

    /** updateRouting: `fetched` tells whether the rules' files were updated. A reload
        that fails leaves the rules as they are; one without a routing dereferences a
        null pointer. */
    method UpdateRouting(fetched: bool, db: RuleDB) returns (crashed: bool)
      requires Valid() && Faithful(db)
      modifies this`routing
      ensures Valid() && Reloadable(routing) && Reloadable(old(routing))
      ensures crashed <==> CrashesOn(old(routing), Reload(fetched, db))
      ensures routing == Next(old(routing), Reload(fetched, db))
    {
      if routing.Some? {
        ValidatedIsLoaded(outbounds, routing.value);
      }
      if !fetched {
        return false;
      }
      if routing == None {
        return true;
      }
      crashed := false;
      var rules := CopyWithNewRulesData(routing.value.rules, db);
      if rules.Some? {
        ReloadKeepsValidated(outbounds, routing.value, rules.value);
        routing := Some(routing.value.(rules := rules.value));
        forall other | other in cache
          ensures ClientOk(other)
        {
          assert old(ClientOk(other));
        }
      }
    }
  }

  // ------------------------------------------------------------------
  // Whole runs

  datatype Step = Dial(addr: Address) | Reload(fetched: bool, db: RuleDB)

  ghost predicate LoaderOk(s: Step)
  {
    s.Reload? ==> Faithful(s.db)
  }

  ghost predicate Reloadable(routing: Option<Routing>)
  {
    routing.Some? ==> Loaded(routing.value.rules)
  }

  lemma ValidatedIsLoaded(outbounds: Outbounds, routing: Routing)
    requires Validated(outbounds, routing)
    ensures Loaded(routing.rules)
  {
    assert forall i :: 0 <= i < |routing.rules| ==> RuleOk(outbounds, routing.rules[i]);
  }

  /** The process dies in this step: fresh rules' files, and no routing to reload. */
  predicate CrashesOn(routing: Option<Routing>, step: Step)
  {
    step.Reload? && step.fetched && routing.None?
  }

  ghost function Next(routing: Option<Routing>, step: Step): (r: Option<Routing>)
    requires Reloadable(routing)
    ensures Reloadable(r)
  {
    if step.Reload? && step.fetched && routing.Some? then Some(AfterReload(routing.value, step.db)) else routing
  }

  /** What a dial is asked for, and the configuration at that time. */
  datatype Asking = Asking(addr: Address, snapshot: Option<Routing>)

  function AskedBy(routing: Option<Routing>, step: Step): (askings: seq<Asking>)
  {
    if step.Dial? then [Asking(step.addr, routing)] else []
  }

  /** The dials of a run, each with the rules left by the reloads before it. */
  ghost function Askings(routing: Option<Routing>, steps: seq<Step>): (askings: seq<Asking>)
    requires Reloadable(routing)
    decreases |steps|
  {
    if steps == [] || CrashesOn(routing, steps[0]) then []
    else AskedBy(routing, steps[0]) + Askings(Next(routing, steps[0]), steps[1..])
  }

  /** The configuration after a run of steps. */
  ghost function RoutingAfter(routing: Option<Routing>, steps: seq<Step>): (r: Option<Routing>)
    requires Reloadable(routing)
    ensures Reloadable(r)
    decreases |steps|
  {
    if steps == [] then routing else RoutingAfter(Next(routing, steps[0]), steps[1..])
  }

  lemma {:induction false} AskingsAppend(routing: Option<Routing>, a: seq<Step>, b: seq<Step>)
    requires Reloadable(routing) && forall i :: 0 <= i < |a| ==> !CrashesOn(routing, a[i])
    ensures Askings(routing, a + b) == Askings(routing, a) + Askings(RoutingAfter(routing, a), b)
    decreases |a|
  {
    if a == [] {
      assert a + b == b;
    } else {
      assert (a + b)[1..] == a[1..] + b;
      assert Next(routing, a[0]).None? <==> routing.None?;
      AskingsAppend(Next(routing, a[0]), a[1..], b);
    }
  }

  /** A dial sees what the steps before it have left. */
  lemma DialSees(routing: Option<Routing>, before: seq<Step>, addr: Address, behind: seq<Step>)
    requires Reloadable(routing) && forall i :: 0 <= i < |before| ==> !CrashesOn(routing, before[i])
    ensures var n, all := |Askings(routing, before)|, Askings(routing, before + ([Dial(addr)] + behind));
            n < |all| && all[n] == Asking(addr, RoutingAfter(routing, before))
  {
    AskingsAppend(routing, before, [Dial(addr)] + behind);
    assert ([Dial(addr)] + behind)[0] == Dial(addr);
  }

  /** One step more leaves the routing as it was, unless it is a reload that succeeds:
      then every rule keeps its policy and has the matcher the database gives for its
      texts. */
  lemma {:induction false} RoutingAfterNext(routing: Option<Routing>, before: seq<Step>, step: Step)
    requires Reloadable(routing) && RoutingAfter(routing, before).Some?
    ensures var now, next := RoutingAfter(routing, before).value, RoutingAfter(routing, before + [step]);
            if step.Reload? && step.fetched && step.db.opens
               && forall i :: 0 <= i < |now.rules| ==> step.db.load(now.rules[i].matcher.value.baked).Some?
            then && next.Some? && |next.value.rules| == |now.rules| && next.value.final == now.final
                 && next.value.transport == now.transport
                 && forall i :: 0 <= i < |now.rules| ==>
                      next.value.rules[i] == Rule(step.db.load(now.rules[i].matcher.value.baked), now.rules[i].policy)
            else next == Some(now)
    decreases |before|
  {
    if before == [] {
      assert before + [step] == [step] && [step][1..] == [];
    } else {
      assert (before + [step])[1..] == before[1..] + [step];
      RoutingAfterNext(Next(routing, before[0]), before[1..], step);
    }
  }

  datatype Entry = Entry(asking: Asking, dialed: Dialed)

  function AskingsOf(log: seq<Entry>): (askings: seq<Asking>)
    ensures |askings| == |log| && forall i :: 0 <= i < |log| ==> askings[i] == log[i].asking
  {
    seq(|log|, i requires 0 <= i < |log| => log[i].asking)
  }

  ghost predicate EntryOk(c: Client, e: Entry)
    reads c
  {
    match e.asking.snapshot
    case None => e.dialed == Directly(e.asking.addr)
    case Some(routing) =>
      && Explains(c.parse, c.outbounds, routing, e.asking.addr, e.dialed)
      && Validated(c.outbounds, routing) && Kept(c.cache, e.dialed)
      && (e.dialed.Through? ==>
            && e.dialed.outbound in c.outbounds
            && c.outbounds[e.dialed.outbound] == Some(e.dialed.client.node)
            && CarrierOf(routing.transport) == Some(e.dialed.client.carrier))
  }

  ghost predicate LogOk(c: Client, log: seq<Entry>)
    reads c
  {
    forall i :: 0 <= i < |log| ==> EntryOk(c, log[i])
  }

  /** Any run of dials and reloads: every dial is explained by the first matching rule
      of the one snapshot the reloads before it left, goes directly, is rejected or
      goes to a defined outbound, and always through the same client for the same
      outbound; a reload never breaks the configuration. The run crashes exactly if
      there is no routing and some reload gets fresh files. */
  method Run(c: Client, steps: seq<Step>) returns (log: seq<Entry>, crashed: bool)
    requires c.Valid() && forall i :: 0 <= i < |steps| ==> LoaderOk(steps[i])
    modifies c`cache, c`routing
    ensures c.Valid() && LogOk(c, log)
    ensures Reloadable(old(c.routing)) && AskingsOf(log) == Askings(old(c.routing), steps)
    ensures crashed <==> old(c.routing).None? && exists i :: 0 <= i < |steps| && steps[i].Reload? && steps[i].fetched
  {
    if c.routing.Some? {
      ValidatedIsLoaded(c.outbounds, c.routing.value);
    }
    ghost var askings := Askings(c.routing, steps);
    log, crashed := [], false;
    var n := 0;
    assert steps[0..] == steps && AskingsOf(log) + askings == askings;
    while n < |steps| && !crashed
      invariant 0 <= n <= |steps| && c.Valid() && LogOk(c, log)
      invariant Reloadable(c.routing) && (c.routing.None? <==> old(c.routing).None?)
      invariant AskingsOf(log) + StillAsked(c.routing, steps[n..], crashed) == askings
      invariant crashed ==> 0 < n && CrashesOn(old(c.routing), steps[n - 1])
      invariant forall i :: 0 <= i < n ==> crashed || !CrashesOn(old(c.routing), steps[i])
    {
      StillAskedNext(c.routing, steps, n);
      ghost var routing, before := c.routing, log;
      log, crashed := TakeStep(c, steps[n], log);
      NextAskings(AskingsOf(before), AskedBy(routing, steps[n]), StillAsked(c.routing, steps[n + 1..], crashed));
      n := n + 1;
    }
    NextAskings(AskingsOf(log), [], []);
  }

  /** What such a log says: without a routing every dial went directly, and with one it is
      explained by it. */
  lemma LogExplains(c: Client, log: seq<Entry>)
    requires LogOk(c, log)
    ensures forall i :: 0 <= i < |log| ==>
              match log[i].asking.snapshot
              case None => log[i].dialed == Directly(log[i].asking.addr)
              case Some(routing) => Explains(c.parse, c.outbounds, routing, log[i].asking.addr, log[i].dialed)
  {
    assert forall i :: 0 <= i < |log| ==> EntryOk(c, log[i]);
  }

  /** What a run that has not crashed is still asked. */
  ghost function StillAsked(routing: Option<Routing>, steps: seq<Step>, crashed: bool): seq<Asking>
    requires Reloadable(routing)
  {
    if crashed then [] else Askings(routing, steps)
  }

  lemma StillAskedNext(routing: Option<Routing>, steps: seq<Step>, n: nat)
    requires Reloadable(routing) && n < |steps|
    ensures StillAsked(routing, steps[n..], false)
         == AskedBy(routing, steps[n])
            + StillAsked(Next(routing, steps[n]), steps[n + 1..], CrashesOn(routing, steps[n]))
  {
    assert steps[n..][0] == steps[n] && steps[n..][1..] == steps[n + 1..];
  }

  lemma NextAskings(done: seq<Asking>, next: seq<Asking>, rest: seq<Asking>)
    ensures done + next + rest == done + (next + rest)
    ensures done + [] == done && next + [] == next
  {
  }

  method TakeStep(c: Client, step: Step, log: seq<Entry>) returns (log': seq<Entry>, crashed: bool)
    requires c.Valid() && LogOk(c, log) && LoaderOk(step)
    modifies c`cache, c`routing
    ensures c.Valid() && LogOk(c, log') && Reloadable(old(c.routing))
    ensures crashed <==> CrashesOn(old(c.routing), step)
    ensures c.routing == Next(old(c.routing), step)
    ensures AskingsOf(log') == AskingsOf(log) + AskedBy(old(c.routing), step)
  {
    log', crashed := log, false;
    match step {
      case Dial(addr) =>
        var e := DialAndLog(c, addr, log);
        log' := log + [e];
      case Reload(fetched, db) =>
        crashed := c.UpdateRouting(fetched, db);
        forall i | 0 <= i < |log|
          ensures EntryOk(c, log[i])
        {
          assert old(EntryOk(c, log[i]));
        }
    }
  }

  method DialAndLog(c: Client, addr: Address, ghost log: seq<Entry>) returns (e: Entry)
    requires c.Valid() && LogOk(c, log)
    modifies c`cache
    ensures c.Valid() && LogOk(c, log) && EntryOk(c, e)
    ensures e.asking == Asking(addr, c.routing) && Reloadable(c.routing)
  {
    var d := c.DialTCP(addr);
    e := Entry(Asking(addr, c.routing), d);
    if c.routing.Some? {
      ValidatedIsLoaded(c.outbounds, c.routing.value);
    }
    assert d.Through? ==> c.ClientOk(d.outbound);
    forall i | 0 <= i < |log|
      ensures EntryOk(c, log[i])
    {
      assert old(EntryOk(c, log[i]));
    }
  }

  /** So two dials through one outbound share one client. */
  lemma OneClientPerOutbound(c: Client, d: Entry, e: Entry)
    requires EntryOk(c, d) && EntryOk(c, e)
    requires d.dialed.Through? && e.dialed.Through? && d.dialed.outbound == e.dialed.outbound
    ensures d.dialed.client == e.dialed.client
  {
  }
}
