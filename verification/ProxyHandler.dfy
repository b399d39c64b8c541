/**
 The transparent proxy's connection handler (src/proxy/handler.rs): the name
 behind an address that FakeDNS handed out, the parental check on that name, and
 the rule engine's answer for name and address together.
 */
module ProxyHandler {
  import opened Ascii
  import opened Controller
  import opened DomainMatcher
  import opened DomainSuffix
  import opened FakeDns
  import opened KeywordScan
  import opened Numbers
  import opened RuleEngine
  import opened RuleTypes
  import opened SuffixTrie
  import opened Timestamps

  /** A connection is closed, or relayed as a match result says. */
  datatype Outcome = Dropped | Routed(name: Option<string>, route: MatchResult)

  /** `resolve_domain`: the allocator afterwards and the name. */
  function ResolveStep(pool: Option<Pool>, fake: Option<State>, to: IpAddr): (Option<State>, Option<string>)
    requires pool.Some? ==> fake.Some?
  {
    if to.V4? && pool.Some? && pool.value.Contains(to.v4) then
      var (s, name) := LookupStep(fake.value, to.v4);
      (Some(s), name)
    else (fake, None)
  }

  class ConnectionHandler {
    const fakeDns: Allocator?
    const ruleEngine: Engine
    const parentalController: ParentalController?

    function Pool(): Option<Pool> {
      if fakeDns == null then None else Some(fakeDns.pool)
    }

    function Names(): (s: Option<State>)
      reads fakeDns
      ensures Pool().Some? ==> s.Some?
    {
      if fakeDns == null then None else Some(fakeDns.View())
    }

    /** Whether the controller, if there is one, blocks the name for the client. */
    ghost predicate Blocks(src: IpAddr, name: Option<string>, clock: Stamp)
      reads parentalController, if parentalController == null then {} else {parentalController.blocklistManager}
      reads if parentalController == null || parentalController.grantStore == null then {}
            else {parentalController.grantStore}
    {
      parentalController != null && name.Some?
      && Decide(parentalController.View(), parentalController.Lists(),
                CacheAnswers(parentalController.Cached(), Seconds(clock)), src, name.value).Block?
    }

    constructor (fakeDns: Allocator?, ruleEngine: Engine, parentalController: ParentalController?)
      ensures this.fakeDns == fakeDns && this.ruleEngine == ruleEngine
      ensures this.parentalController == parentalController
    {
      this.fakeDns, this.ruleEngine, this.parentalController := fakeDns, ruleEngine, parentalController;
    }

    method ResolveDomain(ip: IpAddr) returns (name: Option<string>)
      requires fakeDns != null ==> Inv(fakeDns.pool, fakeDns.View())
      modifies fakeDns
      ensures (Names(), name) == ResolveStep(Pool(), old(Names()), ip)
      ensures fakeDns != null ==> Inv(fakeDns.pool, fakeDns.View())
    {
      if ip.V6? || fakeDns == null || !fakeDns.pool.Contains(ip.v4) {
        return None;
      }
      name := fakeDns.Lookup(ip.v4);
    }

    /** Steps 3 to 5 of `handle`: the parental check and the rules. */
    method Route(src: IpAddr, name: Option<string>, to: IpAddr, clock: Stamp) returns (outcome: Outcome)
      requires ruleEngine.Valid()
      ensures outcome.Dropped? <==> Blocks(src, name, clock)
      ensures outcome.Routed? ==>
                outcome == Routed(name, EngineResult(ruleEngine.rules, ruleEngine.geo, Request(name, Some(to))))
    {
      hide Decide, EngineResult, Seconds, Collect, ByCountry;
      if parentalController != null && name.Some? {
        var decision := parentalController.CheckAccess(src, name.value, clock);
        if decision.Block? {
          return Dropped;
        }
      }
      var route := ruleEngine.MatchRequest(name, Some(to));
      return Routed(name, route);
    }

    /** `handle`, from the original destination on. */
    method Handle(src: IpAddr, to: IpAddr, clock: Stamp) returns (outcome: Outcome)
      requires ruleEngine.Valid()
      requires fakeDns != null ==> Inv(fakeDns.pool, fakeDns.View())
      modifies fakeDns
      ensures var (names, name) := ResolveStep(Pool(), old(Names()), to);
              && Names() == names
              && (outcome.Dropped? <==> old(Blocks(src, name, clock)))
              && (outcome.Routed? ==>
                    outcome == Routed(name, EngineResult(ruleEngine.rules, ruleEngine.geo, Request(name, Some(to)))))
      ensures fakeDns != null ==> Inv(fakeDns.pool, fakeDns.View())
    {
      hide EngineResult, Inv, ResolveStep, Blocks, Engine.Valid;
      var name := ResolveDomain(to);
      outcome := Route(src, name, to, clock);
    }
  }

  // ----- the engine asked by name alone, and by name and address -----

  /** A request by another spelling of the name has the same answer. */
  lemma SpellingIrrelevant(rules: seq<Rule>, geo: Geo, d: string, e: string, ip: Option<IpAddr>)
    requires ToLower(d) == ToLower(e)
    ensures EngineResult(rules, geo, Request(Some(d), ip)) == EngineResult(rules, geo, Request(Some(e), ip))
  {
    PathIgnoresCase(d);
    PathIgnoresCase(e);
    hide ToLower, Path, Collect, ExactIndex, SuffixIndex, LongestMatch, AllHits, EngineResult;
    forall i: nat
      ensures Candidate(rules, geo, Request(Some(d), ip), i) <==> Candidate(rules, geo, Request(Some(e), ip), i)
    {
    }
    SameCandidates(rules, geo, Request(Some(d), ip), Request(Some(e), ip));
  }

  lemma SameCandidates(rules: seq<Rule>, geo: Geo, q: Request, r: Request)
    requires forall i: nat :: Candidate(rules, geo, q, i) <==> Candidate(rules, geo, r, i)
    ensures EngineResult(rules, geo, q) == EngineResult(rules, geo, r)
  {
    hide Candidate;
    var best := BestCandidate(rules, geo, q);
    EngineResultIs(rules, geo, r, best);
  }

  /** The candidate that the engine answers with, if any. */
  lemma BestCandidate(rules: seq<Rule>, geo: Geo, req: Request) returns (best: Option<nat>)
    ensures best.None? ==> forall i :: 0 <= i < |rules| ==> !Candidate(rules, geo, req, i)
    ensures best.Some? ==> best.value < |rules| && Candidate(rules, geo, req, best.value)
                           && forall i :: 0 <= i < best.value ==> !Candidate(rules, geo, req, i)
    ensures EngineResult(rules, geo, req) == Answer(rules, best)
  {
    hide Candidate;
    var p := (i: nat) => Candidate(rules, geo, req, i);
    best := Least(|rules|, p);
    assert best.Some? ==> p(best.value);
    assert forall i: nat :: p(i) <==> Candidate(rules, geo, req, i);
    EngineResultIs(rules, geo, req, best);
  }

  /** An IP rule that may be used for a request with a name matches the address. */
  ghost predicate AddressRule(rules: seq<Rule>, geo: Geo, ip: IpAddr, i: nat) {
    i < |rules| && IsIpRule(rules[i]) && !rules[i].noResolve && Matches(rules[i], geo, Request(None, Some(ip)))
  }

  lemma CandidateOfBoth(rules: seq<Rule>, geo: Geo, d: string, ip: IpAddr, i: nat)
    ensures Candidate(rules, geo, Request(Some(d), Some(ip)), i)
            <==> Candidate(rules, geo, Request(Some(d), None), i) || AddressRule(rules, geo, ip, i)
  {
    hide Reports, Collect;
  }

  /** The address changes nothing if and only if every IP rule that matches it,
      and has no `no-resolve`, stands behind the rule that answers for the name. */
  lemma AddressIrrelevantIff(rules: seq<Rule>, geo: Geo, d: string, ip: IpAddr)
    ensures var byName := EngineResult(rules, geo, Request(Some(d), None));
            EngineResult(rules, geo, Request(Some(d), Some(ip))) == byName
            <==> forall i :: AddressRule(rules, geo, ip, i) ==> byName.matched.ByRule? && byName.ruleIndex < i
  {
    forall i: nat
      ensures Candidate(rules, geo, Request(Some(d), Some(ip)), i)
              <==> Candidate(rules, geo, Request(Some(d), None), i) || AddressRule(rules, geo, ip, i)
    {
      CandidateOfBoth(rules, geo, d, ip, i);
    }
    var one := BestCandidate(rules, geo, Request(Some(d), None));
    var both := BestCandidate(rules, geo, Request(Some(d), Some(ip)));
    forall i: nat | Candidate(rules, geo, Request(Some(d), None), i) ensures i < |rules| && !IsIpRule(rules[i]) {
      NameCandidate(rules, geo, d, i);
    }
    hide Candidate, AddressRule, EngineResult;
  }

  lemma NameCandidate(rules: seq<Rule>, geo: Geo, d: string, i: nat)
    requires Candidate(rules, geo, Request(Some(d), None), i)
    ensures i < |rules| && !IsIpRule(rules[i])
  {
    hide Candidate;
    CandidateMatches(rules, geo, Request(Some(d), None), i);
  }

  /** Where the name alone is not rejected, name and address together are rejected
      only by an IP rule that matches the address. */
  lemma OnlyAddressRulesReject(rules: seq<Rule>, geo: Geo, d: string, ip: IpAddr)
    requires EngineResult(rules, geo, Request(Some(d), None)).policy != Reject
    ensures var r := EngineResult(rules, geo, Request(Some(d), Some(ip)));
            r.policy == Reject ==> r.matched.ByRule? && AddressRule(rules, geo, ip, r.ruleIndex)
  {
    forall i: nat
      ensures Candidate(rules, geo, Request(Some(d), Some(ip)), i)
              <==> Candidate(rules, geo, Request(Some(d), None), i) || AddressRule(rules, geo, ip, i)
    {
      CandidateOfBoth(rules, geo, d, ip, i);
    }
    var one := BestCandidate(rules, geo, Request(Some(d), None));
    var both := BestCandidate(rules, geo, Request(Some(d), Some(ip)));
    hide Candidate, AddressRule, EngineResult;
  }
}
