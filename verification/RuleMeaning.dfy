/**
 What a rule asks of a request, in plain terms: letters compared whatever their
 case, suffixes at label boundaries, keywords anywhere, networks as blocks of
 addresses. And what the engine's answer means in these terms, with no reference
 to its indexes.
 */
module RuleMeaning {
  import opened Ascii
  import opened DomainSuffix
  import opened FirstMatch
  import opened KeywordScan
  import opened Numbers
  import opened RuleEngine
  import opened RuleTypes

  predicate HoldsAt(d: string, w: string, k: nat) {
    k + |w| <= |d| && SpelledAlike(d[k..k + |w|], w)
  }

  ghost predicate Holds(d: string, w: string) {
    exists k: nat :: HoldsAt(d, w, k)
  }

  /** The rule fits the request: its type's condition, and for an IP rule with
      `no-resolve` that no name was given. */
  ghost predicate Fits(rule: Rule, geo: Geo, req: Request) {
    match rule.kind
    case Domain(p) => req.domain.Some? && SpelledAlike(req.domain.value, p)
    case DomainSuffix(p) => req.domain.Some? && FallsUnder(req.domain.value, p)
    case DomainKeyword(w) => req.domain.Some? && Holds(req.domain.value, w)
    case IpCidr(net) => req.ip.Some? && req.ip.value.V4? && InBlock(net, 32, req.ip.value.v4)
                        && (rule.noResolve ==> req.domain.None?)
    case IpCidr6(net) => req.ip.Some? && req.ip.value.V6? && InBlock(net, 128, req.ip.value.v6)
                         && (rule.noResolve ==> req.domain.None?)
    case GeoIp(c) => req.ip.Some? && geo(req.ip.value).Some? && SpelledAlike(geo(req.ip.value).value, c)
                     && (rule.noResolve ==> req.domain.None?)
    case Final => false
  }

  lemma HoldsIff(d: string, w: string)
    ensures Occurs(ToLower(d), w) <==> Holds(d, w)
  {
    forall k: nat ensures MatchesAt(ToLower(d), w, k) <==> HoldsAt(d, w, k) {
      if k + |w| <= |d| {
        LowerSlice(d, k, k + |w|);
        ToLowerIdempotent(d[k..k + |w|]);
        SameCaseIff(d[k..k + |w|], w);
      }
    }
    hide MatchesAt, HoldsAt;
  }

  /** Fitting is what the engine's proofs call matching. */
  lemma FitsIff(rule: Rule, geo: Geo, req: Request)
    ensures Fits(rule, geo, req) <==> Matches(rule, geo, req)
  {
    match rule.kind
    case Domain(p) =>
      if req.domain.Some? { SameCaseIff(req.domain.value, p); }
    case DomainSuffix(p) =>
      if req.domain.Some? { FallsUnderIff(req.domain.value, p); }
    case DomainKeyword(w) =>
      if req.domain.Some? { HoldsIff(req.domain.value, w); }
    case IpCidr(net) =>
      if req.ip.Some? && req.ip.value.V4? { ContainsIffInBlock(net, 32, req.ip.value.v4); }
    case IpCidr6(net) =>
      if req.ip.Some? && req.ip.value.V6? { ContainsIffInBlock(net, 128, req.ip.value.v6); }
    case GeoIp(c) =>
      if req.ip.Some? && geo(req.ip.value).Some? { SameCaseIff(geo(req.ip.value).value, c); }
    case Final =>
  }

  /** The answer FINAL: the last FINAL rule, or DIRECT without one. */
  ghost predicate IsFinalAnswer(rules: seq<Rule>, r: MatchResult) {
    && r.matched.ByFinal?
    && if r.ruleIndex < |rules| then
         rules[r.ruleIndex].kind.Final? && r.policy == rules[r.ruleIndex].policy
         && forall i :: r.ruleIndex < i < |rules| ==> !rules[i].kind.Final?
       else
         r.ruleIndex == |rules| && r.policy == Direct && forall i :: 0 <= i < |rules| ==> !rules[i].kind.Final?
  }

  /** For every rule list and request: an answer by a rule names one that fits,
      and no IP rule that fits stands before it; FINAL is answered if and only if
      no rule fits. */
  lemma AnswerMeaning(rules: seq<Rule>, geo: Geo, req: Request)
    ensures var r := EngineResult(rules, geo, req);
            && (r.matched.ByRule? ==>
                  && r.ruleIndex < |rules| && r.matched.rule == rules[r.ruleIndex]
                  && r.policy == rules[r.ruleIndex].policy && Fits(rules[r.ruleIndex], geo, req))
            && (forall i :: 0 <= i < |rules| && IsIpRule(rules[i]) && Fits(rules[i], geo, req) ==>
                  r.matched.ByRule? && r.ruleIndex <= i)
            && (r.matched.ByFinal? <==> forall i :: 0 <= i < |rules| ==> !Fits(rules[i], geo, req))
            && (r.matched.ByFinal? ==> IsFinalAnswer(rules, r))
  {
    forall i | 0 <= i < |rules| ensures Fits(rules[i], geo, req) <==> Matches(rules[i], geo, req) {
      FitsIff(rules[i], geo, req);
    }
    SoundAndComplete(rules, geo, req);
    NoneBefore(rules, geo, req);
    FinalMeaning(rules, geo, req);
    hide Fits, Matches, EngineResult, IsFinalAnswer;
  }

  lemma NoneBefore(rules: seq<Rule>, geo: Geo, req: Request)
    ensures var r := EngineResult(rules, geo, req);
            forall i :: 0 <= i < |rules| && IsIpRule(rules[i]) && Matches(rules[i], geo, req) ==>
              r.matched.ByRule? && r.ruleIndex <= i
  {
    hide Collect, Matches;
    var p := (i: nat) => Candidate(rules, geo, req, i);
    var best := Least(|rules|, p);
    forall i | 0 <= i < |rules| && IsIpRule(rules[i]) && Matches(rules[i], geo, req)
      ensures best.Some? && best.value <= i
    {
      assert p(i);
    }
  }

  lemma FinalMeaning(rules: seq<Rule>, geo: Geo, req: Request)
    ensures EngineResult(rules, geo, req).matched.ByFinal? ==> IsFinalAnswer(rules, EngineResult(rules, geo, req))
  {
    hide Candidate, Least;
  }

  /** An IPv4 rule of the list, without `no-resolve` or asked without a name,
      answers for exactly the 2^(32 - prefix) addresses of its block: for each of
      them the answer is this rule or one before it, for no other is it this rule. */
  lemma CidrRuleAnswers(rules: seq<Rule>, geo: Geo, req: Request, i: nat, lo: nat)
    requires i < |rules| && rules[i].kind.IpCidr? && BlockStart(rules[i].kind.net, 32, lo)
    requires req.ip.Some? && req.ip.value.V4? && (rules[i].noResolve ==> req.domain.None?)
    ensures var r, ip := EngineResult(rules, geo, req), req.ip.value.v4;
            && (lo <= ip < lo + Pow2(32 - rules[i].kind.net.prefix) ==> r.matched.ByRule? && r.ruleIndex <= i)
            && (r.matched.ByRule? && r.ruleIndex == i ==> lo <= ip < lo + Pow2(32 - rules[i].kind.net.prefix))
  {
    AnswerMeaning(rules, geo, req);
    ContainsIffInBlock(rules[i].kind.net, 32, req.ip.value.v4);
    BlockOf(rules[i].kind.net, 32, req.ip.value.v4, lo);
    hide EngineResult, InBlock, Contains, BlockStart;
  }
}
