/**
 Rules, policies and match results (src/rule/types.rs). Networks are an address
 and a prefix length; a rule's text form is the subject of module `RuleText`.
 */
module RuleTypes {

  import opened Numbers

  datatype IpAddr = V4(v4: nat) | V6(v6: nat)

  datatype Net = Net(addr: nat, prefix: nat)

  /** Address and network agree on the first `prefix` of `width` bits. */
  predicate Contains(net: Net, width: nat, ip: nat) {
    net.prefix <= width && ip / Pow2(width - net.prefix) == net.addr / Pow2(width - net.prefix)
  }

  /** `lo` is the first address of the network's block: a multiple of the block's
      size, with the network's address less than one size further. */
  predicate BlockStart(net: Net, width: nat, lo: nat) {
    && net.prefix <= width
    && lo % Pow2(width - net.prefix) == 0 && lo <= net.addr < lo + Pow2(width - net.prefix)
  }

  /** `ip` lies in the network's block of 2^(width - prefix) addresses. */
  ghost predicate InBlock(net: Net, width: nat, ip: nat) {
    exists lo: nat :: BlockStart(net, width, lo) && lo <= ip < lo + Pow2(width - net.prefix)
  }

  lemma {:induction false} BlockOf(net: Net, width: nat, ip: nat, lo: nat)
    requires BlockStart(net, width, lo)
    ensures Contains(net, width, ip) <==> lo <= ip < lo + Pow2(width - net.prefix)
  {
    var size := Pow2(width - net.prefix);
    var q := lo / size;
    assert lo == q * size + lo % size;
    ModUnique(net.addr, size, q, net.addr - lo);
    if lo <= ip < lo + size {
      ModUnique(ip, size, q, ip - lo);
    }
    assert ip == (ip / size) * size + ip % size;
  }

  lemma {:induction false} SomeBlock(net: Net, width: nat) returns (lo: nat)
    requires net.prefix <= width
    ensures BlockStart(net, width, lo)
  {
    hide Pow2;
    lo := RoundDown(net.addr, Pow2(width - net.prefix));
  }

  lemma TooLong(net: Net, width: nat, ip: nat)
    requires net.prefix > width
    ensures !Contains(net, width, ip) && !InBlock(net, width, ip)
  {
  }

  /** Agreeing on the first bits is lying in the block. */
  lemma {:induction false} ContainsIffInBlock(net: Net, width: nat, ip: nat)
    ensures Contains(net, width, ip) <==> InBlock(net, width, ip)
    ensures net.prefix <= width ==> exists lo: nat :: BlockStart(net, width, lo)
  {
    hide Contains, Pow2;
    if net.prefix <= width {
      var lo := SomeBlock(net, width);
      BlockOf(net, width, ip, lo);
      forall other: nat | BlockStart(net, width, other)
        ensures Contains(net, width, ip) <==> other <= ip < other + Pow2(width - net.prefix)
      {
        BlockOf(net, width, ip, other);
      }
      hide BlockStart;
    } else {
      TooLong(net, width, ip);
    }
  }

  datatype RuleType =
    | Domain(domain: string)
    | DomainSuffix(suffix: string)
    | DomainKeyword(keyword: string)
    | IpCidr(net: Net)
    | IpCidr6(net6: Net)
    | GeoIp(country: string)
    | Final

  datatype Policy = Direct | Reject | Proxy(name: string)

  datatype Rule = Rule(kind: RuleType, policy: Policy, noResolve: bool)

  /** What `matched_rule` prints: the rule itself, or the word FINAL. */
  datatype Matched = ByRule(rule: Rule) | ByFinal

  datatype MatchResult = MatchResult(policy: Policy, ruleIndex: nat, matched: Matched)
}
