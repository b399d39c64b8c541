/**
 The FakeDNS allocator: a ring of addresses, two maps and an LRU order that
 every operation changes together (src/dns/fake_dns.rs).

 The specification is a set of functions over an immutable `State`; the class
 at the end updates its fields in place and is proved against them.
 Addresses are the 32-bit numbers the source computes with.
 */
module FakeDns {
  import opened Ascii
  import opened LeastRecent
  import opened Numbers

  const DEFAULT_CAPACITY := 1000

  /** The address range and the LRU capacity, fixed at construction. */
  datatype Pool = Pool(start: nat, end: nat, cap: nat) {
    /** `pool_size`: the saturating difference plus one. */
    function Size(): (r: nat)
      ensures r >= 1
    {
      (if end >= start then end - start else 0) + 1
    }

    /** `is_fake_ip` */
    predicate Contains(ip: nat) {
      start <= ip <= end
    }

    /** The addresses the ring pointer can take. */
    predicate InRing(ip: nat) {
      ip == start || Contains(ip)
    }

    function Next(current: nat): nat {
      if current >= end then start else current + 1
    }
  }

  /** The pool `new` computes for a parsed CIDR. Whatever `hosts()` yields, the
      two corrections make the range network + 1 .. broadcast - 1. */
  function NewPool(network: nat, prefix: nat, capacity: nat): Pool
    requires prefix <= 32
    requires network + Pow2(32 - prefix) >= 2
  {
    var broadcast := network + Pow2(32 - prefix) - 1;
    var sized := Pool(network + 1, broadcast - 1, 1);
    var limited := if capacity <= sized.Size() then capacity else sized.Size();
    sized.(cap := if limited == 0 then DEFAULT_CAPACITY else limited)
  }

  /** The range is non-empty, so that the addresses handed out are recognised
      as fake ones, exactly for prefixes up to /30. */
  lemma PoolNonEmptyIffPrefix30(network: nat, prefix: nat, capacity: nat)
    requires prefix <= 32
    requires network + Pow2(32 - prefix) >= 2
    ensures var p := NewPool(network, prefix, capacity);
            (forall ip :: p.InRing(ip) ==> p.Contains(ip)) <==> prefix <= 30
    ensures var p := NewPool(network, prefix, capacity);
            p.Size() == if prefix <= 30 then Pow2(32 - prefix) - 2 else 1
    ensures NewPool(network, prefix, capacity).cap >= 1
  {
    var p := NewPool(network, prefix, capacity);
    if prefix <= 30 {
      assert Pow2(32 - prefix) == 4 * Pow2(30 - prefix);
    } else {
      assert Pow2(0) == 1 && Pow2(1) == 2;
      assert prefix == 31 || prefix == 32;
      assert p.InRing(p.start) && !p.Contains(p.start);
    }
  }

  /** The pool's addresses are those between network and broadcast address, both
      excluded; its capacity is the configured one, but not above the number of
      addresses, and 1000 if that is 0. */
  lemma NewPoolIs(network: nat, prefix: nat, capacity: nat)
    requires prefix <= 32
    requires network + Pow2(32 - prefix) >= 2
    ensures var p, broadcast := NewPool(network, prefix, capacity), network + Pow2(32 - prefix) - 1;
            var count := if prefix <= 30 then Pow2(32 - prefix) - 2 else 1;
            && p.start == network + 1 && p.end == broadcast - 1
            && (forall ip: nat :: p.Contains(ip) <==> network < ip < broadcast)
            && (capacity == 0 ==> p.cap == 1000)
            && (1 <= capacity <= count ==> p.cap == capacity)
            && (capacity > count ==> p.cap == count)
  {
    PoolNonEmptyIffPrefix30(network, prefix, capacity);
  }

  /** The form in which names are stored: lower case, no trailing dots. */
  function Normalize(domain: string): string {
    TrimEndChar(ToLower(domain), '.')
  }

  datatype State = State(ipToDomain: map<nat, string>, domainToIp: map<string, nat>, lru: seq<nat>, next: nat)

  /** What every operation keeps. */
  ghost predicate Inv(p: Pool, s: State) {
    && p.cap >= 1
    && (forall ip :: ip in s.ipToDomain ==>
          s.ipToDomain[ip] in s.domainToIp && s.domainToIp[s.ipToDomain[ip]] == ip)
    && (forall d :: d in s.domainToIp ==>
          s.domainToIp[d] in s.ipToDomain && s.ipToDomain[s.domainToIp[d]] == d)
    && NoDup(s.lru) && Elems(s.lru) == s.ipToDomain.Keys && |s.lru| <= p.cap
    && (forall ip :: ip in s.ipToDomain ==> p.InRing(ip))
    && p.InRing(s.next)
  }

  function Initial(p: Pool): State {
    State(map[], map[], [], p.start)
  }

  /** Removes the mapping of `ip`, from both maps. */
  function Unmap(s: State, ip: nat): State {
    if ip in s.ipToDomain then
      s.(ipToDomain := s.ipToDomain - {ip}, domainToIp := s.domainToIp - {s.ipToDomain[ip]})
    else s
  }

  function Evict(p: Pool, s: State): State {
    if |s.lru| >= p.cap && s.lru != [] then Unmap(s.(lru := s.lru[1..]), s.lru[0]) else s
  }

  /** The safety branch: the ring has come round to an address still in use. */
  function Overwrite(s: State, ip: nat): State {
    if ip in s.ipToDomain then Unmap(s, ip).(lru := Remove(s.lru, ip)) else s
  }

  function Bind(p: Pool, s: State, ip: nat, domain: string): State {
    s.(ipToDomain := s.ipToDomain[ip := domain],
       domainToIp := s.domainToIp[domain := ip],
       lru := Put(p.cap, s.lru, ip))
  }

  /** `allocate_new_ip`: evict, advance the ring, clear the slot, bind. */
  function AllocateNew(p: Pool, s: State, domain: string): (State, nat) {
    var ip := s.next;
    var advanced := Evict(p, s).(next := p.Next(s.next));
    (Bind(p, Overwrite(advanced, ip), ip, domain), ip)
  }

  function AllocateStep(p: Pool, s: State, domain: string): (State, nat) {
    var d := Normalize(domain);
    if d in s.domainToIp then (s.(lru := Touch(s.lru, s.domainToIp[d])), s.domainToIp[d])
    else AllocateNew(p, s, d)
  }

  function LookupStep(s: State, ip: nat): (State, Option<string>) {
    if ip in s.ipToDomain then (s.(lru := Touch(s.lru, ip)), Some(s.ipToDomain[ip])) else (s, None)
  }

  function ClearStep(s: State): State {
    State(map[], map[], [], s.next)
  }

  lemma EvictKeeps(p: Pool, s: State)
    requires Inv(p, s)
    ensures var e := Evict(p, s);
            && Inv(p, e) && |e.lru| < p.cap && e.next == s.next
            && e.ipToDomain.Keys <= s.ipToDomain.Keys && e.domainToIp.Keys <= s.domainToIp.Keys
  {
    if |s.lru| >= p.cap {
      DropFirst(s.lru);
      assert s.lru[0] in Elems(s.lru);
    }
  }

  /** Eviction removes the mapping of `ip` exactly when the cache is full and
      all other addresses were used after `ip`; other mappings are untouched. */
  lemma EvictRemovesIff(p: Pool, s: State, ip: nat)
    requires Inv(p, s) && ip in s.ipToDomain
    ensures var e := Evict(p, s);
            && (ip in e.ipToDomain <==> |After(s.lru, ip)| != p.cap - 1)
            && (ip in e.ipToDomain ==> e.ipToDomain[ip] == s.ipToDomain[ip])
            && (s.ipToDomain[ip] in e.domainToIp <==> |After(s.lru, ip)| != p.cap - 1)
  {
    assert ip in Elems(s.lru);
    FirstIffAllAfter(s.lru, ip);
  }

  lemma OverwriteKeeps(p: Pool, s: State, ip: nat)
    requires Inv(p, s) && |s.lru| < p.cap
    ensures var o := Overwrite(s, ip);
            && Inv(p, o) && |o.lru| < p.cap && o.next == s.next
            && ip !in o.ipToDomain && o.domainToIp.Keys <= s.domainToIp.Keys
  {
    RemoveElems(s.lru, ip);
  }

  /** Binding a free address to an unknown name keeps the invariant, and with
      room in the LRU its `put` pushes nothing out. */
  lemma BindKeeps(p: Pool, s: State, ip: nat, domain: string)
    requires Inv(p, s) && |s.lru| < p.cap
    requires ip !in s.ipToDomain && domain !in s.domainToIp && p.InRing(ip)
    ensures Inv(p, Bind(p, s, ip, domain))
    ensures Bind(p, s, ip, domain).lru == s.lru + [ip]
  {
    assert ip !in Elems(s.lru);
    NoDupAppend(s.lru, ip);
  }

  /** A fresh allocation keeps the invariant and hands out the ring pointer. */
  lemma {:induction false} AllocateNewKeeps(p: Pool, s: State, d: string)
    requires Inv(p, s) && d !in s.domainToIp
    ensures var (t, ip) := AllocateNew(p, s, d);
            && Inv(p, t) && ip == s.next && t.next == p.Next(s.next)
            && t.ipToDomain == Overwrite(Evict(p, s), ip).ipToDomain[ip := d]
            && t.lru == Overwrite(Evict(p, s), ip).lru + [ip]
  {
    hide Evict, NoDup, Elems, Put;
    var e := Evict(p, s);
    EvictKeeps(p, s);
    var advanced := e.(next := p.Next(s.next));
    assert Inv(p, advanced);
    OverwriteKeeps(p, advanced, s.next);
    BindKeeps(p, Overwrite(advanced, s.next), s.next, d);
  }

  /** `allocate` keeps the invariant; afterwards the name and the address are
      bound to each other, and asking for the address gives the normalised name. */
  lemma AllocateKeeps(p: Pool, s: State, domain: string)
    requires Inv(p, s)
    ensures var (t, ip) := AllocateStep(p, s, domain);
            && Inv(p, t) && p.InRing(ip)
            && LookupStep(t, ip).1 == Some(Normalize(domain))
            && t.lru != [] && t.lru[|t.lru| - 1] == ip
  {
    var d := Normalize(domain);
    if d in s.domainToIp {
      TouchKeeps(s.lru, s.domainToIp[d]);
      assert s.domainToIp[d] in Elems(s.lru);
    } else {
      AllocateNewKeeps(p, s, d);
    }
  }

  lemma LookupKeeps(p: Pool, s: State, ip: nat)
    requires Inv(p, s)
    ensures Inv(p, LookupStep(s, ip).0)
    ensures LookupStep(s, ip).0.(lru := s.lru) == s
  {
    TouchKeeps(s.lru, ip);
  }

  /** A lookup of a mapped address gives its name and makes the address the most
      recent, the others keeping their order; any other lookup changes nothing. */
  lemma LookupIs(p: Pool, s: State, ip: nat) returns (a: seq<nat>, b: seq<nat>)
    requires Inv(p, s)
    ensures ip in s.ipToDomain ==>
              s.lru == a + [ip] + b && LookupStep(s, ip) == (s.(lru := a + b + [ip]), Some(s.ipToDomain[ip]))
    ensures ip !in s.ipToDomain ==> LookupStep(s, ip) == (s, None)
  {
    a, b := [], [];
    if ip in s.ipToDomain {
      assert ip in Elems(s.lru);
      var i :| 0 <= i < |s.lru| && s.lru[i] == ip;
      a, b := s.lru[..i], s.lru[i + 1..];
      assert s.lru == a + [ip] + b;
      UsedLast(a, ip, b);
    }
  }

  /** Asking again for the same name, however it is spelled, gives the same
      address and leaves both maps alone. */
  lemma AllocateTwice(p: Pool, s: State, d1: string, d2: string)
    requires Inv(p, s) && Normalize(d1) == Normalize(d2)
    ensures var (t, ip) := AllocateStep(p, s, d1);
            var (u, ip') := AllocateStep(p, t, d2);
            ip' == ip && u == t.(lru := u.lru) && u.lru == t.lru
  {
    hide AllocateNew, Normalize, Touch;
    AllocateKeeps(p, s, d1);
    var (t, ip) := AllocateStep(p, s, d1);
    assert Normalize(d2) in t.domainToIp && t.domainToIp[Normalize(d2)] == ip;
    TouchLast(t.lru, ip);
  }

  /** Touching the most recent key changes nothing. */
  lemma TouchLast(s: seq<nat>, k: nat)
    requires NoDup(s) && s != [] && s[|s| - 1] == k
    ensures Touch(s, k) == s
  {
    var init := s[..|s| - 1];
    assert s == init + [k];
    RemoveLast(init, k);
  }

  lemma {:induction false} RemoveLast(s: seq<nat>, k: nat)
    requires k !in s
    ensures Remove(s + [k], k) == s
  {
    if s == [] {
      assert Remove([k][1..], k) == [];
    } else {
      assert (s + [k])[1..] == s[1..] + [k];
      RemoveLast(s[1..], k);
      assert s == [s[0]] + s[1..];
    }
  }

  /** The allocator object: the fields of the source, updated in place. */
  class Allocator {
    var ipToDomain: map<nat, string>
    var domainToIp: map<string, nat>
    var lru: seq<nat>
    var next: nat
    const pool: Pool

    function View(): State
      reads this
    {
      State(ipToDomain, domainToIp, lru, next)
    }

    constructor (network: nat, prefix: nat, capacity: nat)
      requires prefix <= 32
      requires network + Pow2(32 - prefix) >= 2
      ensures pool == NewPool(network, prefix, capacity)
      ensures View() == Initial(pool) && Inv(pool, View())
    {
      PoolNonEmptyIffPrefix30(network, prefix, capacity);
      var p := NewPool(network, prefix, capacity);
      pool := p;
      ipToDomain, domainToIp, lru, next := map[], map[], [], p.start;
    }

    method AllocateNewIp(domain: string) returns (ip: nat)
      requires Inv(pool, View()) && domain !in domainToIp
      modifies this
      ensures View() == AllocateNew(pool, old(View()), domain).0
      ensures ip == AllocateNew(pool, old(View()), domain).1
      ensures Inv(pool, View())
    {
      AllocateNewKeeps(pool, View(), domain);
      if |lru| >= pool.cap {
        var evicted := lru[0];
        lru := lru[1..];
        if evicted in ipToDomain {
          var evictedDomain := ipToDomain[evicted];
          ipToDomain := ipToDomain - {evicted};
          domainToIp := domainToIp - {evictedDomain};
        }
      }
      ip := next;
      next := if ip >= pool.end then pool.start else ip + 1;
      if ip in ipToDomain {
        var oldDomain := ipToDomain[ip];
        ipToDomain := ipToDomain - {ip};
        domainToIp := domainToIp - {oldDomain};
        lru := Remove(lru, ip);
      }
      ipToDomain := ipToDomain[ip := domain];
      domainToIp := domainToIp[domain := ip];
      lru := Put(pool.cap, lru, ip);
    }

    method Allocate(domain: string) returns (ip: nat)
      requires Inv(pool, View())
      modifies this
      ensures View() == AllocateStep(pool, old(View()), domain).0
      ensures ip == AllocateStep(pool, old(View()), domain).1
      ensures Inv(pool, View())
      ensures ip in ipToDomain && ipToDomain[ip] == Normalize(domain)
    {
      AllocateKeeps(pool, View(), domain);
      var d := TrimEndChar(ToLower(domain), '.');
      if d in domainToIp {
        ip := domainToIp[d];
        lru := Touch(lru, ip);
      } else {
        ip := AllocateNewIp(d);
      }
    }

    method Lookup(ip: nat) returns (domain: Option<string>)
      requires Inv(pool, View())
      modifies this`lru
      ensures View() == LookupStep(old(View()), ip).0
      ensures domain == LookupStep(old(View()), ip).1
      ensures Inv(pool, View())
    {
      LookupKeeps(pool, View(), ip);
      if ip in ipToDomain {
        lru := Touch(lru, ip);
        domain := Some(ipToDomain[ip]);
      } else {
        domain := None;
      }
    }

    method Clear()
      requires Inv(pool, View())
      modifies this
      ensures View() == ClearStep(old(View()))
      ensures Inv(pool, View())
    {
      ipToDomain := map[];
      domainToIp := map[];
      lru := [];
    }
  }
}
