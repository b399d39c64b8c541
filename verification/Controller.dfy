/**
 The parental controller's ordered decision (src/control/controller.rs) over
 devices, blocklists and the grant cache, and its safety over whole runs.
 */
module Controller {
  import opened Ascii
  import opened Blocklist
  import opened Numbers
  import opened Timestamps
  import opened RuleTypes
  import opened Grants

  datatype DeviceType = Child | Adult | IoT | Unknown

  datatype DeviceConfig = DeviceConfig(kind: DeviceType, hard: seq<string>, grantable: seq<string>)

  datatype ParentalPolicy = AllowAll | BlockIfListed | BlockAll

  datatype Reason =
    | GlobalBlocklist
    | GlobalCategory(categories: seq<string>)
    | Hard(category: string)
    | Grantable(category: string)
    | UnknownDevice

  datatype Decision = Allow | Block(reason: Reason)

  datatype Setup = Setup(devices: map<string, DeviceConfig>, ipToDevice: map<IpAddr, string>,
                         globalCategories: seq<string>, defaultPolicy: ParentalPolicy)

  /** The blocklists as values. */
  datatype Blocks = Blocks(global: Lists, domains: map<string, set<string>>, suffixes: map<string, set<string>>)

  ghost predicate InCategory(b: Blocks, domain: string, category: string) {
    Covers(ListOf(b.domains, b.suffixes, category), domain)
  }

  function Normalized(domain: string): string {
    ToLower(TrimEndChar(domain, '.'))
  }

  /** The first of the categories that lists the domain. */
  ghost function FirstListed(b: Blocks, domain: string, categories: seq<string>): (r: Option<string>)
    ensures r.None? <==> forall c :: c in categories ==> !InCategory(b, domain, c)
    ensures r.Some? ==> r.value in categories && InCategory(b, domain, r.value)
  {
    if categories == [] then None
    else if InCategory(b, domain, categories[0]) then Some(categories[0])
    else FirstListed(b, domain, categories[1..])
  }

  /** `check_access`; `granted` answers for a device id and a category. */
  ghost function Decide(s: Setup, b: Blocks, granted: (string, string) -> bool, ip: IpAddr, name: string): Decision {
    var domain := Normalized(name);
    if Covers(b.global, domain) then Block(GlobalBlocklist)
    else if FirstListed(b, domain, s.globalCategories).Some? then Block(GlobalCategory(s.globalCategories))
    else if !(ip in s.ipToDevice && s.ipToDevice[ip] in s.devices) then
      if s.defaultPolicy == BlockAll then Block(UnknownDevice) else Allow
    else
      var id, device := s.ipToDevice[ip], s.devices[s.ipToDevice[ip]];
      if device.kind == Adult then Allow
      else
        match FirstListed(b, domain, device.hard)
        case Some(category) => Block(Hard(category))
        case None =>
          match FirstListed(b, domain, device.grantable)
          case Some(category) => if granted(id, category) then Allow else Block(Grantable(category))
          case None => Allow
  }

  // ---------- what the decision depends on ----------

  /** The form in which names are compared: without the trailing dots, and
      otherwise another spelling, without capitals. */
  lemma NormalizedIs(name: string) returns (stem: string)
    ensures stem <= name && (forall i | |stem| <= i < |name| :: name[i] == '.')
    ensures stem == [] || stem[|stem| - 1] != '.'
    ensures SpelledAlike(Normalized(name), stem) && forall c :: c in Normalized(name) ==> c !in CAPITALS
  {
    stem := TrimEndChar(name, '.');
    CaseIs(stem);
  }

  /** `category` is the first of the categories that lists the domain. */
  ghost predicate FirstOf(b: Blocks, domain: string, categories: seq<string>, category: string) {
    exists k :: 0 <= k < |categories| && categories[k] == category && InCategory(b, domain, category)
                && forall j :: 0 <= j < k ==> !InCategory(b, domain, categories[j])
  }

  /** Neither the global list nor a global category has the domain. */
  ghost predicate NothingGlobal(s: Setup, b: Blocks, domain: string) {
    !Covers(b.global, domain) && forall c :: c in s.globalCategories ==> !InCategory(b, domain, c)
  }

  /** Each decision has its own condition on the fields of the setup, whatever the
      order of the checks. */
  lemma DecisionIs(s: Setup, b: Blocks, granted: (string, string) -> bool, ip: IpAddr, name: string)
    ensures var d, domain := Decide(s, b, granted, ip, name), Normalized(name);
            && (d == Block(GlobalBlocklist) <==> Covers(b.global, domain))
            && (d == Block(GlobalCategory(s.globalCategories)) <==>
                  !Covers(b.global, domain) && exists c :: c in s.globalCategories && InCategory(b, domain, c))
            && (!NothingGlobal(s, b, domain) ==> d.Block?)
    ensures ip !in s.ipToDevice || s.ipToDevice[ip] !in s.devices ==>
              var d := Decide(s, b, granted, ip, name);
              NothingGlobal(s, b, Normalized(name)) ==>
                d == if s.defaultPolicy == BlockAll then Block(UnknownDevice) else Allow
    ensures ip in s.ipToDevice && s.ipToDevice[ip] in s.devices && NothingGlobal(s, b, Normalized(name)) ==>
              var d, domain := Decide(s, b, granted, ip, name), Normalized(name);
              var id, device := s.ipToDevice[ip], s.devices[s.ipToDevice[ip]];
              && (device.kind == Adult ==> d == Allow)
              && (device.kind != Adult ==>
                    && (forall c :: d == Block(Hard(c)) <==> FirstOf(b, domain, device.hard, c))
                    && ((forall c :: c in device.hard ==> !InCategory(b, domain, c)) ==>
                          && (forall c :: FirstOf(b, domain, device.grantable, c) ==>
                                d == if granted(id, c) then Allow else Block(Grantable(c)))
                          && ((forall c :: c in device.grantable ==> !InCategory(b, domain, c)) ==> d == Allow)))
  {
    var domain := Normalized(name);
    hide Normalized, Covers, InCategory;
    if ip in s.ipToDevice && s.ipToDevice[ip] in s.devices {
      var device := s.devices[s.ipToDevice[ip]];
      FirstListedIff(b, domain, device.hard);
      FirstListedIff(b, domain, device.grantable);
      hide FirstOf;
    }
  }

  lemma FirstListedIff(b: Blocks, domain: string, categories: seq<string>)
    ensures forall c :: FirstListed(b, domain, categories) == Some(c) <==> FirstOf(b, domain, categories, c)
  {
    hide InCategory;
    FirstListedIndex(b, domain, categories);
  }

  /** When a request is allowed, without the order of the checks. */
  lemma AllowedIff(s: Setup, b: Blocks, granted: (string, string) -> bool, ip: IpAddr, name: string)
    ensures Decide(s, b, granted, ip, name) == Allow <==>
              var domain := Normalized(name);
              && !Covers(b.global, domain)
              && (forall c :: c in s.globalCategories ==> !InCategory(b, domain, c))
              && (ip !in s.ipToDevice || s.ipToDevice[ip] !in s.devices ==> s.defaultPolicy != BlockAll)
              && (ip in s.ipToDevice && s.ipToDevice[ip] in s.devices
                  && s.devices[s.ipToDevice[ip]].kind != Adult ==>
                    var id, device := s.ipToDevice[ip], s.devices[s.ipToDevice[ip]];
                    && (forall c :: c in device.hard ==> !InCategory(b, domain, c))
                    && (forall k :: 0 <= k < |device.grantable|
                                    && InCategory(b, domain, device.grantable[k])
                                    && (forall j :: 0 <= j < k ==> !InCategory(b, domain, device.grantable[j]))
                                    ==> granted(id, device.grantable[k])))
  {
    var domain := Normalized(name);
    hide Normalized, Covers, InCategory;
    if ip in s.ipToDevice && s.ipToDevice[ip] in s.devices {
      FirstListedIndex(b, domain, s.devices[s.ipToDevice[ip]].grantable);
    }
  }

  lemma {:induction false} FirstListedIndex(b: Blocks, domain: string, categories: seq<string>)
    ensures forall k :: 0 <= k < |categories| && InCategory(b, domain, categories[k])
                        && (forall j :: 0 <= j < k ==> !InCategory(b, domain, categories[j]))
                        ==> FirstListed(b, domain, categories) == Some(categories[k])
    ensures FirstListed(b, domain, categories).Some? ==>
              exists k :: 0 <= k < |categories| && InCategory(b, domain, categories[k])
                          && (forall j :: 0 <= j < k ==> !InCategory(b, domain, categories[j]))
                          && FirstListed(b, domain, categories).value == categories[k]
  {
    hide InCategory;
    if categories != [] && !InCategory(b, domain, categories[0]) {
      var rest := categories[1..];
      FirstListedIndex(b, domain, rest);
      forall k | 0 <= k < |categories| && InCategory(b, domain, categories[k])
                 && (forall j :: 0 <= j < k ==> !InCategory(b, domain, categories[j]))
        ensures FirstListed(b, domain, categories) == Some(categories[k])
      {
        assert rest[k - 1] == categories[k];
        assert forall j :: 0 <= j < k - 1 ==> rest[j] == categories[j + 1];
      }
      if FirstListed(b, domain, rest).Some? {
        var k :| 0 <= k < |rest| && InCategory(b, domain, rest[k])
                 && (forall j :: 0 <= j < k ==> !InCategory(b, domain, rest[j]))
                 && FirstListed(b, domain, rest).value == rest[k];
        assert categories[k + 1] == rest[k];
        forall j | 0 <= j < k + 1 ensures !InCategory(b, domain, categories[j]) {
          assert j > 0 ==> categories[j] == rest[j - 1];
        }
      }
    }
  }

  /** The request hangs on the grant of `category` to `id`: nothing global lists
      the domain, `id` is the known non-adult device behind the address, none of
      its hard categories lists the domain, and `category` is the first of its
      grantable ones that does. */
  ghost predicate HangsOn(s: Setup, b: Blocks, ip: IpAddr, name: string, id: string, category: string) {
    var domain := Normalized(name);
    && NothingGlobal(s, b, domain)
    && ip in s.ipToDevice && s.ipToDevice[ip] == id && id in s.devices && s.devices[id].kind != Adult
    && (forall c :: c in s.devices[id].hard ==> !InCategory(b, domain, c))
    && FirstOf(b, domain, s.devices[id].grantable, category)
  }

  /** There is at most one such pair. */
  lemma HangsOnOne(s: Setup, b: Blocks, ip: IpAddr, name: string, id: string, category: string,
                   id': string, category': string)
    requires HangsOn(s, b, ip, name, id, category) && HangsOn(s, b, ip, name, id', category')
    ensures id == id' && category == category'
  {
    hide Normalized, Covers, InCategory;
    var grantable := s.devices[id].grantable;
    var domain := Normalized(name);
    var k :| 0 <= k < |grantable| && grantable[k] == category && InCategory(b, domain, category)
             && forall j :: 0 <= j < k ==> !InCategory(b, domain, grantable[j]);
    var k' :| 0 <= k' < |grantable| && grantable[k'] == category' && InCategory(b, domain, category')
              && forall j :: 0 <= j < k' ==> !InCategory(b, domain, grantable[j]);
    assert k == k';
  }

  /** Grants decide a request only through the pair it hangs on, and then they
      decide it alone: on the pair, Allow is the grant; without one, no grant matters. */
  lemma DependsOnOwnFirstGrant(s: Setup, b: Blocks, ip: IpAddr, name: string,
                               g: (string, string) -> bool, h: (string, string) -> bool)
    ensures forall id, category :: HangsOn(s, b, ip, name, id, category) ==>
              (Decide(s, b, g, ip, name) == Allow <==> g(id, category))
    ensures (forall id, category :: HangsOn(s, b, ip, name, id, category) ==> g(id, category) == h(id, category))
            <==> Decide(s, b, g, ip, name) == Decide(s, b, h, ip, name)
  {
    AllowedIff(s, b, g, ip, name);
    AllowedIff(s, b, h, ip, name);
    var domain := Normalized(name);
    forall id, category | HangsOn(s, b, ip, name, id, category)
      ensures Decide(s, b, g, ip, name) == Allow <==> g(id, category)
      ensures Decide(s, b, h, ip, name) == Allow <==> h(id, category)
    {
      OnlyFirst(b, domain, s.devices[id].grantable, category);
    }
    BlockedAlike(s, b, ip, name, g, h);
    if Decide(s, b, g, ip, name) != Decide(s, b, h, ip, name) {
      var id, category := DifferenceHangs(s, b, ip, name, g, h);
    }
  }

  lemma OnlyFirst(b: Blocks, domain: string, categories: seq<string>, category: string)
    requires FirstOf(b, domain, categories, category)
    ensures forall k :: 0 <= k < |categories| && InCategory(b, domain, categories[k])
                        && (forall j :: 0 <= j < k ==> !InCategory(b, domain, categories[j]))
                        ==> categories[k] == category
    ensures exists k :: 0 <= k < |categories| && InCategory(b, domain, categories[k])
                        && (forall j :: 0 <= j < k ==> !InCategory(b, domain, categories[j]))
                        && categories[k] == category
  {
    hide InCategory;
  }

  /** Two blocked answers to one request give the same reason. */
  lemma BlockedAlike(s: Setup, b: Blocks, ip: IpAddr, name: string,
                     g: (string, string) -> bool, h: (string, string) -> bool)
    ensures Decide(s, b, g, ip, name).Block? && Decide(s, b, h, ip, name).Block? ==>
              Decide(s, b, g, ip, name) == Decide(s, b, h, ip, name)
  {
    hide Normalized, FirstListed, Covers;
  }

  /** Where two grant caches disagree on a request, they disagree on the pair it hangs on. */
  lemma DifferenceHangs(s: Setup, b: Blocks, ip: IpAddr, name: string,
                        g: (string, string) -> bool, h: (string, string) -> bool) returns (id: string, category: string)
    requires Decide(s, b, g, ip, name) != Decide(s, b, h, ip, name)
    ensures HangsOn(s, b, ip, name, id, category) && g(id, category) != h(id, category)
  {
    BlockedAlike(s, b, ip, name, g, h);
    AllowedIff(s, b, g, ip, name);
    AllowedIff(s, b, h, ip, name);
    var domain := Normalized(name);
    hide Decide, Normalized, Covers, InCategory;
    id := s.ipToDevice[ip];
    var grantable := s.devices[id].grantable;
    var k :| 0 <= k < |grantable| && InCategory(b, domain, grantable[k])
             && (forall j :: 0 <= j < k ==> !InCategory(b, domain, grantable[j]))
             && (!g(id, grantable[k]) || !h(id, grantable[k]));
    category := grantable[k];
  }

  // ---------- the controller ----------

  class ParentalController {
    const devices: map<string, DeviceConfig>
    const ipToDevice: map<IpAddr, string>
    const blocklistManager: BlocklistManager
    const grantStore: GrantStore?
    var globalCategories: seq<string>
    var defaultPolicy: ParentalPolicy

    function View(): Setup
      reads this
    {
      Setup(devices, ipToDevice, globalCategories, defaultPolicy)
    }

    function Lists(): Blocks
      reads this, blocklistManager
    {
      Blocks(blocklistManager.Global(), blocklistManager.categoryDomains, blocklistManager.categorySuffixes)
    }

    /** What the grant cache answers now; without a store, no. */
    function Cached(): Cache
      reads this, grantStore
    {
      if grantStore == null then map[] else grantStore.active
    }

    constructor (devices: map<string, DeviceConfig>, ipToDevice: map<IpAddr, string>,
                 blocklistManager: BlocklistManager, grantStore: GrantStore?,
                 globalCategories: seq<string>, defaultPolicy: ParentalPolicy)
      ensures View() == Setup(devices, ipToDevice, globalCategories, defaultPolicy)
      ensures this.blocklistManager == blocklistManager && this.grantStore == grantStore
    {
      this.devices, this.ipToDevice := devices, ipToDevice;
      this.blocklistManager, this.grantStore := blocklistManager, grantStore;
      this.globalCategories, this.defaultPolicy := globalCategories, defaultPolicy;
    }

    method SetGlobalCategories(categories: seq<string>)
      modifies this`globalCategories
      ensures View() == old(View()).(globalCategories := categories)
    {
      globalCategories := categories;
    }

    method SetDefaultPolicy(policy: ParentalPolicy)
      modifies this`defaultPolicy
      ensures View() == old(View()).(defaultPolicy := policy)
    {
      defaultPolicy := policy;
    }

    /** The first of the categories that lists the domain, as the two loops find it. */
    method FindListed(domain: string, categories: seq<string>) returns (found: Option<string>)
      requires ToLower(domain) == domain
      ensures found == FirstListed(Lists(), domain, categories)
    {
      for i := 0 to |categories|
        invariant FirstListed(Lists(), domain, categories) == FirstListed(Lists(), domain, categories[i..])
      {
        var listed := blocklistManager.IsInCategory(domain, categories[i]);
        if listed {
          return Some(categories[i]);
        }
      }
      return None;
    }

    method CheckAccess(ip: IpAddr, name: string, clock: Stamp) returns (d: Decision)
      ensures d == Decide(View(), Lists(), CacheAnswers(Cached(), Seconds(clock)), ip, name)
    {
      hide FirstListed, Seconds, Covers;
      var domain := Normalized(name);
      ToLowerIdempotent(TrimEndChar(name, '.'));
      var globally := blocklistManager.IsBlockedGlobally(domain);
      if globally {
        return Block(GlobalBlocklist);
      }
      if globalCategories != [] {
        var inCategory := blocklistManager.IsInAnyCategory(domain, globalCategories);
        if inCategory {
          return Block(GlobalCategory(globalCategories));
        }
      }
      if !(ip in ipToDevice && ipToDevice[ip] in devices) {
        d := ApplyDefaultPolicy();
        return;
      }
      var id, device := ipToDevice[ip], devices[ipToDevice[ip]];
      if device.kind == Adult {
        return Allow;
      }
      var hard := FindListed(domain, device.hard);
      if hard.Some? {
        return Block(Hard(hard.value));
      }
      var grantable := FindListed(domain, device.grantable);
      if grantable.Some? {
        var granted := false;
        if grantStore != null {
          granted := grantStore.HasActive(id, grantable.value, clock);
        }
        return if granted then Allow else Block(Grantable(grantable.value));
      }
      return Allow;
    }

    method ApplyDefaultPolicy() returns (d: Decision)
      ensures d == if defaultPolicy == BlockAll then Block(UnknownDevice) else Allow
    {
      match defaultPolicy
      case AllowAll => d := Allow;
      case BlockIfListed => d := Allow;
      case BlockAll => d := Block(UnknownDevice);
    }
  }

  function CacheAnswers(m: Cache, now: int): (string, string) -> bool {
    (id, category) => HasActiveIn(m, id, category, now)
  }
}
