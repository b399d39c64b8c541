/**
 Rules as text (src/rule/parser.rs and the printers of src/rule/types.rs): which
 lines are rules, and which rules survive being printed and parsed again.
 The IPv6 network codec is a parameter.
 */
module RuleText {
  import opened Ascii
  import opened NetText
  import opened Numbers
  import opened RuleTypes

  datatype RuleError = EmptyOrComment | MissingPolicy | TooFewParts | BadNet | UnknownType

  datatype Result<+T, +E> = Ok(value: T) | Err(error: E)

  datatype Codec6 = Codec6(parse: string -> Option<Net>, show: Net -> string)

  /** The printed form of a parsed network reads back, and fits between commas. */
  ghost predicate RoundTrips6(c: Codec6) {
    forall s :: c.parse(s).Some? ==> Carried6(c, c.parse(s).value)
  }

  predicate Carried6(c: Codec6, net: Net) {
    c.parse(c.show(net)) == Some(net) && Field(c.show(net))
  }

  /** Text that a comma-separated, trimmed field can hold. */
  predicate Field(s: string) {
    ',' !in s && Trimmed(s)
  }

  // ---------- printing ----------

  function ShowPolicy(p: Policy): string {
    match p
    case Direct => "DIRECT"
    case Reject => "REJECT"
    case Proxy(name) => name
  }

  function ShowKind(c: Codec6, k: RuleType): string {
    match k
    case Domain(d) => "DOMAIN," + d
    case DomainSuffix(d) => "DOMAIN-SUFFIX," + d
    case DomainKeyword(w) => "DOMAIN-KEYWORD," + w
    case IpCidr(net) => "IP-CIDR," + ShowNet(net)
    case IpCidr6(net) => "IP-CIDR6," + c.show(net)
    case GeoIp(country) => "GEOIP," + country
    case Final => "FINAL"
  }

  function ShowRule(c: Codec6, r: Rule): string {
    ShowKind(c, r.kind) + "," + ShowPolicy(r.policy) + if r.noResolve then ",no-resolve" else ""
  }

  // ---------- parsing ----------

  function ParsePolicy(s: string): Policy {
    var upper := ToUpper(s);
    if upper == "DIRECT" then Direct
    else if upper == "REJECT" then Reject
    else Proxy(upper)
  }

  predicate HasNoResolve(options: seq<string>) {
    exists o :: o in options && ToLower(o) == "no-resolve"
  }

  method ParseOptions(options: seq<string>) returns (noResolve: bool)
    ensures noResolve <==> HasNoResolve(options)
  {
    noResolve := false;
    for i := 0 to |options|
      invariant noResolve <==> HasNoResolve(options[..i])
    {
      assert options[..i + 1] == options[..i] + [options[i]];
      if ToLower(options[i]) == "no-resolve" {
        noResolve := true;
      }
    }
    assert options[..|options|] == options;
  }

  predicate IsSkipped(line: string) {
    line == [] || line[0] == '#' || (|line| >= 2 && line[0] == '/' && line[1] == '/')
  }

  function Fields(line: string): (r: seq<string>)
    ensures |r| >= 1
  {
    var parts := Split(line, ',');
    seq(|parts|, i requires 0 <= i < |parts| => Trim(parts[i]))
  }

  function ParseKind(c: Codec6, word: string, pattern: string): Result<RuleType, RuleError> {
    if word == "DOMAIN" then Ok(Domain(ToLower(pattern)))
    else if word == "DOMAIN-SUFFIX" then Ok(DomainSuffix(ToLower(pattern)))
    else if word == "DOMAIN-KEYWORD" then Ok(DomainKeyword(ToLower(pattern)))
    else if word == "IP-CIDR" then
      var net := ParseNet(pattern);
      if net.Some? then Ok(IpCidr(net.value)) else Err(BadNet)
    else if word == "IP-CIDR6" then
      var net := c.parse(pattern);
      if net.Some? then Ok(IpCidr6(net.value)) else Err(BadNet)
    else if word == "GEOIP" then Ok(GeoIp(ToUpper(pattern)))
    else Err(UnknownType)
  }

  function ParseFields(c: Codec6, parts: seq<string>): Result<Rule, RuleError>
    requires |parts| >= 1
  {
    var word := ToUpper(parts[0]);
    if word == "FINAL" then
      if |parts| < 2 then Err(MissingPolicy) else Ok(Rule(Final, ParsePolicy(parts[1]), false))
    else if |parts| < 3 then Err(TooFewParts)
    else
      var kind := ParseKind(c, word, parts[1]);
      if kind.Err? then Err(kind.error)
      else Ok(Rule(kind.value, ParsePolicy(parts[2]), HasNoResolve(parts[3..])))
  }

  function ParseRule(c: Codec6, line: string): Result<Rule, RuleError> {
    var trimmed := Trim(line);
    if IsSkipped(trimmed) then Err(EmptyOrComment) else ParseFields(c, Fields(trimmed))
  }

  // ---------- which lines are rules, and which rules they are ----------

  /** The fields of a line make a rule: FINAL and a policy, or one of the six types
      with a pattern and a policy, where a network has to be readable. Letters are
      compared in any case. */
  ghost predicate MakeRule(c: Codec6, f: seq<string>) {
    || (|f| >= 2 && SpelledAlike(f[0], "FINAL"))
    || (|f| >= 3 && (SpelledAlike(f[0], "DOMAIN") || SpelledAlike(f[0], "DOMAIN-SUFFIX")
                     || SpelledAlike(f[0], "DOMAIN-KEYWORD") || SpelledAlike(f[0], "GEOIP")
                     || (SpelledAlike(f[0], "IP-CIDR") && ParseNet(f[1]).Some?)
                     || (SpelledAlike(f[0], "IP-CIDR6") && c.parse(f[1]).Some?)))
  }

  /** The policy that a word names. */
  ghost predicate NamesPolicy(word: string, p: Policy) {
    match p
    case Direct => SpelledAlike(word, "DIRECT")
    case Reject => SpelledAlike(word, "REJECT")
    case Proxy(name) => SpelledAlike(word, name) && (forall x :: x in name ==> x !in SMALL)
                        && !SpelledAlike(word, "DIRECT") && !SpelledAlike(word, "REJECT")
  }

  /** The text in lower case. */
  ghost predicate IsLowerOf(lower: string, text: string) {
    SpelledAlike(lower, text) && forall x :: x in lower ==> x !in CAPITALS
  }

  /** The rule that the fields name. */
  ghost predicate NamesRule(c: Codec6, f: seq<string>, r: Rule)
    requires |f| >= 2
  {
    if r.kind.Final? then SpelledAlike(f[0], "FINAL") && NamesPolicy(f[1], r.policy) && !r.noResolve
    else
      && |f| >= 3 && NamesPolicy(f[2], r.policy)
      && (r.noResolve <==> exists i :: 3 <= i < |f| && SpelledAlike(f[i], "no-resolve"))
      && match r.kind
         case Domain(d) => SpelledAlike(f[0], "DOMAIN") && IsLowerOf(d, f[1])
         case DomainSuffix(d) => SpelledAlike(f[0], "DOMAIN-SUFFIX") && IsLowerOf(d, f[1])
         case DomainKeyword(w) => SpelledAlike(f[0], "DOMAIN-KEYWORD") && IsLowerOf(w, f[1])
         case IpCidr(net) => SpelledAlike(f[0], "IP-CIDR") && ParseNet(f[1]) == Some(net)
         case IpCidr6(net) => SpelledAlike(f[0], "IP-CIDR6") && c.parse(f[1]) == Some(net)
         case GeoIp(country) => SpelledAlike(f[0], "GEOIP") && SpelledAlike(country, f[1])
                                && forall x :: x in country ==> x !in SMALL
         case Final => false
  }

  lemma WordIs(word: string, w: string)
    requires ToUpper(w) == w
    ensures ToUpper(word) == w <==> SpelledAlike(word, w)
  {
    SameCaseIff(word, w);
  }

  lemma WordsAreUpper()
    ensures ToUpper("FINAL") == "FINAL" && ToUpper("DOMAIN") == "DOMAIN" && ToUpper("GEOIP") == "GEOIP"
    ensures ToUpper("DOMAIN-SUFFIX") == "DOMAIN-SUFFIX" && ToUpper("DOMAIN-KEYWORD") == "DOMAIN-KEYWORD"
    ensures ToUpper("IP-CIDR") == "IP-CIDR" && ToUpper("IP-CIDR6") == "IP-CIDR6"
    ensures ToUpper("DIRECT") == "DIRECT" && ToUpper("REJECT") == "REJECT" && ToLower("no-resolve") == "no-resolve"
  {
  }

  lemma TypeWords(word: string)
    ensures ToUpper(word) == "FINAL" <==> SpelledAlike(word, "FINAL")
    ensures ToUpper(word) == "DOMAIN" <==> SpelledAlike(word, "DOMAIN")
    ensures ToUpper(word) == "DOMAIN-SUFFIX" <==> SpelledAlike(word, "DOMAIN-SUFFIX")
    ensures ToUpper(word) == "DOMAIN-KEYWORD" <==> SpelledAlike(word, "DOMAIN-KEYWORD")
    ensures ToUpper(word) == "IP-CIDR" <==> SpelledAlike(word, "IP-CIDR")
    ensures ToUpper(word) == "IP-CIDR6" <==> SpelledAlike(word, "IP-CIDR6")
    ensures ToUpper(word) == "GEOIP" <==> SpelledAlike(word, "GEOIP")
    ensures ToUpper(word) == "DIRECT" <==> SpelledAlike(word, "DIRECT")
    ensures ToUpper(word) == "REJECT" <==> SpelledAlike(word, "REJECT")
  {
    WordsAreUpper();
    hide ToUpper, ToLower, SpelledAlike;
    WordIs(word, "FINAL");
    WordIs(word, "DOMAIN");
    WordIs(word, "DOMAIN-SUFFIX");
    WordIs(word, "DOMAIN-KEYWORD");
    WordIs(word, "IP-CIDR");
    WordIs(word, "IP-CIDR6");
    WordIs(word, "GEOIP");
    WordIs(word, "DIRECT");
    WordIs(word, "REJECT");
  }

  lemma SymmetricSpelling(s: string, t: string)
    ensures SpelledAlike(s, t) <==> SpelledAlike(t, s)
  {
    SameCaseIff(s, t);
    SameCaseIff(t, s);
    hide SpelledAlike;
  }

  lemma PolicyIsNamed(word: string)
    ensures NamesPolicy(word, ParsePolicy(word))
  {
    TypeWords(word);
    CaseIs(word);
    SymmetricSpelling(ToUpper(word), word);
    hide SpelledAlike, ToUpper;
  }

  lemma NoResolveIff(options: seq<string>)
    ensures HasNoResolve(options) <==> exists i :: 0 <= i < |options| && SpelledAlike(options[i], "no-resolve")
  {
    WordsAreUpper();
    forall o | o in options ensures ToLower(o) == "no-resolve" <==> SpelledAlike(o, "no-resolve") {
      SameCaseIff(o, "no-resolve");
    }
    hide SpelledAlike, ToLower, ToUpper;
  }

  /** Exactly the fields that make a rule are accepted, as the rule they name. */
  lemma FieldsAcceptedIff(c: Codec6, f: seq<string>)
    requires |f| >= 1
    ensures ParseFields(c, f).Ok? <==> MakeRule(c, f)
    ensures ParseFields(c, f).Ok? ==> |f| >= 2 && NamesRule(c, f, ParseFields(c, f).value)
  {
    hide SpelledAlike, ToUpper, ToLower, ParseNet, ParsePolicy, NamesPolicy, HasNoResolve;
    TypeWords(f[0]);
    if |f| >= 2 {
      CaseIs(f[1]);
      PolicyIsNamed(f[1]);
      if |f| >= 3 {
        PolicyIsNamed(f[2]);
        NoResolveIff(f[3..]);
        assert forall i :: 3 <= i < |f| ==> f[i] == f[3..][i - 3];
      }
    }
  }

  /** Which lines are rules: those that, without the white space around them, are
      neither empty nor a comment and whose comma-separated fields make a rule. */
  lemma {:induction false} LineAcceptedIff(c: Codec6, line: string)
    ensures var t := Trim(line);
            && (ParseRule(c, line).Ok? <==>
                  t != [] && t[0] != '#' && !(|t| >= 2 && t[..2] == "//") && MakeRule(c, Fields(t)))
            && (ParseRule(c, line).Ok? ==>
                  |Fields(t)| >= 2 && NamesRule(c, Fields(t), ParseRule(c, line).value))
  {
    hide MakeRule, NamesRule, ParseFields, Fields, Trim;
    var t := Trim(line);
    FieldsAcceptedIff(c, Fields(t));
    assert |t| >= 2 ==> (t[..2] == "//" <==> t[0] == '/' && t[1] == '/');
  }

  // ---------- the rules that text can carry ----------

  predicate CarriedPolicy(p: Policy) {
    p.Proxy? ==> Field(p.name) && ToUpper(p.name) == p.name && p.name != "DIRECT" && p.name != "REJECT"
  }

  predicate CarriedKind(c: Codec6, k: RuleType) {
    match k
    case Domain(d) => Field(d) && ToLower(d) == d
    case DomainSuffix(d) => Field(d) && ToLower(d) == d
    case DomainKeyword(w) => Field(w) && ToLower(w) == w
    case IpCidr(net) => IsNet(net)
    case IpCidr6(net) => Carried6(c, net)
    case GeoIp(country) => Field(country) && ToUpper(country) == country
    case Final => true
  }

  predicate Carried(c: Codec6, r: Rule) {
    CarriedKind(c, r.kind) && CarriedPolicy(r.policy) && (r.kind.Final? ==> !r.noResolve)
  }

  lemma TrimIsField(p: string)
    requires ',' !in p
    ensures Field(Trim(p))
  {
  }

  lemma FieldsAreFields(line: string)
    ensures forall p :: p in Fields(line) ==> Field(p)
  {
    hide Split, Trim, Field;
    SplitPiecesHaveNoSep(line, ',');
    var parts := Split(line, ',');
    forall p | p in Fields(line) ensures Field(p) {
      var i :| 0 <= i < |parts| && p == Trim(parts[i]);
      assert parts[i] in parts;
      TrimIsField(parts[i]);
    }
  }

  lemma CaseKeepsField(s: string)
    requires Field(s)
    ensures Field(ToLower(s)) && Field(ToUpper(s))
  {
    forall c | c in ToLower(s) ensures c != ',' {
      var i :| 0 <= i < |s| && ToLower(s)[i] == c;
      assert s[i] in s;
    }
    forall c | c in ToUpper(s) ensures c != ',' {
      var i :| 0 <= i < |s| && ToUpper(s)[i] == c;
      assert s[i] in s;
    }
  }

  lemma ParsedKindIsCarried(c: Codec6, word: string, pattern: string)
    requires RoundTrips6(c) && Field(pattern) && ParseKind(c, word, pattern).Ok?
    ensures CarriedKind(c, ParseKind(c, word, pattern).value)
    ensures !ParseKind(c, word, pattern).value.Final?
  {
    hide Field, Carried6, IsNet;
    CaseKeepsField(pattern);
    ToLowerIdempotent(pattern);
    ToUpperIdempotent(pattern);
  }

  lemma ParsedPolicyIsCarried(s: string)
    requires Field(s)
    ensures CarriedPolicy(ParsePolicy(s))
  {
    hide Field;
    CaseKeepsField(s);
    ToUpperIdempotent(s);
  }

  lemma ParsedFieldsAreCarried(c: Codec6, parts: seq<string>)
    requires RoundTrips6(c) && |parts| >= 1 && (forall p :: p in parts ==> Field(p))
    requires ParseFields(c, parts).Ok?
    ensures Carried(c, ParseFields(c, parts).value)
  {
    assert CarriedKind(c, Final);
    hide Field, CarriedKind, CarriedPolicy, ParseKind, ParsePolicy, RoundTrips6, ToUpper, HasNoResolve;
    var word := ToUpper(parts[0]);
    if word == "FINAL" {
      ParsedPolicyIsCarried(parts[1]);
    } else {
      ParsedKindIsCarried(c, word, parts[1]);
      ParsedPolicyIsCarried(parts[2]);
    }
  }

  /** Every rule the parser produces is one that text can carry. */
  lemma {:induction false} ParsedIsCarried(c: Codec6, line: string)
    requires RoundTrips6(c) && ParseRule(c, line).Ok?
    ensures Carried(c, ParseRule(c, line).value)
  {
    hide Fields, Trim, Field, ParseFields, Carried, RoundTrips6, IsSkipped;
    FieldsAreFields(Trim(line));
    ParsedFieldsAreCarried(c, Fields(Trim(line)));
  }

  // ---------- printing, then parsing ----------

  function Word(k: RuleType): string {
    match k
    case Domain(_) => "DOMAIN"
    case DomainSuffix(_) => "DOMAIN-SUFFIX"
    case DomainKeyword(_) => "DOMAIN-KEYWORD"
    case IpCidr(_) => "IP-CIDR"
    case IpCidr6(_) => "IP-CIDR6"
    case GeoIp(_) => "GEOIP"
    case Final => "FINAL"
  }

  function Pattern(c: Codec6, k: RuleType): string {
    match k
    case Domain(d) => d
    case DomainSuffix(d) => d
    case DomainKeyword(w) => w
    case IpCidr(net) => ShowNet(net)
    case IpCidr6(net) => c.show(net)
    case GeoIp(country) => country
    case Final => ""
  }

  /** The fields of a printed rule. */
  function Printed(c: Codec6, r: Rule): (parts: seq<string>)
    ensures |parts| >= 2
  {
    [Word(r.kind)] + (if r.kind.Final? then [] else [Pattern(c, r.kind)]) + [ShowPolicy(r.policy)]
    + if r.noResolve then ["no-resolve"] else []
  }

  function End(r: Rule): string {
    ShowPolicy(r.policy) + if r.noResolve then ",no-resolve" else ""
  }

  function Tail(r: Rule): seq<string> {
    [ShowPolicy(r.policy)] + if r.noResolve then ["no-resolve"] else []
  }

  lemma EndIsJoin(r: Rule)
    ensures Join(Tail(r), ',') == End(r)
  {
    var policy := ShowPolicy(r.policy);
    if r.noResolve {
      JoinCons(policy, ["no-resolve"], ',');
    } else {
      assert Tail(r) == [policy];
    }
    hide ShowPolicy;
  }

  lemma ThreeParts(word: string, pattern: string, end: string)
    ensures word + "," + (pattern + "," + end) == (word + "," + pattern) + "," + end
  {
  }

  lemma ShowIsParts(c: Codec6, r: Rule)
    ensures ShowKind(c, r.kind) == if r.kind.Final? then Word(r.kind) else Word(r.kind) + "," + Pattern(c, r.kind)
    ensures ShowRule(c, r) == ShowKind(c, r.kind) + "," + End(r)
  {
    hide ShowNet, ShowPolicy;
  }

  lemma ShowIsJoin(c: Codec6, r: Rule)
    ensures ShowRule(c, r) == Join(Printed(c, r), ',')
  {
    hide Join, ShowRule, ShowPolicy, ShowKind, End, Word, Pattern;
    var word, pattern := Word(r.kind), Pattern(c, r.kind);
    EndIsJoin(r);
    ShowIsParts(c, r);
    if r.kind.Final? {
      JoinCons(word, Tail(r), ',');
      assert Printed(c, r) == [word] + Tail(r);
    } else {
      JoinCons(word, [pattern] + Tail(r), ',');
      JoinCons(pattern, Tail(r), ',');
      assert Printed(c, r) == [word] + ([pattern] + Tail(r));
      ThreeParts(word, pattern, End(r));
    }
  }

  lemma NetIsField(net: Net)
    requires IsNet(net)
    ensures Field(ShowNet(net)) && ParseNet(ShowNet(net)) == Some(net)
  {
    NetReadsBack(net);
    var s := ShowNet(net);
    assert s[0] in s && s[|s| - 1] in s;
    hide ShowNet, ParseNet;
  }

  lemma PatternIsField(c: Codec6, k: RuleType)
    requires CarriedKind(c, k)
    ensures Field(Pattern(c, k)) && Field(Word(k)) && Word(k) != []
  {
    if k.IpCidr? {
      NetIsField(k.net);
    }
    hide ShowNet, ToLower, ToUpper;
  }

  lemma PolicyIsField(p: Policy)
    requires CarriedPolicy(p)
    ensures Field(ShowPolicy(p))
  {
    hide ToUpper;
  }

  lemma PrintedAreFields(c: Codec6, r: Rule)
    requires Carried(c, r)
    ensures forall p :: p in Printed(c, r) ==> Field(p)
    ensures Printed(c, r)[0] == Word(r.kind) != []
  {
    PatternIsField(c, r.kind);
    PolicyIsField(r.policy);
    assert Field("no-resolve");
    hide Field, Word, ShowPolicy, Pattern, CarriedKind, CarriedPolicy;
  }

  lemma {:induction false} FieldsOfSplit(parts: seq<string>)
    requires |parts| >= 1 && forall p :: p in parts ==> Field(p)
    ensures Fields(Join(parts, ',')) == parts
  {
    hide Trim, Join, Split, Trimmed;
    assert forall p :: p in parts ==> ',' !in p;
    SplitJoin(parts, ',');
    forall i | 0 <= i < |parts| ensures Trim(parts[i]) == parts[i] {
      assert parts[i] in parts;
      TrimOfTrimmed(parts[i]);
    }
  }

  lemma {:induction false} JoinEnds(parts: seq<string>)
    requires |parts| >= 1
    ensures parts[0] != [] ==> Join(parts, ',') != [] && Join(parts, ',')[0] == parts[0][0]
    ensures var line, last := Join(parts, ','), parts[|parts| - 1];
            line == [] || (if last == [] then line[|line| - 1] == ',' else line[|line| - 1] == last[|last| - 1])
  {
    if |parts| > 1 {
      JoinEnds(parts[1..]);
      assert parts[1..][|parts| - 2] == parts[|parts| - 1];
    }
  }

  /** Joining trimmed fields, the first not empty, makes a trimmed line that
      splits into the same fields. */
  lemma {:induction false} FieldsOfJoin(parts: seq<string>)
    requires |parts| >= 2 && parts[0] != [] && forall p :: p in parts ==> Field(p)
    ensures Trim(Join(parts, ',')) == Join(parts, ',') && Fields(Join(parts, ',')) == parts
    ensures Join(parts, ',') != [] && Join(parts, ',')[0] == parts[0][0]
  {
    hide Trim, Join, Split, Fields;
    FieldsOfSplit(parts);
    JoinEnds(parts);
    assert parts[0] in parts && parts[|parts| - 1] in parts;
    assert Trimmed(Join(parts, ','));
    TrimOfTrimmed(Join(parts, ','));
  }

  lemma WordReadsBack(c: Codec6, k: RuleType)
    requires CarriedKind(c, k) && !k.Final?
    ensures ToUpper(Word(k)) == Word(k) != "FINAL"
    ensures ParseKind(c, Word(k), Pattern(c, k)) == Ok(k)
  {
    assert ToUpper(Word(k)) == Word(k);
    if k.IpCidr? {
      NetIsField(k.net);
    }
    hide ShowNet, ParseNet, Field, ToLower, ToUpper;
  }

  lemma PolicyReadsBack(p: Policy)
    requires CarriedPolicy(p)
    ensures ParsePolicy(ShowPolicy(p)) == p
  {
    assert ToUpper("DIRECT") == "DIRECT" && ToUpper("REJECT") == "REJECT";
    hide Field, ToUpper;
  }

  lemma NoResolveReadsBack(noResolve: bool)
    ensures HasNoResolve(if noResolve then ["no-resolve"] else []) == noResolve
  {
    assert ToLower("no-resolve") == "no-resolve";
    if noResolve {
      assert "no-resolve" in ["no-resolve"];
    }
  }

  lemma PrintedParses(c: Codec6, r: Rule)
    requires Carried(c, r)
    ensures ParseFields(c, Printed(c, r)) == Ok(r)
  {
    var parts := Printed(c, r);
    PolicyReadsBack(r.policy);
    NoResolveReadsBack(r.noResolve);
    if r.kind.Final? {
      assert ToUpper("FINAL") == "FINAL";
    } else {
      WordReadsBack(c, r.kind);
      assert parts[3..] == if r.noResolve then ["no-resolve"] else [];
    }
    hide ParsePolicy, ShowPolicy, ParseKind, Pattern, ToUpper, ToLower, CarriedKind, CarriedPolicy, HasNoResolve;
  }

  lemma ParsesAsFields(c: Codec6, line: string, parts: seq<string>)
    requires |parts| >= 1 && Trim(line) == line && Fields(line) == parts && !IsSkipped(line)
    ensures ParseRule(c, line) == ParseFields(c, parts)
  {
    hide Trim, Fields, ParseFields;
  }

  lemma WordStarts(k: RuleType)
    ensures Word(k) != [] && Word(k)[0] != '#' && Word(k)[0] != '/'
  {
  }

  lemma LineNotSkipped(line: string)
    requires line != [] && line[0] != '#' && line[0] != '/'
    ensures !IsSkipped(line)
  {
  }

  lemma {:induction false} CarriedSurvives(c: Codec6, r: Rule)
    requires Carried(c, r)
    ensures ParseRule(c, ShowRule(c, r)) == Ok(r)
  {
    hide *;
    var line, parts := ShowRule(c, r), Printed(c, r);
    WordStarts(r.kind);
    PrintedAreFields(c, r);
    ShowIsJoin(c, r);
    FieldsOfJoin(parts);
    LineNotSkipped(line);
    PrintedParses(c, r);
    ParsesAsFields(c, line, parts);
  }

  /** A rule survives printing and parsing if and only if it is one text can carry. */
  lemma {:induction false} PrintParseIff(c: Codec6, r: Rule)
    requires RoundTrips6(c)
    ensures ParseRule(c, ShowRule(c, r)) == Ok(r) <==> Carried(c, r)
  {
    hide ParseRule, ShowRule, Carried, RoundTrips6;
    if ParseRule(c, ShowRule(c, r)) == Ok(r) {
      ParsedIsCarried(c, ShowRule(c, r));
    }
    if Carried(c, r) {
      CarriedSurvives(c, r);
    }
  }

  /** Whatever line was accepted, the printed rule is accepted as the same rule. */
  lemma {:induction false} ParsePrintParse(c: Codec6, line: string)
    requires RoundTrips6(c) && ParseRule(c, line).Ok?
    ensures ParseRule(c, ShowRule(c, ParseRule(c, line).value)) == ParseRule(c, line)
  {
    ParsedIsCarried(c, line);
    PrintParseIff(c, ParseRule(c, line).value);
  }

  // ---------- lists of lines ----------

  datatype LineError = LineError(line: nat, error: RuleError)

  /** The rules of the lines that are not skipped, or the first bad line. */
  function ParseAll(c: Codec6, lines: seq<string>): Result<seq<Rule>, LineError> {
    if lines == [] then Ok([])
    else
      var n := |lines| - 1;
      var before := ParseAll(c, lines[..n]);
      if before.Err? || IsSkipped(Trim(lines[n])) then before
      else
        match ParseRule(c, lines[n])
        case Ok(rule) => Ok(before.value + [rule])
        case Err(e) => Err(LineError(n + 1, e))
  }

  predicate IsGood(c: Codec6, line: string) {
    IsSkipped(Trim(line)) || ParseRule(c, line).Ok?
  }

  /** A list is accepted when every line is skipped or a rule; otherwise the
      error names the first line that is neither, counted from one. */
  lemma {:induction false} AcceptedIff(c: Codec6, lines: seq<string>)
    ensures ParseAll(c, lines).Ok? <==> forall i :: 0 <= i < |lines| ==> IsGood(c, lines[i])
    ensures ParseAll(c, lines).Err? ==>
              var LineError(k, e) := ParseAll(c, lines).error;
              1 <= k <= |lines| && !IsGood(c, lines[k - 1]) && ParseRule(c, lines[k - 1]) == Err(e)
              && forall j :: 0 <= j < k - 1 ==> IsGood(c, lines[j])
  {
    hide ParseRule, Trim, IsSkipped;
    if lines == [] {
    } else {
      var n := |lines| - 1;
      AcceptedIff(c, lines[..n]);
      forall j | 0 <= j < n ensures lines[..n][j] == lines[j] {
      }
    }
  }

  /** The lines before `i` that are not skipped. */
  ghost function RulesBefore(lines: seq<string>, i: nat): nat
    requires i <= |lines|
  {
    |set j | 0 <= j < i && !IsSkipped(Trim(lines[j]))|
  }

  lemma RulesBeforeNext(lines: seq<string>, i: nat)
    requires i < |lines|
    ensures RulesBefore(lines, i + 1) == RulesBefore(lines, i) + if IsSkipped(Trim(lines[i])) then 0 else 1
    ensures forall k | 0 <= k <= i :: RulesBefore(lines[..i], k) == RulesBefore(lines, k)
  {
    hide IsSkipped, Trim;
    var before := set j | 0 <= j < i && !IsSkipped(Trim(lines[j]));
    assert (set j | 0 <= j < i + 1 && !IsSkipped(Trim(lines[j])))
        == before + if IsSkipped(Trim(lines[i])) then {} else {i};
    forall k | 0 <= k <= i ensures RulesBefore(lines[..i], k) == RulesBefore(lines, k) {
      assert (set j | 0 <= j < k && !IsSkipped(Trim(lines[..i][j])))
          == set j | 0 <= j < k && !IsSkipped(Trim(lines[j]));
    }
  }

  /** An accepted list yields one rule for each line that is not skipped, in order. */
  lemma {:induction false} RulesInOrder(c: Codec6, lines: seq<string>)
    requires ParseAll(c, lines).Ok?
    ensures |ParseAll(c, lines).value| == RulesBefore(lines, |lines|)
    ensures forall i | 0 <= i < |lines| && !IsSkipped(Trim(lines[i])) ::
              RulesBefore(lines, i) < |ParseAll(c, lines).value|
              && ParseRule(c, lines[i]) == Ok(ParseAll(c, lines).value[RulesBefore(lines, i)])
  {
    hide ParseRule, Trim, IsSkipped, RulesBefore;
    if lines == [] {
      NothingBefore(lines);
    } else {
      var n := |lines| - 1;
      var front := lines[..n];
      RulesInOrder(c, front);
      RulesBeforeNext(lines, n);
      var rules := ParseAll(c, front).value;
      assert rules <= ParseAll(c, lines).value;
      assert RulesBefore(front, n) == RulesBefore(lines, n);
      forall i | 0 <= i < |lines| && !IsSkipped(Trim(lines[i]))
        ensures RulesBefore(lines, i) < |ParseAll(c, lines).value|
        ensures ParseRule(c, lines[i]) == Ok(ParseAll(c, lines).value[RulesBefore(lines, i)])
      {
        if i < n {
          assert front[i] == lines[i] && RulesBefore(front, i) == RulesBefore(lines, i);
          hide ParseAll;
        }
      }
    }
  }

  lemma NothingBefore(lines: seq<string>)
    ensures RulesBefore(lines, 0) == 0
  {
  }

  lemma TrimTwice(s: string)
    ensures Trim(Trim(s)) == Trim(s)
  {
    TrimOfTrimmed(Trim(s));
  }

  lemma {:induction false} FirstErrorStays(c: Codec6, lines: seq<string>, i: nat)
    requires i <= |lines| && ParseAll(c, lines[..i]).Err?
    ensures ParseAll(c, lines) == ParseAll(c, lines[..i])
    decreases |lines|
  {
    hide ParseRule;
    if i < |lines| {
      assert lines[..|lines| - 1][..i] == lines[..i];
      FirstErrorStays(c, lines[..|lines| - 1], i);
    } else {
      assert lines[..i] == lines;
    }
  }

  method ParseRules(c: Codec6, lines: seq<string>) returns (r: Result<seq<Rule>, LineError>)
    ensures r == ParseAll(c, lines)
  {
    hide ParseRule, Trim, IsSkipped;
    var rules: seq<Rule> := [];
    for i := 0 to |lines|
      invariant ParseAll(c, lines[..i]) == Ok(rules)
    {
      assert lines[..i + 1][..i] == lines[..i];
      var line := Trim(lines[i]);
      ParseRuleTrims(c, lines[i]);
      if !IsSkipped(line) {
        var parsed := ParseRule(c, line);
        if parsed.Err? {
          FirstErrorStays(c, lines, i + 1);
          return Err(LineError(i + 1, parsed.error));
        }
        rules := rules + [parsed.value];
      }
    }
    assert lines[..|lines|] == lines;
    return Ok(rules);
  }

  lemma ParseRuleTrims(c: Codec6, line: string)
    ensures ParseRule(c, Trim(line)) == ParseRule(c, line)
  {
    TrimTwice(line);
  }

  function ShowAll(c: Codec6, rules: seq<Rule>): (lines: seq<string>)
    ensures |lines| == |rules| && forall i :: 0 <= i < |rules| ==> lines[i] == ShowRule(c, rules[i])
  {
    seq(|rules|, i requires 0 <= i < |rules| => ShowRule(c, rules[i]))
  }

  /** An accepted list, printed, is accepted as the same list. */
  lemma {:induction false} ListPrintParse(c: Codec6, lines: seq<string>)
    requires RoundTrips6(c) && ParseAll(c, lines).Ok?
    ensures ParseAll(c, ShowAll(c, ParseAll(c, lines).value)) == ParseAll(c, lines)
  {
    hide ParseRule, ShowRule, RoundTrips6, Trim, IsSkipped;
    if lines == [] {
    } else {
      var n := |lines| - 1;
      ListPrintParse(c, lines[..n]);
      if !IsSkipped(Trim(lines[n])) {
        var rules := ParseAll(c, lines).value;
        var shown := ShowAll(c, rules);
        ParsePrintParse(c, lines[n]);
        NotSkipped(c, shown[|rules| - 1]);
        assert shown[..|rules| - 1] == ShowAll(c, rules[..|rules| - 1]);
      }
    }
  }

  lemma {:induction false} NotSkipped(c: Codec6, line: string)
    requires ParseRule(c, line).Ok?
    ensures !IsSkipped(Trim(line))
  {
  }
}
