/**
 IPv4 networks as text: dotted decimal octets, a slash, and a prefix length.
 Host bits are kept, and leading zeros are accepted but never printed.
 */
module NetText {
  import opened Ascii
  import opened Numbers
  import opened RuleTypes

  predicate IsDigit(c: char) {
    '0' <= c <= '9'
  }

  function Value(s: string): nat
    requires forall c :: c in s ==> IsDigit(c)
  {
    if s == [] then 0
    else
      assert s[|s| - 1] in s && IsDigit(s[|s| - 1]);
      10 * Value(s[..|s| - 1]) + (s[|s| - 1] as int - '0' as int)
  }

  /** A decimal number of at most `maxDigits` digits and below `upTo`. */
  function ParseNumber(s: string, maxDigits: nat, upTo: nat): (r: Option<nat>)
    ensures r.Some? ==> r.value < upTo
  {
    if 1 <= |s| <= maxDigits && (forall c :: c in s ==> IsDigit(c)) && Value(s) < upTo
    then Some(Value(s)) else None
  }

  function Decimal(n: nat): (s: string)
    ensures s != [] && forall c :: c in s ==> IsDigit(c)
  {
    var last := ('0' as int + n % 10) as char;
    if n < 10 then [last] else Decimal(n / 10) + [last]
  }

  lemma {:induction false} ValueOfDecimal(n: nat)
    ensures Value(Decimal(n)) == n
  {
    var s := Decimal(n);
    if n >= 10 {
      ValueOfDecimal(n / 10);
      assert s[..|s| - 1] == Decimal(n / 10);
    } else {
      assert s[..0] == [];
    }
  }

  lemma NumberReadsBack(n: nat, maxDigits: nat, upTo: nat)
    requires n < upTo && ((maxDigits == 2 && n < 100) || (maxDigits == 3 && n < 1000))
    ensures ParseNumber(Decimal(n), maxDigits, upTo) == Some(n)
  {
    ValueOfDecimal(n);
    assert |Decimal(n / 10 / 10)| == 1 || n >= 1000;
    assert n >= 10 ==> |Decimal(n)| == |Decimal(n / 10)| + 1;
    assert n / 10 >= 10 ==> |Decimal(n / 10)| == |Decimal(n / 10 / 10)| + 1;
  }

  function Octet(addr: nat, k: nat): (r: nat)
    requires k <= 3
    ensures r < 256
  {
    match k
    case 0 => addr / 0x100 / 0x100 / 0x100 % 0x100
    case 1 => addr / 0x100 / 0x100 % 0x100
    case 2 => addr / 0x100 % 0x100
    case 3 => addr % 0x100
  }

  function Octets(addr: nat): seq<string> {
    [Decimal(Octet(addr, 0)), Decimal(Octet(addr, 1)), Decimal(Octet(addr, 2)), Decimal(Octet(addr, 3))]
  }

  function ShowAddr(addr: nat): string {
    Join(Octets(addr), '.')
  }

  function ShowNet(net: Net): string {
    Join([ShowAddr(net.addr), Decimal(net.prefix)], '/')
  }

  function ParseAddr(s: string): (r: Option<nat>)
    ensures r.Some? ==> r.value < 0x1_0000_0000
  {
    var parts := Split(s, '.');
    if |parts| != 4 then None
    else
      var a :- ParseNumber(parts[0], 3, 256);
      var b :- ParseNumber(parts[1], 3, 256);
      var c :- ParseNumber(parts[2], 3, 256);
      var d :- ParseNumber(parts[3], 3, 256);
      Some(((a * 0x100 + b) * 0x100 + c) * 0x100 + d)
  }

  predicate IsNet(net: Net) {
    net.addr < 0x1_0000_0000 && net.prefix <= 32
  }

  function ParseNet(s: string): (r: Option<Net>)
    ensures r.Some? ==> IsNet(r.value)
  {
    var parts := Split(s, '/');
    if |parts| != 2 then None
    else
      var addr :- ParseAddr(parts[0]);
      var prefix :- ParseNumber(parts[1], 2, 33);
      Some(Net(addr, prefix))
  }

  lemma OctetsMake(addr: nat)
    requires addr < 0x1_0000_0000
    ensures addr == ((Octet(addr, 0) * 0x100 + Octet(addr, 1)) * 0x100 + Octet(addr, 2)) * 0x100 + Octet(addr, 3)
  {
    var b := addr / 0x100;
    var c := b / 0x100;
    assert c / 0x100 < 0x100;
    assert addr == b * 0x100 + Octet(addr, 3) && b == c * 0x100 + Octet(addr, 2);
    assert c == Octet(addr, 0) * 0x100 + Octet(addr, 1);
    hide Octet;
  }

  ghost predicate Only(s: string, allowed: set<char>) {
    forall c :: c in s ==> IsDigit(c) || c in allowed
  }

  lemma {:induction false} JoinOnly(parts: seq<string>, sep: char, allowed: set<char>)
    requires parts != [] && sep in allowed && forall p :: p in parts ==> Only(p, allowed)
    ensures Only(Join(parts, sep), allowed)
  {
    assert parts[0] in parts;
    if |parts| > 1 {
      forall p | p in parts[1..] ensures Only(p, allowed) {
        assert p in parts;
      }
      JoinOnly(parts[1..], sep, allowed);
    }
  }

  lemma AddrReadsBack(addr: nat)
    requires addr < 0x1_0000_0000
    ensures ParseAddr(ShowAddr(addr)) == Some(addr)
    ensures Only(ShowAddr(addr), {'.'})
  {
    hide Octet, Decimal, ParseNumber, Split, Join;
    SplitJoin(Octets(addr), '.');
    JoinOnly(Octets(addr), '.', {'.'});
    NumberReadsBack(Octet(addr, 0), 3, 256);
    NumberReadsBack(Octet(addr, 1), 3, 256);
    NumberReadsBack(Octet(addr, 2), 3, 256);
    NumberReadsBack(Octet(addr, 3), 3, 256);
    OctetsMake(addr);
  }

  /** The text of a network reads back, and has only digits, dots and a slash. */
  lemma {:induction false} NetReadsBack(net: Net)
    requires IsNet(net)
    ensures ParseNet(ShowNet(net)) == Some(net)
    ensures ShowNet(net) != [] && Only(ShowNet(net), {'.', '/'})
  {
    hide ShowAddr, ParseAddr, Decimal, ParseNumber, Join, Split;
    AddrReadsBack(net.addr);
    NumberReadsBack(net.prefix, 2, 33);
    var parts := [ShowAddr(net.addr), Decimal(net.prefix)];
    SplitJoin(parts, '/');
    JoinOnly(parts, '/', {'.', '/'});
    JoinConcat([parts[0]], [parts[1]], '/');
    assert parts == [parts[0]] + [parts[1]];
  }

  /** A number's text below 1000: its decimal digits, the first not zero unless alone. */
  lemma DecimalIs(n: nat)
    requires n < 1000
    ensures var s, zero := Decimal(n), '0' as int;
            && (n < 10 ==> |s| == 1 && s[0] as int - zero == n)
            && (10 <= n < 100 ==> |s| == 2 && s[0] != '0' && 10 * (s[0] as int - zero) + (s[1] as int - zero) == n)
            && (100 <= n ==> |s| == 3 && s[0] != '0'
                             && 100 * (s[0] as int - zero) + 10 * (s[1] as int - zero) + (s[2] as int - zero) == n)
  {
    assert n >= 10 ==> Decimal(n) == Decimal(n / 10) + [('0' as int + n % 10) as char];
    assert n >= 100 ==> Decimal(n / 10) == Decimal(n / 10 / 10) + [('0' as int + n / 10 % 10) as char];
    assert n >= 100 ==> |Decimal(n / 10 / 10)| == 1;
  }

  lemma OctetsOf(a: nat, b: nat, c: nat, d: nat)
    requires a < 256 && b < 256 && c < 256 && d < 256
    ensures var addr := ((a * 0x100 + b) * 0x100 + c) * 0x100 + d;
            Octet(addr, 0) == a && Octet(addr, 1) == b && Octet(addr, 2) == c && Octet(addr, 3) == d
  {
    var abc := (a * 0x100 + b) * 0x100 + c;
    assert (abc * 0x100 + d) / 0x100 == abc && (abc * 0x100 + d) % 0x100 == d;
    var ab := a * 0x100 + b;
    assert (ab * 0x100 + c) / 0x100 == ab && (ab * 0x100 + c) % 0x100 == c;
    assert ab / 0x100 == a && ab % 0x100 == b;
  }

  /** What a dotted network means: the first octet is the most significant. */
  lemma {:induction false} DottedNet(a: nat, b: nat, c: nat, d: nat, prefix: nat)
    requires a < 256 && b < 256 && c < 256 && d < 256 && prefix <= 32
    ensures ParseNet(Decimal(a) + "." + Decimal(b) + "." + Decimal(c) + "." + Decimal(d) + "/" + Decimal(prefix))
            == Some(Net(a * 0x100_0000 + b * 0x1_0000 + c * 0x100 + d, prefix))
  {
    hide Octet, Decimal, ParseNet;
    var net := Net(((a * 0x100 + b) * 0x100 + c) * 0x100 + d, prefix);
    OctetsOf(a, b, c, d);
    NetReadsBack(net);
    assert Octets(net.addr) == [Decimal(a), Decimal(b), Decimal(c), Decimal(d)];
    JoinFour(Decimal(a), Decimal(b), Decimal(c), Decimal(d));
    assert ShowNet(net) == ShowAddr(net.addr) + "/" + Decimal(prefix) by {
      JoinConcat([ShowAddr(net.addr)], [Decimal(prefix)], '/');
      assert [ShowAddr(net.addr), Decimal(prefix)] == [ShowAddr(net.addr)] + [Decimal(prefix)];
    }
  }

  lemma JoinFour(a: string, b: string, c: string, d: string)
    ensures Join([a, b, c, d], '.') == a + "." + b + "." + c + "." + d
  {
    assert [a, b, c, d] == ([a] + [b]) + ([c] + [d]);
    JoinConcat([a], [b], '.');
    JoinConcat([c], [d], '.');
    JoinConcat([a] + [b], [c] + [d], '.');
  }
}
