/** Whether a `NO_PROXY` entry exempts a target from the proxy. */
module NoProxy {
  import opened Wrappers
  import opened Sequences
  import opened Text
  import opened Evidence
  import opened Cidr

  // ----- Splitting off the port ----------------------------------------------------------

  function ParsePort(s: string): Option<nat> {
    ParseNumber(s, 65536)
  }

  /** Host and port of an entry; an IPv6 address needs brackets to carry a port. */
  function SplitPort(entry: string): (string, Option<nat>) {
    if entry != [] && entry[0] == '[' && ']' in entry[1..] then
      var inner := entry[1..];
      var i := IndexOf(inner, ']');
      var rest := inner[i..];
      (inner[..i], if |rest| > 1 && rest[1] == ':' then ParsePort(rest[2..]) else None)
    else
      var i := IndexOf(entry, ':');
      if i < |entry| && ':' !in entry[i + 1..] && ParsePort(entry[i + 1..]).Some? then
        (entry[..i], ParsePort(entry[i + 1..]))
      else (entry, None)
  }

  lemma {:induction false} IndexOfAtMost(s: string, c: char, k: nat)
    requires k < |s| && s[k] == c
    ensures IndexOf(s, c) <= k
  {
    if s[0] != c { IndexOfAtMost(s[1..], c, k - 1); }
  }

  lemma {:induction false} NumeralHasNoColon(s: string)
    requires AllDigits(s)
    ensures ':' !in s && '+' !in s
  {
  }

  lemma {:induction false} DecimalIsPort(p: nat)
    requires p < 65536
    ensures ParsePort(Decimal(p)) == Some(p) && ':' !in Decimal(p)
  {
    DecimalParses(p);
    NumeralHasNoColon(Decimal(p));
    assert Decimal(p)[0] in Decimal(p);
  }

  /** A port: a numeral up to 65535, possibly after zeros and a plus sign. */
  lemma {:induction false} PortIs(text: string, port: nat)
    ensures ParsePort(text) == Some(port) <==>
            && port <= 65535
            && exists zeros :: Zeros(zeros) && (text == zeros + Decimal(port) || text == "+" + (zeros + Decimal(port)))
  {
    NumberIs(text, 65536, port);
  }

  // ----- Matching the host ---------------------------------------------------------------

  predicate IsBracket(c: char) {
    c == '[' || c == ']'
  }

  function TrimLeft(s: string): string {
    if s != [] && IsBracket(s[0]) then TrimLeft(s[1..]) else s
  }

  function TrimRight(s: string): string {
    if s != [] && IsBracket(s[|s| - 1]) then TrimRight(s[..|s| - 1]) else s
  }

  function TrimDots(s: string): string {
    if s != [] && s[0] == '.' then TrimDots(s[1..]) else s
  }

  function LowerChar(c: char): char {
    if 'A' <= c <= 'Z' then c + 32 as char else c
  }

  function Lower(s: string): (t: string)
    ensures |t| == |s| && forall i :: 0 <= i < |s| ==> t[i] == LowerChar(s[i])
  {
    seq(|s|, i requires 0 <= i < |s| => LowerChar(s[i]))
  }

  function Normal(s: string): string {
    Lower(TrimRight(TrimLeft(s)))
  }

  function ParseCidr(parseIp: string -> Option<Ip>, s: string): Option<(Ip, nat)> {
    var i := IndexOf(s, '/');
    if i == |s| then None
    else
      var address, prefix := parseIp(s[..i]), ParseNumber(s[i + 1..], 256);
      if address.Some? && prefix.Some? then Some((address.value, prefix.value)) else None
  }

  predicate UnderDomain(host: string, domain: string) {
    host == domain || EndsWith(host, "." + domain)
  }

  /** `parseIp` recognises the text of an IP address. */
  predicate HostMatches(parseIp: string -> Option<Ip>, entryHost: string, targetHost: string) {
    var entry, host := Normal(entryHost), Normal(targetHost);
    var address, network := parseIp(host), ParseCidr(parseIp, entry);
    if address.Some? && network.Some? then Contains(network.value.0, network.value.1, address.value)
    else UnderDomain(host, TrimDots(entry))
  }

  predicate EntryMatches(parseIp: string -> Option<Ip>, entry: string, host: string, port: nat) {
    || entry == "*"
    || var (entryHost, entryPort) := SplitPort(entry);
       (entryPort.Some? ==> entryPort.value == port) && HostMatches(parseIp, entryHost, host)
  }

  // ----- What a port in an entry does ----------------------------------------------------

  /** The entry does not begin with a bracketed host. */
  predicate Unbracketed(entry: string) {
    entry == "" || entry[0] != '[' || ']' !in entry[1..]
  }

  /** `host:port` exempts that port of the host and no other; the wildcard carries no port. */
  lemma {:induction false} PortRestricts(parseIp: string -> Option<Ip>, h: string, p: nat, host: string, port: nat)
    requires ':' !in h && Unbracketed(h + ":" + Decimal(p)) && p < 65536
    ensures EntryMatches(parseIp, h + ":" + Decimal(p), host, port) <==> port == p && HostMatches(parseIp, h, host)
  {
    hide HostMatches, Decimal, ParsePort;
    var entry := h + ":" + Decimal(p);
    DecimalIsPort(p);
    IndexOfSplit(h, ':', Decimal(p));
    assert entry[..|h|] == h && entry[|h| + 1..] == Decimal(p);
    assert entry[|h|] == ':';
  }

  /** What follows the only colon is part of the host unless it is a port number. */
  lemma OtherTextIsHost(parseIp: string -> Option<Ip>, h: string, text: string, host: string, port: nat)
    requires ':' !in h && ':' !in text && Unbracketed(h + ":" + text) && ParsePort(text).None?
    ensures EntryMatches(parseIp, h + ":" + text, host, port) <==> HostMatches(parseIp, h + ":" + text, host)
  {
    hide HostMatches, ParsePort;
    var entry := h + ":" + text;
    IndexOfSplit(h, ':', text);
    assert entry[|h| + 1..] == text && entry[|h|] == ':';
  }

  /** An entry without a colon exempts every port of its host. */
  lemma NoColonNoPort(parseIp: string -> Option<Ip>, entry: string, host: string, port: nat)
    requires ':' !in entry && Unbracketed(entry) && entry != "*"
    ensures EntryMatches(parseIp, entry, host, port) <==> HostMatches(parseIp, entry, host)
  {
    hide HostMatches;
    assert IndexOf(entry, ':') == |entry|;
  }

  /** The wildcard exempts everything. */
  lemma WildcardExemptsAll(parseIp: string -> Option<Ip>, host: string, port: nat)
    ensures EntryMatches(parseIp, "*", host, port)
  {
  }

  /** What stands in brackets is the host; without a colon right after them there is no port. */
  lemma BracketedWithoutPort(parseIp: string -> Option<Ip>, h: string, after: string, host: string, port: nat)
    requires ']' !in h && (after == "" || after[0] != ':')
    ensures EntryMatches(parseIp, "[" + h + "]" + after, host, port) <==> HostMatches(parseIp, h, host)
  {
    hide HostMatches, IndexOf;
    var entry := "[" + h + "]" + after;
    var inner := entry[1..];
    assert inner == h + [']'] + after;
    IndexOfSplit(h, ']', after);
    assert inner[|h|] == ']' && inner[..|h|] == h;
    assert inner[|h|..] == [']'] + after;
  }

  /**
    * `[host]:text` exempts one port only if the text is a port number. Any other text is dropped, and
    * the entry then exempts every port of the host.
    */
  lemma BracketedPortRestrictsIff(parseIp: string -> Option<Ip>, h: string, text: string, host: string, port: nat)
    requires ']' !in h
    ensures EntryMatches(parseIp, "[" + h + "]:" + text, host, port) <==>
            HostMatches(parseIp, h, host) && (ParsePort(text).None? || ParsePort(text) == Some(port))
  {
    hide HostMatches, ParsePort;
    BracketedEntrySplits(h, text);
  }

  lemma BracketedEntrySplits(h: string, text: string)
    requires ']' !in h
    ensures SplitPort("[" + h + "]:" + text) == (h, ParsePort(text))
  {
    hide ParsePort, IndexOf;
    var entry := "[" + h + "]:" + text;
    var inner := entry[1..];
    assert inner == h + [']'] + (":" + text);
    IndexOfSplit(h, ']', ":" + text);
    assert inner[|h|] == ']' && inner[|h| + 1] == ':';
    assert inner[..|h|] == h;
    assert inner[|h|..][2..] == text;
  }

  /** Without brackets, an entry with several colons is an address and is kept whole. */
  lemma BareAddressIsWhole(a: string, b: string, c: string)
    requires Unbracketed(a + ":" + b + ":" + c)
    ensures SplitPort(a + ":" + b + ":" + c) == (a + ":" + b + ":" + c, None)
  {
    var entry := a + ":" + b + ":" + c;
    var i := IndexOf(entry, ':');
    IndexOfAtMost(entry, ':', |a|);
    assert entry[i + 1..][|a| + |b| - i] == ':';
  }

  // ----- How hosts are read --------------------------------------------------------------

  predicate Brackets(s: string) {
    forall c :: c in s ==> c == '[' || c == ']'
  }

  predicate SameButCase(a: char, b: char) {
    a == b || ('A' <= a <= 'Z' && b as int == a as int + 32)
  }

  lemma {:induction false} BracketsTrimmedLeft(open: string, core: string)
    requires Brackets(open) && core != "" && !Brackets([core[0]])
    ensures TrimLeft(open + core) == core
  {
    if open == "" {
      assert open + core == core && core[0] in [core[0]];
    } else {
      assert open[0] in open && forall c :: c in open[1..] ==> c in open;
      assert (open + core)[1..] == open[1..] + core;
      BracketsTrimmedLeft(open[1..], core);
    }
  }

  lemma {:induction false} BracketsTrimmedRight(core: string, close: string)
    requires Brackets(close) && core != "" && !Brackets([core[|core| - 1]])
    ensures TrimRight(core + close) == core
  {
    if close == "" {
      assert core + close == core;
    } else {
      var n := |close| - 1;
      assert close[n] in close && forall c :: c in close[..n] ==> c in close;
      assert (core + close)[..|core| + n] == core + close[..n];
      BracketsTrimmedRight(core, close[..n]);
    }
  }

  /** A host is compared without the brackets around it and without regard to the case of ASCII letters. */
  lemma NormalIs(open: string, core: string, close: string)
    requires Brackets(open) && Brackets(close)
    requires core != "" && !Brackets([core[0]]) && !Brackets([core[|core| - 1]])
    ensures var normal := Normal(open + core + close);
            && |normal| == |core|
            && forall i :: 0 <= i < |core| ==> SameButCase(core[i], normal[i]) && !('A' <= normal[i] <= 'Z')
  {
    assert open + core + close == open + (core + close);
    assert (core + close)[0] == core[0];
    BracketsTrimmedLeft(open, core + close);
    BracketsTrimmedRight(core, close);
  }

  /** `address/prefix`, the prefix a number below 256, is a network. */
  lemma {:induction false} NetworkIsRead(parseIp: string -> Option<Ip>, address: string, prefix: nat)
    requires '/' !in address && parseIp(address).Some?
    ensures ParseCidr(parseIp, address + "/" + Decimal(prefix)) ==
            if prefix < 256 then Some((parseIp(address).value, prefix)) else None
  {
    hide Decimal, ParseNumber, IndexOf;
    var s := address + "/" + Decimal(prefix);
    IndexOfSplit(address, '/', Decimal(prefix));
    NumeralIsNumber(prefix, 256);
    assert s == address + ['/'] + Decimal(prefix);
    assert s[..|address|] == address && s[|address| + 1..] == Decimal(prefix);
  }

  lemma {:induction false} NumeralIsNumber(n: nat, limit: nat)
    ensures ParseNumber(Decimal(n), limit) == if n < limit then Some(n) else None
  {
    hide Decimal;
    DecimalParses(n);
    NumeralHasNoColon(Decimal(n));
    assert Decimal(n)[0] in Decimal(n);
  }

  lemma NoSlashNoNetwork(parseIp: string -> Option<Ip>, s: string)
    requires '/' !in s
    ensures ParseCidr(parseIp, s) == None
  {
    assert IndexOf(s, '/') == |s|;
  }

  /** Dots in front of a domain make no difference. */
  lemma {:induction false} LeadingDotsIgnored(dots: string, domain: string)
    requires (forall c :: c in dots ==> c == '.') && (domain == "" || domain[0] != '.')
    ensures TrimDots(dots + domain) == domain
  {
    if dots == "" {
      assert dots + domain == domain;
    } else {
      assert dots[0] in dots && forall c :: c in dots[1..] ==> c in dots;
      assert (dots + domain)[1..] == dots[1..] + domain;
      LeadingDotsIgnored(dots[1..], domain);
    }
  }

  // ----- What a host in an entry does ----------------------------------------------------

  /** A dot opens a new first label; any other character goes to the front of the current one. */
  function Prepend(c: char, labels: seq<string>): (r: seq<string>)
    requires labels != []
    ensures r != []
  {
    if c == '.' then [""] + labels else [[c] + labels[0]] + labels[1..]
  }

  /** The labels of a domain name. */
  function Labels(s: string): (labels: seq<string>)
    ensures labels != []
  {
    if s == [] then [""] else Prepend(s[0], Labels(s[1..]))
  }

  function Join(labels: seq<string>): string
    requires labels != []
  {
    if |labels| == 1 then labels[0] else labels[0] + "." + Join(labels[1..])
  }

  lemma {:induction false} JoinPrepended(c: char, labels: seq<string>)
    requires labels != []
    ensures Join(Prepend(c, labels)) == [c] + Join(labels)
  {
    var r := Prepend(c, labels);
    if c == '.' {
      assert r[1..] == labels;
    } else if |labels| > 1 {
      assert r[1..] == labels[1..];
      assert r[0] + "." + Join(labels[1..]) == [c] + (labels[0] + "." + Join(labels[1..]));
    }
  }

  lemma {:induction false} JoinLabels(s: string)
    ensures Join(Labels(s)) == s
  {
    hide Join, Prepend;
    if s != [] {
      JoinLabels(s[1..]);
      JoinPrepended(s[0], Labels(s[1..]));
      assert s == [s[0]] + s[1..];
    } else {
      JoinOne("");
    }
  }

  lemma JoinOne(only: string)
    ensures Join([only]) == only
  {
  }

  lemma PrependConcat(c: char, x: seq<string>, y: seq<string>)
    requires x != []
    ensures Prepend(c, x + y) == Prepend(c, x) + y
  {
    assert (x + y)[1..] == x[1..] + y;
  }

  lemma {:induction false} LabelsOfJoin(a: string, b: string)
    ensures Labels(a + "." + b) == Labels(a) + Labels(b)
  {
    hide Prepend;
    var whole := a + "." + b;
    if a == [] {
      assert whole[0] == '.' && whole[1..] == b;
      PrependDot(Labels(b));
    } else {
      LabelsOfJoin(a[1..], b);
      assert whole[0] == a[0] && whole[1..] == a[1..] + "." + b;
      PrependConcat(a[0], Labels(a[1..]), Labels(b));
    }
  }

  lemma PrependDot(labels: seq<string>)
    requires labels != []
    ensures Prepend('.', labels) == [""] + labels
  {
  }

  lemma {:induction false} JoinConcat(x: seq<string>, y: seq<string>)
    requires x != [] && y != []
    ensures Join(x + y) == Join(x) + "." + Join(y)
  {
    var all := x + y;
    if |x| == 1 {
      assert all[1..] == y;
    } else {
      JoinConcat(x[1..], y);
      assert all[1..] == x[1..] + y;
      assert x[0] + "." + (Join(x[1..]) + "." + Join(y)) == x[0] + "." + Join(x[1..]) + "." + Join(y);
    }
  }

  /** The text comparison cuts only at label boundaries. */
  lemma {:induction false} UnderDomainIffLabels(host: string, domain: string)
    ensures UnderDomain(host, domain) <==> EndsWith(Labels(host), Labels(domain))
  {
    hide Labels, Join;
    var x, y := Labels(host), Labels(domain);
    JoinLabels(host);
    JoinLabels(domain);
    if EndsWith(host, "." + domain) {
      var before := BeforeSuffix(host, domain);
      LabelsOfJoin(before, domain);
      assert (Labels(before) + y)[|Labels(before)|..] == y;
    }
    if EndsWith(x, y) {
      var front := x[..|x| - |y|];
      assert x == front + y;
      if front == [] {
        assert x == y;
      } else {
        JoinConcat(front, y);
        var joined := Join(front) + "." + domain;
        assert joined[|joined| - |domain| - 1..] == "." + domain;
      }
    }
  }

  /** Unless address meets network, an entry exempts exactly the host of that name and those under it. */
  lemma DomainRule(parseIp: string -> Option<Ip>, entry: string, host: string)
    requires parseIp(Normal(host)).None? || ParseCidr(parseIp, Normal(entry)).None?
    ensures HostMatches(parseIp, entry, host) <==> EndsWith(Labels(Normal(host)), Labels(TrimDots(Normal(entry))))
  {
    UnderDomainIffLabels(Normal(host), TrimDots(Normal(entry)));
  }

  /** A network exempts the addresses of its family that share its prefix. */
  lemma NetworkRule(parseIp: string -> Option<Ip>, entry: string, host: string)
    requires parseIp(Normal(host)).Some? && ParseCidr(parseIp, Normal(entry)).Some?
    requires forall s :: parseIp(s).Some? ==> WellFormed(parseIp(s).value)
    ensures var address, (network, prefix) := parseIp(Normal(host)).value, ParseCidr(parseIp, Normal(entry)).value;
            HostMatches(parseIp, entry, host) <==> SamePrefix(network, prefix, address)
  {
    hide Normal, WellFormed, Contains, SamePrefix;
    var s := Normal(entry);
    assert WellFormed(parseIp(s[..IndexOf(s, '/')]).value);
    assert WellFormed(parseIp(Normal(host)).value);
    var (network, prefix) := ParseCidr(parseIp, s).value;
    ContainsIffSamePrefix(network, prefix, parseIp(Normal(host)).value);
  }

  // ----- Entries that are addresses ------------------------------------------------------

  /** What is read as an address is one, and never what follows a dot in another. */
  ghost predicate AddressSyntax(parseIp: string -> Option<Ip>) {
    && (forall s: string :: parseIp(s).Some? ==> WellFormed(parseIp(s).value))
    && (forall p: string, q: string :: parseIp(q).Some? ==> parseIp(p + "." + q).None?)
  }

  /** The canonical text of addresses: lower case, without brackets, and read back as the same address. */
  ghost predicate Canonical(parseIp: string -> Option<Ip>, text: Ip -> string) {
    forall a: Ip :: WellFormed(a) ==> parseIp(text(a)) == Some(a) && Normal(text(a)) == text(a)
  }

  predicate IsAddressEntry(parseIp: string -> Option<Ip>, entry: string) {
    parseIp(TrimDots(Normal(entry))).Some? && ParseCidr(parseIp, Normal(entry)).None?
  }

  /** An address is compared with an address entry as text. */
  lemma AddressEntryRule(parseIp: string -> Option<Ip>, entry: string, host: string)
    requires AddressSyntax(parseIp) && IsAddressEntry(parseIp, entry) && parseIp(Normal(host)).Some?
    ensures HostMatches(parseIp, entry, host) <==> Normal(host) == TrimDots(Normal(entry))
  {
    hide Normal, ParseCidr;
    var h, e := Normal(host), TrimDots(Normal(entry));
    if EndsWith(h, "." + e) {
      var p := BeforeSuffix(h, e);
    }
  }

  lemma BeforeSuffix(host: string, domain: string) returns (p: string)
    requires EndsWith(host, "." + domain)
    ensures host == p + "." + domain
  {
    p := host[..|host| - |domain| - 1];
  }

  /**
    * An address entry never exempts another address, and it exempts its own, written canonically, exactly
    * when the entry is written canonically too.
    */
  lemma AddressEntryExactIff(parseIp: string -> Option<Ip>, text: Ip -> string, entry: string)
    requires AddressSyntax(parseIp) && Canonical(parseIp, text) && IsAddressEntry(parseIp, entry)
    ensures var own := parseIp(TrimDots(Normal(entry))).value;
            && (forall a: Ip :: WellFormed(a) && HostMatches(parseIp, entry, text(a)) ==> a == own)
            && (HostMatches(parseIp, entry, text(own)) <==> TrimDots(Normal(entry)) == text(own))
  {
    hide HostMatches, Normal, ParseCidr;
    var own := parseIp(TrimDots(Normal(entry))).value;
    forall a: Ip | WellFormed(a)
      ensures HostMatches(parseIp, entry, text(a)) <==> text(a) == TrimDots(Normal(entry))
    {
      AddressEntryRule(parseIp, entry, text(a));
    }
  }

  /** The full form of the loopback address does not exempt it. */
  lemma FullFormIsNotHonoured(parseIp: string -> Option<Ip>)
    requires AddressSyntax(parseIp)
    requires parseIp("0:0:0:0:0:0:0:1") == parseIp("::1") == Some(V6(1))
    ensures !HostMatches(parseIp, "0:0:0:0:0:0:0:1", "::1")
  {
    KeptAsIs("0:0:0:0:0:0:0:1");
    KeptAsIs("::1");
    NoSlash("0:0:0:0:0:0:0:1");
    AddressEntryRule(parseIp, "0:0:0:0:0:0:0:1", "::1");
    assert |"0:0:0:0:0:0:0:1"| != |"::1"|;
  }

  lemma {:induction false} KeptAsIs(s: string)
    requires s != [] && forall c :: c in s ==> c == ':' || IsDigit(c)
    ensures Normal(s) == s && TrimDots(s) == s
  {
    assert s[0] in s && s[|s| - 1] in s;
    assert forall i :: 0 <= i < |s| ==> s[i] in s;
  }

  lemma {:induction false} NoSlash(s: string)
    requires forall c :: c in s ==> c == ':' || IsDigit(c)
    ensures IndexOf(s, '/') == |s|
  {
    if s != [] {
      assert s[0] in s && forall c :: c in s[1..] ==> c in s;
      NoSlash(s[1..]);
    }
  }
}
