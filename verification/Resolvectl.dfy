/** The `resolvectl status` listing: one pass over the lines, and the sections it amounts to. */
module Resolvectl {
  import opened Wrappers
  import opened Sequences
  import opened Text

  datatype Kind = Servers | Domains

  datatype Link = Link(
    index: nat, name: string, servers: seq<string>, domains: seq<string>, defaultRoute: Option<bool>)

  datatype Problem = MalformedHeader | InvalidIndex

  datatype Evidence = Evidence(globalServers: seq<string>, globalDomains: seq<string>, links: seq<Link>)

  // ----- Lines ---------------------------------------------------------------------------

  /** Unicode white space. */
  predicate IsSpace(c: char) {
    var n := c as int;
    || 0x09 <= n <= 0x0D || n == 0x20 || n == 0x85 || n == 0xA0 || n == 0x1680
    || 0x2000 <= n <= 0x200A || n == 0x2028 || n == 0x2029 || n == 0x202F || n == 0x205F || n == 0x3000
  }

  function TrimStart(s: string): string {
    if s != [] && IsSpace(s[0]) then TrimStart(s[1..]) else s
  }

  function TrimEnd(s: string): string {
    if s != [] && IsSpace(s[|s| - 1]) then TrimEnd(s[..|s| - 1]) else s
  }

  function Trim(s: string): string {
    TrimEnd(TrimStart(s))
  }

  function WordEnd(s: string): (n: nat)
    ensures n <= |s|
  {
    if s == [] || IsSpace(s[0]) then 0 else 1 + WordEnd(s[1..])
  }

  function Words(s: string): seq<string>
    decreases |s|
  {
    if s == [] then []
    else if IsSpace(s[0]) then Words(s[1..])
    else [s[..WordEnd(s)]] + Words(s[WordEnd(s)..])
  }

  function SafeWords(s: string): seq<string> {
    Map(Sanitize, Words(s))
  }

  datatype Line = Header(text: string) | Blank | Field(name: string, value: string) | Plain(text: string)

  /** How a line is read. */
  function Read(raw: string): Line {
    var line := Trim(raw);
    if "Link " <= line then Header(line[5..])
    else if line == "Global" || line == "" then Blank
    else if ':' in line then Field(Trim(line[..IndexOf(line, ':')]), Trim(line[IndexOf(line, ':') + 1..]))
    else Plain(line)
  }

  // ----- One section, on its own ---------------------------------------------------------

  datatype Section = Section(
    servers: seq<string>, domains: seq<string>, defaultRoute: Option<bool>, continuation: Option<Kind>)

  const EMPTY: Section := Section([], [], None, None)

  /** Which list a field starts, for the lines that continue it. */
  function ContinuationOf(name: string): Option<Kind> {
    if name == "DNS Servers" then Some(Servers)
    else if name == "DNS Domain" || name == "DNS Domains" then Some(Domains)
    else None
  }

  /** Which list a field adds to. */
  function ListOf(name: string): Option<Kind> {
    if name == "Current DNS Server" then Some(Servers) else ContinuationOf(name)
  }

  function YesNo(value: string): Option<bool> {
    if value == "yes" then Some(true) else if value == "no" then Some(false) else None
  }

  function RouteProtocol(words: seq<string>): Option<bool> {
    if words == [] then None
    else if words[0] == "+DefaultRoute" then Some(true)
    else if words[0] == "-DefaultRoute" then Some(false)
    else RouteProtocol(words[1..])
  }

  function RouteFrom(name: string, value: string, before: Option<bool>): Option<bool> {
    if name == "DefaultRoute setting" || name == "Default Route" then YesNo(value)
    else if name == "Protocols" && before.None? then RouteProtocol(Words(value))
    else before
  }

  function Add(list: seq<string>, words: seq<string>): seq<string> {
    list + FirstOccurrences(list, words)
  }

  function AddTo(s: Section, kind: Option<Kind>, words: seq<string>): Section {
    match kind
    case Some(Servers) => s.(servers := Add(s.servers, words))
    case Some(Domains) => s.(domains := Add(s.domains, words))
    case None => s
  }

  function SectionStep(s: Section, line: Line): Section {
    match line
    case Header(_) => s
    case Blank => s.(continuation := None)
    case Field(name, value) =>
      AddTo(s, ListOf(name), SafeWords(value))
        .(defaultRoute := RouteFrom(name, value, s.defaultRoute), continuation := ContinuationOf(name))
    case Plain(text) => AddTo(s, s.continuation, SafeWords(text))
  }

  function ParseBody(body: seq<string>): Section {
    if body == [] then EMPTY else SectionStep(ParseBody(body[..|body| - 1]), Read(body[|body| - 1]))
  }

  function StripParentheses(s: string): string {
    if s != [] && (s[0] == '(' || s[0] == ')') then StripParentheses(s[1..])
    else if s != [] && (s[|s| - 1] == '(' || s[|s| - 1] == ')') then StripParentheses(s[..|s| - 1])
    else s
  }

  function ParseHeader(text: string): Result<(nat, string), Problem> {
    var n := IndexOf(text, ' ');
    if n == |text| then Err(MalformedHeader)
    else match ParseNumber(text[..n], 0x1_0000_0000)
         case Some(index) => Ok((index, Sanitize(StripParentheses(text[n + 1..]))))
         case None => Err(InvalidIndex)
  }

  function ParseLink(header: string, body: seq<string>): Result<Link, Problem> {
    match ParseHeader(header)
    case Err(problem) => Err(problem)
    case Ok((index, name)) =>
      var s := ParseBody(body);
      Ok(Link(index, name, s.servers, s.domains, s.defaultRoute))
  }

  // ----- Splitting the listing at its headers --------------------------------------------

  datatype Split = Split(preamble: seq<string>, sections: seq<(string, seq<string>)>)

  function SplitLines(lines: seq<string>): Split {
    if lines == [] then Split([], [])
    else SplitNext(SplitLines(lines[..|lines| - 1]), lines[|lines| - 1])
  }

  /** A header opens a section; any other line belongs to the last one, or to the preamble. */
  function SplitNext(split: Split, line: string): Split {
    var n := |split.sections|;
    if Read(line).Header? then split.(sections := split.sections + [(line, [])])
    else if n == 0 then split.(preamble := split.preamble + [line])
    else
      var (header, body) := split.sections[n - 1];
      split.(sections := split.sections[..n - 1] + [(header, body + [line])])
  }

  function ParseLinks(sections: seq<(string, seq<string>)>): Result<seq<Link>, Problem> {
    if sections == [] then Ok([])
    else
      var n := |sections| - 1;
      match ParseLinks(sections[..n])
      case Err(problem) => Err(problem)
      case Ok(links) =>
        var line := Read(sections[n].0);
        match ParseLink(if line.Header? then line.text else "", sections[n].1)
        case Err(problem) => Err(problem)
        case Ok(link) => Ok(links + [link])
  }

  /** Parse the preamble and every section independently. */
  function Sectionwise(lines: seq<string>): Result<Evidence, Problem> {
    var split := SplitLines(lines);
    var globals := ParseBody(split.preamble);
    match ParseLinks(split.sections)
    case Err(problem) => Err(problem)
    case Ok(links) => Ok(Evidence(globals.servers, globals.domains, links))
  }

  // ----- The one pass --------------------------------------------------------------------

  method PushUniqueWords(destination: seq<string>, value: string) returns (pushed: seq<string>)
    ensures pushed == Add(destination, SafeWords(value))
  {
    var items := SafeWords(value);
    pushed := destination;
    for i := 0 to |items|
      invariant pushed == Add(destination, items[..i])
    {
      AddOneMore(destination, items, i);
      if items[i] !in pushed {
        pushed := pushed + [items[i]];
      }
    }
    assert items[..|items|] == items;
  }

  lemma AddOneMore(list: seq<string>, items: seq<string>, i: nat)
    requires i < |items|
    ensures var before := Add(list, items[..i]);
            Add(list, items[..i + 1]) == if items[i] in before then before else before + [items[i]]
  {
    hide FirstOccurrences;
    assert items[..i + 1] == items[..i] + [items[i]];
    FirstOccurrencesNext(list, items[..i], items[i]);
    var kept := FirstOccurrences(list, items[..i]);
    assert list + (kept + [items[i]]) == list + kept + [items[i]];
  }

  lemma {:induction false} NoOccurrences(seen: seq<string>)
    ensures FirstOccurrences(seen, []) == []
  {
  }

  /** The link under construction, as the body read so far determines it. */
  predicate Current(current: Option<Link>, continuation: Option<Kind>, section: (string, seq<string>)) {
    var line := Read(section.0);
    && line.Header? && current.Some? && ParseLink(line.text, section.1) == Ok(current.value)
    && continuation == ParseBody(section.1).continuation
  }

  predicate PassInv(split: Split, servers: seq<string>, domains: seq<string>,
                    links: seq<Link>, current: Option<Link>, continuation: Option<Kind>) {
    && servers == ParseBody(split.preamble).servers && domains == ParseBody(split.preamble).domains
    && if split.sections == [] then
         links == [] && current == None && continuation == ParseBody(split.preamble).continuation
       else
         var n := |split.sections| - 1;
         ParseLinks(split.sections[..n]) == Ok(links) && Current(current, continuation, split.sections[n])
  }

  function Closed(links: seq<Link>, current: Option<Link>): seq<Link> {
    if current.Some? then links + [current.value] else links
  }

  lemma PassInvLinks(split: Split, servers: seq<string>, domains: seq<string>,
                     links: seq<Link>, current: Option<Link>, continuation: Option<Kind>)
    requires PassInv(split, servers, domains, links, current, continuation)
    ensures ParseLinks(split.sections) == Ok(Closed(links, current))
  {
  }

  lemma SplitOneMore(lines: seq<string>, i: nat)
    requires i < |lines|
    ensures SplitLines(lines[..i + 1]) == SplitNext(SplitLines(lines[..i]), lines[i])
  {
    assert lines[..i + 1][..i] == lines[..i];
  }

  /** Read one line of a section: what the pass does to the lists it is filling. */
  method StepSection(s: Section, line: Line) returns (t: Section)
    requires !line.Header?
    ensures t == SectionStep(s, line)
  {
    t := s;
    match line {
      case Blank => t := t.(continuation := None);
      case Field(name, value) =>
        match ListOf(name) {
          case Some(Servers) => var list := PushUniqueWords(t.servers, value); t := t.(servers := list);
          case Some(Domains) => var list := PushUniqueWords(t.domains, value); t := t.(domains := list);
          case None =>
        }
        t := t.(defaultRoute := RouteFrom(name, value, s.defaultRoute), continuation := ContinuationOf(name));
      case Plain(text) =>
        match t.continuation {
          case Some(Servers) => var list := PushUniqueWords(t.servers, text); t := t.(servers := list);
          case Some(Domains) => var list := PushUniqueWords(t.domains, text); t := t.(domains := list);
          case None =>
        }
    }
  }

  /** The lists and the continuation of a section do not depend on its default route. */
  lemma StepIgnoresRoute(s: Section, t: Section, line: Line)
    requires t == s.(defaultRoute := t.defaultRoute)
    ensures SectionStep(t, line).servers == SectionStep(s, line).servers
    ensures SectionStep(t, line).domains == SectionStep(s, line).domains
    ensures SectionStep(t, line).continuation == SectionStep(s, line).continuation
  {
  }

  lemma {:induction false} BodyNext(body: seq<string>, raw: string)
    ensures ParseBody(body + [raw]) == SectionStep(ParseBody(body), Read(raw))
  {
    assert (body + [raw])[..|body|] == body;
  }

  lemma NothingRead()
    ensures PassInv(SplitLines([]), [], [], [], None, None)
  {
  }

  lemma HeaderKeepsInv(split: Split, raw: string, servers: seq<string>, domains: seq<string>,
                       links: seq<Link>, current: Option<Link>, continuation: Option<Kind>, link: Link)
    requires PassInv(split, servers, domains, links, current, continuation)
    requires Read(raw).Header? && ParseHeader(Read(raw).text) == Ok((link.index, link.name))
    requires link.servers == [] && link.domains == [] && link.defaultRoute == None
    ensures PassInv(SplitNext(split, raw), servers, domains, Closed(links, current), Some(link), None)
  {
    hide Read, ParseHeader, ParseLinks;
    PassInvLinks(split, servers, domains, links, current, continuation);
    assert (split.sections + [(raw, [])])[..|split.sections|] == split.sections;
  }

  lemma LinkKeepsInv(split: Split, raw: string, servers: seq<string>, domains: seq<string>,
                     links: seq<Link>, link: Link, continuation: Option<Kind>, s: Section)
    requires PassInv(split, servers, domains, links, Some(link), continuation) && !Read(raw).Header?
    requires s == SectionStep(Section(link.servers, link.domains, link.defaultRoute, continuation), Read(raw))
    ensures PassInv(SplitNext(split, raw), servers, domains, links,
                    Some(link.(servers := s.servers, domains := s.domains, defaultRoute := s.defaultRoute)),
                    s.continuation)
  {
    hide ParseBody, SectionStep, Read, ParseHeader, ParseLinks;
    var n := |split.sections| - 1;
    BodyNext(split.sections[n].1, raw);
    assert SplitNext(split, raw).sections[..n] == split.sections[..n];
  }

  lemma PreambleKeepsInv(split: Split, raw: string, servers: seq<string>, domains: seq<string>,
                         links: seq<Link>, continuation: Option<Kind>, s: Section)
    requires PassInv(split, servers, domains, links, None, continuation) && !Read(raw).Header?
    requires s == SectionStep(Section(servers, domains, None, continuation), Read(raw))
    ensures PassInv(SplitNext(split, raw), s.servers, s.domains, links, None, s.continuation)
  {
    hide ParseBody, SectionStep, Read, ParseLinks;
    BodyNext(split.preamble, raw);
    StepIgnoresRoute(ParseBody(split.preamble), Section(servers, domains, None, continuation), Read(raw));
  }

  lemma {:induction false} ErrorPersists(lines: seq<string>, i: nat, problem: Problem)
    requires i <= |lines| && ParseLinks(SplitLines(lines[..i]).sections) == Err(problem)
    ensures ParseLinks(SplitLines(lines).sections) == Err(problem)
    decreases |lines| - i
  {
    if i < |lines| {
      SplitOneMore(lines, i);
      ErrorStays(SplitLines(lines[..i]).sections, lines[i], problem);
      ErrorPersists(lines, i + 1, problem);
    } else {
      assert lines[..i] == lines;
    }
  }

  /** Neither a further section nor a further line of the last one repairs a failed header. */
  lemma {:induction false} ErrorStays(sections: seq<(string, seq<string>)>, raw: string, problem: Problem)
    requires ParseLinks(sections) == Err(problem)
    ensures ParseLinks(sections + [(raw, [])]) == Err(problem)
    ensures var n := |sections| - 1;
            ParseLinks(sections[..n] + [(sections[n].0, sections[n].1 + [raw])]) == Err(problem)
  {
    hide ParseBody, Read, ParseHeader;
    var n := |sections| - 1;
    assert (sections + [(raw, [])])[..n + 1] == sections;
    var changed := sections[..n] + [(sections[n].0, sections[n].1 + [raw])];
    assert changed[..n] == sections[..n];
  }

  lemma HeaderFails(lines: seq<string>, i: nat, problem: Problem)
    requires i < |lines| && Read(lines[i]).Header? && ParseHeader(Read(lines[i]).text) == Err(problem)
    requires ParseLinks(SplitLines(lines[..i]).sections).Ok?
    ensures Sectionwise(lines) == Err(problem)
  {
    hide ParseBody, Read, ParseHeader;
    SplitOneMore(lines, i);
    var sections := SplitLines(lines[..i]).sections;
    assert (sections + [(lines[i], [])])[..|sections|] == sections;
    ErrorPersists(lines, i + 1, problem);
  }

  /** The single pass over the lines: the result is that of parsing each section on its own. */
  method ParseStatus(lines: seq<string>) returns (evidence: Result<Evidence, Problem>)
    ensures evidence == Sectionwise(lines)
  {
    hide PassInv, SplitNext, SectionStep, Read, ParseHeader;
    var servers: seq<string>, domains: seq<string> := [], [];
    var links: seq<Link> := [];
    var current: Option<Link> := None;
    var continuation: Option<Kind> := None;
    NothingRead();
    for i := 0 to |lines|
      invariant PassInv(SplitLines(lines[..i]), servers, domains, links, current, continuation)
    {
      ghost var split := SplitLines(lines[..i]);
      SplitOneMore(lines, i);
      PassInvLinks(split, servers, domains, links, current, continuation);
      var line := Read(lines[i]);
      if line.Header? {
        var header := ParseHeader(line.text);
        if header.Err? {
          HeaderFails(lines, i, header.error);
          return Err(header.error);
        }
        var link := Link(header.value.0, header.value.1, [], [], None);
        HeaderKeepsInv(split, lines[i], servers, domains, links, current, continuation, link);
        links := Closed(links, current);
        current := Some(link);
        continuation := None;
      } else if current.Some? {
        var link := current.value;
        var s := StepSection(Section(link.servers, link.domains, link.defaultRoute, continuation), line);
        LinkKeepsInv(split, lines[i], servers, domains, links, link, continuation, s);
        current := Some(link.(servers := s.servers, domains := s.domains, defaultRoute := s.defaultRoute));
        continuation := s.continuation;
      } else {
        var s := StepSection(Section(servers, domains, None, continuation), line);
        PreambleKeepsInv(split, lines[i], servers, domains, links, continuation, s);
        servers, domains, continuation := s.servers, s.domains, s.continuation;
      }
    }
    assert lines[..|lines|] == lines;
    PassInvLinks(SplitLines(lines), servers, domains, links, current, continuation);
    PassInvGlobals(SplitLines(lines), servers, domains, links, current, continuation);
    return Ok(Evidence(servers, domains, Closed(links, current)));
  }

  lemma PassInvGlobals(split: Split, servers: seq<string>, domains: seq<string>,
                       links: seq<Link>, current: Option<Link>, continuation: Option<Kind>)
    requires PassInv(split, servers, domains, links, current, continuation)
    ensures servers == ParseBody(split.preamble).servers && domains == ParseBody(split.preamble).domains
  {
  }

  // ----- The split is the one that the headers determine ---------------------------------

  function Glue(sections: seq<(string, seq<string>)>): seq<string> {
    if sections == [] then []
    else
      var n := |sections| - 1;
      Glue(sections[..n]) + ([sections[n].0] + sections[n].1)
  }

  predicate NoHeader(lines: seq<string>) {
    forall line :: line in lines ==> !Read(line).Header?
  }

  /** Nothing is lost or moved, sections begin with their header, and contain no other. */
  lemma {:induction false} SplitIsFaithful(lines: seq<string>)
    ensures var split := SplitLines(lines);
            && lines == split.preamble + Glue(split.sections)
            && NoHeader(split.preamble)
            && forall s :: s in split.sections ==> Read(s.0).Header? && NoHeader(s.1)
  {
    hide Read;
    if lines != [] {
      var n := |lines| - 1;
      SplitIsFaithful(lines[..n]);
      assert lines == lines[..n] + [lines[n]];
      SplitNextIsFaithful(SplitLines(lines[..n]), lines[n]);
    }
  }

  lemma SplitNextIsFaithful(split: Split, line: string)
    requires NoHeader(split.preamble) && forall s :: s in split.sections ==> Read(s.0).Header? && NoHeader(s.1)
    ensures var next := SplitNext(split, line);
            && next.preamble + Glue(next.sections) == split.preamble + Glue(split.sections) + [line]
            && NoHeader(next.preamble)
            && forall s :: s in next.sections ==> Read(s.0).Header? && NoHeader(s.1)
  {
    hide Read;
    var n := |split.sections|;
    var next := SplitNext(split, line);
    if Read(line).Header? {
      assert next.sections[..n] == split.sections;
    } else if n > 0 {
      assert split.sections[n - 1] in split.sections;
      assert next.sections[..n - 1] == split.sections[..n - 1];
    }
  }

  // ----- What ends up in the lists -------------------------------------------------------

  /** The fields after which a plain line continues the list. */
  predicate Opens(name: string, kind: Kind) {
    match kind
    case Servers => name == "DNS Servers"
    case Domains => name == "DNS Domain" || name == "DNS Domains"
  }

  /** The fields whose value belongs to the list. */
  predicate Fills(name: string, kind: Kind) {
    Opens(name, kind) || (kind == Servers && name == "Current DNS Server")
  }

  /** A plain line after `body` continues the list of this kind. */
  predicate ContinuedAfter(body: seq<string>, kind: Kind) {
    if body == [] then false
    else
      var before, line := body[..|body| - 1], Read(body[|body| - 1]);
      if line.Field? then Opens(line.name, kind) else !line.Blank? && ContinuedAfter(before, kind)
  }

  lemma FieldKinds(name: string)
    ensures forall kind :: ListOf(name) == Some(kind) <==> Fills(name, kind)
    ensures forall kind :: ContinuationOf(name) == Some(kind) <==> Opens(name, kind)
  {
  }

  /** The words that the lines of a section give to one of its lists. */
  function Given(kind: Kind, body: seq<string>): seq<string> {
    if body == [] then []
    else
      var before, line := body[..|body| - 1], Read(body[|body| - 1]);
      Given(kind, before) +
      match line
      case Field(name, value) => if Fills(name, kind) then SafeWords(value) else []
      case Plain(text) => if ContinuedAfter(before, kind) then SafeWords(text) else []
      case _ => []
  }

  /** Each list holds the words given to it, once each, in the order of first occurrence. */
  lemma {:induction false} ListsAreFirstOccurrences(body: seq<string>)
    ensures ParseBody(body).servers == FirstOccurrences([], Given(Servers, body))
    ensures ParseBody(body).domains == FirstOccurrences([], Given(Domains, body))
    ensures forall kind :: ParseBody(body).continuation == Some(kind) <==> ContinuedAfter(body, kind)
    decreases |body|
  {
    hide Read, SafeWords, ListOf, ContinuationOf, Fills, Opens, RouteFrom, FirstOccurrences;
    if body == [] {
      NoOccurrences([]);
    } else {
      var before, line := body[..|body| - 1], Read(body[|body| - 1]);
      ListsAreFirstOccurrences(before);
      match line
      case Field(name, value) =>
        FieldKinds(name);
        AddedOccurrences(Given(Servers, before), SafeWords(value));
        AddedOccurrences(Given(Domains, before), SafeWords(value));
      case Plain(text) =>
        AddedOccurrences(Given(Servers, before), SafeWords(text));
        AddedOccurrences(Given(Domains, before), SafeWords(text));
      case _ =>
        AddedOccurrences(Given(Servers, before), []);
        AddedOccurrences(Given(Domains, before), []);
    }
  }

  lemma {:induction false} AddedOccurrences(given: seq<string>, words: seq<string>)
    ensures Add(FirstOccurrences([], given), words) == FirstOccurrences([], given + words)
    ensures given + [] == given
  {
    FirstOccurrencesConcat([], given, words);
    assert [] + FirstOccurrences([], given) == FirstOccurrences([], given);
  }

  lemma {:induction false} ListsAreDistinct(body: seq<string>)
    ensures Distinct(ParseBody(body).servers) && Distinct(ParseBody(body).domains)
  {
    ListsAreFirstOccurrences(body);
    FirstOccurrencesDistinct([], Given(Servers, body));
    FirstOccurrencesDistinct([], Given(Domains, body));
  }

  // ----- Which continuation lines are kept -----------------------------------------------

  /** How much visible text a string amounts to, once it is sanitized. */
  function Weight(s: string): nat {
    if s == [] then 0 else (if IsSpace(s[0]) then 0 else |Sanitize([s[0]])|) + Weight(s[1..])
  }

  function TotalLength(words: seq<string>): nat {
    if words == [] then 0 else |words[0]| + TotalLength(words[1..])
  }

  lemma {:induction false} WeightConcat(a: string, b: string)
    ensures Weight(a + b) == Weight(a) + Weight(b)
  {
    hide Sanitize;
    if a == [] {
      assert a + b == b;
    } else {
      assert (a + b)[1..] == a[1..] + b;
      WeightConcat(a[1..], b);
    }
  }

  lemma {:induction false} SanitizeFirst(s: string)
    requires s != []
    ensures Sanitize(s) == Sanitize([s[0]]) + Sanitize(s[1..])
  {
    assert [s[0]][1..] == [];
    assert Sanitize([]) == [];
  }

  lemma {:induction false} WordWeighs(w: string)
    requires forall c :: c in w ==> !IsSpace(c)
    ensures |Sanitize(w)| == Weight(w)
  {
    hide IsSpace;
    if w != [] {
      SanitizeFirst(w);
      WordWeighs(w[1..]);
      assert w[0] in w;
    }
  }

  lemma {:induction false} WordHasNoSpace(s: string)
    ensures forall c :: c in s[..WordEnd(s)] ==> !IsSpace(c)
    ensures s != [] && !IsSpace(s[0]) ==> WordEnd(s) > 0
  {
    hide IsSpace;
    if s != [] && !IsSpace(s[0]) {
      WordHasNoSpace(s[1..]);
      var n := WordEnd(s[1..]);
      assert s[..n + 1] == [s[0]] + s[1..][..n];
    }
  }

  /** Splitting into words loses no visible text. */
  lemma {:induction false} WordsWeigh(s: string)
    ensures TotalLength(SafeWords(s)) == Weight(s)
    decreases |s|
  {
    hide IsSpace, Sanitize;
    if s == [] {
    } else if IsSpace(s[0]) {
      WordsWeigh(s[1..]);
    } else {
      var n := WordEnd(s);
      WordHasNoSpace(s);
      WordWeighs(s[..n]);
      WordsWeigh(s[n..]);
      WeightConcat(s[..n], s[n..]);
      assert s == s[..n] + s[n..];
      assert SafeWords(s)[1..] == SafeWords(s[n..]);
    }
  }

  lemma {:induction false} TrimStartWeighs(s: string)
    ensures Weight(TrimStart(s)) == Weight(s)
  {
    hide IsSpace, Sanitize;
    if s != [] && IsSpace(s[0]) { TrimStartWeighs(s[1..]); }
  }

  lemma {:induction false} TrimEndWeighs(s: string)
    ensures Weight(TrimEnd(s)) == Weight(s)
  {
    hide IsSpace, Sanitize;
    if s != [] && IsSpace(s[|s| - 1]) {
      var front, last := s[..|s| - 1], [s[|s| - 1]];
      TrimEndWeighs(front);
      assert s == front + last;
      WeightConcat(front, last);
      assert Weight(last) == Weight(last[1..]) == 0;
    }
  }

  lemma {:induction false} TrimWeighs(s: string)
    ensures Weight(Trim(s)) == Weight(s)
  {
    TrimStartWeighs(s);
    TrimEndWeighs(TrimStart(s));
  }

  /** What stands after a colon has less visible text than the whole line. */
  lemma ColonOutweighs(line: string)
    requires ':' in line
    ensures IndexOf(line, ':') < |line| && Weight(Trim(line[IndexOf(line, ':') + 1..])) < Weight(line)
  {
    hide IsSpace, Sanitize, Trim;
    var i := IndexOf(line, ':');
    assert line[..|line|] == line;
    TrimWeighs(line[i + 1..]);
    assert line == line[..i] + ([':'] + line[i + 1..]);
    WeightConcat(line[..i], [':'] + line[i + 1..]);
    ColonWeighs(line[i + 1..]);
  }

  lemma {:induction false} ColonWeighs(after: string)
    ensures Weight([':'] + after) == 1 + Weight(after)
  {
    assert ([':'] + after)[1..] == after;
    assert !IsSpace(':');
    assert Sanitize([':']) == [':'] + Sanitize([]);
  }

  /** The words of the line join the list, and further lines continue it. */
  predicate Kept(kind: Kind, body: seq<string>, raw: string) {
    && Given(kind, body + [raw]) == Given(kind, body) + SafeWords(Trim(raw))
    && ContinuedAfter(body + [raw], kind)
  }

  lemma {:induction false} LineGives(kind: Kind, body: seq<string>, raw: string)
    requires ContinuedAfter(body, kind) && (Read(raw).Field? || Read(raw).Plain?)
    ensures Read(raw).Plain? ==> Given(kind, body + [raw]) == Given(kind, body) + SafeWords(Trim(raw))
    ensures Read(raw).Field? ==>
              Given(kind, body + [raw]) ==
              Given(kind, body) + if Fills(Read(raw).name, kind) then SafeWords(Read(raw).value) else []
    ensures Read(raw).Plain? ==> ContinuedAfter(body + [raw], kind)
  {
    hide SafeWords;
    assert (body + [raw])[..|body|] == body;
  }

  /** A line where a list goes on is kept exactly when there is no colon in it. */
  lemma {:induction false} ContinuationKeptIff(kind: Kind, body: seq<string>, raw: string)
    requires ContinuedAfter(body, kind)
    requires !Read(raw).Header? && !Read(raw).Blank?
    ensures Kept(kind, body, raw) <==> ':' !in Trim(raw)
  {
    hide SafeWords, Given, ContinuedAfter, Trim, Weight;
    var line := Trim(raw);
    LineGives(kind, body, raw);
    if ':' in line {
      ColonOutweighs(line);
      var value := Trim(line[IndexOf(line, ':') + 1..]);
      WordsWeigh(value);
      WordsWeigh(line);
      assert SafeWords(line) != SafeWords(value) && SafeWords(line) != [];
      var given := Given(kind, body);
      forall words | given + words == given + SafeWords(line) ensures words == SafeWords(line) {
        assert words == (given + words)[|given|..];
        assert SafeWords(line) == (given + SafeWords(line))[|given|..];
      }
    }
  }

  /** An IPv6 server on a line of its own is taken for a field of that name, and dropped. */
  lemma {:induction false} Ipv6ServerIsDropped(body: seq<string>)
    requires ContinuedAfter(body, Servers)
    ensures var after := body + ["2001:db8::1"];
            && Given(Servers, after) == Given(Servers, body) && Given(Domains, after) == Given(Domains, body)
            && !ContinuedAfter(after, Servers) && !ContinuedAfter(after, Domains)
            && !Kept(Servers, body, "2001:db8::1")
  {
    hide Read, Trim, Opens, Fills, SafeWords;
    var raw := "2001:db8::1";
    assert (body + [raw])[..|body|] == body;
    Ipv6LineIsField();
    DigitsNameNoList("2001");
    ContinuationKeptIff(Servers, body, raw);
  }

  lemma DigitsNameNoList(name: string)
    requires name != "" && IsDigit(name[0])
    ensures forall kind :: !Opens(name, kind) && !Fills(name, kind)
  {
  }

  lemma TrimKeeps(s: string)
    requires s != [] && !IsSpace(s[0]) && !IsSpace(s[|s| - 1])
    ensures Trim(s) == s
  {
  }

  /** A line that begins with a name and a colon, and cannot be a header, is a field of that name. */
  lemma FieldLine(name: string, after: string)
    requires name != [] && !IsSpace(name[0]) && !IsSpace(name[|name| - 1]) && ':' !in name && name[0] != 'L'
    requires after != [] && !IsSpace(after[|after| - 1])
    ensures Trim(name + ":" + after) == name + ":" + after
    ensures Read(name + ":" + after) == Field(name, Trim(after))
  {
    hide Trim, IndexOf, IsSpace;
    var line := name + [':'] + after;
    assert name + ":" + after == line && line[|line| - 1] == after[|after| - 1];
    TrimKeeps(line);
    TrimKeeps(name);
    IndexOfSplit(name, ':', after);
    assert line[0] == name[0] && line[|name|] == ':';
    assert line[..|name|] == name && line[|name| + 1..] == after;
    assert "Link "[0] == 'L' && "Global"[0] == 'G';
  }

  lemma Ipv6LineIsField()
    ensures Read("2001:db8::1").Field? && Read("2001:db8::1").name == "2001" && ':' in Trim("2001:db8::1")
  {
    hide Read, Trim;
    assert "2001" + ":" + "db8::1" == "2001:db8::1";
    FieldLine("2001", "db8::1");
    assert "2001:db8::1"[4] == ':';
  }

  /** Such a body exists. */
  lemma ServersGoOn()
    ensures ContinuedAfter(["DNS Servers: 192.0.2.1"], Servers)
  {
    hide Read;
    assert "DNS Servers" + ":" + " 192.0.2.1" == "DNS Servers: 192.0.2.1";
    FieldLine("DNS Servers", " 192.0.2.1");
  }
}
