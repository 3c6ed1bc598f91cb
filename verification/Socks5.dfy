/** The SOCKS5 client, and the server side of RFC 1928 and RFC 1929 that it talks to. */
module Socks5 {
  import opened Wrappers
  import opened Bytes
  import opened Evidence

  const VERSION: Byte := 5
  const NO_AUTHENTICATION: Byte := 0
  const USERNAME_PASSWORD: Byte := 2
  const ATYP_V4: Byte := 1
  const ATYP_HOST: Byte := 3
  const ATYP_V6: Byte := 4

  datatype Failure =
    | ClosedEarly | MethodRejected | UsernameTooLong | PasswordTooLong | AuthenticationFailed
    | HostTooLong | FamilyExcluded | NoLocalAddress | Refused(code: Byte) | InvalidAddressType

  datatype Credentials = Credentials(username: seq<Byte>, password: seq<Byte>)

  /** An address as it travels: a host name, or the octets of an IPv4 or IPv6 address. */
  datatype Destination = Host(name: seq<Byte>) | Octets4(octets: seq<Byte>) | Octets6(octets: seq<Byte>)

  predicate Fits(d: Destination) {
    match d
    case Host(name) => |name| < 256
    case Octets4(octets) => |octets| == 4
    case Octets6(octets) => |octets| == 16
  }

  function Length(s: seq<Byte>): Byte
    requires |s| < 256
  {
    |s|
  }

  type Port = p: int | 0 <= p < 0x1_0000

  function PortBytes(port: Port): seq<Byte> {
    [port / 256, port % 256]
  }

  function PortOf(high: Byte, low: Byte): Port {
    high as int * 256 + low as int
  }

  // ----- What the client sends -----------------------------------------------------------

  function MethodFor(credentials: Option<Credentials>): Byte {
    if credentials.Some? then USERNAME_PASSWORD else NO_AUTHENTICATION
  }

  function Greeting(offered: Byte): seq<Byte> {
    [VERSION, 1, offered]
  }

  function Login(c: Credentials): seq<Byte>
    requires |c.username| < 256 && |c.password| < 256
  {
    [1, Length(c.username)] + (c.username + ([Length(c.password)] + c.password))
  }

  function AddressBytes(d: Destination): seq<Byte>
    requires Fits(d)
  {
    match d
    case Host(name) => [ATYP_HOST, Length(name)] + name
    case Octets4(octets) => [ATYP_V4] + octets
    case Octets6(octets) => [ATYP_V6] + octets
  }

  function Request(d: Destination, port: Port): seq<Byte>
    requires Fits(d)
  {
    [VERSION, 1, 0] + (AddressBytes(d) + PortBytes(port))
  }

  /** Big-endian octets of an address value. */
  function OctetsOf(value: nat, count: nat): (octets: seq<Byte>)
    ensures |octets| == count
  {
    if count == 0 then [] else OctetsOf(value / 256, count - 1) + [value % 256]
  }

  function ValueOf(octets: seq<Byte>): nat {
    if octets == [] then 0 else 256 * ValueOf(octets[..|octets| - 1]) + octets[|octets| - 1]
  }

  function FromIp(ip: Ip): Destination {
    match ip
    case V4(bits) => Octets4(OctetsOf(bits, 4))
    case V6(bits) => Octets6(OctetsOf(bits, 16))
  }

  datatype FamilySelection = AnyFamily | OnlyIpv4 | OnlyIpv6

  predicate Allows(selection: FamilySelection, ip: Ip) {
    selection == AnyFamily || (selection == OnlyIpv4 && ip.V4?) || (selection == OnlyIpv6 && ip.V6?)
  }

  function FirstAllowed(selection: FamilySelection, ips: seq<Ip>): Option<Ip> {
    if ips == [] then None
    else if Allows(selection, ips[0]) then Some(ips[0])
    else FirstAllowed(selection, ips[1..])
  }

  /** `socks5` resolves the target here, `socks5h` sends its name. */
  function Choose(resolveLocally: bool, host: seq<Byte>, literal: Option<Ip>, resolved: seq<Ip>,
                  selection: FamilySelection): (d: Result<Destination, Failure>)
    ensures d.Ok? ==> Fits(d.value)
  {
    if !resolveLocally then if |host| < 256 then Ok(Host(host)) else Err(HostTooLong)
    else if literal.Some? then
      if Allows(selection, literal.value) then Ok(FromIp(literal.value)) else Err(FamilyExcluded)
    else match FirstAllowed(selection, resolved)
         case Some(ip) => Ok(FromIp(ip))
         case None => Err(NoLocalAddress)
  }

  /** An address is of the family that was asked for, if one was. */
  predicate OfFamily(selection: FamilySelection, ip: Ip) {
    (selection == OnlyIpv4 ==> ip.V4?) && (selection == OnlyIpv6 ==> ip.V6?)
  }

  /** The address at `i` is of the family, and none before it is. */
  predicate IsFirstOfFamily(selection: FamilySelection, ips: seq<Ip>, i: nat)
    requires i < |ips|
  {
    OfFamily(selection, ips[i]) && forall j :: 0 <= j < i ==> !OfFamily(selection, ips[j])
  }

  lemma AllowsOfFamily(selection: FamilySelection, ip: Ip)
    ensures Allows(selection, ip) <==> OfFamily(selection, ip)
  {
  }

  lemma {:induction false} FirstAllowedIs(selection: FamilySelection, ips: seq<Ip>)
    ensures match FirstAllowed(selection, ips)
            case Some(ip) => exists i :: 0 <= i < |ips| && IsFirstOfFamily(selection, ips, i) && ips[i] == ip
            case None => forall ip :: ip in ips ==> !OfFamily(selection, ip)
  {
    hide Allows, OfFamily;
    if ips != [] {
      AllowsOfFamily(selection, ips[0]);
      if OfFamily(selection, ips[0]) {
        assert IsFirstOfFamily(selection, ips, 0);
      } else {
        var rest := ips[1..];
        FirstAllowedIs(selection, rest);
        if FirstAllowed(selection, rest).Some? {
          var i :| 0 <= i < |rest| && IsFirstOfFamily(selection, rest, i)
                   && rest[i] == FirstAllowed(selection, rest).value;
          assert forall j :: 1 <= j < i + 1 ==> ips[j] == rest[j - 1];
          assert IsFirstOfFamily(selection, ips, i + 1);
        }
      }
    }
  }

  predicate InRange(ip: Ip) {
    match ip
    case V4(bits) => bits < 0x1_0000_0000
    case V6(bits) => bits < 0x1_0000_0000_0000_0000_0000_0000_0000_0000
  }

  /** Four or sixteen octets whose big-endian value is the address. */
  predicate Carries(d: Destination, ip: Ip) {
    match ip
    case V4(bits) => d.Octets4? && |d.octets| == 4 && ValueOf(d.octets) == bits
    case V6(bits) => d.Octets6? && |d.octets| == 16 && ValueOf(d.octets) == bits
  }

  lemma {:induction false} OctetsRoundTrip(value: nat, count: nat, bound: nat)
    requires bound == Pow256(count) && value < bound
    ensures ValueOf(OctetsOf(value, count)) == value
  {
    if count > 0 {
      OctetsRoundTrip(value / 256, count - 1, Pow256(count - 1));
      assert OctetsOf(value, count)[..count - 1] == OctetsOf(value / 256, count - 1);
    }
  }

  function Pow256(n: nat): nat {
    if n == 0 then 1 else 256 * Pow256(n - 1)
  }

  lemma PowersOf256()
    ensures Pow256(4) == 0x1_0000_0000 && Pow256(16) == 0x1_0000_0000_0000_0000_0000_0000_0000_0000
  {
    assert Pow256(8) == 0x1_0000_0000_0000_0000;
    assert Pow256(12) == 0x1_0000_0000_0000_0000_0000_0000;
  }

  lemma AddressIsCarried(ip: Ip)
    requires InRange(ip)
    ensures Carries(FromIp(ip), ip)
  {
    hide OctetsOf, ValueOf, Pow256;
    PowersOf256();
    OctetsRoundTrip(ip.bits, if ip.V4? then 4 else 16, Pow256(if ip.V4? then 4 else 16));
  }

  /** The address that a locally resolved target stands for. */
  ghost predicate Selects(literal: Option<Ip>, resolved: seq<Ip>, selection: FamilySelection, ip: Ip) {
    if literal.Some? then ip == literal.value && OfFamily(selection, ip)
    else exists i :: 0 <= i < |resolved| && IsFirstOfFamily(selection, resolved, i) && ip == resolved[i]
  }

  /**
    * A locally resolved destination carries the value of the literal, or of the first resolved address of an
    * allowed family; it is missing only when the literal or every resolved address is of the other family.
    */
  lemma ChosenAddressIsSent(host: seq<Byte>, literal: Option<Ip>, resolved: seq<Ip>, selection: FamilySelection)
    requires literal.Some? ==> InRange(literal.value)
    requires forall ip :: ip in resolved ==> InRange(ip)
    ensures match Choose(true, host, literal, resolved, selection)
            case Ok(d) => exists ip :: Selects(literal, resolved, selection, ip) && Carries(d, ip)
            case Err(FamilyExcluded) => literal.Some? && !OfFamily(selection, literal.value)
            case Err(error) =>
              error == NoLocalAddress && literal.None? && forall ip :: ip in resolved ==> !OfFamily(selection, ip)
  {
    hide FromIp, Allows, Carries, OfFamily;
    match literal
    case Some(ip) =>
      AllowsOfFamily(selection, ip);
      AddressIsCarried(ip);
      assert OfFamily(selection, ip) ==> Selects(literal, resolved, selection, ip);
    case None =>
      FirstAllowedIs(selection, resolved);
      match FirstAllowed(selection, resolved)
      case Some(ip) =>
        assert Selects(literal, resolved, selection, ip) && ip in resolved;
        AddressIsCarried(ip);
      case None =>
  }

  // ----- What the client reads -----------------------------------------------------------

  /** The outcome of a phase: success or failure, the bytes sent, the bytes left unread. */
  datatype Phase = Phase(outcome: Result<(), Failure>, sent: seq<Byte>, unread: seq<Byte>)

  function AuthenticatePhase(credentials: Option<Credentials>, input: seq<Byte>): Phase {
    var m := MethodFor(credentials);
    var greeting := Greeting(m);
    if |input| < 2 then Phase(Err(ClosedEarly), greeting, [])
    else if input[..2] != [VERSION, m] then Phase(Err(MethodRejected), greeting, input[2..])
    else match credentials
         case None => Phase(Ok(()), greeting, input[2..])
         case Some(c) =>
           if |c.username| >= 256 then Phase(Err(UsernameTooLong), greeting, input[2..])
           else if |c.password| >= 256 then Phase(Err(PasswordTooLong), greeting, input[2..])
           else
             var sent, rest := greeting + Login(c), input[2..];
             if |rest| < 2 then Phase(Err(ClosedEarly), sent, [])
             else if rest[..2] != [1, 0] then Phase(Err(AuthenticationFailed), sent, rest[2..])
             else Phase(Ok(()), sent, rest[2..])
  }

  /** Read one reply; nothing is sent. */
  function ReplyPhase(input: seq<Byte>): Phase {
    if |input| < 4 then Phase(Err(ClosedEarly), [], [])
    else if input[0] != VERSION || input[1] != 0 then Phase(Err(Refused(input[1])), [], input[4..])
    else
      var rest := input[4..];
      match input[3]
      case 1 => Skip(rest, 4 + 2)
      case 4 => Skip(rest, 16 + 2)
      case 3 => if rest == [] then Phase(Err(ClosedEarly), [], []) else Skip(rest[1..], rest[0] as int + 2)
      case _ => Phase(Err(InvalidAddressType), [], rest)
  }

  function Skip(input: seq<Byte>, count: nat): Phase {
    if |input| < count then Phase(Err(ClosedEarly), [], []) else Phase(Ok(()), [], input[count..])
  }

  function Connect(credentials: Option<Credentials>, destination: Result<Destination, Failure>, port: Port,
                   input: seq<Byte>): Phase
    requires destination.Ok? ==> Fits(destination.value)
  {
    var auth := AuthenticatePhase(credentials, input);
    if auth.outcome.Err? then auth
    else if destination.Err? then Phase(Err(destination.error), auth.sent, auth.unread)
    else
      var reply := ReplyPhase(auth.unread);
      Phase(reply.outcome, auth.sent + Request(destination.value, port), reply.unread)
  }

  class Stream {
    var incoming: seq<Byte>
    var outgoing: seq<Byte>

    constructor (input: seq<Byte>)
      ensures incoming == input && outgoing == []
    {
      incoming := input;
      outgoing := [];
    }

    method WriteAll(bytes: seq<Byte>)
      modifies this`outgoing
      ensures outgoing == old(outgoing) + bytes
    {
      outgoing := outgoing + bytes;
    }

    method ReadExact(count: nat) returns (bytes: Option<seq<Byte>>)
      modifies this`incoming
      ensures |old(incoming)| >= count ==> bytes == Some(old(incoming)[..count]) && incoming == old(incoming)[count..]
      ensures |old(incoming)| < count ==> bytes == None && incoming == []
    {
      if |incoming| < count {
        incoming := [];
        return None;
      }
      bytes := Some(incoming[..count]);
      incoming := incoming[count..];
    }

    method Authenticate(credentials: Option<Credentials>) returns (outcome: Result<(), Failure>)
      modifies this
      ensures var p := AuthenticatePhase(credentials, old(incoming));
              outcome == p.outcome && incoming == p.unread && outgoing == old(outgoing) + p.sent
    {
      var m := MethodFor(credentials);
      WriteAll([VERSION, 1, m]);
      var greeting := ReadExact(2);
      if greeting.None? { return Err(ClosedEarly); }
      if greeting.value != [VERSION, m] { return Err(MethodRejected); }
      if credentials.None? { return Ok(()); }
      var c := credentials.value;
      if |c.username| >= 256 { return Err(UsernameTooLong); }
      if |c.password| >= 256 { return Err(PasswordTooLong); }
      var request := [1, Length(c.username)];
      request := request + c.username;
      request := request + [Length(c.password)];
      request := request + c.password;
      assert request == Login(c);
      assert old(outgoing) + Greeting(m) + request == old(outgoing) + (Greeting(m) + request);
      WriteAll(request);
      var response := ReadExact(2);
      if response.None? { return Err(ClosedEarly); }
      if response.value != [1, 0] { return Err(AuthenticationFailed); }
      return Ok(());
    }

    method ReadResponse() returns (outcome: Result<(), Failure>)
      modifies this`incoming
      ensures outcome == ReplyPhase(old(incoming)).outcome && incoming == ReplyPhase(old(incoming)).unread
    {
      var header := ReadExact(4);
      if header.None? { return Err(ClosedEarly); }
      var h := header.value;
      if h[0] != VERSION || h[1] != 0 { return Err(Refused(h[1])); }
      var addressBytes: nat;
      if h[3] == ATYP_V4 {
        addressBytes := 4;
      } else if h[3] == ATYP_V6 {
        addressBytes := 16;
      } else if h[3] == ATYP_HOST {
        var length := ReadExact(1);
        if length.None? { return Err(ClosedEarly); }
        addressBytes := length.value[0];
      } else {
        return Err(InvalidAddressType);
      }
      var remainder := ReadExact(addressBytes + 2);
      if remainder.None? { return Err(ClosedEarly); }
      return Ok(());
    }

    method Socks5Connect(credentials: Option<Credentials>, destination: Result<Destination, Failure>, port: Port)
      returns (outcome: Result<(), Failure>)
      requires destination.Ok? ==> Fits(destination.value)
      modifies this
      ensures var p := Connect(credentials, destination, port, old(incoming));
              outcome == p.outcome && incoming == p.unread && outgoing == old(outgoing) + p.sent
    {
      hide AuthenticatePhase, ReplyPhase, Request;
      ghost var before, auth := outgoing, AuthenticatePhase(credentials, incoming);
      outcome := Authenticate(credentials);
      if outcome.Err? { return; }
      if destination.Err? { return Err(destination.error); }
      var request := Request(destination.value, port);
      WriteAll(request);
      assert before + auth.sent + request == before + (auth.sent + request);
      outcome := ReadResponse();
    }
  }

  // ----- The reference server ------------------------------------------------------------

  /** RFC 1928 section 3: version, number of methods, the methods. */
  function ParseGreeting(bytes: seq<Byte>): Option<(seq<Byte>, seq<Byte>)> {
    if |bytes| < 2 || bytes[0] != 5 || |bytes| < 2 + bytes[1] as int then None
    else
      var end := 2 + bytes[1] as int;
      Some((bytes[2..end], bytes[end..]))
  }

  /** A length octet and as many bytes. */
  function ParseShort(bytes: seq<Byte>): Option<(seq<Byte>, seq<Byte>)> {
    if bytes == [] || |bytes| < 1 + bytes[0] as int then None
    else
      var end := 1 + bytes[0] as int;
      Some((bytes[1..end], bytes[end..]))
  }

  /** RFC 1929 section 2: version 1, then user name and password, each of 1 to 255 octets after its length. */
  function ParseLogin(bytes: seq<Byte>): Option<(Credentials, seq<Byte>)> {
    if bytes == [] || bytes[0] != 1 then None
    else match ParseShort(bytes[1..])
         case None => None
         case Some((user, rest)) =>
           match ParseShort(rest)
           case None => None
           case Some((password, after)) =>
             if user == [] || password == [] then None else Some((Credentials(user, password), after))
  }

  /** RFC 1928 section 5: an address by its type. */
  function ParseAddress(bytes: seq<Byte>): Option<(Destination, seq<Byte>)> {
    if bytes == [] then None
    else if bytes[0] == 1 then
      if |bytes| < 5 then None else Some((Octets4(bytes[1..5]), bytes[5..]))
    else if bytes[0] == 4 then
      if |bytes| < 17 then None else Some((Octets6(bytes[1..17]), bytes[17..]))
    else if bytes[0] == 3 then
      match ParseShort(bytes[1..])
      case None => None
      case Some((name, rest)) => Some((Host(name), rest))
    else None
  }

  /** RFC 1928 section 4: a CONNECT request with its destination and port. */
  function ParseRequest(bytes: seq<Byte>): Option<(Destination, Port, seq<Byte>)> {
    if |bytes| < 3 || bytes[..3] != [5, 1, 0] then None
    else match ParseAddress(bytes[3..])
         case None => None
         case Some((d, rest)) =>
           if |rest| < 2 then None else Some((d, PortOf(rest[0], rest[1]), rest[2..]))
  }

  datatype Session = Session(credentials: Option<Credentials>, destination: Destination, port: Port)

  /** Everything the client said, if it is exactly one well-formed dialogue. */
  function Overhear(bytes: seq<Byte>): Option<Session> {
    match ParseGreeting(bytes)
    case None => None
    case Some((methods, rest)) =>
      if methods == [0] then
        match ParseRequest(rest)
        case Some((d, port, after)) => if after == [] then Some(Session(None, d, port)) else None
        case None => None
      else if methods == [2] then
        match ParseLogin(rest)
        case None => None
        case Some((c, after)) =>
          (match ParseRequest(after)
           case Some((d, port, end)) => if end == [] then Some(Session(Some(c), d, port)) else None
           case None => None)
      else None
  }

  /** RFC 1928 section 6: a success reply with a bound address of any type. */
  datatype Reply = Reply(reserved: Byte, bound: Destination, port: Port)

  function SuccessReply(r: Reply): seq<Byte>
    requires Fits(r.bound)
  {
    [VERSION, 0, r.reserved] + (AddressBytes(r.bound) + PortBytes(r.port))
  }

  /** What a willing server writes before its reply. */
  function Acceptance(credentials: Option<Credentials>): seq<Byte> {
    [VERSION, MethodFor(credentials)] + if credentials.Some? then [1, 0] else []
  }

  predicate Presentable(credentials: Option<Credentials>) {
    credentials.Some? ==> |credentials.value.username| < 256 && |credentials.value.password| < 256
  }

  /** Credentials that RFC 1929 can carry; the client also sends empty fields. */
  predicate Conforming(credentials: Option<Credentials>) {
    credentials.Some? ==> credentials.value.username != [] && credentials.value.password != []
  }

  // ----- Each message decodes to what was meant, whatever follows it ---------------------

  lemma GreetingDecodes(m: Byte, rest: seq<Byte>)
    ensures ParseGreeting(Greeting(m) + rest) == Some(([m], rest))
  {
  }

  lemma ShortDecodes(s: seq<Byte>, rest: seq<Byte>)
    requires |s| < 256
    ensures ParseShort([Length(s)] + (s + rest)) == Some((s, rest))
  {
    var bytes := [Length(s)] + (s + rest);
    assert bytes[1..1 + |s|] == s && bytes[1 + |s|..] == rest;
  }

  /** A server reads the login back exactly when neither field is empty, and nothing at all otherwise. */
  lemma LoginDecodes(c: Credentials, rest: seq<Byte>)
    requires |c.username| < 256 && |c.password| < 256
    ensures ParseLogin(Login(c) + rest) == if Conforming(Some(c)) then Some((c, rest)) else None
  {
    var password := [Length(c.password)] + (c.password + rest);
    assert (Login(c) + rest)[1..] == [Length(c.username)] + (c.username + password);
    ShortDecodes(c.username, password);
    ShortDecodes(c.password, rest);
  }

  lemma AddressDecodes(d: Destination, rest: seq<Byte>)
    requires Fits(d)
    ensures ParseAddress(AddressBytes(d) + rest) == Some((d, rest))
  {
    if d.Host? {
      assert (AddressBytes(d) + rest)[1..] == [Length(d.name)] + (d.name + rest);
      ShortDecodes(d.name, rest);
    }
  }

  lemma RequestDecodes(d: Destination, port: Port, rest: seq<Byte>)
    requires Fits(d)
    ensures ParseRequest(Request(d, port) + rest) == Some((d, port, rest))
  {
    hide AddressBytes, ParseAddress;
    var address, after := AddressBytes(d), PortBytes(port) + rest;
    var bytes := [VERSION, 1, 0] + (address + after);
    assert Request(d, port) + rest == bytes;
    assert bytes[..3] == [5, 1, 0] && bytes[3..] == address + after;
    AddressDecodes(d, after);
    assert after[2..] == rest;
  }

  lemma DialogueDecodes(credentials: Option<Credentials>, d: Destination, port: Port)
    requires Presentable(credentials) && Fits(d)
    ensures var login := if credentials.Some? then Login(credentials.value) else [];
            Overhear(Greeting(MethodFor(credentials)) + login + Request(d, port)) ==
            if Conforming(credentials) then Some(Session(credentials, d, port)) else None
  {
    var m := MethodFor(credentials);
    var request := Request(d, port);
    RequestDecodes(d, port, []);
    assert request + [] == request;
    if credentials.Some? {
      var login := Login(credentials.value);
      assert Greeting(m) + login + request == Greeting(m) + (login + request);
      GreetingDecodes(m, login + request);
      LoginDecodes(credentials.value, request);
    } else {
      assert Greeting(m) + [] + request == Greeting(m) + request;
      GreetingDecodes(m, request);
    }
  }

  // ----- The client stays in step --------------------------------------------------------

  lemma ReplyConsumed(r: Reply, tail: seq<Byte>)
    requires Fits(r.bound)
    ensures ReplyPhase(SuccessReply(r) + tail) == Phase(Ok(()), [], tail)
  {
    var input := SuccessReply(r) + tail;
    var rest := input[4..];
    match r.bound
    case Host(name) =>
      assert rest[0] == Length(name) && rest[1..] == name + PortBytes(r.port) + tail;
      assert rest[1..][|name| + 2..] == tail;
    case Octets4(octets) =>
      assert rest == octets + PortBytes(r.port) + tail && rest[6..] == tail;
    case Octets6(octets) =>
      assert rest == octets + PortBytes(r.port) + tail && rest[18..] == tail;
  }

  lemma AcceptanceConsumed(credentials: Option<Credentials>, tail: seq<Byte>)
    requires Presentable(credentials)
    ensures var login := if credentials.Some? then Login(credentials.value) else [];
            AuthenticatePhase(credentials, Acceptance(credentials) + tail)
            == Phase(Ok(()), Greeting(MethodFor(credentials)) + login, tail)
  {
    var input, m := Acceptance(credentials) + tail, MethodFor(credentials);
    assert input[..2] == [VERSION, m];
    if credentials.Some? {
      assert input[2..][..2] == [1, 0] && input[2..][2..] == tail;
    } else {
      assert input[2..] == tail;
      assert Greeting(m) + [] == Greeting(m);
    }
  }

  /**
    * Against a willing server the client succeeds and leaves every byte after the reply unread. A server
    * of the RFCs has then read exactly its credentials, destination and port, provided no field is empty.
    */
  lemma StaysInStep(credentials: Option<Credentials>, d: Destination, port: Port, r: Reply, tail: seq<Byte>)
    requires Presentable(credentials) && Fits(d) && Fits(r.bound)
    ensures var p := Connect(credentials, Ok(d), port, Acceptance(credentials) + (SuccessReply(r) + tail));
            && p.outcome == Ok(()) && p.unread == tail
            && Overhear(p.sent) == if Conforming(credentials) then Some(Session(credentials, d, port)) else None
  {
    AcceptanceConsumed(credentials, SuccessReply(r) + tail);
    ReplyConsumed(r, tail);
    DialogueDecodes(credentials, d, port);
  }

  /** So a server that is told the target by its address reads the value of the address selected here. */
  lemma ServerReadsAddress(credentials: Option<Credentials>, host: seq<Byte>, literal: Option<Ip>, resolved: seq<Ip>,
                           selection: FamilySelection, port: Port, r: Reply, tail: seq<Byte>)
    requires Presentable(credentials) && Conforming(credentials) && Fits(r.bound)
    requires (literal.Some? ==> InRange(literal.value)) && forall ip :: ip in resolved ==> InRange(ip)
    requires Choose(true, host, literal, resolved, selection).Ok?
    ensures var p := Connect(credentials, Choose(true, host, literal, resolved, selection), port,
                             Acceptance(credentials) + (SuccessReply(r) + tail));
            && p.outcome == Ok(()) && Overhear(p.sent).Some?
            && var heard := Overhear(p.sent).value;
               && heard.credentials == credentials && heard.port == port
               && exists ip :: Selects(literal, resolved, selection, ip) && Carries(heard.destination, ip)
  {
    hide Choose, Connect, Overhear, Selects, Carries;
    ChosenAddressIsSent(host, literal, resolved, selection);
    StaysInStep(credentials, Choose(true, host, literal, resolved, selection).value, port, r, tail);
  }

  /** A server that is told the target by its name reads that name, unless its length does not fit an octet. */
  lemma ServerReadsName(credentials: Option<Credentials>, host: seq<Byte>, literal: Option<Ip>, resolved: seq<Ip>,
                        selection: FamilySelection, port: Port, r: Reply, tail: seq<Byte>)
    requires Presentable(credentials) && Conforming(credentials) && Fits(r.bound)
    ensures var chosen := Choose(false, host, literal, resolved, selection);
            var p := Connect(credentials, chosen, port, Acceptance(credentials) + (SuccessReply(r) + tail));
            && (|host| >= 256 ==> p.outcome == Err(HostTooLong))
            && (|host| < 256 ==>
                  p.outcome == Ok(()) && Overhear(p.sent) == Some(Session(credentials, Host(host), port)))
  {
    hide Connect, Overhear, SuccessReply, Acceptance;
    if |host| < 256 {
      StaysInStep(credentials, Host(host), port, r, tail);
    } else {
      UnchosenIsReported(credentials, HostTooLong, port, SuccessReply(r) + tail);
    }
  }

  /** Without a destination the dialogue ends after the authentication. */
  lemma UnchosenIsReported(credentials: Option<Credentials>, failure: Failure, port: Port, rest: seq<Byte>)
    requires Presentable(credentials)
    ensures Connect(credentials, Err(failure), port, Acceptance(credentials) + rest).outcome == Err(failure)
    ensures Connect(credentials, Err(failure), port, Acceptance(credentials) + rest).unread == rest
  {
    AcceptanceConsumed(credentials, rest);
  }

  /** A proxy URL with a user name alone: the login that is sent is not one of RFC 1929. */
  lemma EmptyPasswordIsNoLogin(d: Destination, port: Port)
    requires Fits(d)
    ensures var c := Credentials([97, 108, 105, 99, 101], []);
            && Presentable(Some(c)) && ParseLogin(Login(c)) == None
            && Overhear(Greeting(MethodFor(Some(c))) + Login(c) + Request(d, port)) == None
  {
    var c := Credentials([97, 108, 105, 99, 101], []);
    LoginDecodes(c, []);
    assert Login(c) + [] == Login(c);
    DialogueDecodes(Some(c), d, port);
  }

  /** A refusal is reported with the server's code, after exactly the four header bytes. */
  lemma RefusalReported(credentials: Option<Credentials>, d: Destination, port: Port,
                        header: seq<Byte>, tail: seq<Byte>)
    requires Presentable(credentials) && Fits(d) && |header| == 4 && header[0] == VERSION && header[1] != 0
    ensures var p := Connect(credentials, Ok(d), port, Acceptance(credentials) + (header + tail));
            p.outcome == Err(Refused(header[1])) && p.unread == tail
  {
    AcceptanceConsumed(credentials, header + tail);
    assert (header + tail)[4..] == tail;
  }

  /** A success header, an address of `n` octets counting a length octet, and a port. */
  lemma ReplySplits(input: seq<Byte>, n: nat, bound: Destination) returns (r: Reply)
    requires Fits(bound) && |input| >= 4 + n + 2 && input[0] == VERSION && input[1] == 0
    requires AddressBytes(bound) == [input[3]] + input[4..4 + n]
    ensures r.bound == bound && input == SuccessReply(r) + input[4 + n + 2..]
  {
    r := Reply(input[2], bound, PortOf(input[4 + n], input[4 + n + 1]));
    assert PortBytes(r.port) == input[4 + n..4 + n + 2];
    assert input == [VERSION, 0, input[2]] + ([input[3]] + input[4..4 + n] + input[4 + n..4 + n + 2])
                    + input[4 + n + 2..];
  }

  lemma AcceptedReply(input: seq<Byte>) returns (r: Reply)
    requires ReplyPhase(input).outcome.Ok?
    ensures Fits(r.bound) && input == SuccessReply(r) + ReplyPhase(input).unread
  {
    if input[3] == 1 {
      r := ReplySplits(input, 4, Octets4(input[4..8]));
      assert input[4..][6..] == input[10..];
    } else if input[3] == 4 {
      r := ReplySplits(input, 16, Octets6(input[4..20]));
      assert input[4..][18..] == input[22..];
    } else {
      var length := input[4] as int;
      var name := input[5..5 + length];
      assert [input[3]] + input[4..5 + length] == [ATYP_HOST, Length(name)] + name;
      r := ReplySplits(input, 1 + length, Host(name));
      assert input[4..][1..][length + 2..] == input[4 + 1 + length + 2..];
    }
  }

  lemma AcceptedAuthentication(credentials: Option<Credentials>, input: seq<Byte>)
    requires AuthenticatePhase(credentials, input).outcome.Ok?
    ensures Presentable(credentials)
    ensures input == Acceptance(credentials) + AuthenticatePhase(credentials, input).unread
  {
    assert input == input[..2] + input[2..];
    if credentials.Some? {
      assert input[2..] == input[2..][..2] + input[2..][2..];
    }
  }

  /** The client succeeds on no other stream. */
  lemma SucceedsOnlyInStep(credentials: Option<Credentials>, destination: Result<Destination, Failure>, port: Port,
                           input: seq<Byte>) returns (r: Reply)
    requires destination.Ok? ==> Fits(destination.value)
    requires Connect(credentials, destination, port, input).outcome.Ok?
    ensures destination.Ok? && Presentable(credentials) && Fits(r.bound)
    ensures input == Acceptance(credentials) + (SuccessReply(r) + Connect(credentials, destination, port, input).unread)
  {
    var auth := AuthenticatePhase(credentials, input);
    AcceptedAuthentication(credentials, input);
    r := AcceptedReply(auth.unread);
  }
}
