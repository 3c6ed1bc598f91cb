/** The evidence records that probes produce and the diagnosis consumes. */
module Evidence {
  import opened Wrappers

  datatype Status = Pass | Warn | Fail | Skip

  datatype Family = Ipv4 | Ipv6

  /** An IP address as its family and its value. */
  datatype Ip = V4(bits: nat) | V6(bits: nat)

  datatype Address = Address(ip: Ip, port: nat, scope: nat)

  function FamilyOf(a: Address): Family {
    if a.ip.V4? then Ipv4 else Ipv6
  }

  datatype ErrorKind =
    | ConnectionRefused | ConnectionReset | ConnectionAborted | NotConnected | AddressInUse
    | AddressUnavailable | TimedOut | PermissionDenied | NetworkUnreachable | HostUnreachable | Other
    | NoRoute | ToolMissing | ToolFailed | ParseError

  datatype TcpResult = TcpResult(
    status: Status, address: Address, family: Family, durationMs: nat,
    errorKind: Option<ErrorKind>, error: Option<string>)

  datatype RouteResult = RouteResult(
    status: Status, address: Address, interface: Option<string>,
    errorKind: Option<ErrorKind>, error: Option<string>)

  datatype ConnectEvidence = ConnectEvidence(status: Status, errorKind: Option<ErrorKind>, error: Option<string>)

  datatype TlsEvidence = TlsEvidence(status: Status, error: Option<string>)

  datatype HttpEvidence = HttpEvidence(status: Status, code: Option<nat>, error: Option<string>)

  /** One fresh connection to one address, as far as it got. */
  datatype ApplicationReport = ApplicationReport(
    status: Status, address: Address, connect: ConnectEvidence,
    tls: Option<TlsEvidence>, http: Option<HttpEvidence>)
}
