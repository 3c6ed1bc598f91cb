# NetWhy, verified model

NetWhy follows one connection through name resolution, routing, TCP, proxies, TLS and HTTP, gathers
host evidence next to it, and turns the whole into one verdict. This project models the deterministic
logic behind that and proves what the verdicts, comparisons and protocol exchanges promise.

`dafny verify dfyconfig.toml` checks everything. There is one module per file:

| component | modules |
|---|---|
| report comparison (`src/compare.rs`) | `Json`, `Pointer`, `Compare`, `DiffProperties`, `Comparison`, `Significance`, `ReportComparison`, `Truncation` |
| bounded fan-out (`src/probe/tcp.rs`, `src/probe/route.rs`) | `FanOut` |
| context pinning and entering (`src/main.rs`, `src/process_context.rs`, `src/container_context.rs`) | `ProcessContext`, `ContextPin` |
| HTTP and SOCKS5 clients, fallback loops (`src/probe/application.rs`) | `Http`, `HttpExchange`, `Socks5`, `ApplicationProbe` |
| inference (`src/diagnosis.rs`) | `Diagnosis`, `Verdicts` |
| whole runs (`src/lib.rs`) | `DirectRun`, `ProxiedRun`, `Pipeline` |
| host evidence parsers (`src/probe/path.rs`) | `Nftables`, `NftReading`, `NftSoundness`, `NftListing`, `Resolvectl`, `ResolvectlLines`, `Nmcli` |
| proxy selection and credentials (`src/proxy.rs`) | `NoProxy`, `Cidr`, `Base64` |
| redaction and resolver filter (`src/redaction.rs`, `src/probe/dns.rs`) | `Redaction`, `DnsFilter` |
| shared | `Wrappers`, `Sequences`, `Text`, `Bits`, `Bytes`, `Utf8`, `Evidence` |

How the model is built:

- Where the program updates state, a class or a method with a loop is proved against a specification
  function: `Comparison.ChangeLog`, `HttpExchange.Reader`, `Socks5.Stream`, `ProcessContext.Caller`,
  `Diagnosis.DiagnosticReport`, and the methods of `FanOut`, `ApplicationProbe`, `Nftables`,
  `Resolvectl`, `Nmcli`, `Redaction`, `Base64`, `DnsFilter` and `Pipeline`. The lemmas are about those
  functions.
- Concurrency is a transition system. In `FanOut` any task in flight may be joined next and any task may
  panic. In `ContextPin` the steps of the client interleave with processes that start, exit and take over
  PIDs, and containers that restart.
- JSON is a tree whose objects are maps, traversed in ascending key order. Bytes off the wire are numbers
  below 256, strings are sequences of Unicode scalar values, machine words are explicit moduli.
- What a connection, a lookup, a TLS handshake or an exchange comes to is a parameter, and so are the
  recognition of IP address text (`parseIp`), the order of completions and the success of kernel calls.
  Timeouts are among the outcomes.

Where the program, its documentation or the obvious claim part ways, the model follows the program:

- `truncated` in a comparison also becomes true after exactly 256 differences when some location that
  differs in volatile fields only comes after all of them in the order of the traversal; nothing was lost
  then (`Truncation.TruncatedExactly`, `NothingLostIff`, `TruncatedWithoutLoss`).
- The two recorded values of a change coincide exactly when one side lacks a key that the other holds as
  null (`SidesCoincideIff`, `MissingAndNullLookAlike`).
- Equal PIDs at both resolutions do not show that the pinned process is the container's: that holds exactly
  when no process was given the PID in between (`PinnedIsInitIffPidNotReused`, `ReusedPidDeceivesTheCheck`).
- nft reads an interface operand that begins with `@` as a set and one that ends in `*` as a wildcard
  (libnftables-json(5)); the program takes every operand for a name. For each operand that is not a name there
  is a known interface that nft matches and the program rules out (`OtherOperandsAreUnsafe`,
  `WildcardAndSetAreRuledOut`). For rules with names for operands, ruling out is sound exactly when every route
  interface is known (`NoIsSafeIff`), and then every rule with a verdict that may apply is listed
  (`EveryRuleThatMayApplyIsListed`).
- docs/design.md reserves `exact` confidence for fully understood predicates. It is decided predicate by
  predicate. Every `exact` rule with names for operands has a possible flow that satisfies it exactly when all
  probed addresses agree in address and port and all interfaces that can be named are the same
  (`ExactHasFlowIff`, `ExactWithoutAnyFlow`).
- docs/design.md also says that indirect control flow makes the result `possible` or `incomplete`. The program
  notices control flow exactly when the verdict has no string beside its name, so that a jump to a chain is
  reported as exact in a complete listing (`ControlFlowNoticedIff`, `CompleteIff`, `JumpIsNotNoticed`). A rule
  with nothing but a verdict map is passed over (`PassedOverIff`, `VerdictMapIsPassedOver`).
- A `resolvectl` line that continues a list is kept exactly when there is no colon in it, so that an IPv6
  server on a line of its own is dropped (`ContinuationKeptIff`, `Ipv6ServerIsDropped`).
- The status lines accepted are not those of RFC 9112 section 4: the space after the code may be missing at
  the end of the line, and versions other than 1.0 and 1.1, codes outside 100..599, tabs, C1 controls and text
  that is not UTF-8 are refused (`StatusLineAgainstRfc`, `Divergences`).
- The SOCKS5 client also logs in with an empty user name or password, which RFC 1929 section 2 does not
  admit; a server of that RFC reads the login back exactly when neither is empty (`LoginDecodes`,
  `EmptyPasswordIsNoLogin`).
- Changing the root can fail in its last step, the change of directory, after the root has changed; entering
  a context then fails although the transition was made (`EnterWith`, and the event `LeftInRoot`).
- docs/output-contract.md explains `NO_ROUTE` by routing evidence and attempts; either is enough
  (`TcpFailureCodes`). docs/design.md lists partial family success before application failures, which in
  fact outrank it (`FirstAnswerGivesCode`, `FamiliesDecideLast`).
- Through a forward proxy, the first answer decides even when it is a 407 and a later address succeeds
  (`RejectedFirstAddressDecides`), so the verdict depends on the order of the attempts
  (`DecisionDependsOnOrder`); and with no address reachable at all the run may end in a warning
  (`NothingReachableStillWarns`).
- A bracketed `NO_PROXY` entry whose port is not a port number exempts every port
  (`BracketedPortRestrictsIff`). docs/design.md says that IP addresses are honoured; they are compared as text, so
  that an entry exempts its own address exactly when it is written canonically (`AddressEntryExactIff`,
  `FullFormIsNotHonoured`).

## Model

| member | source | states |
|---|---|---|
| `Pointer.UnescapeEscape` | src/compare.rs:260-262 | RFC 6901 unescaping undoes the escaping of every token, and an escaped token holds no `/` |
| `Pointer.EscapeInjective` | src/compare.rs:260-262 | different keys never share an escaped form |
| `Pointer.DecodePointer` | src/compare.rs:166-202 | the pointer text built for a location decodes to that location |
| `Pointer.PointerInjective` | src/compare.rs:166-202 | different locations never share a pointer text |
| `Pointer.PointerAppend` | src/compare.rs:171-188 | extending the text at its right end is extending the location by one token |
| `Compare.VolatileAgrees` | src/compare.rs:207-214 | the test on pointer text holds exactly at the volatile locations, whatever characters keys contain |
| `Compare.PairExact` | src/compare.rs:148-205 | the recursive diff of two values lists a difference iff it is the first clash on its path with nothing volatile on the way |
| `DiffProperties.DifferencesExact` | src/compare.rs:148-214 | the uncapped diff lists exactly the outermost disagreements outside volatile subtrees, with the value of each side there |
| `DiffProperties.DifferencesAntichain` | src/compare.rs:148-205 | no listed location equals or encloses another |
| `DiffProperties.EveryDisagreementCoveredOnce` | src/compare.rs:148-205 | every disagreement outside volatile subtrees lies at or below exactly one listed location |
| `DiffProperties.FirstClashMeaning` | src/compare.rs:148-205 | the recursive notion of a first clash is the one in terms of pointers: the values there clash, nothing above does |
| `DiffProperties.NoDifferencesIffErasedEqual` | src/compare.rs:148-214 | nothing is listed iff the documents are equal after erasing volatile fields at every depth, one-sided ones included |
| `DiffProperties.DifferencesMirrored` | src/compare.rs:148-205 | swapping the documents swaps the sides of every difference and keeps their order |
| `DiffProperties.WalkPairMirrored` | src/compare.rs:148-205 | the whole traversal, visits included, is the same from either side |
| `Comparison.ChangeLog.PushChange` | src/compare.rs:216-236 | appending drops volatile paths, appends below 256 and otherwise only marks the log truncated |
| `Comparison.ChangeLog.DiffValues` | src/compare.rs:148-205 | the accumulator holds the first 256 of what it held and the recursive diff yields; the flag is set iff the traversal went on when it was full |
| `Comparison.ChangeLog.DiffObjects` | src/compare.rs:166-185 | the members of two objects are compared over the sorted union of their keys |
| `Comparison.ChangeLog.DiffMember` | src/compare.rs:170-184 | one key is compared recursively or, when one side lacks it, recorded with its absence |
| `Comparison.ChangeLog.DiffArrays` | src/compare.rs:186-202 | the items of two arrays are compared up to the longer length |
| `Comparison.RecordedThen` | src/compare.rs:148-236 | recording two stretches in turn is recording their concatenation, across the cap |
| `ReportComparison.CompareReports` | src/compare.rs:27-65 | errors of the left input come first; Pass iff the erased reports are equal; the changes are the first 256 rendered differences, rated and counted by their locations; the flag is exact |
| `ReportComparison.AcceptedIff` | src/compare.rs:115-146 | a document is accepted, and as what, iff it is an object with kind, version 1 or 2, target and execution context at their places; the target as given goes before its host |
| `ReportComparison.RefusedBecause` | src/compare.rs:115-146 | which shortcoming is reported: the first in the order kind, version, range, target, execution context |
| `Significance.SignificanceExact` | src/compare.rs:238-258 | a difference is of high significance iff it is at `overall`, `exit_code`, below `diagnosis` at a key that begins with `code`, or at a key `status` or `error_kind`; of medium iff not that and its first key begins with one of seven names; else low |
| `Significance.KeptAreRated` | src/compare.rs:35-47 | the number of significant changes is the number of kept differences at such locations |
| `Significance.LastTokenIs` | src/compare.rs:243-244 | a pointer text ends in `/name` iff the last key is `name`, whatever characters keys contain |
| `Significance.FirstTokenStarts` | src/compare.rs:247-253 | a pointer text begins with `/name` iff the first key begins with `name` |
| `Significance.SecondTokenStarts` | src/compare.rs:241-242 | a pointer text begins with `/outer/inner` iff the first key is `outer` and the second begins with `inner` |
| `ReportComparison.ReportedPathDecodes` | src/compare.rs:222-235 | every reported path decodes to the place where the reported values stand, null when absent |
| `ReportComparison.ReportedPathsIndependent` | src/compare.rs:148-236 | reported paths are pairwise distinct and none locates a value inside another |
| `ReportComparison.SidesCoincideIff` | src/compare.rs:176-182 | the two recorded values of a difference are equal iff one side lacks what the other holds as null |
| `ReportComparison.MissingAndNullLookAlike` | src/compare.rs:176-182 | any accepted report against itself with one more null member: accepted, and a single change with null on both sides |
| `ReportComparison.ComparisonMirrored` | src/compare.rs:27-65 | swapping the inputs keeps paths, significance and the flag, and swaps the values |
| `Truncation.OverrunsExactly` | src/compare.rs:155-236 | the sticky flag as a count, for a log of any fill |
| `Truncation.VisitExact` | src/compare.rs:148-205 | a pair is visited iff it and every pair on the way to it differ, none is ignored, and all on the way are containers of one kind |
| `Truncation.PairAdvances` | src/compare.rs:166-202 | the traversal never goes back in document order: keys ascending, indices ascending, a location before its inside |
| `Truncation.EndsInNoiseIff` | src/compare.rs:155-164 | the traversal ends in a visit without a difference iff some location that differs in volatile fields only comes after every difference |
| `Truncation.TruncatedExactly` | src/compare.rs:155-164 | truncated iff there are more than 256 differences, or exactly 256 and such a location comes after them all |
| `Truncation.NothingLostIff` | src/compare.rs:155-236 | all differences are kept iff there are at most 256; untruncated means nothing was dropped, truncated means exactly 256 were kept |
| `Truncation.TruncatedWithoutLoss` | src/compare.rs:161-164 | two accepted reports with exactly 256 differences, all kept, whose comparison is marked truncated |
| `FanOut.JoinKeepsInv` | src/probe/tcp.rs:34-41 | joining any task keeps in-flight, joined and pending indices a partition and min(8, remaining) in flight |
| `FanOut.RunKeepsInv` | src/probe/tcp.rs:25-41 | that invariant holds along every interleaving of completions and panics |
| `FanOut.AlwaysProgress` | src/probe/tcp.rs:34-41 | while joins are missing, some task is in flight |
| `FanOut.EndsAfterExactlyOneJoinEach` | src/probe/tcp.rs:25-41 | every interleaving ends after exactly n joins, one per address |
| `FanOut.SpawnFirst` | src/probe/tcp.rs:27-29 | the first min(8, n) tasks are spawned |
| `FanOut.CollectAll` | src/probe/tcp.rs:16-47 | whatever is joined first, output i is task i's outcome, or the fallback for address i after a panic |
| `FanOut.ConnectAll` | src/probe/tcp.rs:12-102 | one result per address in order; status, family, duration, error kind and error text for each way an attempt can come out: connected, failed, expired, panicked |
| `FanOut.InspectAll` | src/probe/route.rs:59-98 | one route per address in order: what the inspection found, or a skipped one with kind `tool_failed` for a task that panicked |
| `ProcessContext.PlanReachesTarget` | src/process_context.rs:76-89 | for every combination of changes, the planned transitions end in the target's mount namespace, root and network namespace |
| `ProcessContext.PlanIsNeeded` | src/process_context.rs:76-89 | each transition is planned iff that part of the contexts differs; nothing is planned iff the contexts are equal |
| `ProcessContext.PlanIsOrdered` | src/process_context.rs:131-153 | no transition is planned twice, the mount namespace comes first and the network namespace last |
| `ProcessContext.PartsApplied` | src/process_context.rs:131-153 | after any part of the plan each part of the context is the target's if its transition was made and the caller's own if not, but for the root that a mount namespace brings along |
| `ProcessContext.SameInodeIsNotSameRoot` | src/process_context.rs:86-89 | a differing mount namespace forces the change of root; after entering it the root is the target's iff the namespace puts it there, whether or not the inodes matched |
| `ProcessContext.Caller.MoveRoot` | src/process_context.rs:293-298 | changing the root succeeds iff all three calls do, and has taken effect iff the first two do; the context stays what the recorded transitions make of the start |
| `ProcessContext.Caller.EnterWith` | src/process_context.rs:131-153 | success iff every kernel call is permitted that a difference of the contexts asks for, so always in the target's own context; success reaches the target; failure leaves a prefix of mount, root, network applied, the whole plan only if the root came last and its final change of directory failed |
| `ContextPin.StepKeepsInv` | src/main.rs:266-275 | every step of the client and of the system keeps the protocol invariant |
| `ContextPin.BirthKeepsInv` | src/main.rs:266-275 | a process born at any moment, under any free PID, disturbs nothing already established |
| `ContextPin.DeathKeepsInv` | src/main.rs:266-275 | nor does an exit |
| `ContextPin.ClientStepKeepsInv` | src/main.rs:266-275 | each client step keeps the protocol invariant |
| `ContextPin.Execute` | src/main.rs:266-275 | the invariants hold after every interleaving from the start |
| `ContextPin.DescriptorsFromOneIncarnation` | src/process_context.rs:67-74 | network, mount and root descriptors all come from the one process incarnation pinned under the resolved PID |
| `ContextPin.NothingEnteredUnchecked` | src/main.rs:266-275 | no one-way transition runs before the second resolution confirmed the PID, and then only a prefix of the plan has |
| `ContextPin.SameContextCannotFail` | src/process_context.rs:131-153 | once checked, entering the context of a process that shares the client's own cannot fail and changes nothing, whatever the system does meanwhile |
| `ContextPin.DoneReachesPinnedContext` | src/main.rs:266-275 | a completed run is in exactly the pinned process's context |
| `ContextPin.PinnedIsInitIffPidNotReused` | src/container_context.rs:71-85 | after the check, the pinned process is the container's init at both resolutions iff no process was given the PID in between |
| `ContextPin.ReusedPidDeceivesTheCheck` | src/container_context.rs:71-85 | a run in which the check passes and a stranger is pinned |
| `Http.ReadLineExact` | src/probe/application.rs:888-916 | a line is returned iff the stream starts with it, it ends in its only line feed after a carriage return, and it is within the limit |
| `Http.LineIs` | src/probe/application.rs:888-916 | such a line is a text without line feeds followed by 13 and 10 |
| `Http.NoLineBecause` | src/probe/application.rs:888-916 | which error is reported: nothing to read, no line feed within the limit, or no carriage return before it |
| `Http.StatusLineExact` | src/probe/application.rs:918-950 | splitting at spaces and parsing the pieces accepts exactly the texts with version, space, three digits in range and then nothing or a space, in UTF-8 without control characters |
| `Http.StatusLineErrors` | src/probe/application.rs:918-950 | why a line is refused: it spells no characters, it spells a control character, it has not the shape, or the code is out of range, in this order |
| `Utf8.Utf8Exactly` | src/probe/application.rs:918-922 | the octets that pass for text are exactly those that spell characters by RFC 3629 section 3 |
| `Utf8.ControlsExactly` | src/probe/application.rs:923-925 | they pass for free of controls iff no character spelled is U+0000 to U+001F or U+007F to U+009F |
| `Http.StatusLineAgainstRfc` | src/probe/application.rs:918-950 | accepted iff it is a status line of RFC 9112 section 4, or one that lacks only the space after the code, and version, code and text are supported |
| `Http.Divergences` | src/probe/application.rs:918-950 | an accepted line outside the RFC, and refused lines inside it for version, code, tab and encoding |
| `HttpExchange.Reader.ReadCrlfLine` | src/probe/application.rs:888-916 | the line and the unread rest are those of the specification |
| `HttpExchange.Reader.DrainHeaders` | src/probe/application.rs:952-970 | so are the outcome and the rest of draining headers |
| `HttpExchange.Reader.Exchange` | src/probe/application.rs:828-849 | so are those of the loop over informational responses |
| `HttpExchange.DrainBounded` | src/probe/application.rs:952-970 | draining reads a bounded number of bytes of any stream |
| `HttpExchange.DrainAccepts` | src/probe/application.rs:952-970 | header lines within the limits and an empty line are read to their end and no further |
| `HttpExchange.DrainOnlyAccepts` | src/probe/application.rs:952-970 | nothing else is drained successfully |
| `HttpExchange.AnswerBounded` | src/probe/application.rs:828-849 | the exchange takes at most 663569 bytes from its reader, on any stream |
| `HttpExchange.FinalLineReturned` | src/probe/application.rs:833-847 | after up to eight informational responses the final status line is returned, the rest unread |
| `HttpExchange.NinthInterimRejected` | src/probe/application.rs:837-842 | a ninth informational response is an error whatever follows |
| `HttpExchange.AcceptedStreams` | src/probe/application.rs:828-970 | a successful exchange has read exactly such a stream, and its code is 101 or in 200..599 |
| `HttpExchange.VerdictsExactly` | src/probe/application.rs:851-866 | some stream yields a verdict iff it is a pass with code 101 or 200..399, a warning with code 400..599, or no answer |
| `Socks5.Choose` | src/probe/application.rs:403-451 | a chosen destination fits the wire format |
| `Socks5.ChosenAddressIsSent` | src/probe/application.rs:403-451 | with local resolution the destination is four or sixteen octets whose big-endian value is the literal or the first resolved address of the family asked for, and each error has its reason |
| `Socks5.ServerReadsAddress` | src/probe/application.rs:336-451 | a server that is told the target by its address reads the value of the address selected here, with these credentials and this port |
| `Socks5.ServerReadsName` | src/probe/application.rs:427-439 | a server that is told the target by its name reads that name; a name of more than 255 octets ends the dialogue with an error |
| `Socks5.Stream.Authenticate` | src/probe/application.rs:353-401 | outcome, bytes sent and bytes left follow the specification |
| `Socks5.Stream.ReadResponse` | src/probe/application.rs:453-476 | outcome and bytes left follow the specification |
| `Socks5.Stream.Socks5Connect` | src/probe/application.rs:336-351 | the whole negotiation follows the specification |
| `Socks5.GreetingDecodes` | src/probe/application.rs:353-366 | a server reads the greeting as one method and nothing more (RFC 1928 section 3) |
| `Socks5.LoginDecodes` | src/probe/application.rs:374-401 | a server of RFC 1929 section 2 reads back user name and password iff neither is empty, and reads no login otherwise |
| `Socks5.EmptyPasswordIsNoLogin` | src/proxy.rs:37-45 | a proxy URL with a user name alone makes the client send a login that is not one of RFC 1929 |
| `Socks5.AddressDecodes` | src/probe/application.rs:403-451 | a server reads back every kind of address (RFC 1928 section 5) |
| `Socks5.RequestDecodes` | src/probe/application.rs:403-451 | a server reads exactly destination and port from the request (RFC 1928 section 4) |
| `Socks5.DialogueDecodes` | src/probe/application.rs:336-451 | all bytes sent are one dialogue of the RFCs with exactly these credentials, destination and port iff no credential is empty |
| `Socks5.OctetsRoundTrip` | src/probe/application.rs:403-451 | the big-endian octets of an address give its value back |
| `Socks5.ReplyConsumed` | src/probe/application.rs:453-476 | a success reply of any address type is consumed to its last byte and no further |
| `Socks5.AcceptanceConsumed` | src/probe/application.rs:353-401 | so are the server's method choice and login answer |
| `Socks5.StaysInStep` | src/probe/application.rs:336-476 | against a willing server the client succeeds and leaves every later byte unread; its bytes decode to exactly its data iff no credential is empty |
| `Socks5.RefusalReported` | src/probe/application.rs:453-476 | a refusal is reported with the server's code |
| `Socks5.AcceptedReply` | src/probe/application.rs:453-476 | only a complete success reply is accepted |
| `Socks5.SucceedsOnlyInStep` | src/probe/application.rs:336-476 | the client succeeds on no stream but such a server's |
| `ApplicationProbe.ByDurationSorts` | src/probe/application.rs:56-60 | the sort by connection time loses and repeats nothing, and is stable: equal times keep their order |
| `ApplicationProbe.WarnsIffErrorCode` | src/probe/application.rs:851-866 | an attempt is a warning iff it was answered with 400 or above |
| `ApplicationProbe.LayersShown` | src/probe/application.rs:608-778 | the evidence of an attempt ends at the layer that failed, and shows the layers before it as passed |
| `ApplicationProbe.CandidatesExact` | src/probe/application.rs:56-60 | candidates are exactly the results that passed, each before those that are slower, or as slow and further back |
| `ApplicationProbe.Probe` | src/probe/application.rs:47-76 | the loop makes exactly the attempts of the specification, none for raw TCP |
| `ApplicationProbe.StopsAtFirstReachable` | src/probe/application.rs:62-75 | attempts stop at the first that does not fail, or when candidates run out |
| `ApplicationProbe.AttemptsArePrefix` | src/probe/application.rs:47-76 | attempts follow a prefix of the sorted candidates and only the last can be non-failing |
| `ApplicationProbe.ProbeViaProxy` | src/probe/application.rs:78-156 | attempts follow a prefix of the proxy's addresses up to the first reachable one; the transport passed iff some attempt did |
| `Diagnosis.LeastAt` | src/diagnosis.rs:416-457 | the attempt chosen for the cause is of least address among those at its stage |
| `Diagnosis.DiagnosticReport.ExplainReport` | src/diagnosis.rs:5-84 | assigning field by field, with early returns, gives the verdict of the specification |
| `Diagnosis.DiagnosticReport.ExplainProxyResult` | src/diagnosis.rs:86-157 | the same for the proxied branch |
| `Diagnosis.DiagnosticReport.DiagnoseTcpFailure` | src/diagnosis.rs:261-312 | the same when no address accepted TCP |
| `Diagnosis.DiagnosticReport.DiagnoseFamilyAsymmetry` | src/diagnosis.rs:314-343 | true iff there are results of both families and exactly one of them has a passing one; otherwise nothing is touched |
| `Diagnosis.AsymmetricMeans` | src/diagnosis.rs:515-526 | the comparison of the two family states holds in exactly those cases |
| `Diagnosis.DiagnosticReport.DiagnoseApplicationFailure` | src/diagnosis.rs:345-381 | the failing stage gives the code |
| `Diagnosis.DiagnosticReport.DiagnoseHttpError` | src/diagnosis.rs:466-492 | true iff some attempt was answered with 400 or above after nothing but failures; otherwise nothing is touched |
| `Diagnosis.HttpErrorCodeMeaning` | src/diagnosis.rs:466-474 | the recursive search for an error code finds one in exactly those cases |
| `Diagnosis.DiagnosticReport.Finish` | src/diagnosis.rs:494-498 | the exit code is 1 iff the status is Fail, and 0 iff it is not |
| `Verdicts.CodeFitsStatus` | src/diagnosis.rs:5-157 | for any evidence the code fits the status and the exit code is 1 iff Fail |
| `Verdicts.TcpFailureCodes` | src/diagnosis.rs:261-312 | which of the four codes is given when no address accepted TCP, in terms of errors and routes |
| `Verdicts.AllAttemptsFailedIff` | src/probe/application.rs:47-76 | all attempts failed iff the target is HTTP(S) and every address that accepted TCP fails the probe |
| `Verdicts.DirectRunFailsIff` | src/diagnosis.rs:5-84 | a direct run fails iff DNS failed, no address accepted TCP, or all that did fail the HTTP(S) probe |
| `Verdicts.ClassificationIsGrounded` | src/diagnosis.rs:401-464 | on evidence of direct probes the stage is one that the attempts show; the fallthrough is never reached |
| `Verdicts.ClassificationIgnoresOrder` | src/diagnosis.rs:395-464 | stage, and for distinct addresses cause, are the same for every order of the attempts |
| `Verdicts.DecisionIgnoresOrder` | src/diagnosis.rs:5-157 | status, code and exit code survive any reordering of routes, TCP results and attempts, if non-failing answers agree |
| `Verdicts.DecisionDependsOnOrder` | src/diagnosis.rs:466-492 | otherwise some order of the same attempts is judged differently |
| `Verdicts.DirectAnswersAgree` | src/probe/application.rs:47-76 | in direct mode they always agree |
| `Verdicts.RejectedFirstAddressDecides` | src/diagnosis.rs:466-492 | a forward proxy's 407 at the first address outweighs success at the second |
| `Pipeline.Resolve` | src/probe/dns.rs:19-104 | the addresses to probe, for literals, answers and failed lookups; an error iff there are none |
| `Pipeline.GatherDirect` | src/lib.rs:117-213 | resolver, route inspection, TCP and application probes together produce evidence that shows what became of each address |
| `Pipeline.DiagnoseDirect` | src/lib.rs:117-213 | the verdict of a direct run is the one warranted by what the resolved addresses would do, without reference to the evidence in between; it fails iff no address works; code and exit code fit |
| `DirectRun.AddressesDecide` | src/diagnosis.rs:5-84 | the same for any evidence that shows what the addresses did |
| `DirectRun.RefusalsDecide` | src/diagnosis.rs:261-312 | when no address accepts TCP: refused iff all were refused; else no route iff all were unreachable or no route was found for any; else timeout iff all expired or failed with a timeout; else the first error is the cause |
| `DirectRun.FamiliesShown` | src/diagnosis.rs:515-526 | families are out of step iff addresses of both are resolved and exactly one accepts a connection |
| `DirectRun.FirstAnswerGivesCode` | src/diagnosis.rs:36-84 | the first address to answer, in order of connection time and then of resolution, gives the code: a warning for an error code, for an address tried in vain before it, or for a family left out |
| `DirectRun.FailuresDecide` | src/diagnosis.rs:401-464 | when the application answers nowhere, the deepest stage reached gives the code and the error at the least address that reached it the cause |
| `DirectRun.OrderIsNumeric` | src/diagnosis.rs:416-457 | addresses are ordered as the numbers made of family, value, port and scope |
| `DirectRun.LastAttemptDecides` | src/diagnosis.rs:36-84 | once TCP works, failure, the HTTP error code and the partial-address code are determined by the last attempt and the number of attempts |
| `DirectRun.FamiliesDecideLast` | src/diagnosis.rs:34-84 | the partial-family and success codes are given iff the first attempt is clean, by whether one family was left out |
| `DirectRun.DirectRunPassesIff` | src/diagnosis.rs:5-84 | exactly when a direct run passes without a warning |
| `Pipeline.DiagnoseViaProxy` | src/lib.rs:133-143 | the verdict of a proxied run is the one warranted by what would happen at the proxy's addresses; it fails iff nobody lets the request through or nobody answers |
| `ProxiedRun.ProxyAddressesDecide` | src/diagnosis.rs:86-157 | the same for any evidence of the loop over the proxy's addresses |
| `ProxiedRun.ProxyIsNamed` | src/diagnosis.rs:86-126 | if nobody lets the request through the proxy is named, with its demand for credentials or the first error of opening a stream |
| `ProxiedRun.FirstAnswerDecidesProxied` | src/diagnosis.rs:127-157 | if the request gets through anywhere, the first answer decides: a warning for an error code, else a pass |
| `ProxiedRun.FailuresDecideProxied` | src/diagnosis.rs:401-464 | if it gets through and nobody answers, the deepest stage gives the code and the error at the least address there the cause |
| `ProxiedRun.ProxiedRunFailsIff` | src/diagnosis.rs:86-157 | when a proxied run fails, and when the proxy is the one named |
| `ProxiedRun.ProxyClassificationIsGrounded` | src/diagnosis.rs:401-464 | on evidence of probes through a proxy the stage is one that the attempts show |
| `ProxiedRun.NothingReachableStillWarns` | src/diagnosis.rs:86-157 | a run with no reachable address that ends in a warning and exit code 0 |
| `Nftables.RuleApplicability` | src/probe/path.rs:316-345 | the loop with its early return gives the order-free answer of the specification |
| `Nftables.InspectEntry` | src/probe/path.rs:230-291 | one entry contributes a match as specified and whether it leaves the analysis open |
| `Nftables.ParseRuleset` | src/probe/path.rs:225-304 | chains, matches and count are those of the entries in order; incomplete iff some match is inconclusive |
| `Nftables.ParseDocument` | src/probe/path.rs:211-305 | the same for a document, and an error without an `nftables` array |
| `NftReading.ReadsAddress` | src/probe/path.rs:377-398 | a match asks for an address iff operator, protocol, field and a text that reads as an address of that family stand at their places |
| `NftReading.ReadsTcpPort` | src/probe/path.rs:399-407 | a match asks for a TCP port iff operator, `tcp dport` and a number below 65536 do |
| `NftReading.ReadsInterface` | src/probe/path.rs:408-420 | a match asks for an interface iff operator, `meta oifname` without a payload and a text do |
| `NftReading.ReadsNever` | src/probe/path.rs:381-407 | a match that no probe can meet: a UDP port, or an address of the other family |
| `NftReading.FamilyMeans` | src/probe/path.rs:348-359 | a family applies iff it does for certain to some address, and not at all iff it can to none |
| `NftReading.DeclaresIff` | src/probe/path.rs:225-233 | an entry declares a relevant chain, under which name, iff its hook is `output` or `postrouting` |
| `NftSoundness.VerdictIs` | src/probe/path.rs:425-438 | the verdict of an expression is the first of seven keys that it has, with the string beside it |
| `NftSoundness.StatementIs` | src/probe/path.rs:361-370 | an expression keeps no packet from matching iff it gives a verdict or holds nothing but counter, comment and log |
| `NftSoundness.EvaluateMatchMeaning` | src/probe/path.rs:372-422 | a match is understood iff the program has a reading for it, and then true iff some address or route satisfies that reading |
| `NftSoundness.NoIsSound` | src/probe/path.rs:316-422 | with all interfaces known and names for operands, `No` means that no flow by the route of a probed address satisfies the rule as nft means it, under any valuation of what is not understood |
| `NftSoundness.NoIsSafeIff` | src/probe/path.rs:316-422 | `No` is sound for all rules with names for operands iff every route interface is known |
| `NftSoundness.LiteralIff` | src/probe/path.rs:413-419 | an interface operand means what the program takes it for iff it neither begins with `@` nor ends in `*` |
| `NftSoundness.OperandOnOneFlow` | src/probe/path.rs:408-420 | for one interface match on one flow: the answer is `Exact` iff the texts are equal and `No` if not; under which valuations nft matches depends on what the operand means |
| `NftSoundness.OtherOperandsAreUnsafe` | src/probe/path.rs:413-419 | for every operand that is not a name there is evidence with a known interface for which the one-match rule is `No` and a possible flow satisfies it |
| `NftSoundness.WildcardAndSetAreRuledOut` | src/probe/path.rs:413-419 | `eth*` and `@lan` are answered with `No` for a flow known to leave through `eth0` |
| `NftSoundness.OneFlowIsExact` | src/probe/path.rs:316-422 | for one address and route, and names for operands, `Exact` iff every valuation satisfies the rule and `No` iff none does |
| `NftSoundness.ExactMeans` | src/probe/path.rs:316-345 | in general `Exact` iff the family applies and each predicate is true somewhere |
| `NftSoundness.ExactHasFlowIff` | src/probe/path.rs:316-422 | every `Exact` rule with names for operands has a possible flow that satisfies it under every valuation iff all addresses agree in address and port and all interfaces that can be named are the same |
| `NftSoundness.ExactWithoutAnyFlow` | src/probe/path.rs:399-419 | two addresses of one port routed through different interfaces, and an `Exact` rule that no possible flow satisfies |
| `NftListing.ExpressionOrderIrrelevant` | src/probe/path.rs:316-345 | reordering the expressions of a rule changes nothing |
| `NftListing.MatchesExact` | src/probe/path.rs:225-291 | a match is listed iff some entry contributes it, given the chains declared before that entry |
| `NftListing.CompleteIff` | src/probe/path.rs:225-304 | a listing is not incomplete iff everything listed is an exact rule in a relevant base chain declared before it and none of these rules hands the packet on without a string beside the verdict |
| `NftListing.ConclusiveIff` | src/probe/path.rs:275-287 | one match is conclusive iff it is that of an exact rule without control flow that is noticed |
| `NftListing.ControlFlowNoticedIff` | src/probe/path.rs:425-438 | control flow is noticed iff the verdict is jump, goto, return or continue and has no string beside its name |
| `NftListing.JumpIsNotNoticed` | src/probe/path.rs:275-276 | a rule that jumps to a chain is listed as exact and leaves the listing complete |
| `NftListing.EveryRuleThatMayApplyIsListed` | src/probe/path.rs:256-292 | with known interfaces and names for operands, every rule of a chain declared before it that gives a verdict and that some possible flow satisfies is listed |
| `NftListing.PassedOverIff` | src/probe/path.rs:260-274 | a rule is passed over iff its chain is not declared before it, it gives no verdict, or the answer is `No` |
| `NftListing.VerdictMapIsPassedOver` | src/probe/path.rs:268-270 | a rule with only a verdict map is counted, and neither listed nor noticed |
| `Resolvectl.PushUniqueWords` | src/probe/path.rs:776-782 | words are appended once each, in order |
| `Resolvectl.ParseStatus` | src/probe/path.rs:676-773 | the one-pass machine gives what parsing the preamble and each section on its own gives, errors included |
| `Resolvectl.SplitIsFaithful` | src/probe/path.rs:686-708 | the sections and the preamble are the lines in order, cut exactly at the headers |
| `Resolvectl.ListsAreFirstOccurrences` | src/probe/path.rs:711-759 | each list holds the words its fields and continuation lines give, in the order of first occurrence |
| `Resolvectl.ListsAreDistinct` | src/probe/path.rs:776-782 | no list holds a word twice |
| `Resolvectl.ContinuationKeptIff` | src/probe/path.rs:711-759 | where a list goes on, a line that is neither header nor blank joins it and lets it go on iff there is no colon in it |
| `Resolvectl.Ipv6ServerIsDropped` | src/probe/path.rs:711-719 | `2001:db8::1` on a line of its own is not added and ends the list |
| `Resolvectl.FieldKinds` | src/probe/path.rs:711-759 | which field names fill which list, and after which of them a plain line continues it |
| `ResolvectlLines.LineKinds` | src/probe/path.rs:686-715 | what a trimmed line is read as: header, blank, field or plain text |
| `ResolvectlLines.RouteFromField` | src/probe/path.rs:728-741 | the default route: `yes` or `no` of a setting overrides, the first of `+DefaultRoute` and `-DefaultRoute` among the protocols fills in, no other field has a say |
| `ResolvectlLines.HeaderIs` | src/probe/path.rs:688-705 | a header gives index and name without parentheses, unless the index does not fit 32 bits |
| `ResolvectlLines.WordsOfSpread` | src/probe/path.rs:776-782 | words are found again whatever white space stands around and between them |
| `Nmcli.SplitFields` | src/probe/path.rs:884-903 | the loop is the scan of the specification |
| `Nmcli.SplitUndoesJoin` | src/probe/path.rs:884-903 | splitting undoes escaping and joining, for every non-empty list of fields |
| `Redaction.StableHash` | src/redaction.rs:225-232 | the byte loop computes the fold of the hash step |
| `Redaction.KnownHashes` | src/redaction.rs:225-232 | two known answers of 64-bit FNV-1a |
| `Redaction.StepIsBijective` | src/redaction.rs:227-230 | for each byte the step is a bijection on 64-bit states, with its inverse |
| `Redaction.OneByteApart` | src/redaction.rs:225-232 | texts of one length that differ in one byte never share a hash |
| `Redaction.FixedHexInjective` | src/redaction.rs:222-222 | sixteen hexadecimal digits determine the hash |
| `Redaction.PseudonymsFollowHashes` | src/redaction.rs:221-223 | pseudonyms of one kind are equal iff the hashes are |
| `Redaction.PseudonymReads` | src/redaction.rs:221-223 | a pseudonym is the kind, a hyphen and sixteen hexadecimal digits whose value is the hash |
| `Redaction.PseudonymsOneByteApart` | src/redaction.rs:221-232 | texts one byte apart keep distinct pseudonyms |
| `Redaction.RedactedIntoDocumentationRanges` | src/redaction.rs:192-212 | a redacted address is in 192.0.2.1 to 192.0.2.254 or in 2001:db8::/32, of the same family |
| `Redaction.RedactedByHash` | src/redaction.rs:192-212 | which address in these ranges: the remainder of the hash by 254, or its low 32 bits |
| `Bits.XorBit` | src/redaction.rs:228-228 | a bit of the exclusive or is set iff the two bits differ |
| `Text.SanitizedIsPlain` | src/lib.rs:276-287 | sanitized text holds no control character |
| `Text.PlainIsUnchanged` | src/lib.rs:276-287 | text without control characters is left alone |
| `Text.ReplacedIffControl` | src/lib.rs:276-287 | exactly the control characters are replaced: tab, return and newline by name, any other by its number in hexadecimal |
| `Text.LessMeans` | src/compare.rs:168-172 | the order of keys: a proper prefix is less, otherwise the first differing character decides |
| `Text.NumberIs` | src/proxy.rs:308-320 | what is read as a number: a numeral below the limit, possibly after zeros and a plus sign |
| `NoProxy.PortRestricts` | src/proxy.rs:278-315 | `host:port` exempts that port of the host and no other |
| `NoProxy.OtherTextIsHost` | src/proxy.rs:308-314 | what follows the only colon belongs to the host unless it is a port number |
| `NoProxy.PortIs` | src/proxy.rs:296-314 | a port is a numeral up to 65535, possibly after zeros and a plus sign |
| `NoProxy.NoColonNoPort` | src/proxy.rs:308-314 | an entry without a colon exempts every port of its host |
| `NoProxy.BracketedWithoutPort` | src/proxy.rs:296-307 | so does a bracketed host without a colon right after it |
| `NoProxy.WildcardExemptsAll` | src/proxy.rs:279-281 | `*` exempts everything |
| `NoProxy.BracketedPortRestrictsIff` | src/proxy.rs:296-307 | `[host]:text` exempts one port if the text is a port number, and every port if not |
| `NoProxy.BareAddressIsWhole` | src/proxy.rs:308-314 | an unbracketed entry with several colons carries no port |
| `NoProxy.NormalIs` | src/proxy.rs:285-286 | hosts are compared without the brackets around them and without regard to the case of ASCII letters |
| `NoProxy.NetworkIsRead` | src/proxy.rs:317-320 | `address/prefix` is a network iff the prefix is below 256 |
| `NoProxy.UnderDomainIffLabels` | src/proxy.rs:291-292 | the suffix comparison holds iff the labels of the entry are the last labels of the host |
| `NoProxy.DomainRule` | src/proxy.rs:285-292 | unless address meets network, an entry exempts exactly the host of that name and those under it |
| `NoProxy.NetworkRule` | src/proxy.rs:287-289 | a network exempts exactly the addresses of its family that share its prefix |
| `NoProxy.AddressEntryRule` | src/proxy.rs:285-292 | an address is compared with an address entry as text |
| `NoProxy.AddressEntryExactIff` | src/proxy.rs:285-292 | an address entry never exempts another address, and exempts its own, written canonically, iff it is written canonically |
| `NoProxy.FullFormIsNotHonoured` | src/proxy.rs:285-292 | the entry `0:0:0:0:0:0:0:1` does not exempt `::1` |
| `Cidr.ContainsIffSamePrefix` | src/proxy.rs:322-342 | the masks agree iff family and quotient by two to the number of host bits agree, for every prefix |
| `Cidr.ContainsIsEquivalence` | src/proxy.rs:322-342 | for a fixed prefix this is an equivalence on addresses |
| `Cidr.LongerPrefixIsNarrower` | src/proxy.rs:322-342 | a longer prefix admits fewer addresses |
| `Cidr.FullWidthIsEquality` | src/proxy.rs:322-342 | the full width admits the address itself only, and a longer prefix nothing |
| `Base64.EncodeText` | src/proxy.rs:367-388 | the chunk loop produces the encoding of the specification |
| `Base64.DecodeEncode` | src/proxy.rs:367-388 | a strict RFC 4648 decoder undoes it for every byte sequence |
| `Base64.DecodedIsEncoding` | src/proxy.rs:367-388 | and that decoder accepts nothing but encodings |
| `Base64.EncodedShape` | src/proxy.rs:367-388 | four characters per three bytes begun, `=` exactly in the places of missing bytes |
| `DnsFilter.UsableExact` | src/probe/dns.rs:115-126 | the usable addresses are distinct and exactly the resolved ones of the requested family |
| `DnsFilter.Resolved` | src/probe/dns.rs:106-155 | the first 32 of them are kept; truncated iff there are more; Fail iff there are none |

## Left out

- Files and JSON text: reading, size limits and parsing of reports, rulesets and configuration; the model starts from parsed values or lines.
- Sanitizing of the strings in comparison inputs and error messages: values there are carried through as they are.
- Target and proxy URLs, command-line options, environment lookup and choice of the proxy variable: a target is an already parsed scheme, host and port.
- IP address text: recognising it is the parameter `parseIp`, and writing it is the parameter `text` of redaction.
- Sockets, timeouts, process spawning, signals, TLS handshakes and certificates: outcomes, byte streams and events stand for them.
- HttpExchange.AnswerBounded: counts the bytes taken from the buffered reader, which may itself have read up to one buffer further from the stream.
- HTTP CONNECT: it uses the same line reader, status-line parser and header draining as the exchange; what differs is one range test and a buffer that may read ahead.
- Resolving the proxy's own host and the plan for an unavailable proxy: the run starts from the list of proxy addresses, possibly empty.
- NoProxy.EntryMatches: splits no list of entries and trims no white space, and the choice between `NO_PROXY` and `no_proxy` is not modelled.
- A process selected by `--pid`: it is pinned and entered the same way, without the second resolution.
- ContextPin.Execute: the target changing its own namespaces or root after being pinned, and bind mounts of namespaces, are not events of the system.
- The container runtime's answer: a resolution reads the live init process at that moment. A runtime that still reports the PID of an init that has exited is assumed away; that PID could be reused before the first resolution.
- Members of nft sets, and chains that a rule hands the packet on to: a set operand is left to the valuation, and a match is about the rule alone.
- The working directory itself: that its change can fail is modelled, what it is afterwards is not part of the context.
- The process environment and the list of required capabilities in the execution context.
- Summaries, suggestions, notes and human rendering: the verdict keeps status, code, exit code and whether the cause is stock or observed.
- Field-by-field redaction of a report: long lists of copies around the hash, pseudonym and address mapping.
- Plugins, the macOS route parser, `gai.conf`, path MTU and the parsing of `ip route` output: guards and field accesses.
- Durations, except as the sort key of direct candidates.
