# HRDLOG.net protocol client — Dafny model

This project models `HrdProtocol`, the client class of the HRDLOG.net library.
The class submits amateur-radio contact records (QSOs, in ADIF text) and
live "on air" status updates to the HRDLOG.net service. It holds a fixed
identity (callsign, upload code, application name) and a host policy (a
`[Flags]` set over the two servers, plus a `secure` switch for submissions).
Each send operation (`SendQsoAsync`, `SendOnAirAsync`) does four things in order:

- it pings the configured servers in enum order and picks the first that answers;
- it builds an ordered list of form fields;
- it posts the form once;
- it decodes the XML reply envelope in the `http://xml.hrdlog.com` namespace.

The reachability checks (`IsHostReachableAsync`, `WhichHostIsReachableAsync`) do only the first step.

The network is modelled by oracles passed to each call:

- `ping: string -> PingOutcome` stands for `Ping.SendPingAsync`, including the case where it throws;
- `post: Request -> HttpOutcome` stands for `HttpClient.PostAsync` together with XML loading of the body.

Each operation also returns the addresses it pinged and the request it
posted, if any. These outputs are a record of the I/O the source performs.
They let the contracts say that a failure happens before any POST.

Modules:

- `Wrappers`: `Option` (for C# `null`), the exceptions the client throws, and `Outcome` (return or throw).
- `Numeric`: `long.ToString()` (`FormatInt64`) and `int.TryParse` (`TryParseInt32`), with round-trip lemmas.
- `Xml`: namespaced names, elements with a text value and children, and `XContainer.Element` (first child of a name).
- `HostSelection`: the `Hosts` flags, `GetHostAddress`, and the scan `WhichHostIsReachableAsync` performs, as specification functions and lemmas.
- `Requests`: the commands (including an integer outside the enum, which a C# enum admits), the argument checks, the submission and on-air forms, the endpoints, and the expected reply element names.
- `Responses`: `Status`, `HrdResponse`, the Dupe rule, and the decoding of submission and on-air replies.
- `HrdLibrary`: the class `HrdProtocol`. Its fields are `const`. Its methods follow the source statement by statement: the `foreach` scan with early return, the form built by successive appends, and the `result` updated branch by branch. Each method is proved against the specification functions above.

Behaviours of the source worth stating:

- The argument checks of `SendQsoAsync` run only after the host scan, which pings the network. So with no reachable host, an invalid call fails with "Servers not available", not with `ArgumentNullException`. No POST happens either way.
- The on-air push always uses plain `http`. Only submissions follow the `secure` switch.
- A count of `0` gives `Dupe`, and so does a count that does not parse. The success text becomes the message for both `Ok` and `Dupe`. A negative count gives `Ok`.
- A `Cmd` value outside `Insert`, `Delete` and `Update` (any integer cast to the enum) matches no case of the command switch. It is not checked, it posts the identity fields alone, and its reply is read against the initial `insert`. The model calls it `Cmd.Undefined`.

## Model

| member | source | states |
|---|---|---|
| `HrdLibrary.HrdProtocol.constructor` | src/HRDlibrary/HrdProtocol.cs:31-38 | the identity, host set and `secure` switch are stored verbatim and are never changed afterwards (the fields are `const`) |
| `HrdLibrary.HrdProtocol.WithDefaults` | src/HRDlibrary/HrdProtocol.cs:31 | the default arguments give both host flags set (the value 3) and secure submissions |
| `HrdLibrary.HrdProtocol.WhichHostIsReachable` | src/HRDlibrary/HrdProtocol.cs:67-94 | the loop returns the scan's selected address (`null` when no configured host answers) and sends exactly the scan's sequence of pings |
| `HrdLibrary.HrdProtocol.PingHost` | src/HRDlibrary/HrdProtocol.cs:76-86 | the guarded ping reports `Success` exactly when the oracle replied `Success`; a throwing ping leaves the status `Unknown` |
| `HrdLibrary.HrdProtocol.IsHostReachable` | src/HRDlibrary/HrdProtocol.cs:60-63 | true exactly when some configured member's host answers the ping |
| `HrdLibrary.HrdProtocol.SendQso` | src/HRDlibrary/HrdProtocol.cs:101-193 | the failure order: no host gives "Servers not available" with no POST; then a missing argument gives `ArgumentNullException` naming it, with no POST; otherwise exactly one POST of the submission form to `/NewEntry.aspx` on the selected host, whose reply is decoded by `QsoReply` with the command's reply element name |
| `HrdLibrary.HrdProtocol.AddCommandFields` | src/HRDlibrary/HrdProtocol.cs:112-148 | the command switch reports the first missing argument exactly as `ArgumentError` does; otherwise it appends the command's fields and picks the reply element `ReplyName` gives |
| `HrdLibrary.HrdProtocol.PostQso` | src/HRDlibrary/HrdProtocol.cs:150-157 | the submission goes to `QsoUri` of the selected host with the given form, and its outcome is `QsoReply` of the oracle's answer |
| `HrdLibrary.HrdProtocol.ReadNewEntry` | src/HRDlibrary/HrdProtocol.cs:155-187 | the branch-by-branch updates of `result` produce `InterpretNewEntry` of the document |
| `HrdLibrary.HrdProtocol.SendOnAir` | src/HRDlibrary/HrdProtocol.cs:200-251 | no host gives "Servers not available" with no POST; otherwise exactly one POST of the on-air form to `http://<host>/OnAir.aspx`, decoded by `OnAirReply` |
| `HrdLibrary.HrdProtocol.PostOnAir` | src/HRDlibrary/HrdProtocol.cs:226-232 | the push goes to `OnAirUri` of the selected host with the given form, and its outcome is `OnAirReply` of the oracle's answer |
| `HrdLibrary.HrdProtocol.ReadOnAir` | src/HRDlibrary/HrdProtocol.cs:230-245 | the on-air reader returns `InterpretOnAir` of the document |
| `HostSelection.GetHostAddress` | src/HRDlibrary/HrdProtocol.cs:40-56 | flag value 1 maps to `robot.hrdlog.net` and flag value 2 to `www.hrdlog.net`, both hosts under `hrdlog.net` |
| `HostSelection.SelectHost` | src/HRDlibrary/HrdProtocol.cs:67-94 | some address is selected exactly when some configured member's host answers, and then it is the address of such a member |
| `HostSelection.ProbedHosts` | src/HRDlibrary/HrdProtocol.cs:67-94 | the pings sent are a prefix of the configured addresses in enum order: all of them when no host is selected, and ending with the selected host otherwise |
| `HostSelection.SelectFromIsFirstAnswer` | src/HRDlibrary/HrdProtocol.cs:70-92 | if member k is the first configured member whose host answers, the scan returns that member's address |
| `HostSelection.SelectFromSound` | src/HRDlibrary/HrdProtocol.cs:70-92 | every returned address belongs to a configured member that answers, and no earlier member answers |
| `HostSelection.SelectFromNone` | src/HRDlibrary/HrdProtocol.cs:70-92 | the scan returns `null` exactly when no configured member answers |
| `HostSelection.ProbesFromShape` | src/HRDlibrary/HrdProtocol.cs:70-89 | the pings sent are a prefix of the configured addresses in enum order: all of them when nothing answers, and ending with the winner when one answers; unset members are never pinged |
| `HostSelection.SelectHostCases` | src/HRDlibrary/HrdProtocol.cs:40-92 | for the two members: `robot.hrdlog.net` if Primary is set and answers, else `www.hrdlog.net` if Secondary is set and answers, else `null`; also which pings are sent |
| `HostSelection.NoHostsConfigured` | src/HRDlibrary/HrdProtocol.cs:70-92 | with no flag set, nothing is pinged and the result is `null` |
| `HostSelection.SelectHostIgnoresOtherBits` | src/HRDlibrary/HrdProtocol.cs:19-24 | bits of the `Hosts` value other than the two members' bits change neither the result nor the pings |
| `HostSelection.ThrowingPingIsUnreachable` | src/HRDlibrary/HrdProtocol.cs:77-86 | a ping that throws never counts as success |
| `Requests.ArgumentError` | src/HRDlibrary/HrdProtocol.cs:123-142 | a reported parameter is `Adif` for a command that sends a record, or `QsoKey` for one that names a key, and it is empty or null; no report means every field the command needs is non-empty |
| `Requests.ArgumentErrorIff` | src/HRDlibrary/HrdProtocol.cs:123-148 | the converse: the checks pass exactly when Insert/Update have a non-empty `Adif` and Delete/Update have a non-empty `QsoKey`; `Adif` is reported before `QsoKey`; an undefined command is never rejected |
| `Requests.QsoForm` | src/HRDlibrary/HrdProtocol.cs:118-148 | the submission form starts with `Callsign`, `Code`, `App` holding the identity verbatim, then has exactly the field names the command sends, each once |
| `Requests.QsoFormContents` | src/HRDlibrary/HrdProtocol.cs:118-148 | a server reading the form finds the identity, and finds `ADIFData`/`ADIFKey`/`Cmd` only for the commands that send them, holding the record, the key and `DELETE`/`UPDATE` (the command name in upper case); an undefined command sends the identity alone |
| `Requests.UnusedArgumentIgnored` | src/HRDlibrary/HrdProtocol.cs:123-148 | Insert's checks and form do not depend on the key, Delete's do not depend on the record, and an undefined command's depend on neither |
| `Requests.OnAirForm` | src/HRDlibrary/HrdProtocol.cs:218-224 | the on-air fields are `Frequency`, `Mode`, `Radio`, `Callsign`, `Code`, `App` in that order, each once, ending with the identity fields |
| `Requests.OnAirFormContents` | src/HRDlibrary/HrdProtocol.cs:218-224 | a server reading the on-air form finds the mode, rig and identity, and the frequency field reads back as the frequency sent |
| `Requests.QsoUri` | src/HRDlibrary/HrdProtocol.cs:151 | submissions go to `/NewEntry.aspx` on the selected host, over `https` exactly when `secure` |
| `Requests.OnAirUri` | src/HRDlibrary/HrdProtocol.cs:227 | on-air pushes go to `/OnAir.aspx` on the selected host over `http` whatever the setting, never to a submission URI |
| `Requests.ReplyName` | src/HRDlibrary/HrdProtocol.cs:112-146 | the expected reply element is the command's name in lower case and never `error`; an undefined command keeps the initial `insert` |
| `Requests.ReplyNamesDistinct` | src/HRDlibrary/HrdProtocol.cs:112-146 | distinct named commands expect distinct reply elements; an undefined command expects Insert's |
| `Numeric.DecimalRoundTrip` | src/HRDlibrary/HrdProtocol.cs:219 | the decimal digits produced for a natural number read back as that number |
| `Numeric.FormatInt64RoundTrip` | src/HRDlibrary/HrdProtocol.cs:219 | `long.ToString()` is read back exactly by the signed decimal reader |
| `Numeric.TryParseFormatted` | src/HRDlibrary/HrdProtocol.cs:168 | `int.TryParse` accepts the spelling of a `long` exactly when it fits in 32 bits, and then yields that value |
| `Numeric.TryParseIgnoresWhite` | src/HRDlibrary/HrdProtocol.cs:168 | leading or trailing white space does not change what `int.TryParse` reads |
| `Numeric.TryParseInt32` | src/HRDlibrary/HrdProtocol.cs:168 | a successful parse always lies in the 32-bit signed range |
| `Numeric.FormatInt64` | src/HRDlibrary/HrdProtocol.cs:219 | `long.ToString()` is a `-` followed by digits for negative values and digits alone otherwise, with no leading zero except in `"0"` |
| `Numeric.NatToDecimal` | src/HRDlibrary/HrdProtocol.cs:219 | the spelling is a non-empty digit string with no leading zero, and is `"0"` only for zero |
| `Xml.FirstNamed` | src/HRDlibrary/HrdProtocol.cs:159-164 | the lookup yields the first child with the name, and nothing exactly when no child has it |
| `Xml.Element` | src/HRDlibrary/HrdProtocol.cs:234-239 | a found element is a child with the requested name; none is found exactly when no child has that name |
| `Responses.IsDupeCount` | src/HRDlibrary/HrdProtocol.cs:168 | a text counts as a new record only when `int.TryParse` reads a non-zero 32-bit value from it; an empty success element is a duplicate |
| `Responses.DupeOfCount` | src/HRDlibrary/HrdProtocol.cs:168 | a spelled-out count is a duplicate exactly when it is zero or does not fit in 32 bits |
| `Responses.DupeCountExamples` | src/HRDlibrary/HrdProtocol.cs:168 | the texts `0`, empty and `abc` count as duplicates |
| `Responses.OkCountExamples` | src/HRDlibrary/HrdProtocol.cs:168 | the texts `17` and `1` are not duplicates |
| `Responses.InterpretNewEntry` | src/HRDlibrary/HrdProtocol.cs:159-185 | a message is the text of a success or `error` child of a `NewEntry` element under the root; no message means `Error`; `Ok`/`Dupe` carry a message and follow the count rule; `UnknownUser` carries the literal text; a reply element named `error` never succeeds |
| `Responses.SuccessDecoding` | src/HRDlibrary/HrdProtocol.cs:165-177 | a success child with no `error` child gives its text as the message, and `Dupe` or `Ok` by the count rule |
| `Responses.ErrorDecoding` | src/HRDlibrary/HrdProtocol.cs:164-185 | an `error` child wins even beside a success child: its text is the message, and the status is `UnknownUser` exactly for `Unknown user`, `Error` otherwise |
| `Responses.DefaultDecoding` | src/HRDlibrary/HrdProtocol.cs:103-106 | no `NewEntry` element, or neither child, gives `Error` with a null message |
| `Responses.DecodingCharacterization` | src/HRDlibrary/HrdProtocol.cs:161-185 | the converse: `Ok`/`Dupe` come only from a success child without `error`; `UnknownUser` comes only from the literal text; a null message comes only from the default case and always with `Error` |
| `Responses.AcceptedReplyExample` | src/HRDlibrary/HrdProtocol.cs:165-176 | an `insert` reply of `17` decodes to `Ok` with message `17` |
| `Responses.DuplicateReplyExample` | src/HRDlibrary/HrdProtocol.cs:165-172 | an `insert` reply of `0` decodes to `Dupe` with message `0` |
| `Responses.UnknownUserReplyExample` | src/HRDlibrary/HrdProtocol.cs:178-185 | an `error` reply of `Unknown user` decodes to `UnknownUser` |
| `Responses.OtherErrorReplyExample` | src/HRDlibrary/HrdProtocol.cs:178-185 | any other error text decodes to `Error` carrying the text |
| `Responses.MismatchedReplyExample` | src/HRDlibrary/HrdProtocol.cs:163-165 | a success child named for another command is ignored: `Error` with no message |
| `Responses.InsertAcceptedIsOkOrDupe` | src/HRDlibrary/HrdProtocol.cs:163-177 | an Insert answered by an envelope holding only an `insert` child is `Ok` or `Dupe`, whatever the count text |
| `Responses.InterpretOnAir` | src/HRDlibrary/HrdProtocol.cs:234-244 | a true result needs an `OnAir` child of the root holding an `insert` child and no `error` child |
| `Responses.OnAirDecoding` | src/HRDlibrary/HrdProtocol.cs:234-244 | the on-air result is true exactly when an `OnAir` element has an `insert` child and no `error` child |
| `Responses.OnAirReplyExamples` | src/HRDlibrary/HrdProtocol.cs:234-244 | an `insert`-only reply gives true; an `error` child, with or without `insert`, or a missing `OnAir` element gives false |
| `Responses.QsoReply` | src/HRDlibrary/HrdProtocol.cs:152-157 | a submission throws only `HttpRequestException`, `TaskCanceledException`, "Server error" or `XmlException`; it returns only for a success status with an XML body, and then returns the decoded envelope |
| `Responses.QsoReplyFailures` | src/HRDlibrary/HrdProtocol.cs:152-157 | the converse: a submission throws exactly on a failed or timed-out transfer, a non-success status ("Server error", whatever the body) or a body that is not XML, each with its own exception |
| `Responses.OnAirReply` | src/HRDlibrary/HrdProtocol.cs:227-232 | an on-air push throws only the same four exceptions, and returns only the decoded reply of a success status with an XML body |
| `Responses.OnAirReplyFailures` | src/HRDlibrary/HrdProtocol.cs:227-232 | the same failure cases and exceptions for the on-air push; a `true` result needs a well-formed body that decodes to true |

## Left out

- Asynchrony (`async`/`Task`), the clocks behind the 5-second ping and POST timeouts, and `HttpClient`/`Ping` objects and their disposal. These are I/O. The ping and the POST are oracle parameters. A ping that times out is a reply with a status other than `Success`. A POST that fails is `HttpOutcome.TransportFailed` (`HttpRequestException`), and one that outlives `HttpClient.Timeout` is `HttpOutcome.TimedOut` (`TaskCanceledException`).
- `FormUrlEncodedContent` percent-encoding and `Uri` construction are library behaviour. The form is an ordered pair list and the URI is a scheme/host/path triple. A `null` mode, rig or identity string (sent as an empty value by the encoder) is not modelled: those parameters are plain strings.
- XML parsing (`XmlReader`, `XDocument.Load`) is a foreign library. A body that does not parse is `None` and throws `XmlException`. `XElement.Value` (the concatenated descendant text) is taken as the element's given `value`.
- `Numeric.TryParseInt32`: models `int.TryParse` for the invariant culture only. It accepts optional ASCII white space, one `+` or `-`, then ASCII digits, in the 32-bit range. Culture-specific sign symbols and trailing NUL characters, which .NET also accepts, are not modelled.
- `Numeric.FormatInt64`: models `long.ToString()` with `-` as the negative sign; other cultures' sign symbols are not modelled.
- `HostSelection.IPStatus` keeps only `Success`, `Unknown` and an opaque code for the other ping statuses, because the source tests only for `Success`.
- The `default` of the switch in `GetHostAddress`, which returns `null` for any value that is not a single member, cannot be reached: the scan passes only the two enum members, and `HostFlag` has only those two.
- `HrdResponse` is a mutable C# class used as a record. Here it is a datatype, and `result` is replaced by updated copies.
- The idea of sending to both hosts (the comment at line 9) is not implemented in the source. The optional on-air fields listed only in comments (azimuth, latitude, longitude, status, station) are not sent by the source either.
- src/HRDLibrary.Test/UnitTest1.cs is a live-network test against an older interface of the class. Its "Ok or Dupe" expectation is stated on the model by `Responses.InsertAcceptedIsOkOrDupe`.
