# A verified model of homescoop's cores

The project models, in Dafny 4.11, the parts of the repository that are algorithms of their own:
protocol state machines, parsers, encoders and calendar arithmetic. Code that changes things
step by step is modelled as methods and classes that do the same, each proved against a
specification function; what the repository promises is then proved about those functions.
`dafny verify dfyconfig.toml` checks everything.

| files | models |
|---|---|
| `ClientHello`, `HelloParser`, `HelloSound`, `TlsSession`, `TlsGate`, `TlsObject` | the server-select path of the TLS engine: byte buffers, reassembly of the ClientHello (section 5.1 of RFC 8446), its parser (section 4.1.2; section 3 of RFC 6066; section 3.1 of RFC 7301) and the gate in front of Mbed TLS |
| `Glob`, `GlobTokens` | the glob matcher that backtracks to the last star only |
| `Calendar`, `TimeZone`, `TransitionCycle`, `DaylightSaving`, `DaylightZones` | the proleptic Gregorian calendar in both directions; POSIX time zone rules, `localtime` and `mktime`; when the answer of `in_dst` is right |
| `Text`, `Utf8`, `HttpBody`, `HttpEncoding`, `HttpHead`, `HttpFraming`, `HttpReuse`, `HttpSound`, `HttpMessages`, `HttpConn`, `HttpClient` | the HTTP/1.1 response reader, over any short reads, with its connection pool (sections 6.3 and 7.1 of RFC 9112) |
| `UrlPath`, `UrlText`, `UrlJoin` | dot-segment removal and relative resolution (section 5.2 of RFC 3986); parsing and printing of URLs |
| `ForkModel`, `ForkReports`, `ForkObject` | `fork()` inside one process, with descriptor tables and the wait table |
| `Canceller`, `CancellerFrames`, `CancellerObject` | the audio frame adapter and its reference ring |
| `LinkOrder` | the component closure of the generated `llvm-config` |
| `Leb`, `WasmSections`, `NameMaps`, `RenumberNames`, `SplitNames` | the two scripts that move WebAssembly function names |
| `BitStrings`, `DnsBase`, `DnsNames`, `DnsTypes` | the DNS presentation encoders (RFC 4648, RFC 1035, section 4.1.2 of RFC 4034) |

## Where the code does less than promised

Each of these is stated with the exact condition under which the promise holds.

- `in_dst` looks only at the rules of the civil year that standard time shows. For rules whose
  transitions alternate it is right at every instant exactly if no transition leaves its year
  (`DaylightSaving.InDstExact`), and for rules whose transitions stay in their years exactly if
  they come in the same order every year (`DaylightSaving.InDstNeedsOrder`); 400 years decide
  both. For any other rules, 1200 instants decide (`DaylightSaving.InDstSampled`). A zone that
  ends daylight saving time at new year is off for an hour (`DaylightZones.NewYearZoneIsWrong`).
- `join` takes the path of a location with an authority as it is, dot segments included
  (`UrlJoin.DotsStay`); it takes a location with a scheme and no authority for a path
  (`UrlJoin.MailStays`); and it removes the dot segments of the base path for a location that is
  empty or only a query (`UrlJoin.EmptyLocationIsNotResolved`). Section 5.2.2 of RFC 3986 asks
  for none of this; `UrlJoin.JoinFollows` says exactly when the two agree.
- `framing` looks at the first Transfer-Encoding line only and counts an empty element behind
  its last comma, and it takes a length with a plus in front; `HttpFraming.FramingExact` says
  exactly when it still agrees with section 6.3 of RFC 9112. `HttpFraming.SecondLineUnseen`,
  `CommaUnseen` and `PlusTaken` are responses on which it does not. A chunk size may have a plus
  in front as well (`HttpFraming.PlusSizeTaken`).
- `keep_alive` keeps a connection of version 1.0 that asks for both `keep-alive` and `close`,
  which section 9.3 of RFC 9112 closes (`HttpReuse.KeepAliveAgrees`).
- A URL that was parsed does not always print to a text that parses to the same URL: the host
  may hold both a colon and a closing bracket, or begin with an opening one, and a path may end
  in Unicode white space once the fragment is dropped (`UrlText.PrintedReadsBack`;
  `UrlText.OddHostDoesNotReadBack` and `UrlText.WhitePathDoesNotReadBack` are such URLs). `parse`
  also lets through a scheme with anything behind a colon of its own (`UrlText.ParsedScheme`),
  such as `a:b://host` (`UrlText.ColonSchemeParses`).
- `split-name-section.py` refuses modules whose `name` section is padded or cut short
  (`SplitNames.SplitsExactly`, `SplitNames.LongSizeIsRefused`); `names.py` drops only the last
  of several `name` sections (`RenumberNames.StrippedParses`, `RenumberNames.OneNameIsLeft`),
  and its check of the types of named functions cannot fail (`RenumberNames.TypesShift`).
- `fork()` promises the parent its working directory; it gets it back exactly if the directory
  is still there or the child ended in it (`ForkModel.DirectoryBack`, `ForkModel.DirectoryLost`).

## Model

| member | source | states |
|---|---|---|
| Glob.Matches | packages/wasi-hf/src/util.rs:44-95 | the loop that remembers only the last star answers, for every pattern and byte string, whether the string is in the language the tokens denote; it terminates |
| Glob.Class | packages/wasi-hf/src/util.rs:97-124 | whether a class ends, and where, does not depend on the byte; its answer is membership in its ranges, negated if it begins with `!` or `^` |
| Glob.Step | packages/wasi-hf/src/util.rs:49-80 | one step takes a byte exactly when the token at that place accepts it; a `[` without an end is a literal |
| Glob.Glob | packages/wasi-hf/src/util.rs:39-42 | a pattern that ends in a slash matches exactly the paths some beginning of which it denotes; any other, the paths it denotes |
| GlobTokens.PlainTokens | packages/wasi-hf/src/util.rs:60-80 | `*` is any string, `?` any byte, and any byte but `[` stands for itself |
| GlobTokens.OpenBracket | packages/wasi-hf/src/util.rs:74-80 | a `[` that no `]` follows stands for itself |
| GlobTokens.ClassTokens | packages/wasi-hf/src/util.rs:97-124 | `[x]` is the byte x and `[x-y]` any from x to y |
| GlobTokens.NegatedTokens | packages/wasi-hf/src/util.rs:97-124 | `[!x]` and `[^x]` are any byte but x |
| Glob.LastStarSuffices | packages/wasi-hf/src/util.rs:50-55 | once a later star is reached, whatever an earlier star could still match from a later mark, the later one matches from here |
| Glob.DenotesAppend | packages/wasi-hf/src/util.rs:36-42 | the language of two patterns one behind the other is that of all cuts into a part for each |
| Glob.FolderTokens | packages/wasi-hf/src/util.rs:40 | a star put behind a final slash is a star, never a member of an open class |
| Calendar.DaysFromCivilIsNaive | packages/coreutils/slicc_tz.c:209-216 | the closed form equals adding up year and month lengths, for every year, negative ones included, and any day offset |
| Calendar.CivilIsRight | packages/wasi-dig/src/present.rs:287-300 | every second count gives a valid date and time, which counts back to it |
| Calendar.CivilInverts | packages/wasi-dig/src/present.rs:287-300 | every valid date and time comes back from its second count |
| Calendar.CivilDateInverts | packages/wasi-dig/src/present.rs:287-300 | every valid date comes back from its day number |
| Calendar.DatesAreDistinct | packages/coreutils/slicc_tz.c:209-216 | different dates have different day numbers |
| TimeZone.MonthRulePicks | packages/coreutils/slicc_tz.c:229-235 | an M rule names the given weekday for the n-th time in the month, and for week 5 the last one |
| TimeZone.NthWeekdayUnique | packages/coreutils/slicc_tz.c:229-235 | no other day of the month fits an M rule |
| TimeZone.JulianDate | packages/coreutils/slicc_tz.c:223-225 | a J rule names the same month and day in every year, and never 29 February |
| TimeZone.RuleSecs | packages/coreutils/slicc_tz.c:220-237 | the loop computes the instant of the rule in the given year |
| TimeZone.FirstGuess | packages/coreutils/slicc_tz.c:241 | dividing with truncation by the mean year is at most one year early and two late, negative times included |
| TimeZone.TwoCorrectionsNeeded | packages/coreutils/slicc_tz.c:241-245 | the first guess is two years late at a concrete instant, so one correction would not do |
| TimeZone.IsDst | packages/coreutils/slicc_tz.c:239-249 | the two corrections always land on the civil year of standard time, and the answer is by the rules of that year |
| TransitionCycle.YearShift | packages/coreutils/slicc_tz.c:220-237 | 400 years later both transitions and the beginning of a year come the same number of seconds later, for every pair of rules |
| TransitionCycle.InDstShift | packages/coreutils/slicc_tz.c:239-249 | and `in_dst` answers the same |
| DaylightSaving.InDstSampled | packages/coreutils/slicc_tz.c:239-249 | whatever the rules are, the answer is right at every instant exactly if it is right at the two transitions and the beginning of each of 400 years |
| DaylightSaving.InDstIsSinceStart | packages/coreutils/slicc_tz.c:246-248 | where the transitions of 400 years alternate and the time between those of one year stays in it, the answer at every instant is whether the last transition was a start |
| DaylightSaving.InDstExact | packages/coreutils/slicc_tz.c:239-249 | for rules whose transitions alternate over 400 years, also where one year's end meets the next year's start, the answer is right at every instant exactly if in each of those years the time between the transitions stays in the year that standard time shows |
| DaylightSaving.InDstNeedsOrder | packages/coreutils/slicc_tz.c:239-249 | for rules whose transitions stay in the year in each of 400 years, the answer is right at every instant exactly if start and end come in the same order in all of them |
| DaylightSaving.MonthRulesStayInYear | packages/coreutils/slicc_tz.c:239-249 | two month rules in different months, at ordinary times of day and with daylight saving ahead of standard time or behind it, always stay in the year and in one order |
| DaylightZones.AllYearZoneIsRight | packages/coreutils/slicc_tz.c:239-249 | a zone on daylight saving time all year, whose end meets the next start, answers so at every instant |
| DaylightZones.NewYearZoneIsWrong | packages/coreutils/slicc_tz.c:239-249 | a zone whose rules alternate, and an instant at which the answer is wrong |
| DaylightZones.SundayZoneIsRight | packages/coreutils/slicc_tz.c:239-249 | a zone whose transitions neither alternate nor stay in their years, and whose answer is right at every instant |
| DaylightZones.SundayZoneIsOfNeitherKind | packages/coreutils/slicc_tz.c:239-249 | that zone's start and end change places between two years, and its start leaves its year |
| DaylightZones.LongYearZoneIsWrong | packages/coreutils/slicc_tz.c:239-249 | a zone of neither kind whose answer is wrong in every year |
| TimeZone.ZoneAt | packages/coreutils/slicc_tz.c:278-283 | offset and flag of a zone given by rules |
| TimeZone.LocalTimeR | packages/coreutils/slicc_tz.c:310-322 | the broken-down local time, whose fields are in range and come back to the instant with the offset they show |
| TimeZone.TimeGmOfLocalTime | packages/coreutils/slicc_tz.c:310-322 | the broken-down time of an instant is a date that exists with a time of day, shows the offset and the flag in effect, and is the instant again once that offset is taken off |
| TimeZone.TimeGmCarries | packages/coreutils/slicc_tz.c:326-342 | fields out of range are carried over: twelve months are a year, and days, hours, minutes and seconds are as many as they are |
| TimeZone.SettledShows | packages/coreutils/slicc_tz.c:334-338 | the search settles on an instant that shows the wall time whenever one does, in an overlap the one in standard time |
| TimeZone.MkTime | packages/coreutils/slicc_tz.c:326-342 | three rounds reach the settled instant; a given flag picks its offset; the fields come back normalised |
| TimeZone.RoundTrip | packages/coreutils/slicc_tz.c:310-342 | mktime undoes localtime at every instant of every zone given by rules |
| ClientHello.HelloAssemble | packages/tls-engine/src/slicc_tls_engine.c:881-908 | rereading the input buffer from its start gives the answer of the reassembly of its records, and the message itself in the hello buffer |
| ClientHello.AssembleInputStable | packages/tls-engine/src/slicc_tls_engine.c:881-908 | an answer other than "need more" on a buffer that is not full is the answer on every extension of it |
| ClientHello.ReassemblesInput | packages/tls-engine/src/slicc_tls_engine.c:881-908 | however a ClientHello is cut into records, the answer is "need more" until the last byte and then exactly the message |
| HelloSound.BadRecord | packages/tls-engine/src/slicc_tls_engine.c:892-898 | a record of another type or major version, without a body or with too long a one, is refused with the alert for it, whatever good records came before |
| HelloSound.OtherMessage | packages/tls-engine/src/slicc_tls_engine.c:885-887 | another handshake message, or one of more than 32768 bytes, is refused once its first four bytes are there |
| HelloSound.FullBuffer | packages/tls-engine/src/slicc_tls_engine.c:906 | 40960 bytes of an unfinished ClientHello are refused |
| HelloParser.HelloParse | packages/tls-engine/src/slicc_tls_engine.c:939-970 | the parser as loops computes the parse of the message |
| HelloParser.HelloSni | packages/tls-engine/src/slicc_tls_engine.c:910-926 | the host name loop |
| HelloParser.HelloAlpn | packages/tls-engine/src/slicc_tls_engine.c:928-937 | the protocol list check |
| HelloParser.MessageRoundTrip | packages/tls-engine/src/slicc_tls_engine.c:939-970 | parsing any serialised ClientHello gives what its extensions mean, or the alert for a repeated or unusable one |
| HelloParser.MeaningOfOffer | packages/tls-engine/src/slicc_tls_engine.c:952-968 | with at most one server_name and one ALPN extension, among any others in any order, the outcome is the first host name and the protocol list |
| HelloSound.HelloIsSound | packages/tls-engine/src/slicc_tls_engine.c:939-970 | whatever is accepted has the shape of section 4.1.2 of RFC 8446, with at most one server_name and one ALPN extension, and the offer is what those two hold |
| HelloParser.AlpnOffered | packages/tls-engine/src/slicc_tls_engine.c:1021-1025 | the search over the length-prefixed list |
| HelloParser.OfferedIsListed | packages/tls-engine/src/slicc_tls_engine.c:1021-1025 | a protocol counts as offered exactly if the client listed it |
| TlsObject.Session.BioRecv | packages/tls-engine/src/slicc_tls_engine.c:338-346 | hands over a beginning of the buffered input and keeps the rest in order; without any, the end of input and "not yet" are told apart |
| TlsObject.Session.BioSend | packages/tls-engine/src/slicc_tls_engine.c:348-356 | queues as much as there is room for behind what is queued |
| TlsObject.Session.TlsFeed | packages/tls-engine/src/slicc_tls_engine.c:1159-1165 | takes as much as there is room for |
| TlsObject.Session.TlsOutTake | packages/tls-engine/src/slicc_tls_engine.c:1227-1233 | hands over a beginning of the output |
| TlsObject.Session.RefuseClient | packages/tls-engine/src/slicc_tls_engine.c:985-995 | one alert record if there is room for it, and the selection is over |
| TlsObject.Session.RunGate | packages/tls-engine/src/slicc_tls_engine.c:997-1019 | the gate in front of Mbed TLS, which consumes no input |
| TlsObject.Session.TlsHandshake | packages/tls-engine/src/slicc_tls_engine.c:1104-1116 | Mbed TLS runs only behind an open gate; while the ClientHello is unfinished the answer is "more input", or the end of the connection once input has ended; at a complete one it is to select, or the alert that refuses it; a refused session fails with its error |
| TlsObject.Session.TlsRead | packages/tls-engine/src/slicc_tls_engine.c:1180-1185 | the same for a read, which waits for the selection and reports the end of input as such |
| TlsObject.Session.TlsWrite | packages/tls-engine/src/slicc_tls_engine.c:1208-1212 | the same for a write, which waits for the selection and fails at the end of input |
| TlsObject.Session.TlsServerSelect | packages/tls-engine/src/slicc_tls_engine.c:1027-1050 | served exactly while paused, with a certificate, a protocol the client offered or none, and Mbed TLS agreeing; otherwise a bad argument, or the client refused with an internal_error on the wire |
| TlsObject.Session.TlsServerRefuse | packages/tls-engine/src/slicc_tls_engine.c:1052-1067 | refused exactly while paused and with one of five codes, which then stands in the alert on the wire; the last error stays |
| TlsObject.Session.TlsClose | packages/tls-engine/src/slicc_tls_engine.c:1236-1239 | close_notify is written past the gate and only to the output |
| TlsSession.StepKeeps | packages/tls-engine/src/slicc_tls_engine.c:985-1067 | every call keeps the invariant of the session |
| TlsSession.RunKeeps | packages/tls-engine/src/slicc_tls_engine.c:338-356 | over any calls, the bytes delivered and those still buffered are the bytes fed, in order, and likewise outwards; at most one alert is queued by refusals; Mbed TLS has not run while selecting |
| TlsSession.RunFollows | packages/tls-engine/src/slicc_tls_engine.c:997-1019 | over any calls, a choice or a refusal is never left, and a refusal keeps its error |
| TlsSession.DeliveredAfterChoice | packages/tls-engine/src/slicc_tls_engine.c:997-1050 | Mbed TLS gets its first byte only after the choice, the protocol chosen is one the client listed, and its input begins with the ClientHello that was read |
| TlsSession.WaitsForHello | packages/tls-engine/src/slicc_tls_engine.c:1000-1003 | whatever is called, a session waits until the last byte of the ClientHello is fed, and keeps every byte; of the end of input it keeps only that it came |
| TlsSession.StopsAtHello | packages/tls-engine/src/slicc_tls_engine.c:1000-1018 | the next gated call then stops at the ClientHello with exactly what the client offered |
| TlsGate.GateAnswers | packages/tls-engine/src/slicc_tls_engine.c:997-1019 | in every state a session can be in, what a handshake, a read and a write answer and leave, by the bytes fed so far |
| TlsGate.EarlyEnd | packages/tls-engine/src/slicc_tls_engine.c:1003 | over any calls: while the bytes fed are a proper beginning of a ClientHello, all three ask for more, or after the end of input fail with it or report it; the session stays as it is, with every byte |
| TlsGate.RecordsTurnedAway | packages/tls-engine/src/slicc_tls_engine.c:985-1016 | a client whose records are refused gets the alert with its code on the wire, and the call fails with its error |
| TlsGate.SelectChooses | packages/tls-engine/src/slicc_tls_engine.c:1027-1050 | what choosing does, with its refusals |
| TlsGate.RefusalTurnsDown | packages/tls-engine/src/slicc_tls_engine.c:1052-1067 | what refusing does, with the five codes and their errors |
| TlsSession.OfferIsSeen | packages/tls-engine/src/slicc_tls_engine.c:881-1019 | from end to end: a ClientHello in any records, fed in any pieces between any other calls, stops the first gated call behind its last byte, with exactly its host name and protocols, and nothing is consumed |
| HttpBody.ReadAgrees | crates/wasix-net/src/http/wire.rs:320-380 | whatever the transport hands over, a read gives a piece of the body, and state and stream left behind stand for the rest |
| HttpBody.RunDelivers | crates/wasix-net/src/http/wire.rs:320-380 | over any run of reads, what was delivered and what is left make up the body, and a well-formed beginning is never called malformed |
| HttpBody.CleanEnd | crates/wasix-net/src/http/wire.rs:339-365 | a run that reported the end delivered exactly the body and stopped at its boundary |
| HttpBody.WholeNeverFails | crates/wasix-net/src/http/wire.rs:320-380 | no read of a complete body fails |
| HttpBody.CutNeverEnds | crates/wasix-net/src/http/wire.rs:313-380 | no read of a body cut short reports its end; one that gives no data reports the early end |
| HttpBody.RunsOut | crates/wasix-net/src/http/wire.rs:320-380 | a run with more calls than bytes includes one that gave no data |
| HttpEncoding.ReadLineBytes | crates/wasix-net/src/http/wire.rs:83-100 | a line within the limit is read back and exactly its bytes are consumed |
| HttpEncoding.ReadLineCut | crates/wasix-net/src/http/wire.rs:83-94 | a line cut short is the early end, not a line |
| HttpEncoding.ChunkedRoundTrip | crates/wasix-net/src/http/wire.rs:351-377 | any chunked layout, with sizes in any spelling, extensions and trailers, is read back up to its last byte, whatever follows |
| HttpEncoding.ChunkedTruncated | crates/wasix-net/src/http/wire.rs:351-370 | every proper beginning of a chunked body is a body cut short, with a beginning of the data |
| HttpEncoding.ChunkedRun | crates/wasix-net/src/http/wire.rs:320-380 | any run of reads over a chunked body ends cleanly after enough calls, with exactly the data and exactly what follows left |
| HttpEncoding.ToEndRun | crates/wasix-net/src/http/wire.rs:330-338 | any run of reads over a body that ends with the connection gives all that comes, and its end is no error |
| HttpEncoding.TruncatedRun | crates/wasix-net/src/http/wire.rs:313-380 | no run of reads over a truncated chunked body ends cleanly, and after enough calls one reports the early end |
| HttpEncoding.TruncatedLengthRun | crates/wasix-net/src/http/wire.rs:339-350 | the same for a body with a length |
| HttpSound.LineSound | crates/wasix-net/src/http/wire.rs:83-100 | a line that is read is all that was taken off the stream: its text and nothing but line breaks behind it, within 65536 bytes |
| HttpSound.StatusSound | crates/wasix-net/src/http/wire.rs:138-149 | a status line is a version, a code from 100 to 999 and perhaps a reason |
| HttpSound.HeaderExact | crates/wasix-net/src/http/wire.rs:150-175 | a line that begins with a blank continues the header before; any other is accepted exactly if it is a token, a colon and a value, and one of at most 256 |
| HttpSound.SizeSound | crates/wasix-net/src/http/wire.rs:356-359 | a chunk size line is accepted exactly if it is hexadecimal figures with white space around them, and perhaps an extension |
| HttpSound.NextSizeSound | crates/wasix-net/src/http/wire.rs:352-359 | behind the data of a chunk nothing but a line break is accepted before the next size line |
| HttpHead.BodilessExact | crates/wasix-net/src/http/wire.rs:196-198 | no body comes with a response to HEAD, in any case, nor with the codes 101, 204 and 304 |
| HttpReuse.KeepAliveExact | crates/wasix-net/src/http/wire.rs:118-132 | a connection is kept exactly if, in version 1.0, some Connection line holds `keep-alive` between commas and white space, in any case, and in any other version none holds `close` |
| HttpReuse.KeepAliveAgrees | crates/wasix-net/src/http/wire.rs:118-132 | that is what section 9.3 of RFC 9112 asks for, unless a response of version 1.0 holds both |
| HttpHead.StartExact | crates/wasix-net/src/http/wire.rs:249-277 | a body of length 0 is finished at once, and only one without a length ends with the connection |
| HttpHead.OneLength | crates/wasix-net/src/http/wire.rs:208-218 | one Content-Length among other headers is the length of the body |
| HttpHead.FirstEncoding | crates/wasix-net/src/http/wire.rs:200-206 | a Transfer-Encoding that ends in chunked wins over any length |
| HttpFraming.CombinedFinal | crates/wasix-net/src/http/wire.rs:196-207 | the last coding of several header lines, joined to one list with empty elements not counted, is that of the last line that has one |
| HttpFraming.FramingExact | crates/wasix-net/src/http/wire.rs:196-219 | the framing chosen is the one section 6.3 of RFC 9112 asks for exactly if the first line's last element and the last coding of all lines are both chunked or both not, and no length that all agree on has a plus in front |
| HttpFraming.OneLineAgrees | crates/wasix-net/src/http/wire.rs:200-206 | one line of codings that does not end in a comma is always understood |
| HttpFraming.SeveralLinesAgree | crates/wasix-net/src/http/wire.rs:200-206 | several lines, the last not ending in a comma, are understood exactly if the first and the last both end in chunked, or neither |
| HttpFraming.SecondLineUnseen | crates/wasix-net/src/http/wire.rs:200-206 | lines `gzip` and `chunked`: the code reads to the end of the connection |
| HttpFraming.CommaUnseen | crates/wasix-net/src/http/wire.rs:200-206 | a line `chunked,`: the same |
| HttpFraming.PlusTaken | crates/wasix-net/src/http/wire.rs:208-218 | a length `+5` is taken for 5 |
| HttpFraming.PlusSizeTaken | crates/wasix-net/src/http/wire.rs:357-359 | a chunk size `+5` is taken for 5 |
| HttpMessages.HeadRoundTrip | crates/wasix-net/src/http/wire.rs:136-186 | a head with code 101 or 200 to 999, with padded values and continued lines, is read back exactly, up to its last byte |
| HttpMessages.InterimSkipped | crates/wasix-net/src/http/wire.rs:176-178 | a head with code 100 or 102 to 199 is passed over |
| HttpMessages.HeadTruncated | crates/wasix-net/src/http/wire.rs:136-155 | a head cut short is the early end of the stream, never a shorter head |
| HttpMessages.FramingAnnounced | crates/wasix-net/src/http/wire.rs:196-219 | the framing a server announces is the one chosen |
| HttpMessages.MessageRoundTrip | crates/wasix-net/src/http/wire.rs:136-380 | one response behind any interim heads: head and body come out exactly, and what follows is left alone |
| HttpMessages.PipelineRoundTrip | crates/wasix-net/src/http/wire.rs:136-380 | any list of responses back to back comes out head by head and body by body |
| HttpMessages.PipelineRuns | crates/wasix-net/src/http/wire.rs:136-380 | the same when every body is read call by call, with any buffer sizes and any short reads, until its end is reported: each head, the data of each body, and what follows the last one |
| HttpConn.Conn.ReadUntil | crates/wasix-net/src/http/wire.rs:85 | reading up to a line feed over any short reads takes exactly one line, or the limit |
| HttpConn.Conn.NextLine | crates/wasix-net/src/http/wire.rs:83-100 | `read_line` over any short reads |
| HttpConn.Conn.NextHeaders | crates/wasix-net/src/http/wire.rs:150-175 | the header loop, with folded lines |
| HttpConn.Conn.NextHead | crates/wasix-net/src/http/wire.rs:136-186 | `read_head` over any short reads |
| HttpConn.Conn.NextChunkSize | crates/wasix-net/src/http/wire.rs:352-359 | the size line, behind the line break of the chunk before |
| HttpConn.Conn.SkipTrailers | crates/wasix-net/src/http/wire.rs:360-362 | the trailer loop |
| HttpConn.Pool.Give | crates/wasix-net/src/http/wire.rs:283-288 | the oldest of eight makes room; the pool never exceeds eight, never holds a connection twice, nor one with unread bytes |
| HttpConn.Pool.Take | crates/wasix-net/src/http/mod.rs:315-319 | the youngest connection for the key, which then is no longer idle |
| HttpClient.Body.constructor | crates/wasix-net/src/http/wire.rs:249-277 | the state of the framing; a body without bytes is finished at once; one up to the end of the connection never hands it back |
| HttpClient.Body.Finish | crates/wasix-net/src/http/wire.rs:279-291 | the connection goes back only if nothing was read ahead on it |
| HttpClient.Body.Read | crates/wasix-net/src/http/wire.rs:320-380 | each call is a step of the model, and the pool changes only in the call that meets the end of the body |
| HttpClient.Body.ReadLength | crates/wasix-net/src/http/wire.rs:339-350 | data of a body with a length |
| HttpClient.Body.ReadChunk | crates/wasix-net/src/http/wire.rs:351-378 | data of a chunk; the state moves only after data came |
| HttpClient.Respond | crates/wasix-net/src/http/mod.rs:377-387 | head, framing and body of an exchange; the connection may be handed back only if the words on the Connection lines keep it |
| HttpClient.ReadWhole | crates/wasix-net/src/http/mod.rs:605-610 | reading to the end with buffers of any sizes gives exactly the data the body stands for, and success, the early end or the malformed stream according to what it is; the connection is handed back only at its end |
| HttpClient.Exchange | crates/wasix-net/src/http/mod.rs:377-387 | head and whole body of an exchange, or its error; afterwards the connection is idle exactly if the body was complete and did not end with the connection, no Connection line closes it (or, in version 1.0, one keeps it), and nothing was read ahead; the oldest of eight idle ones then makes room |
| Utf8.DecodeEncode | crates/wasix-net/src/http/wire.rs:99 | decoding gives back every encoded text |
| Utf8.EncodeDecode | packages/wasi-pnpm/names.py:86 | only shortest forms decode, so encoding gives back the bytes |
| ForkModel.StackKept | shims/slicc/slicc-fork.js:173-218 | while no process that was there before ends, the snapshots below are untouched |
| ForkModel.ChildGivesBack | shims/slicc/slicc-fork.js:107-158 | whatever a child does, nested forks included, its end gives its parent back registers, identity, descriptors, wait tables, the memory it had and a working directory that is still there, plus one entry for the child |
| ForkModel.DirectoryLost | shims/slicc/slicc-fork.js:140-142 | a child that removes its parent's directory leaves the parent in its own |
| ForkModel.DupTableAgrees | shims/slicc/slicc-fork.js:66-77 | the child sees the same description at every descriptor |
| ForkModel.RunMatches | shims/slicc/slicc-fork.js:66-77 | over any run, the reference count of a description is its number of slots over the current and all stacked tables |
| ForkModel.ChildLeavesCounts | shims/slicc/slicc-fork.js:131-139 | a child leaves every reference count as it was at the fork |
| ForkReports.RunSound | shims/slicc/slicc-fork.js:107-158 | over any run, the finished children of a live process are exactly those reaped and those still in its table |
| ForkReports.PidsInSequence | shims/slicc/slicc-fork.js:60-63 | the pids given out are 1001, 1002 and so on |
| ForkReports.PidsDistinct | shims/slicc/slicc-fork.js:60-63 | no pid is ever given out twice |
| ForkReports.WaitReports | shims/slicc/slicc_spawn.c:166-172 | a wait reports a child of the caller with the status it finished with, never one reported before and the one in front if any will do, and fails exactly if there is none |
| ForkReports.ChildLeavesOne | shims/slicc/slicc-fork.js:145-149 | after a child's whole life its parent has an exit entry under its pid or an alias for the kernel process it became, one of the two and never both |
| ForkReports.NeverBoth | shims/slicc/slicc-fork.js:145-149 | on every run, no pid has both an exit entry and an alias |
| ForkObject.ChildBegins | shims/slicc/slicc-fork.js:107-127 | a child begins with its parent's memory, directory and descriptors, empty tables, a new pid and the parent's as its parent's, and the snapshot holds the registers of the fork |
| ForkObject.ChildRecounted | shims/slicc/slicc-fork.js:131-149 | over a child's whole life to its parent's wait: an exit or a return with a code is reported with low seven bits 0 and the code modulo 256 in bits 8 to 15, a crash with signal 6, and an exec under a kernel leaves no entry |
| ForkObject.SliccFork.NextPid | shims/slicc/slicc-fork.js:60-63 | the counter and the pid |
| ForkObject.SliccFork.DupStreams | shims/slicc/slicc-fork.js:66-77 | the duplicated table, and one reference more for each slot |
| ForkObject.SliccFork.BeginChild | shims/slicc/slicc-fork.js:107-127 | the step of a fork |
| ForkObject.SliccFork.FinishChild | shims/slicc/slicc-fork.js:131-158 | the step of the end of a child |
| ForkObject.SliccFork.SpawnChild | shims/slicc/slicc_spawn.c:121-126 | the wait table entry of a spawned child that has run |
| ForkObject.SliccFork.WaitChild | shims/slicc/slicc_spawn.c:166-172 | the reaped entry, or none |
| ForkObject.SliccFork.TakeTurn | shims/slicc/slicc-fork.js:173-187 | a child that returns, exits or crashes hands control back; the first process leaves with an empty stack |
| ForkObject.SliccFork.Settle | shims/slicc/slicc-fork.js:191-218 | turn after turn is a run of the model, execs included, and it is left only with an empty stack |
| CancellerFrames.FrameByFrame | packages/webrtc-audio-processing/package/index.js:173-203 | from an empty frame on, for every block: as many runs of the processor as whole frames, each on the cleaned microphone frame and the queued reference samples followed by silence, from the state the run before left; the output of a run goes out while the next frame comes in; finite samples reach the processor unchanged, and every counter is as many as there were |
| Canceller.BlocksJoin | packages/webrtc-audio-processing/package/index.js:173-203 | cancelling two blocks at once is cancelling one after the other: output and final state do not depend on how the caller slices its input |
| Canceller.CancelKeeps | packages/webrtc-audio-processing/package/index.js:125-203 | one sample out for each in; pushed is dropped, taken and queued, and taken and short make up whole frames |
| Canceller.ChunkIsSamples | packages/webrtc-audio-processing/package/index.js:186-199 | pushing and filling a chunk at once is doing so sample by sample |
| CancellerObject.CleanInPlace | packages/webrtc-audio-processing/package/index.js:7-17 | samples that are not finite become silence and are counted |
| CancellerObject.WriteRing | packages/webrtc-audio-processing/package/index.js:137-145 | the wrapping writes put the block behind the queue |
| CancellerObject.ReadRing | packages/webrtc-audio-processing/package/index.js:150-157 | the wrapping reads take the front of the queue |
| CancellerObject.Object.PushRef | packages/webrtc-audio-processing/package/index.js:125-147 | the ring keeps the last samples it has room for, cleaned |
| CancellerObject.Object.TakeRef | packages/webrtc-audio-processing/package/index.js:149-163 | the queued samples, then silence |
| CancellerObject.Object.RunChunks | packages/webrtc-audio-processing/package/index.js:185-200 | the loop over chunks computes the output sample by sample, also when it is written over the input |
| CancellerObject.Object.CancelBlock | packages/webrtc-audio-processing/package/index.js:173-203 | the call computes `Cancel`; a destroyed canceller or a short target changes nothing |
| LinkOrder.Walk.Visit | packages/wasi-llvm/gen-llvm-config.py:62-69 | adds what the component reaches, each behind everything it depends on unless there is a cycle; terminates on any graph |
| LinkOrder.WalkAll | packages/wasi-llvm/gen-llvm-config.py:70 | visits exactly what the names reach, without repeats |
| LinkOrder.Closure | packages/wasi-llvm/gen-llvm-config.py:60-72 | the libraries that exactly the components reached have, each component once, in link order on an acyclic graph; the first missing name is the error |
| LinkOrder.DependentFirst | packages/wasi-llvm/gen-llvm-config.py:71 | the library of a component comes before that of anything it depends on |
| UrlPath.NormalizePath | crates/wasix-net/src/http/url.rs:147-177 | the loop over the segment stack |
| UrlPath.NormalizeFollowsRules | crates/wasix-net/src/http/url.rs:147-177 | on every absolute path, the rewriting of section 5.2.4 of RFC 3986 on the part before the query |
| UrlPath.NormalizeIdempotent | crates/wasix-net/src/http/url.rs:147-177 | no dot segment is left, and normalising again changes nothing |
| UrlPath.NormalizeFixes | crates/wasix-net/src/http/url.rs:147-177 | a path is changed exactly if it holds a dot segment |
| UrlPath.DirectoryExact | crates/wasix-net/src/http/url.rs:130-131 | the directory of a path ends in its last slash |
| UrlPath.JoinedPath | crates/wasix-net/src/http/url.rs:122-135 | joined paths keep the leading slash and hold no dot segment; the query is the location's, or the base's for an empty one |
| UrlPath.JoinResolves | crates/wasix-net/src/http/url.rs:122-135 | a location with a path of its own and neither scheme nor authority gives the path that section 5.2.2 of RFC 3986 gives |
| UrlPath.JoinOfQuery | crates/wasix-net/src/http/url.rs:124-129 | one that is empty or only a query agrees with that section exactly if the base path holds no dot segment |
| UrlText.ParsedIsShaped | crates/wasix-net/src/http/url.rs:33-82 | every parsed URL has a scheme and host in lower case, a 16-bit port and a clean path |
| UrlText.PrintedReadsBack | crates/wasix-net/src/http/url.rs:97-111 | printing and parsing gives a URL back, its scheme's own port left out, exactly if the host can be told from the text and the path does not end in white space |
| UrlText.ParsedReadsBack | crates/wasix-net/src/http/url.rs:33-111 | the same for every URL that was parsed |
| UrlText.UserDropped | crates/wasix-net/src/http/url.rs:47 | a user in front of the host is dropped |
| UrlText.PortsRead | crates/wasix-net/src/http/url.rs:55-69 | what stands behind a host and a colon: no port, a port below 65536, or an error |
| UrlText.PortLeftOut | crates/wasix-net/src/http/url.rs:86-105 | a port is left out exactly if there is none or it is 80 of http or 443 of https |
| UrlText.ParsedScheme | crates/wasix-net/src/http/url.rs:33-50 | the scheme of a parsed URL is one exactly if there is no colon before the `://` |
| UrlText.ColonSchemeParses | crates/wasix-net/src/http/url.rs:33-50 | `a:b://host` is accepted, with the scheme `a:b` |
| UrlText.OddHostDoesNotReadBack | crates/wasix-net/src/http/url.rs:52-111 | a parsed URL whose printed text does not parse to it |
| UrlText.WhitePathDoesNotReadBack | crates/wasix-net/src/http/url.rs:66-111 | a parsed URL whose path ends in white space in front of a dropped fragment, and whose printed text does not parse to it |
| UrlJoin.JoinFollows | crates/wasix-net/src/http/url.rs:113-143 | for every location, the URL that is reached is the target of section 5.2.2 of RFC 3986, its scheme and authority branches included, exactly if: with an authority, the path holds no dot segment; with a scheme and no authority, never; otherwise, it has a path of its own or the base path holds no dot segment. A location with an authority fails exactly if that names no server or the path holds blanks |
| UrlJoin.JoinedIsResolved | crates/wasix-net/src/http/url.rs:122-143 | a location that is not handed to `parse` stays on the server, with a clean path without dot segments |
| UrlJoin.DotsStay | crates/wasix-net/src/http/url.rs:116-121 | `http://h/a/../b` and `//h/a/../b` keep their dot segments, which that section removes |
| UrlJoin.MailStays | crates/wasix-net/src/http/url.rs:122-143 | `mailto:x` becomes a path on the server |
| UrlJoin.EmptyLocationIsNotResolved | crates/wasix-net/src/http/url.rs:122-143 | an empty location on a path with dot segments loses them, unlike in that section |
| Text.TrimPadded | crates/wasix-net/src/http/wire.rs:174 | trimming takes off exactly the white space around a value |
| Text.ParseNumeral | crates/wasix-net/src/http/wire.rs:358 | numbers in any base written out read back |
| Leb.ReadLeb | packages/wasi-pnpm/names.py:32-40 | the decoding loop |
| Leb.WriteLeb | packages/wasi-pnpm/names.py:56-65 | the encoding loop |
| Leb.DecodeExact | packages/wasi-pnpm/names.py:32-40 | a number is the low seven bits of its bytes, the first lowest, and its last byte alone is below 128 |
| Leb.RoundTrip | packages/wasi-pnpm/names.py:32-65 | decoding undoes encoding before any tail |
| Leb.Minimal | packages/wasi-pnpm/names.py:32-65 | the bytes of a number are the encoder's exactly if they do not end in a needless zero |
| WasmSections.BytesParsed | packages/wasi-pnpm/names.py:73-89 | the sections of a module are all of its bytes |
| WasmSections.WholeIsFree | packages/wasi-pnpm/names.py:73-89 | a whole section reads the same whatever follows it |
| WasmSections.ParseFree | packages/wasi-pnpm/names.py:73-89 | such sections put together parse to just themselves |
| WasmSections.RebuildsExactly | scripts/split-name-section.py:62-65 | building a custom section anew gives its bytes exactly if it is whole and its numbers are in shortest form |
| SplitNames.NextExtent | scripts/split-name-section.py:47-58 | one step of the section walk |
| SplitNames.SplitModule | scripts/split-name-section.py:75-101 | the whole script, up to the files |
| SplitNames.SplitsExactly | scripts/split-name-section.py:81-101 | it succeeds exactly on modules with one `name` section that is whole and in shortest form |
| SplitNames.SplitGives | scripts/split-name-section.py:81-105 | what is written parses to the other sections, unchanged and in order; the names are the payload |
| SplitNames.KeptExact | scripts/split-name-section.py:86-95 | a section is written exactly if it is no `name` section and, when stripping, no custom section whose name begins with `.debug_` |
| SplitNames.LongSizeIsRefused | scripts/split-name-section.py:81-101 | a valid module is refused because the size of its `name` section takes a byte more than it needs |
| NameMaps.ReadSubsections | packages/wasi-pnpm/names.py:185-193 | the subsection loop |
| NameMaps.ReadNameMap | packages/wasi-pnpm/names.py:196-206 | the name map loop, with its check for trailing bytes |
| NameMaps.WriteMap | packages/wasi-pnpm/names.py:209-213 | the encoding loop |
| NameMaps.SubsectionsRoundTrip | packages/wasi-pnpm/names.py:185-193 | written subsections read back |
| NameMaps.NameMapRoundTrip | packages/wasi-pnpm/names.py:196-213 | a written map reads back entry by entry |
| RenumberNames.TypesShift | packages/wasi-pnpm/names.py:228-245 | once imports and functions agree, every function keeps its type at its moved index, so the check of named functions never fails |
| RenumberNames.MovesAll | packages/wasi-pnpm/names.py:243-246 | moving fails only on an index that is no function |
| RenumberNames.MismatchExact | packages/wasi-pnpm/names.py:221-236 | the script goes on exactly if LINKED has names, the imports are LINKED's behind new functions of `pnpm_atomic`, and types and counts are the same |
| RenumberNames.NamesRight | packages/wasi-pnpm/names.py:238-267 | the payload decodes to the function maps with the added imports in front and every index moved, and the global and data names as they were |
| RenumberNames.RenumberExact | packages/wasi-pnpm/names.py:221-266 | the script succeeds exactly if the modules belong together, every function map of LINKED can be read and names functions there are, the last one names any, and by what would be written at least three exported C functions carry their own names and none another |
| RenumberNames.WrittenMap | packages/wasi-pnpm/names.py:247-248 | what a written function map says, entry by entry |
| RenumberNames.ExportsNamed | packages/wasi-pnpm/names.py:255-266 | by the written payload each of the five C functions that is exported carries its own name at its index, and at least three are exported |
| RenumberNames.NameOfExact | packages/wasi-pnpm/names.py:255 | the name of an index is that of its last entry |
| RenumberNames.LastFunctionsExact | packages/wasi-pnpm/names.py:255 | the function names are those of the last subsection of kind 1 |
| RenumberNames.RenumberModule | packages/wasi-pnpm/names.py:223-267 | `main` between the parsed modules and the payload, with its failures |
| RenumberNames.StripModule | packages/wasi-pnpm/names.py:109-116 | the walk of `parse`: the module without the `name` section found last, and the payload of that one |
| RenumberNames.StrippedParses | packages/wasi-pnpm/names.py:269-274 | it parses to the other sections, which are all but the `name` sections exactly if there was at most one |
| RenumberNames.OneNameIsLeft | packages/wasi-pnpm/names.py:269-274 | of two `name` sections one is still there in the output |
| RenumberNames.Convert | packages/wasi-pnpm/names.py:216-278 | `main` from the bytes of both modules to those of both outputs, or its failure |
| RenumberNames.ScriptGives | packages/wasi-pnpm/names.py:216-278 | what a successful run has written: the payload of LINKED's last `name` section with every function map moved and the added imports in front, by which the exported C functions carry their own names; and INSTRUMENTED less its last `name` section |
| DnsBase.Base32Hex | packages/wasi-dig/src/present.rs:250-266 | the accumulator loop spells the data in groups of five bits although the upper bits of the accumulator are lost |
| DnsBase.Hex | packages/wasi-dig/src/present.rs:196-208 | the digits of the data, in words |
| DnsBase.Base64 | packages/wasi-dig/src/present.rs:214-246 | the padded digits of the data, in words |
| DnsBase.DigitsDecode | packages/wasi-dig/src/present.rs:196-266 | decoding the digits of hexadecimal, base32hex or base64 returns the data |
| DnsBase.HexReadsBack | packages/wasi-dig/src/present.rs:196-208 | at dig's width every word but the last has 56 digits, and the data reads back |
| DnsBase.Base64ReadsBack | packages/wasi-dig/src/present.rs:214-246 | at dig's width every word but the last has exactly 56 characters, and the data reads back without spaces and padding |
| DnsBase.Base64AnyWidth | packages/wasi-dig/src/present.rs:214-230 | the same at any width, with one word if there is no splitting |
| DnsNames.AppendLabel | packages/wasi-dig/src/present.rs:30-43 | the escaping loop |
| DnsNames.WireName | packages/wasi-dig/src/present.rs:47-66 | text and end of an uncompressed name, or nothing if it is malformed |
| DnsNames.TextReadsBack | packages/wasi-dig/src/present.rs:17-66 | the printed name reads back as its labels, whatever their bytes |
| DnsNames.LabelsOfWire | packages/wasi-dig/src/present.rs:47-66 | a name written on the wire gives its labels and its length, whatever follows |
| DnsNames.LabelsSound | packages/wasi-dig/src/present.rs:47-66 | what is read as a name was written as one, of labels of 1 to 63 bytes |
| DnsNames.BytePrinted | packages/wasi-dig/src/present.rs:17-43 | which bytes stand for themselves, which get a backslash, and which become three digits |
| DnsTypes.TypeMap | packages/wasi-dig/src/present.rs:334-354 | the bitmap loops list the codes of the set bits, or nothing if a window is malformed |
| DnsTypes.TypesExact | packages/wasi-dig/src/present.rs:334-354 | a bitmap is read exactly if it consists of windows of 1 to 32 bytes |
| DnsTypes.BitmapReadsBack | packages/wasi-dig/src/present.rs:334-354 | the bitmap of any set of 16-bit types lists exactly that set, in ascending order |
| DnsTypes.TimeIsNearest | packages/wasi-dig/src/present.rs:277-279 | the time is the one within half a wrap of now that the 32 bits stand for |

## Left out

- DaylightSaving.InDstExact: speaks of rules whose transitions alternate over the years;
  `DaylightSaving.InDstNeedsOrder` and `DaylightSaving.InDstSampled` speak of the others.
- HttpMessages.FramingAnnounced: speaks of servers whose first Transfer-Encoding line ends in
  chunked; what a list of codings over other lines comes to is `HttpFraming.FramingExact`.
- HttpFraming.FramingExact: leaves aside responses to CONNECT, for which section 6.3 has
  a rule of its own and `framing` none, and takes the test for a bodiless response as it is.
- HelloParser.HelloAlpn: without the internal_error of a failed allocation.
- TlsObject.Session.TlsServerSelect: without the reference counts of leaves and the negative
  error numbers; whether Mbed TLS takes certificate and protocol is a parameter.
- HttpClient.Body.Read: without `arm` and its deadlines, and without errors of the transport,
  so also without what such an error in the middle of a chunk does.
- ForkModel.ChildGivesBack: without the fields of Asyncify other than the data of the fork.
- ForkObject.SliccFork.BeginChild: without the views of the memory.
- ForkObject.SliccFork.FinishChild: without the state Asyncify is set to before the rewind.
- ForkObject.SliccFork.WaitChild: without the answers of a kernel where the wait table has
  nothing to report; aliases are recorded and not waited for.
- ForkObject.SliccFork.Settle: without the attempt to fork through a kernel and the error for a
  suspension that is not a fork.
- DnsTypes.TypeMap: lists the codes of the types; the mnemonics and the joined text are left
  out, like key tags and the record formats around the encoders.
- RenumberNames.Convert: the sections of `parse` other than custom ones are not read; imports,
  types, counts and exports are parameters. Files, arguments and messages of both scripts.
- Mbed TLS, X.509 and the key log: Mbed TLS is an arbitrary script of `bio_recv` and `bio_send`
  calls behind the gate, and what it answers is a parameter.
- The TZ string parser, zones from `Intl`, `getenv` caching and the interning of names: a zone
  is its parsed rules. `timegm` and `_gmtime_js` are taken to be the proved calendar functions,
  on unbounded integers.
- Sockets and locks: the transport gives any number of bytes, at least one until it ends.
- Writing requests, redirects, proxies and name resolution.
- `posix_spawn`'s file actions; a spawned child has already run when its pid is given out.
- The arithmetic of audio samples, which are only copied, and views into one buffer at
  different offsets: the target may be an input itself, but not overlap it otherwise.
- `stats`, `destroy` and the options of the canceller.
- Widths of machine integers, except where they matter: 64-bit chunk sizes and lengths, 16-bit
  ports and status codes, and the 32-bit accumulator of base32hex. Buffer sizes, line and
  header limits are those of the source.
- The smaller libraries, build recipes and shims, which would only add easy members.
