# SESAME: the verify path, modelled and proved in Dafny

SESAME signs, scopes and encrypts ESAM requests and responses in HTTP headers. This project
models the C++ SDK's verify path and its response signing, cross-read with the Rust crate, and
proves what they guarantee. `dafny verify dfyconfig.toml` checks all of it.

The modules follow the program:

- `Calendar`, `CivilTime`: the closed-form Gregorian date arithmetic. `CivilTime` is the code, on
  64-bit and 32-bit machine integers, so that every intermediate value is proved to be in range,
  and the two intended unsigned wrap-arounds are explicit. `Calendar` is the same arithmetic over
  all integers, with the leap rule (Appendix C of RFC 3339) and the day-by-day successor as its
  independent reference.
- `Decimal`, `Timestamps`, `TimestampLaws`: the wire timestamp (section 5.6 of RFC 3339), printed
  and parsed, and its laws.
- `Hex`, `Canonical`, `Tier1`, `Scope`: hex text, the signed and authenticated strings, signatures
  and freshness, and the scope header.
- `ReplayCache`, `ReplayLaws`, `CacheEvents`: the replay cache as a class, one call as a function
  on its state, and its laws over whole runs. A run is the sequence of calls in the order in which
  the mutex admits them, so a law for all runs is a law for all interleavings.
- `Seams`, `Protocol`, `VerifyLaws`, `Runs`, `RunLaws`: `verify_request`, what one verdict means,
  and what holds over whole runs of requests against one cache.
- `Sender`, `EndToEnd`, `Response`: a conformant sender, its round trip and how often its request
  can be accepted, and `sign_response`.

SHA-256, HMAC and AES-GCM are function values. All that is assumed of them is the length of their
outputs and that opening undoes sealing. The key directory is a function value too. Random values
and clocks are inputs. A C++ string is a Dafny `string`; theorems hold for all of them, and so for
the ones made of bytes. The freshness window W and the replay cache's own window C are separate,
as in the code.

Where the code and its documentation differ, the model follows the code:

- SESAME.md says that freshness and replay checks leave no gap between them. An entry expires C
  seconds after it is made, while a timestamp stays fresh for up to 2W seconds, so with both
  windows at the default 300 seconds a request can be accepted three times. The exact bound is
  floor(2W / C) + 1, and at most once holds exactly when C > 2W, both for clocks that do not go
  back (`RunLaws`). A clock that is stepped back opens a replay under any C. A C below 1 acts as 1.
- Tiers are documented as additive. The code grants Tier Three to an encrypted request that has no
  scope header; it includes channel authorisation exactly when there is one (`VerifyLaws`).
- The encryption headers are outside the signed text. With its encryption mark cleared, a request
  that would be accepted is accepted as plain, the ciphertext as its body, by any policy below Tier
  Three whose scope requirement it meets (`VerifyLaws`).
- The sweep comments allow an expired entry to linger for a second. Clocks are whole seconds, so
  for clocks that do not go back none ever does: the size bound is one window of traffic
  (`ReplayLaws.CacheRefinesHistory`).
- The timestamp parser accepts days 29 to 31 in any month and rolls them over (`TimestampLaws`).

## Model

| member | source | states |
|---|---|---|
| Calendar.DateRoundTrip | cpp/src/civil_time.h:11-32 | every valid date, of any year, survives conversion to a day number and back |
| Calendar.DayRoundTrip | cpp/src/civil_time.h:20-32 | every integer day number decodes to a valid date, and that date has that number |
| Calendar.EpochIsDayZero | cpp/src/civil_time.h:10-21 | 1 January 1970 is day 0, in both directions, and no other day is |
| Calendar.NextDayAddsOne | cpp/src/civil_time.h:11-18 | the calendar's own successor of any valid date has the next day number |
| Calendar.WalkAddsDays | cpp/src/civil_time.h:20-32 | n steps of the day-by-day calendar from any day are the closed form at that day plus n |
| Calendar.DayNumberIsMonotone | cpp/src/civil_time.h:11-18 | day numbers order valid dates exactly as year, month, day do |
| Calendar.YearOfEraDecodes | cpp/src/civil_time.h:16-25 | the nested divisions by 1460, 36524 and 146096 recover the year of the era from any day in it |
| Calendar.MonthDecodes | cpp/src/civil_time.h:28-29 | the division by 153 recovers the month from the day of the March year |
| CivilTime.EraIsFloor | cpp/src/civil_time.h:13-13 | the truncating era of a year is its floor division by 400, negative years included |
| CivilTime.DayEraIsFloor | cpp/src/civil_time.h:23-23 | likewise the era of a day, by 146097 |
| CivilTime.MonthShiftsAreExact | cpp/src/civil_time.h:15-30 | the wrapping unsigned month shifts give exactly m - 3 or m + 9, and mp + 3 or mp - 9 |
| CivilTime.MonthShiftsAreInverse | cpp/src/civil_time.h:15-30 | the two month shifts undo each other |
| CivilTime.SplitEraDay | cpp/src/civil_time.h:25-27 | the unsigned year and day of year neither wrap nor leave 0..399 and 0..365 |
| CivilTime.SplitDays | cpp/src/civil_time.h:21-24 | the era and the unsigned day in it, for any day up to INT64_MAX - 719468, negative ones included |
| CivilTime.SplitYearDay | cpp/src/civil_time.h:28-30 | the unsigned month and day of the month, by the division by 153 and the month shift |
| CivilTime.DaysFromCivil | cpp/src/civil_time.h:11-18 | the machine computation is the integer day number, for every date at which no intermediate value leaves 64 bits, and none then does |
| CivilTime.FourDigitYearsFit | cpp/src/tier1.cpp:61-65 | every date the parser passes on is one of those |
| CivilTime.CivilFromDays | cpp/src/civil_time.h:21-32 | the machine computation is the integer decoding, with no overflow for any day up to INT64_MAX - 719468 |
| Timestamps.ParseDigits | cpp/src/tier1.cpp:37-45 | the loop yields the decimal value of the group, or -1 if some character is no digit |
| Timestamps.ParseRfc3339Utc | cpp/src/tier1.cpp:48-68 | ok exactly on wire timestamps, with the Unix seconds they denote, else 0 |
| Timestamps.AcceptsExactlyTheGrammar | cpp/src/tier1.cpp:48-68 | a text gives an instant iff it is, character by character, YYYY-MM-DDTHH:MM:SSZ of fields in the checked ranges, and the instant is theirs |
| Timestamps.WireTextParses | cpp/src/tier1.cpp:48-68 | parsing the text of any fields in range gives those fields and their instant |
| Timestamps.FormatRfc3339Utc | cpp/src/protocol.cpp:20-37 | for every 64-bit instant: the printed fields of its floor day and second, no overflow, at most 29 characters |
| Timestamps.FormatFits | cpp/src/protocol.cpp:33-36 | the text of any 64-bit instant is never cut by the 32-byte buffer |
| TimestampLaws.FieldsAtAreExact | cpp/src/protocol.cpp:20-32 | the fields printed for an instant are a real date and time that denotes it |
| TimestampLaws.FieldsAreRecovered | cpp/src/protocol.cpp:20-32 | a real date and time is recovered from the instant it denotes |
| TimestampLaws.SecondsAreCounted | cpp/src/tier1.cpp:66-67 | a time of day on the date n calendar days after 1 January 1970 is that many seconds past n days |
| TimestampLaws.EpochIsSecondZero | cpp/src/tier1.cpp:66-67 | 1970-01-01T00:00:00Z parses to second 0 and to no other, and only second 0 prints as it |
| TimestampLaws.MidnightOfEpoch | cpp/src/tier1.cpp:66-67 | the fields of midnight on 1 January 1970 denote second 0 |
| TimestampLaws.PrintThenParse | cpp/src/protocol.cpp:20-37 | parsing what was printed gives the instant back iff its year is in 0..9999, and otherwise fails |
| TimestampLaws.ParseThenPrint | cpp/src/tier1.cpp:48-68 | printing what was parsed gives the text back iff the day exists; else it is the date rolled into the next month, at the same instant |
| TimestampLaws.FormatIsExact | cpp/src/protocol.cpp:33-36 | for every instant: the year as a numeral of at least four places, its sign included and no zero leading beyond them, then sixteen characters for the other fields |
| TimestampLaws.ByteOrderIsTimeOrder | cpp/src/tier1.cpp:37-68 | accepted timestamps with existing days sort as bytes exactly as in time, and parsing is injective on them |
| TimestampLaws.ByteOrderIsTimeOrderIffDayExists | cpp/src/tier1.cpp:61-65 | an accepted timestamp sorts against all existing days as in time iff its own day exists |
| TimestampLaws.ParsingIsInjectiveIffDayExists | cpp/src/tier1.cpp:61-65 | it shares its instant with no other existing day iff its own day exists |
| TimestampLaws.MissingDayBreaksOrder | cpp/src/tier1.cpp:61-63 | concrete texts with a missing day for which order and injectivity fail |
| Hex.HexEncode | cpp/include/sesame/hex.hpp:14-23 | the loop's output is the lowercase digit pairs of the bytes |
| Hex.HexDecode | cpp/include/sesame/hex.hpp:31-48 | the loop's output is the decoded bytes, or nothing for odd length or a non-digit |
| Hex.DecodeIsExact | cpp/include/sesame/hex.hpp:31-48 | decoding succeeds iff the length is even and all characters are hex digits, and re-encodes to the lowercased text |
| Hex.DecodeEncode | cpp/include/sesame/hex.hpp:14-48 | decoding undoes encoding |
| Hex.DecodesTo | cpp/include/sesame/hex.hpp:31-48 | a text decodes to given bytes iff its lowercase form is their encoding |
| Hex.DigitsAreTheAlphabet | cpp/include/sesame/hex.hpp:14-37 | digit values and digit characters are those of 0123456789abcdef, or its capitals when read |
| Hex.HexDigitsAreThese | cpp/include/sesame/hex.hpp:31-37 | the characters accepted are exactly those |
| Hex.EncodeByPosition | cpp/include/sesame/hex.hpp:14-23 | byte i stands at characters 2i and 2i + 1, high half first |
| Hex.LowerCharIsAscii | cpp/src/message.cpp:47-51 | lowercasing takes the 26 capitals to their small letters and keeps every other character |
| Canonical.RequestCanonical | cpp/include/sesame/canonical.hpp:23-43 | the appended string is the LF-joined request lines, written out as the concatenation with the LF between lines and before the optional scope |
| Canonical.ResponseCanonical | cpp/include/sesame/canonical.hpp:47-66 | the appended string is RESPONSE and the LF-joined response lines, written out as the concatenation with the LF between lines and before the optional scope |
| Canonical.AadForHeaders | cpp/src/tier3.cpp:9-25 | the appended string is version, key-id, timestamp and nonce, written out as the concatenation with the LF between lines and before the optional scope |
| Canonical.SplitOfJoined | cpp/include/sesame/canonical.hpp:21-43 | splitting a joined text returns its LF-free lines and its scope, for any scope |
| Canonical.JoinedOfSplit | cpp/include/sesame/canonical.hpp:21-43 | joining what was split returns the text |
| Canonical.RequestTextIsInjective | cpp/include/sesame/canonical.hpp:23-43 | requests with LF-free lines have the same string iff they are equal, scope included |
| Canonical.RequestTextIsUniqueIffLfFree | cpp/include/sesame/canonical.hpp:23-43 | no other LF-free request shares a request's string iff its own lines are LF-free |
| Canonical.TextFixesTargetIffLfFree | cpp/include/sesame/canonical.hpp:23-43 | whatever the other lines hold, the string fixes method and target iff these two are LF-free |
| Canonical.ResponseTextIsInjective | cpp/include/sesame/canonical.hpp:47-66 | the same for responses |
| Canonical.AadTextIsInjective | cpp/src/tier3.cpp:9-25 | the same for associated data |
| Canonical.RequestIsNoResponse | cpp/include/sesame/canonical.hpp:23-66 | a request whose LF-free method is not RESPONSE never has the string of a response |
| Tier1.SignIsMac | cpp/src/tier1.cpp:14-17 | a signature is 64 lowercase hex digits that decode to the HMAC of the text under the key |
| Tier1.VerifyIsSignature | cpp/src/tier1.cpp:14-24 | verification under a key accepts iff the signature is hex, in either case, of the HMAC of the text under that key |
| Tier1.SignedVerifiesIffSameMac | cpp/src/tier1.cpp:14-24 | what one key signed verifies under another, for any texts, iff the two HMACs are equal |
| Tier1.VerifyAny | cpp/src/tier1.cpp:26-33 | the decode-per-key loop accepts iff the signature decodes to the HMAC of the text under some listed key |
| Tier1.VerifyAnyDecodeOnce | src/tier1_hmac.rs:43-65 | the decode-once loop accepts on exactly the same condition, for every key list |
| Tier1.CheckFreshness | cpp/src/tier1.cpp:70-78 | fresh iff the timestamp parses and is at most the window away from the clock, on either side |
| Scope.ParseScopeChannel | cpp/src/protocol.cpp:39-47 | the two index loops yield the trimmed text after the prefix, and nothing exactly when the scope does not begin with channel= |
| Scope.SpacesAreSix | cpp/src/protocol.cpp:39-47 | the characters trimmed are space, tab, LF, vertical tab, form feed and CR |
| Scope.DeclaredChannelIsExact | cpp/src/protocol.cpp:39-47 | a scope declares a channel iff it is channel=, blanks, the channel and blanks, and the channel has no blank at its ends |
| ReplayCache.InMemoryReplayCache.constructor | cpp/include/sesame/replay.hpp:25-33 | a new cache is empty, with its sweep clock at INT64_MIN |
| ReplayCache.InMemoryReplayCache.CheckAndRemember | cpp/include/sesame/replay.hpp:35-55 | the answer, the whole new state, and the number of entries its sweep examined |
| ReplayCache.InMemoryReplayCache.Size | cpp/include/sesame/replay.hpp:57-60 | the number of entries |
| ReplayLaws.LastPruneIsMaxClock | cpp/include/sesame/replay.hpp:42-50 | for any clocks, the sweep clock is the largest of them so far |
| ReplayLaws.SweepPays | src/replay.rs:72-75 | a sweep lowers the potential by at least the number of entries it examines |
| ReplayLaws.SweepingIsAmortised | src/replay.rs:65-83 | over any run, for any clocks and any C, sweeps examine at most max(C, 1) entries per accepted call |
| ReplayLaws.CacheRefinesHistory | cpp/include/sesame/replay.hpp:35-55 | for clocks that do not go back the cache holds exactly the acceptances of the last C seconds, is as large as their number, and answers as an unbounded history does |
| ReplayLaws.AnswersAsHistoryIffPositiveWindow | cpp/include/sesame/replay.hpp:35-55 | it answers as the history on every such run iff C is positive |
| ReplayLaws.AnswersAsGap | cpp/include/sesame/replay.hpp:30-55 | for any clocks, a C below 1 gives the answers of C = 1 |
| ReplayLaws.LazyIsEager | src/replay.rs:62-83 | sweeping once per second gives the same answers and the same cache as sweeping on every call, for clocks that do not go back |
| ReplayLaws.LazyIsEagerIffPositiveWindow | src/replay.rs:62-83 | it does so on every such run iff C is positive |
| CacheEvents.AdmittedAgainIffEvicted | cpp/include/sesame/replay.hpp:35-55 | for any clocks: a pair not admitted in between is admitted again iff some call since its admission, this one included, had a clock past the sweep clock and at least C past the admission |
| CacheEvents.AdmissionsAreSpaced | cpp/include/sesame/replay.hpp:35-55 | for any clocks, between two admissions of a pair some call, up to the second, had a clock at least max(C, 1) past the first |
| CacheEvents.AdmissionsAreApart | cpp/include/sesame/replay.hpp:35-55 | for clocks that do not go back, two admissions of a pair are at least max(C, 1) apart |
| CacheEvents.PairsAgreeAfterDeletion | cpp/include/sesame/replay.hpp:35-55 | for clocks that do not go back, deleting calls for other pairs leaves every later answer for a pair as it was |
| Protocol.BodyHashHex | cpp/include/sesame/canonical.hpp:14-19 | 64 lowercase hex digits that decode to the digest of the body |
| Protocol.Authorize | src/tier2_authz.rs:28-47 | the declared channel iff there is one, it is the target if one is given, and the key may act on it (in terms of the request: VerifyLaws.ScopeStageIsExact) |
| Protocol.Decrypt | cpp/src/protocol.cpp:129-142 | the plaintext, or nothing when a part is missing, malformed or wrong (in terms of the request: VerifyLaws.BodyStageIsExact) |
| VerifyLaws.ScopeStageIsExact | cpp/src/protocol.cpp:113-125 | the Tier-2 block yields a channel iff that channel is declared, permitted to the key and the target if one is given; it yields none iff there is no scope and the policy is below Two |
| VerifyLaws.BodyStageIsExact | cpp/src/protocol.cpp:127-148 | the Tier-3 block yields a plaintext iff the body opens to it under the named key and the IV whose hex is in the headers, or it is the unmarked body under a policy below Three |
| Protocol.Authenticate | cpp/src/protocol.cpp:70-104 | no error iff the request reaches the replay cache, else the specified error |
| Protocol.VerifyLate | cpp/src/protocol.cpp:110-158 | the specified result of the stages after the replay cache |
| Protocol.VerifyRequest | cpp/src/protocol.cpp:55-159 | the run on the cache object gives the specified verdict and the specified next cache |
| VerifyLaws.EarlyErrorIsExact | cpp/src/protocol.cpp:70-104 | a request reaches the replay cache iff it is authentic |
| VerifyLaws.LateResultIsExact | cpp/src/protocol.cpp:110-158 | the stages after the replay cache succeed with a given result iff the tier is met and that channel and plaintext are what the request is granted |
| VerifyLaws.PassthroughIsExact | cpp/src/protocol.cpp:60-68 | without any of the five headers the verdict is success iff the policy is Tier Zero, with the raw body, no key-id, no channel and Tier Zero; the cache is untouched |
| VerifyLaws.AcceptanceIsExact | cpp/src/protocol.cpp:60-158 | any request is accepted with a given result iff it is such a passthrough, or it is authentic, unseen, meets the tier, and that channel, plaintext and tier are what it is granted |
| VerifyLaws.AuthenticAboveTierZero | cpp/src/protocol.cpp:60-158 | whatever is accepted above Tier Zero is authentic, and what is accepted at Tier Zero has none of the five headers |
| VerifyLaws.RefusalIsFirstFailure | src/lib.rs:173-271 | any request is refused with the error of the first failing check in the documented order, and accepted if none fails |
| VerifyLaws.LastGuardIsUnreachable | cpp/src/protocol.cpp:150-151 | the final below-minimum guard never fires |
| VerifyLaws.TierTable | cpp/src/protocol.cpp:110-151 | accepted at a tier iff accepted at Tier One and scoped or encrypted as the tier asks, with the same result; the cache changes alike at every tier |
| VerifyLaws.TierMonotone | src/lib.rs:161-271 | acceptance at a tier is the same acceptance, with the same next cache, at every lower tier |
| VerifyLaws.AchievesMinimum | cpp/src/protocol.cpp:150-157 | success achieves at least the required tier |
| VerifyLaws.TierThreeIncludesTwoIffScoped | cpp/src/protocol.cpp:110-143 | Tier Three carries an authorised channel iff there is a scope header; without one, policy Tier Two refuses it |
| VerifyLaws.MissingHeadersIsExact | cpp/src/protocol.cpp:60-73 | MissingHeaders iff one of the five headers is missing, unless all five are and the policy is Tier Zero; the cache is then untouched |
| VerifyLaws.CacheChangesExactly | cpp/src/protocol.cpp:103-108 | the cache is called by exactly the authentic requests, with their key-id, nonce and clock, whatever becomes of them later |
| VerifyLaws.ClockOnlyDecidesFreshness | cpp/src/protocol.cpp:89-108 | at another clock an authentic request reaches the cache iff its timestamp is fresh then, and fares the same after it |
| VerifyLaws.SignedTextBindsRequest | cpp/src/protocol.cpp:100-102 | for timely requests with LF-free method, target and nonce, the signed text fixes method, target, timestamp, nonce, scope and body digest |
| VerifyLaws.SignedTextFixesTargetIffLfFree | cpp/src/protocol.cpp:100-102 | for any request, the signed text fixes method and target iff these two are LF-free |
| VerifyLaws.EncryptionHeadersAreUnsigned | cpp/src/protocol.cpp:89-108 | no value of the three encryption headers changes whether a request is authentic, or what the cache becomes |
| VerifyLaws.UnmarkedIsAcceptedBelowThree | cpp/src/protocol.cpp:110-158 | an accepted request is also accepted without its encryption mark iff the policy is below Three, and Two only with a scope; the body is then delivered as it stands, at Tier Two or One |
| RunLaws.ErasureLeavesNoTrace | src/lib.rs:161-221 | deleting any passthroughs and any requests that fail up to the signature check leaves all other verdicts and the final cache unchanged |
| RunLaws.OtherPairsDoNotInterfere | cpp/src/protocol.cpp:106-108 | for clocks that do not go back, deleting requests with other pairs leaves a verdict unchanged |
| RunLaws.AdmissionsAreSpaced | cpp/src/protocol.cpp:89-108 | for any clocks, between two admissions of a pair some request that reached the cache, up to the second, had a clock at least max(C, 1) past the first |
| RunLaws.LaterAcceptance | cpp/src/protocol.cpp:89-108 | for clocks that do not go back, a key-id, nonce and timestamp accepted again, whatever else differs, is accepted at least max(C, 1) after the first time and at most W after the timestamp |
| RunLaws.AcceptancesAreBounded | cpp/src/protocol.cpp:89-108 | one key-id, nonce and timestamp is accepted at most floor(2W / max(C, 1)) + 1 times, for clocks that do not go back |
| RunLaws.BoundIsReached | cpp/src/protocol.cpp:89-108 | every acceptable request has a run, with clocks that do not go back, in which it is accepted exactly that often |
| RunLaws.AtMostOnceIffCacheOutlivesFreshness | SESAME.md:144-151 | for clocks that do not go back, every run accepts an acceptable request at most once iff max(C, 1) > 2W |
| RunLaws.DefaultWindowsAcceptThreeTimes | cpp/include/sesame/protocol.hpp:22-24 | with both windows 300 a run, with clocks that do not go back, accepts one request three times |
| RunLaws.ReplayableIffWindowStillOpen | cpp/src/protocol.cpp:89-108 | for clocks that do not go back, a key-id, nonce and timestamp just accepted can be accepted again, from any request that carries them, iff its clock plus max(C, 1) is not past the timestamp plus W, nor past INT64_MAX |
| RunLaws.SteppedBackClockReopens | cpp/include/sesame/replay.hpp:42-50 | under any C, a request is accepted twice if the clock steps back after an authentic request with another pair whose clock was max(C, 1) ahead |
| Sender.SignatureIsAuthentic | cpp/examples/sign_request.cpp:74-77 | under any key the server still lists, the sender's request is authentic iff its key-id is not revoked, its year has four digits and the clocks differ by at most W |
| Sender.BodyIsDelivered | cpp/examples/sign_request.cpp:60-72 | the plaintext comes back, encrypted or not |
| Sender.ConformantRequestIsAccepted | cpp/examples/sign_request.cpp:40-77 | under any key the server still lists, a conformant request is accepted iff its key-id is not revoked, the clocks differ by at most W, its nonce is unseen, it may act on its channel and it meets the tier; with its own plaintext and channel |
| Sender.RequestForTierIsAccepted | cpp/examples/sign_request.cpp:40-82 | a request made for a tier is accepted, under any policy up to it, iff all of that but the tier holds, and achieves exactly that tier |
| Sender.ScopedChannelIsGranted | cpp/examples/sign_request.cpp:47-49 | a draft scoped channel=X, with X trimmed, is granted exactly X, iff the key may act on X and it is the target when one is given |
| Sender.WireLengths | cpp/examples/sign_request.cpp:46-77 | 32 hex digits of nonce, 64 of signature, 24 of IV |
| Sender.TierThreeWithoutAuthorisation | cpp/src/protocol.cpp:110-143 | on every server with the keys, an encrypted unscoped request is accepted as Tier Three without a channel |
| EndToEnd.ConformantRequestIsAcceptable | cpp/src/protocol.cpp:70-158 | a conformant request passes every check but replay at any clock in its window |
| EndToEnd.ConformantRequestIsAcceptedAtMostOnceIff | SESAME.md:144-151 | for clocks that do not go back, every run accepts a conformant request at most once iff max(C, 1) > 2W |
| EndToEnd.ConformantRequestIsAcceptedThreeTimes | SESAME.md:137-151 | with the default windows some run, with clocks that do not go back, accepts every conformant request three times |
| Response.NamesDiffer | cpp/include/sesame/message.hpp:11-21 | the nine header names differ pairwise in every letter case |
| Response.SignResponse | cpp/src/protocol.cpp:161-215 | the exact condition for success and for each of UnknownKey, SignatureMismatch and DecryptFailed; on success the header list is, name by name, that of the protocol, ending with the HMAC under the primary key, the signature verifies over the string rebuilt from headers and body, and at Tier 3 the body opens under them to the input |
| Response.SignStamped | cpp/src/protocol.cpp:173-214 | the same from the point where timestamp and nonce are known |
| Response.SealBody | cpp/src/protocol.cpp:185-199 | nothing iff a key or randomness is missing; else the three encryption headers are appended and the body opens to the input under that key, the IV in the headers and the associated data |
| Response.SignHeaders | cpp/src/protocol.cpp:205-208 | the signature header is appended, and the signature in it verifies over the string rebuilt from the headers and the body |

## Left out

- Overflow of `now + window` and of `now - timestamp` at the ends of the 64-bit range: the replay cache and the freshness check use unbounded sums, because signed overflow is undefined there.
- Protocol.VerifyRequest: takes the in-memory cache, not an arbitrary implementation of the replay seam.
- Response.SignResponse: uniqueness of nonces and IVs is not stated, because they come from the operating system's generator.
- Cryptographic strength, constant-time comparison and the OpenSSL binding: foreign code, of which only output lengths and the seal/open law are used.
- The mutex itself: a run is any sequence of calls, which is what it admits.
- `StaticKeyProvider`, `ChannelScope`, error codes and HTTP statuses, tier number conversion: one-branch look-ups.
- HTTP adapters, header extraction, vectors, benchmarks, packaging: input, output and data.
- The Go and Python ports, and the library timestamp parsers of Rust, Go and Python: duplicates of the modelled logic, or opaque. Only the replay cache and the key loop of the Rust crate are modelled beside the C++ ones.
- Unicode white space in the scope header, which the Rust crate trims: the model has the C locale's `isspace`.
