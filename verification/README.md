# anago: a verified model

anago is a hub-and-spoke WireGuard manager: a hub keeps a state file, hands out join codes, gives
devices addresses, renews its own certificate through ACME, and checks and publishes the DNS records
that takes. This project models the parts of it that decide something, as Dafny values and functions,
models the parts that run as loops over updated state as methods and classes held to those functions,
and proves what the program's documentation and tests promise about them.

| files | what they model |
|---|---|
| `Wrappers`, `Integers`, `Sequences`, `Text`, `Utf8` | results, saturating i64 arithmetic and decimal text, concatenation, trimming and splitting, UTF-8 with its strict and lossy decoders |
| `Json`, `JsonRoundTrip`, `JsonSpacing`, `JsonText`, `JsonSpelling`, `JsonMachine` | the JSON values, printers and reader, and the grammar the reader decides (RFC 8259 without floats) |
| `DnsWire`, `DnsNames`, `DnsAnswers`, `DnsReplies`, `DnsMachine` | names, compression, TXT values and queries, answers whole and cut off (RFC 1035, RFC 6891) |
| `Calendar`, `X509` | the Gregorian day count, certificate times and the DER cursor (RFC 5280) |
| `TlsState`, `Renewal`, `RenewalMachine` | the renewal plan, the backoff and the CA's waits, and the loop over them |
| `Subnet`, `Codes`, `Credentials` | addresses, join codes, names, tokens and keys |
| `Hub`, `HubRuns`, `HubSync`, `HubMachine` | the hub's transitions, what holds over every run of them, and a device's sync |
| `StateFile`, `FieldNames`, `StateRoundTrip`, `StateFileMachine`, `HubFile` | the state file written and read, and the hub run through it |
| `Challenge`, `ChallengeZone`, `ChallengeMachine` | DNS-01 challenge records on a zone shared by many runs |
| `Qr`, `QrMachine` | the QR drawing and reading it back |

What a function computes is stated where it is used: the table names the lemmas about it, and the
methods whose contracts tie the running code to it.

What lies outside is a parameter or a choice of the environment: the clock, the settings the state
file holds at each look, how an ACME attempt ends, what a zone answers and whether a request it is
said to have failed took effect, the codes and tokens the kernel would draw. `Credentials.World` holds
Unicode's lower-casing and letter tables and the token hash; `Credentials.Sound` states the three facts
used about them: lower-casing twice is lower-casing once, no letter or digit is white space, and a hash
is 64 hexadecimal characters. Theorems about tokens take distinct hashes as a condition on the run.

Where the code and what is said of it differ, the model follows the code:

- `json.rs:37-41` promises the round trip for every value the module can build. The depth limit makes
  it hold exactly for values nested at most 64 deep (`JsonRoundTrip.RoundTripExactly`);
  `JsonRoundTrip.TooDeepIsRefused` is the first array that is not.
- `dnswire.rs:202-217` decodes each 255-byte string on its own, so a value outside ASCII whose encoding
  is cut inside a character comes back changed (`DnsAnswers.ValueReadsBackExactly` says exactly when,
  `DnsAnswers.AccentAtTheCut` gives one).
- `dnswire.rs:170-172` says what arrived of a truncated answer is still worth reading. A cut in the
  data of a record keeps what came before it; one in, or right before, a record's owner is a fault
  (`DnsReplies.CutAnswerReads`, `DnsReplies.CutBetweenRecordsFails`).
- `acme.rs:1573-1582` promises at most three attempts an hour. Times saturate at the end of the i64
  range, so it holds exactly for attempts that begin more than an hour before the last second
  (`Renewal.AtMostThreeAnHour`); `Renewal.NoBackoffAtTheEndOfTime` shows four at that second.
- `state.rs:35-38` says the safety net never lands before the plan at a realistic lifetime. It does not
  from 1 814 398 seconds on, two seconds short of 21 days (`TlsState.NetSparesPlanExactly`); a second
  less and it does (`TlsState.NetCutsAShortLife`).
- `cfapi.rs:1119-1122` says the lifetime keeps the records of overlapping runs safe on this host or
  another. It does so as far as their clocks agree: the bound is 600 seconds less both errors
  (`ChallengeZone.LiveChallengeIsSafe`), and that is exact (`ChallengeZone.SkewedClocksSweepLive`).

## Model

| member | source | states |
|---|---|---|
| `JsonSpelling.ReadExactly` | crates/anago-core/src/json.rs:294-541 | A text is read as a value exactly when it spells it by the grammar, any space between tokens, any escape of each character and integers without leading zeros, and no object in it holds a key twice, and it is nested at most 64 deep |
| `JsonRoundTrip.RoundTripExactly` | crates/anago-core/src/json.rs:37-61 | A buildable value reads back from its compact text, and from its indented text, exactly when it is nested at most 64 deep; the comment promises it for every buildable value |
| `JsonRoundTrip.TooDeepIsRefused` | crates/anago-core/src/json.rs:37-61 | 65 one-item arrays around an empty one are built and printed, and neither printed form reads back |
| `JsonRoundTrip.AcceptedIsFixpoint` | crates/anago-core/src/json.rs:294-304 | Whatever text is accepted gives a value with distinct keys, i64 integers and nesting within the limit, and printing it either way and parsing it again gives it back |
| `JsonRoundTrip.PrintingIsInjective` | crates/anago-core/src/json.rs:197-256 | Two values within the limit that share a printed form are the same value |
| `JsonSpacing.PrettyIsCompactSpaced` | crates/anago-core/src/json.rs:203-267 | The indented text is the compact text with space outside its strings, and the compact text has no space there, for every value |
| `JsonRoundTrip.ValueReads` | crates/anago-core/src/json.rs:340-423 | A printed value, wherever it stands in a byte string and in either style, is read as that value and the cursor stops right after it |
| `JsonSpelling.SpelledReads` | crates/anago-core/src/json.rs:340-423 | A spelled value, wherever it stands and however it is spelled, is read as that value and the cursor stops right after the spelling |
| `JsonSpelling.ReadIsSpelled` | crates/anago-core/src/json.rs:340-541 | Whatever is read from a character boundary of a text is spelled from there to where the cursor stops |
| `JsonRoundTrip.EscapedReads` | crates/anago-core/src/json.rs:271-287 | The escaped form of a string, closing quote included, is collected back as the string's own UTF-8 |
| `JsonRoundTrip.NumberReads` | crates/anago-core/src/json.rs:514-541 | Every i64 in decimal is read as itself when no digit, point or exponent follows |
| `JsonRoundTrip.ReadValueIsBuildable` | crates/anago-core/src/json.rs:340-355 | A value read from any bytes holds no key twice at any depth and stays within the depth limit |
| `JsonText.EscapeIsUtf16` | crates/anago-core/src/json.rs:472-490 | An escape gives a character exactly when it spells that character's UTF-16, so a pair becomes one character and a lone surrogate none |
| `JsonText.EncodingIsNeverBlamed` | crates/anago-core/src/json.rs:426-541 | No text makes the reader answer that a string or a number is not UTF-8: both error paths are dead |
| `JsonText.CharsSound` | crates/anago-core/src/json.rs:426-468 | The string loop stops on a character boundary and what it collected is always UTF-8 |
| `JsonMachine.Parse` | crates/anago-core/src/json.rs:294-304 | The parser, run on any text, gives exactly the value or the fault and offset of the specification |
| `JsonMachine.Parser.Value` | crates/anago-core/src/json.rs:340-355 | From any position and depth the cursor ends where, and the answer is what, the specification says |
| `JsonMachine.Parser.LiteralAt` | crates/anago-core/src/json.rs:357-364 | A literal advances the cursor past its whole word or leaves it where it was and refuses |
| `JsonMachine.Parser.ObjectAt` | crates/anago-core/src/json.rs:366-401 | The object loop, filling an `Object` in place, gives the specified object, duplicate-key fault or offset |
| `JsonMachine.Parser.FieldAt` | crates/anago-core/src/json.rs:370-379 | One key, its colon and its value, with the cursor where the specification leaves it |
| `JsonMachine.Parser.ArrayAt` | crates/anago-core/src/json.rs:403-424 | The array loop pushes the specified items and stops after the bracket |
| `JsonMachine.Parser.StringAt` | crates/anago-core/src/json.rs:426-468 | The string loop, pushing bytes, gives the specified text or fault |
| `JsonMachine.Parser.UnicodeEscapeAt` | crates/anago-core/src/json.rs:472-490 | A surrogate pair takes both escapes, anything else one, and every lone surrogate is refused |
| `JsonMachine.Parser.Hex4At` | crates/anago-core/src/json.rs:492-509 | Four hexadecimal digits in either case, or the fault at the offset before them |
| `JsonMachine.Parser.NumberAt` | crates/anago-core/src/json.rs:514-541 | Digits without leading zero, no float, in range of an i64, or the specified fault |
| `JsonMachine.Parser.SkipWs` | crates/anago-core/src/json.rs:325-329 | The cursor moves to the first byte that is not space |
| `JsonMachine.WriteValue` | crates/anago-core/src/json.rs:211-256 | The buffer grows by exactly the text of the value at that depth and indentation |
| `JsonMachine.WriteString` | crates/anago-core/src/json.rs:271-287 | The buffer grows by the quoted, escaped string |
| `JsonMachine.WriteBreak` | crates/anago-core/src/json.rs:258-267 | A line break and the indentation in the indented form, nothing in the compact one |
| `JsonMachine.ToString` | crates/anago-core/src/json.rs:197-201 | The whole compact text |
| `JsonMachine.ToStringPretty` | crates/anago-core/src/json.rs:205-209 | The whole indented text |
| `JsonMachine.Object.Insert` | crates/anago-core/src/json.rs:54-61 | A new key is appended; one already present is refused and nothing changes; distinct keys stay distinct |
| `DnsNames.EncodedNameReads` | crates/anago-core/src/dnswire.rs:221-296 | What the encoder writes, wherever it stands in a message, reads back as the name without trailing dots and ends just past it |
| `DnsNames.PointerReads` | crates/anago-core/src/dnswire.rs:252-296 | A compression pointer to an encoded name reads as that name and ends after the pointer |
| `DnsNames.SharedSuffixReads` | crates/anago-core/src/dnswire.rs:252-296 | Labels followed by a pointer to another name read as both joined by a dot |
| `DnsNames.NameExactly` | crates/anago-core/src/dnswire.rs:252-296 | A name is read from an offset exactly when a finite spelling of it starts there that takes at most 32 pointers, and it ends where that spelling leaves the stream |
| `DnsNames.EncodesExactly` | crates/anago-core/src/dnswire.rs:221-250 | A name is encoded exactly when, without trailing dots, it has 1 to 253 ASCII characters in labels of 1 to 63, and it then takes two bytes more than it has characters |
| `DnsNames.FoldExactly` | crates/anago-core/src/dnswire.rs:298-301 | Two names compare equal exactly when they differ in ASCII case and trailing dots at most |
| `DnsWire.NameAt` | crates/anago-core/src/dnswire.rs:252-296 | On success the offset returned is strictly after the start and within the message; reading terminates on every byte string |
| `DnsWire.NameFrom` | crates/anago-core/src/dnswire.rs:252-292 | From any point of the loop, an offset already recorded by the first pointer is the one returned, and every offset is within the message |
| `DnsNames.NamePrefix` | crates/anago-core/src/dnswire.rs:252-292 | More bytes at the end never change a name that could be read |
| `DnsAnswers.CutShort` | crates/anago-core/src/dnswire.rs:139-217 | If a message and a prefix of it can both be read, they agree on rcode and truncation and the prefix's values are a prefix of the message's |
| `DnsReplies.PublishedIsRead` | crates/anago-core/src/dnswire.rs:139-217 | An answer that carries given values, each split into strings of 255 bytes, its names written in any way that is legible, reads back as its rcode, its truncation bit and exactly the values under the name wanted, in order, exactly when none of those is split inside a character |
| `DnsReplies.CutAnswerReads` | crates/anago-core/src/dnswire.rs:139-192 | The first n bytes of an answer, its names legible, are read exactly when the questions are whole and the cut is neither in nor right before a record's owner, and give the values of the whole records |
| `DnsReplies.CutBetweenRecordsFails` | crates/anago-core/src/dnswire.rs:166-173 | A cut exactly between two records is a fault and loses the values before it |
| `DnsReplies.AnswerReads` | crates/anago-core/src/dnswire.rs:139-192 | An answer with any number of questions and any records, its names spelled out, pointing or sharing suffixes, reads back as its rcode, its truncation bit and the decoded data of exactly the TXT/IN records owned by the name wanted, in order, whatever follows the answer section |
| `DnsReplies.OwnerReads` | crates/anago-core/src/dnswire.rs:252-296 | A name legible where it stands is read as its text and ends where it was written to end, from any part of the message that holds it, and from no other |
| `DnsReplies.PlainIsLegible` | crates/anago-core/src/dnswire.rs:221-296 | A name spelled out is legible without a pointer |
| `DnsReplies.PointedIsLegible` | crates/anago-core/src/dnswire.rs:252-296 | A pointer to any earlier legible name, itself a pointer or not, is legible as that name with one pointer more |
| `DnsReplies.SharedIsLegible` | crates/anago-core/src/dnswire.rs:252-296 | Labels and then a pointer to any earlier legible name are legible as both joined by a dot, with one pointer more |
| `DnsReplies.PlainlyServedIsLegible` | crates/anago-core/src/dnswire.rs:139-192 | Every answer whose questions are spelled out and whose owners are spelled out or point to the first question is legible throughout |
| `DnsReplies.EntryReads` | crates/anago-core/src/dnswire.rs:159-190 | A record is read with its owner's name, its type, class and data, however its owner is written |
| `DnsReplies.EntryOfCut` | crates/anago-core/src/dnswire.rs:161-180 | A record cut off in its owner is a fault, cut off after it is no record, and whole is read whole |
| `DnsAnswers.ValueReadsBackExactly` | crates/anago-core/src/dnswire.rs:202-217 | A value split into strings of 255 bytes comes back exactly when no piece begins inside a character; ASCII always does |
| `DnsAnswers.AccentAtTheCut` | crates/anago-core/src/dnswire.rs:202-217 | 254 letters and an accented one come back changed |
| `DnsAnswers.TxtDataReads` | crates/anago-core/src/dnswire.rs:202-217 | The strings of TXT data are decoded one by one and joined in order |
| `DnsAnswers.QueryReads` | crates/anago-core/src/dnswire.rs:80-102 | The query asks one question, the name with type TXT and class IN, and ends with one OPT record carrying the payload size |
| `DnsMachine.EncodeNameLoop` | crates/anago-core/src/dnswire.rs:221-250 | The encoding loop gives the specified bytes or names the specified fault |
| `DnsMachine.ReadName` | crates/anago-core/src/dnswire.rs:252-292 | The loop over labels and pointers, measured by pointers left and then bytes left, gives the specified name, end or fault |
| `DnsMachine.ReadCharacterStrings` | crates/anago-core/src/dnswire.rs:206-217 | The loop joins the decoded strings of the record data, the last one cut off where the data ends |
| `DnsMachine.ReadTxtMessage` | crates/anago-core/src/dnswire.rs:139-192 | Reading a whole message gives the specified reply or fault; every index taken is in range |
| `DnsMachine.RecordLoop` | crates/anago-core/src/dnswire.rs:159-190 | The answer loop keeps the values owned by the wanted name and stops where a record is cut off |
| `DnsMachine.ReadEntry` | crates/anago-core/src/dnswire.rs:161-180 | One record, or nothing when it is cut off after its owner |
| `DnsMachine.BuildTxtQuery` | crates/anago-core/src/dnswire.rs:80-102 | The query's bytes, or the encoder's fault |
| `Calendar.CivilIsNaive` | crates/anago-core/src/x509.rs:203-211 | For every valid date of every year the day-count formula is the count of days one year, one month, one day at a time from 1970-01-01 |
| `Calendar.NextDayCountsOneMore` | crates/anago-core/src/x509.rs:167-211 | The next date, by the month lengths and the leap rule, counts exactly one more day; 1970-01-01 counts zero |
| `Calendar.EarlierIsFewerDays` | crates/anago-core/src/x509.rs:203-211 | Dates in order of year, month and day are in order of day count, both directions |
| `X509.SplitExactly` | crates/anago-core/src/x509.rs:73-98 | One cursor step succeeds exactly when an element stands at the front, in short or long length form, and gives its tag, its contents and what follows |
| `X509.EncodedReadsBack` | crates/anago-core/src/x509.rs:73-98 | Every tag with contents under 2^32 bytes, encoded, is read back with its trailing bytes left over |
| `X509.TimeExactly` | crates/anago-core/src/x509.rs:113-165 | A time is read from exactly the digits of a real moment in its form, two-digit years standing for 1950 to 2049 |
| `X509.TimesKeepOrder` | crates/anago-core/src/x509.rs:113-165 | Two times without leap seconds, in either encoding, are ordered as the moments they name |
| `X509.NumberExactly` | crates/anago-core/src/x509.rs:188-195 | Two bytes give a number exactly when they are its two decimal digits |
| `X509.CertificateReads` | crates/anago-core/src/x509.rs:21-46 | A certificate, with or without a version field and whatever follows each part, gives the time in its second validity element |
| `X509.OnlyCertificatesRead` | crates/anago-core/src/x509.rs:21-46 | Bytes that give an expiry are laid out as a certificate around that time |
| `X509.Der.Next` | crates/anago-core/src/x509.rs:73-98 | The cursor moves past the element it answers, or past nothing it can use, without reading out of range |
| `X509.Der.Expect` | crates/anago-core/src/x509.rs:100-103 | The contents of the next element when it has the tag expected; the cursor moves past an element of another tag too, and stays where no element stands |
| `X509.ReadNotAfter` | crates/anago-core/src/x509.rs:21-46 | Driving the cursor over any bytes gives the specified expiry |
| `TlsState.PlanLiesWithinLife` | crates/anago-core/src/state.rs:144-155 | For all i64 times with expiry at or after issue the renewal plan lies between them; without saturation it is two thirds of the way |
| `TlsState.BackwardsLifeIsDueAtOnce` | crates/anago-core/src/state.rs:149-155 | An expiry before the issue date makes renewal due at the issue date |
| `TlsState.OpenNetMeansRenew` | crates/anago-core/src/state.rs:157-195 | The composed answer is yes exactly when the net is open or the plan is reached, so an open net is enough |
| `TlsState.NetSparesPlanExactly` | crates/anago-core/src/state.rs:179-195 | The net leaves the plan alone exactly from a lifetime of 1 814 398 seconds, but for a certificate issued at the lowest representable time that lasts a second at most |
| `TlsState.NetCutsAShortLife` | crates/anago-core/src/state.rs:179-195 | At a lifetime of 1 814 397 seconds the net comes a second before the plan |
| `TlsState.RecordedScheduleFits` | crates/anago-core/src/state.rs:121-131 | A recorded issuance is due before the certificate expires, at its plan for 21 days or more, with every other detail kept |
| `Renewal.AtMostThreeAnHour` | crates/anago/src/acme.rs:1573-1582 | While renewals keep failing for one account at one CA and certificate, any four attempts, wherever in a run, take more than an hour exactly when the first starts more than an hour before the last representable second, and 6300 seconds exactly when it starts at least that long before |
| `Renewal.GapsDouble` | crates/anago/src/acme.rs:1628-1634 | In any list of failing attempts the gap after number k+1 is at least a quarter of an hour times 2^k, or a day, or ends at the last representable second |
| `Renewal.NoBackoffAtTheEndOfTime` | crates/anago/src/acme.rs:2013-2023 | The exception is real: at the last representable second four attempts follow at once |
| `Renewal.DelayDoubles` | crates/anago/src/acme.rs:1628-1634 | After n+1 failures the delay is at least the first times 2^n, capped at a day, for every n |
| `Renewal.FailedWaits` | crates/anago/src/acme.rs:2013-2042 | After a failure the remaining wait covers the backoff and what the CA asked for |
| `Renewal.WaitIsKept` | crates/anago/src/acme.rs:1974-2009 | No attempt starts before the deadline of a wait the CA imposed, through any failures and any change of account, challenge, contact or paths, while the CA and the issue time stay and nothing succeeds |
| `Renewal.WaitLiftedExactly` | crates/anago/src/acme.rs:2057-2095 | Reading the settings lifts a wait exactly when they name another known directory or another issue time than the last failure was against |
| `Renewal.BackoffForgottenExactly` | crates/anago/src/acme.rs:2044-2095 | A backoff is forgotten exactly when the directory, the account or the issue time is not the one the last failure was against, and is otherwise left as it was |
| `Renewal.SchedulesAreApart` | crates/anago/src/acme.rs:2199-2245 | An unreadable state file and a failing CA never delay each other; unreadable turns wait out their own backoff, an hour at most at a time |
| `Renewal.WaitOutlivesTurn` | crates/anago/src/acme.rs:2187-2289 | One turn of the loop neither starts an attempt before a standing deadline nor shortens it |
| `Renewal.BackoffGrows` | crates/anago/src/acme.rs:2013-2023 | A turn of a failing run never shortens the backoff, and an attempt counts one more failure |
| `Renewal.AttemptsOnTime` | crates/anago/src/acme.rs:2132-2162 | With settings unchanged up to the first attempt and sleeps that overrun by so many seconds at most, a turn attempts exactly from the latest of the due time and the end of every wait on, and no later than now or that moment by more than one overrun; before it the loop sleeps 1 to 3600 seconds at a time, fewer times than seconds remain |
| `Renewal.AttemptComes` | crates/anago/src/acme.rs:2132-2162 | Any turns that outnumber the seconds to wait hold an attempt |
| `Renewal.TurnSleeps` | crates/anago/src/acme.rs:2153-2162 | A turn attempts exactly from the target on; before it, it sleeps 1 to 3600 seconds and never past the target |
| `RenewalMachine.Renewals.constructor` | crates/anago/src/acme.rs:1996-1998 | A fresh schedule remembers nothing |
| `RenewalMachine.Renewals.EarliestNext` | crates/anago/src/acme.rs:2004-2009 | The least moment at which both waits are over, 1970 standing for a wait the CA did not ask for |
| `RenewalMachine.Renewals.Failed` | crates/anago/src/acme.rs:2013-2042 | The fields after a failure, and a delay that covers both waits |
| `RenewalMachine.Renewals.SettingsChanged` | crates/anago/src/acme.rs:2057-2095 | The fields after reading settings, and which schedule was forgotten |
| `RenewalMachine.Renewals.Succeeded` | crates/anago/src/acme.rs:2106-2108 | Everything is forgotten |
| `RenewalMachine.RenewalLoop` | crates/anago/src/acme.rs:2187-2289 | Over any turns the world supplies, the loop decides and sleeps as the step function says, with its two schedules kept apart |
| `RenewalMachine.TakeTurn` | crates/anago/src/acme.rs:2206-2287 | One turn changes both schedules as the step function says |
| `Subnet.Ipv4Exactly` | crates/anago-core/src/subnet.rs:30-32 | An address is read from exactly one text, the one it is shown as |
| `Subnet.SubnetExactly` | crates/anago-core/src/subnet.rs:30-53 | A subnet is read from exactly the text it is shown as, and only a network address is one |
| `Subnet.AllocatesLowestFree` | crates/anago-core/src/subnet.rs:78-92 | The lowest address from .2 to .254 not in use, and none exactly when all are; other networks' addresses do not count |
| `Subnet.FindFree` | crates/anago-core/src/subnet.rs:144-149 | The lowest octet not in use from a given one to 254, and none exactly when every one is in use |
| `Codes.CodeReadExactly` | crates/anago-core/src/code.rs:43-67 | A code is read exactly when eight alphabet characters remain once separators go and ASCII case is folded, and it is those eight, grouped |
| `Codes.CanonicalExactly` | crates/anago-core/src/code.rs:33-40 | Canonical codes are exactly the fixed points of reading |
| `Codes.DrawnExactly` | crates/anago-core/src/code.rs:69-85 | Drawn indices give a canonical code, and different indices different codes |
| `Codes.EveryCodeIsDrawn` | crates/anago-core/src/code.rs:69-85 | Every canonical code is drawn by some indices |
| `Codes.FreshCodeLivesExactly` | crates/anago-core/src/code.rs:170-200 | A fresh code is usable before its lifetime is over and not a second after; without a lifetime it is born expired |
| `Credentials.NamesExactly` | crates/anago-core/src/name.rs:34-68 | Reading gives canonical names, and a name is left as it is exactly when it is canonical |
| `Credentials.CheckHex` | crates/anago-core/src/token.rs:141-150 | Exactly the strings of 64 lower-case hexadecimal characters pass, unchanged |
| `Credentials.ParseKey` | crates/anago/src/wg.rs:180-194 | A text is accepted exactly when it is a key but for space around it, and what is given is the trimmed text; a key without space is left as it is |
| `HubRuns.RunKeepsOrder` | crates/anago-core/src/state.rs:854-902 | In every state a run from an orderly state reaches, names and addresses are pairwise distinct and devices are housed in .2 to .254; codes are spent by exactly the joins, and devices are those before and the joins, less removals |
| `HubRuns.AddPeerExactly` | crates/anago-core/src/state.rs:854-891 | A registration is accepted exactly when its first code entry is usable, its name new and an address free; it then gets the lowest free address and the code is spent |
| `HubRuns.JoinExactly` | crates/anago/src/api.rs:316-363 | A join succeeds exactly when nothing is wrong with the request and fewer than 253 devices are registered; a full subnet is answered exactly at 253 |
| `HubRuns.FullExactly` | crates/anago-core/src/subnet.rs:81-87 | In an orderly state no address is free exactly when there are 253 devices |
| `HubRuns.RefusalChangesNothing` | crates/anago-core/src/state.rs:847-853 | A refused join or removal leaves the state equal; the hub's own details never change |
| `HubRuns.RemoveExactly` | crates/anago-core/src/state.rs:893-902 | A removal succeeds exactly for a registered name, answers with that device, keeps every other in order and frees the address |
| `HubRuns.TouchOnlyStamps` | crates/anago/src/api.rs:304-309 | A stamp changes the last call of the named device and nothing else |
| `HubRuns.OneCodeOneDevice` | crates/anago-core/src/state.rs:854-890 | Two successful joins of one run never used the same code, however often it was issued and whatever became of the device |
| `HubRuns.CodesExtend` | crates/anago-core/src/code.rs:192-200 | Over any run code entries are only added to, and a spent code stays spent at the same time |
| `HubRuns.SpentByOne` | crates/anago-core/src/state.rs:883-884 | Each operation spends exactly one code if it is a successful join and none otherwise |
| `HubRuns.ChosenCodeIsRedeemed` | crates/anago/src/code.rs:37-65 | A code just chosen and issued is the entry a join with it redeems, and it is usable |
| `HubSync.TokenLivesExactly` | crates/anago/src/api.rs:231-242 | On a hub in order, with distinct token hashes, a device's token authenticates as its own name from its join until its removal and never again, whatever else happens |
| `HubSync.MemberStaysInSync` | crates/anago-core/src/sync.rs:127-162 | After any later run that does not remove it, a device still authenticates, and its sync says nothing changed exactly when the hub's key, domain and port are in order; on any other hub it says which detail is not |
| `HubSync.RegisteredSyncs` | crates/anago/src/sync.rs:342-420 | What a device kept from its join and what the hub says now read back as equal, whatever the roster; unless the hub's own key or endpoint is refused, or its key has space around it |
| `HubSync.ReportReads` | crates/anago/src/sync.rs:383-402 | What a hub says of itself is believed exactly when its key is a key but for space around it and its endpoint a host name and a port; the key believed is the trimmed one, and a refusal names the field |
| `HubSync.EndpointExactly` | crates/anago/src/join.rs:194-213 | The endpoint a hub gives out passes the device's check exactly when its domain is a host name and its port is not 0, and is left as it is |
| `HubSync.RosterReads` | crates/anago/src/sync.rs:405-420 | Every roster of canonical names reads back device by device |
| `HubSync.JoinDoes` | crates/anago/src/api.rs:316-363 | A join that succeeds appends one device under the canonical name, with the lowest free address, and answers with the hub's details |
| `HubMachine.Server.AddPeer` | crates/anago-core/src/state.rs:854-891 | Devices and codes after a registration, and its answer |
| `HubMachine.Server.RemovePeer` | crates/anago-core/src/state.rs:899-902 | Devices after a removal, in order, and the device removed |
| `HubMachine.Server.TouchLastSeen` | crates/anago/src/api.rs:305-309 | Only the named device's last call is stamped |
| `HubMachine.Server.IssueCode` | crates/anago/src/code.rs:61-65 | One fresh entry at the end of the codes |
| `HubMachine.Server.DecideJoin` | crates/anago/src/api.rs:316-363 | State and answer of a join request |
| `HubMachine.Server.DecideRemove` | crates/anago/src/api.rs:291-302 | State and answer of a removal request |
| `HubMachine.Server.Authenticate` | crates/anago/src/api.rs:231-242 | The loop over every device answers the last that matches |
| `HubMachine.IsTaken` | crates/anago-core/src/name.rs:138-140 | Whether some device has the name |
| `HubMachine.ChooseUnusedLoop` | crates/anago/src/code.rs:37-52 | The first drawn code the state does not hold, or why there is none |
| `HubMachine.ParseCodeLoop` | crates/anago-core/src/code.rs:47-67 | The loop over characters gives the specified code or fault |
| `HubMachine.FromIndicesLoop` | crates/anago-core/src/code.rs:74-85 | The loop over indices gives the specified code or none |
| `HubFile.FileIsState` | crates/anago/src/store.rs:33-105 | Whatever file loads, of either version and whoever wrote it: reading it, changing what was read and writing it back at every request is the same run as keeping the state in memory. Before each request the file loads as the state reached by the changes that were neither refused nor failed to be written; it is that state as saved once one was, and untouched until then |
| `HubFile.UnreadableIsKept` | crates/anago/src/store.rs:65-105 | A file that does not load is never touched |
| `HubFile.FileStaysOrderly` | crates/anago/src/store.rs:65-105 | From a file that holds a state in order, whoever reads it between requests reads one in order, in which the codes spent since are the devices added and removed since |
| `HubFile.ReachedSurvives` | crates/anago-core/src/state.rs:384-438 | Every state a run from a well-formed state reaches survives being saved and loaded |
| `StateRoundTrip.SavedLoadsExactly` | crates/anago-core/src/state.rs:355-438 | Loading a saved state gives it back exactly when it is well-formed: the server at .1 of a network address, names, codes and hashes canonical |
| `StateRoundTrip.LoadedSurvives` | crates/anago-core/src/state.rs:390-438 | Whatever a load accepts, from any text, is well-formed and survives being saved and loaded |
| `StateRoundTrip.LegacyLoads` | crates/anago-core/src/state.rs:454-468 | A version 1 file is the same state with a manual certificate and no Cloudflare, and saves as version 2 of that |
| `StateRoundTrip.SourceMustAgree` | crates/anago-core/src/state.rs:214-220 | An accepted file holds ACME details exactly when its source says ACME |
| `StateRoundTrip.BadPeerIsNamed` | crates/anago-core/src/state.rs:414-417 | The first bad device stops the load and the error names it by index and field |
| `StateRoundTrip.BadCodeIsNamed` | crates/anago-core/src/state.rs:419-422 | The first bad code stops the load and the error names it by index and field |
| `StateRoundTrip.LoadedIsWellFormed` | crates/anago-core/src/state.rs:395-438 | Every value accepted gives a well-formed state |
| `StateRoundTrip.TlsReads` | crates/anago-core/src/state.rs:440-502 | The TLS part reads back, manual or ACME with all its details |
| `StateRoundTrip.CloudflareReads` | crates/anago-core/src/state.rs:507-534 | The Cloudflare part reads back, present or not |
| `StateRoundTrip.PeersRead` | crates/anago-core/src/state.rs:570-597 | Every list of devices with canonical names and hashes reads back in order |
| `StateRoundTrip.CodesRead` | crates/anago-core/src/state.rs:599-617 | Every list of canonical codes reads back in order |
| `StateRoundTrip.ServerReads` | crates/anago-core/src/state.rs:372-378 | The hub's keys and address read back |
| `StateFileMachine.ReadPeers` | crates/anago-core/src/state.rs:414-417 | The loop over devices gives the specified list, or the first fault named by its index |
| `StateFileMachine.ReadCodes` | crates/anago-core/src/state.rs:419-422 | The loop over codes gives the specified list, or the first fault named by its index |
| `StateFileMachine.ReadState` | crates/anago-core/src/state.rs:395-438 | Reading a value gives the specified state or fault, faults in the source's order |
| `Challenge.StampReadsBack` | crates/anago/src/cfapi.rs:1000-1017 | The time in a challenge comment reads back for every i64 and every process id |
| `Challenge.StaleInOrder` | crates/anago/src/cfapi.rs:1068-1085 | A sweep takes exactly the listed TXT records with a readable stamp past the lifetime, each once and in the order listed |
| `ChallengeZone.SweepsOnlyLitter` | crates/anago/src/cfapi.rs:1040-1085 | Over any interleaving, what a sweep deletes was listed as TXT with the marker and a readable stamp more than 600 seconds older than the run; no other record goes |
| `ChallengeZone.LiveChallengeIsSafe` | crates/anago/src/cfapi.rs:977-990 | No run deletes a record another run made until more than 600 seconds after its maker was started, less what both their clocks may be out |
| `ChallengeZone.LiveChallengeStays` | crates/anago/src/cfapi.rs:977-990 | While a run guards the record it published, and 600 seconds less both clocks' error have not passed since it was started, the record is in the zone exactly unless another client deleted it or the run's own delete worked without its hearing |
| `ChallengeZone.SkewedClocksSweepLive` | crates/anago/src/cfapi.rs:977-990 | No smaller bound holds: at every age past it some run sweeps a record another still holds, from 301 seconds of clock error on at no age at all |
| `ChallengeZone.PublishingSweepsAll` | crates/anago/src/cfapi.rs:1135-1151 | When a run publishes, nothing that was stale when it listed is left under its id, then or ever |
| `ChallengeZone.LitterIsSwept` | crates/anago/src/cfapi.rs:988-990 | A record some run of anago made, killed or not, is gone once a run started more than 600 seconds later, allowing for both clocks, publishes |
| `ChallengeZone.NothingForgotten` | crates/anago/src/cfapi.rs:1088-1098 | A record published and heard of is, while it exists, guarded by its run, reported as left behind, or was held by a run when it was killed |
| `ChallengeZone.GuardStaysArmed` | crates/anago/src/cfapi.rs:1160-1195 | A guard is disarmed only by its own run: by a delete that worked, by its last try or by being killed; after a delete that worked the record is gone, after a last try that did not it is reported |
| `ChallengeMachine.Publish` | crates/anago/src/cfapi.rs:1126-1155 | Stale records are deleted one by one until a delete fails; a guard exists exactly when all went and the record was created |
| `ChallengeMachine.Guard.Settle` | crates/anago/src/cfapi.rs:1189-1194 | The id is dropped exactly when the record is gone |
| `ChallengeMachine.Guard.Remove` | crates/anago/src/cfapi.rs:1172-1183 | A failed removal is tried once more on the way out; a record is reported exactly when both tries failed |
| `ChallengeMachine.Guard.Drop` | crates/anago/src/cfapi.rs:1214-1228 | An armed guard makes one try and reports what it could not remove |
| `Qr.ScanRecovers` | crates/anago-core/src/qr.rs:163-205 | Reading the glyphs of a drawing, in either style, gives the module grid back |
| `Qr.GlyphsTell` | crates/anago-core/src/qr.rs:163-205 | Each glyph shows dark exactly where the grid is dark, quiet zone included |
| `Qr.QuietZoneIsLight` | crates/anago-core/src/qr.rs:37-40 | Four light modules lie on every side |
| `Qr.DrawingShape` | crates/anago-core/src/qr.rs:93-110 | The drawing has exactly the counted lines, each filling exactly the counted columns between colour and reset |
| `Qr.DrawRefusesExactly` | crates/anago-core/src/qr.rs:152-160 | Drawing is refused exactly when the width is below size + 8, naming that width; otherwise what is drawn fits and tells the grid |
| `Qr.New` | crates/anago-core/src/qr.rs:56-58 | A grid is accepted exactly when it is a non-empty square |
| `QrMachine.DrawLoop` | crates/anago-core/src/qr.rs:163-205 | The nested loops push exactly the drawing |
| `QrMachine.LineLoop` | crates/anago-core/src/qr.rs:175-203 | One line of it |

## Left out

- Sockets, TLS, HTTP handlers, ACME orders, file locks and atomic writes: their results are inputs here.
- `Display` texts, log lines and the wording of errors: a fault is a constructor with its field or offset.
- `classify` and other matching on the CA's wording: the kind of a failure is an input.
- `next_attempt` (`acme.rs:1647-1650`): the loop does not call it; `Renewal.FailedWaits` covers both of its parts.
- `refresh` and what the listener presents: it decides nothing in the loop.
- `renewal_loop` never returns; `RenewalMachine.RenewalLoop` runs it for as many turns as the world supplies.
- Durations are whole seconds, and a `Retry-After` fits an i64.
- `client.rs`, `activate.rs`, `render.rs`, `dns.rs`, `args.rs`, `wgconf.rs` and `acme.rs` in the core crate: plumbing, wording or short branch tables.
- `proto.rs` request and response codecs: of the same shape as the state file's, and easier; requests and responses are values here.
- Unicode's tables are a parameter; normalisation is not part of the program.
- Constant-time comparison and the redaction of secrets: `matches` is equality here.
- SHA-256 is a function; that two tokens have distinct hashes is a condition on a run, not a theorem.
- Minimal DER lengths: the cursor does not check them, so nothing is claimed about them.
- X509.SplitExactly: a `usize` of 64 bits is taken, so a four-byte length never overflows.
- `json::Object` is a sequence of fields in order; looking one up finds the first.
- JsonMachine.Parser.FieldAt: one field of the object loop is a method of its own, where the source has it inline.
- JsonMachine.WriteValue: the item and field loops are methods of their own, where the source has them inline.
- `Acme::issued` and the other parts of the state file are values; only devices and codes change in place in `HubMachine`.
- ChallengeZone.SweepsOnlyLitter: speaks of records as they were listed; another client may edit its own record in between.
- ChallengeZone.LiveChallengeIsSafe: a clock is out by at most a given number of seconds when its run is started; other clients are taken not to edit records anago made, though they may delete them.
- DnsReplies.AnswerReads: a pointer leads to a name that stands earlier in the message, as section 4.1.4 of RFC 1035 has it; `DnsNames.NameExactly` covers the others.
- HubFile.FileIsState: requests come one at a time and a write is whole or not at all, as the lock and the rename make them.
- Records of other names in the zone are never listed by the query and are not part of the zone here.
- `bearer_token` and the `Authorization` header: a token arrives parsed.
