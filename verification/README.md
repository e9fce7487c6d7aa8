# Proofs about AegisBastion

A model in Dafny of the algorithmic core of the AegisBastion platform, with proofs of what that
core promises. Nothing of the original is executed; the model follows its branches, constants and
error cases, and says where the code falls short of its documentation.

What is modelled, by group of modules:

- **Codecs.** `Punycode`, `PunycodeInverse`, `PunycodeHost`: the Bootstring decoder of the phishing
  detector against an encoder written from RFC 3492 alone (`Rfc3492`). `Jcs`, `JcsNumber`, `JcsText`,
  `JcsReader`, `JcsWriter`, `JcsRereading`, `JcsForm`: the JSON canonicalizer of the Go SDK against a
  reader, a notion of equal values and the one form the standard allows, and applied twice. `Ulid`,
  `Ids`: the two identifier encoders against base-32 numerals (`Radix`, `Lex`).
- **Fast forms.** `Distance`: the three-row edit distance against its recursion and against edit
  scripts. `Bloom`, `ExactHash`: the offline blocklist against membership. `ScopeMatch`, `IpParse`,
  `IpText`, `Cidr`: scope matching and address parsing against address arithmetic.
- **Limiters and schedulers.** `Buckets`, `RateCap`, `ScanGate`, `DispatchLimit`: token buckets and
  the concurrency limiter over whole runs. `Escalate`: escalation chains over whole runs.
- **Protocols.** `AlertAuthz`, `Dedup`, `Routing`, `RoutingDecision`, `Herald`, `Pipeline`,
  `HeraldRuns`, `HeraldGuarantees`, `HeraldChains`, `HeraldOverlaps`: the alert service, as an object, as a state
  machine, and with steps that overlap. `HeraldEffects`, `HeraldSettings`: what each of its steps
  brings about, and under which settings. `BundleVersion`, `IntelStore`, `IntelEffects`: the signed
  intelligence updates. `Audit`: the hash-chained audit emitter.

Objects whose fields the source updates are classes here, and each method is proved to leave the
state that a step function gives; the theorems over runs are about those functions.

Verify the project with `dafny verify dfyconfig.toml`.

## Where the code departs from its documentation

- Punycode: a label without a delimiter also outputs its digits (`url/punycode.ts:43`), and a
  delimiter at index 0 is consumed; RFC 3492, section 6.2, does neither. See
  `PunycodeInverse.DecodeEncode` and `PunycodeInverse.EncodeDecode` for the exact conditions.
- JCS: int64 literals pass through as they stand, also where their double has a shorter decimal
  (`JcsNumber.IntegerLiteralRounds`), and unsigned integers beyond int64 are written in a form that
  is not stable under canonicalization (`JcsRereading.RereadStaysIff`).
- Concurrency limiter: each hand-off to a waiter costs a slot for good (`RateCap.GrantedIff`), and a
  release closure called twice frees a slot twice (`RateCap.DoubleReleaseOverAdmits`).
- Scan gate: a tighter cap is not applied while no time passes (`ScanGate.TighterCapIgnored`).
- Escalation: a repeat can wait for a step that the chain never fires
  (`Escalate.RepeatWaitsForUnusedStep`); with repeat interval 0 a chain ends without a report
  (`Escalate.ExhaustsIffRepeats`), the bootstrap chain is parked
  (`HeraldOverlaps.BootstrapChainIsParked`), and step 0 of it would never fire
  (`Escalate.StepZeroNeverFires`).
- Deduplication: a bar in a hint or an asset lets findings share a fingerprint
  (`Dedup.CollidesIffBar`).
- Alerts: see `HeraldOverlaps` for what overlapping steps do, for held orders that are lost and for
  one-shot orders that are deduplicated after all.
- Intelligence store: freshness is judged once (`IntelStore.StalenessIsNotRechecked`); overlapping
  applications can roll back (`IntelStore.OverlapRollsBack`), and an expired policy is not replaced by
  an older one still valid (`IntelStore.PolicyInForceAlongRun`).
- Identifiers in Go are left aligned, not ULIDs (`Ids.NotTheUlidLayout`).

## Model

| member | source | states |
|---|---|---|
| `Punycode.ComputeAdapt` | modules/phish-catcher/src/url/punycode.ts:16-25 | the loop with its 32-bit shift computes the bias adaptation written as a recursion |
| `Punycode.ShiftIsSigned` | modules/phish-catcher/src/url/punycode.ts:17 | the halving works on the signed number that the lowest 32 bits stand for, and rounds down |
| `PunycodeInverse.ReadWritten` | modules/phish-catcher/src/url/punycode.ts:54-66 | an integer written by the encoder of RFC 3492, its own digits and thresholds included, reads back as that number, whatever follows |
| `PunycodeInverse.SameAdaptation` | modules/phish-catcher/src/url/punycode.ts:16-25 | the decoder's adaptation is the one of RFC 3492, section 6.1, with the parameters of section 5 written out |
| `PunycodeInverse.WrittenRead` | modules/phish-catcher/src/url/punycode.ts:54-66 | an integer that reads, in lowercase digits, has exactly one digit string: the one the encoder writes |
| `Punycode.ScanDelta` | modules/phish-catcher/src/url/punycode.ts:54-66 | the inner loop adds exactly the integer's value to the index, or fails where the recursive reader does |
| `Punycode.DecodePunycodeLabel` | modules/phish-catcher/src/url/punycode.ts:36-71 | the in-place decoder returns what the run of state transitions returns, errors included |
| `PunycodeInverse.DecodeDigits` | modules/phish-catcher/src/url/punycode.ts:52-69 | decoding the digits of any plan of insertions performs that plan |
| `PunycodeInverse.FromUnique` | modules/phish-catcher/src/url/punycode.ts:52-69 | a code-point sequence has one insertion plan, ordered by code point and position |
| `PunycodeInverse.StepBias` | modules/phish-catcher/src/url/punycode.ts:16-25 | below 2^31 the decoder's bias, 32-bit shift and `oldi === 0` test included, is the one of RFC 3492, section 6.1, with its parameters written out |
| `PunycodeInverse.FirstDeltaFits` | modules/phish-catcher/src/url/punycode.ts:16-25 | every delta of an accepted run on labels of up to 1927 Unicode code points stays below 2^31 |
| `PunycodeInverse.DecodeEncode` | modules/phish-catcher/src/url/punycode.ts:36-71 | decoding what the independent encoder of `Rfc3492` writes gives the sequence back if and only if it is empty or has a basic code point |
| `PunycodeInverse.NoBasicPointFails` | modules/phish-catcher/src/url/punycode.ts:42-50 | without a basic code point, and so without a delimiter, the digits themselves are output too and the round trip fails |
| `PunycodeInverse.EncodeDecode` | modules/phish-catcher/src/url/punycode.ts:36-71 | an accepted label re-encodes to itself if and only if it is empty, or its delimiter is not at index 0 and its digits are lowercase |
| `PunycodeInverse.CaseIrrelevant` | modules/phish-catcher/src/url/punycode.ts:27-33 | digits may be written in either case |
| `PunycodeInverse.AcceptsIff` | modules/phish-catcher/src/url/punycode.ts:36-71 | a label decodes to a sequence if and only if that is within Unicode and the encoder writes it as the label's basic part, a delimiter and its digits in lower case; every other label fails |
| `PunycodeHost.DecodeHostLabels` | modules/phish-catcher/src/url/punycode.ts:83-95 | what is shown has, label by label, the decoded label or the label as it stands |
| `PunycodeHost.LabelsShown` | modules/phish-catcher/src/url/punycode.ts:83-95 | no decoded label falls apart at a dot or joins with its neighbour |
| `PunycodeHost.ShownOtherwiseIff` | modules/phish-catcher/src/url/punycode.ts:74-92 | a label is shown as something else exactly when it has the ACE prefix and the rest is, up to the case of its digits, how RFC 3492 writes that |
| `JcsNumber.UnsignedBranchIsDead` | sdks/go/audit/jcs.go:180-183 | the unsigned branch is never reached with a value the signed one did not take |
| `JcsNumber.LayoutReads` | sdks/go/audit/jcs.go:199-248 | digits and exponent can be recovered from the text of each of the four layouts |
| `JcsNumber.LayoutDenotes` | sdks/go/audit/jcs.go:199-248 | each layout denotes exactly digits times the power of ten (section 3.2.2.3 of RFC 8785) |
| `JcsNumber.IntTextIsLayout` | sdks/go/audit/jcs.go:177-179 | an integer written directly has the text its exact decimal would be laid out in |
| `JcsNumber.CanonicalNumberMeaning` | sdks/go/audit/jcs.go:170-190 | the canonical number denotes the literal's own value within int64 and the parsed double otherwise, and fails exactly when there is none |
| `JcsNumber.DecimalTextInjective` | sdks/go/audit/jcs.go:199-248 | different decimals have different texts |
| `JcsNumber.IntegerLiteralRounds` | sdks/go/audit/jcs.go:177-179 | an int64 literal is written as RFC 8785 demands if and only if the shortest decimal of its double is that integer |
| `JcsNumber.UnroundedLiteral` | sdks/go/audit/jcs.go:177-179 | 2^53 + 1 is written as it stands, where RFC 8785 demands its double, 2^53 |
| `JcsNumber.ExactDoubleYetUnrounded` | sdks/go/audit/jcs.go:177-179 | so is 2^62, which is its own double, but not the shortest decimal of it |
| `Jcs.CompareUtf16` | sdks/go/audit/jcs.go:119-128 | the index loop decides the order of UTF-16 code units |
| `Jcs.Utf16LessIsStrictTotalOrder` | sdks/go/audit/jcs.go:116-128 | the key order of section 3.2.3 of RFC 8785 is a strict total order |
| `Jcs.Utf16OrderIsNotCodePointOrder` | sdks/go/audit/jcs.go:116-128 | it differs from code-point order, U+10000 coming before U+FFFF |
| `Jcs.SortPermutes` | sdks/go/audit/jcs.go:91-95 | sorting an object's members loses and adds none |
| `Jcs.SortAscends` | sdks/go/audit/jcs.go:91-95 | the sorted keys strictly ascend when they are distinct |
| `Jcs.SortIsCanonical` | sdks/go/audit/jcs.go:91-95 | two collections of members sort to one sequence if and only if they have the same members, so the order a map is walked in does not show |
| `JcsText.QuotedReads` | sdks/go/audit/jcs.go:134-165 | a quoted string reads back as the string, every escape included |
| `JcsForm.EscapeIsShortest` | sdks/go/audit/jcs.go:136-163 | of all texts that stand for a character the one written is the shortest, with hexadecimal digits in lower case |
| `JcsForm.LayoutByStandard` | sdks/go/audit/jcs.go:222-243 | the text of digits and exponent, character by character, in the cases of section 7.1.12.1 of ECMA-262, with their bounds 21 and -6 |
| `JcsForm.ParseInt64Iff` | sdks/go/audit/jcs.go:177-179 | a literal is an int64 exactly when it is an optional sign and digits whose value lies between -2^63 and 2^63 - 1 |
| `JcsForm.LessByCharacter` | sdks/go/audit/jcs.go:119-128 | a key comes first when it is a proper beginning of the other or has the earlier character where they differ, characters beyond U+FFFF standing before U+E000 |
| `JcsText.CanonWritesMeaning` | sdks/go/audit/jcs.go:51-114 | the canonical text is the writing of the value's meaning and fails exactly when a number has none |
| `JcsReader.ValueReads` | sdks/go/audit/jcs.go:51-114 | a reader for the canonical grammar inverts the writer on every value, whatever follows |
| `JcsReader.CanonicalReads` | sdks/go/audit/jcs.go:51-114 | a canonical document reads as the value it was written from, with nothing left over |
| `JcsReader.OneFormPerValue` | sdks/go/audit/jcs.go:26-48 | two values have one canonical form if and only if they are the same JSON value up to member order and spelling of numbers |
| `JcsRereading.Int64Text` | sdks/go/audit/jcs.go:170-179 | a canonical number is read back as an int64 integer if and only if it is one, and then as that one |
| `JcsRereading.RereadStaysIff` | sdks/go/audit/jcs.go:34-48 | canonicalizing a canonical document again leaves it as it is if and only if each of its numbers is an int64 integer or the shortest decimal of its own double |
| `JcsRereading.OnlyUnsignedMove` | sdks/go/audit/jcs.go:71-77 | if parsing undoes shortest formatting, the numbers that change are the unsigned integers beyond int64 that are not the shortest decimal of their double |
| `JcsRereading.LargestUnsignedMoves` | sdks/go/audit/jcs.go:75-77 | 2^64 - 1 is written as it stands and comes back as 18446744073709552000 |
| `JcsWriter.WriteJcsString` | sdks/go/audit/jcs.go:134-165 | the buffer grows by exactly the quoted string |
| `JcsWriter.WriteCanonical` | sdks/go/audit/jcs.go:51-114 | the recursive buffer writer appends exactly the canonical form, and reports failure exactly when there is none |
| `JcsWriter.WriteArray` | sdks/go/audit/jcs.go:79-89 | the array loop appends its elements' forms separated by commas |
| `JcsWriter.WriteObject` | sdks/go/audit/jcs.go:90-109 | the object loop appends members in key order, separated by commas |
| `Distance.TranspositionCost` | modules/phish-catcher/src/url/distance.ts:29-31 | charging a transposition `cost` instead of 1 never changes the minimum |
| `Distance.NextRowAtLeast` | modules/phish-catcher/src/url/distance.ts:18-38 | two consecutive rows not below a bound keep the next one from going below, transpositions included |
| `Distance.RowsAtLeast` | modules/phish-catcher/src/url/distance.ts:33-35 | once a row's minimum exceeds the bound the final distance does: the early exit is sound |
| `Distance.FillRow` | modules/phish-catcher/src/url/distance.ts:19-34 | the inner loop fills one row of the table and returns its minimum |
| `Distance.DamerauLevenshtein` | modules/phish-catcher/src/url/distance.ts:6-41 | the bounded three-row routine returns the exact distance when it is within the bound and something above the bound otherwise |
| `Distance.Symmetric` | modules/phish-catcher/src/url/distance.ts:6-41 | the distance is symmetric |
| `Distance.ZeroIffEqual` | modules/phish-catcher/src/url/distance.ts:6-41 | the distance is zero on equal strings only |
| `Distance.LengthBound` | modules/phish-catcher/src/url/distance.ts:9-11 | it is at least the difference in length, so the first exit is sound |
| `Distance.ScriptsCostAtLeast` | modules/phish-catcher/src/url/distance.ts:1-6 | no sequence of edits and adjacent swaps that does not edit a place twice is cheaper than the distance |
| `Distance.CheapestScript` | modules/phish-catcher/src/url/distance.ts:1-6 | some such sequence costs exactly the distance |
| `Routing.MatchesMoreWhenMoreSevere` | services/alert/src/routing.ts:16-43 | a more severe incident matches no fewer policies; an empty label map matches nothing, an empty category list everything |
| `Routing.RefusesIff` | services/alert/src/routing.ts:16-43 | a policy refuses an incident for one of six reasons and no other, each stated on the fields, with severities and criticalities compared by their place in the list |
| `Routing.PolicyMatches` | services/alert/src/routing.ts:16-43 | the checks with early returns decide that |
| `Routing.OrderedAscends` | services/alert/src/routing.ts:106-108 | policies are evaluated by priority, then creation time |
| `Routing.OrderedPermutes` | services/alert/src/routing.ts:106-108 | sorting drops and adds no policy |
| `Routing.RouteIncident` | services/alert/src/routing.ts:98-123 | the loop with its set of satisfied channels yields the recursive decision |
| `Routing.PerChannel` | services/alert/src/routing.ts:98-123 | each channel gets exactly the targets of the first matching policy that has any for it |
| `Routing.MatchedWon` | services/alert/src/routing.ts:109-114 | the policies named are exactly those that won some channel |
| `RoutingDecision.OrderedArranges` | services/alert/src/routing.ts:104-108 | the sort is stable: priority, then creation, then place in the list |
| `RoutingDecision.RouteDecides` | services/alert/src/routing.ts:98-123 | the whole decision: it names exactly the policies that win a channel, in that order; each contributes its targets on the channels it wins; the escalation chain is the first that one of them names |
| `Routing.OrderIndependent` | services/alert/src/routing.ts:104-108 | listing order does not matter when priority and creation time are distinct |
| `Routing.TiesDependOnOrder` | services/alert/src/routing.ts:104-108 | of two tied policies the listing order decides what a channel gets exactly when both match and have different targets on it |
| `Routing.EgressEntryFor` | services/alert/src/routing.ts:139-160 | the lookup finds the first admitting entry, and finds one exactly when the target is allowed |
| `Routing.EgressAllowsIff` | services/alert/src/routing.ts:139-149 | a target is approved exactly if an entry of its channel has the pattern "*", the destination, its host, or its host up to the first colon |
| `Routing.ApplyEgressPolicy` | services/alert/src/routing.ts:163-171 | the loop splits the targets by the egress policy |
| `Routing.SplitPartitions` | services/alert/src/routing.ts:163-171 | no target is lost or added, exactly the allowed ones are kept, and none without a policy |
| `Routing.BootstrapRoutes` | services/alert/src/routing.ts:191-234 | out of the box the SIEM hears from medium up, Slack of high and critical, and only critical brings the escalating policy |
| `Escalate.ScanKeeps` | services/alert/src/escalate.ts:24-70 | one scan keeps the order of firings: steps 1, 2, and so on after their waits, then repeats at least the interval apart, then exhaustion |
| `Escalate.ChainFiresInOrder` | services/alert/src/escalate.ts:24-125 | on every run and for any times firings come in that order, number at most steps plus repeats, and exhaustion comes at most once, last, and only when all are used up |
| `Escalate.QuietOnceHandled` | services/alert/src/escalate.ts:4-8 | after an acknowledgement or resolution nothing fires |
| `Escalate.FiresExactlyWhenDue` | services/alert/src/escalate.ts:24-125 | after any run of an unhandled chain a scan fires exactly from the next step's wait on that step, then repeats from the interval and the scheduled time on, then the exhaustion, and nothing once that is reported |
| `Escalate.RepeatWaitsForUnusedStep` | services/alert/src/escalate.ts:108-112 | a repeat can be late: if the number after the last listed step's is also a step's, the repeat waits for the wait of that step |
| `Escalate.LateScanProgresses` | services/alert/src/escalate.ts:86-125 | with a positive repeat interval a late enough scan always makes progress, by a decreasing measure, and leaves the chain scheduled or exhausted |
| `Escalate.LateScansExhaust` | services/alert/src/escalate.ts:86-125 | late enough scans exhaust the chain within steps plus repeats plus one |
| `Escalate.ExhaustsIffRepeats` | services/alert/src/escalate.ts:105-121 | a chain can report exhaustion exactly when it has a step 1 and a positive repeat interval; with 0 it stops unreported |
| `Escalate.ParkedForGood` | services/alert/src/escalate.ts:94-99 | a chain whose policy is not found is parked at its first due scan and stays silent |
| `Escalate.StepZeroNeverFires` | services/alert/src/routing.ts:237-260 | the immediate step 0 of the default chain never fires; the first notice comes after 900 seconds |
| `Escalate.AckBetweenReadAndWriteIsLost` | services/alert/src/escalate.ts:87-118 | an acknowledgement or resolution between the loop's read and write stands if and only if the turn fires nothing; otherwise the incident comes up again exactly when there is a further step or a repeat interval |
| `Escalate.OverlappingScansFireTwice` | services/alert/src/escalate.ts:138-142 | two overlapping scans keep the order of firings if and only if the earlier one fires nothing; otherwise both fire the same step, or both the exhaustion, and one is counted |
| `AlertAuthz.VerifiedIff` | services/alert/src/authz/enforce.ts:112-225 | no token is needed exactly if the module is neither the DDoS engine nor the AI red team and it is no confirmed vulnerability or exposure; verified, held and rejected each with exactly its condition, on the fields of event, token and check |
| `AlertAuthz.CoversIff` | services/alert/src/authz/enforce.ts:59-73 | which capability prefixes speak for which module; Commander's orders need none |
| `AlertAuthz.RejectionCodes` | services/alert/src/authz/enforce.ts:112-225 | the code of a rejection is that of the first condition that fails |
| `Dedup.NeverSilencedPastTheCap` | services/alert/src/db/memory.ts:129-157 | whatever windows are asked for, a suppressed occurrence lies less than seven days after the new one of its window, and renotifications fall on the multiples |
| `Dedup.NewIffWindowOver` | services/alert/src/db/memory.ts:129-157 | an occurrence is new exactly when it is the first, or comes after the window asked for by the one before, or seven days after the one that opened the window |
| `Dedup.WindowAsked` | services/alert/src/dedup.ts:36-39 | the window an event gets: what it asks for if that is positive, otherwise a day, and never more than seven days |
| `Dedup.CheckIsSighting` | services/alert/src/dedup.ts:34-48 | a check is one sighting of the event's fingerprint; during an outage nothing is recorded and the event counts as new |
| `Dedup.FingerprintsTellApart` | services/alert/src/dedup.ts:19-24 | where organizations and assets have no bar in their names, fingerprints are equal exactly for the same finding of one module in one organization |
| `Dedup.CollidesIffBar` | services/alert/src/dedup.ts:19-24 | an event can share its fingerprint with one on another asset exactly when its hint has a bar, or its asset one before the last character |
| `Dedup.FingerprintsCollide` | services/alert/src/dedup.ts:26-47 | then the later of the two is suppressed, unless it comes after the earlier one's window or asks to be renotified at the second sighting |
| `Herald.FindOpen` | services/alert/src/db/memory.ts:159-170 | the first unresolved incident of an organization and key, or none if there is none |
| `Pipeline.HeraldPipeline.InsertAlertRow` | services/alert/src/pipeline.ts:195-216 | a row is inserted exactly when its event id is new |
| `Pipeline.HeraldPipeline.CreateDeliveriesFor` | services/alert/src/pipeline.ts:356-388 | one delivery per target, in order, naming the incident's alerts of that moment |
| `Pipeline.HeraldPipeline.CorrelateAlert` | services/alert/src/correlate.ts:24-62 | the alert joins the first unresolved incident with its key, or a new one |
| `Pipeline.HeraldPipeline.RouteAndQueueIncident` | services/alert/src/pipeline.ts:315-353 | deliveries for the filtered decision, then a chain for an incident that needs and lacks one |
| `Pipeline.HeraldPipeline.ProcessStoredAlert` | services/alert/src/pipeline.ts:219-262 | dedup, correlate, route: the row-by-row updates leave the state of the step function |
| `Pipeline.HeraldPipeline.DueAuthzRetries` | services/alert/src/db/memory.ts:119-127 | the rows on hold whose retry time has come, all of them and each once |
| `Pipeline.HeraldPipeline.IngestEvent` | services/alert/src/pipeline.ts:129-192 | the whole ingest, all rejections and holds included, leaves the state of the step function |
| `Pipeline.HeraldPipeline.RunDueAuthzRetries` | services/alert/src/pipeline.ts:267-296 | the retry loop takes the listed rows in turn, whatever order they are listed in |
| `Pipeline.HeraldPipeline.Quarantine` | services/alert/src/pipeline.ts:298-310 | a quarantined row is refused, suppressed, and has lost its token and retry time |
| `Pipeline.HeraldPipeline.RunDueEscalations` | services/alert/src/escalate.ts:86-125 | the escalation loop gives each due incident its turn, firing first and writing after |
| `Pipeline.HeraldPipeline.NotifyOrder` | services/alert/src/pipeline.ts:462-562 | one-shot orders, with and without override, leave the state of the step function |
| `Pipeline.HeraldPipeline.AckIncidentBy` | services/alert/src/db/memory.ts:210-225 | an acknowledgement uses up its nonce exactly when it takes effect |
| `HeraldEffects.SplitPicks` | services/alert/src/routing.ts:163-171 | what passes the egress policy are the approved targets at rising positions, all of them |
| `HeraldEffects.RouteBrings` | services/alert/src/pipeline.ts:315-388 | routing makes one delivery for each routed and approved target, with the incident, organization, alerts, channel, destination, template and urgency stated on the fields, returns their number, and attaches a fresh chain exactly when one is needed, lacking and known |
| `HeraldEffects.CorrelateBrings` | services/alert/src/correlate.ts:14-62 | the alert joins the first incident of its organization, asset and finding that is not resolved, raising severity and need of an acknowledgement; otherwise a new one with exactly its fields |
| `HeraldEffects.EffectiveIs` | services/alert/src/enrich.ts:155-165 | a confirmed vulnerability or exposure of a critical asset is at least high; everything else keeps its severity |
| `HeraldEffects.ProcessBrings` | services/alert/src/pipeline.ts:219-262 | an answer `Processed(i, n)` or `Renotified(i, n)` comes exactly with an alert joined to incident i and n deliveries made; a duplicate is suppressed and nobody hears of it |
| `HeraldEffects.IngestBrings` | services/alert/src/pipeline.ts:129-192 | each answer of the ingest with exactly its condition, and the whole state it leaves |
| `HeraldEffects.RetryBrings` | services/alert/src/pipeline.ts:267-310 | an accepted held alert is processed as any other; a rejected or overdue one is refused; otherwise it waits one more interval |
| `HeraldEffects.StepBrings` | services/alert/src/pipeline.ts:391-411 | a fired step makes one delivery for each of its approved targets, in the escalation template, of critical urgency for critical incidents and high otherwise |
| `HeraldEffects.ExhaustionBrings` | services/alert/src/pipeline.ts:413-432 | an exhausted chain makes one delivery, to the SIEM webhook, exactly if one is configured |
| `HeraldEffects.DueAre` | services/alert/src/db/memory.ts:245-254 | a pass visits, once and in order, exactly the incidents that need an acknowledgement, are open or escalated, and whose time has come |
| `HeraldEffects.EscalationBrings` | services/alert/src/escalate.ts:86-125 | a turn of the loop fires and writes what its chain calls for, and parks an incident whose chain is not stored |
| `HeraldEffects.OverridesSpelled` | services/alert/src/pipeline.ts:543-548 | the override targets are those whose text is a channel name, a colon and a destination, in order |
| `HeraldEffects.OverrideBrings` | services/alert/src/pipeline.ts:542-561 | an override order joins its alert and makes one delivery for each override target that the egress policy approves |
| `HeraldEffects.OrderBrings` | services/alert/src/pipeline.ts:462-562 | each answer to an order with exactly its condition, and the event it is turned into |
| `HeraldEffects.HandlingBrings` | services/alert/src/db/memory.ts:210-230 | an acknowledgement takes effect exactly with a fresh nonce on an open or escalated incident; a resolution always stands |
| `HeraldSettings.SettingsInForce` | services/alert/src/pipeline.ts:606-623 | after every run egress entries, policies and chains are the last ones put for the organization, with seed entries, bootstrap policies and the compiled-in chain exactly where none apply |
| `HeraldRuns.CorrelateKeeps` | services/alert/src/correlate.ts:24-62 | correlation keeps one incident per alert, one unresolved incident per key, and every earlier membership |
| `HeraldRuns.ProcessKeeps` | services/alert/src/pipeline.ts:219-262 | processing a pending alert settles it and touches no other alert |
| `HeraldRuns.IngestKeeps` | services/alert/src/pipeline.ts:129-192 | an ingest keeps the invariant, changes no other row, and nothing at all if the event is known |
| `HeraldRuns.RetryKeeps` | services/alert/src/pipeline.ts:267-296 | a retry keeps the invariant and leaves a row held only within its hold window |
| `HeraldGuarantees.EscalationTurnsKeep` | services/alert/src/escalate.ts:86-125 | the escalation loop keeps the invariant and makes approved deliveries only |
| `HeraldChains.LoopScansEveryIncident` | services/alert/src/escalate.ts:86-125 | one pass gives every incident exactly one turn of its own chain |
| `HeraldChains.StoreChainsFireInOrder` | services/alert/src/escalate.ts:24-125 | on every run of the pipeline, whatever comes in between, an attached chain fires its steps in order, then its repeats, then at most one exhaustion, as long as it is not replaced |
| `HeraldChains.HandledStaysQuiet` | services/alert/src/escalate.ts:4-8 | on every run, once an incident is acknowledged or resolved it stays so and nothing fires for it |
| `HeraldGuarantees.NotifyKeeps` | services/alert/src/pipeline.ts:462-562 | orders keep the invariant, override or not |
| `HeraldGuarantees.StepKeeps` | services/alert/src/pipeline.ts:129-562 | every step keeps the invariant, settles rows for good and makes only deliveries approved at that moment |
| `HeraldGuarantees.AuthorizedOnly` | services/alert/src/pipeline.ts:129-310 | on every run each alert in an incident or delivery is verified, or comes from neither the DDoS engine nor the AI red team and is no confirmed vulnerability or exposure |
| `HeraldGuarantees.ClearedByVerdict` | services/alert/src/pipeline.ts:143-192 | an alert turns verified only in a step whose check of its event against its token came out verified |
| `HeraldGuarantees.JoinsAtMostOnce` | services/alert/src/correlate.ts:24-62 | on every run an event joins at most one incident, once |
| `HeraldGuarantees.OneUnresolvedPerKey` | services/alert/src/correlate.ts:1-8 | on every run an organization has at most one unresolved incident per correlation key |
| `HeraldGuarantees.AccountedFor` | services/alert/src/pipeline.ts:129-310 | nothing is lost: each ingested alert is in exactly one of four places, and a held one retries before hold window plus retry interval |
| `HeraldGuarantees.SettledForGood` | services/alert/src/pipeline.ts:219-310 | a row no longer held never changes again, and incidents only gain alerts |
| `HeraldGuarantees.EveryDeliveryApproved` | services/alert/src/pipeline.ts:315-432 | on every run each delivery was let through by the egress policy in force when it was made, but for the exhausted fail-safe |
| `HeraldGuarantees.FullScanEndsHolds` | services/alert/src/pipeline.ts:267-288 | after a scan given every due row no alert is held past its hold window and one retry interval |
| `HeraldGuarantees.RedeliveryChangesNothing` | services/alert/src/pipeline.ts:129-216 | delivering a known event again changes nothing |
| `HeraldOverlaps.StrandedBetweenWrites` | services/alert/src/pipeline.ts:163-173 | a stop between inserting a held row and setting its retry time leaves it never due, and redelivery does not help |
| `HeraldOverlaps.OverlappingRetries` | services/alert/src/main.ts:134-139 | of two retry turns that read a held row before either writes, the second leaves a sound row if and only if the first kept the alert on hold or both come to the same |
| `HeraldOverlaps.OverlappingRetriesSuppress` | services/alert/src/pipeline.ts:267-296 | two turns that verify the alert leave it suppressed in an incident exactly when, by its count and renotification interval, one of its next two sightings is suppressed and the other is not |
| `HeraldOverlaps.RunSeen` | services/alert/src/db/memory.ts:129-157 | on every run no deduplication window outlasts the hard maximum |
| `HeraldOverlaps.OverlappingCorrelationSplits` | services/alert/src/correlate.ts:31-61 | two events that look before either joins come to the same as one after the other, and keep one unresolved incident per key, if and only if they are not one finding without an incident yet |
| `HeraldOverlaps.ResolvedBetween` | services/alert/src/correlate.ts:31-37 | an incident resolved between the look and the join is joined all the same |
| `HeraldOverlaps.HeldOrderIsLost` | services/alert/src/pipeline.ts:529-532 | an override order answered "held" is stored nowhere |
| `HeraldOverlaps.RepeatedOrderIsDuplicate` | services/alert/src/dedup.ts:36-39 | a window of 0 means 24 hours: a repeated order id is suppressed exactly within a day of the first |
| `HeraldOverlaps.DifferentOrdersApart` | services/alert/src/dedup.ts:19-24 | orders with different ids do not suppress each other where organizations and assets have no bar in their names |
| `HeraldOverlaps.BootstrapChainIsParked` | services/alert/src/escalate.ts:95-99 | the bootstrap chain that routing attaches is not found by the loop and parked |
| `Buckets.ServePays` | sdks/ts/src/ratecap.ts:33-54 | what one request is granted is paid by tokens at hand and time passed |
| `Buckets.WindowBound` | sdks/ts/src/ratecap.ts:33-71 | in every window of every run grants are at most capacity plus rate times window, for requests that each bring their own |
| `Buckets.GrantedIffEveryWindowAllows` | sdks/ts/src/ratecap.ts:33-54 | a request is granted if and only if, in every window that ends with it, it and what was granted before come to no more than capacity plus refill: the bucket refuses nothing it need not |
| `Buckets.CapacityHoldsIfTimePassed` | modules/phish-catcher/src/hub/scan-gate.ts:79-86 | a capacity is applied exactly when time has passed since the last refill |
| `RateCap.TokenBucketRateLimiter.TryAcquire` | sdks/ts/src/ratecap.ts:43-54 | the object's refill and spend are those of the bucket |
| `RateCap.TokenBucketRateLimiter.AcquireTurn` | sdks/ts/src/ratecap.ts:57-71 | one turn of waiting: a permit, an abort, or the time until the next try |
| `RateCap.PermitsInWindow` | sdks/ts/src/ratecap.ts:18-71 | permits in any window are at most one second's burst plus the rate times its length |
| `RateCap.PermitEverIffCapAtLeastOne` | sdks/ts/src/ratecap.ts:18-54 | a permit can ever be had exactly when the cap is at least 1 per second |
| `RateCap.ConcurrencyLimiter.AcquireSlot` | sdks/ts/src/ratecap.ts:97-114 | a free slot is taken at once, otherwise the caller queues last |
| `RateCap.ConcurrencyLimiter.Release` | sdks/ts/src/ratecap.ts:106-123 | a waiter takes the slot over without the count going down, and counts it again; each call of a closure does the same |
| `RateCap.OnceEachBounds` | sdks/ts/src/ratecap.ts:77-123 | on every run that calls each release closure at most once, slots held stay within the maximum, and the count is slots held plus hand-offs |
| `RateCap.RepeatsBound` | sdks/ts/src/ratecap.ts:88-123 | with closures called again, slots held exceed the maximum by no more than the repeated calls |
| `RateCap.DoubleReleaseOverAdmits` | sdks/ts/src/ratecap.ts:88-123 | two slots and one closure called twice: three hold a slot |
| `RateCap.GrantedIff` | sdks/ts/src/ratecap.ts:91-123 | with closures called at most once, a free request is granted if and only if slots held and hand-offs together stay below the maximum |
| `RateCap.DeadForever` | sdks/ts/src/ratecap.ts:106-123 | once hand-offs have used up the maximum no slot is ever granted again, unless a closure is called a second time |
| `RateCap.DeadAfterOneHandoff` | sdks/ts/src/ratecap.ts:106-123 | one hand-off kills a limiter of one slot |
| `RateCap.FirstInFirstOut` | sdks/ts/src/ratecap.ts:97-123 | whoever does not give up is granted before anyone not ahead of it |
| `RateCap.StepMoves` | sdks/ts/src/ratecap.ts:88-123 | exactly who waits and who holds a slot after each step |
| `RateCap.GivenUpForGood` | sdks/ts/src/ratecap.ts:97-123 | who gives up waiting is never handed a slot, unless it asks again |
| `ScanGate.EffectiveCap` | modules/phish-catcher/src/hub/scan-gate.ts:59-70 | the smallest of the applicable caps and the ceiling |
| `ScanGate.ScanRequestGate.Consume` | modules/phish-catcher/src/hub/scan-gate.ts:72-87 | the bucket arithmetic in minutes is that of the bucket in milliseconds |
| `ScanGate.ScanRequestGate.Evaluate` | modules/phish-catcher/src/hub/scan-gate.ts:90-125 | each outcome with exactly its condition, and the bucket touched only by the last check |
| `ScanGate.ScopeAlone` | modules/phish-catcher/src/hub/scan-gate.ts:72-87 | scopes do not share tokens |
| `ScanGate.ScansInWindow` | modules/phish-catcher/src/hub/scan-gate.ts:59-125 | in any window at most 5000 plus 5000 a minute pass for a scope, whatever mix of caps arrives |
| `ScanGate.PassesIffEveryWindowAllows` | modules/phish-catcher/src/hub/scan-gate.ts:72-125 | while a scope's cap stays the same a request passes if and only if no window of the scope's run that ends with it would come to more than the cap plus the cap for each minute |
| `ScanGate.TighterCapIgnored` | modules/phish-catcher/src/hub/scan-gate.ts:79-86 | within a millisecond a tighter cap does not apply |
| `DispatchLimit.TokenBucket.TryTake` | services/alert/src/dispatch/ratelimit.ts:26-45 | refill, pause check and spend, as the bucket with pauses has it |
| `DispatchLimit.TokenBucket.PauseFor` | services/alert/src/dispatch/ratelimit.ts:47-49 | a pause runs to the later of its own end and the one in force |
| `DispatchLimit.TokenBucket.PausedRemainingMs` | services/alert/src/dispatch/ratelimit.ts:51-53 | what is left of a pause, never negative |
| `DispatchLimit.BucketRegistry.ForKey` | services/alert/src/dispatch/ratelimit.ts:56-73 | one bucket per key, made full on first use |
| `DispatchLimit.NothingWhilePaused` | services/alert/src/dispatch/ratelimit.ts:36-49 | nothing is sent before a pause is over, and later pauses never shorten it |
| `DispatchLimit.MessagesInWindow` | services/alert/src/dispatch/ratelimit.ts:9-53 | messages in any window are at most burst plus refill |
| `DispatchLimit.SentIsGranted` | services/alert/src/dispatch/ratelimit.ts:26-45 | over every run, pauses included, the messages let through are exactly what the bucket grants when it is asked for one token while no pause is on, and for none otherwise |
| `DispatchLimit.SentIffUnpausedAndAllowed` | services/alert/src/dispatch/ratelimit.ts:9-53 | after any run of a fresh limiter a message is let through if and only if every pause so far is over and no window that ends with it would come to more than burst plus refill |
| `Bloom.WithBitBits` | modules/phish-catcher/src/intel/bloom.ts:55-60 | setting one bit of a byte sets that bit and no other |
| `Bloom.BloomFilter.Add` | modules/phish-catcher/src/intel/bloom.ts:55-60 | the positions' bits are set in the array, those outside it ignored |
| `Bloom.BloomFilter.Has` | modules/phish-catcher/src/intel/bloom.ts:62-68 | the answer is whether all positions' bits are set |
| `Bloom.PositionsStride` | modules/phish-catcher/src/intel/bloom.ts:45-53 | the positions of an entry are those of its low half plus multiples of its high half, or of 0x9e3779b9 if that is zero, modulo the number of bits |
| `Bloom.FilterIsPositionSet` | modules/phish-catcher/src/intel/bloom.ts:45-68 | up to 2^31 bits an entry is reported just when each of its positions is one of an added entry |
| `Bloom.NoFalseNegatives` | modules/phish-catcher/src/intel/bloom.ts:55-68 | an added entry is reported present, whatever is added before and after |
| `Bloom.AddedIsFoundIff` | modules/phish-catcher/src/intel/bloom.ts:55-68 | for any size an entry is found after being added exactly when there are bits and none of its positions reaches 2^31 |
| `Bloom.WireRoundTrip` | modules/phish-catcher/src/intel/bloom.ts:71-95 | a filter survives its wire form exactly when it has fewer than 2^32 bits, 1 to 64 hashes and the bytes its bits need |
| `Bloom.WireLayout` | modules/phish-catcher/src/intel/bloom.ts:71-81 | the wire form byte by byte: magic, bits in little-endian order, hashes, three zero bytes, the array |
| `Bloom.WireRewrites` | modules/phish-catcher/src/intel/bloom.ts:83-95 | what is read writes back unchanged exactly when flags and reserved bytes are zero |
| `ExactHash.HexOrderIsByteOrder` | modules/phish-catcher/src/intel/bloom.ts:110 | sorting lower-case hexadecimal text sorts the bytes |
| `ExactHash.FromHexList` | modules/phish-catcher/src/intel/bloom.ts:109-117 | bad text is refused; otherwise the table is sorted and holds exactly the listed digests |
| `ExactHash.ExactHashTable.CompareAt` | modules/phish-catcher/src/intel/bloom.ts:138-142 | the sign of the byte comparison is the lexicographic order |
| `ExactHash.ExactHashTable.HasDigest` | modules/phish-catcher/src/intel/bloom.ts:132-148 | the loop is the search by bisection, which never finds what is not there, and on a sorted table finds all that is |
| `ExactHash.FindsAllIffSorted` | modules/phish-catcher/src/intel/bloom.ts:120-148 | of a table without repetitions, in whatever order it came, bisection finds every entry if and only if the table is sorted |
| `BundleVersion.CompareBundleVersions` | modules/phish-catcher/src/intel/bundle.ts:65-74 | the loop over four parts is the comparison of versions |
| `BundleVersion.ParseIff` | modules/phish-catcher/src/intel/bundle.ts:55-62 | a text is a version exactly if it is four digits, a dot, two, a dot, two, a hyphen and at least one more, and then of these numbers |
| `BundleVersion.NewerByParts` | modules/phish-catcher/src/intel/bundle.ts:65-74 | newer means greater in the first part that differs |
| `BundleVersion.ComparisonIsTotalOrder` | modules/phish-catcher/src/intel/bundle.ts:65-74 | a total order in which equal means the same version |
| `IntelStore.VerifyAgainstPins` | modules/phish-catcher/src/intel/verify.ts:77-93 | the first pin that verifies the text, or none |
| `IntelStore.IntelStoreObject.ApplyBundleDoc` | modules/phish-catcher/src/intel/store.ts:73-102 | state, pins and result are those of the verified application, which `IntelEffects` states on the document |
| `IntelStore.IntelStoreObject.ApplyPolicyDoc` | modules/phish-catcher/src/intel/store.ts:141-157 | policy and result are those of the verified application |
| `IntelEffects.BundleAppliedIff` | modules/phish-catcher/src/intel/store.ts:73-138 | a bundle is applied if and only if it is well formed, signed by a pin, newer, its next key if any signed by that pin, and readable; then exactly its version, payloads and freshness are installed, and its next key is adopted exactly if it is not pinned yet |
| `IntelEffects.BundleRefusedFor` | modules/phish-catcher/src/intel/verify.ts:95-131 | each reason of refusal with exactly its condition, and which of them are integrity failures |
| `IntelEffects.RotationTakes` | modules/phish-catcher/src/intel/store.ts:93-98 | after a bundle with a next key a newer bundle signed by that key alone is applied |
| `IntelEffects.PolicyAppliedIff` | modules/phish-catcher/src/intel/verify.ts:141-162 | a policy is applied if and only if it is well formed, signed by a pin, newer and not expired; each refusal with exactly its condition |
| `IntelStore.PolicyInForceAlongRun` | modules/phish-catcher/src/intel/store.ts:159-165 | after every run the policy in force is an unexpired one of the highest version applied, and it is the last unexpired one if and only if the newest has not expired or none is left |
| `IntelStore.NewerPolicyExpiresFirst` | modules/phish-catcher/src/intel/store.ts:159-165 | a newer policy that expires first leaves the defaults, though the older one would still be valid |
| `IntelStore.IntelStoreObject.Degraded` | modules/phish-catcher/src/intel/store.ts:168-170 | no bundle, or one that was stale when applied |
| `IntelStore.RejectionChangesNothing` | modules/phish-catcher/src/intel/store.ts:80-93 | a rejected document changes nothing |
| `IntelStore.VersionsIncrease` | modules/phish-catcher/src/intel/store.ts:73-102 | along every run the installed bundle versions strictly increase |
| `IntelStore.PolicyVersionsIncrease` | modules/phish-catcher/src/intel/store.ts:141-157 | so do the policy versions |
| `IntelStore.PinsAreLinked` | modules/phish-catcher/src/intel/verify.ts:107-131 | every pin is original or ends a line of keys from an original one, each handed on in a bundle the key before signed twice; pins are never dropped |
| `IntelStore.GrownPins` | modules/phish-catcher/src/intel/verify.ts:95-131 | pins adopted while a bundle is verified change the outcome exactly if it failed for its signature and a new pin verifies it |
| `IntelStore.OverlapSafeIff` | modules/phish-catcher/src/intel/store.ts:73-102 | writing what was verified against an earlier state equals applying the bundle now, in effect and answer, if and only if it is newer than what is installed now, whatever pins were adopted in between |
| `IntelStore.OverlapsIncreaseIff` | modules/phish-catcher/src/intel/store.ts:73-102 | for every interleaving of applications the installed versions increase if and only if no bundle is written after one not older that was written since it began |
| `IntelStore.OverlapRollsBack` | modules/phish-catcher/src/intel/store.ts:73-102 | two overlapping applications can leave the older bundle installed, which a serial one refuses |
| `IntelStore.StalenessIsNotRechecked` | modules/phish-catcher/src/intel/store.ts:168-170 | a store that was fresh when applied never counts as degraded later |
| `IntelStore.ConfirmEntry` | modules/phish-catcher/src/intel/store.ts:182-187 | filter first, table second; of a bundle built from a list the answer is whether the entry is listed |
| `IntelStore.ConfirmedIffListed` | modules/phish-catcher/src/intel/store.ts:182-187 | an entry is confirmed exactly when it is on the list the bundle's filter and sorted table were built from, if its digest collides with none of the list |
| `Radix.Base32Order` | sdks/ts/src/ulid.ts:6 | digit strings of one length are ordered as their numbers |
| `Radix.CrockfordAlphabet` | sdks/ts/src/ulid.ts:6 | the digits are Crockford's: 0 to 9 and the letters without I, L, O and U |
| `Radix.Base32Joins` | sdks/ts/src/ulid.ts:67 | digits of two parts one behind the other are the digits of the whole |
| `Ulid.EncodeTime` | sdks/ts/src/ulid.ts:17-24 | the loop writes the last digits of the number |
| `Ulid.EncodeRandom` | sdks/ts/src/ulid.ts:26-43 | although the buffer wraps at 32 bits the text is the base-32 digits of all bytes as one number |
| `Ulid.IncrementRandom` | sdks/ts/src/ulid.ts:46-58 | the bytes go up by one as a number, or fresh ones are drawn when all bits are ones |
| `Ulid.Generator.Next` | sdks/ts/src/ulid.ts:60-68 | time and random part after each call, and the text returned |
| `Ulid.TextOrder` | sdks/ts/src/ulid.ts:60-68 | identifiers sort by time, then by randomness |
| `Ulid.Increasing` | sdks/ts/src/ulid.ts:60-68 | with a clock that does not go back, below 2^50 ms, and no wrap, identifiers strictly increase |
| `Ulid.WrapNeverIncreases` | sdks/ts/src/ulid.ts:56-57 | after a wrap within a millisecond the next identifier is not greater |
| `Ids.EncodeBase32` | adapters/internal/ids/ids.go:39-57 | the two-byte windows yield the 26 digits of four times the 128-bit number |
| `Ids.EncodingOrder` | adapters/internal/ids/ids.go:39-57 | the encoding is injective and keeps order |
| `Ids.NotTheUlidLayout` | adapters/internal/ids/ids.go:38-41 | it is not the right-aligned layout of a ULID, save for zero |
| `Ids.NewULID` | adapters/internal/ids/ids.go:23-37 | prefix and encoding of time and entropy |
| `Ids.NewULIDOrder` | adapters/internal/ids/ids.go:23-37 | identifiers of one prefix sort by millisecond up to 2^48, then entropy |
| `Audit.AuditEmitter.EmitEvent` | sdks/ts/src/audit.ts:103-114 | number taken before the sink is called, hash moved on only after it has taken the event |
| `Audit.SerialRunsChain` | services/alert/src/buswire.ts:71-97 | serialized emissions deliver one chain with rising numbers whose gaps are the sink's failures |
| `Audit.DeliveredAreTaken` | sdks/ts/src/audit.ts:103-114 | the events delivered are, one for one and in order, those of the emissions that the sink took, with content and number |
| `Audit.SameHeadSameHistory` | sdks/ts/src/jcs.ts:38-45 | chains with one last hash are one history, or two texts with one digest are exhibited |
| `Audit.OverlapForks` | sdks/ts/src/audit.ts:109-114 | two overlapping emissions name one predecessor; what is delivered is a chain if and only if the sink took at most one, or both in order and the first hash is that predecessor |
| `Audit.FirstEventsFork` | sdks/ts/src/audit.ts:109-114 | two overlapping first emissions that are both taken always fork |
| `ScopeMatch.MaskedSameNetwork` | sdks/go/scope/scope.go:112 | masking a prefix changes nothing about what it contains |
| `ScopeMatch.MatchEntry` | sdks/go/scope/scope.go:97-137 | match and specificity of each form of entry |
| `ScopeMatch.EntryMatchesIff` | sdks/go/scope/scope.go:97-137 | exactly what each form of entry matches, on host, address and prefix of the target: a name the host of that name for every kind of target, an address that address, a wildcard the hosts that are something, a dot and its suffix, a block what has its leading bits |
| `ScopeMatch.KindIsIrrelevant` | sdks/go/scope/scope.go:97-137 | names, wildcards and single addresses look at neither the kind nor the prefix of a target |
| `ScopeMatch.Ranking` | sdks/go/scope/scope.go:89-137 | the specificity of each form, and which of two matching entries ranks higher |
| `ScopeMatch.Evaluate` | sdks/go/scope/scope.go:42-87 | allowed exactly when no exclusion and some include matches; the rule reported is the first of the most specific matches |
| `ScopeMatch.ExcludedByNameIsDenied` | sdks/go/scope/scope.go:42-87 | what is excluded by its host name or address is never allowed, in whatever form the target comes |
| `ScopeMatch.IncludedByNameIsAllowed` | sdks/go/scope/scope.go:42-87 | what is included by its host name or address is allowed exactly if no exclusion matches |
| `ScopeMatch.VerdictMonotone` | sdks/go/scope/scope.go:42-87 | more includes or fewer exclusions never deny what was allowed |
| `ScopeMatch.VerdictOrderIndependent` | sdks/go/scope/scope.go:42-87 | the verdict does not depend on order or repetition of entries |
| `ScopeMatch.MoreSpecificIsNarrower` | sdks/go/scope/scope.go:89-137 | among address rules, and among host rules, the more specific of two that match a target matches a subset |
| `ScopeMatch.BlockTargetIffAllAddresses` | sdks/go/scope/scope.go:111-117 | a CIDR target matches a block exactly when all its addresses lie in it |
| `ScopeMatch.NarrowExclusionIsMissed` | sdks/go/scope/scope.go:111-117 | an exclusion narrower than a CIDR target does not match it, though it would match an address inside |
| `IpParse.ParseIpv4` | sdks/ts/src/scope.ts:39-49 | the number of the four octets, or none |
| `IpParse.OctetsIffDotted` | sdks/ts/src/scope.ts:39-49 | exactly one text is accepted per IPv4 address, its dotted form without leading zeros |
| `IpParse.ParseIpv6` | sdks/ts/src/scope.ts:52-111 | sixteen bytes that carry the eight groups spelled, two for each with the high one first, or none |
| `IpParse.CarriedByOne` | sdks/ts/src/scope.ts:104-110 | no other bytes carry the same groups |
| `IpParse.SpellingReads` | sdks/ts/src/scope.ts:52-111 | every spelling, with groups, a gap anywhere and a dotted tail, is read as what it spells (section 2.2 of RFC 4291) |
| `IpParse.ParsedIffSpelled` | sdks/ts/src/scope.ts:52-111 | the parser accepts exactly the spellings and returns what they spell |
| `IpText.ParsedIffAddress` | sdks/ts/src/scope.ts:52-111 | lower-case text is read if and only if it is an address of RFC 4291, section 2.2, by a grammar of its own: groups of one to four digits, a gap for the missing zeros, a dotted end; and the groups are the numerals written out |
| `IpText.ReadIffAddress` | sdks/ts/src/scope.ts:53-54 | beyond that, letters of either case and brackets round it are all that is read |
| `IpParse.EmptyGapAccepted` | sdks/ts/src/scope.ts:91-95 | it also accepts a gap that stands for no group |
| `Cidr.Ipv4InCidrIsPrefix` | sdks/ts/src/scope.ts:144-148 | the mask test is prefix equality for every prefix length |
| `Cidr.ZeroBitsNeedTheirCase` | sdks/ts/src/scope.ts:145 | without its special case, length 0 would admit one address only |
| `Cidr.Ipv6InCidr` | sdks/ts/src/scope.ts:150-163 | the byte loop with its masked byte is prefix equality for every prefix length |

## Left out

- PunycodeInverse.DecodeEncode: covers sequences of up to 1927 Unicode code points, far beyond the 63 of a DNS label; above that a delta can reach 2^31, where the decoder's shift turns negative and the encoder of RFC 3492 no longer agrees with it.
- PunycodeInverse.EncodeDecode: covers labels of up to 1927 characters, for the same reason.
- PunycodeInverse.AcceptsIff: covers labels whose basic part and digits come to 1927 characters at most, for the same reason.
- PunycodeHost.ShownOtherwiseIff: covers labels of up to 963 characters, for the same reason.
- Numbers of the source that are doubles are exact integers or reals here; results beyond 2^53, such as build numbers of bundles, are not modelled.
- Surrogates passed to `String.fromCodePoint`, and hosts as UTF-16 code units: texts are sequences of code points.
- Edit distance works on code units; here a string's characters stand for them, and only their equality matters.
- Invalid UTF-8 in JSON strings, which the Go writer replaces: strings are sequences of Unicode scalar values. UTF-8 encoding of the output. Depth limits and the decoding of raw JSON that is not canonical.
- `strconv.ParseFloat` and `FormatFloat`: the parsed double comes in as its shortest digits and exponent.
- A Go map is a sequence of members with distinct keys, in any order.
- URL parsing, `netip` parsing, case folding and trimming outside ASCII: inputs to `ScopeMatch` and `Routing`.
- Canonicalization of targets in Go and TypeScript, and the rule matching of `sdks/ts/src/scope.ts:181-351`, which repeats the exclusion-first scheme of the Go evaluator on other rule forms.
- FNV-1a, SHA-256, Ed25519, token and manifest verification: functions or verdicts given as inputs. Of a digest at most its length is assumed, and collisions are named in the conclusions or excluded for the entries at hand.
- `BloomFilter.create`, which sizes the filter with floating-point logarithms.
- Base64 and the other fields of a bundle (brands, confusables, lexicon, TLD risks), and the rest of its structural validation.
- The alert service's audit records, bus messages, metrics, idempotency keys, delivery attempts and HTTP surface; enrichment beyond criticality; custom channel names in overrides, which no egress entry can approve.
- Incident and delivery identifiers are taken to be fresh: they are positions in sequences.
- The store's own failures other than a deduplication outage; dispatch of deliveries.
- The guarantees of the alert service assume a positive hold window and a retry interval that is not negative, as configured.
- The window theorems of the limiters assume a clock that does not go back.
- Interleavings are split at the awaits named in the rows: between looking for an incident and joining it, between listing due rows and their turns, between reading the version, verifying and installing. Overlapping policy applications have the shape of overlapping bundles and are not modelled.
- Waiting and timers of the limiters: a turn of a waiting loop is one call.
- Postgres, NATS, gRPC, S3, the browser extension, dashboards, adapters' ledgers and plan builders: transport, storage and wrappers.
