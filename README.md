# ride-autoend: the idle-ride pass, the branch fare, SMS preparation and the stored codes

This project models, in Dafny, the decision logic of the ride auto-end job of a
kickboard rental service:

- **The idle-ride pass** (`AutoEnd`, `Movement`, `JsNumber`). The threshold `maxMinute`
  comes from `MAX_MINUTE` through JavaScript's `Number(...) || 15`. The job fetches the
  open rides with the cutoff "now minus `maxMinute` minutes". For each ride, in the
  order fetched, it looks up the kickboard by its code. It keeps that kickboard's status
  reports newer than the cutoff and groups them into 15-minute buckets. It terminates
  the ride as `UNUSED` when the bucket the aggregation returns first has a disabled
  fraction of 0 and an average speed of exactly 0.
- **The branch fare** (`Price`). The cost table of a branch falls back to the Seoul
  (`서울`) table, or the lookup fails. The fare is the start cost within the free time.
  After that it is start cost plus the per-minute cost, capped at 50000.
- **SMS preparation for the Aligo gateway** (`Aligo`). It checks the four gateway
  variables. It builds the form (credentials, receiver `"0" + phone.substr(3)`,
  `testmode_yn`). It reads `result_code === 1` as delivered.
- **Stored codes and document validation** (`KickboardModel`, `HelmetModel`, `Schema`).
  These are the numeric codes of kickboard mode, lost level, collect reason and helmet
  status, with round trips and range checks. They also cover the schema defaults and
  `required` checks at creation, and the unique `kickboardCode` index of the kickboard
  collection, modelled as a class whose `Insert` keeps codes unique.

Effects and time are modelled as follows:

- Time is integer milliseconds since the epoch.
- The clock is a parameter. `clock(0)` is read by the ride query and `clock(i + 1)` by
  the movement check of the i-th ride.
- The ride fetch is a function from the query to the list of rides.
- Each DELETE request is a `Termination` value appended to the pass's log.
- Template rendering and the HTTP POST become `Effect` values. The rendered text and
  the gateway's answer are parameters.

Three points of the code decide the model's shape:

- `$sort: { createdAt: -1 }` sorts the grouped documents by a field they do not have
  (src/index.ts:87), so which bucket `$limit: 1` keeps is unspecified. The model takes
  it as a choice `pick` among the groups. `Movement.PickedSummaryDecides` proves that
  the verdict is fixed when every bucket, or none, qualifies.
  `Movement.VerdictDependsOnOrder` shows two buckets where the verdict depends on the
  order.
- The `costs` cache is the object literal `{}` (src/tools/price.ts:5), and
  `costs[branch]` is tested for truthiness (src/tools/price.ts:21). Names that every
  object inherits, such as `constructor` or `toString`, therefore hit the cache.
  `Price.GetBranch` returns that inherited member, and `Price.GetPrice` prices it as
  NaN.
- The helmet status is the five codes of src/models/helmet.ts:3-9.

## Model

| member | source | states |
|---|---|---|
| AutoEnd.MaxMinute | src/index.ts:9 | the threshold is never 0; it is 15 when the value reads as NaN or 0, otherwise the value read, negative ones included |
| AutoEnd.MaxMinuteOfEnv | src/index.ts:9 | an unset, blank or `"0"` `MAX_MINUTE` gives 15; a non-zero decimal, signed or not, is used unchanged |
| JsNumber.ToNumber | src/index.ts:9 | definition: `Number(s)` on the modelled forms, the digit parse of the trimmed string |
| JsNumber.ToNumberOfDecimal | src/index.ts:9 | `Number` reads a decimal spelling, with or without a sign, back as the integer spelled |
| JsNumber.DecimalValue | src/index.ts:9 | the digit value of the decimal spelling of n is n |
| JsNumber.ToNumberOfBlank | src/index.ts:9 | `Number` of any string made only of JavaScript white space, the empty string included, is 0 |
| JsNumber.ToNumberOfSpacedDigits | src/index.ts:9 | for any blank prefix and suffix, a non-empty run of digits between them reads as its value |
| JsNumber.ToNumberOfGarbage | src/index.ts:9 | in the model, a non-empty run of digits followed by a character that is neither a digit nor white space reads as NaN, whatever follows; JavaScript reads some such strings (`"1e3"`, `"1.5"`, `"0x1A"`) as numbers, see `JsNumber.ToNumber` under ## Left out |
| JsNumber.ToNumberOfLoneSign | src/index.ts:9 | a `+` or `-` with only white space around it reads as NaN |
| JsNumber.TrimAround | src/index.ts:9 | blank strings on both sides of a string that neither starts nor ends with white space are trimmed away exactly |
| JsNumber.TrimStartSpec | src/index.ts:9 | trimming removes exactly the leading white space, and the result does not start with white space |
| JsNumber.TrimEndSpec | src/index.ts:9 | trimming removes exactly the trailing white space, and the result does not end with white space |
| AutoEnd.Cutoff | src/index.ts:49 | definition: `dayjs().subtract(maxMinute, 'minutes')` in milliseconds, the same expression as at src/index.ts:34 |
| AutoEnd.RidesQueryAt | src/index.ts:33-40 | the ride query asks for 100 open rides, with `endedAt` the cutoff now − maxMinute minutes |
| AutoEnd.CutoffDirection | src/index.ts:49 | a positive threshold puts the cutoff at least a minute before now; a negative one puts it at least a minute after |
| AutoEnd.NegativeThresholdNeverIdle | src/index.ts:49-60 | with a negative threshold and no report dated after now, no ride is idle |
| AutoEnd.IdleAt | src/index.ts:18 | definition: `hasNoMovement(kickboardCode)` for the i-th ride, at clock reading `clock(i + 1)` and bucket choice `pick(i)` |
| AutoEnd.Verdicts | src/index.ts:17-19 | one verdict per fetched ride, the movement check of that ride's kickboard code at that ride's clock reading and bucket choice |
| AutoEnd.Terminations | src/index.ts:17-24 | at most one termination per ride considered, each of type UNUSED |
| AutoEnd.Run | src/index.ts:11-31 | the pass sends the ride query at `clock(0)` and logs exactly the terminations of the fetched rides whose verdict holds, in order |
| AutoEnd.TerminationsAreIdleFilter | src/index.ts:17-24 | the terminations are the in-order filter of the rides: the k-th is for the k-th idle ride, and a ride is terminated iff it is idle |
| AutoEnd.TerminatedOnce | src/index.ts:17-24 | with distinct ride ids, an idle ride is terminated exactly once and any other ride never |
| AutoEnd.RunTerminatesIdleRides | src/index.ts:17-46 | with distinct ride ids, over one pass, a fetched ride's id appears in the log once if its kickboard did not move and never otherwise |
| Movement.Window | src/index.ts:56-62 | the window holds exactly the reports with the kickboard's id and `createdAt` strictly after the cutoff |
| Movement.WindowAppend | src/index.ts:56-62 | the window of a concatenation is the concatenation of the windows |
| Movement.WindowIgnoresOthers | src/index.ts:56-62 | inserting a report of another kickboard, or one not after the cutoff, leaves the window unchanged |
| Movement.BucketKey | src/index.ts:65-79 | definition: `createdAt` minus its `$mod` remainder by 15 minutes |
| Movement.TruncRem | src/index.ts:71-74 | the `$mod` remainder lies strictly between −15 and +15 minutes |
| Movement.BucketKeyIsQuotient | src/index.ts:65-79 | the bucket key is the quotient by 15 minutes, rounded toward zero, times 15 minutes |
| Movement.SameBucket | src/index.ts:65-79 | two reports share a bucket iff their quotients by 15 minutes are equal |
| Movement.BucketBounds | src/index.ts:65-79 | for times after the epoch, key ≤ t < key + 15 minutes and the key is a multiple of 15 minutes |
| Movement.BucketAroundEpoch | src/index.ts:65-79 | before the epoch the truncated remainder puts −1 ms and +1 ms in the same bucket 0 |
| Movement.Keys | src/index.ts:63-86 | the group keys are pairwise distinct, and a key is present iff some report falls in its bucket |
| Movement.Members | src/index.ts:64-80 | a bucket holds exactly the reports whose key is its key |
| Movement.DisabledCount | src/index.ts:81 | definition: the sum of `$cond: ['$isEnabled', 0, 1]` over a bucket |
| Movement.SpeedCount | src/index.ts:84 | definition: the number of reports whose speed `$avg` takes into account |
| Movement.SpeedSum | src/index.ts:84 | definition: the sum of the present speeds |
| Movement.Summarize | src/index.ts:80-85 | definition: the `$group` output document of one bucket, with averages held as sums and counts |
| Movement.Aggregate | src/index.ts:63-86 | one group per bucket key, each summarising the reports of that bucket |
| Movement.DisabledZeroIff | src/index.ts:81 | the disabled fraction is 0 iff every report says `isEnabled` true; a false or missing flag counts as disabled |
| Movement.SpeedCountPositiveIff | src/index.ts:84 | the speed average is defined iff some report of the bucket has a speed |
| Movement.SpeedSumZeroIff | src/index.ts:84 | with no negative speeds, the speed sum is 0 iff every present speed is 0 |
| Movement.QualifiesIffStill | src/index.ts:81-97 | for non-negative speeds, a bucket qualifies iff every report is enabled, every present speed is 0 and at least one speed is present |
| Movement.Qualifies | src/index.ts:92-98 | definition: a disabled fraction of 0 and a defined speed average of 0 |
| Movement.Decide | src/index.ts:87-98 | definition: the first group, under the chosen order, exists and qualifies |
| Movement.HasNoMovement | src/index.ts:48-99 | definition: the kickboard by code, its window after the cutoff, its buckets and the verdict of the bucket kept first |
| Movement.Picked | src/index.ts:87-88 | the first group of the unspecified order is one of the groups, and there is none iff there are no groups |
| Movement.PickedSummaryDecides | src/index.ts:81-98 | for any speeds, whichever bucket comes first: every bucket's summary qualifying ⇒ idle, none qualifying ⇒ not idle, idle ⇒ some bucket qualifies |
| Movement.PickedBucketDecides | src/index.ts:87-98 | for non-negative speeds, whichever bucket comes first: all buckets still ⇒ idle, no bucket still ⇒ not idle, idle ⇒ some bucket still |
| Movement.OpposedSpeedsQualify | src/index.ts:81-97 | two enabled reports with speeds 3 and −3 form a bucket that qualifies although it is not still |
| Movement.EveryBucketCanDecide | src/index.ts:87-88 | every group is the first one under some order |
| Movement.ExampleGroups | src/index.ts:63-86 | a still report and a moving report a quarter hour later form two groups: enabled with speed sum 0, and enabled with speed sum 5 |
| Movement.VerdictDependsOnOrder | src/index.ts:87-98 | a still bucket and a moving bucket give idle under one order and not idle under the other |
| Movement.NotIdleWithoutData | src/index.ts:50-54 | an unknown kickboard code, or no report after the cutoff, never gives idle |
| Movement.IdleVerdict | src/index.ts:48-99 | for the kickboard found by code, with non-negative speeds in its window: every bucket still ⇒ idle, none still ⇒ not idle, idle ⇒ some bucket still |
| Movement.PositionsIrrelevant | src/index.ts:82-96 | reports that differ only in latitude and longitude give the same verdict |
| KickboardModel.ModeCode | src/models/kickboard.ts:21-28 | every mode code lies in 0..5 |
| KickboardModel.ModeOf | src/models/kickboard.ts:52-57 | a code is accepted iff it is in 0..5, and the mode it gives encodes back to it |
| KickboardModel.ModeCodec | src/models/kickboard.ts:21-28 | READY 0 … DISABLED 5, decode(encode(m)) = m, and distinct modes have distinct codes |
| KickboardModel.LostCode | src/models/kickboard.ts:30-35 | every lost code lies in 0..3 |
| KickboardModel.LostOf | src/models/kickboard.ts:58 | a lost code is accepted iff it is in 0..3, and it encodes back |
| KickboardModel.LostCodec | src/models/kickboard.ts:30-35 | FINAL 0, THIRD 1, SECOND 2, FIRST 3, with round trip and injectivity |
| KickboardModel.CollectCode | src/models/kickboard.ts:37-42 | every collect code lies in 0..3 |
| KickboardModel.CollectOf | src/models/kickboard.ts:59-64 | a collect code is accepted iff it is in 0..3, and it encodes back |
| KickboardModel.CollectCodec | src/models/kickboard.ts:37-42 | BATTERY 0, LOCATION 1, BROKEN 2, OTHER 3, with round trip and injectivity |
| KickboardModel.Violations | src/models/kickboard.ts:44-70 | definition: the `required` and `enum` findings of the schema, path by path |
| KickboardModel.Acceptable | src/models/kickboard.ts:44-70 | definition: the four ids are non-empty strings, mode is left out or in range, and lost and collect are in range or not given |
| KickboardModel.CheckEnum | src/models/kickboard.ts:58-64 | the enum validator reports nothing iff the field is null, left out, or within range |
| KickboardModel.Create | src/models/kickboard.ts:44-70 | creation succeeds iff the four ids are non-empty strings, mode is left out or in 0..5, and lost and collect are in range or not given; both timestamps are the creation time |
| KickboardModel.CreateDefaults | src/models/kickboard.ts:50-64 | a left-out mode becomes UNREGISTERED; lost, collect, maxSpeed and photo default to null; given codes are kept |
| KickboardModel.CreateKeepsIdentity | src/models/kickboard.ts:46-49 | the stored ids and code are those given |
| KickboardModel.CreateRejectsBadMode | src/models/kickboard.ts:52-57 | a null mode fails `required`, an out-of-range mode fails the enum |
| KickboardModel.FindByCode | src/index.ts:50 | a found kickboard is in the collection and has the code asked for |
| KickboardModel.FindByCodeSpec | src/models/kickboard.ts:47 | the lookup misses iff no kickboard has the code; with unique codes it returns that kickboard |
| KickboardModel.KickboardCollection.constructor | src/models/kickboard.ts:72 | a new collection is empty and valid |
| KickboardModel.KickboardCollection.FindOne | src/index.ts:50 | on the stored rows, the lookup misses iff the code is absent, a hit has the code, and with the unique index it is the row with that code |
| KickboardModel.KickboardCollection.Insert | src/models/kickboard.ts:44-70 | invalid documents fail validation; a duplicate `kickboardCode` fails the unique index; otherwise the new kickboard is appended; codes stay unique |
| HelmetModel.StatusCode | src/models/helmet.ts:3-9 | every helmet status code lies in 0..4 |
| HelmetModel.StatusOf | src/models/helmet.ts:28-33 | a status code is accepted iff it is in 0..4, and it encodes back |
| HelmetModel.StatusCodec | src/models/helmet.ts:3-9 | READY 0, INUSE 1, BROKEN 2, LOST 3, DISABLED 4, with round trip and injectivity |
| HelmetModel.Violations | src/models/helmet.ts:21-37 | definition: the `required` and `enum` findings of the schema, path by path |
| HelmetModel.Acceptable | src/models/helmet.ts:21-37 | definition: the five required fields are present, status is left out or in range, and `createdAt` is not null |
| HelmetModel.Create | src/models/helmet.ts:21-37 | creation succeeds iff version, password, encryptKey, macAddress and battery are present, status is left out or in 0..4, and createdAt is not null; updatedAt is the creation time |
| HelmetModel.CreateDefaults | src/models/helmet.ts:28-34 | a left-out status becomes DISABLED and a left-out createdAt the creation time; given values are kept |
| HelmetModel.CreateNamesMissing | src/models/helmet.ts:23-27 | each missing required field makes creation fail and is named among the violations |
| Schema.WithDefault | src/models/kickboard.ts:52-58 | a default replaces only a left-out field, not a null |
| Schema.CheckRequired | src/models/kickboard.ts:46-49 | a `required` check reports nothing iff it holds |
| Price.GetBranch | src/tools/price.ts:5-35 | an own cache entry is returned, then a name inherited by the `{}` cache as that member; a name that `doc()` rejects (empty, with `//`, or with an even number of segments) fails; otherwise the branch's stored table, else Seoul's; it fails iff none of these applies |
| Price.BranchOutcomes | src/tools/price.ts:5-31 | with the cache as it always is (no own entries), an inherited name resolves to that member and a rejected document path fails, whatever the store holds; any other name has the three store outcomes and depends only on the store entries of the branch and of Seoul |
| Price.PlainNameAccepted | src/tools/price.ts:22-25 | a name without `/`, Seoul's among them, is a document path `doc()` accepts |
| Price.InvalidPathsRejected | src/tools/price.ts:22 | the empty name and `"a/b"` fail even when Seoul's table is stored |
| Price.Fare | src/tools/price.ts:12-17 | within the free time the fare is the start cost; beyond it, min(start + rate × extra minutes, 50000) |
| Price.FareBounds | src/tools/price.ts:13-16 | at exactly the free time the fare is the start cost; beyond it the fare is at most 50000, and equals 50000 iff the uncapped sum reaches 50000 |
| Price.FareMonotone | src/tools/price.ts:15-17 | with a non-negative rate, the fare beyond the free time does not decrease with the minutes |
| Price.FareDropsAtFreeTimeEdge | src/tools/price.ts:14-16 | a start cost above the cap is charged in full at the free time and capped one minute later |
| Price.GetPrice | src/tools/price.ts:7-18 | the price fails iff the branch lookup fails; a found table gives the fare under it, an inherited member gives NaN |
| Price.PrototypeNamePrice | src/tools/price.ts:5-21 | with the cache as it always is, an inherited name such as `constructor` is priced NaN for any store and any ride length |
| Aligo.DropThree | src/tools/aligo.ts:34 | `substr(3)` drops the first three characters, or gives "" for shorter strings |
| Aligo.Receiver | src/tools/aligo.ts:34 | the receiver starts with '0', has length |phone| − 2 (or 1 for short phones), and continues with phone from its fourth character |
| Aligo.ReceiverOfInternational | src/tools/aligo.ts:34 | `+82` followed by any rest becomes `0` followed by that rest |
| Aligo.ReceiverExample | src/tools/aligo.ts:34 | `+821012345678` becomes `01012345678` |
| Aligo.TestMode | src/tools/aligo.ts:36 | `testmode_yn` is "false" iff NODE_ENV is "prod", and "true" otherwise |
| Aligo.Configured | src/tools/aligo.ts:20 | definition: all four gateway variables are set and non-empty |
| Aligo.Delivered | src/tools/aligo.ts:39 | definition: `result_code` is the number 1 |
| Aligo.BuildRequest | src/tools/aligo.ts:25-38 | user_id, key, sender and proxy carry the environment values unchanged, and msg is the rendered text |
| Aligo.Send | src/tools/aligo.ts:9-40 | an unconfigured gateway fails before any render or post; otherwise render then post, and the result is true iff `result_code` is the number 1 |
| Aligo.SentForm | src/tools/aligo.ts:30-37 | the posted form has the rewritten receiver, the test-mode flag of NODE_ENV and the credentials of the environment |

## Left out

- `runLegacy` (src/index.ts:5 and :13) is defined in a module that is not among the modelled files, so the `NODE_ENV === 'prod'` branch that calls it is not modelled.
- MongoDB, Firestore, the ride HTTP endpoints and the SMS gateway are I/O. The collections are snapshots given as parameters. They do not change during a pass.
- A failing request is not modelled. A thrown DELETE or aggregation would reject `main`.
- Logging, `console.log` and `process.exit(1)` are not modelled.
- `JsNumber.ToNumber`: only decimal integers, with JavaScript white space and an optional sign, are modelled. Hexadecimal, binary or octal literals, fractions, exponents and `Infinity` read as NaN in the model, but JavaScript reads them as numbers, so for such values the threshold differs from the source.
- Movement.QualifiesIffStill: the equivalence with a still bucket is stated for non-negative speeds only. The status schema does not constrain `speed` (src/models/status.ts:91), and opposite speeds can average to 0 (`Movement.OpposedSpeedsQualify`). `Movement.PickedSummaryDecides` states the verdict for any speeds.
- Movement.PickedBucketDecides: stated for non-negative speeds only, for the same reason.
- Movement.IdleVerdict: stated for non-negative speeds in the window only, for the same reason.
- Price.GetBranch: `doc()` is taken to drop empty segments, so a leading or trailing `/` is accepted, but the model's store is keyed by the name as given and does not identify `"/a"` with `"a"`. Names that `doc()` accepts but the server refuses (such as `..` or `__x__`) fail at the read, which is I/O and not modelled.
- Floating point is not modelled. Minutes, speeds, coordinates and costs are integers. The averages `isEnabled === 0` and `speed === 0` are stated as sum and count facts.
- `$stdDevSamp` of latitude and longitude is not computed. It is not part of the decision (src/index.ts:95-96). `Movement.PositionsIrrelevant` proves that positions cannot change the verdict.
- Which ride the server returns for the query (`take`, `showTerminated`, `endedAt`) is decided by the ride service. Only the query is modelled.
- Dates are milliseconds. How dayjs and MongoDB convert `Date` to milliseconds is taken as exact.
- The cost tables are typed records. A Firestore document with missing or non-numeric fields is not modelled; in the source such a document yields NaN, a string or a different number.
- `Aligo.Receiver`: JavaScript strings are UTF-16 code units, but the model counts Unicode characters. The two agree on phone numbers, which are ASCII.
- Template rendering (Liquid) is not modelled. `props` is not modelled. The rendered text is a parameter.
- Mongoose casting of given values (for example the string `"3"` into the number 3) is not modelled. Inputs arrive typed.
- The `status` and `helmetId` references are kept as optional strings. They are not resolved.
- `HelmetDoc.helmetId` is not modelled. It is declared in the interface but not in the schema, so it is never stored.
- The enum constraint on Number paths is taken as accepting exactly the numeric values of the TypeScript enum. This is the behaviour of mongoose versions that support `enum` on numbers.
