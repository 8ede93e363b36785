# IMS stack configuration: a verified model

The project models the configuration layer of a mobile IMS stack (`native/libimsstack`) and proves what
its state machines, parsers, validators and tables keep. It has three parts.

**The subscriber provisioning machine.** A subscriber configuration is driven by calls, by the ISIM card
and by messages it posts to itself. `SubscriberModel` is the machine as a function of values;
`SubscriberSteps`, `SubscriberRuns` and `SubscriberTheorems` prove results over every interleaving of
calls, ISIM events and deliveries. `SubscriberAccount` is the exact account of a run: which steps post which
message, what the listeners hear, which state is entered, and whose identity, as `SubscriberIdentity`
spells it out, the record holds. `MessageQueue` is the FIFO that all configurations share, with creation
and destruction; `SharedQueue` carries the results over to it through a projection theorem.
`SubscriberSync` relates queueing to the mode without a helper, where a message is handled at once.
`SubscriberConfigs` holds the two classes with their fields updated in place, each method proved against
the functions. `Impu` is the normalisation of public user identities.

**The feature-tag algebra** (RFC 3840 section 9, RFC 3986 section 2.1, 3GPP TS 24.229 sections 7.2A.8 and
7.2A.9). `PercentCodec` and `Features` parse, print and compare one feature; `FeatureSetModel` compares a
run of adds and removes with a multiset; `FeatureSets` is the class with reference-counted objects;
`ServiceIdentifiers` and `FeatureSetText` print a set and read it back, `FeatureReparse` a single feature.

**Registries and tables.** `ImsProperties`, `QosProperties`, `AppConfigModel`, `AppConfigOrder`,
`AppConfigValid`, `AppConfigContents`, `CoreServiceConfigs` and `AppConfigs` model the two-pass validator
of an application registry; `RegistryLoader` models what feeds it, and `LoadedConfigs` takes the two together,
from the sections of a content to the services and lists of the configuration. `SortedMaps`, `JniConnector` and
`EventHolders` are the connection table and the listener table, refining maps.

Some promises of the code fail. For each of them the project says exactly where; what a semicolon
introduces below are lemmas about inputs on which it fails.

- A refresh can be lost, or a start left open, only by switching ISIM support on without queueing a
  refresh while the ISIM is already loaded (`RefreshNeverLostIff`, `StartNeverLeftOpenIff`;
  `AttributeUpdateLosesRefresh`, `ManualUpdateLeavesStartOpen`).
- Normalising an identity twice changes it again exactly if it has a `<` behind which no known scheme
  stands (`NormalizeIdempotentIff`; `AngleGrows`).
- Comparing features depends on the order of the operands exactly for IARI and ICSI features of which one
  was written raw (`OrderMattersIff`; `RawValueBreaksSymmetry`), and composes except there and for boolean
  values that hold a NUL byte (`TransitiveIff`; `RawValueBreaksChain`, `NulBreaksChain`). A feature set is
  a multiset on exactly those features that do not clash in one of these ways (`RunsAreMultisetsIff`;
  `RawValueBreaksCounting`).
- Printing and parsing a feature again loses something exactly if its tag is not stable (`ReparseIff`;
  `PrefixIsLost`) or a boolean value is FALSE (`BooleanReparseIff`), and a printed IARI or ICSI set loses
  entries exactly if two values differ in case only (`RereadPrinted`; `CaseIsLost`).
- Where `char` is signed, percent coding restores exactly the texts of bytes below 0x80
  (`SignedDecodeEncodeIff`).
- Capabilities for request and response share one key whatever their sector (`SharedCapabilityIff`;
  `SectorsFallTogether`). A Write entry is checked by its number of elements only, because the list that
  is compared is the one for reading (`ValidEntry` in `AppConfigValid`, through `CreateSucceedsIff`).

What the model assumes of unseen code: posting a message succeeds and keeps the order; callbacks do not
re-enter; the ISIM counts as loaded exactly if LOADED was the last state it notified; a change of the
carrier configuration is seen together with its notification; `char` is unsigned, unless a result says
otherwise.

All paths below are relative to the root of the repository.

## Model

| member | source | states |
|---|---|---|
| SubscriberTheorems.NoLostRefresh | native/libimsstack/config/common/SubscriberConfig.cpp:1223-1296 | Over every run in which no attribute update switches ISIM support on: with ISIM supported and loaded, either a refresh is queued or the state is PROVISIONED and the record holds, field by field, the identity the ISIM has now or a caller gave since; draining the queue ends there |
| SubscriberTheorems.DrainingEndsProvisioned | native/libimsstack/config/common/SubscriberConfig.cpp:334-415 | In every run without attribute updates, draining the queue while the ISIM is loaded ends in PROVISIONED |
| SubscriberTheorems.RefreshNeverLostIff | native/libimsstack/config/common/SubscriberConfig.cpp:497-561 | A run never loses a refresh if and only if no step is an attribute update that switches support on while the ISIM is loaded, nothing is queued and state or record is behind |
| SubscriberTheorems.StepLosesIff | native/libimsstack/config/common/SubscriberConfig.cpp:1223-1296 | One step from a safe situation loses a refresh exactly under that condition |
| SubscriberTheorems.AttributeUpdateLosesRefresh | native/libimsstack/config/common/SubscriberConfig.cpp:509-561 | A concrete run that ends loaded, idle and not provisioned |
| SubscriberTheorems.NoDanglingStart | native/libimsstack/config/common/SubscriberConfig.cpp:1253-1290 | With the queue drained and ISIM supported and loaded, the last notice on the ISIM channel is a completion |
| SubscriberTheorems.StartNeverLeftOpenIff | native/libimsstack/config/common/SubscriberConfig.cpp:187-233 | A run always closes what it starts if and only if no step switches support on without a refresh while loaded and the last word is no completion |
| SubscriberTheorems.StepOpensIff | native/libimsstack/config/common/SubscriberConfig.cpp:187-233 | The same for one step |
| SubscriberTheorems.ManualUpdateLeavesStartOpen | native/libimsstack/config/common/SubscriberConfig.cpp:187-233 | A concrete run that ends drained and loaded with a start never completed |
| SubscriberTheorems.InitialisationCredit | native/libimsstack/config/common/SubscriberConfig.cpp:1530-1565 | Over every run INIT_COMPLETED is posted on the ISIM channel at most once for Init, once per Refresh and once per ISIM IDLE |
| SubscriberAccount.InitialisationAccount | native/libimsstack/config/common/SubscriberConfig.cpp:1530-1565 | The exact account behind the credit: in every run INIT_COMPLETED is posted on the ISIM channel exactly as often as a step takes the configuration from PROVISIONING, or from INACTIVE on LOADED, to PROVISIONED with the ISIM's identity |
| SubscriberAccount.PostsAreCaused | native/libimsstack/config/common/SubscriberConfig.cpp:1223-1296 | In every run each message of every kind is posted exactly once for each step that causes it, the causes listed per message by event, state and attributes: readings of the ISIM end in one completion of the right kind, manual updates, re-readings, reports and listeners in theirs |
| SubscriberAccount.StepPosts | native/libimsstack/config/common/SubscriberConfig.cpp:1253-1290 | The same for one step |
| SubscriberAccount.InitialisesIff | native/libimsstack/config/common/SubscriberConfig.cpp:1550-1563 | A step ends an initialisation exactly if, by the states before and after, it provisions from the ISIM for the first time |
| SubscriberAccount.InitialisationIsReported | native/libimsstack/config/common/SubscriberConfig.cpp:1692-1741 | The listeners of a channel have been told INIT_COMPLETED exactly once for each step that causes it, apart from the messages that still wait |
| SubscriberAccount.NoticesFollowMessages | native/libimsstack/config/common/SubscriberConfig.cpp:334-415 | Callbacks are made by handling messages only, in that order, of the kinds the messages name and to the listeners there are then |
| SubscriberAccount.StateIsEnteredLast | native/libimsstack/config/common/SubscriberConfig.cpp:1223-1296 | After every run the state is the one that the last entering step entered, the steps that enter each state listed by event |
| SubscriberAccount.RecordHoldsLastSupply | native/libimsstack/config/common/SubscriberConfig.cpp:196-233 | In every run the record holds the identity supplied last - given by a manual update, read from the ISIM or from the store - field by field, and is blank where nothing was supplied since |
| SubscriberAccount.FieldsFollowEvents | native/libimsstack/config/common/SubscriberConfig.cpp:497-561 | In every run attributes, index and phone context of the record, and what is known of carrier, store and ISIM change as the events say |
| SubscriberAccount.ListenersAreThoseAdded | native/libimsstack/config/common/SubscriberConfig.cpp:107-162 | After every run a channel has exactly the listeners added to it and not removed since, none twice |
| SubscriberAccount.WithoutConcat | native/libimsstack/config/common/SubscriberConfig.cpp:107-119 | A listener that leaves does not change the order of the others |
| SubscriberIdentity.ProvisionHolds | native/libimsstack/config/common/SubscriberConfig.cpp:1567-1668 | A filled record has the private id, one normalised public id per given one in order, the first sip: and tel: ones as primaries, and the given domain or for "0" the first one found |
| SubscriberRuns.RunSound | native/libimsstack/config/common/SubscriberConfig.cpp:417-495 | After Init every run keeps: STATE_INIT never visible between steps, at most one record, posted messages are those handled followed by those waiting |
| SubscriberRuns.RecordMissingIff | native/libimsstack/config/common/SubscriberConfig.cpp:164-185 | The record is missing exactly if EnableIsim cleared it and nothing was read or supplied since |
| SubscriberRuns.DeliverDecreases | native/libimsstack/config/common/SubscriberConfig.cpp:334-415 | Each delivery lowers the weight of what is pending |
| SubscriberRuns.DrainTerminates | native/libimsstack/config/common/SubscriberConfig.cpp:334-415 | As many deliveries as the pending messages weigh empty the queue, from any state |
| SubscriberModel.HandlePostsLess | native/libimsstack/config/common/SubscriberConfig.cpp:334-415 | Handling a message posts at most one message, of smaller weight |
| SubscriberSteps.CallRefreshSafe | native/libimsstack/config/common/SubscriberConfig.cpp:1223-1296 | Every call keeps the refresh invariant unless it is an attribute update that switches support on |
| SubscriberSteps.HandleRefreshSafe | native/libimsstack/config/common/SubscriberConfig.cpp:1511-1565 | Handling the oldest message keeps the refresh invariant |
| SubscriberSteps.CallSettled | native/libimsstack/config/common/SubscriberConfig.cpp:1253-1290 | Every call that does not switch support on silently keeps: the last word on the ISIM channel is or will be a completion |
| SubscriberSteps.HandleSettled | native/libimsstack/config/common/SubscriberConfig.cpp:365-385 | Handling the oldest message keeps it |
| SubscriberSteps.CallSpendsCredit | native/libimsstack/config/common/SubscriberConfig.cpp:1239-1274 | A call posts no more INIT_COMPLETED than the credit it finds and earns |
| SubscriberSteps.HandleSpendsCredit | native/libimsstack/config/common/SubscriberConfig.cpp:1550-1563 | Handling a message posts no more INIT_COMPLETED than the credit it finds |
| SubscriberSync.SyncMatchesDraining | native/libimsstack/config/common/SubscriberConfig.cpp:1768-1781 | Handling every message at once gives the same configuration as queueing and draining |
| SubscriberSync.DrainIsSync | native/libimsstack/config/common/SubscriberConfig.cpp:1768-1781 | Draining a queue whose messages post nothing but the last equals handling them one after the other |
| MessageQueue.MessagesConserved | native/libimsstack/config/common/AsyncConfigHelper.cpp:71-146 | Over every run of the whole system each posted message is handled once or dropped once, in posting order, or still queued; registered configurations are distinct |
| MessageQueue.DispatchFate | native/libimsstack/config/common/AsyncConfigHelper.cpp:110-146 | A message is handled exactly if its configuration is registered when delivered; nobody else changes |
| MessageQueue.DispatchingEmptiesQueue | native/libimsstack/config/common/AsyncConfigHelper.cpp:110-146 | Without new events delivery empties the shared queue from any state |
| MessageQueue.ConfigurationsAreIsolated | native/libimsstack/config/common/AsyncConfigHelper.cpp:60-146 | Whatever the others do, a live configuration and its share of the queue are where its own calls and deliveries took them |
| SharedQueue.NoLostRefreshInSharedQueue | native/libimsstack/config/common/AsyncConfigHelper.cpp:60-146 | Both halves of NoLostRefresh for each live configuration in the shared system: a refresh is queued or it is PROVISIONED and current, and dispatching the shared queue empty ends there |
| SharedQueue.NoDanglingStartInSharedQueue | native/libimsstack/config/common/AsyncConfigHelper.cpp:60-146 | No dangling start for each live configuration in the shared system |
| SharedQueue.CreditInSharedQueue | native/libimsstack/config/common/AsyncConfigHelper.cpp:60-146 | The initialisation credit for each live configuration in the shared system |
| SharedQueue.InitialisationIsReportedInSharedQueue | native/libimsstack/config/common/AsyncConfigHelper.cpp:60-146 | Every initialisation is reported, for each live configuration in the shared system |
| SharedQueue.RecordInSharedQueue | native/libimsstack/config/common/AsyncConfigHelper.cpp:60-146 | The record holds the identity supplied last, for each live configuration in the shared system |
| SubscriberConfigs.AsyncConfigHelper.Register | native/libimsstack/config/common/AsyncConfigHelper.cpp:60-69 | Adds a configuration to the registered list once |
| SubscriberConfigs.AsyncConfigHelper.SendTo | native/libimsstack/config/common/AsyncConfigHelper.cpp:71-94 | Queues a message only for a registered configuration |
| SubscriberConfigs.AsyncConfigHelper.Unregister | native/libimsstack/config/common/AsyncConfigHelper.cpp:96-108 | Removes a configuration from the registered list and leaves the queue as it is |
| SubscriberConfigs.AsyncConfigHelper.IsRegisteredConfig | native/libimsstack/config/common/AsyncConfigHelper.cpp:148-162 | Finds a configuration exactly if it is registered |
| SubscriberConfigs.AsyncConfigHelper.OnMessage | native/libimsstack/config/common/AsyncConfigHelper.cpp:110-146 | A registered configuration handles the message as the model does and its posts join the queue; otherwise nothing changes |
| SubscriberConfigs.SubscriberConfig.IsimOnStateChanged | native/libimsstack/config/common/SubscriberConfig.cpp:1223-1296 | State, records and posts change as in the model, in both messaging modes |
| SubscriberConfigs.SubscriberConfig.HandleMessage | native/libimsstack/config/common/SubscriberConfig.cpp:334-415 | Each message acts as in the model |
| SubscriberConfigs.SubscriberConfig.EnableIsim | native/libimsstack/config/common/SubscriberConfig.cpp:164-185 | Switches attributes, clears the record and posts as in the model |
| SubscriberConfigs.SubscriberConfig.UpdateSubscriberInfo | native/libimsstack/config/common/SubscriberConfig.cpp:196-233 | Replaces the record by the given identities and posts as in the model |
| SubscriberConfigs.SubscriberConfig.Refresh | native/libimsstack/config/common/SubscriberConfig.cpp:286-294 | Resets attributes and state and reads everything again |
| SubscriberConfigs.SubscriberConfig.ReadFrom | native/libimsstack/config/common/SubscriberConfig.cpp:417-495 | Reads attributes and appends a blank or a stored record |
| SubscriberConfigs.SubscriberConfig.UpdateIsimRecords | native/libimsstack/config/common/SubscriberConfig.cpp:1530-1565 | Fills the record from the ISIM and posts the completion that fits the state |
| SubscriberConfigs.SubscriberConfig.RefreshIsimRecords | native/libimsstack/config/common/SubscriberConfig.cpp:1511-1524 | Reads the ISIM only if loaded, installing the handle first |
| SubscriberConfigs.SubscriberConfig.UpdateAllConfigs | native/libimsstack/config/common/SubscriberConfig.cpp:1783-1813 | Clears, reads everything again and posts by ISIM support and previous state |
| SubscriberConfigs.SubscriberConfig.InitIsim | native/libimsstack/config/common/SubscriberConfig.cpp:1436-1459 | Installs the ISIM handle if the ISIM is read and none is there |
| SubscriberConfigs.SubscriberConfig.CreateSubscriberInfo | native/libimsstack/config/common/SubscriberConfig.cpp:1415-1434 | Appends a blank record with its index and phone context |
| SubscriberConfigs.SubscriberConfig.FillRecord | native/libimsstack/config/common/SubscriberConfig.cpp:1567-1668 | Fills one record with normalised identities, primaries and home domain |
| SubscriberConfigs.SubscriberConfig.StartWith | native/libimsstack/config/common/SubscriberConfig.cpp:343-353 | Registers with the helper and installs the ISIM handle |
| SubscriberConfigs.SubscriberConfig.Notify | native/libimsstack/config/common/SubscriberConfig.cpp:1692-1741 | Tells every listener of a channel once, in order |
| SubscriberConfigs.SubscriberConfig.NotifyError | native/libimsstack/config/common/SubscriberConfig.cpp:1743-1766 | Tells the listeners of the ISIM channel, or only the given one if it is there |
| SubscriberConfigs.SubscriberConfig.RequestUpdateAll | native/libimsstack/config/common/SubscriberConfig.cpp:1153-1157 | Posts the message that updates everything |
| SubscriberConfigs.SubscriberConfig.CarrierConfigNotifyConfigChanged | native/libimsstack/config/common/SubscriberConfig.cpp:1182-1221 | Takes over phone context and index in the record |
| SubscriberConfigs.SubscriberConfig.SetListener | native/libimsstack/config/common/SubscriberConfig.cpp:121-162 | Adds a listener once per channel and tells a new one of an absent ISIM |
| SubscriberConfigs.SubscriberConfig.RemoveListener | native/libimsstack/config/common/SubscriberConfig.cpp:107-119 | Removes the listener from every channel |
| SubscriberConfigs.SubscriberConfig.SendMessage | native/libimsstack/config/common/SubscriberConfig.cpp:1768-1781 | Queues through the helper or handles at once without one |
| Impu.UpdatePublicUserIds | native/libimsstack/config/common/SubscriberConfig.cpp:1608-1668 | Keeps length and order and normalises each entry |
| Impu.NormalizedTrimmed | native/libimsstack/config/common/SubscriberConfig.cpp:1608-1668 | A blank entry becomes empty, another is the trimmed entry, perhaps behind "sip:" |
| Impu.NormalizedScheme | native/libimsstack/config/common/SubscriberConfig.cpp:1608-1668 | A non-blank result has a sip, sips or tel scheme at its start or right after its first `<` |
| Impu.NormalizedIff | native/libimsstack/config/common/SubscriberConfig.cpp:1608-1668 | A non-blank identity stays as it is, trimmed, if and only if a sip, tel or sips scheme stands at its start or, if it has a `<`, behind the first one; otherwise it gets "sip:" in front |
| Impu.NormalizeIdempotentIff | native/libimsstack/config/common/SubscriberConfig.cpp:1608-1668 | Normalising twice changes nothing if and only if there is no `<` or one of the three schemes behind the first one |
| Impu.AngleGrows | native/libimsstack/config/common/SubscriberConfig.cpp:1608-1668 | `<` becomes `sip:<` and that becomes `sip:sip:<` |
| Impu.SetPrimaryImpu | native/libimsstack/config/common/SubscriberConfig.cpp:1461-1497 | The scan with early exit picks the first entries containing sip: and tel: |
| Impu.FirstContainingSpec | native/libimsstack/config/common/SubscriberConfig.cpp:1461-1497 | The entry picked is the first one with the text |
| Impu.FirstContainingNone | native/libimsstack/config/common/SubscriberConfig.cpp:1461-1497 | Nothing is picked if no entry has the text |
| Impu.UpdateHomeDomainName | native/libimsstack/config/common/SubscriberConfig.cpp:1567-1598 | A given domain stays; "0" is replaced by the domain part of an identity |
| PercentCodec.DecodeEncode | native/libimsstack/config/common/Feature.cpp:400-458 | Where `char` is unsigned, decoding an encoded text gives every byte string back |
| PercentCodec.SignedDecodeEncodeIff | native/libimsstack/config/common/Feature.cpp:400-458 | Where `char` is signed, it does so if and only if every byte is below 0x80 |
| PercentCodec.EncodeShape | native/libimsstack/config/common/Feature.cpp:433-458 | Encoding emits only letters, digits, eight listed bytes and percent signs, between one and three times the input, and leaves a text alone if and only if all its bytes are of that alphabet without the percent sign |
| PercentCodec.EncodeOne | native/libimsstack/config/common/Feature.cpp:443-454 | A byte of the alphabet stands for itself, every other one becomes a percent sign and its two upper-case digits |
| PercentCodec.EncodeConcat | native/libimsstack/config/common/Feature.cpp:433-458 | Texts are encoded byte by byte |
| PercentCodec.MmtelIsCoded | native/libimsstack/config/common/Feature.cpp:433-458 | The ICSI of multimedia telephony is sent as `urn%3Aurn-7%3A3gpp-service.ims.icsi.mmtel` |
| PercentCodec.DecodeTriple | native/libimsstack/config/common/Feature.cpp:400-431 | A percent sign and two digits of either case are one byte; without two digits all three stay |
| PercentCodec.DecodeShape | native/libimsstack/config/common/Feature.cpp:400-431 | Decoding shortens by two per well-formed escape and is the identity exactly if there is none |
| PercentCodec.MalformedHidesEscape | native/libimsstack/config/common/Feature.cpp:400-431 | A malformed escape hides a well-formed one that starts inside it |
| PercentCodec.DoPercentEncoding | native/libimsstack/config/common/Feature.cpp:433-458 | The loop computes the encoding that EncodeOne and EncodeConcat describe |
| PercentCodec.DoPercentDecoding | native/libimsstack/config/common/Feature.cpp:400-431 | The loop computes the decoding |
| PercentCodec.CharToHex | native/libimsstack/platform/util/TextParser.cpp:91-160 | Two hex digits with the value of the byte |
| Features.ParseParsed | native/libimsstack/config/common/Feature.cpp:317-398 | Parsing makes the case flag a function of kind and tag, except for raw IARI and ICSI values |
| Features.ParseIs | native/libimsstack/config/common/Feature.cpp:317-398 | Tag, kind, value and case flag of a parsed feature from the text before and behind the first equals sign |
| Features.KindIs | native/libimsstack/config/common/Feature.cpp:317-398 | The kind of a value from its first and last bytes |
| Features.BaseTagIff | native/libimsstack/config/common/Feature.cpp:460-491 | A tag is a base tag if it is one of the list in any case, or starts with sip. and ends in one |
| Features.BaseTagsOfRfc3840 | native/libimsstack/config/common/Feature.cpp:27-58 | The list is that of section 9 of RFC 3840 |
| Features.ToStringIs | native/libimsstack/config/common/Feature.cpp:225-256 | A feature prints as its tag alone, or with its value in quotes, coded for IARI and ICSI |
| Features.EqualsIsClass | native/libimsstack/config/common/Feature.cpp:115-196 | On regular features (none raw, no NUL byte) comparing is equality of classes, hence an equivalence, although one side's flag is read |
| Features.OrderMattersIff | native/libimsstack/config/common/Feature.cpp:115-196 | Comparing parsed features depends on the order exactly for one raw and one coded reference value that differ in case only |
| Features.TransitiveIff | native/libimsstack/config/common/Feature.cpp:115-196 | Two comparisons in a row fail to compose exactly for raw references and for booleans of different length through an absent value |
| Features.EquivalenceIff | native/libimsstack/config/common/Feature.cpp:115-196 | On a set of parsed features comparing is an equivalence if and only if no two of them clash by order and no three around an absent boolean |
| Features.RegularNeverClash | native/libimsstack/config/common/Feature.cpp:115-196 | Features without raw values and NUL bytes never clash |
| Features.RawValueBreaksSymmetry | native/libimsstack/config/common/Feature.cpp:115-196 | Two parsed features that equal each other one way only |
| Features.RawValueBreaksChain | native/libimsstack/config/common/Feature.cpp:115-196 | A raw value, the same value encoded and that in another case: two comparisons hold, the third does not |
| Features.NulBreaksChain | native/libimsstack/config/common/Feature.cpp:115-196 | The same for a TRUE, an absent value and a TRUE that goes on behind a NUL byte |
| Features.BooleansParse | native/libimsstack/config/common/Feature.cpp:317-398 | These three booleans come from parsing |
| FeatureSetModel.RunsAreMultisetsIff | native/libimsstack/config/common/Feature.cpp:544-635 | Of a set of parsed features every run of adds and removes ends with pairwise unequal entries and the count of each feature if and only if no features of the set's tag clash |
| FeatureSetModel.RunOverEquivalence | native/libimsstack/config/common/Feature.cpp:544-635 | Wherever comparing is an equivalence every run keeps the counts, each entry counted at least once |
| FeatureSetModel.RunKeepsOrder | native/libimsstack/config/common/Feature.cpp:721-746 | After any run of any features no entry matches a later one and each is held at least once |
| FeatureSetModel.OrderOfAddsMattersIff | native/libimsstack/config/common/Feature.cpp:721-746 | Adding two features in the one or the other order gives different numbers of entries exactly if they are one raw and one coded value that differ in case only |
| FeatureSetModel.AnswersFollowTheCount | native/libimsstack/config/common/Feature.cpp:560-635 | After any run of features that do not clash, raw ones included, Contains says whether the count is positive and the next operation answers by the count alone |
| FeatureSetModel.StepIsMultiset | native/libimsstack/config/common/Feature.cpp:721-806 | Wherever comparing is an equivalence one operation changes the counts of what its feature equals and no others, and returns the code that fits |
| FeatureSetModel.RemoveUndoesAdd | native/libimsstack/config/common/Feature.cpp:721-806 | Removing what was just added restores the set, order included, for any features |
| FeatureSetModel.RawValueBreaksCounting | native/libimsstack/config/common/Feature.cpp:721-746 | With a raw value the same two features make one entry or two |
| FeatureSets.FeatureSet.Lookup | native/libimsstack/config/common/Feature.cpp:599-619 | Finds the first match and takes it out only if asked for and not shared |
| FeatureSets.FeatureSet.AddObject | native/libimsstack/config/common/Feature.cpp:721-746 | Appends the object with one more reference, or counts the one there up |
| FeatureSets.FeatureSet.AddFeature | native/libimsstack/config/common/Feature.cpp:544-558 | With the temporary reference gone the set is the model's |
| FeatureSets.FeatureSet.Add | native/libimsstack/config/common/Feature.cpp:544-550 | Adds the parsed text |
| FeatureSets.FeatureSet.AddTagValue | native/libimsstack/config/common/Feature.cpp:552-558 | Adds the parsed tag and value |
| FeatureSets.FeatureSet.RemoveFeature | native/libimsstack/config/common/Feature.cpp:776-806 | Counts down a shared object, drops the last reference from the list |
| FeatureSets.FeatureSet.Remove | native/libimsstack/config/common/Feature.cpp:621-627 | Removes the parsed text |
| FeatureSets.FeatureSet.Contains | native/libimsstack/config/common/Feature.cpp:560-574 | Scans for a match |
| FeatureSets.FeatureSet.ContainsValue | native/libimsstack/config/common/Feature.cpp:576-597 | Scans for the value parsed under the set's tag |
| FeatureSets.FeatureSet.ToString | native/libimsstack/config/common/Feature.cpp:637-678 | Prints one feature, or all values under the first tag |
| FeatureSets.FeatureSet.FromServiceIdentifier | native/libimsstack/config/common/Feature.cpp:680-719 | Reads a set back from the name of any identifier, the null name included |
| FeatureSetText.RereadPrinted | native/libimsstack/config/common/Feature.cpp:637-719 | Printing an IARI or ICSI set, parsing it as a service identifier and reading it back gives the same values in the same order, each once, empty and raw ones included, if and only if no two values differ in case only |
| FeatureSetText.RereadRun | native/libimsstack/config/common/Feature.cpp:544-719 | The same for whatever any run of adds and removes of parsed features leaves, and no two values differ in case only whenever none was raw |
| FeatureSetText.CaseIsLost | native/libimsstack/config/common/Feature.cpp:637-719 | Two values that differ in case only are printed and do not both come back |
| FeatureSetText.CasesAreAdded | native/libimsstack/config/common/Feature.cpp:721-746 | Adding a raw value and then the same in another case makes that set |
| FeatureSetText.ParseReference | native/libimsstack/config/common/Feature.cpp:317-398 | Parsing a reference tag with an encoded value gives the feature with that value |
| FeatureSetText.RawParses | native/libimsstack/config/common/Feature.cpp:317-398 | The raw feature of the counterexample comes from parsing |
| FeatureSetText.CodedParses | native/libimsstack/config/common/Feature.cpp:317-398 | So does the coded one |
| FeatureSetText.CodedSameParses | native/libimsstack/config/common/Feature.cpp:317-398 | And so does the middle of the chain that breaks |
| FeatureReparse.ReparseIff | native/libimsstack/config/common/Feature.cpp:225-256 | Printing a parsed feature with a plain value and parsing the text again restores it if and only if its tag is a trimmed text, keeps no dot in front of a base tag and is not IARI or ICSI |
| FeatureReparse.PrefixIsLost | native/libimsstack/config/common/Feature.cpp:225-256 | `sip.sip.audio=x` parses to the tag `sip.audio`, which printing and parsing turn into `audio` |
| FeatureReparse.BooleanReparseIff | native/libimsstack/config/common/Feature.cpp:225-256 | Printing a boolean feature with a stable tag and parsing the text gives an equal feature if and only if its value was absent or TRUE |
| FeatureReparse.ParsePrinted | native/libimsstack/config/common/Feature.cpp:317-398 | The printed text is classified from the trimmed tag and the very same value |
| ServiceIdentifiers.Create | native/libimsstack/config/common/ServiceIdentifier.cpp:153-175 | The name is the first token, a flag is set exactly if a later token spells it |
| ServiceIdentifiers.CheckFeatureFlags | native/libimsstack/config/common/ServiceIdentifier.cpp:177-202 | Accepts exactly texts without flags, or any text if flags are allowed |
| ServiceIdentifiers.ParsePrint | native/libimsstack/config/common/ServiceIdentifier.cpp:133-175 | Printing and parsing again restores the name and both flags |
| ServiceIdentifiers.ParsePrintParse | native/libimsstack/config/common/ServiceIdentifier.cpp:133-175 | Every identifier that parsing makes survives printing and parsing |
| ServiceIdentifiers.PrintIs | native/libimsstack/config/common/ServiceIdentifier.cpp:133-151 | The flags follow the name, require before explicit |
| ImsProperties.StringToKey | native/libimsstack/config/common/ImsProperty.cpp:198-214 | The first key the text spells; none for an empty text |
| ImsProperties.KeyOfName | native/libimsstack/config/common/ImsProperty.cpp:30-45 | Every key is found by its own name |
| ImsProperties.KeysSpelled | native/libimsstack/config/common/ImsProperty.cpp:30-45 | Each key is known by its name, byte by byte up to a NUL |
| ImsProperties.AllFitIff | native/libimsstack/config/common/ImsProperty.cpp:216-270 | The first check accepts exactly registries whose entries start with an empty text or one of the twelve names, six of which may come once only |
| ImsProperties.TrimmedIs | native/libimsstack/config/common/ImsProperty.cpp:216-270 | The check keeps keys and cuts white bytes off both ends of everything else |
| ImsProperties.Decode | native/libimsstack/config/common/ImsProperty.cpp:88-122 | The tokens are the runs of bytes between white space |
| ImsProperties.Encode | native/libimsstack/config/common/ImsProperty.cpp:124-140 | The tokens with one space between them |
| ImsProperties.DecodeEncode | native/libimsstack/config/common/ImsProperty.cpp:88-140 | Encoding non-empty tokens without white space and decoding gives them back |
| ImsProperties.DecodeEncodeDecode | native/libimsstack/config/common/ImsProperty.cpp:88-140 | Encoding decoded tokens and decoding again changes nothing |
| ImsProperties.WordsShape | native/libimsstack/config/common/ImsProperty.cpp:88-122 | Tokens are non-empty, hold no white space, and concatenate to the input without it |
| ImsProperties.CheckDuplicate | native/libimsstack/config/common/ImsProperty.cpp:142-191 | Accepts exactly lists without two alike values |
| ImsProperties.NoDuplicateIff | native/libimsstack/config/common/ImsProperty.cpp:142-191 | Words count as duplicates if they are equal, or equal up to the case of letters |
| ImsProperties.TrimAndCheckProperties | native/libimsstack/config/common/ImsProperty.cpp:216-270 | Accepts exactly registries whose keys are known and repeat only where allowed, and trims them |
| QosProperties.QosProperty.SetQos | native/libimsstack/config/common/QosProperty.cpp:85-125 | Stores seven numbers, or changes nothing and fails |
| QosProperties.ParsePrint | native/libimsstack/config/common/QosProperty.cpp:73-125 | Printing and parsing again restores any seven 32-bit values through the signed temporaries |
| QosProperties.ParsedIsQos | native/libimsstack/config/common/QosProperty.cpp:73-125 | What parses is 32-bit and survives printing and parsing |
| QosProperties.ReadDecimal | native/libimsstack/platform/util/AString.cpp:2440-2487 | Reading a printed 32-bit number gives the number |
| QosProperties.ToUInt32Reads | native/libimsstack/platform/util/AString.cpp:2440-2487 | White bytes, perhaps a plus sign, and digits are read as their decimal number if it fits into 32 bits |
| QosProperties.ToUInt32OnlyNumerals | native/libimsstack/platform/util/AString.cpp:2440-2487 | Nothing else is read, apart from a text that starts with NUL |
| QosProperties.ParseIff | native/libimsstack/config/common/QosProperty.cpp:85-125 | A text is a flow specification exactly if it has seven words and each is a number; each field holds the 32 bits of its word |
| AppConfigOrder.CoreServicePositionsIrrelevant | native/libimsstack/config/common/AppConfig.cpp:810-901 | Registries with the same CoreService entries and the same other entries give the same result and configuration |
| AppConfigOrder.CoreServicesFirst | native/libimsstack/config/common/AppConfig.cpp:810-901 | CoreService entries can all be moved to the front |
| AppConfigValid.CreateSucceedsIff | native/libimsstack/config/common/AppConfig.cpp:810-901 | On a fresh configuration Create succeeds if and only if every entry meets a condition on the entries alone |
| AppConfigValid.CreatedConfig | native/libimsstack/config/common/AppConfig.cpp:233-440 | After success ids are pairwise different ignoring case, lists are those of the last entry of their key and free of duplicates, services have the headers of their Reg entry |
| AppConfigContents.CreatedContents | native/libimsstack/config/common/AppConfig.cpp:810-901 | After success the configuration holds what the registry says: listed stream types, last size, capability fields grouped by key, one service per CoreService entry in order, with id, IARI, ICSIs and feature tags element by element as that entry spells them, and the flows, profile and connection model of the entries that name it |
| AppConfigContents.StreamTypesSet | native/libimsstack/config/common/AppConfig.cpp:271-295 | Every listed type sets its flag, in whatever order |
| AppConfigContents.AddSdpGroups | native/libimsstack/config/common/AppConfig.cpp:202-231 | A field lengthens the list of its key and no other |
| AppConfigContents.AddFieldsGroups | native/libimsstack/config/common/AppConfig.cpp:498-519 | All fields of an entry go to one key, in order |
| AppConfigContents.SharedCapabilityIff | native/libimsstack/config/common/AppConfig.cpp:202-231 | Two Cap entries file their fields together exactly if they spell the same sector and message type or both spell Req_Resp |
| AppConfigContents.SectorsFallTogether | native/libimsstack/config/common/AppConfig.cpp:202-231 | Fields for request and response of two sectors end up in the capability of the first |
| AppConfigContents.StepServices | native/libimsstack/config/common/AppConfig.cpp:568-590 | An entry changes the service it names and no other |
| AppConfigContents.DefinedServices | native/libimsstack/config/common/AppConfig.cpp:524-566 | The first pass makes one service per CoreService entry, in their order |
| AppConfigValid.RelatedEntriesNameServices | native/libimsstack/config/common/AppConfig.cpp:568-590 | After success every Qos, Reg, Mprof and Connection entry names a defined service |
| AppConfigValid.HeadersComeFromOneEntry | native/libimsstack/config/common/CoreServiceConfig.cpp:202-239 | After success a service's headers come from the only Reg entry that names it and each holds a colon |
| AppConfigValid.DefineIff | native/libimsstack/config/common/AppConfig.cpp:524-566 | The first pass accepts exactly the valid CoreService entries and defines exactly their services |
| AppConfigValid.StepIff | native/libimsstack/config/common/AppConfig.cpp:836-888 | The second pass accepts an entry exactly if it is valid and then keeps the description of the configuration |
| AppConfigValid.CapabilityIff | native/libimsstack/config/common/AppConfig.cpp:442-522 | The sectors, message types and line types that a Cap entry may name, spelled out |
| AppConfigs.AppConfig.Create | native/libimsstack/config/common/AppConfig.cpp:810-901 | Result and configuration are the model's, for any registry and any configuration before |
| AppConfigs.AppConfig.DefineAll | native/libimsstack/config/common/AppConfig.cpp:824-834 | The first loop |
| AppConfigs.AppConfig.ApplyEntries | native/libimsstack/config/common/AppConfig.cpp:836-888 | The second loop |
| AppConfigs.AppConfig.ApplyProperty | native/libimsstack/config/common/AppConfig.cpp:844-879 | The dispatch by key |
| AppConfigs.AppConfig.AddStreamMediaProperty | native/libimsstack/config/common/AppConfig.cpp:233-298 | Sets support, then the types up to the first unknown one |
| AppConfigs.AppConfig.SetStreamTypes | native/libimsstack/config/common/AppConfig.cpp:271-295 | The loop over the types |
| AppConfigs.AppConfig.AddFramedMediaProperty | native/libimsstack/config/common/AppConfig.cpp:300-346 | Sets types and size; a bad size empties the types but leaves support set |
| AppConfigs.AppConfig.AddBasicMediaProperty | native/libimsstack/config/common/AppConfig.cpp:348-371 | Sets types and support |
| AppConfigs.AppConfig.AddEventProperty | native/libimsstack/config/common/AppConfig.cpp:373-394 | Sets the packages |
| AppConfigs.AppConfig.AddWriteHeaderProperty | native/libimsstack/config/common/AppConfig.cpp:396-417 | Sets the list for writing and checks the one for reading |
| AppConfigs.AppConfig.AddReadHeaderProperty | native/libimsstack/config/common/AppConfig.cpp:419-440 | Sets the list for reading |
| AppConfigs.AppConfig.AddCapabilityProperty | native/libimsstack/config/common/AppConfig.cpp:442-522 | Checks sector and message type, then adds the fields up to the first illegal one |
| AppConfigs.AppConfig.AddCapabilitySdp | native/libimsstack/config/common/AppConfig.cpp:202-231 | Adds a field to the first capability with the same key, or makes one |
| AppConfigs.AppConfig.AddCoreServiceProperty | native/libimsstack/config/common/AppConfig.cpp:524-566 | Defines a service unless its id is taken or the entry malformed |
| AppConfigs.AppConfig.AddCoreServiceRelatedProperty | native/libimsstack/config/common/AppConfig.cpp:568-590 | Passes the entry on to the service it names and touches no other |
| AppConfigs.AppConfig.GetCoreServiceConfig | native/libimsstack/config/common/AppConfig.cpp:186-200 | The first service with the id ignoring case |
| CoreServiceConfigs.CoreServiceConfig.Create | native/libimsstack/config/common/CoreServiceConfig.cpp:102-168 | Fills a new service from its entry; an IARI with a flag is refused |
| CoreServiceConfigs.CoreServiceConfig.AddProperty | native/libimsstack/config/common/CoreServiceConfig.cpp:337-357 | The dispatch by key on one service |
| CoreServiceConfigs.CoreServiceConfig.AddQosProperty | native/libimsstack/config/common/CoreServiceConfig.cpp:170-200 | Stores the sending flow on both lists |
| CoreServiceConfigs.CoreServiceConfig.AddRegistrationHeaderProperty | native/libimsstack/config/common/CoreServiceConfig.cpp:202-239 | Refuses a second entry, and takes headers up to the first without a colon |
| RegistryLoader.GetRegistryFromContent | native/libimsstack/config/common/ImsRegistryLoader.cpp:357-603 | Accepts exactly complete and consistent contents and appends exactly the declared entries |
| RegistryLoader.AcceptedIsWellFormed | native/libimsstack/config/common/ImsRegistryLoader.cpp:357-603 | What is accepted has max(0, declared) entries per key in the fixed order and passes the first check of a registry |
| RegistryLoader.ToInt32Reads | native/libimsstack/platform/util/AString.cpp:2391-2437 | White bytes, perhaps a sign, and digits are read as their decimal number if it is a signed 32-bit one, and as zero if not |
| RegistryLoader.ToInt32OnlyNumerals | native/libimsstack/platform/util/AString.cpp:2391-2437 | Whatever is not read as zero is such a numeral |
| RegistryLoader.ToInt32Decimal | native/libimsstack/platform/util/AString.cpp:2391-2437 | Printed numbers below 2^31 are read as what they are, behind a minus sign as the negative |
| RegistryLoader.DecimalContentIff | native/libimsstack/config/common/ImsRegistryLoader.cpp:357-603 | A content that declares its counts in decimal is accepted exactly if it is of the application, at least one service and at most one of six kinds are declared, and all sections are there; then it makes exactly as many entries per key |
| RegistryLoader.EntryHolds | native/libimsstack/config/common/ImsRegistryLoader.cpp:93-294 | The elements of an entry are the values of its section under the names listed per kind |
| LoadedConfigs.LoadedServices | native/libimsstack/config/common/CoreServiceConfig.cpp:102-168 | Loader and validator together: a configuration made from an accepted content has one service per CoreService section, in order, with id, IARI, ICSIs and feature tags as that section says |
| LoadedConfigs.LoadedLists | native/libimsstack/config/common/AppConfig.cpp:233-440 | Likewise its lists and stream types are the words of the section of their kind |
| LoadedConfigs.LoadedHeaders | native/libimsstack/config/common/CoreServiceConfig.cpp:202-239 | Likewise a service has the headers of the Reg section that names it |
| RegistryLoader.ValidateUniqueness | native/libimsstack/config/common/ImsRegistryLoader.cpp:296-341 | Single keys at most once, at least one service |
| RegistryLoader.ReadCounts | native/libimsstack/config/common/ImsRegistryLoader.cpp:366-384 | The declared counts, read as ToInt32Reads and ToInt32OnlyNumerals say |
| RegistryLoader.LoadAll | native/libimsstack/config/common/ImsRegistryLoader.cpp:416-598 | The blocks for all keys in order |
| RegistryLoader.LoadKey | native/libimsstack/config/common/ImsRegistryLoader.cpp:476-490 | One block: a missing section stops the loading |
| RegistryLoader.AddProperty | native/libimsstack/config/common/ImsRegistryLoader.cpp:93-294 | The entry a captured section becomes, key by key |
| SortedMaps.AddRefines | native/libimsstack/platform/interface/util/ImsSortedVector.h:281-296 | Adding to the sorted vector is a map update and keeps the order |
| SortedMaps.RemoveRefines | native/libimsstack/platform/interface/util/ImsSortedVector.h:298-330 | Removing a pair removes its key from the map |
| SortedMaps.ToMapHas | native/libimsstack/platform/interface/util/ImsSortedVector.h:210-222 | Finding a key by scanning is finding it in the map |
| JniConnector.LookupsAreLastWrites | native/libimsstack/enabler/JniEnablerConnector.cpp:146-198 | After any run lookups give the values set last and no entry is empty |
| JniConnector.CallsMatchMap | native/libimsstack/enabler/JniEnablerConnector.cpp:89-96 | The calls made tell each JNI enabler exactly as often as it has keys in the entry, and nobody else |
| JniConnector.JniConnection.SetJniEnabler | native/libimsstack/enabler/JniEnablerConnector.cpp:49-77 | Sets, replaces or removes one key and tells the native enabler |
| JniConnector.JniConnection.GetJniEnabler | native/libimsstack/enabler/JniEnablerConnector.cpp:79-87 | Looks one key up |
| JniConnector.JniConnection.SetNativeEnabler | native/libimsstack/enabler/JniEnablerConnector.cpp:89-96 | Sets the native enabler and calls every JNI enabler in key order |
| JniConnector.JniEnablerConnector.SetNativeEnabler | native/libimsstack/enabler/JniEnablerConnector.cpp:146-158 | The table changes in one entry, which disappears when empty; each JNI enabler in it is told exactly once per key |
| JniConnector.JniEnablerConnector.SetJniEnabler | native/libimsstack/enabler/JniEnablerConnector.cpp:160-172 | The table changes in one key of one entry; a native enabler there is told |
| JniConnector.JniEnablerConnector.GetNativeEnabler | native/libimsstack/enabler/JniEnablerConnector.cpp:174-184 | The native enabler in the table |
| JniConnector.JniEnablerConnector.GetJniEnabler | native/libimsstack/enabler/JniEnablerConnector.cpp:186-197 | The JNI enabler in the table |
| JniConnector.JniEnablerConnector.GetConnection | native/libimsstack/enabler/JniEnablerConnector.cpp:199-211 | The position of the connection for a target |
| JniConnector.JniEnablerConnector.CreateConnectionIfNotExist | native/libimsstack/enabler/JniEnablerConnector.cpp:213-225 | Finds the connection or appends an empty one |
| JniConnector.JniEnablerConnector.CheckAndRemoveConnection | native/libimsstack/enabler/JniEnablerConnector.cpp:227-244 | Drops the connection if nothing is left in it |
| EventHolders.TableAndReceiverAgree | native/libimsstack/platform/ServiceEvent.cpp:176-302 | After any run the table holds exactly the listeners added and not removed since, without empty lists or duplicates, and each event is armed exactly if it has a listener and the receiver did not forget that event since its first listener was added or the last re-arming |
| EventHolders.NotificationReachesListeners | native/libimsstack/platform/ServiceEvent.cpp:304-338 | After any run a notification posts once to each non-null listener of the event and to nobody else |
| EventHolders.PostsCount | native/libimsstack/platform/ServiceEvent.cpp:78-87 | One post per non-null listener of a list, with the event's parameters |
| EventHolders.PostsConcat | native/libimsstack/platform/ServiceEvent.cpp:78-87 | Posts are made in the order of the listeners |
| EventHolders.OrderKept | native/libimsstack/platform/ServiceEvent.cpp:176-280 | A new listener comes last, and one that leaves does not change the order of the others |
| EventHolders.EventHolder.AddListener | native/libimsstack/platform/ServiceEvent.cpp:176-240 | Appends a new listener and arms an event with its first one |
| EventHolders.EventHolder.RemoveListener | native/libimsstack/platform/ServiceEvent.cpp:242-280 | Removes a listener and disarms an event with its last one |
| EventHolders.EventHolder.SetUnregisteredEvents | native/libimsstack/platform/ServiceEvent.cpp:282-302 | Arms every event of the table again |
| EventHolders.EventHolder.NotifyEvent | native/libimsstack/platform/ServiceEvent.cpp:304-338 | Posts to the listeners of the event; refused if there is none |

## Left out

- The content written to the persistent store (StoreSubscriberInfo, StorePrimaryPublicUserId) and callbacks on subscriber-info objects: no step of the machine depends on them; the stored identities are an input that may change at any time.
- P-CSCF addresses, credentials, the remaining CP_I parameters of Update and logging: easy members that do not touch the machine.
- Subscriber configurations other than the default one, the ISIM service type, and null listeners.
- A new configuration at the address of a destroyed one: configurations have identities that are not used twice.
- SubscriberTheorems.NoLostRefresh: the condition on attribute updates is sufficient; the exact one, step by step, is RefreshNeverLostIff.
- SubscriberTheorems.NoDanglingStart: the condition is sufficient; the exact one, step by step, is StartNeverLeftOpenIff.
- Pairing each REFRESH_STARTED with one REFRESH_COMPLETED: false of the code, since a queued refresh can complete twice and an update of everything starts and completes on different channels.
- FeatureSet from a tag and a list of values: it appends without looking for duplicates.
- FeatureReparse.ReparseIff: features with a plain value only. Booleans are in BooleanReparseIff; a feature of another kind without a value is read back as a boolean.
- FeatureSetText.RereadPrinted: the raw mark, the reference counts and the spelling of later tags are not restored, since printing loses them.
- The feature sets that a core service derives from its feature tags.
- ServiceIdentifiers.Create: the null string is not accepted, because the code reads a first token that is not there.
- Capabilities of an application and services by id are read by scans not modelled beyond the ones the validator uses; capability objects are values in a list.
- ToRegistry: what it prints is not what Create reads, and no law is claimed.
- The parser of configuration texts into sections: a content is a map of sections.
- JniConnector.JniEnablerConnector.GetConnection: the position stands for the address of the connection.
- Locks, threads, message delivery to listeners after removal, and the destruction of the tables.
- ImsIdentity, SipConfig, MediaConfig, Geolocation and XML reading: formatting, or easier copies of what is here.
