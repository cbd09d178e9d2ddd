# Verification of the governed publication chain

This project models, in Dafny, the in-memory publication chain for Polygon completed-daily
evidence, the delivery store of radar candidates, the replay request codec and the
fingerprints under them, and proves what they promise. `dafny verify dfyconfig.toml` checks
everything. Automatic induction is switched off on every lemma: each proof is the one written.

- **Publication chain.** `PublicationHistory` is one append-only owner with arbitrary clock
  samples, a failure possible at every step and callbacks that write into it;
  `ProvenanceChain` the seven stages from construction to strategy over whole runs,
  `ChainSteps` what each execution adds to them;
  `LockOrder` the eleven history locks over any number of threads; `AsOfHistory` and
  `RetainedMaterial` the as-of answers and the resolution that refuses to hide newer
  history, `SnapshotRecheck` the bridge's recheck of it and `QualificationInputs` both in terms of
  the retained entries; `AdmissionReplay` the prerequisite resolution, `AdmissionOutcomes`
  when it succeeds and how it refuses, and `AdmissionRuns` its replay over interleaved
  publications; `InitialActivation` the one ACTIVE event per artifact version and
  `ActivationOutcomes` when it is committed.
- **Interpretation seal.** `ObjectGraph` and `NativeSupport` capture an arbitrary shared or
  cyclic object graph and compare it later; `CopyIsolation` says what disjoint identity sets
  guarantee about a public copy, and `InterpretationSchema` that Interpretation results are
  laid out so that their check is exact. `InterpretationTransaction` is the transaction and
  the stretches of its code that run without a callback; `TransactionNest` the machine in
  which callbacks between any two stretches prepare, seal, select, enter, leave and change
  whatever they reach, nested to any depth; `TransactionSafety` what holds on all its runs,
  up to the Strategy commit; `TransactionSteps` each of its stretches exactly, and
  `TransactionSelection` what selections return. `AssessmentConsumption` authenticates the complete assessment
  inventory and checks it for aliases, `PreparedInventory` seals it.
- **Canonical forms.** `JsonText` is the JSON writer and scanner. `JsonGrammar` says which text
  denotes which value, from sections 3 to 7 of RFC 8259; `JsonScanner` and `JsonWriter` show
  that the scanner and the writer follow it. `CanonicalCodec` is the stored result text and
  its strict decoder, `PassiveJson`, `RequestCodec` and `RequestShapes` the frozen
  configurations and inline sources of replay requests,
  `Fingerprints` the canonical value and its digest.
- **Arithmetic and dates.** `Binary64` rounds exact values (section 4.3.1 of IEEE 754-2019),
  `Bridge` converts whole material and proves that no row was dropped, `CalendarDates` orders
  YYYY-MM-DD text (section 5.2.2.1 of ISO 8601-1:2019), `Freshness` and
  `MaterialQualification` use that order.
- **Delivery.** `DeliveryStore` publishes without clobbering, with an interruption possible
  between any two steps; `DeliveryRuns` shows what keeps its inventory readable.

`Basics` holds the names that all of these share.

Some claims of the code hold only under a condition, and the model keeps the code as it is.
The second check of a sealed assessment inventory compares the working data with its own
tuple of facts: `ReplacedFactsPass` and `ChangedBackPasses` show what passes when both are
replaced during the seal, `SealedIsCommittedExactly` says exactly when the sealed data is the
committed history. A selection compares the prepared inventory with its own facts too
(`SelectedItemIsCommittedExactly`, `ReplacedTogetherIsSelected`). Construction,
freshness, admission, validity, qualification and bridge never compare a new execution id
with the retained ones: `RepeatedIdHappens` gives two attempts that end
unsound, `RunIsSoundIffIdsNew` says exactly which runs stay sound, and
`FreshIdsKeepRunSound` what fresh ids add. A repeated id is refused by everything that reads
the history later: `RetainedSourceReauthenticates`, `RunReplaysExactly` and
`BridgeAcceptsExactly` carry that condition. Staleness is permanent only once every retained
row precedes the evaluation date, the last day of year 9999 aside
(`StalenessIsPermanentExactly`), and an admission replays to the same fingerprint exactly
while nothing relevant is stamped at or before its cutoff and the histories authenticate (`FingerprintReplaysExactly`, `RunReplaysExactly`,
`StampAtCutoffBreaksReplay`, `RepeatedIdBreaksEveryReplay`). The identity walk of the
Interpretation module skips lists and dictionaries, which on graphs in general isolates
only under a condition (`InterpretationIdsIsolateExactly`, `InterpretationIdsMissSharedList`);
on Interpretation results it is exact (`InterpretationCheckIsExact`).

Assumptions on foreign code are parameters or constructors: SHA-256 is injective; instants are
integers; the New York civil date is an arbitrary function of the instant; `repr` of a float
and reading it back are a `FloatReader`; timestamps in ISO text and upper-casing are `Texts`;
the exact value of a canonical numeric text is a `Reader`; the canonical evaluators of
validation and admission are `Resolver` functions; the link check between delivery records is
a `LinkCheck`. Text stands for bytes: UTF-8 is a bijection on the strings that occur.

## Model

| member | source | states |
|---|---|---|
| NativeSupport.SupportVisitor.Visit | src/market_platform/application/polygon_completed_daily_production_interpretation.py:1331-1430 | The depth-first visit ends on shared and cyclic graphs, adds only objects below the visited value with all their children, and fails only when it can reach an object of foreign layout. |
| NativeSupport.SupportVisitor.Keep | src/market_platform/application/polygon_completed_daily_production_interpretation.py:1331-1430 | One object is recorded once, a price series apart from the other nodes, as it was read. |
| NativeSupport.SupportVisitor.Capture | src/market_platform/application/polygon_completed_daily_production_interpretation.py:1319-1430 | The capture succeeds exactly when every object that the roots reach is a scalar, a price series or of native layout, and then holds exactly the supported objects that the roots reach, once each. |
| NativeSupport.VisitedIsSupport | src/market_platform/application/polygon_completed_daily_production_interpretation.py:1319-1430 | A visited set that holds the roots and the children of its members is the whole reachable support. |
| NativeSupport.SupportIsLeast | src/market_platform/application/polygon_completed_daily_production_interpretation.py:1331-1430 | The support is the least set that holds the roots and, with a record, tuple, list or dictionary, what it refers to, scalars aside. |
| NativeSupport.Compare | src/market_platform/application/polygon_completed_daily_production_interpretation.py:1432-1478 | The second pass accepts exactly when every captured object still has its type, layout, keys, ordered edges or storage. |
| NativeSupport.ComparisonIsExact | src/market_platform/application/polygon_completed_daily_production_interpretation.py:1432-1478 | On any later heap a complete capture is accepted exactly when every supported object still has its type and what that type retains: a record its layout and edges, a tuple or list its edges in order, a dictionary its keys and edges, an enum member its storage, keys and edges, a price series its storage. |
| NativeSupport.AcceptedGraphIsIntact | src/market_platform/application/polygon_completed_daily_production_interpretation.py:1319-1478 | If the comparison accepts, the roots reach the same supported objects as at capture, none added or lost, each with the type, layout, keys, ordered edges and price storage that it had. |
| CopyIsolation.GraphIds | src/market_platform/application/polygon_completed_daily_production_assessment.py:269-283 | The identity walk returns exactly the identities of the tracked objects it can reach. |
| CopyIsolation.RunStaysContained | src/market_platform/application/polygon_completed_daily_production_assessment.py:285-296 | Whatever a caller writes through a public copy, retained objects stay as they were and no writable one becomes known to it. |
| CopyIsolation.IsolationIsExact | src/market_platform/application/polygon_completed_daily_production_assessment.py:285-296 | A public copy can never alter the retained graph exactly when the two share no writable object. |
| CopyIsolation.DisjointIdsIsolate | src/market_platform/application/polygon_completed_daily_production_strategy.py:234-261 | Disjoint identity sets of the Assessment and Strategy walk isolate the copy, shared tuples and scalars notwithstanding. |
| CopyIsolation.InterpretationIdsIsolateExactly | src/market_platform/application/polygon_completed_daily_production_interpretation.py:1168-1191 | On graphs with disjoint Interpretation sets a copy is isolated exactly when the two share no writable object that lies in or below a list or dictionary. |
| InterpretationSchema.TypedHasNoContainer | src/market_platform/application/polygon_completed_daily_production_interpretation.py:1082-1165 | A result laid out as its dataclasses declare reaches no list and no dictionary. |
| InterpretationSchema.InterpretationCheckIsExact | src/market_platform/application/polygon_completed_daily_production_interpretation.py:1180-1191 | On Interpretation results the check accepts a public copy exactly when no run of caller writes can alter the retained result. |
| CopyIsolation.ProjectionUnchanged | src/market_platform/application/polygon_completed_daily_production_assessment.py:285-296 | Unchanged objects give the same retained projection at every depth. |
| CopyIsolation.RetainedProjectionSurvives | src/market_platform/application/polygon_completed_daily_production_assessment.py:269-296 | With disjoint identity sets no run of writes through the public copy changes the retained projection. |
| CopyIsolation.ProjectionsAgreeExactly | src/market_platform/application/polygon_completed_daily_production_assessment.py:269-296 | The projections of a value agree at every depth exactly when every object of its graph is as it was. |
| LockOrder.OperationsAreRankOrdered | src/market_platform/application/polygon_completed_daily_production_strategy.py:426-431 | Every operation of the chain takes its locks in ascending order of one fixed rank. |
| LockOrder.QualifyIsRankOrdered | src/market_platform/application/polygon_completed_daily_production_qualification.py:304-333 | Qualification releases all input locks before task freshness runs, and takes them again in rank order with its own lock last. |
| LockOrder.AdmissionIsRankOrdered | src/market_platform/application/polygon_completed_daily_production_admission.py:1063-1069 | Admission issuance nests its own lock above the three prerequisite locks, twice. |
| LockOrder.OperationsAreDisciplined | src/market_platform/application/polygon_completed_daily_production_assessment.py:557-570 | Flattened into steps, every operation acquires above all it holds, releases last in first out, and ends holding nothing. |
| LockOrder.UnwindIsDisciplined | src/market_platform/application/polygon_completed_daily_production_bridge.py:508-511 | The exit stack releases everything held, in reverse order of entry, wherever the body raises. |
| LockOrder.ReachableIsConsistent | src/market_platform/application/polygon_completed_daily_production_interpretation.py:1646-1648 | In every state that any number of threads reach, no lock has two holders and every thread keeps the discipline. |
| LockOrder.NoWaitCycle | src/market_platform/application/polygon_completed_daily_production_technical.py:480-485 | No reachable state holds a cycle of waits, nor a thread waiting for a lock it holds. |
| LockOrder.SomeThreadAdvances | src/market_platform/application/polygon_completed_daily_production_qualification.py:408-417 | While any operation is under way, some thread can take its next step. |
| LockOrder.OperationsEnd | src/market_platform/application/polygon_completed_daily_production_strategy.py:426-431 | Once no new operation begins, every schedule ends, raises included, with all threads idle and every lock free. |
| LockOrder.SelfWaitNeverEnds | src/market_platform/application/polygon_completed_daily_production_qualification.py:304-333 | On every run of any threads, a program that wants a lock it has taken and not released never gets past it. |
| LockOrder.TaskFreshnessUnderLocksStalls | src/market_platform/application/polygon_completed_daily_production_qualification.py:304-333 | Task freshness run inside the input locks would never end, whatever the other threads do. |
| LockOrder.AlteredIsNotOrdered | src/market_platform/application/polygon_completed_daily_production_qualification.py:304-333 | That order of locks breaks the ascending rank. |
| LockOrder.StrategyHoldsEveryLock | src/market_platform/application/polygon_completed_daily_production_strategy.py:426-431 | A Strategy operation runs its critical section with all eleven locks, taken in rank order. |
| LockOrder.SectionsExactly | src/market_platform/application/polygon_completed_daily_production_strategy.py:426-431 | Carried out instruction by instruction, each kind of operation holds exactly the listed locks at each piece of its work. |
| LockOrder.WaitsExactly | src/market_platform/application/polygon_completed_daily_production_qualification.py:408-417 | A thread that wants a lock cannot go on exactly when some thread holds it. |
| PublicationHistory.ValidateOccurrences | src/market_platform/application/polygon_completed_daily_production_technical.py:378-398 | The one-pass validator accepts exactly the histories numbered 1..n with next sequence n+1, one namespace, distinct ids and non-decreasing availability. |
| PublicationHistory.ValidateRetained | src/market_platform/application/polygon_completed_daily_production_construction.py:691-724 | The validator with running sets accepts exactly the histories of one namespace with increasing sequences, distinct ids and non-decreasing availability. |
| PublicationHistory.ValidateRecords | src/market_platform/application/polygon_completed_daily_production_freshness.py:1411-1435 | The dictionary of records accepts exactly the histories in which no record identity stands for two contents. |
| PublicationHistory.ValidatorsAgree | src/market_platform/application/polygon_completed_daily_production_admission.py:1802-1814 | With the completeness check the two validator families accept the same histories. |
| PublicationHistory.Publisher.constructor | src/market_platform/application/polygon_completed_daily_production_interpretation.py:1194-1204 | A new owner holds an empty history, no pending entry, and a commitment equal to its state. |
| PublicationHistory.Publisher.Publish | src/market_platform/application/polygon_completed_daily_production_interpretation.py:2500-2582 | For any clock samples, a failure at any step and any callback that writes state, commitment or pending while an entry is staged: a commit appends one entry with the attempt's own id, clocks and content under the next sequence to the state that was validated, exactly when the checks of the owner pass, and a refusal publishes nothing; pending is cleared, and without callbacks the commitment equals the state. |
| PublicationHistory.AppendsExactly | src/market_platform/application/polygon_completed_daily_production_technical.py:570-655 | One attempt appends one entry with its own id, clocks and content under the next number exactly when the history is in order, the clocks advance past every retained availability, nothing raises and, where ids are compared, its own is new; otherwise nothing changes. |
| PublicationHistory.StagedExactly | src/market_platform/application/polygon_completed_daily_production_freshness.py:705-730 | The staged entry is the one to be published, its availability that of the completion, and for the retaining owners the least instant not before the completion nor before any retained availability. |
| PublicationHistory.AppendKeepsSound | src/market_platform/application/polygon_completed_daily_production_technical.py:570-655 | A publication keeps numbering and availability order, and keeps ids distinct exactly when its own id is new. |
| PublicationHistory.PinnedRunStaysSound | src/market_platform/application/polygon_completed_daily_production_technical.py:570-655 | Technical, interpretation, assessment and strategy histories are sound after every run and only grow. |
| PublicationHistory.CorruptHistoryIsFrozen | src/market_platform/application/polygon_completed_daily_production_admission.py:840-961 | An owner whose history became corrupt refuses every later publication. |
| PublicationHistory.RunIsSoundIffIdsNew | src/market_platform/application/polygon_completed_daily_production_construction.py:419-504 | A run ends sound exactly when no attempt published an id that was retained at that moment. |
| PublicationHistory.RunIsSoundIffIdsDistinct | src/market_platform/application/polygon_completed_daily_production_construction.py:419-504 | Owners that do not compare ids keep numbering and availability order on every run; only the newest entry can repeat an id. |
| PublicationHistory.RepeatedIdEndsUnsound | src/market_platform/application/polygon_completed_daily_production_construction.py:419-504 | Two attempts with one id are both retained by such an owner, which then refuses everything. |
| PublicationHistory.FreshIdsKeepRunSound | src/market_platform/application/polygon_completed_daily_production_admission.py:1790-1791 | With fresh execution ids those owners behave as the ones that compare ids. |
| ProvenanceChain.MatchingIsRetained | src/market_platform/application/polygon_completed_daily_production_technical.py:487-500 | The source comprehension returns the retained occurrences that the request names and that are available in time, once per position and in their order. |
| ProvenanceChain.SourceIsRetained | src/market_platform/application/polygon_completed_daily_production_bridge.py:547-570 | Whatever resolves is the retained occurrence at its own sequence, named by the request and available in time. |
| ProvenanceChain.ReachableIsConsistent | src/market_platform/application/polygon_completed_daily_production_assessment.py:1627-1631 | In every reachable state every occurrence is linked to a retained source that was available in time, and the histories that compare ids have distinct ones. |
| ProvenanceChain.LineageIsClosed | src/market_platform/application/polygon_completed_daily_production_interpretation.py:2427-2439 | Following the named sequences upstream reaches exactly one retained occurrence per stage, with non-decreasing availability towards the start. |
| ProvenanceChain.StrategyProvenance | src/market_platform/application/polygon_completed_daily_production_strategy.py:778-804 | Every committed Strategy resolves to exactly one Assessment, Interpretation, Technical, Bridge, Qualification and Construction occurrence, availability never decreasing towards it. |
| ProvenanceChain.LineageIsStable | src/market_platform/application/polygon_completed_daily_production_assessment.py:465-510 | Later publications never change a retained lineage. |
| ProvenanceChain.EqualFingerprintsShareProvenance | src/market_platform/application/polygon_completed_daily_production_strategy.py:124-130 | Equal Strategy fingerprints mean equal provenance down to the construction. |
| ProvenanceChain.ResolvesExactly | src/market_platform/application/polygon_completed_daily_production_technical.py:487-526 | A retained occurrence that a request names in time resolves, with its whole chain of sources, exactly when no history above the consumer repeats an execution id; otherwise nothing resolves. |
| ProvenanceChain.RetainedSourceReauthenticates | src/market_platform/application/polygon_completed_daily_production_technical.py:474-526 | Every later use of an occurrence resolves its recorded source again, and the sources above it, exactly when no history above it has retained an id twice. |
| ProvenanceChain.QualificationReauthenticatesExactly | src/market_platform/application/polygon_completed_daily_production_qualification.py:419-440 | At any cutoff from its source on a qualification finds its construction again exactly when no construction id is repeated, of whatever artifact or time. |
| ProvenanceChain.RepeatedIdStopsTheChain | src/market_platform/application/polygon_completed_daily_production_bridge.py:500-513 | Once a stage has retained an id twice, that stage and all below it never commit again. |
| ChainSteps.ConstructionPerformsExactly | src/market_platform/application/polygon_completed_daily_production_construction.py:419-504 | A construction execution extends its history by its own occurrence exactly when its clocks advance past the last availability and its history has distinct ids; otherwise the chain is unchanged. |
| ChainSteps.StagePerformsExactly | src/market_platform/application/polygon_completed_daily_production_strategy.py:719-1024 | Every other execution whose request names a retained, timely source appends one occurrence, with its own id, namespace, clocks and content, the next sequence and that source, exactly when its clocks advance, its id is new where ids are compared, and neither its own nor any upstream history repeats an id; otherwise the chain is unchanged. |
| ChainSteps.UnnamedPerformsNothing | src/market_platform/application/polygon_completed_daily_production_technical.py:487-526 | An execution whose request names no retained, timely source changes nothing. |
| ChainSteps.EveryStageCommits | src/market_platform/application/polygon_completed_daily_production_strategy.py:1022-1024 | Seven executions, one a stage, each asking for what the one before retained, leave one occurrence in every history. |
| InterpretationTransaction.Transaction.constructor | src/market_platform/application/polygon_completed_daily_production_interpretation.py:1870-1892 | A transaction starts active, with the anchors and native support of its entry and nothing prepared. |
| InterpretationTransaction.Transaction.Shutdown | src/market_platform/application/polygon_completed_daily_production_interpretation.py:2012-2021 | A raised preparation or seal leaves the transaction closed and inactive. |
| InterpretationTransaction.Transaction.Exit | src/market_platform/application/polygon_completed_daily_production_interpretation.py:1907-1916 | Leaving the context clears what was prepared and expected and closes the phase. |
| InterpretationTransaction.Transaction.BeginPreparation | src/market_platform/application/polygon_completed_daily_production_interpretation.py:1918-1960 | Preparation begins exactly within the lifetime of an active transaction whose anchors hold; otherwise it closes. |
| InterpretationTransaction.Transaction.FirstPass | src/market_platform/application/polygon_completed_daily_production_interpretation.py:1961-1969 | The first pass authenticates every entry at its own moment and finds exactly what stood there. |
| InterpretationTransaction.Transaction.ConfirmSupport | src/market_platform/application/polygon_completed_daily_production_interpretation.py:2052-2063 | A later pass accepts exactly when every entry, each read at its own moment, repeats the first pass. |
| InterpretationTransaction.Transaction.Finish | src/market_platform/application/polygon_completed_daily_production_interpretation.py:2064-2072 | A confirming pass ends in the next phase exactly when retention, lifetime, all eleven locks, the native graph and the anchors agree; otherwise the transaction closes. |
| TransactionNest.StepFits | src/market_platform/application/polygon_completed_daily_production_interpretation.py:1781-2156 | Every stretch of code and every callback, at any nesting, keeps the invariant that ties phase, passes and calls under way together. |
| TransactionNest.RunFits | src/market_platform/application/polygon_completed_daily_production_interpretation.py:1781-2156 | It holds after every run. |
| TransactionSteps.EntersExactly | src/market_platform/application/polygon_completed_daily_production_interpretation.py:1762-1906 | Entering activates exactly an unused witness of the thread that owns its eleven held locks, over a complete capture and held roots; any other entry spends the witness. |
| TransactionSteps.ExitsExactly | src/market_platform/application/polygon_completed_daily_production_interpretation.py:1907-1916 | Leaving clears the transaction and spends the witness of an activation. |
| TransactionSteps.PreparationBeginsExactly | src/market_platform/application/polygon_completed_daily_production_interpretation.py:1923-1957 | A preparation begins exactly when the transaction is open and active within its lifetime, nothing is prepared and every authority field holds; otherwise the transaction closes. |
| TransactionSteps.EntryReadExactly | src/market_platform/application/polygon_completed_daily_production_interpretation.py:1961-1963 | The first pass takes what stands for its next entry, or raises. |
| TransactionSteps.FirstPassEndsExactly | src/market_platform/application/polygon_completed_daily_production_interpretation.py:1964-1977 | A complete first pass becomes the expectation, and a new inventory is built from the committed facts and what it found. |
| TransactionSteps.BindingExactly | src/market_platform/application/polygon_completed_daily_production_interpretation.py:1978-2054 | The inventory is bound and the confirming pass begins exactly when the inventory still is as built and the lifetime holds. |
| TransactionSteps.SealBeginsExactly | src/market_platform/application/polygon_completed_daily_production_interpretation.py:2080-2113 | A seal begins exactly when the transaction is open and prepared within its lifetime, with this inventory, and every authority field holds; otherwise the transaction closes. |
| TransactionSteps.SealRecheckExactly | src/market_platform/application/polygon_completed_daily_production_interpretation.py:2115-2123 | The confirming pass of a seal begins exactly when the inventory still is as built and the lifetime holds. |
| TransactionSteps.EntryConfirmedExactly | src/market_platform/application/polygon_completed_daily_production_interpretation.py:2055-2066 | A confirming pass goes on exactly when its next entry stands as the first pass found it. |
| TransactionSteps.PassEndsExactly | src/market_platform/application/polygon_completed_daily_production_interpretation.py:2067-2156 | A confirming pass ends in the next phase exactly when retention, lifetime, the native graph and every authority field hold, and for a seal of the execution whose Strategy roots hold with the commit of its fact; otherwise everything closes. |
| TransactionSteps.ExecutionCallsExactly | src/market_platform/application/polygon_completed_daily_production_strategy.py:778-960 | The execution prepares when entered and seals what it works with; a refusal of its own call clears the transaction and spends the witness. |
| TransactionSteps.FailsExactly | src/market_platform/application/polygon_completed_daily_production_interpretation.py:2012-2021 | Whatever raises inside a preparation or seal closes the transaction, and ends the execution that called it. |
| TransactionSteps.SelectionBeginsExactly | src/market_platform/application/polygon_completed_daily_production_interpretation.py:1562-1571 | A selection begins exactly when the transaction is open and prepared, with this inventory. |
| TransactionSteps.SelectsExactly | src/market_platform/application/polygon_completed_daily_production_interpretation.py:1572-1594 | A selection returns the one item of the selector exactly from an inventory that agrees with its own facts while the transaction is open and prepared. |
| InterpretationTransaction.CommittedIsRebuilt | src/market_platform/application/polygon_completed_daily_production_interpretation.py:1525-1569 | The recheck against the committed facts passes only the inventory as preparation built it. |
| InterpretationTransaction.ReplacedTogetherIsSelected | src/market_platform/application/polygon_completed_daily_production_interpretation.py:1572-1594 | Items and facts replaced together pass the check of a selection, whatever they are. |
| TransactionSafety.PhasesOnlyAdvance | src/market_platform/application/polygon_completed_daily_production_interpretation.py:1255-1287 | On every run, callbacks nested to any depth, phases only advance, captured anchors stay as they were, and a spent witness stays spent. |
| TransactionSafety.WitnessIsOneShot | src/market_platform/application/polygon_completed_daily_production_interpretation.py:1789-1797 | A witness in use or spent never activates another transaction. |
| TransactionSafety.IntrusionIsFatal | src/market_platform/application/polygon_completed_daily_production_interpretation.py:1481-1506 | A callback that prepares or seals out of turn, enters with the same witness or leaves the context ends the transaction: no later run selects, commits or reaches another phase than closed. |
| TransactionSafety.ReentryIntrudes | src/market_platform/application/polygon_completed_daily_production_interpretation.py:1923-2156 | While a preparation or seal is under way, a further one is such an intrusion. |
| TransactionSafety.ReachedMeansUndisturbed | src/market_platform/application/polygon_completed_daily_production_interpretation.py:1923-2156 | Whatever becomes prepared, sealed or committed was open with an unspent witness at every earlier moment. |
| TransactionSafety.SealedMeansThreeAgreeingPasses | src/market_platform/application/polygon_completed_daily_production_interpretation.py:2074-2156 | Sealed, on any run, means three complete support passes that found the same sources, facts and retention, callbacks between all their readings. |
| TransactionSafety.OneInventoryPerTransaction | src/market_platform/application/polygon_completed_daily_production_interpretation.py:1562-1594 | All inventories selected on a run are one object, the prepared one. |
| TransactionSafety.SelectedItemIsCommittedExactly | src/market_platform/application/polygon_completed_daily_production_interpretation.py:1572-1594 | A selection returns an item with the requested selector; it is a committed interpretation exactly when the fact stored at that position of the inventory is, and with the facts of the transaction in place it is the only committed one of that selector. |
| TransactionSafety.BoundaryIsIntact | src/market_platform/application/polygon_completed_daily_production_interpretation.py:2064-2156 | At the moment a transaction becomes prepared or sealed, every object that its roots reach, price storage included, every authority field and all eleven locks are as at entry. |
| TransactionSafety.CommitNeedsEverything | src/market_platform/application/polygon_completed_daily_production_strategy.py:941-1024 | A commit appends one fact in the stretch that sealed: three passes agree, the whole graph with its price storage, anchors and Strategy roots are intact, all eleven locks are held. |
| TransactionSafety.CommitsAtMostOnce | src/market_platform/application/polygon_completed_daily_production_strategy.py:1022-1024 | One execution commits at most once, whatever runs inside it. |
| TransactionSafety.UndisturbedExecutionCommits | src/market_platform/application/polygon_completed_daily_production_strategy.py:719-1024 | An execution whose callbacks leave everything as it is does commit its fact. |
| TransactionSelection.SelectionReturnsTheFact | src/market_platform/application/polygon_completed_daily_production_interpretation.py:1572-1594 | In a prepared transaction within its lifetime, whose inventory is as built from the committed facts, selecting by the selector of any fact, at whatever position, returns that fact and changes nothing else. |
| TransactionSelection.SelectionFindsNothing | src/market_platform/application/polygon_completed_daily_production_interpretation.py:1572-1594 | A selector that no fact carries, or that two carry, selects nothing and changes nothing. |
| TransactionSelection.UndisturbedExecutionSelects | src/market_platform/application/polygon_completed_daily_production_strategy.py:719-1024 | An undisturbed execution selects exactly the committed facts that it asks for, in that order, and then commits. |
| AssessmentConsumption.Authenticate | src/market_platform/application/polygon_completed_daily_production_interpretation.py:2157-2262 | The publisher finds exactly the committed occurrence with the requested selectors, at its own sequence. |
| AssessmentConsumption.CheckAliases | src/market_platform/application/polygon_completed_daily_production_assessment.py:706-719 | One growing identity set finds an alias between any two of the rebuilt results. |
| AssessmentConsumption.DisjointResultsAreIsolated | src/market_platform/application/polygon_completed_daily_production_assessment.py:706-719 | Results that pass cannot be altered through each other, in either direction. |
| AssessmentConsumption.ResolveSources | src/market_platform/application/polygon_completed_daily_production_assessment.py:654-669 | The first pass succeeds exactly when authority holds after each answer and every source is committed and corresponds. |
| AssessmentConsumption.SealSources | src/market_platform/application/polygon_completed_daily_production_assessment.py:739-761 | The second authentication succeeds exactly when every source is found again as the same occurrence. |
| AssessmentConsumption.Consume | src/market_platform/application/polygon_completed_daily_production_assessment.py:629-795 | Consumption succeeds exactly when the inventory is sound and resolves, the expected pairs carry its facts and encode to them, every pair still encodes to its facts when it is walked, the walked graphs are disjoint and all seals again; the results are then pairwise isolated. |
| AssessmentConsumption.FactFixesEntry | src/market_platform/application/polygon_completed_daily_production_assessment.py:661-667 | A value that encodes to a committed fact is the committed entry at its own sequence. |
| AssessmentConsumption.ConsumedPairsAreCommitted | src/market_platform/application/polygon_completed_daily_production_assessment.py:629-795 | Whatever the publisher or a callback answers, the pairs that come out are those of the two commitments. |
| AssessmentConsumption.RereadPairsAreCommitted | src/market_platform/application/polygon_completed_daily_production_assessment.py:670-716 | The pairs as they are walked pass exactly when they still are the committed ones, and so do the pairs that a revalidation expects. |
| AssessmentConsumption.HonestAnswersResolveExactly | src/market_platform/application/polygon_completed_daily_production_assessment.py:608-628 | With the original publisher, and results nobody writes into, the inventory resolves exactly when every source is committed, and then passes the walk and seals. |
| AssessmentConsumption.ConsumesExactly | src/market_platform/application/polygon_completed_daily_production_assessment.py:629-795 | With the original publisher and no interference, consumption succeeds exactly when every committed assessment names a committed interpretation, field by field, available at its start, the rebuilt results share nothing and a requested assessment is committed. |
| AssessmentConsumption.ConsumedPairsExactly | src/market_platform/application/polygon_completed_daily_production_assessment.py:654-669 | Each pair is then an assessment with the interpretation that it names, and their encodings. |
| AssessmentConsumption.ChosenExactly | src/market_platform/application/polygon_completed_daily_production_assessment.py:670-700 | Without a request all pairs are chosen, in order, and with one those whose assessment it names, field by field. |
| AssessmentConsumption.NamedIsCommitted | src/market_platform/application/polygon_completed_daily_production_assessment.py:440-462 | A named assessment is found exactly when it is committed, and never twice. |
| AssessmentConsumption.InventoryOnlyGrows | src/market_platform/application/polygon_completed_daily_production_assessment.py:812-818 | Later publications leave the earlier pairs as they were. |
| PreparedInventory.CheckFacts | src/market_platform/application/polygon_completed_daily_production_assessment.py:387-430 | The canonical recheck accepts exactly the working data that agrees with its own facts and selectors. |
| PreparedInventory.IntactExactly | src/market_platform/application/polygon_completed_daily_production_assessment.py:387-430 | Field by field, one position agrees: positive sequences, both facts as encoded, the source and the selector of the assessment. |
| PreparedInventory.SealPrepared | src/market_platform/application/polygon_completed_daily_production_assessment.py:874-1014 | The seal succeeds exactly when every reading it makes, callbacks between them, agrees with the commitments, and the upstream transaction, after any run of its own, is sealed; that run then made three agreeing passes. |
| PreparedInventory.FirstIsCommitted | src/market_platform/application/polygon_completed_daily_production_assessment.py:887-933 | What the first complete check saw is the committed inventory, paired by source, if its facts were still there when compared. |
| PreparedInventory.SealedIsCommittedExactly | src/market_platform/application/polygon_completed_daily_production_assessment.py:874-1014 | Whatever callbacks changed or changed back before or during the seal: what it leaves is the committed inventory exactly when the facts that its second complete check read are committed, all of them, and its pairs correspond then. |
| PreparedInventory.KeptFactsAreCommittedExactly | src/market_platform/application/polygon_completed_daily_production_assessment.py:904-950 | If the facts of the first complete check were still there when the commitment was compared, the seal leaves the committed inventory exactly when they are there at the second check too. |
| PreparedInventory.BoundAreCommitted | src/market_platform/application/polygon_completed_daily_production_assessment.py:908-940 | Every interpretation that the seal selected is the committed one that the requested source selector names. |
| PreparedInventory.BindsExactly | src/market_platform/application/polygon_completed_daily_production_assessment.py:908-940 | A position binds exactly when the selected interpretation is the requested occurrence, field by field, and encodes to the fact that is committed at the sequence of the own interpretation of the pair. |
| PreparedInventory.UndisturbedSeals | src/market_platform/application/polygon_completed_daily_production_assessment.py:874-1014 | If every reading finds the working data as preparation left it, the seal succeeds exactly when the upstream transaction is sealed. |
| PreparedInventory.SealFixesInventory | src/market_platform/application/polygon_completed_daily_production_assessment.py:874-1014 | Two inventories whose facts stay from the first check over the comparison to the second, and that seal against the same commitments, are the same. |
| PreparedInventory.ReplacedFactsPass | src/market_platform/application/polygon_completed_daily_production_assessment.py:947-960 | Facts and pairs replaced together after the comparison with the commitment pass the second check. |
| PreparedInventory.ChangedBackPasses | src/market_platform/application/polygon_completed_daily_production_assessment.py:903-960 | An uncommitted pair that is there at both complete checks passes as well, if the committed facts stand in only for the comparison. |
| JsonText.SortedKeysAscend | src/market_platform/application/polygon_completed_daily_production_interpretation.py:1056-1065 | Members are written in strictly ascending key order, so in one order only. |
| JsonWriter.OrderIsByCodePoint | src/market_platform/application/polygon_completed_daily_production_interpretation.py:1056-1065 | Keys are ordered by the first code point in which they differ, a prefix first. |
| JsonWriter.EncodedIsSpelled | src/market_platform/application/polygon_completed_daily_production_interpretation.py:1056-1065 | What is written for a readable tree is the compact spelling, by the grammar of RFC 8259, of a text that denotes the tree. |
| JsonWriter.EncodesExactly | src/market_platform/application/polygon_completed_daily_production_interpretation.py:1056-1065 | A text is what is written for a readable tree exactly when it is such a spelling. |
| JsonScanner.ConsumedIsDenoted | src/market_platform/application/polygon_completed_daily_production_interpretation.py:1073-1080 | Whatever value the scanner yields is what the text that it consumed denotes: literal names, digits by place value, escapes by code unit, members by key. |
| JsonScanner.SpelledIsRead | src/market_platform/application/polygon_completed_daily_production_interpretation.py:1073-1080 | Every text of the grammar is scanned as what it denotes, whatever delimiter follows. |
| JsonScanner.LoadsExactly | src/market_platform/application/polygon_completed_daily_production_interpretation.py:1073-1080 | A text is loaded as a value exactly when it is a JSON text that denotes that value. |
| CanonicalCodec.ParseEncoded | src/market_platform/application/polygon_completed_daily_production_interpretation.py:1073-1080 | Scanning the encoding of any readable tree gives that tree and leaves the rest, if that cannot go on with a number. |
| CanonicalCodec.DecodeEncode | src/market_platform/application/polygon_completed_daily_production_interpretation.py:1067-1080 | Decoding an encoded projection gives it back. |
| CanonicalCodec.DecoderAcceptsExactlyCanonical | src/market_platform/application/polygon_completed_daily_production_assessment.py:177-200 | The decoder accepts a text exactly when it is the encoding of an accepted dictionary. |
| CanonicalCodec.DecodesExactly | src/market_platform/application/polygon_completed_daily_production_interpretation.py:1067-1080 | Without mentioning the encoder: a stored text is decoded as a dictionary exactly when it is the compact JSON text that denotes it and all its floats are canonical. |
| CanonicalCodec.ChecksExactly | src/market_platform/application/polygon_completed_daily_production_interpretation.py:1037-1054 | The scalar check passes exactly when every float at any depth is canonical and none is the negative zero. |
| CanonicalCodec.EncodeIsInjective | src/market_platform/application/polygon_completed_daily_production_strategy.py:147-189 | Equal text means equal content. |
| CanonicalCodec.CheckedIsReadable | src/market_platform/application/polygon_completed_daily_production_interpretation.py:1037-1054 | Every tree that passes the scalar check can be read back. |
| Binary64.RangeCheckSuffices | src/market_platform/application/polygon_completed_daily_production_bridge.py:116-123 | A value that passed the range check converts to a finite positive normal value, so the later rejection can never fire. |
| Binary64.RelativeError | src/market_platform/application/polygon_completed_daily_production_bridge.py:119-121 | The result is positive and within a relative error of 2^-53. |
| Binary64.EncodeIsNearest | src/market_platform/application/polygon_completed_daily_production_bridge.py:119-121 | No finite binary64 value is closer, and of two equally close ones the even one is taken. |
| Binary64.EncodeIsMonotone | src/market_platform/application/polygon_completed_daily_production_bridge.py:119-121 | Conversion keeps the order of values. |
| Binary64.OrderMatchesValue | src/market_platform/application/polygon_completed_daily_production_bridge.py:103-107 | The order of positive encodings read as integers is the order of their values. |
| Binary64.NormalValue | src/market_platform/application/polygon_completed_daily_production_bridge.py:49-50 | A normal encoding is an implicit one and 52 bits of fraction, scaled by the exponent field less 1023. |
| Binary64.SubnormalValue | src/market_platform/application/polygon_completed_daily_production_bridge.py:49-50 | With exponent field zero there is no implicit one, and a zero fraction is zero. |
| Binary64.RangeExactly | src/market_platform/application/polygon_completed_daily_production_bridge.py:49-50 | The accepted range is from the encoding with field 1 and fraction 0 to that with field 2046 and all fraction bits set, ends included. |
| Binary64.EveryNormalIsExact | src/market_platform/application/polygon_completed_daily_production_bridge.py:116-123 | The value of every positive normal encoding is in range and converts to that encoding. |
| Bridge.ConvertsExactly | src/market_platform/application/polygon_completed_daily_production_bridge.py:110-128 | A text converts exactly when its value is a zero volume or in the normal range, and to the correctly rounded value, zero as positive zero. |
| Bridge.EveryDoubleConverts | src/market_platform/application/polygon_completed_daily_production_bridge.py:110-128 | Every text whose exact value is that of a positive normal encoding converts to that encoding, in all five fields. |
| Bridge.AcceptsExactly | src/market_platform/application/polygon_completed_daily_production_bridge.py:110-128 | A text converts to something nonzero exactly when its value lies between the least normal and the greatest finite value, and to positive zero exactly when it is a zero volume. |
| Bridge.ConvertedIsFinite | src/market_platform/application/polygon_completed_daily_production_bridge.py:110-128 | A converted number is finite, and a zero is positive. |
| Bridge.ConversionKeepsOrder | src/market_platform/application/polygon_completed_daily_production_bridge.py:110-128 | Source order survives conversion across the five fields. |
| Bridge.DateRangeIsExact | src/market_platform/application/polygon_completed_daily_production_bridge.py:131-137 | The accepted session dates are exactly those whose midnight a 64-bit count of nanoseconds can hold. |
| Bridge.ConvertMaterial | src/market_platform/application/polygon_completed_daily_production_bridge.py:140-151 | Either every row converts, in order, or there is no result. |
| Bridge.RowConvertsExactly | src/market_platform/application/polygon_completed_daily_production_bridge.py:140-151 | A row converts exactly when its day fits and its open, high, low, close and volume texts, in that order, are in range, a volume possibly zero. |
| Bridge.ConvertedRowHolds | src/market_platform/application/polygon_completed_daily_production_bridge.py:140-151 | A converted row holds the source texts, the midnight of its day in nanoseconds and five numbers, each the conversion of its own text. |
| Bridge.Prove | src/market_platform/application/polygon_completed_daily_production_bridge.py:225-329 | The proof succeeds exactly when the counts agree and every ordinal of public rows and storage matches and the row dates are the recorded ones, and records each ordinal's source and bits. |
| Bridge.RowComparedExactly | src/market_platform/application/polygon_completed_daily_production_bridge.py:260-329 | The comparison of one ordinal, field by field: whatever was altered in the expected row, the target or the storage is noticed. |
| Bridge.NoDropExactly | src/market_platform/application/polygon_completed_daily_production_bridge.py:225-329 | After conversion, the bridge succeeds exactly when there are as many target rows as source rows each ordinal holds the conversion of its source row bit for bit, and the recorded row dates are those of the source. |
| Bridge.StoredBarsKeepOrder | src/market_platform/application/polygon_completed_daily_production_bridge.py:498-535 | A bar whose source low is at most its high keeps that order in storage. |
| CalendarDates.OrdinalOrder | src/market_platform/application/polygon_completed_daily_production_freshness.py:1529-1538 | Day numbers order and identify valid dates exactly as year, month and day do. |
| CalendarDates.ParseFormats | src/market_platform/application/polygon_completed_daily_production_freshness.py:1529-1538 | Parsing the text of a date gives the date back. |
| CalendarDates.FormatParses | src/market_platform/application/polygon_completed_daily_production_freshness.py:1529-1538 | Every accepted label is the one text of its date. |
| CalendarDates.TextOrderIsDayOrder | src/market_platform/application/polygon_completed_daily_production_qualification.py:710-730 | Comparing YYYY-MM-DD labels is comparing days, for years 1 to 9999. |
| CalendarDates.NextDay | src/market_platform/application/polygon_completed_daily_production_freshness.py:1153-1155 | The day after a date is a valid date whose day number is one more. |
| CalendarDates.ValidExactly | src/market_platform/application/polygon_completed_daily_production_freshness.py:1529-1538 | A date is valid exactly within years 1 to 9999 and the twelve Gregorian month lengths. |
| CalendarDates.FirstOfAll | src/market_platform/application/polygon_completed_daily_production_freshness.py:1153-1155 | 1 January of year 1 is day 1, which with the next day fixes every day number. |
| CalendarDates.IsoTextExactly | src/market_platform/application/polygon_completed_daily_production_freshness.py:1529-1538 | The ten characters of a label are the digits of year, month and day, place by place. |
| Freshness.DeriveSupport | src/market_platform/application/polygon_completed_daily_production_freshness.py:1130-1178 | The derivation succeeds exactly on readable, strictly increasing labels with the right count, and gives the support of those dates. |
| Freshness.EligibleIsPrefix | src/market_platform/application/polygon_completed_daily_production_freshness.py:1153-1155 | The rows before the evaluation date are exactly the first ones. |
| Freshness.FreshExactly | src/market_platform/application/polygon_completed_daily_production_freshness.py:1155-1168 | The outcome is FRESH exactly when some retained date is one to four days before the evaluation date. |
| Freshness.DerivesExactly | src/market_platform/application/polygon_completed_daily_production_freshness.py:1145-1178 | In plain numbers, what is derived: counts, first, latest and latest eligible date, lag, FRESH for a lag of at most four days, and the result. |
| Freshness.FieldsExactly | src/market_platform/application/polygon_completed_daily_production_freshness.py:1327-1395 | In plain numbers, what the field validator accepts. |
| Freshness.DerivedSupportIsValid | src/market_platform/application/polygon_completed_daily_production_freshness.py:1327-1395 | Every derived support passes the independent field validator. |
| Freshness.ValidatorFixesOutcome | src/market_platform/application/polygon_completed_daily_production_freshness.py:1383-1395 | The validator leaves one lag, outcome and result for given dates. |
| Freshness.ValidFieldsMatchDerivation | src/market_platform/application/polygon_completed_daily_production_freshness.py:1234-1291 | Fields that pass for a material, with its counts and its first and latest eligible dates, are the derived ones. |
| Freshness.StalenessIsPermanentExactly | src/market_platform/application/polygon_completed_daily_production_freshness.py:1153-1168 | A result that is not fresh stays so on every later date exactly when every row precedes the evaluation date or lies on the last day of year 9999. |
| MaterialQualification.CheckCoverage | src/market_platform/application/polygon_completed_daily_production_qualification.py:712-723 | The row check passes exactly when every row has one covering mapping, the selected one. |
| MaterialQualification.Qualify | src/market_platform/application/polygon_completed_daily_production_qualification.py:682-748 | The verdict and its reason, in the order of the checks. |
| MaterialQualification.VerdictExactly | src/market_platform/application/polygon_completed_daily_production_qualification.py:682-748 | In terms of days: the material is accepted exactly when it is available, every interval of its identity begins and ends at midnight, every row lies on a day of the selected mapping and of no other, and every row precedes the analysis date; otherwise the first of these that fails gives the reason. |
| MaterialQualification.TextCoverageIsDayCoverage | src/market_platform/application/polygon_completed_daily_production_qualification.py:713-718 | Label comparison with the interval ends is membership of the half-open interval of days. |
| MaterialQualification.RowsHaveOneMapping | src/market_platform/application/polygon_completed_daily_production_qualification.py:712-723 | Every row of accepted material lies in exactly one interval among the mappings of its identity, the selected one. |
| MaterialQualification.QualifiedMaterialIsWhollyEligible | src/market_platform/application/polygon_completed_daily_production_qualification.py:724-730 | On the same New York date, freshness finds every row of accepted material eligible and the last one latest. |
| MaterialQualification.QualifiedStalenessIsPermanent | src/market_platform/application/polygon_completed_daily_production_qualification.py:724-730 | Accepted material that is not fresh at its analysis date never becomes fresh. |
| AsOfHistory.History | src/market_platform/application/polygon_completed_daily_production_construction.py:513-548 | The history query is corrupt, conflicting or the selected entries in order, exactly as validation and references decide. |
| AsOfHistory.SelectsExactly | src/market_platform/application/polygon_completed_daily_production_construction.py:536-548 | Wherever an entry stands, it is kept in its place exactly when it is relevant and was available by the cutoff. |
| AsOfHistory.AscendingIsSorted | src/market_platform/application/polygon_completed_daily_production_freshness.py:816-816 | Sorting a selection from a validated history by sequence changes nothing. |
| AsOfHistory.SortsExactly | src/market_platform/application/polygon_completed_daily_production_freshness.py:816-816 | The sort keeps every entry and puts them in order of sequence, whatever they are. |
| AsOfHistory.LaterCutoffExtends | src/market_platform/application/polygon_completed_daily_production_construction.py:536-548 | An as-of answer is a prefix of the answer for any later cutoff and of the whole history of the artifact. |
| AsOfHistory.EqualAnswersExactly | src/market_platform/application/polygon_completed_daily_production_freshness.py:801-816 | Two answers are equal exactly when nothing relevant became available between their cutoffs. |
| AsOfHistory.AnswerIsFrozen | src/market_platform/application/polygon_completed_daily_production_construction.py:536-548 | Once any entry of the store is available after the cutoff, no later publication changes the answer. |
| AsOfHistory.AnswerIsOpen | src/market_platform/application/polygon_completed_daily_production_freshness.py:801-816 | Until then a relevant publication available by the cutoff extends the answer by exactly that entry. |
| RetainedMaterial.Resolve | src/market_platform/application/polygon_completed_daily_production_qualification.py:230-287 | The loop resolves exactly when the histories authenticate, the cutoff is not in the future, nothing newer is hidden and the construction was available; it returns that retained construction. |
| RetainedMaterial.SameCollectionExactly | src/market_platform/application/polygon_completed_daily_production_qualification.py:268-275 | The snapshots at the cutoff and now agree exactly when none of the five histories received a relevant entry in between. |
| RetainedMaterial.ResolvesExactly | src/market_platform/application/polygon_completed_daily_production_qualification.py:243-280 | Resolution succeeds exactly when the histories authenticate, the cutoff is not in the future, no relevant entry of the five histories became available after it, and the named construction was available by it. |
| RetainedMaterial.ResolvedIsRetained | src/market_platform/application/polygon_completed_daily_production_qualification.py:647-660 | What is returned is the retained construction with that id, of that artifact, available by the cutoff. |
| RetainedMaterial.OnlyOneNamed | src/market_platform/application/polygon_completed_daily_production_qualification.py:647-660 | Distinct execution ids leave exactly one match among the visible constructions. |
| QualificationInputs.SnapshotExactly | src/market_platform/application/polygon_completed_daily_production_qualification.py:419-545 | A snapshot is taken exactly when the five histories are in order and what is known at the cutoff rests on what is known then; it lists what is known, in order. |
| QualificationInputs.MaterialExactly | src/market_platform/application/polygon_completed_daily_production_qualification.py:230-287 | Over the retained entries alone: exactly when the histories are in order, what is known now rests on what is known now, the cutoff is not in the future, nothing of the version has become available since and the requested construction is retained, that one is resolved. |
| QualificationInputs.RefusesEarly | src/market_platform/application/polygon_completed_daily_production_qualification.py:230-280 | The refusals up to the comparison of the two snapshots, in the order of the checks. |
| QualificationInputs.RefusesLate | src/market_platform/application/polygon_completed_daily_production_qualification.py:276-287 | At the end another known construction is a mismatch, and none is unavailable input. |
| AdmissionReplay.GatherRecords | src/market_platform/application/polygon_completed_daily_production_admission.py:1288-1300 | The dictionary loop yields the distinct records in order of first appearance, or the first refusal. |
| AdmissionReplay.GatherFresh | src/market_platform/application/polygon_completed_daily_production_admission.py:1352-1365 | The same for freshness, by fingerprint, leaving aside evaluations after the cutoff. |
| AdmissionReplay.ChooseOne | src/market_platform/application/polygon_completed_daily_production_admission.py:1288-1350 | A chosen validation passed and took effect by the cutoff, with all its occurrences in the history. |
| AdmissionReplay.ChooseLatest | src/market_platform/application/polygon_completed_daily_production_admission.py:1352-1400 | A chosen freshness is the unique latest evaluation, passed, of the New York day of the cutoff, with all its occurrences. |
| AdmissionReplay.ResolvePrerequisites | src/market_platform/application/polygon_completed_daily_production_admission.py:1228-1413 | The whole resolution: both whole histories validated, then every mandatory concern, then freshness, the first refusal ending it; what succeeds holds as ResolvedPrerequisitesHold says. |
| AdmissionReplay.CheckValidations | src/market_platform/application/polygon_completed_daily_production_admission.py:1240-1244 | Accepts exactly complete validation histories of one namespace with distinct ids, ordered availability and one content per record id. |
| AdmissionReplay.CheckFreshness | src/market_platform/application/polygon_completed_daily_production_admission.py:1245-1250 | The same for freshness, by record fingerprint. |
| AdmissionReplay.ResolvedPrerequisitesHold | src/market_platform/application/polygon_completed_daily_production_admission.py:1228-1413 | A successful resolution authenticated both histories and holds, per concern, a passed validation effective by the cutoff, and the unique latest passing freshness of the cutoff's New York day, each with all its visible occurrences. |
| AdmissionReplay.WinnerIsUniqueLatest | src/market_platform/application/polygon_completed_daily_production_admission.py:1366-1378 | The selected freshness is the unique latest evaluation by the cutoff; one is selected exactly when there is one, absent conflicts. |
| AdmissionReplay.WinnerIgnoresOrder | src/market_platform/application/polygon_completed_daily_production_admission.py:1352-1378 | Neither the order of the entries nor repetition plays a part. |
| AdmissionReplay.FingerprintReplaysExactly | src/market_platform/application/polygon_completed_daily_production_admission.py:1517-1555 | The history fingerprint is found again exactly while the later histories authenticate and no later relevant entry is stamped at or before the cutoff. |
| AdmissionReplay.ReplaySelectsTheSame | src/market_platform/application/polygon_completed_daily_production_admission.py:1228-1260 | Undisturbed, the resolution repeats its result or its refusal if the later histories authenticate, and refuses otherwise. |
| AdmissionOutcomes.GathersInOrder | src/market_platform/application/polygon_completed_daily_production_admission.py:1288-1300 | Entry by entry, the first validation that does not fit, or whose record id stands for another content, decides the refusal; otherwise its record is kept once. |
| AdmissionOutcomes.CandidatesExactly | src/market_platform/application/polygon_completed_daily_production_admission.py:1301-1310 | Every retained record that was recorded and took effect by the cutoff is a candidate of the evaluator, and nothing else is. |
| AdmissionOutcomes.ChoosesExactly | src/market_platform/application/polygon_completed_daily_production_admission.py:1288-1350 | A concern is met by a record exactly when every visible validation fits, no id has two contents and the evaluator passes that record; its occurrences are all that carry it. |
| AdmissionOutcomes.ConcernRefusals | src/market_platform/application/polygon_completed_daily_production_admission.py:1311-1350 | Each refusal of a concern follows from what the evaluator answered. |
| AdmissionOutcomes.FreshnessExactly | src/market_platform/application/polygon_completed_daily_production_admission.py:1352-1400 | Each refusal of the freshness, and its one success, from the retained evaluations. |
| AdmissionOutcomes.ResolvesExactly | src/market_platform/application/polygon_completed_daily_production_admission.py:1228-1413 | The prerequisites resolve exactly when both histories are in order, every mandatory concern is met, and the unique latest evaluation passed on the day of the cutoff; the fingerprint covers just what was visible. |
| AdmissionOutcomes.RefusesInOrder | src/market_platform/application/polygon_completed_daily_production_admission.py:1228-1413 | Otherwise the histories, the concerns in order, the freshness: the first that fails gives the refusal. |
| AdmissionRuns.FingerprintChangesExactly | src/market_platform/application/polygon_completed_daily_production_admission.py:1517-1555 | One publication leaves the fingerprint at the cutoff of an admission as it is exactly when it is not relevant or stamped later, and repeats no retained id or record identity. |
| AdmissionRuns.StepAuthenticatesExactly | src/market_platform/application/polygon_completed_daily_production_admission.py:1187-1206 | One publication keeps the construction, validation and freshness histories authentic exactly when its id is new and its record identity does not clash. |
| AdmissionRuns.ReplayKeptExactly | src/market_platform/application/polygon_completed_daily_production_admission.py:1187-1206 | One event leaves a retained admission replaying exactly when it publishes nothing relevant stamped by the cutoff and keeps the histories authentic. |
| AdmissionRuns.RunReplaysExactly | src/market_platform/application/polygon_completed_daily_production_admission.py:1187-1260 | On every interleaving of constructions, validations, freshness and admissions, whatever the clocks and ids, an admission replays at the end exactly when every event kept it. |
| AdmissionRuns.AdmissionsReplayOnEveryRun | src/market_platform/application/polygon_completed_daily_production_admission.py:1063-1137 | With clocks that advance past an issuance, every admission retained at the end finds its fingerprint, selection and occurrences again at its own cutoff if no publication repeated a retained id or record identity; if one did, none does. |
| AdmissionRuns.StampAtCutoffBreaksReplay | src/market_platform/application/polygon_completed_daily_production_admission.py:1187-1206 | A relevant validation stamped at the very cutoff makes the recorded result unreachable for good. |
| AdmissionRuns.RepeatedIdBreaksEveryReplay | src/market_platform/application/polygon_completed_daily_production_freshness.py:1418-1419 | A freshness evaluation with a retained id, however late it is stamped, ends every replay and every further admission. |
| AdmissionRuns.IssuesExactly | src/market_platform/application/polygon_completed_daily_production_admission.py:1063-1137 | An issuance retains one admission, carrying what resolved at the issuance time, exactly when the named construction of its artifact was available, the prerequisites resolve at its start and again at that time, and the admission history can take it; otherwise nothing changes. |
| AdmissionRuns.PublishesExactly | src/market_platform/application/polygon_completed_daily_production_construction.py:419-504 | Each prerequisite publication appends its one entry exactly when its history and records are in order and can take it. |
| SnapshotRecheck.SnapshotChangesExactly | src/market_platform/application/polygon_completed_daily_production_qualification.py:268-275 | What a snapshot collects changes exactly with a publication of the same version stamped at or before the cutoff. |
| SnapshotRecheck.StepAuthenticExactly | src/market_platform/application/polygon_completed_daily_production_qualification.py:419-442 | One publication keeps the five input histories authentic exactly when its content is of their kind and repeats no id, record identity or activated version; what once fails stays so. |
| SnapshotRecheck.BridgeAcceptsExactly | src/market_platform/application/polygon_completed_daily_production_bridge.py:594-617 | After any publications in any order, whatever the clocks and ids, the bridge accepts a qualification exactly when each of them left its snapshot alone and kept the histories authentic. |
| SnapshotRecheck.BridgeFindsSnapshotAgain | src/market_platform/application/polygon_completed_daily_production_bridge.py:594-617 | After any publications sampled later than its cutoff the bridge finds the snapshot, the construction and the task freshness of a qualification again exactly when no publication repeated an id, a record identity or an activated version. |
| SnapshotRecheck.StampAtCutoffIsNoticed | src/market_platform/application/polygon_completed_daily_production_bridge.py:604-617 | A relevant publication stamped at or before the cutoff makes the recorded snapshot unreachable for good, and the bridge refuses. |
| QualificationInputs.PublishesExactly | src/market_platform/application/polygon_completed_daily_production_qualification.py:419-442 | A publication adds its entry to its own history exactly when that is in order and can take it, and leaves the other four alone. |
| QualificationInputs.AcceptsExactly | src/market_platform/application/polygon_completed_daily_production_bridge.py:594-617 | The bridge accepts what a qualification recorded exactly when the snapshot at its cutoff can still be taken, lists the same, and knows the qualified construction and the task freshness. |
| InitialActivation.ValidityService.constructor | src/market_platform/application/polygon_completed_daily_production_validity.py:290-296 | A new owner has no event, next sequence 1 and nothing pending. |
| InitialActivation.ValidityService.ValidateHistory | src/market_platform/application/polygon_completed_daily_production_validity.py:298-321 | The validator accepts exactly complete histories of its namespace with one event per version, distinct ids and non-decreasing availability. |
| InitialActivation.ValidityService.ResolveConstruction | src/market_platform/application/polygon_completed_daily_production_admission.py:1139-1185 | The named construction, or the refusal: a corrupt construction history first, then none, several, or another artifact. |
| InitialActivation.ValidityService.CheckAdmissions | src/market_platform/application/polygon_completed_daily_production_validity.py:392-400 | Accepts exactly complete admission histories with distinct ids, ordered availability and one content per record id. |
| InitialActivation.ValidityService.IssueInitialActive | src/market_platform/application/polygon_completed_daily_production_validity.py:356-512 | An activation validates the three histories and commits one event or changes nothing, for the reason its checks give in order; nothing stays pending. |
| InitialActivation.IssuedIsWellFounded | src/market_platform/application/polygon_completed_daily_production_validity.py:382-512 | An issued event rests on an ADMITTED result and its construction, both retained and available at its start. |
| InitialActivation.ActivationIsSafe | src/market_platform/application/polygon_completed_daily_production_validity.py:298-321 | On every run each artifact version gets at most one ACTIVE event, each naming an ADMITTED result available at its start, effective no later, of the same construction. |
| InitialActivation.SecondActivationIsRefused | src/market_platform/application/polygon_completed_daily_production_validity.py:426-436 | Once activated, a version is refused for good. |
| InitialActivation.CorruptInputsStopActivation | src/market_platform/application/polygon_completed_daily_production_validity.py:392-400 | Once the construction or admission history repeats an id or record identity, nothing is activated any more. |
| ActivationOutcomes.ActivatesExactly | src/market_platform/application/polygon_completed_daily_production_validity.py:382-512 | An activation commits its event exactly when the histories are in order and a named construction of the artifact and the first visible admission of the resolved, ADMITTED record support it, no visible admission carries another reference, the version is not yet active and the clocks advance. |
| ActivationOutcomes.OutcomeExactly | src/market_platform/application/polygon_completed_daily_production_validity.py:392-512 | Given those two, the outcome check by check. |
| ActivationOutcomes.RefusesEarly | src/market_platform/application/polygon_completed_daily_production_validity.py:382-391 | A history out of order, or no such construction, refuses first. |
| ActivationOutcomes.RefusesWithoutAdmission | src/market_platform/application/polygon_completed_daily_production_admission.py:1602-1645 | Without a visible admission, or with none that carries the record resolved, activation is refused. |
| ActivationOutcomes.StepsExactly | src/market_platform/application/polygon_completed_daily_production_validity.py:323-333 | One step adds its one event or entry, or changes nothing. |
| DeliveryStore.NamesAreSlots | src/market_platform/application/radar_candidate_delivery_store.py:55-67 | Two records have one file name exactly when kind and naming keys agree. |
| DeliveryStore.NameIsNotTemporary | src/market_platform/application/radar_candidate_delivery_store.py:263-271 | A record name never matches the pattern of temporaries. |
| DeliveryStore.FileStore.constructor | src/market_platform/application/radar_candidate_delivery_store.py:100-103 | A store starts from the directory it is given. |
| DeliveryStore.FileStore.Publish | src/market_platform/application/radar_candidate_delivery_store.py:138-172 | The directory and the outcome after a publication that stops at any of its steps. |
| DeliveryStore.FileStore.Remove | src/market_platform/application/radar_candidate_delivery_store.py:168-172 | Removing the temporary takes away that name only, and a failure is suppressed. |
| DeliveryStore.PublishesExactly | src/market_platform/application/radar_candidate_delivery_store.py:146-172 | Wherever a publication of a free name stops, the name then holds the whole encoding or stays free, the temporary holds what was written unless it was removed, and nothing else changes. |
| DeliveryStore.ReadsExactly | src/market_platform/application/radar_candidate_delivery_store.py:110-136 | A name is free, or holds the record that is stored under its own name, or is broken. |
| DeliveryStore.NamesShowKeys | src/market_platform/application/radar_candidate_delivery_store.py:55-67 | The name of a record shows its kind and its keys, place by place. |
| DeliveryStore.TemporaryExactly | src/market_platform/application/radar_candidate_delivery_store.py:263-271 | A temporary name is a word of letters, digits, hyphens and underscores between the two fixed ends. |
| DeliveryStore.FileStore.ReadEntries | src/market_platform/application/radar_candidate_delivery_store.py:263-285 | The walk over the sorted directory reads exactly the published entries, or fails on one that is not stored under its own name. |
| DeliveryStore.FileStore.Inventory | src/market_platform/application/radar_candidate_delivery_store.py:263-303 | The inventory is all published records, when each has its source and acceptance and links to them. |
| DeliveryStore.CheckLinks | src/market_platform/application/radar_candidate_delivery_store.py:286-298 | The second loop passes exactly when every record links. |
| DeliveryStore.SortedWithoutTemporaries | src/market_platform/application/radar_candidate_delivery_store.py:267-271 | Skipping temporaries while walking the sorted directory is sorting what is published. |
| DeliveryStore.PublicationLinksOnce | src/market_platform/application/radar_candidate_delivery_store.py:160-163 | One publication, wherever it stops, links at most its own record, and never over an existing name. |
| DeliveryStore.LinkedNamesAreImmutable | src/market_platform/application/radar_candidate_delivery_store.py:138-172 | On every run with any interruptions a linked name never changes content, and a new one holds a record of the run. |
| DeliveryStore.TemporariesAreIgnored | src/market_platform/application/radar_candidate_delivery_store.py:268-271 | Leftover temporaries never affect the inventory. |
| DeliveryStore.LinkedRecordDecides | src/market_platform/application/radar_candidate_delivery_store.py:142-145 | Publishing a linked record again succeeds without change; a different one in its slot is a conflict without change. |
| DeliveryStore.RepetitionRecovers | src/market_platform/application/radar_candidate_delivery_store.py:138-172 | An interrupted publication can be repeated and then succeeds, unless a different record took its slot. |
| DeliveryStore.ResolvedForGood | src/market_platform/application/radar_candidate_delivery_store.py:315-334 | A source once resolved stays resolved under all publications and interruptions after which the inventory can be read. |
| DeliveryStore.ResolvedExactly | src/market_platform/application/radar_candidate_delivery_store.py:315-334 | With a readable inventory a retained source is resolved exactly when it has been accepted and decided, and what the decision selected, if anything, is pending. |
| DeliveryStore.RecoversExactly | src/market_platform/application/radar_candidate_delivery_store.py:336-346 | Recovery raises exactly when the inventory cannot be read; otherwise it reports the one open source of the instrument, or none when there is none, and is ambiguous exactly when there are two. |
| DeliveryStore.FindUnresolved | src/market_platform/application/radar_candidate_delivery_store.py:336-346 | The loop over prepared sources raises, finds the sources ambiguous, or gives the one left open. |
| DeliveryStore.RecoveryReportsOpenSources | src/market_platform/application/radar_candidate_delivery_store.py:336-346 | Recovery reports at most one source, only sources of the instrument that are still open, and misses none. |
| DeliveryStore.RecoveryNeverRevives | src/market_platform/application/radar_candidate_delivery_store.py:305-346 | A source once resolved is never reported again. |
| DeliveryRuns.InventoryReadableExactly | src/market_platform/application/radar_candidate_delivery_store.py:263-303 | The inventory is readable exactly when every published name holds its record and every record but a source links up. |
| DeliveryRuns.InventoryStaysReadable | src/market_platform/application/radar_candidate_delivery_store.py:138-303 | Publications in the order source, acceptance, decision, pending keep a readable inventory readable, wherever they are interrupted. |
| DeliveryRuns.RecoveryAnswers | src/market_platform/application/radar_candidate_delivery_store.py:315-346 | With a readable inventory recovery never raises for an unreadable record: it reports, or finds two sources open. |
| DeliveryRuns.ResolvedStaysResolved | src/market_platform/application/radar_candidate_delivery_store.py:315-346 | On such runs a resolved source stays resolved and is never reported again. |
| DeliveryRuns.DeliveryResolves | src/market_platform/application/radar_candidate_delivery_store.py:178-334 | Source, acceptance, decision and pending record of one delivery may be published in that order into an empty directory, and then the source is resolved. |
| RequestCodec.FreezeValue | src/market_platform/application/historical_replay_research.py:567-611 | The loops that fill tuples and dictionaries compute the frozen form, or refuse. |
| RequestCodec.FreezesExactly | src/market_platform/application/historical_replay_research.py:567-611 | Freezing succeeds exactly on values whose mappings have nonempty text keys, distinct after trimming, and whose floats are finite, at every depth. |
| RequestShapes.FrozenExactly | src/market_platform/application/historical_replay_research.py:567-611 | A configuration freezes to a value exactly when that is it, frozen: the same scalars, tuples for sequences, and values under trimmed keys, none blank and no two equal. |
| RequestCodec.ClashIsRejectedAtAnyDepth | src/market_platform/application/historical_replay_research.py:578-585 | Two keys equal after trimming are rejected however deep their mapping lies. |
| RequestCodec.FrozenIsNormal | src/market_platform/application/historical_replay_research.py:576-590 | Every key of a frozen configuration is trimmed and not empty. |
| RequestCodec.FreezeIsIdempotent | src/market_platform/application/historical_replay_research.py:187-190 | Freezing what was frozen, shown in any key order, changes nothing. |
| RequestCodec.FreezeUndoesThaw | src/market_platform/application/historical_replay_research.py:614-623 | Freezing after thawing is the identity on frozen configurations of any depth. |
| RequestShapes.ThawExactly | src/market_platform/application/historical_replay_research.py:614-623 | Thawing shows the frozen value, every mapping with its keys in ascending order. |
| RequestCodec.RowsIncrease | src/market_platform/application/historical_replay_research.py:104-112 | The check of neighbouring rows decides whether all rows are strictly increasing. |
| RequestCodec.DecodeEncodedSource | src/market_platform/application/historical_replay_research_codec.py:85-117 | Decoding an encoded inline source succeeds exactly when its rows are present and strictly increasing, and gives the same source. |
| RequestCodec.DecodingIsStable | src/market_platform/application/historical_replay_research_codec.py:85-117 | A decoded source is normalized, has strictly increasing rows, and survives another round. |
| RequestShapes.RowDecodedExactly | src/market_platform/application/historical_replay_research_codec.py:101-117 | A row is decoded from a mapping exactly when the mapping has just the six keys and shows each field under its own. |
| RequestShapes.RowEncodedExactly | src/market_platform/application/historical_replay_research.py:70-80 | An encoded row shows each field under its own key, its instant as written. |
| RequestShapes.SourceDecodedExactly | src/market_platform/application/historical_replay_research_codec.py:85-100 | A source is decoded exactly when the document shows three texts that are not blank and at least one row, strictly increasing; it keeps them trimmed, the symbol in upper case. |
| RequestShapes.SourceEncodedExactly | src/market_platform/application/historical_replay_research.py:104-135 | An encoded source shows its own texts and rows. |
| PassiveJson.StripIsIdempotent | src/market_platform/application/historical_replay_research.py:532-538 | Trimming twice is trimming once. |
| PassiveJson.StripsExactly | src/market_platform/application/historical_replay_research.py:532-538 | White space before and after a trimmed text is removed, and nothing else. |
| PassiveJson.WhiteExactly | src/market_platform/application/historical_replay_research.py:532-538 | The 29 characters that count as white space. |
| Fingerprints.CanonicalValue | src/market_platform/_fingerprint.py:41-61 | The loop over mappings and sequences computes the canonical form, or refuses. |
| Fingerprints.CanonicalIsContent | src/market_platform/_fingerprint.py:41-61 | Canonical forms are equal exactly when the contents are the same, lists and tuples taken as one and key order aside. |
| Fingerprints.CanonicalExactly | src/market_platform/_fingerprint.py:41-61 | The canonical form exists exactly when some JSON value shows the data, scalar by scalar, item by item and key by key, and is that value. |
| Fingerprints.FingerprintsIdentifyContent | src/market_platform/_fingerprint.py:11-25 | Two payloads have one fingerprint exactly when their contents are the same. |
| Fingerprints.FingerprintsExactly | src/market_platform/_fingerprint.py:11-38 | A fingerprint is taken exactly of a mapping that names its schema version by a text that is not blank and that some JSON value shows; it is the digest of the encoding of that value. |

## Left out

- Rule content: technical analysis, interpretation, assessment and strategy rules, and the evaluators in `evidence/evaluation.py`, are arbitrary deterministic functions or plain payloads.
- Validation service: its history has the shape of the other retaining owners; its internals, and supersession among validation and admission records, are not modelled.
- Identity of state tuples: the code compares committed tuples with `is`; the model compares values, so replacing a tuple by an equal one goes unnoticed.
- LockOrder.OperationsAreRankOrdered: clocks and callbacks take no lock of the chain; a callback that re-enters a service is outside the model.
- CopyIsolation.GraphIds: the recursive walk is modelled on graphs without followed cycles, where it returns; on a cyclic value the code exceeds its recursion limit and publishes nothing.
- NativeSupport.SupportVisitor.Visit: price storage is one token per series, enum members are read through their stored attributes, and the visitor's refusal of descriptors and subclasses is one flag on an object's layout.
- TransactionNest.StepFits: a callback runs between two stretches of code, not inside one, and other threads enter only as calls that carry their thread; what one authentication reads is one moment of its entry; reading the owners at entry is the flag `rootsHeld`.
- InterpretationTransaction.Transaction.Finish: the native capture pins what it recorded, so captured objects still exist when they are reread.
- InterpretationSchema.InterpretationCheckIsExact: every plain field is one scalar, whatever its text.
- AssessmentConsumption.Consume: the owners, locks and commitments that it rechecks are one map of authority fields per recheck; findings and comparison references inside a pair are not checked; every pair is encoded again before the first graph is walked, where the code alternates, so only the reason of a refusal can differ.
- AssessmentConsumption.Authenticate: its authentication of upstream support is that of the transaction model and not repeated.
- PreparedInventory.SealPrepared: each codec call is one reading of the working data, and one complete check reads one moment of it.
- ProvenanceChain.RetainedSourceReauthenticates: the validation, freshness, admission and validity histories that a snapshot validates beside the constructions are those of SnapshotRecheck.
- AdmissionRuns.AdmissionsReplayOnEveryRun: an issuance is one step, since it holds the locks of all prerequisite histories; its predecessor among the admissions is one more check that may raise.
- SnapshotRecheck.BridgeFindsSnapshotAgain: the history fingerprint is the collected snapshot itself.
- DeliveryRuns.InventoryStaysReadable: that no two instruments share a recovery identity is assumed of the start and demanded of new sources.
- Qualification's `qualify`: the reuse of a retained task evaluation and the canonical evaluation of the admission state are not modelled; its locking, its source and its material checks are.
- JsonText: the constants NaN and Infinity and lone surrogates are refused by the scanner, and the limit on the digits of an integer is not modelled.
- Binary64: a canonical source text is positive or zero, so the sign of a converted value is never negative; negative values are refused by the range check.
- Bridge.Prove: dtype, index and context checks of the target are the flags `approvedLayout` and `sameContext`; the fingerprints of the proof are not computed.
- Canonical numeric text of `evidence_ingress/polygon_completed_daily_ohlcv.py`: enters the bridge as a function from a text to its exact value, if it is canonical.
- MaterialQualification.Qualify: an interval bound is a UTC date and whether it is midnight UTC; the mapping fingerprint of the accepted material is not computed.
- RetainedMaterial.Resolve: the five validators are the predicates they decide, the validation of each single result aside, and the fingerprint of the trusted history is not computed.
- AdmissionReplay.ResolvePrerequisites: checks of one retained result against construction and policy are its `Fit`; the admission record built from the prerequisites is not modelled.
- InitialActivation.ValidityService.IssueInitialActive: an activation refused because a history changed while its lock is held is left out, since the held locks exclude it.
- DeliveryStore.FileStore.Publish: one owner per store, so no other writer appears between the first read and the link; reparse points, directory sync and `resolve_pending` are left out.
- DeliveryStore.FindUnresolved: the inventory is read once, where the code reads it again for every source; nothing changes in between, as the owner is alone.
- RequestCodec.DecodeEncodedSource: members, strategies, state models and revisions of a request are flat field checks and left out.
- Providers, HTTP, settings, command line, agent exposure, governance tables, batch composition and trading signals: plumbing or flat field checks.
