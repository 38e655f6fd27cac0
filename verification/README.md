# Verified model of the weak-isolation mock store and its applications

The repository is an in-memory, multi-version key-value store that hands out deliberately weak reads, and a set
of small applications that are correct on strong reads only. This project models the store, its consistency
check and read selectors, and the applications whose guarantees rest on them, and proves what each isolation
level really guarantees.

**The store.** `Stores` holds the store as a value: the global history, a version list per key and a transaction
list per session, with the two changes a call can make under the lock (`CommitPut`, `CommitGet`). `KvStores` is
the store object; its methods are proved to perform exactly those changes. `ConsistencyChecker` has the two loops
of the causal check and `ReadSelectors` the three selectors, with the in-place sampling loop. Random numbers come
in as a function parameter `rng`, so "over all random choices" is a quantifier.

**Concurrency.** `StoreRuns` is a step system over any number of concurrent callers: a call is invoked (and gets
its transaction id before any lock is taken), commits in one step, and returns. Ids are unique but not sorted
along the history, so every statement is about history positions. `Coherence`, `Linearizability` and `Causality`
state what whole runs satisfy.

**The applications.** `TreiberSteps` has the stack as a step system in which every get and put is a separate step
and only `update_head` holds a mutex; `StackRefinement` and `StackRuns` prove that on the linearizable selector
every interleaving is a run of an abstract stack, and `StackProgress` that it never gets stuck. `TreiberStacks` is
the stack object as one thread runs it. `HttpServers` has the conditional POST and `HttpRuns` its interleaving with
other requests. `Coursewares` and `ShoppingCarts` are application objects over the store object; `CoursewareData` and
`CartData` say what their operations do to the stored data and what every sequence of operations keeps, and
`CoursewareRuns` and `CartRuns` say what is stored after any operations in terms of the list of operations alone,
with `Lists` for "exactly these entries, in this order".

Three places where the code does less than its own documentation says; each has a witness and an exact condition:

- The causal check claims to follow `(wr U so)+` (`kv_store/include/consistency_checker.h:49-51`) but looks only at
  the reader's own session on the same key. `Causality.CrossKeyRunIsNotCausal` is a run it lets through,
  `Causality.CheckIsExactIff` says when check and axiom agree, and `Causality.OneKeyRunsAreCausal` gives a class of
  runs where they always do.
- The POST handler says it compares the ETag with the latest version (`kv_store/http_server/http_server.h:143`).
  With the shipped causal selector it compares with a version the session may be behind on:
  `HttpRuns.StaleETagCanWin`, `HttpRuns.MatchIsLatestIff`.
- Courseware says only registered students are enrolled (`applications/readme.md:3-4`), but a student that
  deregisters or is deleted stays in the course lists: `CoursewareData.UnregisteredStayEnrolled` has runs that end so
  and `CoursewareData.OnlyRegisteredThroughoutIff` the exact condition over runs. Deletes also leave the two
  enrollment sides out of step: `CoursewareData.DeletesSplitTheSides`, `CoursewareData.SidesAgreeThroughoutIff`.

## Model

| member | source | states |
|---|---|---|
| `Stores.PutKeepsWellFormed` | kv_store/include/kv_store.h:194-207 | A PUT commit keeps both indexes equal to the in-order projections of the log, and every logged GET explained by an earlier PUT of its key with that value |
| `Stores.GetKeepsWellFormed` | kv_store/include/kv_store.h:126-171 | The same for a GET commit answered with any stored version |
| `Stores.GetKeepsSessionSafe` | kv_store/include/kv_store.h:152-154 | A GET answered at or above the session's floor lets no session go back to an older version of a key |
| `Stores.PutKeepsSessionSafe` | kv_store/include/kv_store.h:194-207 | A PUT is newer than anything its session has seen of the key |
| `Stores.SizeCountsKeysPut` | kv_store/include/kv_store.h:243-247 | The store's keys are exactly the distinct keys ever put, and `get_size` is their number |
| `Stores.FloorIsLargest` | kv_store/include/consistency_checker.h:54-65 | The session's floor is the largest version index of the key that it has read or written |
| `Stores.NewestIsAboveFloor` | kv_store/include/consistency_checker.h:54-80 | The newest version is never below any session's floor |
| `ConsistencyChecker.DependentTxs` | kv_store/include/consistency_checker.h:52-65 | The first loop collects the PUTs of the key that the session wrote or read |
| `ConsistencyChecker.AllCommittedBy` | kv_store/include/consistency_checker.h:69-80 | The counting loop answers true exactly when the whole set is committed no later than the given transaction |
| `ConsistencyChecker.IsConsistent` | kv_store/include/consistency_checker.h:42-81 | The whole check decides "every dependency is committed no later than the candidate's writer" |
| `ConsistencyChecker.AcceptsIffAboveFloor` | kv_store/include/consistency_checker.h:54-80 | The check accepts a version exactly when its index is at least the session's floor, so the accepted versions are a suffix of the list, although ids are unsorted |
| `ReadSelectors.SelectCausal` | kv_store/include/read_response_selector.h:63-92 | The in-place sampling loop computes `Sample`: its answer, its final permutation and the candidates it tested |
| `ReadSelectors.SamplePermutes` | kv_store/include/read_response_selector.h:72-84 | For all draws the loop ends, permutes its copy, tests no candidate twice, and gives up only after testing all |
| `ReadSelectors.SampleStopsAtAccepted` | kv_store/include/read_response_selector.h:84-91 | Every tested candidate but the last is rejected; the answer is the last one |
| `ReadSelectors.PossibleResults` | kv_store/include/read_response_selector.h:67-91 | Over all draws the possible results are exactly the accepted candidates, and the exception is possible exactly when there is none |
| `ReadSelectors.SelectLinearizable` | kv_store/include/read_response_selector.h:111-121 | The newest candidate, or none for an empty list |
| `ReadSelectors.Shuffle` | kv_store/include/read_response_selector.h:168 | The shuffle is a permutation, so distinct read numbers stay distinct |
| `ReadSelectors.PickKReadIds` | kv_store/include/read_response_selector.h:165-170 | For 0 <= k <= total, exactly k distinct read numbers out of 1..total, as the shuffle puts them in front |
| `ReadSelectors.EverySubsetCanBePicked` | kv_store/include/read_response_selector.h:165-170 | Over all draws, every set of k read numbers out of 1..total can be picked |
| `ReadSelectors.KCausalSelector.InitConsistencyChecker` | kv_store/include/read_response_selector.h:140-145 | After one initialisation the selector holds exactly k read numbers; a further one only adds |
| `ReadSelectors.KCausalSelector.Select` | kv_store/include/read_response_selector.h:147-156 | Counts the read, then answers causally if its number was picked and with the newest version otherwise |
| `ReadSelectors.WhatMayBeAnswered` | kv_store/include/read_response_selector.h:63-156 | On a well-formed store the causal selector may answer exactly from the session's floor on, the linearizable one only with the newest version, and the k-causal one with the former exactly on picked reads |
| `ReadSelectors.WhatIsAnswered` | kv_store/include/read_response_selector.h:147-156 | For all draws the k-causal answer is the sampled one on picked reads and the newest version otherwise, and each read is counted |
| `ReadSelectors.AnswersAboveFloor` | kv_store/include/read_response_selector.h:63-156 | No selector, in any state, answers below the session's floor |
| `ReadSelectors.GetIsNeverStuck` | kv_store/include/read_response_selector.h:90-91 | Every selector has an answer for a stored key |
| `KvStores.VersionNumber` | kv_store/include/kv_store.h:161-171 | The version loop returns the 1-based position of the chosen candidate, even when values repeat |
| `KvStores.KvStore.constructor` | kv_store/include/kv_store.h:61-64 | A new store is empty |
| `KvStores.KvStore.GetSize` | kv_store/include/kv_store.h:243-247 | Number of distinct keys ever put |
| `KvStores.KvStore.GetSessionHistory` | kv_store/include/kv_store.h:259-264 | The in-order projection of the log on a session |
| `KvStores.KvStore.Commit` | kv_store/include/kv_store.h:228-236 | Logs one transaction in the history and in its session |
| `KvStores.KvStore.Put` | kv_store/include/kv_store.h:182-217 | Performs exactly one PUT commit under a fresh id |
| `KvStores.KvStore.Select` | kv_store/include/kv_store.h:133-137 | Dispatches to the attached selector: its answer for these draws, which it may give, or none only if it may give none; a k-causal selector samples exactly when the counted read was picked |
| `KvStores.KvStore.GetTx` | kv_store/include/kv_store.h:99-177 | Key-not-found exactly for unknown keys, without logging; else one GET commit with an answer the selector may give and its version number; the consistency exception cannot occur on a well-formed store |
| `StoreRuns.RunIsSafe` | kv_store/include/kv_store.h:99-217 | In every reachable state of every interleaving the indexes agree with the log, every GET is explained, and no session has gone back |
| `StoreRuns.HistoryOnlyGrows` | kv_store/include/kv_store.h:229-236 | The log is append-only over a whole run |
| `StoreRuns.VersionsAreForEver` | kv_store/include/kv_store.h:161-171 | A key and version number denote the same value for ever |
| `StoreRuns.SessionNumbersNeverDecrease` | kv_store/include/kv_store.h:161-171 | Under all selectors the version numbers a session is given for a key never decrease |
| `StoreRuns.NoConsistencyException` | kv_store/include/read_response_selector.h:90-91 | In every reachable state every invoked call can commit; the consistency exception never occurs |
| `StoreRuns.RunsAreCoherent` | kv_store/include/consistency_checker.h:42-81 | In every run, for every key, one total order of its transactions extends every session's order and the order of PUTs, and every GET returns the PUT immediately before it |
| `Coherence.CoherentOrderExists` | kv_store/include/consistency_checker.h:42-81 | Version first, history position second, is such an order |
| `Coherence.EveryReadHasOneSource` | kv_store/include/kv_store.h:126-131 | Every GET returned exactly one earlier PUT of its key |
| `StoreRuns.KCausalBound` | kv_store/include/read_response_selector.h:147-156 | A k-causal run of any length has at most as many non-newest GETs as read numbers were picked |
| `StoreRuns.KCausalBoundIsReached` | kv_store/include/read_response_selector.h:147-156 | The bound is tight: for every set of picked positive read numbers some run has exactly that many non-newest GETs |
| `KvStoreSteps.PutIsACall` | kv_store/include/kv_store.h:182-217 | What the object's put promises is one invocation and its commit in the step system, with reply and policy |
| `KvStoreSteps.GetIsACall` | kv_store/include/kv_store.h:99-177 | The same for a get, found or not found |
| `Linearizability.RunsAreLinearizable` | kv_store/include/kv_store.h:99-217 | With the linearizable selector the effects, in commit order, are a sequential run of a plain versioned map, match every reply, and respect real time |
| `Linearizability.EffectsAreTheHistory` | kv_store/include/kv_store.h:112-122 | Under any selector, the effects without the not-found GETs are exactly the history |
| `Linearizability.NotFoundComesFirst` | kv_store/include/kv_store.h:111-122 | A GET that found no key took effect before every PUT on that key |
| `Causality.KeyedCausalAxiom` | kv_store/include/consistency_checker.h:49-80 | If t1 writes the key and reaches the GET t3 by write-read and same-key session edges, and t3 reads from t2, then t1 is t2 or is committed before it |
| `Causality.OneKeyRunsAreCausal` | kv_store/include/consistency_checker.h:49-80 | A run in which every session keeps to one key satisfies the full `(wr U so)+` axiom |
| `Causality.KnownIsReached` | kv_store/include/consistency_checker.h:49-51 | `Known` computes a PUT of the causal past |
| `Causality.KnownIsNewest` | kv_store/include/consistency_checker.h:49-51 | and no PUT of the causal past, over any path, is newer |
| `Causality.PermittedIffAboveCausalFloor` | kv_store/include/consistency_checker.h:49-51 | Full causality permits a version exactly when its index is at least the causal floor |
| `Causality.NothingPermittedIsLost` | kv_store/include/consistency_checker.h:42-81 | Every candidate that the full cross-key axiom permits is accepted by the check |
| `Causality.CheckIsExactIff` | kv_store/include/consistency_checker.h:42-81 | The check decides the full axiom for a session and key exactly when the session's floor equals its causal floor |
| `Causality.CrossKeyRunIsNotCausal` | kv_store/include/consistency_checker.h:49-80 | A concrete run of the causal store whose history breaks the full axiom across two keys |
| `TreiberSteps.NodeIdsCollideIff` | applications/treiber_stack/treiber_stack.h:34 | Node ids of two sessions can meet exactly when the session ids share their last digit |
| `TreiberSteps.NewIdIsFresh` | applications/treiber_stack/treiber_stack.h:34-35 | The id a push picks is positive and unused, and stays its own until it is stored |
| `TreiberSteps.PublishedForEver` | applications/treiber_stack/treiber_stack.h:35-46 | A step rewrites no published node and reuses no published id |
| `TreiberSteps.StepKeepsSound` | applications/treiber_stack/treiber_stack.h:31-118 | Under any selector every step keeps ids in order and every pointer NIL or the key of a stored node |
| `StackRefinement.ChainIsAcyclic` | applications/treiber_stack/treiber_stack.h:16-20 | A chain that ends visits no node twice |
| `StackRefinement.StepRefines` | applications/treiber_stack/treiber_stack.h:31-118 | On the linearizable selector every step of every thread is a step of the abstract stack: a successful push adds its value on top, a successful pop removes and returns the top, an empty answer means an empty stack |
| `StackRefinement.PopRefines` | applications/treiber_stack/treiber_stack.h:80-88 | A pop whose compare succeeds removes the true top, even if the head id recurred in between |
| `StackRefinement.PushRefines` | applications/treiber_stack/treiber_stack.h:46-47 | A push whose compare succeeds puts its node on top of the unchanged chain |
| `StackRuns.HeadsNameStoredNodes` | applications/treiber_stack/treiber_stack.h:40-76 | Under any selector, in every reachable state, every version of the head is NIL or names a stored node |
| `StackRuns.PopFindsItsNode` | applications/treiber_stack/treiber_stack.h:54-78 | Under any selector, in every reachable state the head exists and a pop that is about to read a node finds it stored: pop's not-found branches are dead |
| `StackRuns.NewIdsAreUnique` | applications/treiber_stack/treiber_stack.h:34 | In every reachable state the id a push picks is positive, not stored, and not in use by another push |
| `StackRuns.PublishedNodesAreFrozen` | applications/treiber_stack/treiber_stack.h:35-46 | Over a whole run, under any selector, a published node is never rewritten and its id never reused |
| `StackRuns.ChainSpellsStack` | applications/treiber_stack/treiber_stack.h:16-20 | In every reachable state the chain from key 0 is finite, acyclic and spells the abstract stack |
| `StackRuns.RunsRefineAStack` | applications/treiber_stack/treiber_stack.h:31-118 | Every interleaving is a run of the abstract stack, starting empty |
| `StackRuns.CallTakesEffectOnce` | applications/treiber_stack/treiber_stack.h:31-90 | Under any selector, a push or pop that has returned took effect exactly once, in its last step: that step is the push of its value, or one pop or one empty answer, and all its other steps are silent |
| `StackRuns.PushesAreConserved` | applications/treiber_stack/treiber_stack.h:46-87 | At any time, the multiset pushed equals the multiset popped plus the contents |
| `StackRuns.PoppedNodesStayOut` | applications/treiber_stack/treiber_stack.h:80-88 | A popped node never re-enters the chain |
| `StackProgress.FailureMeansProgress` | applications/treiber_stack/treiber_stack.h:102-118 | A step from inside `update_head` back to the loop means that since this thread read the head another thread's update succeeded |
| `StackProgress.MatchSucceeds` | applications/treiber_stack/treiber_stack.h:111-115 | A compare that matches succeeds: every step of the thread ends the call with its value and frees the mutex, and such a step exists under every fresh id |
| `StackProgress.MismatchFails` | applications/treiber_stack/treiber_stack.h:111-118 | A compare that does not match writes nothing, frees the mutex and goes back to the loop |
| `StackProgress.SomebodyIsUnhindered` | applications/treiber_stack/treiber_stack.h:102-118 | No deadlock: while a call is under way, some thread is not held up by the mutex |
| `StackProgress.CallCanRunAlone` | applications/treiber_stack/treiber_stack.h:31-90 | From any reachable state with the mutex free, a started call can run alone to its end, in at most seven steps |
| `StackProgress.CallAloneEnds` | applications/treiber_stack/treiber_stack.h:31-90 | However a started call runs alone, it is over after at most seven steps |
| `StackProgress.AnswerOfCallAlone` | applications/treiber_stack/treiber_stack.h:31-90 | A call run alone pushes its value, or returns and removes the top, or reports an empty stack exactly when it is empty |
| `StackProgress.RunLogs` | applications/treiber_stack/treiber_stack.h:34-118 | Under any selector every step logs exactly the get or put its place in the code calls for, in the right session, or nothing when a call starts or a compare fails |
| `StackProgress.PushPicksId` | applications/treiber_stack/treiber_stack.h:34 | A push starts with ten times the number of keys ever put, plus its session, as its id |
| `TreiberStacks.TreiberStack.UpdateHead` | applications/treiber_stack/treiber_stack.h:102-118 | Compare-and-set on the head; a failed one changes no value |
| `TreiberStacks.TreiberStack.Push` | applications/treiber_stack/treiber_stack.h:31-49 | Run alone: stores its node under a new id, links it to the old head and makes it the head |
| `TreiberStacks.TreiberStack.Pop` | applications/treiber_stack/treiber_stack.h:52-90 | Run alone: returns the head's value and moves the head to its next, with all three empty and error answers |
| `TreiberStacks.TreiberStack.constructor` | applications/treiber_stack/treiber_stack.h:92-96 | Writes the dummy head entry |
| `TreiberStacks.PushThenPop` | applications/treiber_stack/treiber_stack.h:31-90 | A push followed by a pop returns the value and restores the chain and its values |
| `TreiberStacks.WhatPushWrites` | applications/treiber_stack/treiber_stack.h:34-47 | Run alone, a push writes its own node with the old head as next, then the head, and nothing else |
| `TreiberStacks.WhatPopWrites` | applications/treiber_stack/treiber_stack.h:80-87 | Run alone, a pop moves the head to the next node, or writes nothing if there is none |
| `HttpServers.DecimalIff` | kv_store/http_server/http_server.h:151 | A text is what the number conversion prints for n exactly when it has digits only, no leading zero, and stands for n |
| `HttpServers.DecimalIsInjective` | kv_store/http_server/http_server.h:151 | Equal ETag texts name equal version numbers |
| `HttpServers.HttpServer.HandlePost` | kv_store/http_server/http_server.h:124-165 | Without an ETag it puts; with one it reads a version, 0 if there is none, takes one read of the selector if the key exists, and puts exactly when the ETag is the standard decimal text of that version; the store stays well-formed and keeps its selector |
| `HttpRuns.HandledPostIsTwoSteps` | kv_store/http_server/http_server.h:125-163 | What the handler promises of a POST with an ETag is the check step followed by the finish step, with no step between |
| `HttpRuns.HandledPlainPostIsOneStep` | kv_store/http_server/http_server.h:161 | What the handler promises of a POST without an ETag is one step |
| `HttpRuns.HandledGetIsOneStep` | kv_store/http_server/http_server.h:99-104 | What a GET on the store promises is one GET step, policy included |
| `HttpRuns.ETagsWinOnce` | kv_store/http_server/http_server.h:125-163 | Under any selector, in any run, a session wins with an ETag on a key at most once, and ETag "0" wins at most once per key over all sessions |
| `HttpRuns.LinearizableETagsWinOnce` | kv_store/http_server/http_server.h:125-163 | With the linearizable selector an ETag wins at most once per key over all sessions |
| `HttpRuns.MatchIsLatestIff` | kv_store/http_server/http_server.h:143-160 | With the causal selector a matching ETag is sure to be the latest version exactly when the session has seen the latest version, or the key does not exist |
| `HttpRuns.StaleETagCanWin` | kv_store/http_server/http_server.h:143-160 | A concrete run in which two sessions win with ETag "1" on one key |
| `LinearizableStores.Fetch` | kv_store/include/kv_store.h:78-82 | On the linearizable selector `get` returns the newest value, or not-found, and changes no value; it logs one GET of the newest version, or nothing |
| `LinearizableStores.Save` | kv_store/include/kv_store.h:182-217 | `put` updates the newest value of one key with exactly one PUT commit |
| `Coursewares.Courseware.AddStudent` | applications/courseware/courseware.h:107-137 | Performs `Apply` of this operation on the stored data |
| `Coursewares.Courseware.DeleteStudent` | applications/courseware/courseware.h:139-166 | Performs `Apply` of this operation on the stored data |
| `Coursewares.Courseware.AddCourse` | applications/courseware/courseware.h:168-199 | Performs `Apply` of this operation on the stored data |
| `Coursewares.Courseware.DeleteCourse` | applications/courseware/courseware.h:201-228 | Performs `Apply` of this operation on the stored data |
| `Coursewares.Courseware.RegisterStudent` | applications/courseware/courseware.h:230-240 | Performs `Apply` of this operation on the stored data |
| `Coursewares.Courseware.DeregisterStudent` | applications/courseware/courseware.h:242-252 | Performs `Apply` of this operation on the stored data |
| `Coursewares.Courseware.OpenCourse` | applications/courseware/courseware.h:254-264 | Performs `Apply` of this operation on the stored data |
| `Coursewares.Courseware.CloseCourse` | applications/courseware/courseware.h:266-276 | Performs `Apply` of this operation on the stored data |
| `Coursewares.Courseware.Enroll` | applications/courseware/courseware.h:278-333 | Performs `Apply` of this operation on the stored data: refuses, closes a full course, or enters both sides |
| `Coursewares.Courseware.GetItems` | applications/courseware/courseware.h:335-365 | The enrollment list of a student or course, empty if there is none |
| `Coursewares.Courseware.GetEnrollments` | applications/courseware/courseware.h:368-398 | Exactly the listed courses, each with its enrolled students |
| `CoursewareData.ListsMatchCountAndCapacity` | applications/courseware/courseware.h:294-316 | After any operations every list has the length its `count` says and no course exceeds its capacity (none enrolled if that is negative) |
| `CoursewareRuns.CapacityIsRespected` | applications/courseware/courseware.h:190-316 | No course ever has more students than the capacity given by the operation that added it last |
| `CoursewareRuns.KnownIffAdded` | applications/courseware/courseware.h:107-199 | A student or course record exists exactly when an operation added it |
| `CoursewareRuns.CourseIsAsAdded` | applications/courseware/courseware.h:185-192 | The stored title, department and capacity are the arguments of the operation that added the course last |
| `CoursewareRuns.StudentIsAsAdded` | applications/courseware/courseware.h:125-131 | The stored name and roll number are the arguments of the operation that added the student last |
| `CoursewareRuns.RegistrationIsAsSet` | applications/courseware/courseware.h:125-252 | A student is registered exactly as the last operation says that added, deleted, registered or deregistered the student |
| `CoursewareRuns.StatusIsAsSet` | applications/courseware/courseware.h:185-310 | A course's status is the one set last, by adding, opening, closing or deleting it, or by an enrollment that found it full |
| `CoursewareRuns.ListsHoldWhatWasAdded` | applications/courseware/courseware.h:107-228 | The lists of students and of courses hold exactly the ids added and not deleted since, in the order of the additions |
| `CoursewareRuns.EnrollmentsHoldWhoEntered` | applications/courseware/courseware.h:201-333 | Each enrollment list holds exactly the enrollments that found the student registered, the course open and room in it, since the list was last emptied, in order |
| `CoursewareRuns.DeletesKeepRest` | applications/courseware/courseware.h:139-228 | A delete keeps all other entries of its list, in their order, and leaves the other list alone |
| `CoursewareData.DeletedCoursesStayEmpty` | applications/courseware/courseware.h:201-228 | After any operations, a deleted course stays empty and closed until it is opened or added again |
| `CoursewareData.AgreementKeptIff` | applications/courseware/courseware.h:312-332 | An operation keeps course-side and student-side entries in agreement exactly when it empties no list with entries |
| `CoursewareData.SidesAgreeThroughoutIff` | applications/courseware/courseware.h:107-333 | Both sides agree after every operation of a run exactly when no operation of it empties a list with entries |
| `CoursewareData.DeletesSplitTheSides` | applications/courseware/courseware.h:139-228 | Concrete runs: after a signup, deleting the student or the course leaves the enrollment on one side only |
| `CoursewareData.SidesAgreeWithoutDeletes` | applications/courseware/courseware.h:278-333 | Without deletes and with fresh ids both sides always hold the same multiset of pairs |
| `CoursewareData.OnlyRegisteredKeptIff` | applications/courseware/courseware.h:242-252 | "Only registered students are enrolled" survives an operation exactly when it takes no enrolled student's registration away |
| `CoursewareData.OnlyRegisteredThroughoutIff` | applications/courseware/courseware.h:107-333 | Only registered students are enrolled after every operation of a run exactly when no operation takes an enrolled student's registration away |
| `CoursewareData.UnregisteredStayEnrolled` | applications/courseware/courseware.h:139-252 | Concrete runs: after a signup, deregistering or deleting the student leaves an unregistered student enrolled |
| `ShoppingCarts.ShoppingCart.AddItem` | applications/shopping_cart/shopping_cart.h:100-103 | Performs `Apply` of this operation on the stored data |
| `ShoppingCarts.ShoppingCart.EnsureListed` | applications/shopping_cart/shopping_cart.h:189-215 | The item is in the list afterwards, once, and nothing else changes |
| `ShoppingCarts.ShoppingCart.ChangeQuantity` | applications/shopping_cart/shopping_cart.h:105-111 | Performs `Apply` of this operation on the stored data |
| `Lists.WithoutIsRest` | applications/shopping_cart/shopping_cart.h:123-132 | The filtering loop, which the deletes of courseware share, keeps exactly the positions with other values, in order |
| `Lists.SelectionIsUnique` | applications/shopping_cart/shopping_cart.h:123-132 | Which positions are kept in which order determines the list |
| `Lists.WithoutKeepsCounts` | applications/shopping_cart/shopping_cart.h:123-132 | and every other value as often as before |
| `ShoppingCarts.ShoppingCart.FilterItems` | applications/shopping_cart/shopping_cart.h:123-132 | The loop keeps exactly the other entries, in their order, and has zeroed its quantity if it was listed |
| `ShoppingCarts.ShoppingCart.RemoveItem` | applications/shopping_cart/shopping_cart.h:113-136 | Performs `Apply` of this operation on the stored data |
| `ShoppingCarts.ShoppingCart.GetCartList` | applications/shopping_cart/shopping_cart.h:149-179 | One entry per listed item, in order, with stored name, price and quantity; fails exactly when a name or price is missing |
| `ShoppingCarts.ListIsCart` | applications/shopping_cart/shopping_cart.h:149-179 | On a cart, that list is exactly the map from item to quantity |
| `CartData.CartKeptIff` | applications/shopping_cart/shopping_cart.h:95-136 | An operation keeps "no duplicates, listed exactly when the quantity is positive" exactly when it leaves a positive quantity under the item it lists, and then updates the quantity map as expected |
| `CartData.RunsSimulateMaps` | applications/shopping_cart/shopping_cart.h:95-243 | With positive quantities, after any operations of any users every user's stored cart is the map its own operations build |
| `CartRuns.CartListsWhatWasAdded` | applications/shopping_cart/shopping_cart.h:95-215 | After any operations of any users a cart lists exactly the items added and not removed since, once each, in the order in which they came in |
| `CartRuns.QuantityIsWhatWasOrdered` | applications/shopping_cart/shopping_cart.h:95-243 | For all quantities, positive or not, the stored quantity is what the list of operations amounts to |
| `CartRuns.CatalogueUntouched` | applications/shopping_cart/shopping_cart.h:95-243 | No operation touches the names and prices of items |
| `CartRuns.RemoveItemKeepsRest` | applications/shopping_cart/shopping_cart.h:113-136 | Removing an item keeps all others, in their order |

## Left out

- `remove`, `handle_delete`, `get_bill` and the base class's random selector: unfinished or without a guarantee.
- HTTP parsing, headers and replies: only the decision and the store calls of a POST, and the GET's read, are modelled.
- JSON and string keys: keys and records are datatypes; `deregister_student` storing the number 0 is modelled as `false`.
- Heap identity of GET responses: a response is the version it carries, and distinct writer ids (`KvStores.DistinctWriters`) stand for distinct objects.
- The checker's pointer to its store: the store's value is passed to it instead.
- Machine width of ids and counts: integers are unbounded.
- `get_size` outside the lock: it is one atomic read.
- A second initialisation of the k-causal selector, and replacing the selector of a live store.
- `TreiberStacks.TreiberStack.Push`: the object form is for one thread without interference; concurrency is in `TreiberSteps`, where the retry loops are steps.
- `TreiberStacks.TreiberStack.Pop`: as for `Push`; termination of the retry loops under interference is not claimed, since a thread may starve; `StackProgress.FailureMeansProgress` and `StackProgress.CallAloneEnds` are the progress that does hold.
- The stack, courseware and cart on causal reads: the repository shows that they break; only `StackRuns.HeadsNameStoredNodes` and the id discipline are proved there.
- `tx_start` and `tx_end` of courseware and cart: an operation is one atomic call of the object.
- Twitter, the `run_*` drivers, the command line, build scripts and debug logging.
