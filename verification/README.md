# Assurance control plane: a verified model

This project models the decision core of the assurance control plane and proves what it is relied on for. It covers

* the **purchase protocol**: an engine and a target, each with its own hash-chained ledger, exchanging signed tickets
  and signed evidence. Every transaction is one atomic step; runs interleave steps in any order, at any clock
  readings, the engine may be restarted with other controls at any time, and anyone may present any ticket or receipt
  whose MAC has been released;
* the **control evaluator**: JSON pointers and three-valued predicates, control selection, requirement assessment, the
  verdict and route reducer, the decision and what it binds, exact recheck, receipt assurance, and the stateless
  reference service with its fact provider and the client's own checks;
* **policy lifecycle and closure**: hash-linked lifecycle chains, direct selection, and the depth-first dependency
  closure of complete selection;
* **civil time**: day counts, the tick printer and parser, and interval checks written as string comparisons.

How it is modelled:

* A digest is a value that carries what was hashed, so equal digests mean equal content. Policy lifecycle and closure
  assume even less: their three hash functions are parameters about which nothing is known.
* A MAC is a key and a message. Nobody but engine and target makes a MAC under the ticket secret
  (`Protocol.Possible`). Nonces and random identifiers are parameters.
* Canonical JSON enters as one text function for each kind of value that is sorted by it (`Selection.Canon`). Results
  that need it assume that different values have different texts, and one, about the order of a trace, that no text of
  a control reference begins with that of another.
* An instant is an integer. Module `Instant` proves that comparing the texts compares the integers.
* Python's `==` on JSON, the wrap of booleans into integers inside containers included, is written out in
  `Predicates`.
* Where the source updates state in place or loops, the model is a class or a method with a loop, proved equal to a
  function of the old state; the theorems are then about those functions and about every run of them.

The theorems a reader should look at first: `Authority.TicketNeedsAuthority`, `Authority.TicketIsPermitted`,
`Safety.TicketKeepsPolicy`, `Spending.PurchasesInjectIntoTickets`, `Spending.SpentWithinGranted`,
`Progress.ReconcilesIff`, `HonestPath.LargePurchaseIsIssued`, `Completion.CommittedTicketReconciles`,
`Refusals.AuthorizationAnswers`, `PolicyClosure.SelectComplete`, `SafePolicies.OutcomeIsSafe`,
`DirectSelection.DirectAgreesIff`, `Evaluator.PermitsIff`, `Decisions.DecidesRightly`, `Totality.DecidesIff`,
`ReferenceService.DecideThenRecheck`, `ReceiptAssurance.StatusIff`, `LifecycleState.ReadableIff`,
`Instant.PairAcceptedIffEqual`, `Calendar.DaysAfterCivil`.

Which controls a theorem is about: everything in `Protocol`, `Safety`, `Spending`, `Histories` and `Completion` holds
for all controls and all restarts, and so do the approval lemmas and `TicketIsPermitted` in `Authority`, `DeniedIff`,
`CommitsIff` and `ReconcilesIff` in `Progress`, and all of `Refusals` but `AuthorizationAnswers` and `ApprovalAnswers`
with what they build on. The rest of `Entitlement`, `Authority`, `Progress`, `Refusals` and `HonestPath` is about
the example policy; its premise is that the engine has the example controls at the very steps a theorem names
(`Authority.UnderExample`), whatever it has at other times.

What a theorem speaks of: the definitions that follow the source branch by branch (`Requirements.IndependenceFails`,
`ReceiptAssurance.StandingOf`, `PolicyGraph.Edges` and the like) are proved equal to statements about the fields of
controls, facts, intents, versions and events (`Requirements.Apart`, `ReceiptAssurance.Fits`, `SafePolicies.Usable` and
so on), and the main theorems are about the latter.

Where the obvious statement is false of the code, the exact condition is proved instead:

* equality of JSON values is exact only for scalars and for values without a boolean, 0 or 1 inside
  (`Predicates.EqualIsExactIff`);
* an approval that is denied after its checks is recorded all the same, exactly when the clock is outside the action's
  window or the operator is the agent (`HonestPath.DeniedYetRecordedIff`, `HonestPath.DeniedYetRecordedRun`);
* an evaluation of genuine inputs that fit together does not always decide: it fails exactly when its only mandatory
  route is of a default kind, because failure effects with verdict "route" may name any route while decisions may not,
  or when a control is selected twice, because a trace refuses a repeated entry while two controls that differ only in
  display text have one digest (`Totality.DecidesIff`, with an intent, a snapshot and facts for both in
  `TotalityExamples`);
* adding outcomes never lowers a verdict, except from the empty selection, which blocks: there it does exactly unless
  the additions block too (`Composition.ComposeMonotone`);
* one evidence fact that serves two requirements makes a receipt impossible (`ReceiptAssurance.SharedFactRefused`);
  the exact condition for a receipt is `ReceiptAssurance.AssessOkIff`;
* events in effect are a prefix of their chain at all times only if their times never go back
  (`Lifecycle.PrefixIffInOrder`);
* complete selection keys its state cache by object identifier, which a catalog does not keep unique. The cache
  changes no answer exactly where genuine versions that share an identifier are all readable or all rejected
  (`PolicyCache.CacheIsExactIff`), so in particular where no check of any version rejects; on such catalogs complete
  selection is exact (`PolicyClosure.SelectComplete`). `SharedIdentifiers.SharedIdentifierRun` proves, for any hash
  functions, that on a catalog where they differ its answer is wrong;
* direct selection looks for dependencies among its candidates only: where that set is not closed it finds no safe
  policy although complete selection may find one (`DirectSelection.DirectAgreesIff`). A difference by dependency
  cycles could only come from hashes that cover themselves (`DirectSelection.GroundedDirectAgreesIff`; hashes that do
  not are shown to exist by `DirectSelection.GroundedHashesExist`).

## Model

| member | source | states |
|---|---|---|
| Calendar.CivilAfterDays | backend/src/assurance/contracts/common.py:93-126 | every valid Gregorian date survives the trip to its day number and back |
| Calendar.DaysAfterCivil | backend/src/assurance/contracts/common.py:93-126 | every integer is the day number of a valid date, the one it converts to |
| Calendar.NextDayIsNextNumber | backend/src/assurance/contracts/common.py:93-105 | tomorrow, by the leap rule and month lengths, has the next day number |
| Calendar.DaysFollowCalendar | backend/src/assurance/contracts/common.py:93-105 | day numbers of valid dates are ordered exactly as (year, month, day) |
| Instant.TicksAfterText | backend/src/assurance/contracts/common.py:129-166 | parsing a printed instant returns its ticks, for 6 and 7 fraction digits |
| Instant.TextAfterTicks | backend/src/assurance/contracts/common.py:129-166 | printing a parsed instant returns its text |
| Instant.PrintableIffSpelled | backend/src/assurance/contracts/common.py:155-166 | ticks are printable exactly when some accepted text spells them |
| Instant.TextOrderIsTickOrder | backend/src/assurance/controlspec/openshell_demo/target.py:72-74 | for accepted texts, string order is instant order |
| Instant.PairAcceptedIffEqual | backend/src/assurance/contracts/common.py:169-195 | a pair is accepted exactly when the parsed text equals the 19-digit decimal; the int64, padding and reverse-print tests never decide |
| Instant.PairOrder | backend/src/assurance/contracts/objects.py:2020-2023 | on accepted pairs, text order, decimal order and numeric order coincide, and so does equality |
| Instant.DatabaseClockConverts | backend/src/assurance/contracts/common.py:198-217 | a database clock converts exactly when it is not before 1970 and its year is printable, and then exactly |
| Pointer.DecodeSegment | backend/src/assurance/controlspec/predicate.py:35-47 | the in-place loop computes the decoding of a token or the escape error |
| Pointer.DecodeIsTwoPass | backend/src/assurance/controlspec/predicate.py:35-47 | one pass equals the two substitutions of section 4 of RFC 6901 on validly escaped tokens and fails on exactly the others |
| Pointer.ResolvePointer | backend/src/assurance/controlspec/predicate.py:50-76 | the loop walks the document as the recursive resolution does, errors included |
| Pointer.ResolveInvertsEncode | backend/src/assurance/controlspec/predicate.py:50-76 | a pointer written by the escaping of section 3 of RFC 6901 for any path into a document resolves to the node the path leads to |
| Pointer.ResolvesIff | backend/src/assurance/controlspec/predicate.py:50-76 | a pointer resolves to a value exactly if it is the escaping of a path, from one of the four permitted roots, to that value |
| Pointer.RefusedIff | backend/src/assurance/controlspec/predicate.py:50-76 | a pointer is refused exactly if it is not absolute, its root is not permitted, or it comes to a badly escaped segment, or at an array to one that is not the decimal of a number |
| Documents.ActorReads | backend/src/assurance/controlspec/predicate.py:26-32 | a pointer under "/actor" reads the actor's own identifier, namespace, version and attributes |
| Documents.ActorTypeReads | backend/src/assurance/controlspec/predicate.py:26-32 | a pointer to "/actor/type" reads one word for each of the six actor types |
| Documents.LineageReads | backend/src/assurance/controlspec/predicate.py:26-32 | a pointer to the k-th lineage reference, or to the owner, reads that reference |
| Documents.RefReads | backend/src/assurance/controlspec/predicate.py:26-32 | a pointer into a reference reads its identifier, namespace, type, version or null, and digest in hexadecimal or null |
| Documents.ActionReads | backend/src/assurance/controlspec/predicate.py:26-32 | a pointer under "/action" reads domain action and requested effect, and one word for each of the seven kinds of action |
| Documents.ResourceReads | backend/src/assurance/controlspec/predicate.py:26-32 | a pointer under "/resource" reads the resource's fields, one under "/context" the entry of that name or nothing |
| Predicates.EqualIsExactIff | backend/src/assurance/controlspec/predicate.py:79-84 | equality with a value is exact precisely when it is a scalar or holds no boolean, 0 or 1 at any depth |
| Predicates.JudgedIff | backend/src/assurance/controlspec/predicate.py:87-119 | a predicate is true exactly if the pointer leads to what is asked for: the value, one of the values, an integer in the asked order, presence or absence; unknown exactly if there is nothing to judge or to order; otherwise false |
| Selection.ValidateSnapshot | backend/src/assurance/controlspec/selection.py:59-80 | the loop over identities finds the first error of a snapshot |
| Selection.SnapshotValidIff | backend/src/assurance/controlspec/selection.py:59-80 | a snapshot is valid exactly when all digests are genuine, every verifier of a condition, evidence or profile requirement is supported, and controls of one namespace, identifier and version are one control |
| Selection.SnapshotFault | backend/src/assurance/controlspec/selection.py:59-80 | the error of a snapshot: its own digest, else at the first control that cannot follow those before it, that control's digest, verifiers or identity, in this order |
| Selection.SelectByLoop | backend/src/assurance/controlspec/selection.py:106-141 | the selection loop with its skips and sort gives the selected outcomes or the first error |
| Selection.SelectedExactly | backend/src/assurance/controlspec/selection.py:106-141 | selected are exactly the published controls in their window, of the namespace, actor type, action, domain action and resource type, all of whose predicates are true or unknown; each gives its effect, or its unknown failure if one is unknown, under its own reference |
| Requirements.AssessByLoop | backend/src/assurance/controlspec/requirements.py:197-297 | the nested accumulating loops equal the joined assessment of all outcomes, errors included |
| Requirements.OutcomesCleanIff | backend/src/assurance/controlspec/requirements.py:113-297 | an assessment adds nothing restrictive exactly when every condition's test is true under the registered verifier; for every approval at least the minimum of facts answer it and each of them is apart: its lineage is complete, every role to be separate from is recorded, and approver and approver lineage are disjoint from the actor's and from each such role's; and every profile has matching facts, all satisfied and retaining a permissive verdict |
| Composition.PermissiveHasBase | backend/src/assurance/controlspec/composition.py:119-130 | where a permissive verdict takes the first base route there is one: the index is never out of range |
| Composition.PermissiveIff | backend/src/assurance/controlspec/composition.py:83-130 | a composed verdict permits exactly when something applied, independence held and every value is permissive |
| Composition.VerdictByValues | backend/src/assurance/controlspec/composition.py:83-130 | the verdict in closed form: block, conflict, route, approval, conditions, allow |
| Composition.ComposeOrderIndependent | backend/src/assurance/controlspec/composition.py:67-143 | the whole result depends only on which outcomes and entries there are, not on order or repetition |
| Composition.ComposeIgnoresOrder | backend/src/assurance/controlspec/composition.py:67-143 | any rearrangement of outcomes and of every assessment list gives the same result |
| Composition.ComposeMonotone | backend/src/assurance/controlspec/composition.py:67-130 | more outcomes, failures or profile outcomes, or failed independence, do not lower the verdict exactly if the selection was nonempty or the new verdict is block |
| Ordering.UniqueByDictionary | backend/src/assurance/controlspec/composition.py:40-44 | filling a dictionary and reading it in key order gives one value per key, first wins, sorted |
| Ordering.UniqueOfSameMembers | backend/src/assurance/controlspec/composition.py:40-44 | deduplication depends only on the members |
| Evaluator.PermitsIff | backend/src/assurance/controlspec/evaluator.py:67-109 | a decision permits exactly when some control is selected and, for each, no predicate is unknown, the effect permits, and conditions, approvals and profiles are served, all said of the facts' own fields |
| Contributions.OutcomesContents | backend/src/assurance/controlspec/requirements.py:197-297 | the assessment lists hold exactly what the selected controls contribute: each failure, approval, evidence demand, condition result, code and retained effect comes from a requirement or condition of one of them |
| Decisions.DecidesRightly | backend/src/assurance/controlspec/composition.py:67-143 | verdict and route of a decision by what the selected controls contribute: block first, then conflicting routes, one route, approval, conditions, allow; the route is the first candidate for that verdict in canonical order, or the safety route; recheck is required exactly for approval, route, or a route that asks for it |
| Decisions.DecisionLists | backend/src/assurance/controlspec/composition.py:131-143 | required evidence, approvals, conditions and applied controls of a decision are exactly those that requirements and conditions of the applying controls demand or profile facts retain, each once, in canonical order |
| Decisions.DecisionCodes | backend/src/assurance/controlspec/composition.py:131-143 | the explanation codes of a decision: of each selected control, of what failed or was retained, and of the verdict |
| Decisions.DecisionNames | backend/src/assurance/controlspec/evaluator.py:111-186 | identifier, references, times, predecessor, conformance and every binding field of a decision are those of its inputs |
| Evaluator.EqualDecisionsEqualInputs | backend/src/assurance/controlspec/evaluator.py:111-186 | equal decisions come from equal intents, snapshots, facts and lifetimes |
| Totality.DecidesIff | backend/src/assurance/controlspec/evaluator.py:67-109 | for validated controls, a decision is returned exactly when intent, snapshot, controls and facts are genuine, no identity stands for two controls, verifiers are supported, pointers of matching controls in force resolve, profile facts that count are consistent, no control is selected twice, and not a single mandatory route of a default kind remains unblocked; on such inputs the latter alone is the decision error |
| Totality.EvaluationAnswers | backend/src/assurance/controlspec/evaluator.py:67-109 | for validated controls, the answer of every evaluation: intent digest, fault of the snapshot, refused pointer, fact digest, inconsistent profile fact, trap, repeated control, each exactly where nothing before it is wrong, and otherwise a decision |
| Totality.SafeControlsDecide | backend/src/assurance/controlspec/contracts.py:386-396 | if no failure of any control routes to a default route, genuine inputs that fit together and select no control twice are exactly those that decide |
| Totality.SelectsIff | backend/src/assurance/controlspec/selection.py:59-141 | selection succeeds exactly on a valid snapshot whose matching controls in force resolve all their pointers |
| Totality.AssessesIff | backend/src/assurance/controlspec/requirements.py:197-297 | assessment succeeds exactly on genuine facts whose retained verdict and route are consistent wherever a registered verifier and only satisfied facts make them count |
| Totality.TraceDistinctIff | backend/src/assurance/controlspec/facts.py:117-130 | the trace has no repeated entry exactly when no control is selected at two places of the snapshot |
| TotalityExamples.UnknownFailureTraps | backend/src/assurance/controlspec/contracts.py:585-590 | an intent, a snapshot of one valid control and facts for which evaluation has no decision, because an unknown predicate routes to a default route |
| TotalityExamples.RepeatedControlFails | backend/src/assurance/controlspec/contracts.py:121-128 | a snapshot with one control twice, differing in display text, for which evaluation fails at its trace |
| Recheck.ValidOnlyForSameInputs | backend/src/assurance/controlspec/recheck.py:29-75 | rechecking a decision is valid with its own inputs and with no others |
| Recheck.ReasonIff | backend/src/assurance/controlspec/recheck.py:29-75 | the answer to a recheck: expired, invalid input, valid, another intent, other applied controls, or another change, each with its exact condition on the inputs; a changed context alone is never named |
| ReceiptAssurance.AssessReceiptByLoop | backend/src/assurance/controlspec/receipt.py:103-206 | the loop that fills the missing and verified lists gives the receipt or the first error |
| ReceiptAssurance.AssessOkIff | backend/src/assurance/controlspec/receipt.py:103-206 | a receipt exists exactly when the observation binds, required evidence is genuine, the sequence number is positive, no two matches of requirement and fact use one evidence reference, and under-served requirements have different identifiers |
| ReceiptAssurance.ReceiptRefusals | backend/src/assurance/controlspec/receipt.py:103-206 | which error an assessment gets, in order: decision, observation, recheck, intent, window, recording time, evidence, and otherwise the receipt itself |
| ReceiptAssurance.StatusIff | backend/src/assurance/controlspec/receipt.py:130-172 | status and outcome of every receipt: complete, incomplete or failed, completed, blocked, incomplete or failed, each exactly by recheck, verdict, route, served evidence and execution |
| ReceiptAssurance.ReceiptHolds | backend/src/assurance/controlspec/receipt.py:52-206 | verified are exactly the references of facts that fit a requirement (intent, kind, subject, age, separation of actor, producer and certifier), missing exactly the requirements with too few, and all else is decision, observation and report as given |
| ReceiptAssurance.SharedFactRefused | backend/src/assurance/controlspec/contracts.py:632-637 | a fact that serves two requirements of the decision leaves no receipt possible |
| ReferenceService.ServiceDecides | backend/src/assurance/controlspec/reference_service.py:445-502 | the service refuses foreign intents and unknown selections, and otherwise returns the evaluation of the catalog's controls under the catalog's verifiers at this time, good for 300 seconds and for conformance only |
| ReferenceService.ValidRecheckIsSound | backend/src/assurance/controlspec/reference_service.py:523-637 | a valid recheck means same intent, all six comparisons same, same decision, and time before expiry |
| ReferenceService.ClientAcceptsEveryRecheck | backend/src/assurance/controlspec/client.py:329-352 | every recheck response of the service, valid or not, passes the client's checks |
| ReferenceService.ClientBelieves | backend/src/assurance/controlspec/client.py:329-352 | whoever answered, an accepted response names the client's own decision and selection, and a valid one is for the decided intent, unchanged throughout, and before the decision's end |
| ReferenceService.RecheckCompares | backend/src/assurance/controlspec/reference_service.py:504-637 | a recheck is refused exactly for a prior decision or intents that do not bind, an unknown selection, or missing facts; otherwise its six comparisons say whether actor, action, resource and context are equal, every applied control is in the catalog, published and in its window, and the decision unexpired |
| ReferenceService.DecideThenRecheck | backend/src/assurance/controlspec/reference_service.py:445-637 | rechecking a decision of the service for any genuine intent: expired from its end on, ineffective once one of its controls is not published or not in its window, valid for the same intent, and for another one no facts, invalid input or a changed intent |
| ReferenceService.ServiceAssessesIff | backend/src/assurance/controlspec/reference_service.py:639-712 | the service gives a receipt exactly if the report is not from the future and in the decision's window, the recheck answers, facts are there, required evidence is genuine, no two matches share a reference and under-served requirements differ |
| ReferenceService.ServiceReceipt | backend/src/assurance/controlspec/reference_service.py:639-712 | a receipt of the service says nothing was executed and is incomplete exactly if the recheck is valid, the decision permits, its route is reported and some evidence is not served; any other failed |
| ReferenceService.CompleteGuardNeverFires | backend/src/assurance/controlspec/reference_service.py:639-712 | no service assessment is complete, so the guard against it is never reached |
| TraceOrder.TraceRefsAreApplied | backend/src/assurance/controlspec/facts.py:117-130 | the entries of a trace, sorted by their canonical text, name the applied controls of the decision in the same order, because no text of a reference begins with that of another |
| TraceOrder.TraceTells | backend/src/assurance/controlspec/evaluator.py:67-109 | a trace has an entry for each selected control and no other: its reference, which predicates are true and which unknown, and the code of the effect or unknown failure it contributes |
| ReferenceService.BindingsNeverDiffer | backend/src/assurance/controlspec/reference_service.py:469-473 | the guard against a decision and a trace that name different controls is never reached |
| ScenarioFacts.ScenarioProvider.FactsFor | backend/src/assurance/controlspec/reference_service.py:263-306 | whatever was asked and cached before, the answer is that of a fresh resolution |
| ScenarioFacts.ScenarioProvider.ProviderFor | backend/src/assurance/controlspec/reference_service.py:248-261 | the cached provider of a verified scenario is the one that would be loaded for it |
| ScenarioFacts.AnswersIff | backend/src/assurance/controlspec/reference_service.py:210-306 | when a release answers and what: its own context, every scenario genuine, and either no scenario for exactly this release, selection, time, intent and controls, and no facts, or exactly one, and its own approvals and basis, or its provider's facts under its digest; in every other case there is no answer |
| ScenarioFacts.AnswerIgnoresPrior | backend/src/assurance/controlspec/reference_service.py:263-306 | if no loaded provider reads the prior decision, neither does the release: recheck gets the facts the decision got |
| ScenarioFacts.AnswerIgnoresOrder | backend/src/assurance/controlspec/reference_service.py:263-306 | a successful answer does not depend on the order of the scenarios |
| Ledgers.Ledger.Add | backend/src/assurance/controlspec/openshell_demo/ledger.py:58-83 | appending extends the log by one event chained to its head, returns the new head, and keeps a verifiable log verifiable |
| Ledgers.Ledger.Find | backend/src/assurance/controlspec/openshell_demo/ledger.py:85-94 | the payload of the newest event of a kind for an action in a scope |
| Ledgers.LatestIff | backend/src/assurance/controlspec/openshell_demo/ledger.py:86-94 | what is found is the payload of an event of that kind, action and scope with none after it, and nothing is found only if there is none |
| Ledgers.Ledger.Verify | backend/src/assurance/controlspec/openshell_demo/ledger.py:103-115 | the loop accepts exactly the chained logs |
| Ledgers.AppendAllKeepsChain | backend/src/assurance/controlspec/openshell_demo/ledger.py:58-83 | any run of appends keeps a log verifiable |
| Ledgers.HeadFixesHistory | backend/src/assurance/controlspec/openshell_demo/ledger.py:103-115 | two verifiable logs with the same last hash hold the same history |
| Policy.RequestDigestInjective | backend/src/assurance/controlspec/openshell_demo/policy.py:94-97 | a request digest names one request |
| Policy.AgentOfOneScope | backend/src/assurance/controlspec/openshell_demo/policy.py:60-69 | every gateway and sandbox has its own agent identifier |
| Policy.IntentIsOne | backend/src/assurance/controlspec/openshell_demo/policy.py:228-275 | the context digest of a purchase names its request and scope, its intent digest moreover the time it was first seen |
| Policy.PurchasePredicates | backend/src/assurance/controlspec/openshell_demo/policy.py:112-207 | through pointer resolution the policy's predicates read exactly amount and recurrence of the request |
| Policy.SyntheticSelection | backend/src/assurance/controlspec/openshell_demo/policy.py:112-207 | exactly one of the three example controls applies to any purchase |
| Policy.SyntheticDecision | backend/src/assurance/controlspec/openshell_demo/policy.py:112-275 | every purchase, at any time and with any genuine approvals, gets a decision, whose verdict is given in closed form |
| Engine.DemoEngine.EvaluateIn | backend/src/assurance/controlspec/openshell_demo/engine.py:135-183 | the shared evaluation appends the decided state, or denies and appends nothing |
| Engine.DemoEngine.Evaluate | backend/src/assurance/controlspec/openshell_demo/engine.py:185-206 | new ledger and outcome are those of the atomic step |
| Engine.DemoEngine.Approve | backend/src/assurance/controlspec/openshell_demo/engine.py:213-301 | new ledger and outcome are those of the atomic step, rollback included |
| Engine.DemoEngine.Authorize | backend/src/assurance/controlspec/openshell_demo/engine.py:303-360 | new ledger and outcome are those of the atomic step |
| Engine.DemoEngine.Reconcile | backend/src/assurance/controlspec/openshell_demo/engine.py:362-397 | new ledger and answer are those of the atomic step |
| Target.SyntheticTarget.Commit | backend/src/assurance/controlspec/openshell_demo/target.py:65-79 | new ledger and receipt or refusal are those of the atomic step |
| Target.SyntheticTarget.CommitOnce | backend/src/assurance/controlspec/openshell_demo/target.py:87-123 | a first purchase is recorded and signed, a repeat returns it, anything else conflicts |
| Target.SyntheticTarget.State | backend/src/assurance/controlspec/openshell_demo/target.py:125-136 | count, sum and balance of the recorded purchases |
| Protocol.StepChanges | backend/src/assurance/controlspec/openshell_demo/engine.py:135-397 | under any controls a step changes the newest state of at most one action, and leaves a record that keeps request, first sight, controls and reservation, with a genuine decision about its intent |
| Protocol.AuthorizeOutcome | backend/src/assurance/controlspec/openshell_demo/engine.py:303-360 | under any controls a ticket is issued only for an unreserved action, with a permissive decision, in the action's window and within all four limits; any other authorization reserves nothing; approvals stay |
| Protocol.TicketWindow | backend/src/assurance/controlspec/openshell_demo/engine.py:323-331 | a ticket ends no later than 30 seconds on, the decision's expiry, 300 seconds after first sight, and every approval's end; and it ends after its issue exactly if issued before all of these |
| Entitlement.DecidedRecord | backend/src/assurance/controlspec/openshell_demo/engine.py:135-183 | on any sound record the example controls never fail to decide, and give the policy's verdict and a decision that expires 120 seconds later |
| Entitlement.ReservedRecordSound | backend/src/assurance/controlspec/openshell_demo/engine.py:303-360 | under the example controls the record of an issued ticket is entitled to it, and the ticket ends after its issue |
| Entitlement.RunEngineSound | backend/src/assurance/controlspec/openshell_demo/engine.py:135-397 | after any steps, restarts with other controls included, every record of an action first seen under the example controls is sound: its decision is genuine and waits for an operator only if the purchase is large and not recurring, and its approvals, if any, are one genuine fact made by an approval step of the run |
| Safety.RunSound | backend/src/assurance/controlspec/openshell_demo/engine.py:135-397 | the joint invariant of engine, tickets, evidence and target holds after every possible run, under any controls |
| Authority.TicketNeedsAuthority | backend/src/assurance/controlspec/openshell_demo/engine.py:213-360 | in every run a ticket issued under the example controls means: not recurring, and at most 7500 or approved, by an operator who is not the agent, in an earlier step under the example controls that found exactly this request waiting and made the one fact the action carries at issue, which counts then |
| Authority.TicketIsPermitted | backend/src/assurance/controlspec/openshell_demo/engine.py:303-360 | in every run, whatever the controls, a ticket means that the controls in force permit the recorded intent at this time, in the sense of `Evaluator.PermitsIff`, on the facts of at most one approval of exactly this request by someone with the operator secret |
| Authority.ApprovalOrigin | backend/src/assurance/controlspec/openshell_demo/engine.py:213-301 | in every run, under any controls, the approvals of an action are always the facts of one approval step with the operator secret, that found this very request waiting for it |
| Authority.ApprovalFactFields | backend/src/assurance/controlspec/openshell_demo/engine.py:240-276 | those facts answer the requirements of the approved decision one by one, name operator, intent and basis, and last from the approval to the earlier of 120 seconds and that decision's expiry |
| Safety.IssueState | backend/src/assurance/controlspec/openshell_demo/engine.py:303-360 | the state of a just issued ticket, under any controls: reserved by this ticket and not reserved before, all limits kept, approvals untouched |
| Authority.IssueRecord | backend/src/assurance/controlspec/openshell_demo/engine.py:303-360 | under the example controls it is also entitled, and the ticket ends after its issue |
| Safety.FirstSight | backend/src/assurance/controlspec/openshell_demo/engine.py:143-156 | in every run the newest state of an action keeps request, time and controls of the step that saw it first |
| Safety.TicketKeepsPolicy | backend/src/assurance/controlspec/openshell_demo/engine.py:157-164 | in every run a ticket is issued under the very controls that saw its action first, which the ticket names, for the request first seen and less than 300 seconds later, whatever restarts lie between |
| Safety.ReservedForever | backend/src/assurance/controlspec/openshell_demo/engine.py:303-360 | in every run, under any controls and restarts, a reservation and its request never change again |
| Safety.OneTicketPerAction | backend/src/assurance/controlspec/openshell_demo/engine.py:316-318 | at most one ticket per action and scope in any run, under any controls and restarts |
| Safety.ReconcileIsSound | backend/src/assurance/controlspec/openshell_demo/engine.py:362-397 | under any controls, reconciliation succeeds only if the target committed exactly the reserved request, amount and nonce inside the ticket's window |
| Spending.ReservedWasIssued | backend/src/assurance/controlspec/openshell_demo/engine.py:303-360 | under any controls, every reservation comes from one authorization step of the run, for the reserved request |
| Spending.PurchasesInjectIntoTickets | backend/src/assurance/controlspec/openshell_demo/target.py:65-123 | under any controls, each purchase was made under one issued ticket, for its request, nonce and amount, committed between the ticket's own issued_at and expires_at, and no ticket has two purchases |
| Spending.SpentWithinGranted | backend/src/assurance/controlspec/openshell_demo/target.py:125-136 | under any controls, the target never spends more than the amounts of the issued tickets |
| Histories.RunVerifies | backend/src/assurance/controlspec/openshell_demo/ledger.py:103-115 | after any steps, restarts included, both ledgers verify and still begin with what they held before |
| Entitlement.PermissiveIffEntitled | backend/src/assurance/controlspec/openshell_demo/policy.py:112-207 | the policy permits a sound record exactly when it is small and one-time, or one-time and approved by an operator who is not the agent with a fact valid now |
| Progress.DeniedIff | backend/src/assurance/controlspec/openshell_demo/engine.py:157-164 | under any controls, evaluation is denied exactly for another request than the recorded one, other controls than those that saw it first, or a clock outside the action's window |
| Refusals.EvaluationRefusals | backend/src/assurance/controlspec/openshell_demo/engine.py:135-206 | under any controls: an evaluation is denied exactly for another request, else other controls, else a clock outside 300 seconds, with that reason, and the newest ledger event is that denial |
| Refusals.AuthorizationNotes | backend/src/assurance/controlspec/openshell_demo/engine.py:303-360 | under any controls: the newest ledger event of a denied authorization is its denial; a stale action is denied as such, a failed evaluation leaves the ledger as it was, a reserved action is denied as such, and any other gets a ticket, approval required or policy denied by verdict and route |
| Refusals.AuthorizationAnswers | backend/src/assurance/controlspec/openshell_demo/engine.py:303-360 | under the example controls, every answer by request and recorded action: stale, already reserved, policy denied if recurring, ticket up to 7500, approval required without an approval that counts now, policy denied if the operator is the agent, else ticket; the ledger notes every denial |
| Refusals.ApprovalNotes | backend/src/assurance/controlspec/openshell_demo/engine.py:213-301 | under any controls: an approval is denied for the first of wrong secret, unknown action, not pending, expired decision, no approval asked for, other controls, and the ledger notes every denial |
| Refusals.ApprovalDecided | backend/src/assurance/controlspec/openshell_demo/engine.py:213-301 | under any controls, past those refusals: expired outside the action's window, undone where the evaluation fails, and otherwise approved or rejected by verdict and route |
| Refusals.ApprovalAnswers | backend/src/assurance/controlspec/openshell_demo/engine.py:213-301 | under the example controls, every answer: those refusals, then expired outside the window, rejected exactly if the operator is the agent, else approved |
| Refusals.CommitAnswers | backend/src/assurance/controlspec/openshell_demo/target.py:65-123 | for any ledger: invalid ticket, expired, another request, conflict or repeat with the ledger unchanged, or one new event with the receipt: committed, action, scope, request, nonce, amount, time, signed |
| Refusals.ReconcileAnswers | backend/src/assurance/controlspec/openshell_demo/engine.py:362-397 | for any ledger: one event with what was presented and the verdict, which is true exactly for a reserved action and evidence signed as committed for this request, scope and reserved nonce |
| Progress.AuthorizesIff | backend/src/assurance/controlspec/openshell_demo/engine.py:303-360 | under the example controls authorization succeeds exactly for the recorded request, first seen under these controls, inside the action's window, unreserved and entitled |
| Progress.ApprovesIff | backend/src/assurance/controlspec/openshell_demo/engine.py:213-301 | under the example controls approval succeeds exactly with the secret, on an action first seen under these controls that waits, before its decision expires, in the action's window, by an operator who is not the agent |
| Progress.CommitsIff | backend/src/assurance/controlspec/openshell_demo/target.py:65-123 | a commit succeeds exactly for a verified ticket of this request in its window, and a presented ticket never meets a conflicting purchase |
| Progress.ReconcilesIff | backend/src/assurance/controlspec/openshell_demo/engine.py:362-397 | reconciliation succeeds exactly for the recorded purchase of the reserved request |
| HonestPath.ApprovedState | backend/src/assurance/controlspec/openshell_demo/engine.py:279-301 | an approval past its refusals is recorded with its one fact even if the call is denied |
| HonestPath.DeniedYetRecordedIff | backend/src/assurance/controlspec/openshell_demo/engine.py:279-301 | a waiting action's approval is denied and recorded exactly when the clock is outside the action's window or the operator is the agent |
| HonestPath.DeniedYetRecordedRun | backend/src/assurance/controlspec/openshell_demo/engine.py:279-301 | possible runs of a start and two steps in which that happens |
| HonestPath.LargePurchaseIsIssued | backend/src/assurance/controlspec/openshell_demo/engine.py:185-360 | evaluate, approve, authorize within 120 seconds under the example controls issues a ticket, whatever else happens in between: retries of the same action at any clock, and restarts with other controls |
| HonestPath.SmallPurchaseIsIssued | backend/src/assurance/controlspec/openshell_demo/engine.py:303-360 | under the example controls a small one-time purchase of a new action gets its ticket at once |
| Completion.IssuedIsReleased | backend/src/assurance/controlspec/openshell_demo/engine.py:86-107 | an issued ticket can be presented from the next step on |
| Completion.IssuedTicketCommits | backend/src/assurance/controlspec/openshell_demo/target.py:65-123 | under any controls, an issued ticket commits its request inside its window, whatever happened since |
| Completion.CommittedTicketReconciles | backend/src/assurance/controlspec/openshell_demo/engine.py:362-397 | under any controls, once committed, the purchase stays and reconciling with its receipt succeeds at any later time |
| Lifecycle.CheckState | backend/src/assurance/runtime/selection.py:81-112 | the loop rejects exactly the unlinked chains and otherwise gives the last stage in effect and the events in effect |
| LifecycleState.ReadableIff | backend/src/assurance/runtime/selection.py:81-112 | events are read exactly if those about the version each carry its reference, content hash and their own hash, no number occurs twice, and each begins at 1 with no prior or continues, by number, prior reference and prior stage, another of them |
| LifecycleState.StandingIff | backend/src/assurance/runtime/selection.py:81-112 | read are exactly the events that have taken effect, by rising number, and the stage is the one the greatest of them leads to |
| LifecycleState.LastEventFixesChain | backend/src/assurance/runtime/selection.py:81-112 | with an event hash that names its event, two chains of a version that end in one event are the same |
| Lifecycle.ClaimsEffectivePublished | backend/src/assurance/runtime/selection.py:259-272 | the unchecked loop says whether the last event in effect publishes, and agrees with the checked reading of every version that passes it |
| Lifecycle.ValidateLifecycle | backend/src/assurance/controlspec/mapping.py:405-457 | a chain is accepted exactly when it is linked and is the first 0 or 1, 4 or 5 stages for a draft, published or retired version |
| Lifecycle.AcceptedChainIsReadable | backend/src/assurance/controlspec/mapping.py:97-103 | an accepted chain is never rejected by the state reading and, once all in effect, gives the projected status |
| Lifecycle.PrefixIffInOrder | backend/src/assurance/runtime/selection.py:108-111 | the events in effect are a prefix of the chain at every time exactly when their times never go back |
| Lifecycle.StateIgnoresOrder | backend/src/assurance/runtime/selection.py:87-90 | the state of a version does not depend on the order in which events are stored |
| PolicyGraph.OutcomeIgnoresOrder | backend/src/assurance/runtime/selection.py:222-367 | the right outcome does not depend on the order of versions and events in the catalog |
| PolicyGraph.SettledIsUnblocked | backend/src/assurance/runtime/selection.py:301-324 | what the search has filed is good, acyclic, and leads nowhere outside itself |
| PolicyCache.CacheIsExactIff | backend/src/assurance/runtime/selection.py:238-257 | the cache changes no answer exactly where genuine versions that share an identifier are all readable or all rejected |
| PolicyCache.CacheIsExact | backend/src/assurance/runtime/selection.py:238-257 | on such a catalog no sequence of checks ever changes an answer |
| PolicyCache.TrustedIsReliable | backend/src/assurance/runtime/selection.py:238-257 | if no check of any version rejects, identifiers may be shared freely |
| PolicyCache.UniqueIsReliable | backend/src/assurance/runtime/selection.py:238-257 | if identifiers are unique, selection is exact even where checks reject |
| PolicyCache.GenuineIsDistinct | backend/src/assurance/runtime/models.py:317-319 | with a content hash that names its content, a catalog of distinct genuine versions has distinct references |
| SharedIdentifiers.SharedIdentifierMisleads | backend/src/assurance/runtime/selection.py:238-295 | two versions of one module and identifier, one in force and one not readable: complete selection calls them ambiguous, which is not the right outcome |
| SharedIdentifiers.SharedIdentifierRun | backend/src/assurance/runtime/selection.py:222-367 | for any hash functions, on one such catalog of genuine versions the answer of complete selection is proved wrong |
| PolicyClosure.Search.FindRoots | backend/src/assurance/runtime/selection.py:274-291 | on a reliable catalog the roots are exactly the applicable versions in force, each once; on any catalog they and the cache are those of the sequential checks |
| PolicyClosure.Search.AddClosure | backend/src/assurance/runtime/selection.py:301-324 | the recursive search ends, and on a reliable catalog adds exactly versions reachable from its argument, or finds something reachable that is missing, foreign, not in force or on a cycle |
| PolicyClosure.SharesModule | backend/src/assurance/runtime/selection.py:370-376 | grouping by module finds exactly whether two places hold one module |
| PolicyClosure.SelectComplete | backend/src/assurance/runtime/selection.py:222-367 | ends always; with distinct references, if no check rejects, or if versions that share an identifier agree, it gives exactly the closure of the roots, sorted, with its events and decisions, or the exact failure, and rejects only if some version cannot be trusted |
| SafePolicies.OutcomeIsSafe | backend/src/assurance/runtime/selection.py:222-367 | the right outcome, of versions, dependencies and overlays alone: no safe policy if nothing applies; ambiguous if a module is twice among what applies; no safe policy if no acyclic set of usable versions, closed under dependencies and overlays, holds all that applies; ambiguous if a module is twice in every such set; else the least such set, sorted, with its events and decisions |
| SafePolicies.CompleteIsClosed | backend/src/assurance/runtime/selection.py:301-367 | every dependency and every overlay of a selected version is selected and in force, and every selected version applies itself or is a dependency or overlay of one |
| SafePolicies.UntrustedIff | backend/src/assurance/runtime/selection.py:238-257 | a rejection names a version of the catalog without its own hashes, or else without one chain of events |
| DirectSelection.Select | backend/src/assurance/runtime/selection.py:124-220 | the loops of direct selection give its candidates, its failures or its rejection |
| SafePolicies.DirectAnswers | backend/src/assurance/runtime/selection.py:124-220 | the answer of direct selection: ambiguous if two places hold proposed versions of one module; all proposed versions, sorted, with their events and decisions, if there are any and every dependency and overlay of each is proposed; else no safe policy |
| SafePolicies.DirectRejectsIff | backend/src/assurance/runtime/selection.py:124-160 | direct selection is rejected exactly for the first version of the tenant without its hashes or its chain |
| DirectSelection.DirectAgreesIff | backend/src/assurance/runtime/selection.py:124-367 | with one namespace, direct selection gives the outcome of complete selection exactly when it finds two versions of one module, a closed set without a cycle, or an unclosed set that leads to something that blocks |
| DirectSelection.CycleIsNotGenuine | backend/src/assurance/contracts/common.py:246-252 | if a content hash comes after the content hashes it covers, every dependency cycle has a version whose hashes do not hold |
| DirectSelection.GroundedDirectAgreesIff | backend/src/assurance/runtime/selection.py:124-367 | with such hashes cycles play no part in the comparison |

## Left out

- HTTP, gRPC, TLS, tokens, command lines and recording scripts: transport around the modelled core.
- SQLite: a transaction is one atomic step that commits or rolls back; `pending` only reads.
- `commit_unguarded`: a host-only baseline that the application never exposes; with it a presented ticket could meet a
  conflicting purchase.
- SHA-256, HMAC, base64 and RFC 8785 byte encoding: digests and MACs are symbolic. A literal string is never equal to
  the text of a digest.
- Parsing of wire objects, regular expressions on identifiers, semantic versions, extensions, titles, descriptions and
  other display fields.
- Of the evaluation trace all but its entries and their order; the snapshot's rejection of entries that repeat in
  every byte (two entries that differ only in display text are one value here); authority modes beyond conformance or
  not.
- Years before 1000 as the C library would print them without zeros: timestamps are zero-padded to four digits.
- Instants beyond year 9999 in computed expiry times, which the source cannot represent.
- The start-up checks that both secrets are long and different: no theorem needs them. A restart changes the controls,
  not the secrets, the operator or the database.
- Digits outside ASCII in array indices of a pointer.
- `NamespaceScopedFactProvider` and the loading of enterprise fixtures: providers are functions.
- Failures of canonicalization on odd caller input.
- Predicates.EvaluatePredicate: a comparison bound is an integer, the only kind its schema accepts.
- PolicyClosure.SelectComplete: the two reference lists are sets here; their order in the source is by identifier
  bytes and hash.
- PolicyClosure.Search.AddClosure: nothing is said of the search state after a failure, which the source drops.
- ReferenceService.DecideThenRecheck: the fact provider is a function that does not read the prior decision, as every
  provider in the repository is; `ScenarioFacts.AnswerIgnoresPrior` says why that holds for releases.
- Projections between the two contract families, except the lifecycle check.
