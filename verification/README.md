# A verified model of InfernoSIM's deterministic cores

InfernoSIM captures the HTTP, gRPC and Kafka traffic of a service and replays it
deterministically. This project models the parts of it that decide what a replay
means, and proves what they promise. Loops and in-place edits of the program are
methods here, each proved against a specification function; the theorems are lemmas
about those functions, for every input, every run or every interleaving.

The modules, by the part of the program they follow:

* **Dependency stub.** `StubProxy` is the stub's mutable state with its reset,
  cardinality, ticket and first-fit steps. `Allocation` is first fit over an arbitrary
  match relation: conservation, refusals, first come first served by class, and
  commutation. `Fanout` is the concurrent run as a state machine in which a worker may
  be interrupted between taking its ticket and being matched, and `Schedule` carries out
  its steps on the stub. `ExactMatch` shows that matching without rules is equality of a
  key, which is what the fanout theorems need. `Healing` is the ambiguity check that
  guards a proposed matcher.
* **JSON paths and documents.** `JsonPath` has one meaning for path texts and the two
  parsers and the evaluator that follow it, `PathGrammar` the texts they accept;
  `TemplatePath` is the template engine's one-pass interpreter; `PathText` says when a
  location can be recovered from its text.
  `PathEdit` says what a list of edits does to a document, `JsonHeap` is a decoded
  document as shared mutable containers with a ghost tree over them, and `IgnoredPaths`
  and `Privacy` are the two in-place editors over it. `Flatten` lists the scalars of a
  document in key order (`Sorting`).
* **Schemas.** `OpenApi` is the validator and `Generator` the example generator over one
  possibly cyclic component graph; `Violations` says what each reported violation
  means; `Recursion` compares the validator's cycle guard with a check that is never cut
  below the payload.
* **Workflows.** `Workflow` has the verifier's loops; `Greedy` is the scan they perform.
* **Kafka and gRPC.** `Windows` and `KafkaPlan` are the fault planner and its counters,
  `GrpcFrames` the length-prefixed codec.
* **State machines.** `Scenario` is the scenario engine with the linter's fixpoint,
  `EventLog` the crash-recovering log.

`Json`, `Text` and `Division` hold what several modules share.

Parameters stand for what the program calls but does not define: regular expressions
and matchers are arbitrary predicates, the case tables of Unicode are arbitrary maps,
the reading of a URL is an optional record, JSON texts are read and written by arbitrary
functions, response fingerprints, payload hashes and the rendering of a scalar are
arbitrary values, and the record encoding of the log is any codec with the four
guarantees of JSON records spelled out in `EventLog.Good` (`GoodCodecsExist` shows that
they can be met). Encoding a decoded document again is taken to be injective, so two
bodies are compared as trees. Go's map iteration order is an arbitrary choice of the next
key.

Some promises hold only under a condition. The code is modelled as it is. The condition
is stated exactly, by a lemma that is an equivalence, and another lemma shows an input
outside it:

* The template engine and the matcher agree on a path text exactly when it is regular
  or both reject it (`TemplateAgreesExactlyWhenRegular`); `$.a..b` is not regular
  (`DoubledDotDisagrees`), and the root path differs on a null document.
* The matcher finds a scalar again under its flattened text, in every document, exactly
  when the location is clean (`TextIsReadBackExactly`). A key can share its flattened
  text with any other location exactly when it holds a dot or ends in a printed index
  (`KeyCollidesExactly`, `DottedKeyCollides`); documents without such keys keep all
  their scalars apart (`FlattenKeepsLocationsApart`).
* With required correlation a workflow is complete for the correlation that its first
  step binds (`RequiredCompleteForFirstBinding`), with preferred correlation for the one
  the scan binds (`PreferCompleteForBinding`), not for every correlation
  (`PaidOrderIsReportedMissing`). In every mode nothing is reported exactly when the
  earliest admissible choice of observations is punctual (`NoFindingsExactly`); a later
  choice may be on time and is reported all the same (`PromptAnswerIsReportedLate`).
* A generated example conforms exactly when the visited schemas are generable
  (`ExampleConformsExactly`); a required name that is not declared is the simplest
  violation (`UndeclaredRequiredNameIsRefused`).
* The validator never resets its cycle guard on the way down a payload. A payload passes
  the full check exactly when it passes the guarded one and the values the guard took on
  trust pass the full check (`GuardedCheckExactly`); in a document in which no component
  reaches itself there are none (`AcyclicDocumentsAreFullyChecked`), and in a recursive
  one anything may stand there (`RecursionIsNotChecked`).

The planner's counters are right exactly when the ids at the positions that are not
dropped differ (`CountersExactly`). Records as they are loaded always meet that; what
would happen otherwise is shown by `SharedIdsMisreport`.

## Model

| member | source | states |
|---|---|---|
| StubProxy.Stub.constructor | pkg/stubproxy/stubproxy.go:143-156 | a new stub has no limit, multiplier 1, and no event used |
| StubProxy.Stub.Reset | pkg/stubproxy/stubproxy.go:161-177 | the counters, use counts and divergences are cleared; the multiplier stays |
| StubProxy.Stub.ConfigureReplayCardinality | pkg/stubproxy/stubproxy.go:181-196 | the multiplier is the least positive one with which the log can answer the allowed number of requests |
| StubProxy.Stub.BeginRun | cmd/agent/main.go:926-927 | preparing a run of fanout k gives multiplier k, a limit of events times k, and untouched events |
| StubProxy.Stub.Admit | pkg/stubproxy/stubproxy.go:247-266 | a ticket is good exactly when there is no limit or it is within it; a bad one is one divergence |
| StubProxy.Stub.MatchExpected | pkg/stubproxy/stubproxy.go:535-552 | the answer is the first matching event that is not used up, and exactly its count grows by one |
| StubProxy.Stub.Answer | pkg/stubproxy/stubproxy.go:309-325 | the first matching usable event answers and is charged; no match is one divergence with the number of the ticket |
| StubProxy.Stub.ServeHTTP | pkg/stubproxy/stubproxy.go:227-324 | which of CONNECT, a bad body, the limit, a scenario, the empty log, a refusal or an event decides; only a ready request takes a ticket, only a served one uses an event, only a refused or excess one diverges |
| Allocation.Conservation | pkg/stubproxy/stubproxy.go:535-552 | over every run and match relation, the use counts grow by the number of served requests and never exceed the multiplier |
| Allocation.RefusalMeansSaturated | pkg/stubproxy/stubproxy.go:535-552 | a request is refused exactly when every event matching it has been used multiplier times |
| Allocation.RefusalIsFinal | pkg/stubproxy/stubproxy.go:535-552 | a request refused once is refused for the rest of the run |
| Allocation.ClassFIFO | pkg/stubproxy/stubproxy.go:535-552 | in any interleaving the j-th request of a match class gets the class's event number j / multiplier in log order, or is refused when there is none |
| Allocation.SwapChangesNothing | pkg/stubproxy/stubproxy.go:535-552 | swapping adjacent requests without a common event changes no answer in the run and not the state it leaves |
| Fanout.Serializable | pkg/stubproxy/stubproxy.go:243-266 | every interleaving answers as some sequential run does, and within the limit no request is lost or turned away |
| Fanout.FanoutNeverDiverges | pkg/stubproxy/stubproxy.go:181-196 | at every moment of every interleaving of at most k copies of the captured requests, nothing was turned away or refused |
| Fanout.FanoutUsesEverything | pkg/stubproxy/stubproxy.go:535-552 | when all k copies are matched, every event with a request has been used exactly k times |
| Schedule.RunSchedule | pkg/stubproxy/stubproxy.go:243-325 | a schedule of arrivals and matches carried out on the stub gives the tickets, answers and use counts of the state machine, and one divergence for every request turned away or refused |
| Schedule.ReplayFanout | cmd/agent/main.go:926-927 | after the preparation of a run of fanout k, any schedule of at most k copies of the captured requests leaves the stub without a divergence, and all k copies use each event with a URL k times |
| ExactMatch.MatchIsKeyEquality | pkg/matcher/matcher.go:162-190 | without rules an event matches a request exactly when method, host, path and query keys are equal |
| ExactMatch.MatchLooksAt | pkg/matcher/matcher.go:162-190 | without rules an event matches exactly when its URL parses, the methods are the same up to case, the hosts are the same up to case once one ":80" and then one ":443" are taken off (the Host header standing in for a missing one), the paths are the same with "/" for none, and every query parameter that is not ignored has the same values in order |
| ExactMatch.IgnoredParameterIsFree | pkg/matcher/matcher.go:489-506 | adding or changing an ignored query parameter of a request never changes whether an event matches it |
| ExactMatch.SharedEventMeansSameEvents | pkg/matcher/matcher.go:178-190 | two requests with one matching event in common have all their matching events in common |
| ExactMatch.ExactMatchingIsSelfMatching | pkg/matcher/matcher.go:467-506 | the exact matcher meets the conditions of the fanout theorems for every log |
| ExactMatch.ExactMatchingIsFirstComeFirstServed | pkg/stubproxy/stubproxy.go:535-552 | without rules, whatever the requests and their interleaving, the j-th request with a key gets the (j / multiplier)-th event with that key, or is refused when there is none |
| ExactMatch.ExactFanoutNeverDiverges | cmd/agent/main.go:926-927 | a fanout replay of captured requests against their own log never diverges, in any interleaving, and uses each event with a URL exactly fanout times |
| Healing.EquivalentResponses | pkg/heal/heal.go:451-462 | events are equivalent exactly when any two of them have the same response fingerprint |
| Healing.AmbiguityCount | pkg/heal/heal.go:424-449 | counts the events whose recorded request is matched by two events that answer differently |
| Healing.AmbiguousAmongExactly | pkg/heal/heal.go:424-449 | the count is the number of positions of the log that hold an ambiguous event |
| Healing.UnambiguousRunsAreSteady | pkg/heal/heal.go:424-449 | with count zero, every run over recorded requests, in any order and number, answers one request always alike |
| Healing.ZeroAmbiguityExactly | pkg/heal/heal.go:424-449 | the count is zero exactly when no run over recorded requests with any multiplier can answer one request in two ways |
| JsonPath.ParseJSONPath | pkg/matcher/matcher.go:545-593 | the matcher's loop computes the reference meaning of every path text, errors included |
| JsonPath.PrivacyParsePath | pkg/privacy/policy.go:312-351 | the policy's loop computes the same tokens or error on `$` and on every text starting with `$.`, and refuses the rest |
| JsonPath.JSONPathValue | pkg/matcher/matcher.go:597-622 | evaluation is parsing followed by walking the tokens |
| JsonPath.ParsePrintRoundTrip | pkg/matcher/matcher.go:545-593 | parsing inverts the canonical printer on every list of tokens a path text can name |
| JsonPath.PrintPathInjective | pkg/matcher/matcher.go:545-593 | different token lists have different canonical texts |
| JsonPath.ParsedPathsAreClean | pkg/matcher/matcher.go:545-593 | whatever parses can be printed, and the printed text means the same |
| PathGrammar.PathsExactly | pkg/matcher/matcher.go:545-593 | a text is accepted exactly when it is `$`, or spelled by dots, names and bracketed numbers, no name behind a name, after `$.` or, starting with a number, after `$`; its tokens are the names and numbers in order, and dots mean nothing |
| PathText.TextIsReadBackExactly | pkg/matcher/matcher.go:597-622 | the matcher finds a scalar under its canonical text, in every document, exactly when the location is clean |
| PathText.ApartTextsDiffer | pkg/heal/heal.go:519-543 | locations whose keys hold no dot and end in no printed index never share a text |
| PathText.DelimiterFreeIsApart | pkg/heal/heal.go:531-533 | keys without dots and brackets, the empty key included, never lose their text |
| PathText.ApartKeyIsAlone | pkg/heal/heal.go:531-533 | a key that holds no dot and ends in no printed index does not share its text with any location whatsoever |
| PathText.KeyCollidesExactly | pkg/heal/heal.go:531-533 | a key shares its text with another location of some document exactly when it holds a dot or ends in a printed index |
| PathText.CollidingDocument | pkg/heal/heal.go:531-533 | the other location can be chosen so that none of its keys holds a dot or ends in a printed index |
| Sorting.FindLeast | pkg/heal/heal.go:530-530 | finds the key that comes first in the order of sort.Strings |
| Sorting.LessExactly | pkg/heal/heal.go:530-530 | a key comes before another exactly when it is a proper prefix of it or has the smaller character where they first differ |
| TemplatePath.TemplateLookup | pkg/simtemplate/template.go:216-263 | the one-pass loop finds what scanning the text first and walking afterwards finds |
| TemplatePath.TemplateAgreesExactlyWhenRegular | pkg/simtemplate/template.go:216-263 | on every path text: template engine and matcher agree on all documents exactly when the text is regular or both reject it |
| TemplatePath.CanonicalPathsAgree | pkg/simtemplate/template.go:216-263 | on every canonical non-root text both find what the tokens lead to |
| TemplatePath.BarePathsMeanTheSame | pkg/simtemplate/template.go:220-222 | a non-empty text without a leading `$` means what it means with `$.` in front |
| TemplatePath.BarePathsFindTheirLocation | pkg/simtemplate/template.go:220-222 | a clean location below an object is found under its canonical text without the leading `$.` |
| TemplatePath.DoubledDotDisagrees | pkg/simtemplate/template.go:228-241 | an empty key segment is skipped by the matcher and looked up by the template engine |
| PathEdit.EditAllIsScrub | pkg/matcher/matcher.go:624-656 | applying edits one by one is one simultaneous projection given by the sets of deleted and replaced paths |
| PathEdit.OrderDoesNotMatter | pkg/matcher/matcher.go:257-261 | lists with the same edits give the same document, whatever order, repetition, overlap or inapplicable path |
| PathEdit.EditAllIdempotent | pkg/privacy/policy.go:286-298 | applying a list of edits twice is applying it once |
| PathEdit.EqualScrubsExactly | pkg/matcher/matcher.go:262-266 | two projections are equal exactly when the documents look alike at every location the edits leave visible |
| PathEdit.ScrubAt | pkg/privacy/policy.go:353-407 | what each location of the projection holds |
| JsonHeap.EditSettled | pkg/matcher/matcher.go:646-655 | changing the one container an edit addresses gives the whole document the edited value, with no container shared or gained |
| JsonHeap.Document.Settle | pkg/matcher/matcher.go:624-656 | after the in-place change the document is valid again and its value is the edited one |
| JsonHeap.Build | pkg/matcher/matcher.go:236-256 | decoding makes new, separate containers that hold exactly the decoded value |
| JsonHeap.Decode | pkg/matcher/matcher.go:236-256 | a decoded body is a valid document with that value |
| IgnoredPaths.RemoveJSONPath | pkg/matcher/matcher.go:624-656 | the in-place removal, on every document and path text, has exactly the effect of one edit |
| IgnoredPaths.EqualAfterRemoving | pkg/matcher/matcher.go:257-266 | the comparison loop says equal exactly when the bodies have the same shape at every location not at or below an ignored path |
| IgnoredPaths.IgnoringNamedLocations | pkg/matcher/matcher.go:257-266 | with the canonical texts of given locations, the bodies compare equal exactly when they have the same shape at every location not at or below one of these |
| IgnoredPaths.RemovalActsAtItsLocation | pkg/matcher/matcher.go:624-656 | after the canonical text of a location is removed, a member there is gone, an element is null, nothing is left below, and everything else keeps its shape |
| IgnoredPaths.IgnoringMeansAgreeingElsewhere | pkg/matcher/matcher.go:257-266 | removing the ignored paths leaves equal remainders exactly when the bodies agree everywhere else |
| IgnoredPaths.RemovalOrderDoesNotMatter | pkg/matcher/matcher.go:258-261 | the remainder depends on which path texts are listed, not on order or repetition |
| IgnoredPaths.IgnoringMoreIsWeaker | pkg/matcher/matcher.go:257-266 | bodies equal under some ignored paths stay equal under more |
| IgnoredPaths.EqualIgnoringIsEquivalence | pkg/matcher/matcher.go:257-266 | the comparison is reflexive, symmetric and transitive |
| Privacy.ApplyJSONRule | pkg/privacy/policy.go:353-407 | the in-place redaction or drop, on every document and rule, has exactly the effect of one edit |
| Privacy.RuleNamesItsLocation | pkg/privacy/policy.go:312-351 | the canonical text of any clean location below an object names that location |
| Privacy.RuleActsAtItsLocation | pkg/privacy/policy.go:353-407 | one rule with the canonical text of a location: what is redacted and exists holds the marker, a dropped member is gone, a dropped element holds the marker, nothing is left below, and everything else keeps its shape |
| Privacy.PolicyActsAtNamedLocations | pkg/privacy/policy.go:286-298 | the same for a whole policy, location by location, when several rules lie above each other |
| Privacy.ApplyRules | pkg/privacy/policy.go:294-296 | the loop over the rules leaves the document as the whole policy says |
| Privacy.ApplyBody | pkg/privacy/policy.go:286-298 | without rules or body the text is returned as it is; a body that is not JSON is an error; otherwise the decoded body is sanitized and encoded again |
| Privacy.PolicyIsProjection | pkg/privacy/policy.go:286-298 | a policy is one projection given by its dropped and its redacted paths |
| Privacy.RuleOrderDoesNotMatter | pkg/privacy/policy.go:286-298 | policies with the same rules sanitize alike |
| Privacy.SanitizingIsIdempotent | pkg/privacy/policy.go:286-298 | sanitizing a sanitized body changes nothing |
| Privacy.SanitizedAt | pkg/privacy/policy.go:353-407 | outside every rule the shape is kept; a redacted location or dropped element holds the marker, a dropped member is gone, nothing is left below |
| Privacy.SanitizedEqualExactly | pkg/privacy/policy.go:353-407 | exactly what a sanitized body still reveals about the original |
| Privacy.GovernedValueLeavesNoTrace | pkg/privacy/policy.go:353-407 | the result does not depend on the value stored at or below any governed location |
| Flatten.Flattener.Walk | pkg/heal/heal.go:519-543 | the recursive walk writes the entries of the value it is given in the order of its sorted keys and its indexes, later ones over earlier ones |
| Flatten.FlattenJSON | pkg/heal/heal.go:514-546 | a body that decodes gives the entries of its value, an empty or undecodable one none |
| Flatten.ListedIsFlattened | pkg/heal/heal.go:519-543 | what is written for a value are the entries of its scalars and only those, each with the rendering of such a scalar |
| Flatten.EntriesAreScalars | pkg/heal/heal.go:514-546 | every scalar of the body has an entry, and every entry is that of a scalar with its rendering |
| Flatten.LastScalarSurvives | pkg/heal/heal.go:519-543 | of all scalars that share a text the entry is that of the one with the greater key in sorted order, or the greater index, where their locations first differ |
| Flatten.FlattenAgreesWithLookup | pkg/heal/heal.go:514-546 | for keys a path text can name, the entries are exactly the canonical texts at which the matcher finds a scalar, each with that scalar's rendering |
| Flatten.FlattenKeepsLocationsApart | pkg/heal/heal.go:514-546 | in a document whose keys hold no dot and end in no printed index, empty keys allowed, different scalars never share an entry |
| Flatten.DottedKeyCollides | pkg/heal/heal.go:531-533 | a key with a dot can take the text of another scalar |
| OpenApi.Validation.Report | pkg/contract/openapi.go:225-228 | one violation is added and none is lost |
| OpenApi.Validation.ValidateSchema | pkg/contract/openapi.go:218-270 | exactly the violations of the payload are appended, each as often as it occurs, in whatever order properties are visited, and the set of open components is restored |
| OpenApi.ConformsIffNothingFound | pkg/contract/openapi.go:218-270 | a payload conforms, by the recursive definition, exactly when no violation is found |
| Violations.FoundExactly | pkg/contract/openapi.go:218-270 | a violation is found exactly when it is true of some location of the payload that is visited, and its path is the text of that location: a reference that leads out of the document or nowhere, a wrong type, a value that is not listed, or a required name the object there does not have |
| Violations.VisitedValue | pkg/contract/openapi.go:261-269 | what the validator sees at a visited location is the value of the payload there |
| Violations.MissingNameIsReported | pkg/contract/openapi.go:255-259 | a required name that an object at a visited location lacks is reported there at least as often as it is listed |
| OpenApi.TypesMean | pkg/contract/openapi.go:404-429 | which values have which declared type; an unknown type admits every value |
| OpenApi.IntegersMean | pkg/contract/openapi.go:417-419 | a value is an integer exactly when it is a number equal to some 64-bit integer |
| OpenApi.FirstTypeExactly | pkg/contract/openapi.go:390-402 | of a list of types the first text other than "null" counts |
| Generator.OpenComponentsAreSkipped | pkg/contract/openapi.go:229-231 | opening more components only skips checks |
| Recursion.GuardedCheckExactly | pkg/contract/openapi.go:229-240 | for every component graph, schema and payload: the full check passes exactly when the guarded one does and every value the guard took on trust passes the full check |
| Recursion.AcyclicDocumentsAreFullyChecked | pkg/contract/openapi.go:229-240 | in a document in which no component reaches itself, conforming means passing the full check |
| Recursion.RecursionIsNotChecked | pkg/contract/openapi.go:229-231 | in the document of a linked list, anything passes below the first link, also what the full check refuses |
| Generator.Generation.SchemaExample | pkg/generator/generator.go:197-240 | the generator's traversal computes the example of the schema under the components open before it, and restores that set |
| Generator.ExampleShape | pkg/generator/generator.go:207-240 | the example is the first listed value; else an object with exactly the declared names, an array of one element, or the fixed scalar of the type |
| Generator.ExampleConformsExactly | pkg/generator/generator.go:197-240 | for every component graph, cyclic or not, the example passes validation exactly when the visited schemas are generable |
| Generator.WellWrittenIsGenerable | pkg/generator/generator.go:197-240 | schemas that are well written one by one are generable whatever is open |
| Generator.GeneratedExamplesConform | pkg/generator/generator.go:197-240 | in a document with local, present references, declared required names and self-conforming first enumeration values, every generated example passes validation |
| Generator.UndeclaredRequiredNameIsRefused | pkg/generator/generator.go:217-223 | an object that requires an undeclared name gets an example that is refused |
| Workflow.FindStep | pkg/workflow/workflow.go:141-163 | the candidate loop finds the first observation at or after the cursor that fits and that the correlation mode admits |
| Workflow.VerifyWorkflow | pkg/workflow/workflow.go:136-185 | the step loop reports the findings of the greedy scan; when no step is missing the workflow happened, and without correlation the converse holds |
| Workflow.EmbeddingHappened | pkg/workflow/workflow.go:189-206 | a choice of observations fits the steps exactly when it is strictly increasing and each observation has its step's protocol, its direction, gRPC method and topic where given, its method up to case where given, and a path that its expression accepts |
| Workflow.FindingsMean | pkg/workflow/workflow.go:136-206 | in every mode no missing step means there is such a choice for all steps; without correlation there is one exactly when no step is missing |
| Workflow.PaidOrderIsReportedMissing | pkg/workflow/workflow.go:141-171 | with two declared steps and three messages, an order that was paid is reported missing its payment when correlation is required or preferred, because an earlier order was abandoned |
| Workflow.PromptAnswerIsReportedLate | pkg/workflow/workflow.go:173-179 | with two declared steps and three messages, an answer in time after a retried request is reported late |
| Greedy.MatchedExactly | pkg/workflow/workflow.go:136-185 | in every correlation mode no step is missing exactly when there is an admissible choice of observations, and the scan then takes the earliest |
| Greedy.NoFindingsExactly | pkg/workflow/workflow.go:136-185 | in every mode nothing is reported exactly when the pointwise earliest admissible choice keeps every bound |
| Greedy.RetryRaisesFalseAlarm | pkg/workflow/workflow.go:173-179 | a workflow with a choice of observations that is on time is reported, because the earliest choice is late |
| Greedy.UncorrelatedIsComplete | pkg/workflow/workflow.go:136-185 | without correlation no step is missing exactly when some strictly increasing choice of observations fits all steps |
| Greedy.UncorrelatedTakesEarliest | pkg/workflow/workflow.go:136-185 | and the observations taken are, step by step, the earliest of all such choices |
| Greedy.AllMatchedMeansAllTaken | pkg/workflow/workflow.go:164-171 | no step is reported missing exactly when the scan takes an observation for every step |
| Greedy.MissingStepExactly | pkg/workflow/workflow.go:164-171 | a step is reported missing exactly when it is the first for which the scan takes nothing, at the position behind the last observation taken |
| Greedy.TimingDriftExactly | pkg/workflow/workflow.go:173-179 | a step is reported late exactly when it comes more than its bound after the step before it |
| Greedy.RequiredCompleteForFirstBinding | pkg/workflow/workflow.go:145-154 | with required correlation no step is missing exactly when the steps fit observations that carry the correlation bound by the first step |
| Greedy.AbandonedAttemptHidesCompleteOne | pkg/workflow/workflow.go:145-154 | a later complete attempt is not found after an earlier abandoned one |
| Greedy.RequiredIsSound | pkg/workflow/workflow.go:136-185 | no findings, required correlation and non-zero times mean a choice of observations that shares one non-empty correlation and keeps every bound, in durations as the program measures them |
| Greedy.PunctualIsOnTime | pkg/workflow/workflow.go:173-179 | with non-zero times, keeping the bounds as measured is keeping every bound below the largest duration in real time |
| Greedy.EndToEndBound | pkg/workflow/workflow.go:173-179 | with every later step bounded, reaching any step takes at most the sum of the bounds on the way |
| Greedy.PreferCompleteForBinding | pkg/workflow/workflow.go:155-157 | with preferred correlation no step is missing exactly when the steps fit observations that carry no correlation or the one the scan binds |
| Greedy.PreferHidesCompleteOne | pkg/workflow/workflow.go:155-157 | with preferred correlation, too, a later complete attempt is not found after an earlier abandoned one |
| Greedy.PreferNeverMixes | pkg/workflow/workflow.go:155-157 | whatever the scan takes carries no correlation or the one it binds |
| Windows.ReverseRange | pkg/kafkasim/kafka.go:184-186 | the two-pointer loop mirrors one window and touches nothing else |
| Windows.ReorderWindows | pkg/kafkasim/kafka.go:178-188 | the in-place loop sends every position to its mirror image in its window |
| Windows.MirrorFacts | pkg/kafkasim/kafka.go:178-188 | a record stays in its window, moves by less than a window, offset o of a window of length l goes to l - 1 - o, and mirroring undoes itself |
| Windows.WindowedIsInvolution | pkg/kafkasim/kafka.go:178-188 | reordering twice restores the log, short last window included |
| Windows.WindowedIsPermutation | pkg/kafkasim/kafka.go:178-188 | reordering keeps every record |
| KafkaPlan.PlanOrdered | pkg/kafkasim/kafka.go:193-212 | the fault loop drops, poisons and duplicates by position |
| KafkaPlan.IndexByID | pkg/kafkasim/kafka.go:189-192 | an id maps to the last record that has it |
| KafkaPlan.MakePlan | pkg/kafkasim/kafka.go:173-213 | negative fault values are refused; otherwise the plan is that of the reordered log |
| KafkaPlan.EntriesAreOriginals | pkg/kafkasim/kafka.go:195-206 | every planned entry is the record at its original index, with the poisoned payload exactly when marked poisoned |
| KafkaPlan.PlannedExactly | pkg/kafkasim/kafka.go:195-211 | an entry is planned exactly when it is that of a position that is not dropped, or its copy where the duplicate period hits |
| KafkaPlan.PlannedAt | pkg/kafkasim/kafka.go:195-211 | the entries stand in the order of the positions: nothing for a dropped one, the entry for any other, and its copy right behind it where the duplicate period hits |
| KafkaPlan.UniquePlanned | pkg/kafkasim/kafka.go:355-361 | counts the distinct original indexes |
| KafkaPlan.Account | pkg/kafkasim/kafka.go:266-273 | the counters reported before anything is produced |
| KafkaPlan.CommonMultipleExactly | pkg/kafkasim/kafka.go:196-211 | a position is hit by two periods exactly when their least common multiple divides it |
| KafkaPlan.PlanSize | pkg/kafkasim/kafka.go:195-211 | whatever the ids and the window: plan length n - n/D + n/U - n/lcm(D,U), of which n/P - n/lcm(D,P) + n/lcm(P,U) - n/lcm(D,P,U) poisoned; a period of zero contributes nothing |
| KafkaPlan.CountersExactly | pkg/kafkasim/kafka.go:266-267 | the counters report n/D dropped and n/U - n/lcm(D,U) duplicated exactly when the ids at the positions that are not dropped differ |
| KafkaPlan.FaultArithmetic | pkg/kafkasim/kafka.go:266-267 | for records with distinct ids: plan length, dropped and duplicated in closed form |
| KafkaPlan.SharedIdsMisreport | pkg/kafkasim/kafka.go:355-361 | two records with one id, both produced, would count as one dropped and one duplicated |
| GrpcFrames.SplitFrames | pkg/grpcsim/registry.go:285-311 | the loop returns the payloads or the error of the specification on every input |
| GrpcFrames.EncodeFrame | pkg/grpcsim/registry.go:346-349 | the buffer filled in place is the frame of the payload |
| GrpcFrames.SplitExactly | pkg/grpcsim/registry.go:285-311 | a stream splits into given payloads exactly when it is their framing, there are 1 to 1024 of them and none is over 16 MiB |
| GrpcFrames.PrefixesSplitShort | pkg/grpcsim/registry.go:285-311 | a proper prefix of a stream gives an error or a proper prefix of the payloads |
| GrpcFrames.FirstBadFrameDecides | pkg/grpcsim/registry.go:285-311 | after any number of good frames the next bytes decide the error: too many frames behind the 1024th, a short header, a compression flag, a length over 16 MiB, or a short payload, in this order |
| GrpcFrames.EmptyStreamHasNoFrames | pkg/grpcsim/registry.go:307-309 | an empty stream is refused |
| Scenario.CheckConfigs | pkg/scenario/scenario.go:71-141 | configurations are accepted exactly when names are unique and not blank, steps are acceptable and every next state is mentioned |
| Scenario.ValidConfigExactly | pkg/scenario/scenario.go:71-141 | one configuration is acceptable exactly when its name is not blank, its initial state is given, and every step has a state, is well-formed, and moves, if at all, to the initial state or the state of some step |
| Scenario.Engine.constructor | pkg/scenario/scenario.go:71-141 | a new engine has every scenario in its initial state |
| Scenario.Engine.Reset | pkg/scenario/scenario.go:172-181 | every scenario is back in its initial state |
| Scenario.Engine.Match | pkg/scenario/scenario.go:183-210 | the first scenario with an accepting step in its current state answers, with its first such step, and moves to that step's next state, if it has one; every other scenario keeps its state |
| Scenario.FiredExactly | pkg/scenario/scenario.go:183-210 | a request is answered by a step exactly when that step accepts it in the current state of its scenario and no step of an earlier scenario, nor an earlier one of its own, does |
| Scenario.MovedExactly | pkg/scenario/scenario.go:199-201 | when a step fires, its scenario goes to its next state, or stays when that is empty, and every other scenario keeps its state |
| Scenario.StateIsOwnProgress | pkg/scenario/scenario.go:183-210 | after any requests the state of a scenario is decided by the steps of that scenario that fired, in order |
| Scenario.ReachableStates | pkg/simlint/lint.go:64-74 | the fixpoint loop ends and computes exactly the states some list of steps leads to |
| Scenario.UnreachableSteps | pkg/simlint/lint.go:58-87 | exactly the steps whose state is not reachable are reported, in order |
| Scenario.EngineStaysReachable | pkg/scenario/scenario.go:183-210 | over every request sequence and whatever the matchers do, a scenario stays in the reachable states |
| Scenario.UnreachableNeverFires | pkg/simlint/lint.go:85-87 | a reported step never answers a request |
| Scenario.ReachableCanFire | pkg/simlint/lint.go:85-87 | a step that is not reported can answer one, for some matchers and some requests |
| EventLog.ScanFile | pkg/event/log.go:32-52 | the recovery scan finds the highest sequence number, the end of the last record, and whether the tail fails to decode |
| EventLog.Logger.Open | pkg/event/log.go:19-83 | opening leaves the repaired file and continues at the highest sequence number read |
| EventLog.Logger.Write | pkg/event/log.go:85-96 | a write spends the next number and appends one line, or nothing when the encoder refuses the event |
| EventLog.CrashIsRepaired | pkg/event/log.go:32-70 | whatever prefix of the last line a crash leaves, opening reads the surviving records and leaves exactly their lines |
| EventLog.GarbageIsCut | pkg/event/log.go:37-70 | whatever does not decode behind whole lines is cut off, and the lines stay |
| EventLog.HighestSequence | pkg/event/log.go:49-51 | the number continued from is the highest in the file, in whatever order the records stand |
| EventLog.RecoveryIsSound | pkg/event/log.go:32-96 | over every run of writes, refused writes, crashes and reopenings the file is a clean log of strictly increasing records and holds every record whose write returned |

## Left out

- Network serving, TLS interception, CONNECT and transparent redirect, Kafka clients and the command line: foreign calls and plumbing.
- Fault injection after an event is matched, response headers, trailers and bodies, per-dependency attempt counters: they do not feed back into matching.
- Semantic rules (`ruleFor`, regular expressions, header comparison): the allocation and healing theorems hold for any match relation, the fanout theorem is about matching without rules.
- `mergeGeneratedRules`, the classification of volatile values and report writing in pkg/heal: they produce rules, the check modelled here judges them. Logs of several incident directories are one log here.
- The order in which observations are sorted, and how they are read from three logs: the observations are given in order.
- The detail text of workflow findings, with its remark on a correlation problem.
- `contract.operation`, path templates and `RequestRewriter.substitute`: their result can depend on map order.
- STEP_SHADOWED and the other lint diagnostics: single-branch checks on selectors.
- The tokenize action, header and URL rules, and messages of a privacy policy: easier repetitions of the JSON rules.
- JSON, YAML and base64 texts, regular expressions, hashes and Protobuf: a decoded body is a tree, and enumeration values are those that a YAML file and a JSON body can both hold.
- Text: a character is a Unicode code point and offsets count characters, where Go counts bytes.
- Encoding of query strings: taken to be injective up to names without values.
- The last error branch of `parseJSONPath`: no text reaches it.
- Overflow of 64-bit counters; durations saturate as `time.Time.Sub` does.
- Greedy.RequiredIsSound: in real time nothing is claimed about a bound at the largest 64-bit duration, because the difference of two times saturates there.
- Scenario.CheckConfigs: whether a step's response and matcher are acceptable is one flag.
- EventLog.Logger.Write: a write that fails while flushing is not modelled, except as a crash.
- StubProxy.Stub.Reset: the attempt counters of fault injection and the scenario engine, which are reset with the stub, are not part of the class; Scenario.Engine.Reset is the latter.
- StubProxy.Stub.ServeHTTP: what happens inside a tunnel is not modelled.
- OpenApi.Validation.ValidateSchema: the order of violations is not stated, because it follows Go's map order.
- Delays, time scaling and wall-clock limits of a replay.
