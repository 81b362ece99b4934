# bpfd: a verified model

bpfd is a daemon that turns kernel probe hits into events, filters them with rules, performs actions on them and
streams them to clients. This project models the parts of it that decide what an event says and where it goes,
and proves what they promise:

- **Text from procfs** (`GoText`, `CgroupGrammar`, `CgroupMatcher`, `ContainerId`, `ContainerText`, `ProcFile`,
  `UserMappings`, `StatusIds`, `Runtime`): the container ID recogniser as a backtracking search over a declarative grammar with
  leftmost-first priority; the parsers of uid maps, status files and NUL-separated files with their round trips;
  the runtime cascade.
- **The exec tracer** (`ExecTracer`, `ExecKernel`): argument fragments of all processes arrive in one stream and
  are put together per process; composed with the kernel program that submits them.
- **Entry and return probes** (`ProbePairing`): a per-thread protocol over a hash of bounded capacity.
- **Rules and dispatch** (`Rules`, `RuleStore`, `Requests`, `Dispatch`, `Api`): the nested rule map as a
  refinement of a flat one, its invariant from startup through any requests, and the effects of one event in
  whatever order the map yields its rules.
- **Live trace** (`EventStack`, `Api`, `LiveTrace`): the event buffer as a stack in a growing array, and the
  protocol of any number of tracers and clients sharing it, as small steps.

A Go string is a `string` with one character for each byte. Go maps are `map`s that methods reassign; loops over
a Go map choose the next key arbitrarily. Files, lookups, sends and map orders are inputs that nothing restricts.
A method is proved equal to a specification function, and the lemmas about that function say what it means.

What the proofs show that the code or its documentation does not say:

- The four-slash Kubernetes alternative of the cgroup pattern is redundant (`ContainerId.KubeLongIsRedundant`).
- No input is ever classified as `lxc-libvirt` (`Runtime.ClassifyImage`).
- A uid map is read back correctly exactly if no later line fills its first column; otherwise two lines run
  together and the answer is "no namespace" (`UserMappings.UidMapRoundTrip`). Other text makes an index fail exactly
  if it has more than three tokens, their number is no multiple of three and every complete group is good
  (`UserMappings.UserMappingsMeaning`, `UserMappings.FourthNumberPanics`); text in the kernel's form cannot.
- An exec with exactly 20 arguments gets the truncation dots although nothing was cut
  (`ExecKernel.DotsFromTwentyCutFromTwentyOne`). One with an empty argument vector reports whatever memory holds
  behind the vector (`ExecKernel.EmptyVectorShowsWhatFollows`).
- A failed user lookup moves the arguments of one exec to the next event of the process, which shows its own
  arguments alone exactly if the lookup before it succeeded, file names being non-blank
  (`ExecKernel.OwnArgumentsExactlyIfNothingLeft`, `ExecKernel.OwnArgumentsAfterSuccess`). A status text in the kernel's
  form and a missing file never make a lookup fail (`ExecKernel.OwnArgumentsOnKernelStatus`); a text that breaks off
  before the Gid line does (`StatusIds.CutBeforeGidFails`), and the reader ignores read errors (proc/proc.go:489).
- The documented rule for the exec tracer (the repository's README.md:122-136) filters on `command`, which no exec
  event has among its data, so it never matches (`ExecTracer.FiltersSeeArgvAndType`).
- A valid rule that lists `lxc-libvirt` alone selects no event whose runtime the cascade filled in
  (`Dispatch.LibvirtAloneIsDead`).
- A rule file that names an unknown tracer or action stops the daemon exactly if no later file redefines the rule,
  since only the surviving rules are checked (`Requests.Start`).
- A status text without Uid and Gid lines yields user and group 0 without an error
  (`StatusIds.MissingKindDecides`).
- One client leaving the live trace stops it for every other client (`LiveTrace.FlagMeaning`,
  `LiveTrace.OneMoreSend`).
- From any state with a tracer some run fills the buffer while nobody streams (`LiveTrace.BufferFillsUnwatched`).
  While nobody streams and nobody connects, it can hold an event exactly if one was buffered already or a tracer was
  between its flag test and its append (`LiveTrace.UnwatchedExactlyIfUnderWay`); on the same condition a client that
  connects can be sent an event from before (`LiveTrace.OlderEventExactlyIfUnderWay`).
- The project's documentation (the repository's README.md:119-120) says events of a tracer without rules are passed
  to actions; each registered action gets them exactly if `stdout` is the only one
  (`Dispatch.WithoutRulesStdoutAlone`).

## Model

| member | source | states |
|---|---|---|
| CgroupMatcher.FindIsBest | proc/proc.go:63 | The search finds a parse exactly if the declarative grammar has one for the line, and then the one that precedes every other: leftmost colon, first alternative, greediest `.*`, longest ID |
| CgroupMatcher.FindRunIsBest | proc/proc.go:63 | Backtracking over a greedy `.*` gives the best parse among those whose first run is short enough, for any following tokens |
| CgroupGrammar.BestIsUnique | proc/proc.go:63 | A line has at most one best parse, since no two parses precede each other |
| CgroupGrammar.WildcardAbsorbs | proc/proc.go:63 | A `.*` can consume whatever any newline-free piece of pattern in its place consumes |
| ContainerId.ContainerIdMeaning | proc/proc.go:185-202 | For every input the ID is empty iff no line of the normalised text has a parse; otherwise it is 1 to 64 letters, digits or dashes, cut out by the best parse of the first line that has one |
| ContainerText.AlternativeTexts | proc/proc.go:63 | Each of the ten alternatives consumes exactly the texts spelled out for it |
| ContainerText.ContainerIdText | proc/proc.go:185-202 | For every input the ID is empty iff no line reads a colon, one of those texts, 1 to 64 letters, digits or dashes and an end; otherwise it is the ID of such a reading of the first such line, at its leftmost colon and with the earliest alternative there |
| ContainerText.WrittenTextContainerId | proc/proc.go:63 | After each text as written in cgroup files the ID behind it is returned whole; after `/machine.slice/machine-` unless it goes on behind `rkt-` |
| ContainerText.FixedTextContainerId | proc/proc.go:63 | The same with any character for each pattern dot |
| ContainerText.KubeContainerId | proc/proc.go:63 | After `/kube`, anything, a slash, anything and a slash the ID is what follows the last slash |
| ContainerId.NormaliseMeaning | proc/proc.go:190-191 | From left to right each escaped dash becomes a dash and every other character stays |
| ContainerId.NormaliseCommutesWithSplit | proc/proc.go:190-194 | Replacing the escaped dashes before or after splitting into lines is the same |
| ContainerId.NormaliseRemoves | proc/proc.go:190-191 | No escaped dash is left after the replacement |
| ContainerId.NormaliseIdempotent | proc/proc.go:190-191 | Replacing twice is replacing once |
| ContainerId.NormaliseLength | proc/proc.go:190-191 | Each replacement shortens the text by exactly three characters |
| ContainerId.KubeLongIsRedundant | proc/proc.go:63 | Deleting the four-slash Kubernetes alternative changes the container ID of no input |
| ContainerId.SubsumedChangesNoLine | proc/proc.go:63 | Deleting any alternative that an earlier one subsumes changes no line's match |
| ProcFile.ParseProcFile | proc/proc.go:511-525 | The copying loop returns the fields of the data, one final NUL being ignored |
| ProcFile.FieldsOfRender | proc/proc.go:511-525 | Parsing NUL-terminated strings gives the same strings back |
| ProcFile.RenderOfFields | proc/proc.go:511-525 | Rendering the parsed fields gives the data back, with a final NUL added if it had none |
| ProcFile.DeleteEmpty | proc/proc.go:501-509 | The loop returns the trimmed non-blank strings in order |
| ProcFile.NonEmptyAround | proc/proc.go:501-509 | Each string counts by itself: a blank one goes, any other stays in its place, trimmed |
| UserMappings.ReadUserMappings | proc/proc.go:249-281 | The index loop computes the specified outcome, including the panic on an incomplete group |
| UserMappings.UserMappingsMeaning | proc/proc.go:249-281 | For any text: an index fails iff there are more than three tokens, their number is no multiple of three and all complete groups are good; success iff there are at least three, a multiple of three, all good; otherwise "no namespace" |
| UserMappings.FourthNumberPanics | proc/proc.go:256-262 | A further number after any single mapping other than the identity makes an index fail |
| UserMappings.UidMapRoundTrip | proc/proc.go:249-281 | For every uid map text in the kernel's three-column form: the same mappings if there are some, none is the identity and every later line starts with a space, otherwise "no namespace", never a failing index |
| UserMappings.TrimmingIsHarmless | proc/proc.go:493-499 | Trimming the file before parsing changes no outcome |
| StatusIds.GetUidGid | proc/proc.go:328-368 | The loop with its continue and break computes the specified pair or error |
| StatusIds.ScanMeaning | proc/proc.go:333-352 | Each field is that of the last line of its kind before the first unmarked line that comes after both were set |
| StatusIds.ScanAdjacent | proc/proc.go:333-352 | Adjacent Uid and Gid lines decide the result if the scan reaches them and the next line has no marker, whatever the earlier lines set |
| StatusIds.FirstFieldMeaning | proc/proc.go:358 | The field that is converted is the value, behind leading white space, up to a space or tab or to trailing white space |
| StatusIds.ValueOfLine | proc/proc.go:335-350 | The value of a line is what follows its first colon |
| StatusIds.AdjacentLinesAreRead | proc/proc.go:328-368 | A status text with such lines in the kernel's form yields their first numbers modulo 2^32 |
| StatusIds.KernelFormIsRead | proc/proc.go:328-368 | Neither a text in the kernel's form, whatever its name line holds, nor an empty one makes an error |
| StatusIds.CutBeforeGidFails | proc/proc.go:354-365 | A text that breaks off between the Uid and the Gid line makes an error |
| StatusIds.MissingKindDecides | proc/proc.go:354-365 | Without any line of one kind the answer is an error if the other kind has a value, and (0, 0) without an error if not |
| Runtime.ClassifyMeaning | proc/proc.go:156-168 | The first listed runtime that occurs in the input, and not-found iff none occurs |
| Runtime.ClassifyImage | proc/proc.go:69-82 | The possible answers are exactly not-found and every listed runtime except lxc-libvirt |
| Runtime.CascadeMeaning | proc/proc.go:96-154 | Which source decides: the first of the seven that has an answer, a text answering with the first listed runtime in it; not-found iff none has |
| Runtime.CascadeImage | proc/proc.go:96-154 | The cascade can answer exactly not-found and every listed runtime except lxc-libvirt |
| Rules.ValidationMeaning | rules/rules.go:67-104 | Both checks pass iff name and tracer are set, the runtimes are listed ones, and tracer and actions are registered |
| Rules.ParseMeaning | rules/rules.go:43-64 | A decoded rule with a tracer and listed runtimes is returned as it is, or named after its file without `.toml`; anything else is an error |
| Rules.Match | rules/rules.go:108-153 | In any iteration order: true iff the runtime is listed or none is, and there are no filters or some value occurs in the data under its key |
| Rules.WideningKeepsMatches | rules/rules.go:138-149 | More values or keys lose no match, provided there was a filter already |
| Rules.FirstFilterNarrows | rules/rules.go:133-152 | The first filter of a rule keeps exactly the events it lets through itself |
| Rules.NotFoundMatchesNoListedRuntime | rules/rules.go:79-83 | A validated rule that lists runtimes never matches a not-found event |
| RuleStore.ParseFiles | rules/rules.go:16-40 | The loop computes the left fold over the files, or the first error |
| RuleStore.LoadFromMeaning | rules/rules.go:16-40 | Loading fails iff some file is bad; otherwise each key holds the rule of the last file with that key and the names are in file order |
| RuleStore.NamesAt | rules/rules.go:25-26 | The returned names are those of the files' rules in order |
| RuleStore.LastRuleMeaning | rules/rules.go:28-36 | That rule comes from a file after which no other has the key |
| RuleStore.FlatIsWhatDispatchSees | api/api.go:85-94 | Two stores give every tracer the same rules iff they stand for the same flat map, so an empty inner map is like none |
| Requests.ApplyRefines | api/api.go:128-199 | On the flat map a creation sets one key, a removal deletes one key or all keys of that name, a refused request changes nothing |
| Requests.RefusalMeaning | api/api.go:128-181 | A creation is accepted iff the rule is well formed and names registered tracers and actions, a removal iff it names a rule |
| Requests.RunKeepsInvariant | api/api.go:128-199 | Any sequence of requests keeps the invariant and acts on the nested map as on the flat one |
| Requests.CreateThenRemove | api/api.go:150-198 | Creating under an unused key and removing with the tracer given leaves every tracer's rules as they were |
| Requests.CreateThenRemoveByName | api/api.go:183-197 | Without the tracer the pair removes that name under every tracer |
| Requests.Start | daemon.go:77-116 | Startup succeeds iff all files parse and every file whose rule no later file overrides names registered tracers and actions; it then establishes the invariant |
| Dispatch.DispatchIgnoresOrder | api/api.go:96-115 | Any two iteration orders of the rule map perform the same multiset of effects |
| Dispatch.DispatchEnqueues | api/api.go:85-115 | One enqueue per matching rule, or exactly one if the tracer has no rules |
| Dispatch.RuleEffectsMeaning | api/api.go:96-115 | A selecting rule queues the event first and then performs all its actions in order, reporting unknown ones |
| Dispatch.ActionsPerformed | api/api.go:96-115 | Each registered action is performed as often as the selected rules list it, all together |
| Dispatch.RuleBlockIsContiguous | api/api.go:96-115 | Each matching rule's enqueue and actions stand together, the actions in the rule's order |
| Dispatch.NoActionIsMissingInAnyRun | api/api.go:107-112 | After startup and any requests no dispatch reaches the missing-action branch |
| Dispatch.CompleteFillsBlanks | api/api.go:75-83 | What the tracer set stays; a blank runtime becomes the cascade's answer; a blank ID becomes that of the first line naming a container, and only if there is none can a second completion change it |
| Dispatch.LibvirtAloneIsDead | api/api.go:75-101 | Some state of the system lets a valid rule select an event of unset runtime iff the filters let it through and the rule lists no runtime or one other than lxc-libvirt |
| EventStack.AddsThenPops | api/event.go:8-32 | n adds and n pops return the events in reverse and leave older ones alone |
| Api.ApiServer.constructor | api/api.go:48-55 | A new server holds the given rules, streams to nobody and has an empty buffer |
| Api.ApiServer.AddEvent | api/event.go:8-18 | The event becomes the newest if streaming, otherwise nothing changes; the array grows when full |
| Api.ApiServer.PopEvent | api/event.go:21-32 | The newest event is removed and a copy of it returned, or nil |
| Api.ApiServer.RunOps | api/event.go:8-32 | Any sequence of adds and pops behaves like the stack, and popped copies survive the reuse of their slots |
| Api.ApiServer.CreateRule | api/api.go:128-160 | The new store and the error are those of the request, the invariant is kept |
| Api.ApiServer.RemoveRule | api/api.go:163-199 | The same for removal, with both map loops in any order |
| Api.ApiServer.HandleRule | api/api.go:96-115 | One rule's effects, and as many new copies in the buffer as it enqueued while streaming |
| Api.ApiServer.HandleEvent | api/api.go:71-115 | The event is completed from the system; the log is a dispatch of it in some order and names no missing action; the buffer grows by one copy per enqueue while streaming |
| LiveTrace.RunConserves | api/event.go:8-32 | In every interleaving: enqueued = buffered + in flight + sent + lost, and admitted = enqueued + waiting for the lock |
| LiveTrace.AtMostOnce | api/api.go:213-238 | No occurrence is sent twice; a sent one is neither buffered, in flight nor lost |
| LiveTrace.SentWasAdmitted | api/event.go:9-17 | Every sent event was given to an addEvent call that read the flag as true |
| LiveTrace.FlagMeaning | api/api.go:213-238 | The flag is set iff some client connected and none has left by a cancelled context or a failed send since |
| LiveTrace.DoneExactlyIfEnded | api/api.go:217-234 | A client has left its loop iff its context was cancelled, a send failed or the flag was found clear |
| LiveTrace.NewestIsServed | api/api.go:217-234 | While the flag is set, a client anywhere in its loop is sent the newest buffered event by its own steps, after the one in its hand |
| LiveTrace.PopTakesNewest | api/event.go:21-32 | In every run a pop hands over the occurrence appended last among those buffered |
| LiveTrace.OneMoreSend | api/api.go:217-234 | Once the flag is cleared, each client sends at most one more event until somebody connects |
| LiveTrace.OlderEventExactlyIfUnderWay | api/event.go:9-17 | In every reachable state, a client connecting now can be sent an event admitted before iff one is buffered or a tracer is past its flag test; otherwise no continuation sends it one |
| LiveTrace.UnwatchedExactlyIfUnderWay | api/event.go:9-17 | From any state with the flag clear, some continuation without a connect has an event buffered while nobody streams iff one is buffered or a tracer is past its flag test |
| ExecTracer.Tracer.WatchEvent | tracer/exec/exec.go:192-248 | The pending map and the returned event are those of the specified step, the lookup being answered from the status text, including the errors that keep pending arguments |
| ExecTracer.StepMeaning | tracer/exec/exec.go:192-245 | When each outcome occurs, and what every process has pending after it |
| ExecTracer.NonInterference | tracer/exec/exec.go:205-245 | A process's outputs and pending list are those of its own records alone, for every interleaving |
| ExecTracer.Conservation | tracer/exec/exec.go:205-245 | Per process, pending before plus fragments received = arguments emitted followed by pending after, even when lookups fail |
| ExecTracer.EventSplitsBack | tracer/exec/exec.go:232-242 | The joined list splits back into the pending arguments iff there is one and none contains a space |
| ExecTracer.FiltersSeeArgvAndType | tracer/exec/exec.go:232-242 | A filtered rule selects an exec event iff its runtimes allow it and a value it lists under argv or type occurs there; other keys never match |
| ExecKernel.SubmitExec | tracer/exec/exec.go:60-95 | The loop over one reused record submits the file name, the strings at the 19 pointers after the first up to a null, and dots if there was none |
| ExecKernel.ProbeExec | tracer/exec/exec.go:60-120 | The two probes submit the argument records and a return record with process data asked for again |
| ExecKernel.RecordFields | tracer/exec/exec.go:60-120 | Argument records carry type 0 and the data of the entry, the one return record type 1 and the data of the return |
| ExecKernel.DotsFromTwentyCutFromTwentyOne | tracer/exec/exec.go:85-92 | For a proper argument vector: the arguments after the first are submitted in order, dots follow iff there are 20 or more, and one is omitted iff there are 21 or more |
| ExecKernel.EmptyVectorShowsWhatFollows | tracer/exec/exec.go:83-89 | For an empty vector the strings behind its null are submitted instead, all of them iff there are fewer than 20 |
| ExecKernel.FragmentIsShown | tracer/exec/exec.go:45-50 | A fragment is the trimmed text up to its NUL or 128 bytes, whatever lies behind it |
| ExecKernel.EndToEnd | tracer/exec/exec.go:45-245 | In any interleaving that delivers what the probes submit, broken off anywhere, each complete exec of a process reports once, with its visible arguments after those left by failed lookups; an incomplete one only adds to what is pending |
| ExecKernel.SingleExec | tracer/exec/exec.go:45-245 | With a successful lookup and nothing left over: exactly one event, its own visible arguments, at most 21 |
| ExecKernel.ExecEvent | tracer/exec/exec.go:45-245 | One answered exec with an argument vector and nothing left over gives one event: its fields, and the list of the visible file name and arguments up to the twentieth, in order, with dots from 20 on |
| ExecKernel.OwnArgumentsExactlyIfNothingLeft | tracer/exec/exec.go:222-245 | The k-th event lists what all execs since the last successful lookup showed, then its own arguments; it shows only its own iff those execs showed nothing and, if no lookup succeeded before, nothing was pending at the start |
| ExecKernel.OwnArgumentsAfterSuccess | tracer/exec/exec.go:222-245 | If the file name before is not blank, that holds iff the lookup right before succeeded, or nothing was pending for the first |
| ExecKernel.OwnArgumentsOnKernelStatus | tracer/exec/exec.go:222-245 | With status texts in the kernel's form or unreadable files, and nothing pending, every event shows exactly its own exec's arguments |
| ProbePairing.Probes.TraceEntry | tracer/open/open.go:35-55 | The entry's record is stored under the thread's id, or dropped if the hash is full |
| ProbePairing.Probes.TraceReturn | tracer/open/open.go:56-73 | The stored record is submitted with the return value and deleted; a missed entry submits nothing |
| ProbePairing.SubmissionHasItsEntry | tracer/open/open.go:35-73 | At any capacity, a submission happens at a return after its thread's latest entry and carries that entry's fields, this return's value and the upper half of the id |
| ProbePairing.SubmissionExactlyAfterEntry | tracer/open/open.go:35-73 | With room for every open thread, a step submits iff it is a return whose thread's previous step was an entry |
| ProbePairing.SubmissionExactlyIfRoom | tracer/open/open.go:32-73 | At any capacity, a step submits iff it is a return whose thread's previous step was an entry that found its key or a free slot |
| ProbePairing.DomainIsOpenIds | tracer/open/open.go:32-73 | With that room, the hash holds exactly the threads whose last step was an entry |
| ProbePairing.OthersDoNotInterfere | tracer/open/open.go:32-73 | With that room, what a thread has stored is what its own steps alone would store |
| ProbePairing.FullHashDropsEntries | tracer/open/open.go:32-53 | At every capacity: once that many threads have entered, a further thread's entry is dropped and its return goes unreported |

## Left out

- Multi-byte characters: text is handled byte by byte, so Go's trimming of non-ASCII spaces and a pattern dot standing for one whole multi-byte character are not modelled.
- Go's regexp package: the pattern is transcribed into tokens, and the leftmost-first priority is the one its documentation promises.
- UserMappings.ReadUserMappings: `int` is taken to have 64 bits, as on the platforms the daemon supports.
- ExecKernel.SubmitExec: reading a string is taken to succeed; an argument slot that cannot be read counts as a null pointer.
- ExecTracer.Tracer.WatchEvent: `binary.Read` is an input that delivers a decoded record or fails; the record layout is not modelled.
- Api.ApiServer.HandleEvent: one round under unchanged rules and flag; the unlocked read of the rule map while a request changes it is not modelled.
- Api.ApiServer.AddEvent: the growth of a full slice is fixed to one size, which the contract does not mention.
- LiveTrace as a method: the streaming loop runs in the step machine, where each access to the flag is one atomic step.
- Sharing of the event's data map between the buffer and the actions: events are values here; no action changes them.
- A nil filter inside a rule's filter map, which gRPC cannot deliver.
- ListRules: it collects the address of its loop variable, so under the Go version used no more than the length of the answer is certain.
- getStatusEntry and getNoNewPrivileges: one-line scans with the pieces already modelled in StatusIds.
- WatchEvent of the open, dockeropenbreakout, tcpdrop and bashreadline tracers: decoding and prefix tests without state.
- Loading BPF modules, perf buffers and their losses, the docker client, gRPC, sockets, signals, capabilities, namespaces and the seccomp fallback.
- The action and tracer registries: the listed names are taken to be the keys, and `stdout` is taken to be among the actions.
