# phasegent: a Dafny model of its stateful cores

phasegent is a command-line tool that binds Git branches to issues, installs commit hooks, keeps a
local store of tasks and timers, and carries a small fuzz harness. This project models the parts of it
that decide something over several steps, and proves what they promise. To verify it, use
`dafny verify dfyconfig.toml`.

Where the program updates state step by step the model is imperative: a class (`HookInstall.HooksDirectory`,
`TaskStore.Store`, `TimerLedger.Ledger`, `LegacyAddress.Store`, `Pagination.Upstream`) or a method with the program's loops, proved
equal to a specification function. The results are lemmas about those functions: what holds over whole runs, and,
in lemmas such as `SuccessOnDisk`, `NewKeyExactly` or `ReferencesExactly`, what they compute, said without their bodies.

- `Shrinker.dfy`, `Corpus.dfy`: the byte-range shrinker of the fuzz harness and the framing of its corpus files.
- `Wrapper.dfy`, `HookInstall.dfy`: managed hook scripts, who owns one, and the installer as a machine over four
  files that may stop after any primitive step.
- `CommentMarker.dfy`, `CommitMessage.dfy`, `MessageLines.dfy`, `ReferenceScan.dfy`, `CommitTrailers.dfy`,
  `ReferenceGrammar.dfy`: what the hooks do to a commit message, and a grammar that says what a reference is.
- `TaskKeys.dfy`, `TaskStore.dfy`, `TaskLookups.dfy`: durable task identities and their lookup by number.
- `Pagination.dfy`, `LinkReads.dfy`: pages, and the two reads of the branch link table.
- `BranchNames.dfy`, `BranchIssues.dfy`: from a branch to its issue.
- `TimerLedger.dfy`: the timer sweep behind status transitions.
- `RedmineIdentifiers.dfy`, `LegacyAddress.dfy`: project identifiers, and the Redmine address with its migration.
- `Text.dfy`, `Names.dfy`, `Decimals.dfy`, `Orders.dfy`, `Arithmetic.dfy`: splitting, trimming, decimals, sorting, division.

Bytes are modelled as characters. What the program takes from outside is a parameter: the crash oracle, the
upstream of a page, the result of `ORDER BY` (any sort that satisfies it), the URL normalisers (any function),
the clock, run ids, route admission, and how far an install gets before it is stopped.

## Where the code and its promises differ

- The comment in `close_issue_runs` (src/lifecycle_auto.rs:342-345) says the sweep goes on after a failed finish.
  It returns at the first failure, and reports none of the runs it finished. The model follows the code:
  `FailedSweepKeepsNewer`. `GoesOnExactly` says when the ledger is nevertheless the one the comment promises: exactly
  when no run newer than one that cannot be finished could be. `SweepGivesUp` is an input.
- The timer documentation (src/lifecycle_auto.rs:22-35) promises one running row after a transition whatever the
  ledger held. The listing it sweeps is capped at 64 rows (src/infra/timer_store.rs:147-158), so the promise holds
  exactly from at most 64 open runs on: `TransitionOpensOne`. `OutageBuildsBacklog` shows how any backlog arises,
  `BacklogOutlivesTransition` and `TwoRunsStayOpen` are ledgers the promise fails for, and `BacklogShrinks` gives the
  bound for any backlog.
- An install writes an own wrapper only if its text differs (src/hooks.rs:207-210). A current wrapper without the
  executable bit is therefore kept, reported as updated, and ignored by Git: `SuccessLeavesSafeChain` says exactly
  when, `DeadWrapperStaysDead` that no further install changes it, `DeadHookIsReportedUpdated` is an input.
- The comment at src/hooks.rs:256-258 says an install that an existing backup blocks fails before any mutation. If the
  blocked hook is the second one, the first is written by then: `FailureIsPartialExactly`, with the input
  `TakenBackupIsPartial`.
- Asked for a number beyond i64, the reverse link read lists the rows of i64::MAX (src/branch_links/reads.rs:194):
  `ReverseReadIsExact`. The column check still keeps it in step with the forward read: `ReadsAgree`.
- Hooks and resolver agree on every default branch that detection returns (`HooksAgreeOnDetected`), but not on one
  passed on with blanks around it: `HooksAgreeWithResolver` says exactly when, `HooksDisagreeOnPaddedDefault` is an input.
- The active-issue resolver counts external ids and the scoped one numbers. They disagree exactly when all that is
  linked is one number of one project under several external ids: `ActiveAgreesExactly`, with the input
  `ActiveDisagreesOnPlus`.
- An external id may carry a leading plus sign (src/task_identity.rs:170-172), and is then never found by its number:
  `RepoLookupCompleteExactly` and `GlobalLookupCompleteExactly` say when a lookup is complete, `PlusIsNeverFound` is an input.
- Adding a trailer can close the last line of a message with a bare newline and so turn it into a scissors line
  above the trailer, and a comment marker may be the start of a trailer (src/hooks/message.rs:104-126).
  `TrailersTakeEffectExactly` says when neither happens, `ConcealedTrailers` and `CommentedTrailers` are inputs.
- The shrinker returns inputs of fewer than two bytes untried, and is not minimal for every oracle:
  `ShortInputIsNotTried` says exactly when the untried result is minimal, `NonMonotoneCounterexample` is an oracle.
- The numeric resolver names an issue the scoped one refuses to guess exactly when one number is linked under several
  scopes: `NumericDiffersExactly`.

## Model

| member | source | states |
|---|---|---|
| Shrinker.Shrink | fuzz/src/driver.rs:152-172 | the double loop over best, index, size and budget computes the recursive form the results are about |
| Shrinker.ShrinkKeepsCrash | fuzz/src/driver.rs:151-172 | for every oracle the result is a subsequence of the input and crashes if the input did |
| Shrinker.ShrinkIsMinimal | fuzz/src/driver.rs:155-171 | for a monotone oracle and at least two bytes, if budget is left then no single byte can be deleted |
| Shrinker.ShrinkIsMinimalWithinBudget | fuzz/src/driver.rs:15 | up to 10,000 bytes the same without any proviso, as the budget never runs out |
| Shrinker.PassCost | fuzz/src/driver.rs:158-168 | a pass over length L at block size s makes exactly floor(L / s) oracle calls while budget lasts |
| Shrinker.ShrinkCost | fuzz/src/driver.rs:155-170 | all passes together make fewer than two calls per input byte, whatever the oracle answers |
| Shrinker.BudgetSufficesExactly | fuzz/src/driver.rs:15 | the budget outlives every oracle exactly when the worst case of the input's length is below it |
| Shrinker.ShortInputIsNotTried | fuzz/src/driver.rs:156-157 | the input comes back with the whole budget left exactly when it has fewer than two bytes; it is then minimal exactly when it is empty or the empty input does not crash |
| Shrinker.NonMonotoneCounterexample | fuzz/src/driver.rs:152-172 | a non-monotone oracle whose result can lose a byte and still crash, with budget left |
| Corpus.SplitTokens | fuzz/src/lib.rs:48-57 | splitting and popping in place gives the argv tokens |
| Corpus.TokensToBytes | fuzz/src/generate.rs:265-274 | the push loop gives the tokens joined by NUL |
| Corpus.TokensOfJoined | fuzz/src/lib.rs:48-57 | splitting joined NUL-free tokens gives them back, less the last one exactly when it is empty |
| Corpus.JoinedTokens | fuzz/src/generate.rs:265-274 | joining the tokens of any input gives it back, less one trailing NUL |
| Wrapper.QuotedReadsBack | src/hooks.rs:340-342 | a shell reads a quoted value back whole and goes on with what follows (IEEE Std 1003.1, Shell Command Language, 2.2.1 and 2.2.2) |
| Wrapper.QuoteEndsAtNewline | src/hooks.rs:324-327 | the quoted backup path is read back and ends exactly at the newline after it |
| Wrapper.AssignmentReadsBack | src/hooks.rs:319-327 | in the rendered chained wrapper the shell reads one word that assigns exactly the backup's path, and the line ends there |
| Wrapper.ScriptInOrder | src/hooks.rs:317-338 | a chained wrapper names its backup, tests it unless it is the legacy text, runs it, and only then runs the program |
| Wrapper.RenderInjective | src/hooks.rs:308-338 | two rendered wrappers are equal exactly when hook, backup and, with a backup, the preflight choice are |
| Wrapper.DeclaresExactly | src/hooks.rs:221-224 | a rendered wrapper declares an original exactly when it is for that hook and that backup path |
| HookInstall.HooksDirectory.Step | src/hooks.rs:288-288 | one rename or atomic replace happens whole or, when the install is stopped, not at all |
| HookInstall.HooksDirectory.InstallFresh | src/hooks.rs:152-164 | an absent hook is written, chained exactly when a safe original is kept |
| HookInstall.HooksDirectory.UpdateManaged | src/hooks.rs:196-211 | an own wrapper is validated against its original and rewritten only if its text differs |
| HookInstall.HooksDirectory.DisplaceForeign | src/hooks.rs:259-303 | a foreign executable hook is moved to an absent backup and then replaced |
| HookInstall.HooksDirectory.InstallHook | src/hooks.rs:139-219 | one hook's files, steps used and report are those of its plan, and the other hook's files are untouched |
| HookInstall.HooksDirectory.InstallAll | src/hooks.rs:122-136 | both preflight checks and then both hooks, against the specification of an install stopped after any number of steps |
| HookInstall.WrappersAreDistinct | src/hooks.rs:196-201 | the texts of one directory are told apart and are those the program compares with |
| HookInstall.SucceedsOnDisk | src/hooks.rs:122-217 | from the four files: an install succeeds exactly if each hook is absent, ours with a safe chain, or foreign, executable and with a free backup path; else which error it reports |
| HookInstall.SuccessOnDisk | src/hooks.rs:146-217 | after success each hook is the wrapper with the preflight test, legacy ones upgraded, chained to the original exactly if there is one; foreign hooks have become originals; the report lists the new, own and moved hooks |
| HookInstall.HookResumes | src/hooks.rs:146-217 | one hook stopped anywhere can be planned again and settles in the same files |
| HookInstall.CompletesExactly | src/hooks.rs:133-136 | an install completes exactly when both hooks can be planned, and then each is settled |
| HookInstall.CrashRecovery | src/hooks.rs:122-216 | if an install would succeed, then after any number of stopped installs a complete one ends in the same four files |
| HookInstall.InstallIsIdempotent | src/hooks.rs:146-149 | after a success a further install, stopped or not, changes nothing and reports both hooks updated |
| HookInstall.UnsafeChainBlocksBoth | src/hooks.rs:122-132 | while one hook on disk declares a chain whose original is missing or unsafe, no number of installs touches either hook, and each is refused |
| HookInstall.FailureIsPartialExactly | src/hooks.rs:122-136 | a failed install changes files exactly when only the second hook fails, past its preflight, and the first had work to do |
| HookInstall.TakenBackupIsPartial | src/hooks.rs:255-275 | for every foreign executable commit hook with its backup path taken, an install that ends in that refusal after it wrote the prepare hook |
| HookInstall.SuccessLeavesSafeChain | src/hooks.rs:202-216 | after success each hook holds the current wrapper, chained exactly when a safe original is kept, and is executable exactly unless it held that text without the bit before |
| HookInstall.DeadWrapperStaysDead | src/hooks.rs:207-210 | no number of installs makes such a wrapper executable |
| HookInstall.DeadHookIsReportedUpdated | src/hooks.rs:202-216 | for every hooks directory, a checkout whose install succeeds, reports the prepare hook as updated, and leaves it without the executable bit |
| HookInstall.InstallsEvolve | src/hooks.rs:259-303 | what any sequence of installs can do to one hook is one of three things |
| HookInstall.ForeignHookSurvives | src/hooks.rs:255-275 | over any installs a backup never changes, a foreign hook survives at one of the two paths, an own wrapper is never preserved as original |
| HookInstall.OtherDirectoryIsForeign | src/hooks.rs:196-197 | a wrapper rendered for another hooks directory is not owned here |
| CommentMarker.ReadMarker | src/hooks.rs:534-588 | the loop that overwrites the marker computes the specification, error for error |
| CommentMarker.StatusDecides | src/hooks.rs:541-556 | status 1 gives "#", any other failure or an unterminated output is an error |
| CommentMarker.AcceptExactly | src/hooks.rs:574-587 | which values are refused, and as what |
| CommentMarker.FirstBadRecord | src/hooks.rs:557-573 | the first record that is no entry decides the error: no newline, or an unexpected key |
| CommentMarker.LastEntryDecides | src/hooks.rs:557-587 | on any entries Git prints the last value decides; it is refused exactly when auto, empty or with a line break |
| CommentMarker.AcceptedOutputIsEntries | src/hooks.rs:551-574 | no accepted output is anything but such entries, for every byte string |
| CommitMessage.FindCut | src/hooks/message.rs:34-39 | the scan over lines finds the first scissors line |
| CommitMessage.ReadReference | src/hooks/message.rs:50-87 | the cursor code with its checked number reads the reference the specification describes |
| CommitMessage.ReadReferences | src/hooks/message.rs:47-92 | the nested loops collect each reference of the authored lines once, in order |
| CommitMessage.PredominantEol | src/hooks/message.rs:133-154 | counting line ends gives the more frequent one, the first deciding a tie |
| CommitMessage.EolExactly | src/hooks/message.rs:133-154 | CRLF is used exactly if it ends more lines than a lone newline, or as many and the first |
| CommitMessage.InsertMany | src/hooks/message.rs:104-126 | trimming and appending give the body, a blank line, one trailer per id, and the rest |
| MessageLines.LineThenRest | src/hooks/message.rs:19-31 | how a text is read line by line, with one carriage return dropped before a newline only |
| MessageLines.ContentsAboveCut | src/hooks/message.rs:34-45 | above the scissors stand exactly the lines before the first one that says so |
| MessageLines.TrimmedContents | src/hooks/message.rs:109-116 | trimming takes away blank lines only and leaves the last line as it reads |
| ReferenceScan.FoundWithoutCr | src/hooks/message.rs:49-90 | a trailing carriage return changes nothing the scan finds |
| ReferenceScan.TrailerFound | src/hooks/message.rs:120-121 | a trailer line is found as exactly its one id |
| ReferenceGrammar.LineFindsExactly | src/hooks/message.rs:47-92 | a line yields an id exactly if it is pre, keyword, colon or blanks, "#", digits, post, for the six keywords in any letter case, with no word character touching |
| ReferenceGrammar.FoundInOrder | src/hooks/message.rs:49-90 | the ids of a line are found in the order in which they stand |
| ReferenceGrammar.ReferencesExactly | src/hooks/message.rs:41-92 | the references of a message are exactly the ids that its lines above the scissors, comments left out, refer to, each once |
| ReferenceGrammar.AcceptsExactly | src/hooks.rs:491-532 | commit-msg accepts exactly if no authored line refers to an unbound issue and no trailer of a bound one stands twice |
| ReferenceGrammar.PreparesExactly | src/hooks.rs:454-489 | prepare-commit-msg changes a message exactly if it is not Git's own, the branch is bound, the marker is readable and no authored line refers to an issue |
| CommitTrailers.InsertionAddsReferences | src/hooks/message.rs:47-126 | an insertion that conceals nothing adds exactly the trailers that are not comments to the references |
| CommitTrailers.TrailersTakeEffectExactly | src/hooks/message.rs:101-126 | on a message without references the trailers are all read back, in order, exactly when none is concealed or commented out |
| CommitTrailers.ConcealedTrailers | src/hooks/message.rs:111-119 | for every marker, a message whose trailers land below a scissors line the insertion made |
| CommitTrailers.CommentedTrailers | src/hooks/message.rs:40-45 | under the marker "R" the trailer added to an empty message is a comment and is lost |
| CommitTrailers.InsertionReplacesLineEnds | src/hooks/message.rs:104-126 | the block replaces one stretch of line ends before the scissors or the end; every other byte is kept |
| CommitTrailers.PreparedIsAccepted | src/hooks.rs:454-532 | for every answer of Git about its marker, prepare-commit-msg leaves the message as it was or leaves one that commit-msg accepts, and fails exactly where it needs a marker it cannot read |
| TaskKeys.NewKeyExactly | src/task_identity.rs:38-177 | a key is built exactly from a known provider name in any letter case, fields stored trimmed, a positive i64 id without leading zero, and the instance of that provider's own normaliser |
| TaskKeys.KeyErrorExactly | src/task_identity.rs:38-69 | what is wrong is reported in the order provider, project, external id, instance |
| TaskKeys.NewKeyIsCanonical | src/task_identity.rs:38-69 | building a key from the fields of a built key gives it back |
| TaskKeys.DecimalExactly | src/task_identity.rs:165-177 | a stored id is the decimal form of its number exactly when it has no plus sign |
| TaskKeys.PlusSignIsKept | src/task_identity.rs:165-177 | "+7" and "7" are both accepted, stay different, and name the number 7 |
| TaskStore.Store.Ensure | src/task_identity.rs:274-314 | insert unless present, read back, roll back on an error: the new tables and the result |
| TaskStore.Store.AddRepoMembership | src/task_identity.rs:319-368 | the checks in order, then one row unless present: the new tables and the result |
| TaskStore.EnsureExactly | src/task_identity.rs:268-314 | ensuring fails exactly at no positive time or if a new key is refused; a new row gets the next id and this time |
| TaskStore.JoinExactly | src/task_identity.rs:319-368 | a task joins exactly under a valid key, at a positive time, if its binding exists; else which error |
| TaskStore.EnsureKeepsInv | src/task_identity.rs:292-314 | under the invariant ensuring a valid key keeps it, appends at most one row, and never meets a corrupt row |
| TaskStore.RunKeepsInv | src/task_identity.rs:268-368 | over every run of transactions the invariant holds and both tables only grow at the end |
| TaskStore.EveryRunIsSafe | src/task_identity.rs:268-368 | from the empty store ids and keys stay one-to-one, rows decode, and memberships name bindings |
| TaskStore.EnsureAgreesForever | src/task_identity.rs:268-273 | whatever runs in between, the same key gets the same row again and nothing is written |
| TaskStore.StoredRowsDecode | src/task_identity.rs:236-266 | whatever input callers build keys from, every stored row is read back as the key it was written for |
| TaskLookups.BindingsForRepoNumber | src/task_identity.rs:422-458 | the checks and the decoding loop compute the lookup, errors included |
| TaskLookups.BindingsForNumber | src/task_identity.rs:466-499 | the same for the lookup across repositories |
| TaskLookups.DecodeRowsExactly | src/task_identity.rs:236-266 | on any rows, decoding gives them back exactly if all have a positive id and time and a canonical key |
| TaskLookups.RepoLookupFindsExactly | src/task_identity.rs:422-458 | in strictly increasing id order, exactly the repository's tasks whose unsigned id is the number |
| TaskLookups.RepoLookupCompleteExactly | src/task_identity.rs:409-411 | every task of the repository with that number is listed exactly when none of them is signed |
| TaskLookups.GlobalLookupFindsExactly | src/task_identity.rs:466-499 | across repositories, in strictly increasing id order, exactly the tasks whose unsigned id is the number |
| TaskLookups.GlobalLookupCompleteExactly | src/task_identity.rs:466-499 | every task with that number is listed exactly when none of them is signed |
| TaskLookups.PlusIsNeverFound | src/task_identity.rs:440-441 | a task "+7", stored and joined, that number 7 does not find |
| TaskLookups.RepoLookupLists | src/task_identity.rs:427-457 | the lookup succeeds exactly for a valid repository key and a positive i64 number, else with which error |
| TaskLookups.RepoLookupWithinGlobal | src/task_identity.rs:460-499 | a repository's answer is part of the answer across all repositories |
| TaskLookups.OtherRepositoriesDoNotMatter | src/task_identity.rs:432-437 | only this repository's memberships matter to its lookups |
| TaskLookups.ForeignJoinIsInvisible | src/task_identity.rs:319-333 | a membership added for another repository changes no lookup of this one |
| TaskLookups.FoundStaysFound | src/task_identity.rs:409-411 | after any further run a found task is still found and an ambiguous number still ambiguous |
| TaskLookups.MembershipExactly | src/task_identity.rs:507-526 | on a reachable store the counting membership proof is exact, and its errors are |
| Pagination.ReadNativePage | src/pagination.rs:98-141 | on a stateful upstream one call, or two when no total is given, make the page or the error of the specification |
| Pagination.RequestExactly | src/pagination.rs:10-27 | a request exists exactly for a page from 1 on, a limit of 1 to 100 and an offset that fits i64 |
| Pagination.NativePageExactly | src/pagination.rs:98-141 | a page is made exactly of answers that fit together, and has more exactly if the total or the one item behind it says so |
| Pagination.NativePageRefinesSlice | src/pagination.rs:98-141 | on an honest upstream, with or without totals, a native page has the items and the flag of the slice |
| Pagination.NativePageNeverSkips | src/pagination.rs:98-141 | on every upstream a page that claims more is full, so the next one starts right after it, and the offset check never fires |
| Pagination.PageCountIsCeiling | src/pagination.rs:10-27 | pages needed are max(1, ceil(n / limit)) |
| Pagination.WalkRebuilds | src/pagination.rs:10-96 | walking pages while they say more rebuilds the list in that many pages with no request refused, up to i64::MAX items |
| LinkReads.BranchesForNumber | src/branch_links/reads.rs:187-225 | the loop pushes every selected row, decoded, and its second check never drops one |
| LinkReads.BranchesForNumberPage | src/branch_links/reads.rs:227-276 | count, distinct scopes, window, and states filled in place |
| LinkReads.ReadExactly | src/branch_links/reads.rs:187-225 | a reverse read has an entry exactly for each row of the repository with the number, linked or asked for although detached, column by column |
| LinkReads.ReadAscends | src/branch_links/reads.rs:199-199 | its entries ascend by provider, project, external id and branch, each by code point |
| LinkReads.BranchReadExactly | src/branch_links/reads.rs:70-106 | the same for the rows of one branch |
| LinkReads.BranchReadAscends | src/branch_links/reads.rs:70-89 | its entries ascend by provider, project and external id |
| LinkReads.SameOrder | src/branch_links/reads.rs:199-199 | with unique row keys every implementation of the ordering gives the same rows |
| LinkReads.PageIsSlice | src/branch_links/reads.rs:227-276 | every page is the slice of the whole read, with its length as total, and is ambiguous exactly when the whole read names two issues |
| LinkReads.PagesRebuildFullRead | src/branch_links/reads.rs:187-276 | pages in order rebuild the whole read without gap or duplicate |
| LinkReads.IssuesForBranch | src/branch_links/reads.rs:72-106 | the forward read pushes every selected row, decoded |
| LinkReads.SameBranchOrder | src/branch_links/reads.rs:70-89 | the forward read has one order whatever sort is used |
| LinkReads.ReadsAgree | src/branch_links/reads.rs:70-225 | a branch lists an issue under its number exactly when that number lists the branch, with the same columns |
| LinkReads.ReverseReadIsExact | src/branch_links/reads.rs:187-225 | the reverse read lists only the number it was asked for exactly when that fits i64 or there is nothing to list |
| LinkReads.ActiveReadIsFiltered | src/branch_links/reads.rs:70-106 | the active read is the history without its detached rows |
| BranchNames.NameRoundTrip | src/lifecycle.rs:141-150 | parsing a generated name gives the id back for every tracker and u64, also before a suffix that starts with no digit |
| BranchNames.TypedNameParses | src/branch_naming.rs:17-27 | the same for any type segment without a slash |
| BranchNames.ParsesExactly | src/branch_naming.rs:10-48 | the first slash with an id behind it decides, then a trailing id after a dash or underscore, then a name that is all digits |
| BranchNames.NamesNothingExactly | src/branch_naming.rs:15-48 | a name has no id exactly if it has none of the three forms |
| BranchNames.TrailingIdParses | src/branch_naming.rs:28-46 | a trailing id is read behind any head without a slash before a digit, and a bare id as it is |
| BranchNames.PrefixExactly | src/lifecycle.rs:141-150 | the name starts with "fix" exactly for the tracker "bug" in any letter case and with blanks around it, else with "feat" |
| BranchNames.ParsedIdIsWritten | src/branch_naming.rs:17-48 | every parsed id is positive, fits u64, and stands in the name as digits |
| BranchIssues.SortDedup | src/branch_links/compat.rs:89-90 | sort and dedup leave the set of elements, once each, in order |
| BranchIssues.ResolveCore | src/branch_links/compat.rs:187-229 | on distinct identities the branches compute the verdict on their set |
| BranchIssues.ResolveScopedCompatIssue | src/branch_links/compat.rs:74-92 | the answer is the verdict on the set of (provider, project, number) triples |
| BranchIssues.ResolveCompatIssue | src/branch_links/compat.rs:52-67 | the answer is the verdict on the set of numbers, scopes forgotten |
| BranchIssues.ResolveActiveIssue | src/branch_links/active.rs:21-36 | none, the one linked key, or all of them sorted, never a guess |
| BranchIssues.ResolveBranchIssue | src/branch_links/compat.rs:98-110 | durable links first, the branch name only if they are silent and not ambiguous |
| BranchIssues.ResolveBranchRows | src/branch_links/compat.rs:170-182 | the same from stored rows with strict protection, and by name alone without a store |
| BranchIssues.ReadKeepsLinkedIds | src/branch_links/compat.rs:138-165 | reading a branch's rows loses and adds no identity linked in the table |
| BranchIssues.OnlyLinkedSetMatters | src/branch_links/compat.rs:138-147 | order, repetition, external ids and detached rows do not change the answer |
| BranchIssues.NumericDiffersExactly | src/branch_links/compat.rs:11-18 | numeric and scoped answers differ exactly when one number is linked under several scopes and nothing else is |
| BranchIssues.ActiveAgreesExactly | src/branch_links/active.rs:21-36 | off the default branch both resolvers agree exactly unless one identity is linked under several external ids; agreeing on one issue, they name the same number |
| BranchIssues.ReadHasOneNumberPerKey | src/branch_links/reads.rs:72-106 | what that needs holds of every read of one branch of a table with its primary key |
| BranchIssues.ActiveAgreesWithScoped | src/branch_links/active.rs:21-36 | off the default branch both resolvers agree when external ids are the decimals of the numbers |
| BranchIssues.ActiveDisagreesOnPlus | src/branch_links/active.rs:21-36 | with "7" and "+7" linked they do not |
| BranchIssues.ProtectedExactly | src/branch_links/identity.rs:216-229 | a known default alone is protected, with the white space around it taken away; without one "main" and "master" are |
| BranchIssues.GeneratedNameResolves | src/branch_links/compat.rs:98-120 | with no links a generated name resolves to its id unless it is the trimmed default branch |
| BranchIssues.HookIssueIds | src/hooks/branch_context.rs:32-85 | the hook binding: all linked numbers ascending, refused when one has two scopes, else the name |
| BranchIssues.HooksAgreeWithResolver | src/hooks/branch_context.rs:1-14 | the hooks bind one issue exactly when the resolver names it, for every issue, exactly unless the branch is an unprotected default that the hooks bind to one |
| BranchIssues.HooksAgreeOnDetected | src/branch_links/identity.rs:160-186 | on every default that detection returns they agree |
| BranchIssues.HooksDisagreeOnPaddedDefault | src/branch_links/compat.rs:198-204 | a branch and a default, both with a blank in front, that the hooks bind and the resolver suppresses |
| TimerLedger.Ledger.AutoFinishRun | src/time_tracking/finish.rs:351-366 | one finish: admitted, found, running and not before its start, or an error that changes nothing |
| TimerLedger.Ledger.CloseIssueRuns | src/lifecycle_auto.rs:326-352 | the reversed loop with its early return computes the sweep, and reports nothing after a failure |
| TimerLedger.Ledger.AutoStartRun | src/time_tracking/start.rs:119-147 | one start: a new running row, or the same one again, or an error that changes nothing |
| TimerLedger.Ledger.AutoTransitionTimer | src/lifecycle_auto.rs:217-263 | sweep, then start even if the sweep failed; the outcome and the new ledger |
| TimerLedger.Ledger.AutoCloseIssueTimer | src/lifecycle_auto.rs:289-324 | admission, then the sweep; the outcome and the new ledger |
| TimerLedger.FinishExactly | src/time_tracking/finish.rs:351-366 | when one finish works, and that it changes the status, the moment and the elapsed time of an open run only |
| TimerLedger.RoleExactly | src/lifecycle_auto.rs:81-100 | the reviewer has every status that mentions "test", "qa" or "review" in any letter case, the executor the rest, with a fallback exactly if no word occurs |
| TimerLedger.StartedRun | src/lifecycle_auto.rs:217-263 | what the started row holds, which finished runs the outcome lists, and exactly when it warns |
| TimerLedger.StartsExactly | src/time_tracking/start.rs:119-147 | with an unused id a run starts exactly if the store admits it and id, issue and status can be stored |
| TimerLedger.SweepMoments | src/lifecycle_auto.rs:331-351 | each run the sweep reached is finished at the moment of its turn, with the time since its start |
| TimerLedger.CloseExactly | src/lifecycle_auto.rs:289-324 | what a close leaves and reports, for each kind of admission |
| TimerLedger.SweepStops | src/lifecycle_auto.rs:331-351 | the sweep finishes from the oldest on and stops at the first failure, with exactly the older runs finished |
| TimerLedger.FailedSweepKeepsNewer | src/lifecycle_auto.rs:326-352 | the sweep stops at the oldest listed run that admission or the clock keeps from being finished in its turn, with exactly the older ones finished |
| TimerLedger.CloseRunsSucceedsExactly | src/lifecycle_auto.rs:326-352 | a sweep succeeds exactly if the store opens and every listed run is admitted in its turn, not before its start |
| TimerLedger.GoesOnExactly | src/lifecycle_auto.rs:342-345 | the sweep leaves the ledger as one that goes on past failures exactly when no run newer than a failing one could be finished |
| TimerLedger.SweepGivesUp | src/lifecycle_auto.rs:338-350 | two open runs that both stay open although only the first finish was not admitted; going on would finish the newer |
| TimerLedger.CloseRunsFinishes | src/infra/timer_store.rs:147-174 | a successful sweep finishes exactly the newest 64 open runs of the issue and touches no other row |
| TimerLedger.TransitionOpensOne | src/lifecycle_auto.rs:20-35 | a successful transition's fresh run is the only open one exactly when at most 64 were open, and other issues keep their rows |
| TimerLedger.FailedSweepStillStarts | src/lifecycle_auto.rs:230-248 | the started run is open next to exactly the runs from the first failing one on; if there is one it warns and reports no finished run |
| TimerLedger.BacklogShrinks | src/lifecycle_auto.rs:20-35 | over every run of working events an issue touched j times has at most max(1, R - 63 j) open runs |
| TimerLedger.SingleRunning | src/lifecycle_auto.rs:22-24 | from at most 64 open runs every touched issue keeps at most one |
| TimerLedger.ListingExists | src/infra/timer_store.rs:147-174 | a listing of the kind every timer result asks for exists |
| TimerLedger.OutageBuildsBacklog | src/lifecycle_auto.rs:230-248 | k transitions whose sweeps cannot open the store and whose starts succeed leave exactly k more open runs |
| TimerLedger.BacklogOutlivesTransition | src/lifecycle_auto.rs:22-35 | every backlog of k > 64 runs arises from the empty ledger, and a transition that succeeds in everything leaves k - 63 of them open |
| TimerLedger.TwoRunsStayOpen | src/lifecycle_auto.rs:22-24 | for every listing, a ledger and a succeeding transition after which two runs of the issue are open |
| RedmineIdentifiers.NormalizeComponent | src/remote.rs:265-284 | the push, pop and remove loops compute the normal form |
| RedmineIdentifiers.RedmineIdentifier | src/remote.rs:237-263 | prefix, truncate and pop compute the identifier, errors included |
| RedmineIdentifiers.TwoWords | src/remote.rs:265-284 | words are kept in lower case, a stretch between them becomes one underscore or hyphen by its first character, stretches at the ends are dropped |
| RedmineIdentifiers.IdentifierOf | src/remote.rs:237-263 | the identifier is the owner's part, a hyphen and the repository's part, "wf-" in front exactly if no letter starts it, cut only above 100 characters |
| RedmineIdentifiers.FixedExactly | src/remote.rs:265-284 | the normaliser leaves a text alone exactly when it has the shape it produces |
| RedmineIdentifiers.IdentifierShape | src/remote.rs:237-263 | every OWNER/REPOSITORY gets 1 to 100 characters in the alphabet, first a letter, no separator last or doubled, a fixed point, and 99 or 100 long if cut |
| RedmineIdentifiers.ValidExactly | src/remote.rs:225-235 | a repository is valid exactly as two components around one slash |
| LegacyAddress.Store.LoadRedmineConfig | src/auth.rs:209-236 | the file's fields laid over the row field by field, and none where neither says anything |
| LegacyAddress.Store.LegacyRedmineApiBase | src/auth.rs:305-356 | the loop over roles with its early errors computes the lookup and the new store |
| LegacyAddress.Store.RedmineApiBase | src/auth.rs:281-300 | the first source with a value wins; the result and the new store |
| LegacyAddress.FirstSourceWins | src/auth.rs:281-300 | the Redmine variable, the generic one, the file, the stored setting and the roles, in this order; an unreadable source fails it |
| LegacyAddress.MergedByField | src/auth.rs:209-236 | each field comes from the file if it has it, else from the row |
| LegacyAddress.ErrorsNameRoles | src/auth.rs:309-355 | a refusal names the first role whose address is refused, a conflict all roles with an address |
| LegacyAddress.LegacyMeans | src/auth.rs:341-355 | the lookup depends only on the set of normal forms: one is the answer, several or a refused one are errors |
| LegacyAddress.ReadOnlyAgrees | src/auth.rs:274-279 | both forms answer alike when the save works, and the read-only one writes nothing |
| LegacyAddress.MigratesExactly | src/auth.rs:257-263 | the store is written exactly when nothing overrides it, nothing is stored, the roles agree and the save works |
| LegacyAddress.ConflictWritesNothing | src/auth.rs:350-354 | roles that disagree are refused and nothing is written |
| LegacyAddress.MigrationSticks | src/auth.rs:281-300 | later resolutions return the migrated address whatever the roles then hold, exactly when it is trimmed and non-empty |
| LegacyAddress.CleanMigrationSticks | src/auth.rs:281-300 | with a normaliser that returns only trimmed non-empty addresses every migration is permanent |

## Left out

- Worktree leases, snapshots, plugin and body-file handling, the policy table, configuration commands, providers and output.
- Writing of branch links (src/branch_links/store.rs): the model starts from a table that satisfies its column checks and keys.
- URL parsing and normalising: abstract functions; what a result needs of them (idempotence) is a requirement of that lemma.
- Detection of the default branch and of the hooks directory, path joining, lossy path decoding, temp-file names and mode bits beyond executable.
- Failing reads of the settings store and of SQLite in general, except where a step of the timer ledger or a save can fail.
- Interleavings inside one task transaction: immediate transactions are modelled as serial, so a run is a sequence of whole transactions.
- SQLite's behaviour once the row-id counter is exhausted for a key that is already present.
- Owner, activity, rounding and synchronisation columns of timer rows, and the texts of warnings and errors.
- Expansion, double quotes and operators of the shell: the reader gives up on them, which the quoting proof never meets.
- The seed mutation and campaign loop of the fuzz harness.
