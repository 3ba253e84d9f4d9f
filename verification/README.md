# A verified model of go-database

go-database moves data between databases, guards SQL text, inherits roles, schedules transfer jobs and keeps
small indexes and ciphers of its own. This project models the parts of it that compute something hard to see
from one body, and proves what they promise. It verifies with `dafny verify dfyconfig.toml`.

| file | what it models |
|---|---|
| `Collections.dfy`, `Chains.dfy`, `Division.dfy` | lists without repetition, chains of ids and when following one comes to an end, quotients |
| `Text.dfy` | the functions of Go's `strings` and `strconv` that the other files call |
| `Calendar.dfy` | the Gregorian calendar in UTC, `time.Date` and `AddDate` with their running over of days |
| `CronSearch.dfy` | the jumping search for the next firing time |
| `CronExpr.dfy` | cron fields and whole expressions as text |
| `Scheduler.dfy` | the job store under ticks, firings, and updates and removals by others at any time; runs of all these steps |
| `InsertSql.dfy` | INSERT statements as text, and a reader of them |
| `Transfer.dfy` | paged copies, runs of jobs, and cancellation between any two steps |
| `Guard.dfy` | cutting SQL into statements and ranking them; a scan that knows comments |
| `Roles.dfy`, `DbAccess.dfy` | inherited permissions, connection entries with their overrides, the checks |
| `Store.dfy` | placeholders for PostgreSQL, lists as comma-separated text |
| `Levenshtein.dfy` | edit distance by matrix, edit scripts, fuzzy matching |
| `Trie.dfy` | the completion trie of heap nodes |
| `Graph.dfy` | the embedded graph and breadth-first TRAVERSE |
| `LoginLimiter.dfy` | the login limiter over runs of many addresses |
| `Crypto.dfy` | PKCS#7 padding (section 6.3 of RFC 5652), CBC mode (section 6.2 of NIST SP 800-38A), encrypt-then-MAC, the X25519 framing |

How to read it. Code that changes state is a method or a class with fields; its contract gives the new state, and
lemmas say what that means. What the code gets from outside is a parameter (clock readings, nonces, lower-casing,
value mapping, role loading, block ciphers, MACs) or a free choice (`if *`: a failing database call, a
cancellation). Map iteration in any order is a choice of any element.

Where the code falls short of its own documentation, the code is modelled as it is, with the exact condition:

- The cron search misses a month when the first candidate's month is excluded and the next month has no such
  day, because the jump by one month runs over (`SearchIsEarliestExactly`, `JanuaryThirtiethMissesFebruary`).
- A cron step that passes 64 bits wraps around and sets values below its start (`StepValuesMeanExactly`,
  `LargestStepWraps`).
- A job may fire more than once for a matching minute: two firings use the same plan if and only if no plan was
  stored between the ticks that listed them (`SamePlanExactly`, `NextFiringRepeatsExactly`). Each plan that is found
  is used once (`OncePerMatchingMinute`), and jobs whose expression always matches are always replanned
  (`SteadyIsRenewed`); a job for 29 February, once it has fired in 2028, is due again on every tick
  (`LeapDayRunsOut`, `LeapDayFiresAgain`). The scheduler waits only for done and failed: for a transfer that ends
  cancelled it waits until it is itself stopped (`Await`).
- Denials do not always win, though the repository's own README.md:46 and internal/auth/resourceperm.go:14 and
  148-150 say so: a denial is taken out by an allow that follows it, and an entry removed once is never put back
  (`DenialHoldsExactly`, `AllowedLaterIsAccepted`, `DeniedAgainIsAccepted`); and an administrator's entry before a
  denial beats it, so the order of permissions matters (`OrderMattersExactly`, `AdministratorFirst`).
- Walking up the roles does not end on a cycle (`WalkEndsExactly`, `CycleNeverStops`, `TwoRolesNeverStop`,
  `WalkAccessEndsExactly`).
- A failed truncation is ignored: an overwriting run then ends done with the old rows still there
  (`OverwriteGivesTheSourceExactly`, `OldRowsStay`).
- Quoting an identifier does not double quotes in it (`IdentReadsBackExactly`); columns missing from the first row
  are not inserted (`RowReadsBackExactly`); floating-point values that are no numerals give a statement that cannot be
  read (`InsertReadsBackExactly`). Literals are printed alike for every target: one that reads backslashes as escapes
  reads most strings with a backslash differently (`BackslashReadsBackExactly`).
- The command found need not be of the highest risk: a comment in front of a statement other than the first hides
  what it does (`CommentHidesCommandExactly`, `HighestBehindCommentsExactly`), so a caller who may only query may pass
  with more than SELECTs (`QueryOnlyCallerRunsMoreExactly`, `CommentedStatementIsMissed`). Statements are cut in the
  right places unless a comment contains a quote or a semicolon (`CommentsDoNotMatter`, `QuotesInComments`).
- Numbering placeholders changes the meaning of a query with a `?` in a literal, with a digit behind `$` or `?`, or
  with a `?` in a comment before an argument (`RewritingKeepsMeaningExactly`, `QuestionMarkInLiteral`,
  `QuestionMarkInComment`); a stored list loses an empty last item (`ListSurvivesExactly`).
- Padding is undone only while the count fits in a byte (`BlockSizesThatWork`), and texts are accepted that padding
  never makes (`PadUndoesUnpadExactly`). The MAC does not fix where the ciphertext ends and the associated data begins
  (`BoundaryIsNotAuthenticated`).
- In a graph loaded from a file new nodes may replace old ones (`NothingReplacedExactly`, `NextNameMayBeTaken`).

## Model

| member | source | states |
|---|---|---|
| Calendar.YearLength | internal/scheduler/cron.go:42 | the closed form for the start of a year grows by 366 days in leap years of the Gregorian rule and by 365 in others |
| Calendar.YearStartsWithJanuary | internal/scheduler/cron.go:42 | adding up month lengths one by one gives the closed form of the Gregorian calendar |
| Calendar.MonthsOfYear | internal/scheduler/cron.go:42-57 | where each month of a year starts, in closed form: from March on in the rhythm of 153 days for five months |
| Calendar.FourCenturies | internal/scheduler/cron.go:42 | four centuries have 146097 days, a whole number of weeks |
| Calendar.BeforeMeans | internal/scheduler/cron.go:43 | instants are ordered as numbers of nanoseconds |
| Calendar.MonthOf | internal/scheduler/cron.go:45-57 | the month found for a day contains it; with MonthOfUnique no other does |
| Calendar.AddMonthLandsIn | internal/scheduler/cron.go:46 | adding a month lands in the next month if that has the day, else in the month after it |
| Calendar.AddDays | internal/scheduler/cron.go:51-56 | adding days moves time by whole days, across month ends too |
| CronSearch.MonthJumpLands | internal/scheduler/cron.go:45-49 | the month jump is strictly forward, to the first minute of the next month, or of the one after if the next lacks the day |
| CronSearch.DayJumpLands | internal/scheduler/cron.go:50-59 | the day jump is strictly forward, to the next midnight, and passes over no match of a rejected day |
| CronSearch.HourJumpLands | internal/scheduler/cron.go:60-64 | the hour jump is strictly forward, to the next full hour, and passes over no match of a rejected hour |
| CronSearch.Search | internal/scheduler/cron.go:40-72 | for any start, on a whole minute or not, the result is the earliest later matching minute before the horizon and outside a month skipped by an overshooting jump; a failure means there is none, down to the minute the horizon lies in |
| CronSearch.AnswerIsUnique | internal/scheduler/cron.go:40-72 | that determines whether the search succeeds and the minute it gives |
| CronSearch.SearchIsEarliestExactly | internal/scheduler/cron.go:40-72 | the search gives the earliest match, and fails only if there is none, if and only if no overshooting month jump hides a match |
| CronSearch.JanuaryThirtiethMissesFebruary | internal/scheduler/cron.go:45-49 | a concrete start and expression for which the result is not the earliest match |
| CronExpr.ParseField | internal/scheduler/cron.go:75-119 | the loops compute FieldSet, errors included, and terminate even when steps wrap around 64 bits |
| CronExpr.PartsMean | internal/scheduler/cron.go:78-118 | a field is accepted if and only if all parts up to the first `*` or step are well formed, whatever follows, and stands for exactly the values these parts name |
| CronExpr.StepValuesMeanExactly | internal/scheduler/cron.go:103-106 | for every 64-bit start and step, the values set are the arithmetic progression from the start to the maximum if and only if the first sum beyond the maximum fits in 64 bits |
| CronExpr.WrappedValue | internal/scheduler/cron.go:103-106 | otherwise some value set lies below the start |
| CronExpr.LargestStepWraps | internal/scheduler/cron.go:103-105 | an input that wraps around: the largest step from 5 also sets 3 and 1 |
| CronExpr.ListField | internal/scheduler/cron.go:12-13 | a printed comma list of in-range values parses to exactly their set |
| CronExpr.StarStepField | internal/scheduler/cron.go:12-13 | `*/N` parses to every N-th value of the range from its lower end |
| CronExpr.StartStepField | internal/scheduler/cron.go:84-106 | `S/N` parses to every N-th value from S on, whatever the lower end of the range |
| CronExpr.BadSteps | internal/scheduler/cron.go:87-90 | a step that is not positive is refused |
| CronExpr.NumberField | internal/scheduler/cron.go:109-116 | a single number is accepted if and only if it lies in the range |
| CronExpr.FiveNumbers | internal/scheduler/cron.go:13-38 | five numbers parse to just these if and only if they lie in the ranges of minute, hour, day, month and weekday |
| CronExpr.FiveStars | internal/scheduler/cron.go:13-38 | five stars parse to all values of the five ranges |
| CronExpr.SpecRoundTrip | internal/scheduler/cron.go:13-38 | five printed lists joined by spaces parse back to the same five sets |
| CronExpr.NextTime | internal/scheduler/cron.go:13-73 | the first error in field order, or else what the search answers for the parsed sets |
| CronExpr.LeapDayExpression | internal/scheduler/cron.go:13-38 | `0 0 29 2 *` is parsed to midnight on 29 February |
| CronSearch.LeapDayRunsOut | internal/scheduler/cron.go:40-72 | from June 2027 the search finds 29 February 2028; from that day it finds nothing within two years |
| Scheduler.PrintedExpressionFires | internal/scheduler/cron.go:12-72 | an expression printed from five lists fires at exactly the minutes whose minute, hour, day, month and weekday they list |
| Scheduler.DisabledNeverFires | internal/scheduler/scheduler.go:81-84 | a job that no tick lists as enabled never fires in any run |
| Scheduler.SamePlanExactly | internal/scheduler/scheduler.go:66-159 | in any run of ticks, firings, updates and removals, two firings of a job use the same plan if and only if no plan was stored between the ticks that listed them |
| Scheduler.NextFiringRepeatsExactly | internal/scheduler/scheduler.go:91-146 | without updates in between, the next firing repeats the plan if and only if the first was cut short or its search found nothing |
| Scheduler.OncePerMatchingMinute | internal/scheduler/scheduler.go:66-159 | if a plan was stored since a firing was over, the next one uses a plan in a matching minute after the end of the earlier firing and not after its own tick |
| Scheduler.FiringsMapToMinutes | internal/scheduler/scheduler.go:66-159 | if that holds between all firings of a job, those after the first map injectively and in order to matching minutes |
| Scheduler.SteadyIsRenewed | internal/scheduler/scheduler.go:133-159 | it does for a job whose expressions always match and whose transfers all end, whatever others do |
| Scheduler.DailyJobsAreRenewed | internal/scheduler/scheduler.go:133-159 | so it does for every job created in the run for some times of every day, if its transfers all end |
| Scheduler.DailyAlwaysMatches | internal/scheduler/cron.go:13-73 | the printed expression of minutes and hours for every day always has a next run |
| Scheduler.PlanIsLater | internal/scheduler/scheduler.go:133-159 | once a plan is stored, the job, while it exists, has one in a matching minute after that time |
| Scheduler.FiringMeans | internal/scheduler/scheduler.go:66-89 | a firing has the job as the last tick listed it, then enabled and without a plan or with one that had passed, and is its only one since |
| Scheduler.LeapDayFiresAgain | internal/scheduler/scheduler.go:141-146 | a run in which a job fires twice with the plan for 29 February 2028, the second time at any later tick |
| Scheduler.DueAgain | internal/scheduler/scheduler.go:81-146 | a recorded run leaves the job due at once if and only if no next run was found, else due exactly after the instant found; an interrupted one leaves it due |
| Scheduler.Await | internal/scheduler/scheduler.go:110-128 | waiting ends if and only if some poll finds the transfer done, failed or unknown, or the scheduler stopped; the first such poll decides the outcome |
| Scheduler.Scheduler.RecordRun | internal/scheduler/scheduler.go:133-146 | the whole new store: last run, status, next run if found, other jobs untouched; an unknown job changes nothing |
| Scheduler.Scheduler.Execute | internal/scheduler/scheduler.go:91-131 | whatever others do while it waits, one firing of the listed job is added to the run; the stored record, if there still is one, changes only if the transfer was not cut short |
| Scheduler.Scheduler.Check | internal/scheduler/scheduler.go:66-89 | whatever others do meanwhile, a job fires, once, if and only if it was listed as enabled and without a plan or with one that had passed; in any order |
| Scheduler.Scheduler.Interfere | internal/scheduler/store.go:82-96 | any updates and removals by others extend the run |
| Scheduler.Scheduler.EnsureJob | internal/scheduler/scheduler.go:149-159 | a bad expression leaves the store alone; otherwise the job is stored with a fresh plan, or as given if it has no expression, also when saving to disk fails |
| Scheduler.Scheduler.Delete | internal/scheduler/store.go:91-96 | the job is gone, also when saving to disk fails |
| InsertSql.ColumnNames | internal/transfer/engine.go:339-344 | the columns are the keys of the row, each once, in byte order |
| InsertSql.GenerateInsertSQL | internal/transfer/engine.go:334-373 | the loops print the statement text InsertText for the sorted columns of the first row; nothing for no rows |
| InsertSql.IdentReadsBackExactly | internal/transfer/engine.go:471-474 | a quoted identifier is read back as itself if and only if it contains no quote |
| InsertSql.ReadQuotedBack | internal/transfer/engine.go:488-489 | doubling quotes is undone by a reader of quoted tokens, for every text |
| InsertSql.ValueReadsBack | internal/transfer/engine.go:476-495 | null, booleans, integers and strings read back as themselves, floating-point numerals as the number they show, other values as their printed form; NaN and infinities do not read |
| InsertSql.InsertReadsBackExactly | internal/transfer/engine.go:334-373 | for all names and rows: a printed statement reads back as the table, the columns and every row in order if and only if no name contains a quote and no value is NaN or infinite |
| InsertSql.InsertReadsBack | internal/transfer/engine.go:334-373 | for names without quotes an illegible value makes the whole statement unreadable |
| InsertSql.BackslashReadsBackExactly | internal/transfer/engine.go:488-489 | to a target that reads backslash escapes, a printed string reads back as itself if and only if every backslash stands before `%` or `_` |
| InsertSql.RowReadsBackExactly | internal/transfer/engine.go:339-363 | a row comes back whole if and only if it has exactly the statement's columns |
| InsertSql.InsertIsOneStatement | internal/transfer/engine.go:365-372 | the statement splitter sees the printed text as one statement if and only if all literals in it are closed and hold its semicolons; that depends on the names alone when their quotes are balanced, whatever the values contain; the command is an INSERT |
| Transfer.PageIsInserted | internal/transfer/engine.go:235-246 | the statement generated for a page inserts exactly the page's rows, as read from its text, if and only if all its values are legible |
| Transfer.InsertPage | internal/transfer/engine.go:235-248 | the target gets the whole mapped page or nothing, nothing if a value is illegible; with no INSERT issued late before, at most one is |
| Transfer.TransferTable | internal/transfer/engine.go:201-257 | it terminates; whatever stops it, the target table has got exactly the first `total` mapped rows in order, all of them on success, which illegible values exclude; no other table changes; failure means a cancelled context or a failed call; at most one INSERT after cancellation |
| Transfer.PrepareTable | internal/transfer/engine.go:163-180 | unless the context is cancelled: a table is skipped if and only if `skip` finds rows, and otherwise starts with the rows the strategy and a failing truncation leave; a call that fails is counted |
| Transfer.CopyTable | internal/transfer/engine.go:155-191 | a finished table holds the rows FinalRows gives for the strategy, the failing calls and the old rows; a broken-off one what it had, or a prefix added to what it starts with |
| Transfer.FilterTables | internal/transfer/engine.go:446-461 | the loops compute TablesToCopy |
| Transfer.CopiesWhatIsNamed | internal/transfer/engine.go:446-461 | exactly the named tables are chosen, all if none is named, none twice |
| Transfer.JobState.Interrupt | internal/transfer/engine.go:416-430 | between two steps the status can only become cancelled, and a cancelled context stays so |
| Transfer.CopyTables | internal/transfer/engine.go:155-198 | the tables before the stopping point are done, the next is a prefix, the rest untouched; without failures and cancellation all are done |
| Transfer.Run | internal/transfer/engine.go:117-199 | under cancellation between any two steps: at most one INSERT is issued after it; the log only grows; the run ends done, failed or cancelled; a dry run writes nothing; a job cancelled before it started writes nothing. A finished run leaves every chosen table with its old rows if `skip` finds any, with the moved source if `overwrite` can truncate it, and else with the moved source behind the old rows. Without cancellation and failed calls it ends done |
| Transfer.FinishedTablesHold | internal/transfer/engine.go:167-191 | what a finished table holds, for each strategy and each failing truncation or count, in terms of its old rows and the moved source alone |
| Transfer.UnfinishedRunLeaves | internal/transfer/engine.go:155-191 | the table a run was stopped in is as it was, or has some first rows behind those it starts with; one that `skip` leaves alone is as it was |
| Transfer.MovedMeans | internal/transfer/engine.go:222-233 | a moved row has the columns of its source with their mapped values |
| Transfer.OverwriteGivesTheSourceExactly | internal/transfer/engine.go:168-171 | after a finished overwriting run a table equals its mapped source if and only if it is not among those that cannot be truncated, or had no rows |
| Transfer.OldRowsStay | internal/transfer/engine.go:168-171 | an input on which the old row stays in front of the copied one |
| Guard.SplitStatements | internal/guard/rbac.go:105-135 | the loop computes Statements |
| Guard.SplitLosesNothing | internal/guard/rbac.go:105-135 | the pieces joined with `;` are the text, up to one final `;` outside literals, and no piece has a `;` outside literals |
| Guard.StatementsOfJoin | internal/guard/rbac.go:105-135 | any list of whole statements, joined with or without a final `;`, is split into exactly these |
| Guard.SplitAgain | internal/guard/rbac.go:105-135 | a non-empty piece splits into itself alone |
| Guard.TrimSQL | internal/guard/rbac.go:162-183 | the loop takes off all leading space and comments, terminates, and gives nothing if a comment does not end |
| Guard.CommandOfMeans | internal/guard/rbac.go:138-160 | for each of the eight words: the command of a statement is that one if and only if the statement, trimmed, starts with it |
| Guard.FoundByWords | internal/guard/rbac.go:60-103 | which words the statements start with decides the risk of the command found: DROP or TRUNCATE, then DELETE or ALTER, then CREATE or UPDATE, then INSERT, then SELECT |
| Guard.DetectCommand | internal/guard/rbac.go:60-83 | the command found is the first of the highest risk over all statements |
| Guard.HighestIsUnique | internal/guard/rbac.go:66-83 | that determines it, and it is unknown if and only if no statement is recognised |
| Guard.CheckCommand | internal/guard/rbac.go:16-39 | if some statement starts with a word for a change the caller passes if and only if `connections:execute` is held, else if and only if some statement starts with SELECT and `connections:query` is held |
| Guard.QueryOnlyCallerRunsSelects | internal/guard/rbac.go:16-39 | a caller who may query but not execute passes if and only if some statement starts with SELECT and none with INSERT, UPDATE, DELETE, CREATE, DROP, ALTER or TRUNCATE |
| Guard.CommentHidesCommandExactly | internal/guard/rbac.go:60-83 | the command of a statement is missed if and only if a comment stands in front of it and a command behind that |
| Guard.HighestBehindCommentsExactly | internal/guard/rbac.go:60-83 | no statement does more than the command found, comments passed over, if and only if every command behind a comment is matched in risk by one that is not |
| Guard.QueryOnlyCallerRunsMoreExactly | internal/guard/rbac.go:27-83 | a caller who may only query passes with a statement other than a SELECT if and only if such a statement stands behind a comment, some statement is a SELECT, and all recognised ones are |
| Guard.CommentedStatementIsMissed | internal/guard/rbac.go:60-83 | the text `SELECT 1;/**/DROP`, trimmed and split, is taken for a SELECT |
| Guard.CommentsDoNotMatter | internal/guard/rbac.go:105-135 | the splitter cuts where a scan that knows comments does, if no comment contains a quote or a semicolon |
| Guard.QuotesInComments | internal/guard/rbac.go:105-135 | a text of two statements that it takes for one, a SELECT |
| Guard.LineComments | internal/guard/rbac.go:166-171 | what the scan that knows comments takes for a comment to the end of a line |
| Guard.BlockComments | internal/guard/rbac.go:172-177 | and for a block comment, up to the first `*/` |
| Roles.OnChainStep | internal/auth/permission.go:84-124 | a permission is on the chain if and only if the role has it or its parent's chain does |
| Roles.BuiltInRoles | internal/auth/permission.go:47-74 | what the three built-in roles hold where no role is stored |
| Roles.StoredRolesComeFirst | internal/auth/permission.go:86-103 | a stored role is taken as stored, also under the id of a built-in one |
| Roles.WalkEndsExactly | internal/auth/permission.go:84-121 | with finitely many roles the walk ends if and only if it meets no role twice before an administrator, and then within as many steps as there are roles |
| Roles.CycleNeverStops | internal/auth/permission.go:118-120 | a walk that meets a role again goes on for ever, whatever the length of the cycle |
| Roles.TwoRolesNeverStop | internal/auth/permission.go:118-120 | an input: two roles that name each other |
| Roles.Walk | internal/auth/permission.go:85-121 | the recursion collects every permission met, each once, or `*` alone as soon as an administrator is met |
| Roles.GetEffectivePerms | internal/auth/permission.go:80-136 | a permission is held if and only if it or `*` occurs in a role on the chain or in the extras, despite the short cut; without an administrator the list is exactly these, each once |
| Roles.HasPermission | internal/auth/permission.go:138-145 | true if and only if `*` or the permission is in the list |
| DbAccess.WalkAccessEndsExactly | internal/auth/resourceperm.go:155-177 | with finitely many roles this walk ends if and only if it meets no role twice, administrators included |
| DbAccess.ChainEntriesMean | internal/auth/resourceperm.go:152-177 | the collected entries are exactly those of the roles on the chain |
| DbAccess.GetEffectiveDBAccess | internal/auth/resourceperm.go:151-226 | no duplicates, and an entry is in the result if and only if nothing after its first mention removes it |
| DbAccess.StaysExactly | internal/auth/resourceperm.go:190-222 | by position: an entry is in the result if and only if it is mentioned and no extra entry behind a mention is its opposite |
| DbAccess.LastDenyLeavesNoAllow | internal/auth/resourceperm.go:195-207 | a connection whose last extra entry is a deny has no allow entry |
| DbAccess.AllowStaysExactly | internal/auth/resourceperm.go:208-222 | an allowed connection keeps its allow entry if and only if no deny follows its first mention |
| DbAccess.AllowedAgainIsForgotten | internal/auth/resourceperm.go:208-222 | allowed, denied and allowed again, a connection has no entry |
| DbAccess.ExtrasOverrideRoles | internal/auth/resourceperm.go:148-150 | where the extras name a connection once their verdict counts, else the role chain's |
| DbAccess.OnlyThreeAreGlobal | internal/auth/resourceperm.go:18-38 | of the mapped permissions exactly list, query and execute open connections in general |
| DbAccess.CheckDBAccess | internal/auth/resourceperm.go:109-146 | true if and only if a global permission is held, or the connection is not denied and it or `*` is allowed |
| DbAccess.DeniedIsRefused | internal/auth/resourceperm.go:109-226 | a connection denied by extras that name it once is refused even beside `*` |
| DbAccess.DenialHoldsExactly | internal/auth/resourceperm.go:109-226 | for all roles and extras that deny a connection: it is refused if and only if no allow follows the first mention of its denial, or neither its own entry nor `*` is kept, all by position in the inputs |
| DbAccess.LastDenyRefusesExactly | internal/auth/resourceperm.go:109-226 | where the deny comes last, only a kept `*` and an allow behind the first mention of the denial let it in |
| DbAccess.AllowedLaterIsAccepted | internal/auth/resourceperm.go:208-222 | denied and then allowed in the extras, a connection is accepted |
| DbAccess.DeniedAgainIsAccepted | internal/auth/resourceperm.go:195-222 | denied, allowed and denied again beside `*`, a connection is accepted |
| DbAccess.HasResourcePermission | internal/auth/resourceperm.go:40-64 | the loop decides Permitted |
| DbAccess.WrittenOutGrantsExactly | internal/auth/resourceperm.go:67-105 | a permission `a:r` alone grants an action on a resource if and only if a is `*` or the action, and r is `*`, the resource, or a start of it with `.*` |
| DbAccess.WithoutColonGrantsNothing | internal/auth/resourceperm.go:67-78 | a permission without a colon grants if and only if it is `*` |
| DbAccess.FlatGrantsExactly | internal/auth/resourceperm.go:18-38 | a flat permission grants its action on the resources that start with its group, and nothing else |
| DbAccess.FlatGrantsAsMapped | internal/auth/resourceperm.go:66-71 | a flat permission grants what the text it stands for grants |
| DbAccess.ConnectionPermissions | internal/auth/resourceperm.go:18-38 | what `connections:list` and `connections:query` grant |
| DbAccess.ConnectionExecution | internal/auth/resourceperm.go:18-38 | what `connections:execute` grants |
| DbAccess.DenialMirrorsGrant | internal/auth/resourceperm.go:49-58 | an entry denies exactly what it grants without its minus sign |
| DbAccess.ListGrantsExactly | internal/auth/resourceperm.go:40-64 | without an administrator's entry access is granted if and only if some entry alone grants it and none denies it |
| DbAccess.AdministratorGrantsExactly | internal/auth/resourceperm.go:40-64 | with one, if and only if nothing in front of the first denies it |
| DbAccess.OrderMattersExactly | internal/auth/resourceperm.go:40-64 | all orders of the permissions give the same verdict if and only if they do not hold both an administrator's entry and a matching denial |
| DbAccess.AdministratorFirst | internal/auth/resourceperm.go:40-64 | an input: the administrator's entry before a matching denial grants the access |
| Store.Placeholders | internal/internaldb/store.go:91-102 | the loop computes the numbered query |
| Store.RewritingKeepsMeaningExactly | internal/internaldb/store.go:91-102 | read with literals, comments and longest-match numbers, the numbered query has the tokens of the original if and only if no `?` stands in a literal, no digit behind a `$` or `?` in code, and no `?` in a comment before one in code |
| Store.QuestionMarkInLiteral | internal/internaldb/store.go:91-102 | an input whose literal is changed |
| Store.QuestionMarkInComment | internal/internaldb/store.go:91-102 | an input whose argument gets the wrong number |
| Store.RewritingKeepsArguments | internal/internaldb/store.go:91-102 | then every argument list fills both alike |
| Store.JoinSlice | internal/internaldb/store.go:730-742 | the loop joins with commas |
| Store.SplitSlice | internal/internaldb/store.go:744-762 | the loop gives the pieces between commas without an empty last one |
| Store.ListSurvivesExactly | internal/internaldb/store.go:730-762 | a list survives storing if and only if its items are comma-free and the last is not empty |
| Store.StoredTextSurvives | internal/internaldb/store.go:730-762 | reading and writing stored text drops exactly one trailing comma if there is one |
| Levenshtein.Min3 | internal/suggest/levenshtein.go:53-64 | the least of three |
| Levenshtein.Levenshtein | internal/suggest/levenshtein.go:18-51 | the matrix gives the recursive distance, which is the length of a shortest edit script of the lower-cased texts |
| Levenshtein.ScriptExists | internal/suggest/levenshtein.go:36-50 | a script of that many single-byte edits turns one text into the other |
| Levenshtein.NoShorterScript | internal/suggest/levenshtein.go:36-50 | no script of insertions, deletions and substitutions at any places is shorter |
| Levenshtein.DistanceIsShortestScript | internal/suggest/levenshtein.go:36-50 | a number is the distance if and only if it is the length of a shortest script |
| Levenshtein.Symmetric | internal/suggest/levenshtein.go:18-51 | the distance is symmetric |
| Levenshtein.ZeroOnlyForEqual | internal/suggest/levenshtein.go:18-51 | it is zero if and only if the texts are equal |
| Levenshtein.Triangle | internal/suggest/levenshtein.go:18-51 | it obeys the triangle inequality |
| Levenshtein.Bounds | internal/suggest/levenshtein.go:18-51 | it lies between the difference of the lengths and the longer length |
| Levenshtein.SortMatches | internal/suggest/levenshtein.go:106-110 | sorted by distance, the same matches |
| Levenshtein.MatchWords | internal/suggest/levenshtein.go:66-99 | the first `limit` words of a ranking of exactly the close dictionary words |
| Levenshtein.KeptExactlyIfClose | internal/suggest/levenshtein.go:73-79 | a word is kept if and only if its distance is at most two fifths of the longer length |
| Levenshtein.NearestComeFirst | internal/suggest/levenshtein.go:81-86 | no close word that is cut off is nearer than one that is returned |
| Trie.Trie.Insert | internal/suggest/trie.go:23-33 | the trie then stands for the old map with the folded word mapped to its spelling; its nodes stay a tree |
| Trie.Trie.InsertAll | internal/suggest/trie.go:75-97 | inserting words in order gives the map Filled |
| Trie.LastSpellingWins | internal/suggest/trie.go:31-32 | of words with the same folding the spelling inserted last is kept, and only folded words are keys |
| Trie.Trie.Collect | internal/suggest/trie.go:48-58 | in any order of children: different keys below the node, all of them unless the limit is reached, never past the limit |
| Trie.GatherSize | internal/suggest/trie.go:48-58 | collecting below a node takes exactly the keys there are, cut at the limit |
| Trie.SearchResults | internal/suggest/trie.go:35-46 | what is collected from the root down are spellings of different keys with the prefix, so all different |
| Trie.Trie.Search | internal/suggest/trie.go:35-46 | pairwise different spellings of keys with the folded prefix, exactly min(max(limit, 0), their number) of them |
| Graph.WithinStep | plugins/graph/graph.go:262-274 | one more level reaches exactly the targets of edges from nodes at the current distance |
| Graph.NothingBeyond | plugins/graph/graph.go:276-278 | once a level is empty no node is further away |
| Graph.GraphPlugin.Traverse | plugins/graph/graph.go:250-285 | the rows are sound, in order of distance, without repeats, and list every existing node whose shortest walk from the start has 1 to `depth` edges, with that length |
| Graph.NothingReplacedExactly | plugins/graph/graph.go:144-146 | m creations in a row replace no node if and only if no node has one of the names numbered from the count plus 1 to the count plus m; then the old nodes are all unchanged |
| Graph.NextNameIsNew | plugins/graph/graph.go:144-146 | in a graph numbered through, the next name is new and numbering goes on |
| Graph.NextNameMayBeTaken | plugins/graph/graph.go:144-146 | a graph in which a new node replaces an old one |
| Graph.GraphPlugin.CreateNode | plugins/graph/graph.go:129-156 | the node map changes at the new name only; a numbered graph stays numbered |
| Graph.GraphPlugin.CreateEdge | plugins/graph/graph.go:158-183 | the edge is appended, and what is then within k edges of a start is exactly what was before or lies on walks to the edge and on from it |
| Graph.NewEdgeReachesExactly | plugins/graph/graph.go:172 | the same as a fact about edges: any walk that uses the edge can be cut at its first and last use |
| LoginLimiter.RateLimiter.Admit | internal/api/middleware/ratelimit.go:27-40 | an attempt is admitted if and only if the block is over; a new address gets an empty entry |
| LoginLimiter.RateLimiter.Record | internal/api/middleware/ratelimit.go:44-55 | a 401 counts and from the fifth on blocks for count - 4 seconds; anything else resets |
| LoginLimiter.Replay | internal/api/middleware/ratelimit.go:25-57 | driven by any run of requests and answers, the limiter holds and admits what the states of the run say |
| LoginLimiter.FailuresTakeTime | internal/api/middleware/ratelimit.go:25-57 | in any run over any addresses, n consecutive 401 answers to one span at least (n-5)(n-4)/2 seconds |
| LoginLimiter.BoundIsReached | internal/api/middleware/ratelimit.go:25-57 | some run of n failures takes exactly that long |
| Crypto.PadPKCS7 | internal/crypto/crypto.go:173-180 | the padded text has whole blocks and between one and a block more bytes |
| Crypto.UnpadPKCS7 | internal/crypto/crypto.go:183-197 | accepted texts, the result, and which error otherwise |
| Crypto.UnpaddingMeans | internal/crypto/crypto.go:183-197 | unpadding gives d if and only if the text is d followed by n bytes n that it ends in |
| Crypto.PadUndoesUnpadExactly | internal/crypto/crypto.go:173-197 | padding what was unpadded gives the text back if and only if its last byte lies between 1 and the block size |
| Crypto.UnpadUndoesPadExactly | internal/crypto/crypto.go:173-197 | unpadding undoes padding if and only if the number of padding bytes is at most 255 |
| Crypto.BlockSizesThatWork | internal/crypto/crypto.go:173-197 | it does so for all data if and only if the block size is at most 255 |
| Crypto.BlocksDecryptBack | internal/crypto/algorithms.go:98-141 | CBC decryption undoes CBC encryption over any invertible block cipher |
| Crypto.XorBit | internal/crypto/algorithms.go:98-101 | the mask of CBC mode bit by bit: a bit is set if and only if it is set in exactly one of the two bytes |
| Crypto.Encrypt | internal/crypto/algorithms.go:83-112 | short keys are an error; what is sealed opens to the plaintext, for every inverse pair of block functions |
| Crypto.Decrypt | internal/crypto/algorithms.go:114-144 | a text is accepted if and only if the key is long enough, the MAC is right and whole blocks decrypt to something that ends in padding |
| Crypto.OpensExactlySealings | internal/crypto/algorithms.go:83-144 | over a permutation of blocks, opening gives d if and only if the text is the sealing of d followed by n bytes n, in whole blocks |
| Crypto.BoundaryIsNotAuthenticated | internal/crypto/algorithms.go:103-128 | whole blocks moved from the front of the associated data to the end of the ciphertext pass the MAC; the text is then accepted if and only if it decrypts to padding |
| Crypto.DecryptUndoesEncrypt | internal/crypto/algorithms.go:83-144 | opening what was sealed gives the plaintext, for all texts, keys, nonces and MACs |
| Crypto.OpenUndoesSeal | internal/crypto/algorithms.go:261-338 | the receiver cuts the X25519 text where the sender joined it and gets the plaintext |

## Left out

- Scheduler.Scheduler.Check: looking a job up, searching its next run and saving it are one step; there is one loop;
  the store is the file store, which cannot fail to list or find, and keeps in memory what it fails to save.
- Transfer.Run: the truncations and counts that fail are given with the target, the other failing calls are free
  choices; table and column names contain no quotes, the rows of a table have the same columns, the source does
  not change and is not the target, inserts meet no conflicts, and the target reads literals without backslash
  escapes. What printing does otherwise is stated by InsertReadsBackExactly, RowReadsBackExactly and
  BackslashReadsBackExactly.
- Transfer.FilterTables: only the names of tables are kept, not their columns and row counts.
- InsertSql.ValueReadsBack: a floating-point value is its `%v` text; how a number becomes that text is not modelled, and
  one shown without fraction and exponent reads as an integer. Other types come back as their printed form.
- Store.Placeholders: the replacements that follow for upserts, column types and dates.
- Store.RewritingKeepsMeaningExactly: block comments inside comments, dollar quotes, and backslashes in literals.
- Guard.CommentsDoNotMatter: the same.
- DbAccess.ExtrasOverrideRoles: connections whose own name begins with a minus sign, which the entries cannot tell
  from denials.
- Levenshtein.MatchWords: confidence scores; the cut-off at 0.4 of a length is compared in integers.
- LoginLimiter.FailuresTakeTime: several requests of one address at the same time, and counts so large that the block
  time overflows.
- Graph.GraphPlugin.Traverse: the parsing of the query; a depth that is no number is 0.
- Local time zones, daylight saving and the clock itself: times are UTC instants given as readings that do not go back.
- Unicode white space and case: `Text` trims ASCII space; lower- and upper-casing are arbitrary functions.
- The texts, time stamps and numbers in log entries, progress events, table definitions, several jobs at once.
- The other graph queries, JSON properties, and every kind of persistence.
- Cryptographic primitives, random numbers, and every cipher that only calls a library.
- HTTP handlers, database plugins, provisioning, LLM clients, MCP: plumbing around these parts.
