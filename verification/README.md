# kartusche, modelled in Dafny

Kartusche serves small web applications. Each application, a *kartusche*, lives in one
hierarchical key-value store. Its `static/` files, `api/` handlers, `lib/` modules,
`cronjobs/`, `jobs/` and `templates/` sit next to the application's own `data/`. A
control-plane server keeps a map of running kartusches. It routes each request to a
kartusche by host name and exposes the stores over WebDAV and tar dumps.

This project models the parts of kartusche that are a single sequential transaction body
or a pure derivation over one store snapshot. The store is an immutable tree (module
`Store`): a `Node` is either a `Value` of bytes or a `Map` of entries, kept in strictly
ascending bytewise key order. On top of it:

- `Walk` is the breadth-first walk every loader uses. It is proved to visit each
  descendant exactly once, parents first.
- `Static`, `Api`, `Jslib`, `Cron`, `Template`, `HandlersInfo`, `TarDump`, `Loading` and
  `Bundle` derive routes, libraries, schedules, listings and archives from a snapshot, or
  load an archive into one.
- `JobQueue`, `Scheduling`, `Scheduler` and `Cleanup` model the job queue: scheduling,
  promotion, completion with trimmed history, and the clean-up tick.
- `Scoped`, `Iter` and `Txn` model the script-facing store: the `data/` re-rooting, the
  iterators, the commit and rollback rules of the read and write wrappers, and the watch
  matcher (`Scoped`).
- `Watch` models the `develop` command's file watcher: path normalisation, the directory
  walker and the event filter.
- `PathCodec`, `GoPath`, `Auth`, `Base64`, `HttpError`, `Uncapitalize`, `Config` and
  `DeviceFlow` model codecs, Go's slash-path cleaning and joining, header parsing, error
  mapping and token bookkeeping.
- `Webdav` and `Move` model the WebDAV file system.
- `Router` models the runtime manager's reconciliation and host routing.

Code the model cannot see becomes a function parameter: the script VM, JSON, SHA-1,
UUIDs, the cron parser, template rendering and the clock. Go's `defer` and `recover` are
modelled as explicit traces of the calls they make.

The store engine's code is not part of this model. The model assumes these engine rules:

- `CreateMap` fails on an existing path or when the parent is not a map.
- `Put` fails when the parent is not a map or the path holds a map.
- `Delete` fails on a missing path.
- `Get` fails on a missing path or a map.
- `Size` is the child count of a map or the byte length of a value.
- Iterating anything but a map fails, and so does reading the value of a map child.
- `Seek(s)` lands on the first key at or after `s`.

A few facts about the code shape the model:

- Dynamic routes come from the `api/` tree, walked in runtime/execute.go.
- Job promotion moves one job per transaction: the one with the smallest key.
- Completion trims the destination queue to `maxHistorySize - 1` entries before the
  insert, so the queue holds at most `maxHistorySize` entries afterwards. A
  `maxHistorySize` of 0 wraps to 2^64-1, so nothing is trimmed.
- runtime/dbwrapper/db.go passes a `limit` argument that `iteratorFor` and
  `reverseIteratorFor` do not take. The model follows the iterator files and has no
  limit.
- The reverse iterator with a seek starts at the first key at or after the seek, which
  can be a key greater than the seek. A seek past the last key yields nothing.

## Model

| member | source | states |
|---|---|---|
| Api.RouteOf | runtime/execute.go:151-164 | A script's route keeps the file and the prefix, takes the method from the file name without `.js`, and a path that starts with `/`, which is `/` alone for a script directly below `api` |
| Api.Build | runtime/execute.go:143-164 | One route per `<METHOD>.js` leaf, method from the file name, path from its directory; other leaves give none; fails exactly when some script does not compile, naming the first such script in walk order |
| Api.ApiRoutes | runtime/execute.go:133-149 | No `api` node: success with no routes; a value at `api` is a store error |
| Api.ApiRoutesComplete | runtime/execute.go:138-164 | When `Open` succeeds, a route is in the table exactly when it is the route of some `.js` value below `api`, at any depth |
| Api.ApiOpens | runtime/execute.go:151-160 | `Open` succeeds exactly when every `.js` value below `api` compiles |
| Api.ScriptResponse | runtime/execute.go:197-201 | A handler whose script fails answers 500 with the error text; one that succeeds writes nothing more |
| Auth.HeaderToken | server/auth_middleware.go:28-60 | A missing header carries no token; any token comes from a header that has a space |
| Auth.Middleware | server/auth_middleware.go:12-83 | `/auth...` is forwarded; otherwise the request is forwarded exactly when the header yields a token, the read succeeds and `auth/tokens/<token>` exists; a failing read is a 500; every 401 carries the Basic challenge |
| Auth.BearerToken | server/auth_middleware.go:42-44 | For a `bearer` scheme in any case, the token is everything after the first space |
| Auth.BasicToken | server/auth_middleware.go:45-56 | For a `basic` scheme, the base64 of `user:password` yields the password when the user name has no colon |
| Auth.OldMiddleware | command/server/auth_middleware.go:10-59 | `/auth...` is forwarded; otherwise forwarded exactly when the header splits on single spaces into two parts, the first `bearer` in any case, the read succeeds and the token exists under the tokens map; 401s carry no challenge |
| Auth.OldRejectsExtraSpace | command/server/auth_middleware.go:24-28 | A bearer token holding a space is taken whole by the newer middleware and refused by the older one |
| Auth.AuthPrefixBypass | server/auth_middleware.go:23-26 | The bypass is a plain prefix test: `/authx` passes; a missing header elsewhere is a challenged 401 |
| Base64.Encode | server/auth_middleware.go:46-50 | The padded encoding is a whole number of four-character quanta |
| Base64.Decode | server/auth_middleware.go:46-50 | A decoded text is a byte string of at most three bytes per four input characters |
| Base64.RoundTrip | server/auth_middleware.go:46-50 | The standard-alphabet padded decoder the Basic scheme uses (section 4 of RFC 4648) returns every byte string from its encoding |
| Base64.DecodeExamples | server/auth_middleware.go:46-50 | A missing pad and padding inside the input are decode failures; line breaks are skipped; unused low bits of a padded quantum are ignored |
| Bundle.Leaves | runtime/jslib/jslib_handler.go:27-53 | The loaders' shared shape: an absent root gives nothing; a present root succeeds exactly when it is a map; only values are kept |
| Bundle.LeavesComplete | runtime/static.go:18-42 | A value is among the loaded leaves exactly when it lies strictly below the root, at any depth |
| Cleanup.ExpiredPrefix | runtime/jobs/cleanup.go:56-83 | The scan deletes from the front while the id's time is not after the cutoff, stops at the first newer id, and fails on the first id without a time, after only expired ones |
| Cleanup.ExpiredPrefixExact | runtime/jobs/cleanup.go:77-81 | On time-ordered ids an id is deleted exactly when it is expired; an id exactly at the cutoff is deleted |
| Cleanup.CleanQueue | runtime/jobs/cleanup.go:56-83 | Cleaning a queue succeeds exactly when it is a map and its scan finds no bad id; it reports the number deleted and leaves the remaining suffix of children |
| Cleanup.CleanQueueEffect | runtime/jobs/cleanup.go:81-82 | The count reported for a queue plus its new size is its old size |
| Cleanup.CleanQueueMembers | runtime/jobs/cleanup.go:56-83 | A record survives exactly when it is not among the deleted first records |
| Cleanup.CleanQueueKeepsFresh | runtime/jobs/cleanup.go:77-79 | With time-ordered ids a record survives exactly when it is not expired |
| Cleanup.CleanQueueFrame | runtime/jobs/cleanup.go:81 | Cleaning a queue changes nothing beside that queue |
| Cleanup.CleanQueueBeside | runtime/jobs/cleanup.go:55-84 | Cleaning one queue leaves the other queue and its members alone |
| Cleanup.CleanQueueShrinks | runtime/jobs/cleanup.go:81 | Cleaning only deletes |
| Cleanup.CleanTick | runtime/jobs/cleanup.go:40-91 | One transaction cleans `failed` then `succeeded`; success requires both to be maps |
| Cleanup.CleanTickOk | runtime/jobs/cleanup.go:55-65 | A tick succeeds exactly when both queues are maps and neither scan meets an id without a time; otherwise nothing is deleted from either |
| Cleanup.CleanTickSteps | runtime/jobs/cleanup.go:42-54 | A tick is the `failed` pass followed by the `succeeded` pass over its result, with each counter from its own pass |
| Cleanup.CleanTickCounts | runtime/jobs/cleanup.go:35-38 | Each counter equals the number of records removed from its queue |
| Cleanup.CleanTickShrinks | runtime/jobs/cleanup.go:81 | A tick only deletes |
| Cleanup.CleanTickKeepsOneState | runtime/jobs/cleanup.go:81 | A tick keeps every job in at most one queue state |
| Cleanup.CleanRound | runtime/jobs/cleanup.go:40-95 | A failed tick leaves the store as it was and the loop goes on; a successful one commits |
| Cleanup.CleanTickFailed | runtime/jobs/cleanup.go:46-49 | With time-ordered ids a tick keeps in `failed` exactly the records that are not expired |
| Cleanup.CleanTickSucceeded | runtime/jobs/cleanup.go:50-53 | With time-ordered ids a tick keeps in `succeeded` exactly the records that are not expired |
| Cleanup.CleanRoundKeepsFresh | runtime/jobs/cleanup.go:31-95 | A successful turn leaves in each history queue exactly the records whose time is after `now - keep` |
| Config.GetServerBaseURL | config/config.go:20-37 | An empty name falls back to the default; still empty is "no remotes configured"; otherwise the URL is returned exactly when the name has a non-empty URL, else "could not find remote url for <name>" |
| Config.Normalize | config/config.go:90-92 | A missing remotes map becomes an empty one; everything else is kept |
| Config.NormalizeKeepsLookups | config/config.go:30 | Normalising changes no URL lookup, since a nil map reads as empty |
| Cron.SpaceRun | runtime/cronjobs/cron.go:18 | The leading run of RE2 `\s` characters: all spaces, and the next character is not one |
| Cron.Schedule | runtime/cronjobs/cron.go:51-62 | A captured schedule is a non-empty tail of the line, found only after a comment marker |
| Cron.ScheduleMatches | runtime/cronjobs/cron.go:18 | The schedule pattern matches a line exactly when it splits into leading spaces, `#` or `//`, at least one space and a non-empty rest |
| Cron.ScheduleShortest | runtime/cronjobs/cron.go:51-62 | The captured schedule is the shortest rest of any such split (the greedy `\s+`), and a suffix of every one |
| Cron.ScheduleExamples | runtime/cronjobs/cron.go:18 | `# @every 1m` yields `@every 1m`; a marker with no space after it does not match |
| Cron.Jobs | runtime/cronjobs/cron.go:39-71 | The build succeeds exactly when every child is a `.js` value whose first line carries a schedule and which compiles, and registers at most one job per child |
| Cron.JobsRegister | runtime/cronjobs/cron.go:39-71 | The registered jobs are exactly those of valid children whose schedule the parser accepts |
| Cron.CreateCron | runtime/cronjobs/cron.go:35-39 | No `cronjobs` node gives an empty table; a successful build means `cronjobs` is a map whose every child is valid |
| Cron.NonJsFails | runtime/cronjobs/cron.go:40-42 | One key without `.js` fails the whole build |
| Cron.UnparsableDropped | runtime/cronjobs/cron.go:62 | A valid script whose schedule the parser rejects registers nothing and does not fail the build, since the `AddFunc` error is dropped |
| DeviceFlow.RequestsBesideTokens | server/oaut2_handlers.go:39-45 | A path below the open token requests never overlaps a token record, so writing one cannot disturb the other |
| DeviceFlow.IssueTokenRecords | server/oaut2_handlers.go:39-47 | After the issuing transaction the request's `token` field holds the token and `auth/tokens/<token>` holds its info |
| DeviceFlow.Callback | server/oaut2_handlers.go:15-48 | A provider error with no result stores nothing; with a result it stores the error text under the request and reports the error; a failing id generator, drawn before the result is read, stores nothing and answers its error; a nil result without error, once an id is drawn, is the nil dereference; otherwise the response is clean exactly when the issuing transaction commits |
| DeviceFlow.CallbackErrorIssuesNoToken | server/oaut2_handlers.go:22-32 | A provider error never adds or removes a registered token |
| DeviceFlow.CallbackIssues | server/oaut2_handlers.go:39-47 | A successful callback records the token under the request and registers it |
| DeviceFlow.VerificationUri | command/server/login_handler.go:59-63 | With no scheme the URI is `//<host>/auth/verify`, or `/auth/verify` when the host is empty too |
| DeviceFlow.LoginStart | command/server/login_handler.go:29-70 | A failing id generator answers its error with no body and no change; otherwise the body carries the request id and verification URI, and the response is clean exactly when the transaction creating the request, its token and the token record commits |
| DeviceFlow.AccessToken | command/server/login_handler.go:81-122 | An undecodable body is a 400; an unknown request a 404 "request not found"; a request without token `authorization_pending`; a token is returned only as stored under the request |
| DeviceFlow.UndecodablePollIs400 | command/server/login_handler.go:88-93 | Every undecodable poll is refused with status 400 |
| DeviceFlow.LoginThenPoll | command/server/login_handler.go:46-111 | Once a login start commits, polling its request id returns the issued token, and that token is registered |
| HandlersInfo.InfoOf | server/handlers_info_handlers.go:68-73 | The verb is the leaf name without a trailing `.js` (unchanged when it has none), the path is `/` plus the rendering of the segments between `handler` and the leaf, the source is the value |
| HandlersInfo.HandlerLeaves | server/handlers_info_handlers.go:51-75 | No `handler` node gives nothing; only values are collected |
| HandlersInfo.InfosOf | server/handlers_info_handlers.go:68-73 | One entry per leaf in walk order; a leaf sitting directly at `handler` has no segments between and panics |
| HandlersInfo.Sort | server/handlers_info_handlers.go:82-88 | The output is a permutation of the entries, ascending by path and then by verb |
| HandlersInfo.InfoHandlers | server/handlers_info_handlers.go:23-94 | An empty or unknown name is a 400 "kartusche not found"; a kartusche without runtime dereferences nil and nothing else does; a value at `handler` is answered exactly with a 500 carrying the runtime error text, since the read transaction recovers the slice panic; otherwise the sorted listing, empty without a `handler` node |
| HandlersInfo.PanicIff | server/handlers_info_handlers.go:60-71 | Taking the segments between `handler` and a leaf fails exactly when `handler` is itself a value |
| HandlersInfo.LeafListed | server/handlers_info_handlers.go:55-74 | Every value below `handler` is listed |
| HandlersInfo.ListedLeaf | server/handlers_info_handlers.go:55-74 | Everything listed comes from a value below `handler` |
| HttpError.FindCoded | server/error.go:40-42 | What `errors.As` finds: the first coded error along the unwrap chain, and nothing exactly when the chain holds no coded error |
| HttpError.HandleHttpError | server/error.go:33-49 | A nil error writes nothing; every other error is logged and answered; one with no coded error on its chain is a 500 with its own text |
| HttpError.WrappedKeepsStatus | server/error.go:42-45 | Wrapping keeps the status, and a coded error answers with its own code and text however deeply it is wrapped |
| HttpError.CodedResponse | server/error.go:20-22 | A coded error answers with its code and the text "code N: <inner>" |
| HttpError.StatusIs500 | server/error.go:42-47 | The status is 500 exactly when no coded error is on the chain or the first one carries 500 |
| HttpError.Refused | server/error.go:16-18 | A refusal with a code is a logged response with that status |
| HttpError.RefusalText | server/error.go:20-22 | The body of a refusal is "code N: " then the reason and a line end |
| Loading.Step | runtime/initialize.go:47-75 | One archive member: an unparsable cleaned name fails with the parser's text; a directory creates a map exactly when the parent is a map and the path is new; a regular file puts its whole body exactly when it was read and the parent is a map; a read error names the entry; anything else leaves the store alone |
| Loading.Unpack | runtime/initialize.go:38-77 | The member loop preserves a well-formed store |
| Loading.Load | runtime/initialize.go:38-45 | A header error after the members fails the load with that error; at the end of the archive the load is the member loop |
| Loading.UnpackScript | runtime/initialize.go:67-69 | The init script a load returns is the body of the last member named `init.js`, or the starting script |
| Loading.InitScriptLast | runtime/initialize.go:37-69 | With no `init.js` member the script is empty; otherwise the last one wins |
| Loading.NoInit | runtime/initialize.go:37 | Without an init member the script stays the default |
| Loading.DotSlashInit | runtime/initialize.go:47-67 | A member named `./init.js` is the init script because names are cleaned first |
| Loading.StepKeepsExists | runtime/initialize.go:54-75 | A member step never removes a node |
| Loading.StepKeepsMap | runtime/initialize.go:54-75 | A member step keeps every map a map |
| Loading.StepKeepsValue | runtime/initialize.go:61-75 | Only a regular file at the same path changes a value |
| Loading.UnpackKeepsExists | runtime/initialize.go:38-77 | A load never removes a node |
| Loading.UnpackKeepsMap | runtime/initialize.go:38-77 | A load keeps every map a map |
| Loading.UnpackKeepsValue | runtime/initialize.go:38-77 | A value no regular member addresses survives the load |
| Loading.UnpackContents | runtime/initialize.go:54-75 | After a load each directory member is a map and each regular member holds its whole body unless a later regular member has its path |
| Loading.UnpackDirsFresh | runtime/initialize.go:54-58 | A directory member succeeds only on a path absent before the load |
| Loading.UnpackFrame | runtime/initialize.go:38-77 | A node beside every member's path reads as before |
| Loading.UnpackCreates | runtime/initialize.go:38-77 | Every node a load adds lies at or below some member's path |
| Loading.InitBody | runtime/initialize.go:37-101 | The transaction succeeds only if the load succeeds, the last init script compiles and running it succeeds, and then the store is what the script left; a load error is passed on |
| Loading.InitializeNew | runtime/initialize.go:17-35 | An open or begin error returns before any transaction call; otherwise the deferred closure rolls back exactly when the body failed and finishes exactly when it succeeded; the result is success only when the finish succeeds too, and the database changes only then |
| Loading.InitIgnoresRollbackError | runtime/initialize.go:29-32 | A failing rollback does not change what `InitializeNew` returns |
| Loading.HeaderErrorRollsBack | runtime/initialize.go:43-45 | A header error after any number of loaded members rolls all of them back |
| Loading.ClearCode | command/server/update_code_handler.go:46-51 | Deleting each root key but `data` keeps the store well formed |
| Loading.ClearKeys | command/server/update_code_handler.go:47-51 | Clearing keeps the store well formed; it fails only on a root key other than `data` that is missing |
| Loading.ClearKeysEffect | command/server/update_code_handler.go:47-51 | Deleting distinct existing root keys removes exactly their subtrees |
| Loading.ClearCodeEffect | command/server/update_code_handler.go:46-51 | Step one succeeds, deletes every top-level node except `data`, and leaves everything under `data` as it was |
| Loading.UpdateBody | command/server/update_code_handler.go:45-84 | The update succeeds exactly when the archive loads on the cleared store, and the result is that load |
| Loading.UpdateHttpError | command/server/update_code_handler.go:45-88 | An update failure carries no status code, so it is answered with 500 |
| Loading.UpdateCode | command/server/update_code_handler.go:16-92 | A missing name is 400, an unknown one 404, one without a runtime 409; the update commits exactly when the answer is 204, and the new store is the update's result; any update failure is 500 |
| Loading.NoNameText | command/server/update_code_handler.go:25-27 | The 400 body is "code 400: name not provided" |
| Loading.NotFoundText | command/server/update_code_handler.go:34-37 | The 404 body is "code 404: not found" |
| Loading.UpdateReplacesCode | command/server/update_code_handler.go:45-84 | After a committed update `data` keeps every node the archive does not address, and every other top-level node comes from the archive |
| Loading.UpdateRejectsDataDir | command/server/update_code_handler.go:47-74 | While `data` exists, an archive with a directory member for `data` fails the update |
| Iter.SeekIndex | runtime/dbwrapper/iterator_for.go:18-20 | The seek position is the first child key not below the seek; every key before it is below |
| Iter.Drain | runtime/dbwrapper/iterator_for.go:30-62 | Each `next` yields the key and value at the cursor in order; the run ends when the cursor runs off the end, or fails at the first child that is a map |
| Iter.IteratorFor | runtime/dbwrapper/iterator_for.go:11-20 | Iteration succeeds exactly when `data ++ path` is a map |
| Iter.ReverseIteratorFor | runtime/dbwrapper/reverse_iterator_for.go:11-28 | Reverse iteration succeeds exactly when `data ++ path` is a map |
| Iter.DrainAscending | runtime/dbwrapper/iterator_for.go:53-56 | Drawing from sorted children yields strictly ascending keys |
| Iter.DrainKeys | runtime/dbwrapper/iterator_for.go:30-62 | A run drawn to the end holds exactly the children's keys |
| Iter.SeekSuffix | runtime/dbwrapper/iterator_for.go:18-20 | No key from the seek position on lies below the seek |
| Iter.SeekSplit | runtime/dbwrapper/iterator_for.go:18-20 | A key is at or after the seek position exactly when it is not below the seek |
| Iter.IteratorForOrder | runtime/dbwrapper/iterator_for.go:11-62 | Forward iteration yields strictly ascending keys, none below a non-empty seek, and a run to the end yields exactly the existing children at or above the seek |
| Iter.ExistsChildKey | runtime/dbwrapper/iterator_for.go:18-20 | A key occurs from the start position on exactly when it is a child key not below the seek |
| Iter.ReverseIteratorForOrder | runtime/dbwrapper/reverse_iterator_for.go:11-70 | Reverse iteration yields strictly descending keys; with a seek it starts at the first key at or above the seek, and a seek above every key yields nothing; a full run has as many pairs as positions at or below the start |
| Iter.EmptyExample | runtime/integration_test.go:177-203 | Iterating an empty map yields nothing and ends the stream |
| Iter.OneExample | runtime/integration_test.go:205-223 | Iterating a map with one child yields its key |
| Iter.TwoExample | runtime/integration_test.go:225-244 | Iterating a map with children `a` and `b` yields them in order |
| Iter.SeekExample | runtime/integration_test.go:246-272 | Seeking to `b` yields only `b` |
| Iter.ReverseExample | runtime/integration_test.go:274-300 | Reverse iteration yields `b` then `a` |
| Iter.ReverseSeekExamples | runtime/dbwrapper/reverse_iterator_for.go:18-22 | A seek between two keys starts the reverse run at the larger one; a seek past every key yields nothing |
| JobQueue.QueueEntryPaths | runtime/jobs/scheduler.go:23-26 | The four queue maps are distinct, so an entry path names exactly one queue and one id |
| JobQueue.EnsureMap | runtime/dbwrapper/schedule_job.go:40-50 | Ensuring a map succeeds exactly when something is already there or the parent is a map, and leaves an existing node alone |
| JobQueue.EnsureMapExists | runtime/dbwrapper/schedule_job.go:45-50 | Ensuring a map adds at most that one path |
| JobQueue.EnsureMapFrame | runtime/dbwrapper/schedule_job.go:45-50 | Ensuring a map changes nothing beside it and leaves a map unless a value was there |
| JobQueue.PutFields | runtime/jobs/scheduler.go:64-65 | Writing fields keeps the store well formed, and writing any needs the record's path to be a map |
| JobQueue.PutFieldsOk | runtime/jobs/scheduler.go:64-65 | Writing distinct fields under a map, none of them a map, succeeds |
| JobQueue.PutFieldsExists | runtime/jobs/scheduler.go:64-65 | Writing fields adds exactly the field paths |
| JobQueue.PutFieldsFrame | runtime/jobs/scheduler.go:64-65 | A path beside every field is unchanged |
| JobQueue.PutFieldsGet | runtime/jobs/scheduler.go:64-65 | Each written field reads back as its value |
| JobQueue.DeleteFirst | runtime/jobs/scheduler.go:209-211 | Deleting the first n children one after another leaves the rest and nothing beside changes |
| JobQueue.DeleteKeys | runtime/jobs/scheduler.go:209-211 | Deleting keeps the store well formed and fails only on a key that is not under the map |
| JobQueue.DeleteKeysShrinks | runtime/jobs/scheduler.go:209-211 | Deleting never adds a node |
| JobQueue.PutFieldsAboveMap | runtime/jobs/scheduler.go:64-65 | Writing fields keeps each map above them a map |
| JobQueue.PutFieldsKeepsSize | runtime/jobs/scheduler.go:64-65 | Writing fields strictly below a child does not change a map's child count |
| Scheduling.Ensure | runtime/dbwrapper/schedule_job.go:40-78 | A queue map is created only when missing: ensuring fails, with the engine's error, exactly when the path is missing and its parent is not a map; an existing path keeps the store; afterwards the path exists, and is a map unless a value was there |
| Scheduling.WriteJob | runtime/dbwrapper/schedule_job.go:80-84 | The three last writes keep the store well formed whatever their errors |
| Scheduling.ScheduleJob | runtime/dbwrapper/schedule_job.go:14-87 | A marshalling error, then an id error, then a missing `jobs/<name>.js` fail in that order; success needs all three to pass |
| Scheduling.EnsureBelow | runtime/dbwrapper/schedule_job.go:59-64 | Ensuring a map that is not a value under a map succeeds and leaves a map |
| Scheduling.EnsureQueues | runtime/dbwrapper/schedule_job.go:40-78 | The queue maps can all be ensured when none of them is a value, and `scheduled` is then a map |
| Scheduling.WriteJobFresh | runtime/dbwrapper/schedule_job.go:80-84 | On a fresh path under a map the three writes succeed and the job holds its name and encoded parameters |
| Scheduling.WriteJobExists | runtime/dbwrapper/schedule_job.go:80-84 | The writes add the job path and its two fields, and nothing else |
| Scheduling.QueuesEnsured | runtime/dbwrapper/schedule_job.go:40-78 | Ensuring the queue maps keeps the store well formed |
| Scheduling.QueuesEnsuredFresh | runtime/dbwrapper/schedule_job.go:40-78 | Ensuring the queue maps makes `scheduled` a map and adds only ancestors of the job path |
| Scheduling.ScheduleAdds | runtime/dbwrapper/schedule_job.go:40-78 | The queue maps add exactly the missing ancestors of the job path and never the job path |
| Scheduling.ScheduleFresh | runtime/dbwrapper/schedule_job.go:14-87 | With a fresh id and an existing definition, scheduling succeeds, the job sits in `scheduled` with its name and parameters, and only the queue maps, the job and its two fields are new |
| Scheduling.ScheduleQueueEntry | runtime/dbwrapper/schedule_job.go:80-84 | Scheduling adds the job to `scheduled` and changes no other queue membership |
| Scheduling.ScheduleKeepsOneState | runtime/dbwrapper/schedule_job.go:80-84 | Scheduling under an id no queue holds keeps every job in at most one state |
| Scheduler.MoveToRunning | runtime/jobs/scheduler.go:53-65 | The launched job carries the id and the `name` and `params` read from `scheduled/<id>` |
| Scheduler.Promote | runtime/jobs/scheduler.go:45-70 | A missing `scheduled` map promotes nothing; a promotion that launches nothing leaves the store alone |
| Scheduler.PromoteSmallest | runtime/jobs/scheduler.go:52-67 | The promoted job is the smallest scheduled key, and the promotion is the move of that one job |
| Scheduler.PromoteNothingWhenEmpty | runtime/jobs/scheduler.go:47-52 | Nothing is launched exactly when `scheduled` is absent or empty |
| Scheduler.MoveExists | runtime/jobs/scheduler.go:58-65 | After a move exactly the old nodes outside `scheduled/<id>` exist, plus `running`, `running/<id>` and its two fields |
| Scheduler.MoveCopies | runtime/jobs/scheduler.go:55-65 | The moved `name` and `params` are byte-identical copies and `scheduled/<id>` is gone |
| Scheduler.MoveQueues | runtime/jobs/scheduler.go:58-63 | A move takes its job from `scheduled` to `running` and changes no other queue membership |
| Scheduler.MoveFrom | runtime/jobs/scheduler.go:58-63 | The moved job was scheduled and not running |
| Scheduler.MoveKeepsOneState | runtime/jobs/scheduler.go:58-63 | A move keeps every job in at most one state |
| Scheduler.PromoteKeepsOneState | runtime/jobs/scheduler.go:45-70 | A promotion keeps every job in at most one state |
| Scheduler.TrimLimit | runtime/jobs/scheduler.go:157-180 | `maxHistorySize - 1` in unsigned 64-bit arithmetic: one less, and 0 wraps to 2^64 - 1 |
| Scheduler.TrimToSize | runtime/jobs/scheduler.go:194-213 | Trimming a missing path fails; trimming a map keeps it a map with the smaller of its old size and `maxSize` children |
| Scheduler.TrimToSizeKeepsLargest | runtime/jobs/scheduler.go:194-213 | Trimming keeps exactly the `maxSize` largest keys in order and nothing beside the map changes; a map already small enough is left alone |
| Scheduler.TrimBound | runtime/jobs/scheduler.go:194-213 | After trimming the map holds at most `maxSize` entries |
| Scheduler.ZeroHistoryTrimsNothing | runtime/jobs/scheduler.go:157-196 | With `maxHistorySize` 0 the wrapped limit trims nothing |
| Scheduler.RunError | runtime/jobs/scheduler.go:125-143 | As evidently intended: only a finished run has no error; a script error is prefixed "while running job: "; a panic is a failure |
| Scheduler.RunErrorAsWritten | runtime/jobs/scheduler.go:125-143 | As written: a finished run and every recovered panic have no error |
| Scheduler.PanicRecordedAsSuccess | runtime/jobs/scheduler.go:126-137 | A panic gives no error as written but an error as intended |
| Scheduler.Record | runtime/jobs/scheduler.go:159-185 | A failed job is recorded with name, params, error and `failedAt`; a succeeded one with name, params and `finishedAt` |
| Scheduler.Complete | runtime/jobs/scheduler.go:148-189 | A completion fails when the job is not running |
| Scheduler.CompleteRecords | runtime/jobs/scheduler.go:159-185 | Every field of the job's record reads back under `<dest>/<id>` |
| Scheduler.CompleteExists | runtime/jobs/scheduler.go:148-189 | Afterwards only old nodes outside `running/<id>`, the destination queue and the new record exist |
| Scheduler.CompleteMoves | runtime/jobs/scheduler.go:152-182 | The job has left `running` and sits in its destination |
| Scheduler.TrimFrameExists | runtime/jobs/scheduler.go:194-213 | Trimming leaves everything outside the map as it was |
| Scheduler.TrimShrinks | runtime/jobs/scheduler.go:209-211 | Trimming only removes nodes |
| Scheduler.TrimNonMap | runtime/jobs/scheduler.go:195-198 | A trim that succeeds on a non-map leaves the store alone |
| Scheduler.CompleteDestIsMap | runtime/jobs/scheduler.go:153-180 | A committed completion found or made its destination a map |
| Scheduler.CompleteQueues | runtime/jobs/scheduler.go:148-189 | The job leaves `running` and enters its destination; every other queue entry can only disappear, by trimming |
| Scheduler.CompleteKeepsOneState | runtime/jobs/scheduler.go:148-189 | A completion keeps every job in at most one state |
| Scheduler.CompleteTrimBound | runtime/jobs/scheduler.go:157-180 | Before the new entry is created the destination holds fewer than `maxHistorySize` entries |
| Scheduler.CompleteBoundsHistory | runtime/jobs/scheduler.go:157-185 | With `maxHistorySize` at least 1 the destination holds at most `maxHistorySize` entries after a completion |
| Scheduler.EnsureTrimOk | runtime/jobs/scheduler.go:153-157 | Ensuring and trimming a queue under a map that is not a value succeeds |
| Scheduler.DeleteSiblingFrame | runtime/jobs/scheduler.go:152 | Deleting `running/<id>` leaves a sibling queue and its entries as they were |
| Scheduler.DeleteRunningFrame | runtime/jobs/scheduler.go:152 | Deleting `running/<id>` keeps the default queue a map and the history queues as they were |
| Scheduler.CompleteReachesCreate | runtime/jobs/scheduler.go:152-157 | The first three steps of a completion succeed for a running job |
| Scheduler.CompleteOk | runtime/jobs/scheduler.go:148-189 | A completion succeeds for every running job whose destination is not a value |
| Scheduler.FinishJob | runtime/jobs/scheduler.go:102-189 | A job is stranded exactly when its parameters do not decode or its source cannot be read; a job not recorded leaves the store alone |
| Scheduler.FinishedJobLands | runtime/jobs/scheduler.go:145-189 | A running job with decodable parameters and a source leaves `running` and lands in `failed` or `succeeded` as its error says |
| Scheduler.RunJob | runtime/jobs/scheduler.go:87-190 | Corrected: a job is stranded exactly when its parameters do not decode or its source is missing, then the store is unchanged; a recorded job has no error exactly when its script finished |
| Scheduler.RunJobAsWritten | runtime/jobs/scheduler.go:87-190 | As written: as the corrected run, except that a recorded job has no error whenever its script did not return an error, panics included |
| Scheduler.PanickingJobSucceedsAsWritten | runtime/jobs/scheduler.go:125-189 | As written a panicking job is recorded in `succeeded`; with the corrected error it lands in `failed` |
| Jslib.Register | runtime/jslib/jslib_handler.go:35-53 | Registering succeeds exactly when every leaf compiles wrapped in the module prelude; it adds exactly the leaves' slash-joined names; a failure is a compile error |
| Jslib.RegisterFresh | runtime/jslib/jslib_handler.go:35-53 | Every module registering adds is not yet evaluated; any other entry is the one already there |
| Jslib.Load | runtime/jslib/jslib_handler.go:22-56 | Without `lib` the registry is empty; every library loaded is not yet evaluated |
| Jslib.LoadComplete | runtime/jslib/jslib_handler.go:30-54 | A successful load registers exactly the slash-joined paths of the leaves below `lib` |
| Jslib.LoadCompiled | runtime/jslib/jslib_handler.go:45-48 | After a successful load every leaf compiled |
| Jslib.LoadFails | runtime/jslib/jslib_handler.go:45-48 | A failed load names a leaf below `lib` that does not compile |
| Jslib.ModuleName | runtime/jslib/jslib_handler.go:60-62 | The looked-up name ends in `.js`, and a name that already does is kept |
| Jslib.Require | runtime/jslib/jslib_handler.go:58-84 | An unknown module gives "not found: <name>"; an evaluated one returns its cached value; a successful run caches its value; a failed run changes nothing; no other module changes |
| Jslib.RequireNormalizes | runtime/jslib/jslib_handler.go:60-62 | Requiring `x` is requiring `x.js` |
| Jslib.RequireOnce | runtime/jslib/jslib_handler.go:69-71 | After a successful require, requiring again returns the same value without running anything |
| Jslib.RequireRetries | runtime/jslib/jslib_handler.go:73-76 | After a failed require the next require runs the module afresh |
| Move.ChildPaths | server/webdav.go:253-255 | The queued paths are the head's child paths, one per child |
| Move.Step | server/webdav.go:240-255 | One turn keeps the store well formed and queues only paths under the source |
| Move.Run | server/webdav.go:240-256 | A loop that finishes leaves a well-formed store |
| Move.MoveAll | server/webdav.go:236-260 | As written: when the walk finishes, the source no longer exists |
| Move.MovedPrefix | server/webdav.go:243 | Rebasing onto the destination keeps the prefix order of paths under the source |
| Move.MovedDisjoint | server/webdav.go:243 | Rebasing keeps disjoint paths disjoint |
| Move.MovedInjective | server/webdav.go:243 | Rebasing is injective on paths under the source |
| Move.WriteKeeps | server/webdav.go:245-251 | Writing the head's copy keeps the loop invariant for the rest of the queue |
| Move.StepValue | server/webdav.go:245-249 | Copying a value keeps the invariant and lowers the work by one |
| Move.StepMap | server/webdav.go:251-255 | Creating a map and queueing its children keeps the invariant and lowers the work by one |
| Move.StepKeeps | server/webdav.go:240-256 | Every turn succeeds under the invariant and lowers the work by one |
| Move.RunFinishes | server/webdav.go:240-256 | With enough fuel the loop drains the queue and the destination holds a copy of every source node |
| Move.StartInv | server/webdav.go:238 | A disjoint move to a fresh path under a map starts with the invariant, and the work is the size of the source subtree |
| Move.MoveAllFinished | server/webdav.go:236-260 | A disjoint move that drains deletes the source |
| Move.SameShapes | server/webdav.go:240-256 | Two well-formed trees with the same shape at every path are equal |
| Move.ExactCopy | server/webdav.go:240-256 | A destination that copies the source at every relative path equals the source |
| Move.MoveAllCopies | server/webdav.go:236-260 | A disjoint move to a fresh path under a map finishes, the destination equals the old source, the source is gone and every path beside both is unchanged |
| Move.DeleteKeepsCopy | server/webdav.go:258 | Deleting the source keeps the copy intact |
| Move.FirstRoundEnds | server/webdav.go:245-251 | When the first write cannot succeed, the first turn fails or ends the loop |
| Move.MoveAllEnds | server/webdav.go:236-260 | A move whose first turn fails or empties the queue does not run out of fuel |
| Move.MoveOntoItselfDeletes | server/webdav.go:236-260 | As written, moving a value onto itself deletes it |
| Move.ReplaceSame | server/webdav.go:246-247 | Putting a value's own bytes back leaves the store unchanged |
| Move.GrowStep | server/webdav.go:251-255 | Moving `a` to `a/b`: each turn creates one more `b` below and queues it |
| Move.GrowForever | server/webdav.go:240-256 | Moving `a` to `a/b` never drains its queue, for any fuel |
| Move.MoveBelowItselfRunsForever | server/webdav.go:236-260 | As written, moving the empty map `a` to `a/b` runs out of every fuel bound |
| Move.MoveChecked | server/webdav.go:236-260 | Corrected: a move onto itself changes nothing, a move below itself is refused, any other move is the loop |
| Move.MoveCheckedEnds | server/webdav.go:236-260 | Corrected: a move of an existing node with fuel at least the size of its subtree always ends |
| PathCodec.Unescape | common/util/path/db_path_to_file_path.go:20 | Unescaping never lengthens a part, and leaves a part without `%` alone |
| PathCodec.DBPathToFilePath | common/util/path/db_path_to_file_path.go:12-18 | A non-empty path of segments other than empty, `.` and `..` becomes its escaped segments joined by `/` |
| PathCodec.FilePathToDBPath | common/util/path/db_path_to_file_path.go:22-29 | A file path gives at least one segment, and a file path without `/` gives the one unescaped segment |
| GoPath.Clean | server/webdav.go:59 | `path.Clean` never returns the empty string, and its result is rooted exactly when its input is |
| GoPath.Join | runtime/execute.go:152 | `path.Join` returns the empty string exactly when every element is empty |
| PathCodec.Escape | common/util/path/db_path_to_file_path.go:10 | Escaping never shortens a segment |
| PathCodec.EscapeClean | common/util/path/db_path_to_file_path.go:10 | An escaped segment holds no `/` and no NUL |
| PathCodec.EscapeRoundTrip | common/util/path/db_path_to_file_path.go:10-20 | Unescaping an escaped segment gives it back |
| PathCodec.LowercaseKept | common/util/path/db_path_to_file_path.go:20 | Only the upper-case `%2F` is decoded; `%2f` stays as it is |
| PathCodec.EscapeAll | common/util/path/db_path_to_file_path.go:13-16 | Each segment is escaped on its own |
| PathCodec.UnescapeAll | common/util/path/db_path_to_file_path.go:24-27 | Each part is unescaped on its own |
| PathCodec.CountConcat | common/util/path/db_path_to_file_path.go:23 | Separators in a concatenation add up |
| PathCodec.CountAbsent | common/util/path/db_path_to_file_path.go:23 | A string without the separator has none |
| PathCodec.SegmentCount | common/util/path/db_path_to_file_path.go:22-28 | Splitting a file path gives one more part than it has separators |
| PathCodec.EscapePlain | common/util/path/db_path_to_file_path.go:15-17 | An escaped segment that is not empty, `.` or `..` is left alone by the path join |
| PathCodec.FilePathRoundTrip | common/util/path/db_path_to_file_path.go:12-29 | A non-empty store path of segments other than empty, `.` and `..` survives the trip to a file path and back |
| Static.HexDigit | runtime/static.go:64 | A nibble prints as one lower-case hex digit |
| Static.Nibbles | runtime/static.go:64 | A byte is its high nibble times 16 plus its low nibble |
| Static.HexValDigit | runtime/static.go:64 | A printed digit reads back as its nibble |
| Static.Hex | runtime/static.go:64 | `%x` prints two lower-case hex digits per byte |
| Static.UnhexHex | runtime/static.go:64 | The hex text of a byte string decodes back to it |
| Static.ETag | runtime/static.go:63-64 | The ETag is 40 lower-case hex digits between double quotes |
| Static.ETagRoundTrip | runtime/static.go:63-64 | The ETag's digits decode back to the SHA-1 digest |
| Static.StaticRoutes | runtime/static.go:16-54 | Without `static` there are no routes; the walk succeeds exactly when `static` is absent or a map |
| Static.LeafRoutesServe | runtime/static.go:35-47 | A leaf's routes are exactly its GET route, and the directory route for `index.html` |
| Static.RouteSound | runtime/static.go:16-54 | Every route serves some leaf below `static` |
| Static.RouteComplete | runtime/static.go:16-54 | Every route a leaf below `static` should have is registered |
| Static.StaticRoutesComplete | runtime/static.go:16-54 | A route is registered exactly when it serves some leaf below `static` |
| Static.IndexRoutes | runtime/static.go:44-47 | An `index.html` is served at its own path and at its directory, with the same handler; at the top it is served at `/` |
| TarDump.EntryOf | server/tar_dump_handler.go:52-80 | A map becomes a directory entry; a value becomes a file entry whose size is its byte count and whose data is its bytes |
| TarDump.EntriesOf | server/tar_dump_handler.go:47-84 | One entry per walked node, in walk order |
| TarDump.Dump | server/tar_dump_handler.go:42-91 | The archive holds one entry per node the walk from the root visits, in that order |
| TarDump.DumpComplete | server/tar_dump_handler.go:45-84 | Every node below the root is dumped, and nothing else |
| TarDump.DumpOnce | server/tar_dump_handler.go:45-84 | No path is dumped twice |
| TarDump.DumpParentFirst | server/tar_dump_handler.go:45-84 | Every entry below the top level comes after its parent's directory entry |
| TarDump.TopLevel | server/tar_dump_handler.go:45 | Children of the root have one-segment paths |
| TarDump.EntryRoundTrip | server/tar_dump_handler.go:53-61 | An entry name parses back to the node's path, and a directory name ends in `/` |
| TarDump.DumpRestores | server/tar_dump_handler.go:42-91 | Each directory entry names a map and each file entry a value holding exactly its bytes, as many as its header says |
| TarDump.TarDumpHandler | server/tar_dump_handler.go:16-97 | An unknown name is 404, one without a runtime 409; otherwise the answer is the dump of its store |
| Template.SplitOne | runtime/template/template.go:21-28 | A name splits into one part exactly when it has no `/` |
| Template.Partial | runtime/template/template.go:20-45 | A bare name present next to the caller is read there; otherwise the name is read below `templates`, and missing there it is "not found" |
| Template.PartialIgnoresCurrent | runtime/template/template.go:28 | A name with a `/` never looks next to the caller |
| Template.PartialFound | runtime/template/template.go:20-45 | The lookup reports a missing template exactly when neither place has the name; a value found reads back its bytes |
| Template.Prepare | runtime/template/template.go:47-92 | Rendering gets the found text and the data, nil data becoming an empty map; a parse error names the template |
| Txn.WriteWith | runtime/dbwrapper/db.go:149-191 | Whatever the commit guard: a begin error calls nothing and keeps the store; a clean body and finish commit and return no error; a body error keeps the store and returns an error |
| Txn.WriteAsWritten | runtime/dbwrapper/db.go:149-191 | As written: a panicking body whose transaction finishes cleanly is committed before the rollback |
| Txn.Write | runtime/dbwrapper/db.go:149-191 | Corrected: a begin error returns at once; a clean body commits, and a failed finish is rolled back and reported; a body error or a panic rolls back, reports the rollback's error if any, and otherwise returns the body's error or re-raises the panic; `scheduleJob` is set before the body and removed after it |
| Txn.Writer | runtime/db.go:76-113 | The runtime's `writer` runs the body first and ends exactly like the script write wrapper as written |
| Txn.WriteCommitsIffClean | runtime/dbwrapper/db.go:149-191 | The body's writes persist exactly when the wrapper returns no error, and exactly when begin, body and finish all succeed |
| Txn.WriteScopesGlobal | runtime/dbwrapper/db.go:157-160 | On every path that began a transaction `scheduleJob` is set once before the body and removed exactly once after it |
| Txn.WriteAgreesUnlessPanic | runtime/dbwrapper/db.go:179-188 | The corrected and the as-written wrapper agree whenever the body returns |
| Txn.PanicCommitsAsWritten | runtime/dbwrapper/db.go:161-188 | As written a panicking body is committed, then rolled back, then the panic re-raised; the corrected wrapper keeps the old store |
| Txn.Read | runtime/dbwrapper/db.go:24-35 | A begin error returns at once; otherwise the body runs and the transaction finishes; the errors returned are exactly the body's and the finish's |
| Txn.ReaderAsWritten | runtime/db.go:10-24 | As written the runtime's `reader` returns only the body's error |
| Txn.ReaderLosesFinishError | runtime/db.go:17-21 | A finish failure after a clean body is reported by the script read wrapper and lost by `reader` |
| Uncapitalize.SmartUncapitalize | runtime/stdlib/uncapitalize.go:11-22 | As written: the empty name panics; a name of the bracket bytes `:upper` is kept; any other name with an ASCII first byte has only that byte lowered |
| Uncapitalize.LowerBracket | runtime/stdlib/uncapitalize.go:15-16 | Lowering leaves the bracket bytes alone, so the all-caps branch returns its input |
| Uncapitalize.UncapitalizeExamples | runtime/stdlib/uncapitalize.go:11-22 | As written "URL" becomes "uRL", "ID" becomes "iD", "upper" stays, "Name" becomes "name" |
| Uncapitalize.SmartUncapitalizeIntended | runtime/stdlib/uncapitalize.go:11-22 | Corrected: the empty name panics; an all-capitals name is lowered whole |
| Uncapitalize.IntendedAgreesElsewhere | runtime/stdlib/uncapitalize.go:19 | The corrected and the as-written mapping agree on every name that is not all capitals |
| Uncapitalize.IntendedExamples | runtime/stdlib/uncapitalize.go:15-16 | Corrected, "URL" becomes "url" and "ID" becomes "id", unlike the code as written |
| Uncapitalize.ScriptName | runtime/stdlib/uncapitalize.go:26-32 | Field and method names go through the mapping as written, which for a Go identifier never panics: a name of the bracket bytes is kept, any other ASCII-initial name has only its first byte lowered, so an all-capitals name keeps every capital after the first |
| Uncapitalize.ScriptNameIntended | runtime/stdlib/uncapitalize.go:11-22 | Corrected: the script name of an all-capitals identifier is lowered whole, and any other ASCII-initial name has its first byte lowered |
| Uncapitalize.ScriptNameDiffers | runtime/stdlib/uncapitalize.go:11-32 | Scripts see a name other than the intended one exactly for all-capitals identifiers of two or more letters |
| Watch.Normalize | command/develop/watch.go:74-80 | One leading `./` is dropped; a directory path ends in exactly one added `/` unless it already had one |
| Watch.NormalizeOnce | command/develop/watch.go:75 | Only one `./` prefix is trimmed |
| Watch.NormalizeDir | command/develop/watch.go:75-78 | `./d` as a directory becomes `d/` |
| Watch.NormalizeDirSlash | command/develop/watch.go:76 | A directory path already ending in `/` is kept |
| Watch.NormalizeIdempotent | command/develop/watch.go:74-80 | Normalising a normalised path leaves it unchanged exactly when it no longer starts with `./` |
| Watch.Walker | command/develop/watch.go:53-72 | Errors and non-directories are ignored, `.kartusche/` is skipped with its contents, every other directory is watched under its normalized path |
| Watch.HandleEvent | command/develop/watch.go:25-40 | An event is dropped exactly when its path cannot be stat'ed or it is a bare chmod; otherwise its normalized path is reported, and a created directory is walked again |
| Watch.CreatedDirRewalked | command/develop/watch.go:25-72 | A created directory is reported and walked again from its reported path; unless that path still starts with `./`, the walk watches that very path, or skips it when it is `.kartusche/` |
| Walk.NodeSize | runtime/static.go:22-50 | Every node counts one toward the size of the tree above it |
| Walk.QueueSizeAppend | runtime/static.go:22-33 | The work left in a queue adds up over its parts |
| Walk.ChildItems | runtime/static.go:27-29 | Each child is visited at its parent's path plus its key |
| Walk.MapItems | runtime/static.go:30-31 | Exactly the map children are queued |
| Walk.ChildItemsSize | runtime/static.go:27-31 | The children's work is the size of the entries |
| Walk.MapItemsSize | runtime/static.go:30-31 | Queueing only maps never adds work |
| Walk.WalkFrom | runtime/static.go:18-50 | The walk succeeds exactly when the root is a map, and is then the breadth-first visit from it |
| Walk.DescQueueAppend | runtime/static.go:22-33 | The nodes below a queue add up over its parts |
| Walk.DescQueueMaps | runtime/static.go:30-31 | Dropping value children from the queue drops nothing below it |
| Walk.EntriesDescSplit | runtime/static.go:27-33 | The nodes below a map are its children and the nodes below them |
| Walk.BfsIsDesc | runtime/static.go:22-50 | The walk visits exactly the nodes below the queued maps |
| Walk.DescSound | runtime/static.go:27-29 | Every node below an item lies strictly under its path and is found there |
| Walk.DescComplete | runtime/static.go:27-31 | Every node found strictly under an item is below it |
| Walk.WalkFromComplete | runtime/static.go:18-50 | The walk visits exactly the nodes strictly below the root, each with the node found at its path |
| Walk.NextAllMaps | runtime/static.go:30-31 | Only maps are ever queued |
| Walk.KidsParent | runtime/static.go:27-29 | A visited child's parent is the map it came from |
| Walk.BfsStep | runtime/static.go:22-33 | One turn visits the head's children and lowers the work left |
| Walk.BfsParentFirst | runtime/static.go:22-50 | Every visited node's parent map was queued or visited before it |
| Walk.KidsApart | runtime/static.go:27-29 | A map's children have distinct paths one segment below it |
| Walk.NextApart | runtime/static.go:22-33 | Queued paths stay pairwise disjoint |
| Walk.KidNotLater | runtime/static.go:22-33 | A child visited now is never visited again later |
| Walk.BfsDistinct | runtime/static.go:22-50 | From a disjoint queue the walk visits no path twice |
| Walk.WalkFromDistinct | runtime/static.go:18-50 | The walk from a map visits no path twice |
| Scoped.AtLookup | runtime/dbwrapper/db.go:45-51 | Reading at `data ++ p` is reading `p` in the script's view |
| Scoped.OutsideDisjoint | runtime/dbwrapper/db.go:43 | A path outside `data` is beside every script path |
| Scoped.ScriptGet | runtime/dbwrapper/db.go:45-94 | A script's `Get` succeeds exactly when its view has a value at the path, and returns that value |
| Scoped.ScriptExists | runtime/dbwrapper/db.go:53-114 | A script's `Exists` answers for its view, and is false everywhere when `data` is not a map |
| Scoped.ScriptSize | runtime/dbwrapper/db.go:59-120 | A script's `Size` succeeds exactly when its view has the path, and counts a map's children |
| Scoped.Apply | runtime/dbwrapper/db.go:125-135 | A script write keeps the store well formed |
| Scoped.ScriptWriteFrame | runtime/dbwrapper/db.go:125-135 | A script write lands at its path under `data`, and nothing outside `data` changes |
| Scoped.ScriptPutGet | runtime/dbwrapper/db.go:88-135 | What a script puts it reads back |
| Scoped.RawGet | runtime/db.go:30-36 | The runtime's write-transaction `Get` reads the raw path: it succeeds exactly on a value and returns it |
| Scoped.RawGetScope | runtime/db.go:30-36 | A raw read under `data` is the script read of the rest, and a raw read outside `data` is untouched by any script write |
| Scoped.WatchScope | runtime/dbwrapper/db.go:206-209 | A watch sees a script change exactly when its matcher is a prefix of the changed path, and never a change outside `data` |
| Webdav.PathToDBPath | server/webdav.go:25-30 | The empty name is the root path; any other name is split at `/`, so the parts join back to the name and none holds a `/` |
| Webdav.DBPathRoundTrip | server/webdav.go:25-30 | Joining a path whose parts hold no `/` and splitting it again gives the path back |
| Webdav.GetKartuscheAndPath | server/webdav.go:58-72 | A name resolves exactly when the first segment of its cleaned, slash-trimmed form is a registered kartusche, and then yields that kartusche and the rest of the name |
| Webdav.Locate | server/webdav.go:58-62 | The kartusche name holds no `/`; with the path it makes up the cleaned name without leading slashes |
| Webdav.LocateRooted | server/webdav.go:58-62 | A rooted name of plain segments is cut at its first `/` after the leading slash is trimmed |
| Webdav.LocateKartusche | server/webdav.go:58-62 | `/k` names kartusche `k` with the empty in-kartusche path |
| Webdav.LocatePlain | server/webdav.go:58-62 | `/k/a/b` names kartusche `k` and the in-kartusche path `a/b` |
| Webdav.Resolve | server/webdav.go:41-72 | An unknown kartusche is `ErrNotExist`; a known one with a runtime yields its store and the store path of the rest of the name |
| Webdav.MkdirBody | server/webdav.go:48-54 | An existing path is `ErrExist`; it succeeds exactly when the path is missing and its parent is a map, and then an empty map sits at the path |
| Webdav.MkdirAddsOne | server/webdav.go:48-54 | A successful mkdir adds exactly the one path and changes nothing beside it |
| Webdav.Mkdir | server/webdav.go:32-56 | A name that does not resolve fails with the resolution error; otherwise the mkdir runs in that kartusche's store |
| Webdav.RemoveAllBody | server/webdav.go:192-198 | A missing path is `ErrNotExist`; any existing path except the root is removed and the store stays well formed |
| Webdav.RemoveAllDeletesSubtree | server/webdav.go:192-198 | After removal exactly the paths that existed and are not at or below the removed one still exist |
| Webdav.RemoveAll | server/webdav.go:175-199 | A name that does not resolve fails with the resolution error; otherwise the removal runs in that kartusche's store |
| Webdav.RenameBody | server/webdav.go:226-260 | As written: a missing source is `ErrNotExist`; otherwise the rename is `moveAll`, so a success is the store the loop finished with, well formed and without the source, and the rename runs out exactly when the loop does |
| Webdav.RenameBelowItselfRunsOut | server/webdav.go:226-260 | As written, renaming the empty directory `a` to `a/b` runs out of every fuel bound |
| Webdav.RenameOntoItselfDeletes | server/webdav.go:226-260 | As written, renaming a file onto its own name deletes it |
| Webdav.RenameBodyChecked | server/webdav.go:226-232 | Corrected: a rename onto itself keeps the store, a destination strictly below the source is `ErrInvalid`, and any other rename is the one as written |
| Webdav.RenameCheckedEnds | server/webdav.go:226-260 | Corrected: renaming an existing node with fuel at least the size of its subtree never runs out |
| Webdav.RenameMoves | server/webdav.go:226-260 | Renaming onto a missing path whose parent is a map, away from the source, succeeds: the destination holds the old source node, the source is gone, and paths beside both are unchanged |
| Webdav.RenameTarget | server/webdav.go:201-225 | Either name unresolved, or the two naming different kartusches, is `ErrNotExist`; a success yields the old name's kartusche, its store and both store paths |
| Webdav.Rename | server/webdav.go:201-234 | As written: either name unresolved, or the two naming different kartusches, is `ErrNotExist`; a success is the rename body's result in the old name's kartusche |
| Webdav.RenameChecked | server/webdav.go:201-234 | Corrected: the same name checks, then the checked rename body in the old name's kartusche |
| Webdav.Stat | server/webdav.go:262-306 | The root is a directory; an unknown kartusche or missing path is `ErrNotExist`; a found path is a directory exactly when it is a map, is named by the base of the name, and reports size 0 |
| Webdav.OpenFile | server/webdav.go:74-173 | Append or exclusive opens are `ErrInvalid`; the root lists the kartusches; a missing path gives an empty writable buffer under create and `ErrNotExist` otherwise; a map is a directory; a value gives its bytes, emptied under truncate or create, writable exactly when read-write or write-only |
| Webdav.Close | server/webdav.go:317-336 | A read-only buffer leaves the store as it was; any other succeeds exactly when the parent is a map and the path is not a map, and then the path reads back the buffer |
| Webdav.OpenCloseUnchanged | server/webdav.go:74-336 | Opening an existing value for writing and closing it without writing leaves the store unchanged |
| Webdav.CreateWritesEmpty | server/webdav.go:117-336 | Creating a missing file and closing it leaves an empty value at its path |
| Router.Decode | command/server/router.go:37-46 | A stored record decodes exactly when it is a value the unmarshaller accepts, into a not-yet-started kartusche named by its key in the directory joined with that key; a map child is a read failure |
| Router.Names | command/server/router.go:72-77 | The names of a list of kartusches are exactly the names some element carries |
| Router.Scan | command/server/router.go:32-56 | The read succeeds exactly when every child decodes, fails with the error of some child otherwise, and collects exactly the stored names the running map lacks |
| Router.ScanAscending | command/server/router.go:35-53 | Over sorted children the collected records come out in ascending name order |
| Router.ScanDecoded | command/server/router.go:35-53 | Every collected record is the decoded record stored under its name, with no runtime yet |
| Router.Started | command/server/kartusche.go:19-27 | Starting keeps name and directory; an open gives the runtime, a failure keeps the kartusche without one and records the error |
| Router.AddAll | command/server/router.go:72-77 | Every collected kartusche is inserted, started, under its name, and every other entry of the running map is kept |
| Router.Reconcile | command/server/router.go:61-93 | After the write half the running map holds exactly the found names; entries it already had for found names are untouched, each new one is started, and the dropped names are removed together with their entries |
| Router.StoredIsDecodedAt | command/server/router.go:35-46 | The record stored for a name in the snapshot is the decoded child with that key |
| Router.RunPass | command/server/router.go:31-94 | A pass fails when the kartusches path is not a map; a successful one leaves exactly the stored names running |
| Router.PassSucceeds | command/server/router.go:34-59 | A pass succeeds exactly when the kartusches path is a map whose every child decodes |
| Router.PassIsReconcile | command/server/router.go:31-94 | A successful pass is the reconciliation of what the read collected from the sorted children |
| Router.PassReconciles | command/server/router.go:31-94 | After a pass the running map holds exactly the stored names; a name it already ran keeps its entry, and every other name is removed with its entry |
| Router.PassStarts | command/server/router.go:50-77 | A stored name the running map lacked is inserted as its stored record, started, even when the start failed |
| Router.PassIdempotent | command/server/router.go:31-94 | A second pass over the same snapshot removes nothing and leaves the running map as it was |
| Router.HostInjective | command/server/router.go:108 | Two kartusche names give the same host only when they are equal |
| Router.Routes | command/server/router.go:101-112 | The router has a host route exactly for the kartusches with a runtime, each to that runtime, and no other route |
| Router.Serve | command/server/router.go:13-18 | A request goes to the runtime routed for its host, and nowhere when no route matches |
| Router.ServeAfterPass | command/server/router.go:94-112 | After a pass a request for a stored kartusche's host reaches exactly that kartusche's runtime, and a request reaches a runtime only for a stored name |
| Router.Manage | command/server/router.go:20-99 | With no change the server is unchanged; when no pass failed, the running map holds exactly the names of the last snapshot and the router is rebuilt from it |
| Router.ManageStopsAtError | command/server/router.go:57-59 | A failing pass ends the manager with its error, leaving the server as it was and ignoring later changes |

## Left out

- Concurrency: the scheduler's observe loop and goroutines, the clean-up ticker, cron
  firing, watch and select over WebSockets, and the mutexes around the server's maps. Each
  transaction body is one atomic step, and `ServeHTTP` reads the current router without
  modelling the lock.
- The script VM: running a handler, job, cron, library or `init.js` is a parameter that
  returns a value or an error. The VM binding table and the scripts themselves are not
  modelled.
- Foreign libraries are parameters with no contract beyond their type: JSON, SHA-1 (only
  the ETag's shape is stated), UUID generation, the UUID-to-time extraction (assumed
  monotone in key order), the cron expression parser, mustache rendering, content-type
  sniffing, `path.Clean` on archive names and `dbpath` parsing.
- `time.Now` and RFC 3339 formatting: the current time and its text are parameters.
- `strings.ToLower` outside ASCII: a non-ASCII first byte goes through a `lowerRune`
  parameter, since Go maps an invalid single byte through Unicode tables.
- Auth.HeaderToken: lowers the scheme byte by byte in ASCII. Go's `strings.ToLower` also
  maps U+0130 (capital I with dot above) to `i`, so a scheme such as `BAS\u0130C` is read as
  `basic` by the source and rejected by the model; Auth.Middleware inherits this.
- The gorilla/mux router: a route table is a map from method and path, or from host, to a
  handler. Path variables and port matching are not modelled.
- Log output: a response records only whether the error was logged (the `logged` flag,
  set by server/error.go's `handleHttpError` and by the print before a failing script's
  500), not the log text; all other logging is dropped. command/server/error.go's
  `handleHttpError` takes no logger, but the command/server handlers modelled here
  (login_handler.go, update_code_handler.go) call it with `s.log` as server/error.go's
  is called, so their answers are modelled with the logging variant.
- The kartusche runtime's `Read` is not part of this model. HandlersInfo.InfoHandlers takes
  it to recover a panic in its callback into an error, as the engine's sugared read
  transaction does and as server/dump.go relies on when it uses `runtime.Read` in place of
  that transaction; the recovered error's text is the `panicText` parameter.
- Network egress, OAuth providers, the CLI commands, the upload and `rm` handlers,
  `config.Current`'s directory walk and the WebDAV `Readdir` paging: I/O dispatch
  outside the transaction bodies.
- Move.MoveAll: its own contract states only that a finished move no longer holds the
  source. What it copies is stated by Move.MoveAllCopies for a destination beside the
  source whose parent is a map. For other destinations, Move.MoveAllEnds states when the
  loop ends at its first turn, and Move.MoveBelowItselfRunsForever shows one that never
  ends.
- Move.MoveAll, Webdav.RenameBody, Webdav.Rename, Webdav.RenameBodyChecked,
  Webdav.RenameChecked: the number of loop rounds is bounded by a `fuel` argument. Fuel at
  least the size of the moved subtree always suffices for the checked move.
- Router.Manage: states the server only after a run in which no pass failed. A failing
  pass is stated separately by Router.ManageStopsAtError.
- Cleanup and the code update delete entries while iterating over them. The model
  iterates over the keys as they were when the loop began, assuming the engine's iterator
  neither skips nor repeats a key after a delete.

## Findings

| source | as written | input that shows it | evidently intended | confidence | as-written member | corrected member |
|---|---|---|---|---|---|---|
| runtime/dbwrapper/db.go:161-188 | A panic leaves the named `err` nil, so the deferred commit runs `Finish` before the deferred recover rolls back | a write body that writes and then panics, in a transaction whose finish succeeds | a panicking body is rolled back and never committed | not executed | Txn.PanicCommitsAsWritten | Txn.WriteCommitsIffClean |
| runtime/db.go:17-21 | `reader` assigns the `Finish` error to a local after the unnamed results are set, so the error is lost | a read body that returns no error in a transaction whose finish fails | the finish error is returned, as the script read wrapper does | not executed | Txn.ReaderLosesFinishError | Txn.Read |
| runtime/jobs/scheduler.go:125-143 | The closure's `err` is a local and its result is unnamed, so a recovered panic makes it return nil | a job script that panics | the panic is recorded as a failure | not executed | Scheduler.PanickingJobSucceedsAsWritten | Scheduler.RunError |
| server/webdav.go:236-260 | `moveAll` copies breadth-first into the destination while it walks the source, so a destination below the source keeps growing | moving the empty map `a` to `a/b` | a destination below the source is refused with `ErrInvalid` | not executed | Move.MoveBelowItselfRunsForever | Move.MoveCheckedEnds |
| server/webdav.go:226-232 | `Rename` hands any destination to `moveAll`, so renaming a directory into itself never ends and renaming a file onto itself deletes it | renaming the empty directory `a` to `a/b` | a destination below the source is refused with `ErrInvalid`, and a rename onto itself changes nothing | not executed | Webdav.RenameBelowItselfRunsOut | Webdav.RenameCheckedEnds |
| runtime/stdlib/uncapitalize.go:11 | In RE2 `[:upper:]` outside a bracket is a class of the bytes `:upper`, so the all-capitals branch never fires on capitals | the name `URL`, which becomes `uRL` | an all-capitals name is lowered whole, `URL` to `url` | not executed | Uncapitalize.UncapitalizeExamples | Uncapitalize.IntendedExamples |
