# Sharded aggregation on the query router

A Dafny model of the router-side `aggregate` command for sharded collections
(`PipelineCommand` in `src/mongo/s/commands/cluster_pipeline_cmd.cpp`). Given a
client aggregation, the router either passes it through to the database's
primary shard, or builds a shard command and scatters it to every targeted
shard. It then chooses one of four ways to answer:

- assemble an explain plan;
- fall back to the pre-cursor protocol when a shard does not understand
  `cursor`;
- validate the cursors the shards opened and merge over them on the primary;
- merge inside the router when the primary does not know `$mergeCursors`.

Files:

- `documents.dfy`: BSON documents as ordered field lists. `Lookup` finds the
  first field with a name. `Put` is `MutableDocument::setField`. `TrueValue`,
  `StrValue` and `IntValue` are the `trueValue`/`str`/`numberInt` readings the
  command uses.
- `errors.dfy`: the exceptions as values. `UserError` is a `uassert`,
  `ProtocolError` a `massert`, `TypeMismatch` a failed BSON accessor, and
  `StaleConfig` the stale-routing exception.
- `shard_results.dfy`: one shard's reply, the cursor handle, and
  `getUniqueCodeFromCommandResults` (specified by its contract).
- `cursors.dfy`: `parseCursors` and `killAllCursors` as loops, proved against
  the functions `ParseAll` and `KillTargets`, with lemmas about both.
- `compatibility.dfy`: the exact-string protocol checks and the two
  `uassert…` checks.
- `pipeline_command.dfy`: the command builders, `aggRunCommand`,
  `aggPassthrough`, `noCursorFallback`, the explain answer, the merge step and
  `run`.

Side effects are returned as a trace of `Event`s in order: a scatter, a cursor
kill, a command on the primary, a merge inside the router. The answers of the
shards, of the primary and of a pipeline run inside the router are functions
of the request, passed in as a `Network` value. The parsed and split pipeline
is a `SplitPipeline` value holding what `run` reads of it: its serialized
halves, their explain output, `canRunInMongos` and the `$out` namespace.

Behaviour of the code worth noting:

- On a failed validation the code kills the cursor of EVERY ok reply with a
  non-zero id. That includes replies after the failing one, and replies that
  were rejected for a non-empty batch or a wrong namespace.
- The stale-routing error is raised only on the pass-through path. The merge
  path does not check it.
- In fallback, the only errors this file raises are 17020 and 17021.

`SendStaleConfigCode` is taken to be 13388. The file that defines it is not
part of this model.

## Model

| member | source | states |
|---|---|---|
| `Documents.LookupFindsFirst` | src/mongo/s/commands/cluster_pipeline_cmd.cpp:135-136 | A field read (`cmdObj["x"]`, `hasField`) finds nothing exactly when no field has the name. Otherwise it finds the value of the first field with that name. |
| `Documents.Put` | src/mongo/s/commands/cluster_pipeline_cmd.cpp:132-148 | `setField` makes the field read back as the new value and leaves every other name's value unchanged. Existing fields keep their positions. The document grows by one exactly when the name was absent. |
| `Documents.PutTouchesOnlyFirst` | src/mongo/s/commands/cluster_pipeline_cmd.cpp:132-148 | `setField` changes no field but the first one with the name. When the name is absent, it appends exactly one field at the end. |
| `ShardResults.Summarize` | src/mongo/s/commands/cluster_pipeline_cmd.cpp:331-338 | The scan of failed replies reports no failure exactly when every reply is ok. "Agreed" means every failed reply has that code. "Disagreed" means two failed replies have different codes. |
| `ShardResults.UniqueCode` | src/mongo/s/commands/cluster_pipeline_cmd.cpp:335-340 | A non-zero result means some reply failed and every failed reply carries that code. When all failed replies share a code, that code is the result. |
| `Cursors.FailureCode` | src/mongo/s/commands/cluster_pipeline_cmd.cpp:335-338 | The code for a failed reply is never 0. It is the code that every failed reply carries, or else 17022. |
| `Cursors.SharedCodeIsFailureCode` | src/mongo/s/commands/cluster_pipeline_cmd.cpp:335-338 | When all failed replies share one non-zero code, that code is the one raised. |
| `Cursors.CheckCursor` | src/mongo/s/commands/cluster_pipeline_cmd.cpp:347-362 | The checks of an ok reply run in the code's order. An unreadable cursor or first batch is a type error. A non-empty batch gives 17023. Then an unreadable id is a type error and an id of 0 gives 17024. Then an unreadable `ns` is a type error, and an `ns` other than `fullns` gives 17025. Otherwise the handle is the reply's host and id. |
| `Cursors.CheckReply` | src/mongo/s/commands/cluster_pipeline_cmd.cpp:331-364 | A failed reply raises the given code. A reply passes exactly when it is well formed: ok, an empty first batch, a non-zero id and the requested ns. The handle it yields is the reply's host and id. For an ok reply, a non-empty batch gives 17023, an empty batch with id 0 gives 17024, and an empty batch with a non-zero id and another `ns` gives 17025. Any other failure of an ok reply is a type error. For an ok reply the result is exactly that of `CheckCursor`. |
| `Cursors.ParseUpTo` | src/mongo/s/commands/cluster_pipeline_cmd.cpp:328-367 | Validating a prefix of the replies succeeds exactly when every reply in it is well formed, and then gives one handle per reply, in order. A failure is the error of the first bad reply. |
| `Cursors.ParseAll` | src/mongo/s/commands/cluster_pipeline_cmd.cpp:328-367 | `parseCursors` succeeds exactly when every reply is well formed. It then returns exactly one handle per shard, in shard-result order. Each id is non-zero and is that shard's cursor id, and each reply's ns equals `fullns`. |
| `Cursors.ParseFailsAtFirstBadReply` | src/mongo/s/commands/cluster_pipeline_cmd.cpp:331-362 | The first reply that is not well formed decides the error. If that reply failed, the error is `UserError` with the shared code or 17022, and that code equals the reply's own `code` or 17022 (the invariant at line 340). If it is ok, the error is the one `CheckCursor` gives for it: 17023 for a non-empty batch, 17024 for id 0 after an empty batch, 17025 for another `ns` after an empty batch and a non-zero id, and a type error for an unreadable first batch. |
| `Cursors.SharedCodeSurfaces` | src/mongo/s/commands/cluster_pipeline_cmd.cpp:332-344 | When all failed replies carry one non-zero code and the first bad reply is a failed one, the parse raises exactly that code. |
| `Cursors.ParseUpToStopsAt` | src/mongo/s/commands/cluster_pipeline_cmd.cpp:328-345 | Validation stops at the first bad reply. Later replies do not change the error. |
| `Cursors.KillTarget` | src/mongo/s/commands/cluster_pipeline_cmd.cpp:421-433 | A reply yields a kill exactly when it is ok and its cursor id is readable and non-zero. The kill targets that reply's host and id. |
| `Cursors.KillTargets` | src/mongo/s/commands/cluster_pipeline_cmd.cpp:419-433 | The kill list is no longer than the reply list, and every kill has a non-zero id. |
| `Cursors.KillTargetsExactly` | src/mongo/s/commands/cluster_pipeline_cmd.cpp:414-447 | The kill list holds exactly the cursors of ok replies with a non-zero id, and is no longer than the reply list. |
| `Cursors.KillTargetsCount` | src/mongo/s/commands/cluster_pipeline_cmd.cpp:419-433 | The loop issues at most one kill per reply. A cursor is killed exactly as many times as there are replies that report it open: ok, with that host and that non-zero id. |
| `Cursors.KillsOnlyOpenCursors` | src/mongo/s/commands/cluster_pipeline_cmd.cpp:419-433 | Every open cursor of an ok reply is killed. Every kill belongs to an ok reply with a non-zero id, so nothing is killed for a failed reply or a zero id. |
| `Cursors.AcceptedCursorsAreKilled` | src/mongo/s/commands/cluster_pipeline_cmd.cpp:364-373 | Every cursor that validation accepts is among those that `killAllCursors` kills, so no accepted cursor outlives a later failure. |
| `Cursors.KillAllCursors` | src/mongo/s/commands/cluster_pipeline_cmd.cpp:414-447 | The loop issues exactly the kills of `KillTargets`, in shard order. It never raises. |
| `Cursors.CheckShardReply` | src/mongo/s/commands/cluster_pipeline_cmd.cpp:331-362 | One pass of the loop decides a reply as `CheckReply` does with the code `FailureCode` gives. A failed reply raises the shared code or 17022, and an ok reply goes through the cursor checks in order. |
| `Cursors.Abandon` | src/mongo/s/commands/cluster_pipeline_cmd.cpp:369-373 | Leaving at the first bad reply raises the error `ParseAll` gives, after every open cursor of the full reply set has been killed. |
| `Cursors.ParseCursors` | src/mongo/s/commands/cluster_pipeline_cmd.cpp:322-374 | The loop returns the result of `ParseAll`. On any failure it has first issued the kills of `killAllCursors` on the full reply set, and the error is unchanged. On success it kills nothing. |
| `Compatibility.AnyShardLacksCursors` | src/mongo/s/commands/cluster_pipeline_cmd.cpp:376-389 | True exactly when some reply's `errmsg` equals `unrecognized field "cursor` exactly. |
| `Compatibility.MergeCursorsSupported` | src/mongo/s/commands/cluster_pipeline_cmd.cpp:407-412 | The primary lacks `$mergeCursors` exactly when its reply's `errmsg` is a string equal to `exception: Unrecognized pipeline stage name: '$mergeCursors'`. |
| `Compatibility.CanMergeInMongos` | src/mongo/s/commands/cluster_pipeline_cmd.cpp:280-289 | Passes exactly when the client sent no `cursor` and the merge half can run in the router. A client `cursor` always gives 17020. 17021 is raised only without one. |
| `Compatibility.ExplainCheck` | src/mongo/s/commands/cluster_pipeline_cmd.cpp:391-405 | Passes exactly when every reply is ok and has `stages`. Otherwise the first reply lacking either decides the error: 17403 if it is not ok, else 17404. |
| `PipelineCommand.PutKeepsOnlyChanges` | src/mongo/s/commands/cluster_pipeline_cmd.cpp:132-148 | Setting the next of the permitted fields, in their order, keeps the command within the allowed changes: other fields keep their values and positions, and an appended field is new and comes after the ones already appended. |
| `PipelineCommand.SetField` | src/mongo/s/commands/cluster_pipeline_cmd.cpp:132-133 | `cmd[name] = v`: the field reads back as `v`, every other field reads as before, and the allowed changes now include `name`. |
| `PipelineCommand.SetFieldIf` | src/mongo/s/commands/cluster_pipeline_cmd.cpp:139-143 | The field is set only when the condition holds. Otherwise the command is unchanged. |
| `PipelineCommand.CopyFromClient` | src/mongo/s/commands/cluster_pipeline_cmd.cpp:135-137 | A field is copied from the client exactly when the client sent it. Otherwise the command is unchanged. No other field changes. |
| `PipelineCommand.AddCursorFields` | src/mongo/s/commands/cluster_pipeline_cmd.cpp:139-148 | Adding `cursor: {batchSize: 0}` unless explaining, then the client's `maxTimeMS`, to a command that holds the fallback fields gives the shard command. |
| `PipelineCommand.BuildShardCommand` | src/mongo/s/commands/cluster_pipeline_cmd.cpp:130-150 | The shard command always has `fromRouter: true`. When not explaining it has `cursor: {batchSize: 0}`. In explain its `cursor` is whatever the serialized shard half carries, since nothing in the file removes it. `$queryOptions` and `maxTimeMS` are the client's values when the client sent them. No other field of the shard half changes or moves. Any appended field is new and distinct, and they come in the order `fromRouter`, `$queryOptions`, `cursor`, `maxTimeMS`. |
| `PipelineCommand.BuildFallbackCommand` | src/mongo/s/commands/cluster_pipeline_cmd.cpp:301-307 | The legacy re-dispatch has `fromRouter: true` and the client's `$queryOptions`. Nothing else changes, so its `cursor` and `maxTimeMS` are those of the serialized shard half. Appended fields come in the order `fromRouter`, `$queryOptions`. |
| `PipelineCommand.BuildMergeCommand` | src/mongo/s/commands/cluster_pipeline_cmd.cpp:195-208 | The merge command carries the client's `cursor`, `$queryOptions` and `maxTimeMS` verbatim when sent. No other field changes or moves. Appended fields come in the order `cursor`, `$queryOptions`, `maxTimeMS`. |
| `PipelineCommand.OnlyChangesDetermines` | src/mongo/s/commands/cluster_pipeline_cmd.cpp:130-150 | Two commands that make only the allowed changes to the same half, and agree on the fields they may set, are equal. Nothing about the field layout is left open. |
| `PipelineCommand.ShardCommandIsUnique` | src/mongo/s/commands/cluster_pipeline_cmd.cpp:130-150 | For one shard half and one client request there is exactly one shard command. |
| `PipelineCommand.FallbackCommandIsUnique` | src/mongo/s/commands/cluster_pipeline_cmd.cpp:301-307 | For one shard half and one client request there is exactly one legacy re-dispatch command. |
| `PipelineCommand.MergeCommandIsUnique` | src/mongo/s/commands/cluster_pipeline_cmd.cpp:195-208 | For one merge half and one client request there is exactly one merge command. |
| `PipelineCommand.AggRunCommand` | src/mongo/s/commands/cluster_pipeline_cmd.cpp:450-475 | A command whose first field is not `aggregate` is refused with 17016 before anything is sent. Otherwise exactly one command goes to the host. No reply gives 17014, and a reply is returned as it came. |
| `PipelineCommand.AggPassthrough` | src/mongo/s/commands/cluster_pipeline_cmd.cpp:477-494 | The client's command goes unchanged to the primary. A failed reply with `SendStaleConfigCode` raises the stale-config error instead of being appended. Any other reply becomes the result, and its `ok` is returned. |
| `PipelineCommand.BuildExplainResult` | src/mongo/s/commands/cluster_pipeline_cmd.cpp:167-177 | The explain answer is `splitPipeline` with both halves' plans, then `shards` with exactly one entry per shard, in shard order. Each entry is named by the shard and holds its host and `stages`. |
| `PipelineCommand.NoCursorFallback` | src/mongo/s/commands/cluster_pipeline_cmd.cpp:291-320 | 17020 or 17021 is raised before anything is sent. Otherwise exactly one legacy re-dispatch follows, then a merge in the router over the whole replies of that re-dispatch, and the command returns true. |
| `PipelineCommand.FallbackEvents` | src/mongo/s/commands/cluster_pipeline_cmd.cpp:291-320 | The fallback only scatters and merges whole replies in the router. It never talks to the primary, and its only errors are 17020 and 17021. |
| `PipelineCommand.FallbackTrace` | src/mongo/s/commands/cluster_pipeline_cmd.cpp:180-189 | After the scatter, a run in fallback first issues the kills of `killAllCursors`, and everything after them is the fallback's own trace. |
| `PipelineCommand.FallbackSpecIsFunctional` | src/mongo/s/commands/cluster_pipeline_cmd.cpp:291-320 | The fallback has one possible outcome and trace for given inputs. |
| `PipelineCommand.MergeCursors` | src/mongo/s/commands/cluster_pipeline_cmd.cpp:193-240 | The merge command over exactly the validated cursors goes to the primary, with the `$out` namespace for the connection. If the reply is not ok and its `errmsg` is exactly the `$mergeCursors` complaint, the `CanMergeInMongos` check runs, then a merge in the router over the same cursors. Otherwise the reply is the result verbatim, and its `ok` is returned. |
| `PipelineCommand.MergeSpecIsFunctional` | src/mongo/s/commands/cluster_pipeline_cmd.cpp:193-240 | The merge step has one possible outcome and trace for given inputs. |
| `PipelineCommand.Run` | src/mongo/s/commands/cluster_pipeline_cmd.cpp:93-124 | A parse failure or a missing database sends nothing. An unsharded namespace, or a database without sharding, is passed through. Anything else is a sharded run. |
| `PipelineCommand.RunSharded` | src/mongo/s/commands/cluster_pipeline_cmd.cpp:127-241 | One shard command is scattered first. In explain, nothing else is sent, and the all-shards check comes before any result is written. If some shard lacks cursors, the open cursors are killed before the fallback. Otherwise validation and merge follow. |
| `PipelineCommand.HandleReplies` | src/mongo/s/commands/cluster_pipeline_cmd.cpp:163-240 | Once the replies are in: in explain, the all-shards check runs before the answer is built and nothing is sent. If some shard lacks cursors, its open cursors are killed, then the fallback runs. Otherwise validation and merge follow. |
| `PipelineCommand.ParseAndMerge` | src/mongo/s/commands/cluster_pipeline_cmd.cpp:191-240 | A failed validation kills every open cursor and raises its error unchanged. A successful one leads to the merge step over exactly the validated cursors. |
| `PipelineCommand.ShardedSpecIsFunctional` | src/mongo/s/commands/cluster_pipeline_cmd.cpp:127-241 | The sharded run's specification allows one outcome and one trace for given inputs and collaborator answers. |
| `PipelineCommand.AfterScatterIsFunctional` | src/mongo/s/commands/cluster_pipeline_cmd.cpp:163-240 | Given the shard replies, the handling after the scatter has one possible outcome and trace. |
| `PipelineCommand.FailedValidationKillsEveryOpenCursor` | src/mongo/s/commands/cluster_pipeline_cmd.cpp:369-373 | When cursor validation fails, the command raises, and every cursor that an ok shard opened appears as a kill. Nothing but kills follows the scatter. |
| `PipelineCommand.LegacyShardForcesFallbackEverywhere` | src/mongo/s/commands/cluster_pipeline_cmd.cpp:180-189 | One legacy shard puts the whole operation in fallback. Nothing is sent to the primary, and any merge reads whole replies, never cursors. Every kill goes to the cursor that an ok shard reported, on that shard's host with its non-zero id. So a legacy shard that answered `ok: 0` gets no kill. The only errors are 17020 and 17021. |
| `PipelineCommand.FallbackAfterScatter` | src/mongo/s/commands/cluster_pipeline_cmd.cpp:180-189 | After the scatter, a run in fallback sends nothing to the primary and merges only whole replies. Each kill goes to an ok shard's reported non-zero cursor, and the only errors are 17020 and 17021. |

## Left out

- Network and transport: `STRATEGY->commandOp`, `ShardConnection`, `ScopedDbConnection`, `conn->query`, `conn->killCursor` and `conn.done()` are not modelled. Their answers are the `Network` functions, and a kill is recorded as attempted. Whether a kill succeeds is not modelled, because its failures are only logged.
- The concurrent scatter/gather inside `commandOp` and any exception that `commandOp` itself raises (shard targeting) are not modelled. The model receives one reply per targeted shard.
- Pipeline internals: `Pipeline::parseCommand`, `splitForSharded`, `serialize`, `writeExplainOps`, `addInitialSource`, `stitch`, `run`, `getInitialQuery`, `canRunInMongos` and the `DocumentSourceOut` cast are not modelled. They are foreign classes and appear here as the fields of `SplitPipeline` and `Network.runLocally`. Exceptions raised while a pipeline runs inside the router are not modelled.
- Catalog and authorization: `getDatabase` is reduced to found/not found. `appendEmptyResultSet`'s answer is reduced to `NoDatabase`. `addRequiredPrivileges` is a collaborator call that forwards to `Pipeline::addRequiredPrivileges`. `help`, `slaveOk`, `adminOnly` and `isWriteCommandForConfigServer` are constant declarations with no logic to prove.
- `storePossibleCursor` (line 473), which registers a merger's cursor with the router's cursor cache and may fail, is not modelled. It is a collaborator not shown.
- Error message text and logging: only codes are modelled.
- BSON numeric types: all numbers are one `Number`. The checks that `id` is a 64-bit integer (`Long()`) and that `numberInt` truncates to 32 bits are not modelled.
- A BSON accessor that meets a field of the wrong type raises `TypeMismatch`. Its numeric code belongs to the BSON library.
- Cursor handles are modelled, but idle expiry of an unkilled cursor on the shard is not.
- The cursors on the local-merge path (lines 226-233) are not killed when 17020 or 17021 fires, as in the code. Retries after a stale configuration are not attempted, as in the code.
