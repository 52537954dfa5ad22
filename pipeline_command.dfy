/**
 * The router's `aggregate` command for a sharded collection
 * (PipelineCommand::run and the helpers it calls). An unsharded namespace
 * is passed through to the primary unchanged. Otherwise run builds the shard
 * command, scatters it, then answers in one of four ways: assemble an
 * explain plan, fall back to the pre-cursor protocol, merge on the primary
 * shard, or merge inside the router.
 *
 * Everything the router does to the outside world is returned as a trace of
 * events, in order; the answers of the shards, of the primary and of the
 * local pipeline run are functions of the request (the `Network` value).
 */
module PipelineCommand {
  import opened Documents
  import opened Errors
  import opened ShardResults
  import opened Cursors
  import opened Compatibility

  /** The code a shard uses for "your routing table is stale"; its value is taken to be 13388. */
  const SendStaleConfigCode := 13388
  const MergerReturnedNothing := 17014
  const NotAnAggregate := 17016

  /** The database's entry in the routing catalog, as far as run reads it. */
  datatype DbConfig = DbConfig(name: string, shardingEnabled: bool, shardedCollections: set<string>, primary: string)

  /** grid.catalogCache()->getDatabase: the entry, or the failing status's code. */
  datatype CatalogLookup = Found(conf: DbConfig) | NotFound(status: int)

  /** The parsed pipeline once split for sharding, through what run reads of it. */
  datatype SplitPipeline = SplitPipeline(
    isExplain: bool,
    shardPart: Document,                          // the shard half, serialized
    shardsExplain: Value,                         // writeExplainOps of the shard half
    mergerExplain: Value,                         // writeExplainOps of the merge half
    mergeCommand: seq<CursorHandle> -> Document,  // the merge half, serialized after $mergeCursors over these cursors is put first
    canRunInMongos: bool,
    outputNs: string)                             // namespace of a final $out stage, "" without one

  /** What a pipeline run inside the router merges: open shard cursors, or whole legacy replies. */
  datatype MergeSource = FromCursors(handles: seq<CursorHandle>) | FromShardResults(results: seq<ShardResult>)

  /** The collaborators' answers as functions of the request. */
  datatype Network = Network(
    commandOp: Document -> seq<ShardResult>,                 // scatter/gather of a shard command to the targeted shards
    query: (string, string, Document) -> Option<Document>,   // host, database, command: the first reply, if any
    runLocally: MergeSource -> Document)                     // stitch and run the merge half inside the router

  /** Everything the command does outside itself, in order. */
  datatype Event =
    | Dispatch(cmd: Document)                                     // STRATEGY->commandOp
    | Kill(handle: CursorHandle)                                  // a best-effort killCursor
    | OnPrimary(host: string, outputNs: string, db: string, cmd: Document) // aggRunCommand over a ShardConnection
    | LocalMerge(source: MergeSource)                             // stitch() and run() in the router

  /** How run ends: its return value with the result it built, or the exception it raised. */
  datatype Outcome =
    | ParseFailed                        // the pipeline did not parse; run returns false
    | NoDatabase(status: int)            // answered by appendEmptyResultSet
    | Returned(ok: bool, result: Document)
    | Raised(error: Error)

  /** The names of the fields run sets on the commands it sends. */
  const FromRouterField := "fromRouter"
  const QueryOptionsField := "$queryOptions"
  const MaxTimeMSField := "maxTimeMS"

  const BatchSizeZero := Object([Field("batchSize", Number(0))])

  function KillEvents(hs: seq<CursorHandle>): seq<Event> {
    seq(|hs|, i requires 0 <= i < |hs| => Kill(hs[i]))
  }

  // ---------------------------------------------------------------------------
  // Commands sent to the shards and to the merger

  /** Field `name` of `cmd` is the client's when the client sent one, else the pipeline's own. */
  ghost predicate Forwards(cmd: Document, base: Document, cmdObj: Document, name: string) {
    Lookup(cmd, name) == if HasField(cmdObj, name) then Lookup(cmdObj, name) else Lookup(base, name)
  }

  /** Every name outside `names` reads as in `base`. */
  ghost predicate KeepsOthers(cmd: Document, base: Document, names: seq<string>) {
    forall m :: m !in names ==> Lookup(cmd, m) == Lookup(base, m)
  }

  /** A field of `base` that changed is the first of its name, and its name is in `names`. */
  ghost predicate TouchesFirstOnly(cmd: Document, base: Document, names: seq<string>)
    requires |base| <= |cmd|
  {
    forall j | 0 <= j < |base| && cmd[j] != base[j] ::
      base[j].name in names && forall i | 0 <= i < j :: base[i].name != base[j].name
  }

  /** Each field after `base` has a name from `names` that no earlier field has. */
  ghost predicate AppendsNew(cmd: Document, base: Document, names: seq<string>) {
    forall i | |base| <= i < |cmd| :: cmd[i].name in names && forall j | 0 <= j < i :: cmd[j].name != cmd[i].name
  }

  /** The fields after `base` come in the order of `names`. */
  ghost predicate AppendsInOrder(cmd: Document, base: Document, names: seq<string>) {
    forall i, j | |base| <= i < j < |cmd| :: Rank(names, cmd[i].name) < Rank(names, cmd[j].name)
  }

  /**
   * `cmd` is `base` after setting fields named in `names`, in that order:
   * only the first field of each of those names may change, every other field
   * of `base` stays where and as it was, and the fields appended after `base`
   * carry distinct names from `names` that `base` lacks, in the order of
   * `names`.
   */
  ghost predicate OnlyChanges(cmd: Document, base: Document, names: seq<string>) {
    && KeepsLeadingNames(cmd, base)
    && KeepsOthers(cmd, base, names)
    && TouchesFirstOnly(cmd, base, names)
    && AppendsNew(cmd, base, names)
    && AppendsInOrder(cmd, base, names)
  }

  const ShardFields := [FromRouterField, QueryOptionsField, CursorField, MaxTimeMSField]
  const FallbackFields := [FromRouterField, QueryOptionsField]
  const MergeFields := [CursorField, QueryOptionsField, MaxTimeMSField]

  /**
   * The command scattered to the shards: always fromRouter, a zero-batch
   * cursor unless explaining, and the client's $queryOptions and maxTimeMS.
   */
  ghost predicate ShardCommand(cmd: Document, base: Document, cmdObj: Document, isExplain: bool) {
    && Lookup(cmd, FromRouterField) == Some(Bool(true))
    && Lookup(cmd, CursorField) == (if isExplain then Lookup(base, CursorField) else Some(BatchSizeZero))
    && Forwards(cmd, base, cmdObj, QueryOptionsField)
    && Forwards(cmd, base, cmdObj, MaxTimeMSField)
    && OnlyChanges(cmd, base, ShardFields)
  }

  /** The legacy re-dispatch: fromRouter and the client's $queryOptions, nothing else added. */
  ghost predicate FallbackCommand(cmd: Document, base: Document, cmdObj: Document) {
    && Lookup(cmd, FromRouterField) == Some(Bool(true))
    && Forwards(cmd, base, cmdObj, QueryOptionsField)
    && OnlyChanges(cmd, base, FallbackFields)
  }

  /** The merge command: the client's cursor, $queryOptions and maxTimeMS, verbatim. */
  ghost predicate MergeCommand(cmd: Document, base: Document, cmdObj: Document) {
    && Forwards(cmd, base, cmdObj, CursorField)
    && Forwards(cmd, base, cmdObj, QueryOptionsField)
    && Forwards(cmd, base, cmdObj, MaxTimeMSField)
    && OnlyChanges(cmd, base, MergeFields)
  }

  /** Extending `done` by a name keeps the ranks of the names already in it. */
  lemma RankOfExtension(done: seq<string>, name: string, m: string)
    requires m in done
    ensures Rank(done + [name], m) == Rank(done, m)
  {
    var next := done + [name];
    assert next[Rank(done, m)] == m;
  }

  /** A name new to `done` ranks right after it. */
  lemma RankOfNewName(done: seq<string>, name: string)
    requires name !in done
    ensures Rank(done + [name], name) == |done|
  {
    var next := done + [name];
    assert next[|done|] == name;
  }

  /**
   * Setting the next field of `names` (the first `k` done) keeps `cmd` within
   * the allowed changes, now for the first `k + 1` names.
   */
  lemma PutKeepsOnlyChanges(cmd: Document, base: Document, names: seq<string>, k: nat, v: Value)
    requires k < |names| && names[k] !in names[..k]
    requires OnlyChanges(cmd, base, names[..k])
    ensures OnlyChanges(Put(cmd, names[k], v), base, names[..k + 1])
  {
    var name := names[k];
    var done, next := names[..k], names[..k + 1];
    assert next == done + [name];
    PutTouchesOnlyFirst(cmd, name, v);
    LookupFindsFirst(cmd, name);
    PutKeepsOthers(cmd, base, done, name, v);
    PutTouchesFirstOnly(cmd, base, done, name, v);
    PutAppendsNew(cmd, base, done, name, v);
    PutAppendsInOrder(cmd, base, done, name, v);
  }

  lemma PutKeepsOthers(cmd: Document, base: Document, done: seq<string>, name: string, v: Value)
    requires KeepsOthers(cmd, base, done)
    ensures KeepsOthers(Put(cmd, name, v), base, done + [name])
  {
    forall m | m !in done + [name] ensures Lookup(Put(cmd, name, v), m) == Lookup(base, m) {
      assert m != name && m !in done;
    }
  }

  lemma PutTouchesFirstOnly(cmd: Document, base: Document, done: seq<string>, name: string, v: Value)
    requires KeepsLeadingNames(cmd, base) && TouchesFirstOnly(cmd, base, done)
    ensures KeepsLeadingNames(Put(cmd, name, v), base) && TouchesFirstOnly(Put(cmd, name, v), base, done + [name])
  {
    var r := Put(cmd, name, v);
    PutTouchesOnlyFirst(cmd, name, v);
    forall j | 0 <= j < |base| && r[j] != base[j]
      ensures base[j].name in done + [name] && forall i | 0 <= i < j :: base[i].name != base[j].name
    {
      if cmd[j] == base[j] {
        assert cmd[j].name == name;
        assert forall i | 0 <= i < j :: base[i].name == cmd[i].name;
      }
    }
  }

  lemma PutAppendsNew(cmd: Document, base: Document, done: seq<string>, name: string, v: Value)
    requires KeepsLeadingNames(cmd, base) && AppendsNew(cmd, base, done)
    ensures AppendsNew(Put(cmd, name, v), base, done + [name])
  {
    var r := Put(cmd, name, v);
    PutTouchesOnlyFirst(cmd, name, v);
    LookupFindsFirst(cmd, name);
    if HasField(cmd, name) {
      assert forall i | 0 <= i < |r| :: r[i].name == cmd[i].name;
    } else {
      assert r == cmd + [Field(name, v)];
    }
  }

  lemma PutAppendsInOrder(cmd: Document, base: Document, done: seq<string>, name: string, v: Value)
    requires name !in done
    requires KeepsLeadingNames(cmd, base) && AppendsNew(cmd, base, done) && AppendsInOrder(cmd, base, done)
    ensures AppendsInOrder(Put(cmd, name, v), base, done + [name])
  {
    var r := Put(cmd, name, v);
    var next := done + [name];
    PutTouchesOnlyFirst(cmd, name, v);
    RankOfNewName(done, name);
    if HasField(cmd, name) {
      assert forall i | 0 <= i < |r| :: r[i].name == cmd[i].name;
      forall i, j | |base| <= i < j < |r| ensures Rank(next, r[i].name) < Rank(next, r[j].name) {
        RankOfExtension(done, name, r[i].name);
        RankOfExtension(done, name, r[j].name);
      }
    } else {
      assert r == cmd + [Field(name, v)];
      forall i, j | |base| <= i < j < |r| ensures Rank(next, r[i].name) < Rank(next, r[j].name) {
        assert r[i] == cmd[i];
        RankOfExtension(done, name, r[i].name);
        if j < |cmd| {
          assert r[j] == cmd[j];
          RankOfExtension(done, name, r[j].name);
        }
      }
    }
  }

  /** Leaving the next field of `names` unset also keeps `cmd` within the allowed changes. */
  lemma SkipKeepsOnlyChanges(cmd: Document, base: Document, names: seq<string>, k: nat)
    requires k < |names|
    requires OnlyChanges(cmd, base, names[..k])
    ensures OnlyChanges(cmd, base, names[..k + 1])
  {
    var done, next := names[..k], names[..k + 1];
    assert next == done + [names[k]];
    forall i, j | |base| <= i < j < |cmd| ensures Rank(next, cmd[i].name) < Rank(next, cmd[j].name) {
      RankOfExtension(done, names[k], cmd[i].name);
      RankOfExtension(done, names[k], cmd[j].name);
    }
  }

  /** `cmd[name] = v`, where `name` is the next of `names` to be set after the first `k`. */
  method SetField(cmd: Document, name: string, v: Value, ghost base: Document, ghost names: seq<string>, ghost k: nat)
    returns (r: Document)
    requires k < |names| && names[k] == name && name !in names[..k]
    requires OnlyChanges(cmd, base, names[..k])
    ensures OnlyChanges(r, base, names[..k + 1])
    ensures Lookup(r, name) == Some(v)
    ensures forall m | m != name :: Lookup(r, m) == Lookup(cmd, m)
  {
    PutKeepsOnlyChanges(cmd, base, names, k, v);
    r := Put(cmd, name, v);
  }

  /** `if (cond) cmd[name] = v`, where `name` is the next of `names` to be set after the first `k`. */
  method SetFieldIf(cond: bool, cmd: Document, name: string, v: Value,
                    ghost base: Document, ghost names: seq<string>, ghost k: nat)
    returns (r: Document)
    requires k < |names| && names[k] == name && name !in names[..k]
    requires OnlyChanges(cmd, base, names[..k])
    ensures OnlyChanges(r, base, names[..k + 1])
    ensures Lookup(r, name) == if cond then Some(v) else Lookup(cmd, name)
    ensures forall m | m != name :: Lookup(r, m) == Lookup(cmd, m)
  {
    if cond {
      r := SetField(cmd, name, v, base, names, k);
    } else {
      SkipKeepsOnlyChanges(cmd, base, names, k);
      r := cmd;
    }
  }

  /**
   * `if (cmdObj.hasField(name)) cmd[name] = cmdObj[name]`, where `name` is the
   * next of `names` to be set after the first `k`.
   */
  method CopyFromClient(cmd: Document, cmdObj: Document, name: string,
                        ghost base: Document, ghost names: seq<string>, ghost k: nat)
    returns (r: Document)
    requires k < |names| && names[k] == name && name !in names[..k]
    requires OnlyChanges(cmd, base, names[..k])
    ensures OnlyChanges(r, base, names[..k + 1])
    ensures Lookup(r, name) == if HasField(cmdObj, name) then Lookup(cmdObj, name) else Lookup(cmd, name)
    ensures forall m | m != name :: Lookup(r, m) == Lookup(cmd, m)
  {
    if HasField(cmdObj, name) {
      r := SetField(cmd, name, Lookup(cmdObj, name).value, base, names, k);
    } else {
      SkipKeepsOnlyChanges(cmd, base, names, k);
      r := cmd;
    }
  }

  /** The shard command of noCursorFallback. */
  method BuildFallbackCommand(base: Document, cmdObj: Document) returns (cmd: Document)
    ensures FallbackCommand(cmd, base, cmdObj)
  {
    ghost var names := FallbackFields;
    assert OnlyChanges(base, base, names[..0]);
    cmd := SetField(base, FromRouterField, Bool(true), base, names, 0);
    cmd := CopyFromClient(cmd, cmdObj, QueryOptionsField, base, names, 1);
    assert names[..2] == names;
  }

  /** The shard command of run: the fallback fields, then the cursor and maxTimeMS fields. */
  method BuildShardCommand(base: Document, cmdObj: Document, isExplain: bool) returns (cmd: Document)
    ensures ShardCommand(cmd, base, cmdObj, isExplain)
  {
    cmd := BuildFallbackCommand(base, cmdObj);
    cmd := AddCursorFields(cmd, cmdObj, isExplain, base);
  }

  /** The second half of the shard command: the zero-batch cursor unless explaining, then maxTimeMS. */
  method AddCursorFields(cmd: Document, cmdObj: Document, isExplain: bool, ghost base: Document) returns (r: Document)
    requires FallbackCommand(cmd, base, cmdObj)
    ensures ShardCommand(r, base, cmdObj, isExplain)
  {
    ghost var names := ShardFields;
    assert names[..2] == FallbackFields;
    r := SetFieldIf(!isExplain, cmd, CursorField, BatchSizeZero, base, names, 2);
    r := CopyFromClient(r, cmdObj, MaxTimeMSField, base, names, 3);
    assert names[..4] == names;
  }

  /** The merge command of run, set field by field on the serialized merge half. */
  method BuildMergeCommand(base: Document, cmdObj: Document) returns (cmd: Document)
    ensures MergeCommand(cmd, base, cmdObj)
  {
    ghost var names := MergeFields;
    assert OnlyChanges(base, base, names[..0]);
    cmd := CopyFromClient(base, cmdObj, CursorField, base, names, 0);
    cmd := CopyFromClient(cmd, cmdObj, QueryOptionsField, base, names, 1);
    cmd := CopyFromClient(cmd, cmdObj, MaxTimeMSField, base, names, 2);
    assert names[..3] == names;
  }

  /** The names of the fields `cmd` has after the fields of `base`, in order. */
  function AppendedNames(cmd: Document, base: Document): (ns: seq<string>)
    requires |base| <= |cmd|
    ensures |ns| == |cmd| - |base|
  {
    seq(|cmd| - |base|, i requires 0 <= i < |cmd| - |base| => cmd[|base| + i].name)
  }

  /** In a list in strictly increasing rank, the tail holds every name but the head. */
  lemma RankSortedTail(names: seq<string>, x: seq<string>, n: string)
    requires |x| > 0
    requires forall i, j | 0 <= i < j < |x| :: Rank(names, x[i]) < Rank(names, x[j])
    ensures n in x[1..] <==> n in x && n != x[0]
  {
    if n in x[1..] {
      var i :| 0 <= i < |x| - 1 && x[1..][i] == n;
      assert x[i + 1] == n && Rank(names, x[0]) < Rank(names, x[i + 1]);
    }
    if n in x && n != x[0] {
      var i :| 0 <= i < |x| && x[i] == n;
      assert x[1..][i - 1] == n;
    }
  }

  /** Two non-empty lists in strictly increasing rank that hold the same names start alike. */
  lemma RankSortedHeads(names: seq<string>, x: seq<string>, y: seq<string>)
    requires |x| > 0 && |y| > 0
    requires forall i, j | 0 <= i < j < |x| :: Rank(names, x[i]) < Rank(names, x[j])
    requires forall i, j | 0 <= i < j < |y| :: Rank(names, y[i]) < Rank(names, y[j])
    requires x[0] in y && y[0] in x
    ensures x[0] == y[0]
  {
    var k :| 0 <= k < |y| && y[k] == x[0];
    var l :| 0 <= l < |x| && x[l] == y[0];
  }

  /** Two lists of names, each in strictly increasing rank, that hold the same names are equal. */
  lemma {:induction false} RankSortedUnique(names: seq<string>, x: seq<string>, y: seq<string>)
    requires forall i, j | 0 <= i < j < |x| :: Rank(names, x[i]) < Rank(names, x[j])
    requires forall i, j | 0 <= i < j < |y| :: Rank(names, y[i]) < Rank(names, y[j])
    requires forall n :: n in x <==> n in y
    ensures x == y
  {
    assert |y| == 0 || y[0] in x by {
      if |y| > 0 {
        assert y[0] in y;
      }
    }
    if |x| > 0 {
      assert x[0] in x && x[0] in y;
      RankSortedHeads(names, x, y);
      var xs, ys := x[1..], y[1..];
      forall n ensures n in xs <==> n in ys {
        RankSortedTail(names, x, n);
        RankSortedTail(names, y, n);
      }
      RankSortedUnique(names, xs, ys);
      assert x == [x[0]] + xs && y == [y[0]] + ys;
    }
  }

  /** A name is appended exactly when a read finds it and `base` has no field of that name. */
  lemma AppendedNamesAre(cmd: Document, base: Document, names: seq<string>, n: string)
    requires KeepsLeadingNames(cmd, base) && AppendsNew(cmd, base, names)
    ensures n in AppendedNames(cmd, base) <==>
      Lookup(cmd, n).Some? && forall j | 0 <= j < |base| :: base[j].name != n
  {
    if n in AppendedNames(cmd, base) {
      AppendedNameIsNew(cmd, base, names, n);
    }
    if Lookup(cmd, n).Some? && forall j | 0 <= j < |base| :: base[j].name != n {
      NewNameIsAppended(cmd, base, n);
    }
  }

  lemma AppendedNameIsNew(cmd: Document, base: Document, names: seq<string>, n: string)
    requires KeepsLeadingNames(cmd, base) && AppendsNew(cmd, base, names)
    requires n in AppendedNames(cmd, base)
    ensures Lookup(cmd, n).Some? && forall j | 0 <= j < |base| :: base[j].name != n
  {
    var ns := AppendedNames(cmd, base);
    var i :| 0 <= i < |ns| && ns[i] == n;
    assert cmd[|base| + i].name == n;
    LookupFindsFirst(cmd, n);
  }

  lemma NewNameIsAppended(cmd: Document, base: Document, n: string)
    requires KeepsLeadingNames(cmd, base)
    requires Lookup(cmd, n).Some? && forall j | 0 <= j < |base| :: base[j].name != n
    ensures n in AppendedNames(cmd, base)
  {
    LookupFindsFirst(cmd, n);
    var i :| 0 <= i < |cmd| && cmd[i] == Field(n, Lookup(cmd, n).value) && forall j | 0 <= j < i :: cmd[j].name != n;
    assert AppendedNames(cmd, base)[i - |base|] == n;
  }

  /** Two commands whose reads all agree append the same names after `base`. */
  lemma AppendedNamesAgree(a: Document, b: Document, base: Document, names: seq<string>)
    requires KeepsLeadingNames(a, base) && AppendsNew(a, base, names) && AppendsInOrder(a, base, names)
    requires KeepsLeadingNames(b, base) && AppendsNew(b, base, names) && AppendsInOrder(b, base, names)
    requires forall m :: Lookup(a, m) == Lookup(b, m)
    ensures AppendedNames(a, base) == AppendedNames(b, base)
  {
    var na, nb := AppendedNames(a, base), AppendedNames(b, base);
    forall n ensures n in na <==> n in nb {
      AppendedNamesAre(a, base, names, n);
      AppendedNamesAre(b, base, names, n);
    }
    forall i, j | 0 <= i < j < |na| ensures Rank(names, na[i]) < Rank(names, na[j]) {
      assert na[i] == a[|base| + i].name && na[j] == a[|base| + j].name;
    }
    forall i, j | 0 <= i < j < |nb| ensures Rank(names, nb[i]) < Rank(names, nb[j]) {
      assert nb[i] == b[|base| + i].name && nb[j] == b[|base| + j].name;
    }
    RankSortedUnique(names, na, nb);
  }

  /** A field of `base` that one of two commands changed is the first of its name in both. */
  lemma ChangedFieldIsRead(a: Document, base: Document, names: seq<string>, i: nat)
    requires KeepsLeadingNames(a, base) && TouchesFirstOnly(a, base, names)
    requires i < |base| && a[i] != base[i]
    ensures forall j | 0 <= j < i :: a[j].name != a[i].name
  {
    assert forall j | 0 <= j < i :: a[j].name == base[j].name;
  }

  /**
   * The allowed changes to `base` determine a command once the values that
   * reads of the names in `names` find are fixed.
   */
  lemma OnlyChangesDetermines(a: Document, b: Document, base: Document, names: seq<string>)
    requires OnlyChanges(a, base, names) && OnlyChanges(b, base, names)
    requires forall n | n in names :: Lookup(a, n) == Lookup(b, n)
    ensures a == b
  {
    assert forall m :: Lookup(a, m) == Lookup(b, m);
    AppendedNamesAgree(a, b, base, names);
    var na := AppendedNames(a, base);
    assert |a| == |b|;
    forall i | 0 <= i < |a| ensures a[i] == b[i] {
      if i < |base| {
        if a[i] != base[i] {
          ChangedFieldIsRead(a, base, names, i);
          assert forall j | 0 <= j < i :: b[j].name == a[j].name;
          FirstOccurrenceIsRead(a, i);
          FirstOccurrenceIsRead(b, i);
        } else if b[i] != base[i] {
          ChangedFieldIsRead(b, base, names, i);
          assert forall j | 0 <= j < i :: a[j].name == b[j].name;
          FirstOccurrenceIsRead(a, i);
          FirstOccurrenceIsRead(b, i);
        }
      } else {
        assert a[i].name == na[i - |base|] == b[i].name;
        FirstOccurrenceIsRead(a, i);
        FirstOccurrenceIsRead(b, i);
      }
    }
  }

  /** There is exactly one shard command for a shard half and a client request. */
  lemma ShardCommandIsUnique(a: Document, b: Document, base: Document, cmdObj: Document, isExplain: bool)
    requires ShardCommand(a, base, cmdObj, isExplain) && ShardCommand(b, base, cmdObj, isExplain)
    ensures a == b
  {
    OnlyChangesDetermines(a, b, base, ShardFields);
  }

  /** There is exactly one legacy re-dispatch command for a shard half and a client request. */
  lemma FallbackCommandIsUnique(a: Document, b: Document, base: Document, cmdObj: Document)
    requires FallbackCommand(a, base, cmdObj) && FallbackCommand(b, base, cmdObj)
    ensures a == b
  {
    OnlyChangesDetermines(a, b, base, FallbackFields);
  }

  /** There is exactly one merge command for a merge half and a client request. */
  lemma MergeCommandIsUnique(a: Document, b: Document, base: Document, cmdObj: Document)
    requires MergeCommand(a, base, cmdObj) && MergeCommand(b, base, cmdObj)
    ensures a == b
  {
    OnlyChangesDetermines(a, b, base, MergeFields);
  }

  // ---------------------------------------------------------------------------
  // Talking to the primary shard

  /**
   * PipelineCommand::aggRunCommand: refuse anything but an aggregate command
   * (17016) before sending it, then demand a reply (17014).
   */
  method AggRunCommand(host: string, outputNs: string, db: string, cmd: Document, net: Network)
    returns (reply: Result<Document>, trace: seq<Event>)
    ensures FirstFieldName(cmd) != "aggregate" ==> reply == Failure(ProtocolError(NotAnAggregate)) && trace == []
    ensures FirstFieldName(cmd) == "aggregate" ==> trace == [OnPrimary(host, outputNs, db, cmd)]
    ensures FirstFieldName(cmd) == "aggregate" && net.query(host, db, cmd).None? ==>
      reply == Failure(ProtocolError(MergerReturnedNothing))
    ensures FirstFieldName(cmd) == "aggregate" && net.query(host, db, cmd).Some? ==>
      reply == Success(net.query(host, db, cmd).value)
  {
    if FirstFieldName(cmd) != "aggregate" {
      return Failure(ProtocolError(NotAnAggregate)), [];
    }
    trace := [OnPrimary(host, outputNs, db, cmd)];
    var first := net.query(host, db, cmd);
    if first.None? {
      return Failure(ProtocolError(MergerReturnedNothing)), trace;
    }
    reply := Success(first.value);
  }

  /**
   * aggPassthrough: the client's command goes unchanged to the primary, whose
   * reply becomes the result, except that a failure with the stale-config
   * code is raised for the caller to retry.
   */
  ghost predicate PassthroughSpec(conf: DbConfig, cmdObj: Document, net: Network, out: Outcome, trace: seq<Event>) {
    if FirstFieldName(cmdObj) != "aggregate" then
      out == Raised(ProtocolError(NotAnAggregate)) && trace == []
    else
      && trace == [OnPrimary(conf.primary, "", conf.name, cmdObj)]
      && match net.query(conf.primary, conf.name, cmdObj)
         case None => out == Raised(ProtocolError(MergerReturnedNothing))
         case Some(reply) =>
           if !IsOk(reply) && Code(reply) == SendStaleConfigCode then out == Raised(StaleConfig(reply))
           else out == Returned(IsOk(reply), reply)
  }

  method AggPassthrough(conf: DbConfig, cmdObj: Document, net: Network) returns (out: Outcome, trace: seq<Event>)
    ensures PassthroughSpec(conf, cmdObj, net, out, trace)
  {
    var reply;
    reply, trace := AggRunCommand(conf.primary, "", conf.name, cmdObj, net);
    if reply.Failure? {
      return Raised(reply.error), trace;
    }
    var result := reply.value;
    var ok := IsOk(result);
    if !ok && Code(result) == SendStaleConfigCode {
      return Raised(StaleConfig(result)), trace;
    }
    out := Returned(ok, result);
  }

  // ---------------------------------------------------------------------------
  // Explain

  function ExplainEntry(r: ShardResult): Field
    requires HasField(r.result, "stages")
  {
    Field(r.shardName, Object([Field("host", Str(r.target)), Field("stages", Lookup(r.result, "stages").value)]))
  }

  /** The explain answer: both halves of the split, then one entry per shard in shard order. */
  ghost predicate ExplainResult(result: Document, p: SplitPipeline, rs: seq<ShardResult>) {
    && |result| == 2
    && result[0] == Field("splitPipeline", Object([Field("shardsPart", p.shardsExplain), Field("mergerPart", p.mergerExplain)]))
    && result[1].name == "shards" && result[1].value.Object?
    && |result[1].value.fields| == |rs|
    && forall i | 0 <= i < |rs| ::
         HasField(rs[i].result, "stages") && result[1].value.fields[i] == ExplainEntry(rs[i])
  }

  method BuildExplainResult(p: SplitPipeline, rs: seq<ShardResult>) returns (result: Document)
    requires ExplainCheck(rs).Pass?
    ensures ExplainResult(result, p, rs)
  {
    var shards: Document := [];
    for i := 0 to |rs|
      invariant |shards| == i
      invariant forall j | 0 <= j < i :: shards[j] == ExplainEntry(rs[j])
    {
      shards := shards + [ExplainEntry(rs[i])];
    }
    result := [Field("splitPipeline", Object([Field("shardsPart", p.shardsExplain), Field("mergerPart", p.mergerExplain)])),
               Field("shards", Object(shards))];
  }

  /** Explain: every shard must have answered with a plan, checked before any result is written. */
  ghost predicate ExplainSpec(p: SplitPipeline, rs: seq<ShardResult>, out: Outcome) {
    match ExplainCheck(rs)
    case Fail(e) => out == Raised(e)
    case Pass => out.Returned? && out.ok && ExplainResult(out.result, p, rs)
  }

  // ---------------------------------------------------------------------------
  // The legacy (pre-cursor) protocol

  /**
   * noCursorFallback: only when the router may merge by itself, re-dispatch
   * without a cursor request and merge the shards' whole replies locally.
   */
  ghost predicate FallbackSpec(p: SplitPipeline, cmdObj: Document, net: Network, out: Outcome, trace: seq<Event>) {
    match CanMergeInMongos(cmdObj, p.canRunInMongos)
    case Fail(e) => out == Raised(e) && trace == []
    case Pass =>
      && |trace| == 2 && trace[0].Dispatch?
      && FallbackCommand(trace[0].cmd, p.shardPart, cmdObj)
      && trace[1] == LocalMerge(FromShardResults(net.commandOp(trace[0].cmd)))
      && out == Returned(true, net.runLocally(trace[1].source))
  }

  method NoCursorFallback(p: SplitPipeline, cmdObj: Document, net: Network) returns (out: Outcome, trace: seq<Event>)
    ensures FallbackSpec(p, cmdObj, net, out, trace)
  {
    var check := CanMergeInMongos(cmdObj, p.canRunInMongos);
    if check.Fail? {
      return Raised(check.error), [];
    }
    var shardCmd := BuildFallbackCommand(p.shardPart, cmdObj);
    var rs := net.commandOp(shardCmd);
    var source := FromShardResults(rs);
    trace := [Dispatch(shardCmd), LocalMerge(source)];
    out := Returned(true, net.runLocally(source));
  }

  // ---------------------------------------------------------------------------
  // Merging over cursors

  /**
   * The merge step once every shard holds a valid cursor: send the merge
   * command to the primary; if the primary does not know $mergeCursors, merge
   * in the router over the same cursors; otherwise its reply is the answer.
   */
  ghost predicate MergeOutcome(dbname: string, conf: DbConfig, p: SplitPipeline, cmdObj: Document,
                               cursors: seq<CursorHandle>, cmd: Document, net: Network, out: Outcome, trace: seq<Event>) {
    if FirstFieldName(cmd) != "aggregate" then
      out == Raised(ProtocolError(NotAnAggregate)) && trace == []
    else
      && |trace| >= 1 && trace[0] == OnPrimary(conf.primary, p.outputNs, dbname, cmd)
      && match net.query(conf.primary, dbname, cmd)
         case None => trace == trace[..1] && out == Raised(ProtocolError(MergerReturnedNothing))
         case Some(reply) =>
           if !IsOk(reply) && !MergeCursorsSupported(reply) then
             match CanMergeInMongos(cmdObj, p.canRunInMongos)
             case Fail(e) => |trace| == 1 && out == Raised(e)
             case Pass =>
               trace == trace[..1] + [LocalMerge(FromCursors(cursors))] &&
               out == Returned(true, net.runLocally(FromCursors(cursors)))
           else |trace| == 1 && out == Returned(IsOk(reply), reply)
  }

  ghost predicate MergeSpec(dbname: string, conf: DbConfig, p: SplitPipeline, cmdObj: Document,
                            cursors: seq<CursorHandle>, net: Network, out: Outcome, trace: seq<Event>) {
    exists cmd :: MergeCommand(cmd, p.mergeCommand(cursors), cmdObj) &&
                  MergeOutcome(dbname, conf, p, cmdObj, cursors, cmd, net, out, trace)
  }

  method MergeCursors(dbname: string, conf: DbConfig, p: SplitPipeline, cmdObj: Document,
                      cursors: seq<CursorHandle>, net: Network) returns (out: Outcome, trace: seq<Event>)
    ensures MergeSpec(dbname, conf, p, cmdObj, cursors, net, out, trace)
  {
    var mergeCmd := BuildMergeCommand(p.mergeCommand(cursors), cmdObj);
    var reply;
    reply, trace := AggRunCommand(conf.primary, p.outputNs, dbname, mergeCmd, net);
    if reply.Failure? {
      out := Raised(reply.error);
      assert MergeOutcome(dbname, conf, p, cmdObj, cursors, mergeCmd, net, out, trace);
      return;
    }
    var merged := reply.value;
    var ok := IsOk(merged);
    if !ok && !MergeCursorsSupported(merged) {
      var check := CanMergeInMongos(cmdObj, p.canRunInMongos);
      if check.Fail? {
        out := Raised(check.error);
        assert MergeOutcome(dbname, conf, p, cmdObj, cursors, mergeCmd, net, out, trace);
        return;
      }
      trace := trace + [LocalMerge(FromCursors(cursors))];
      out := Returned(true, net.runLocally(FromCursors(cursors)));
      assert MergeOutcome(dbname, conf, p, cmdObj, cursors, mergeCmd, net, out, trace);
      return;
    }
    out := Returned(ok, merged);
    assert MergeOutcome(dbname, conf, p, cmdObj, cursors, mergeCmd, net, out, trace);
  }

  // ---------------------------------------------------------------------------
  // The command

  /**
   * Every shard answered in the cursor protocol: validate the cursors; on a
   * failure kill every open one and raise, otherwise merge over them.
   */
  ghost predicate CursorSpec(dbname: string, fullns: string, conf: DbConfig, p: SplitPipeline, cmdObj: Document,
                             net: Network, rs: seq<ShardResult>, out: Outcome, trace: seq<Event>) {
    match ParseAll(rs, fullns)
    case Failure(e) => trace == KillEvents(KillTargets(rs)) && out == Raised(e)
    case Success(cursors) => MergeSpec(dbname, conf, p, cmdObj, cursors, net, out, trace)
  }

  method ParseAndMerge(dbname: string, fullns: string, conf: DbConfig, p: SplitPipeline, cmdObj: Document,
                       net: Network, rs: seq<ShardResult>) returns (out: Outcome, trace: seq<Event>)
    ensures CursorSpec(dbname, fullns, conf, p, cmdObj, net, rs, out, trace)
  {
    var parse, kills := ParseCursors(rs, fullns);
    if parse.Failure? {
      return Raised(parse.error), KillEvents(kills);
    }
    out, trace := MergeCursors(dbname, conf, p, cmdObj, parse.value, net);
  }

  /**
   * What run does with the shard replies `rs`: explain, fall back, or
   * validate the cursors (killing every open one on failure) and merge.
   */
  ghost predicate AfterScatter(dbname: string, fullns: string, conf: DbConfig, p: SplitPipeline, cmdObj: Document,
                               net: Network, rs: seq<ShardResult>, out: Outcome, rest: seq<Event>) {
    if p.isExplain then
      rest == [] && ExplainSpec(p, rs, out)
    else if AnyShardLacksCursors(rs) then
      var kills := KillEvents(KillTargets(rs));
      |kills| <= |rest| && rest[..|kills|] == kills && FallbackSpec(p, cmdObj, net, out, rest[|kills|..])
    else CursorSpec(dbname, fullns, conf, p, cmdObj, net, rs, out, rest)
  }

  /** The shard command `trace[0]` is scattered, then its replies are handled. */
  ghost predicate ShardedSpec(dbname: string, fullns: string, conf: DbConfig, p: SplitPipeline,
                              cmdObj: Document, net: Network, out: Outcome, trace: seq<Event>) {
    && |trace| >= 1 && trace[0].Dispatch?
    && ShardCommand(trace[0].cmd, p.shardPart, cmdObj, p.isExplain)
    && AfterScatter(dbname, fullns, conf, p, cmdObj, net, net.commandOp(trace[0].cmd), out, trace[1..])
  }

  /** PipelineCommand::run. */
  method Run(dbname: string, fullns: string, cmdObj: Document, parsed: Option<SplitPipeline>,
             catalog: CatalogLookup, net: Network) returns (out: Outcome, trace: seq<Event>)
    ensures parsed.None? ==> out == ParseFailed && trace == []
    ensures parsed.Some? && catalog.NotFound? ==> out == NoDatabase(catalog.status) && trace == []
    ensures parsed.Some? && catalog.Found? && !(catalog.conf.shardingEnabled && fullns in catalog.conf.shardedCollections) ==>
      PassthroughSpec(catalog.conf, cmdObj, net, out, trace)
    ensures parsed.Some? && catalog.Found? && catalog.conf.shardingEnabled && fullns in catalog.conf.shardedCollections ==>
      ShardedSpec(dbname, fullns, catalog.conf, parsed.value, cmdObj, net, out, trace)
  {
    if parsed.None? {
      return ParseFailed, [];
    }
    var p := parsed.value;
    if catalog.NotFound? {
      return NoDatabase(catalog.status), [];
    }
    var conf := catalog.conf;
    if !conf.shardingEnabled || fullns !in conf.shardedCollections {
      out, trace := AggPassthrough(conf, cmdObj, net);
      return;
    }
    out, trace := RunSharded(dbname, fullns, conf, p, cmdObj, net);
  }

  /** The part of run after the collection is known to be sharded. */
  method RunSharded(dbname: string, fullns: string, conf: DbConfig, p: SplitPipeline, cmdObj: Document, net: Network)
    returns (out: Outcome, trace: seq<Event>)
    ensures ShardedSpec(dbname, fullns, conf, p, cmdObj, net, out, trace)
  {
    var shardCmd := BuildShardCommand(p.shardPart, cmdObj, p.isExplain);
    var rs := net.commandOp(shardCmd);
    var rest;
    out, rest := HandleReplies(dbname, fullns, conf, p, cmdObj, net, rs);
    trace := [Dispatch(shardCmd)] + rest;
    assert trace[1..] == rest;
  }

  /** run once the shard replies `rs` are in. */
  method HandleReplies(dbname: string, fullns: string, conf: DbConfig, p: SplitPipeline, cmdObj: Document,
                       net: Network, rs: seq<ShardResult>) returns (out: Outcome, trace: seq<Event>)
    ensures AfterScatter(dbname, fullns, conf, p, cmdObj, net, rs, out, trace)
  {
    if p.isExplain {
      var check := ExplainCheck(rs);
      if check.Fail? {
        return Raised(check.error), [];
      }
      var result := BuildExplainResult(p, rs);
      return Returned(true, result), [];
    }

    if AnyShardLacksCursors(rs) {
      var kills := KillAllCursors(rs);
      var fallbackTrace;
      out, fallbackTrace := NoCursorFallback(p, cmdObj, net);
      trace := KillEvents(kills) + fallbackTrace;
      assert trace[..|KillEvents(kills)|] == KillEvents(kills);
      assert trace[|KillEvents(kills)|..] == fallbackTrace;
      return;
    }

    out, trace := ParseAndMerge(dbname, fullns, conf, p, cmdObj, net, rs);
  }

  // ---------------------------------------------------------------------------
  // Properties of a sharded run

  lemma KillEventsAre(hs: seq<CursorHandle>, e: Event)
    ensures e in KillEvents(hs) <==> e.Kill? && e.handle in hs
  {
    if e in KillEvents(hs) {
      var i :| 0 <= i < |hs| && KillEvents(hs)[i] == e;
    }
    if e.Kill? && e.handle in hs {
      var i :| 0 <= i < |hs| && hs[i] == e.handle;
      assert KillEvents(hs)[i] == e;
    }
  }

  /**
   * When the cursors fail validation, every cursor an ok shard opened is
   * killed, and nothing else is sent after the scatter.
   */
  lemma FailedValidationKillsEveryOpenCursor(dbname: string, fullns: string, conf: DbConfig, p: SplitPipeline,
                                             cmdObj: Document, net: Network, out: Outcome, trace: seq<Event>, i: nat)
    requires ShardedSpec(dbname, fullns, conf, p, cmdObj, net, out, trace)
    requires !p.isExplain
    requires var rs := net.commandOp(trace[0].cmd);
      !AnyShardLacksCursors(rs) && ParseAll(rs, fullns).Failure? && i < |rs| &&
      IsOk(rs[i].result) && CursorId(rs[i].result).Some? && CursorId(rs[i].result).value != 0
    ensures var rs := net.commandOp(trace[0].cmd);
      out.Raised? && Kill(CursorHandle(rs[i].target, CursorId(rs[i].result).value)) in trace
    ensures forall e | e in trace[1..] :: e.Kill?
  {
    var rs := net.commandOp(trace[0].cmd);
    var h := CursorHandle(rs[i].target, CursorId(rs[i].result).value);
    KillsOnlyOpenCursors(rs, i);
    KillEventsAre(KillTargets(rs), Kill(h));
    assert Kill(h) in trace[1..];
    forall e | e in trace[1..] ensures e.Kill? {
      KillEventsAre(KillTargets(rs), e);
    }
  }

  /**
   * A kill event is the cursor of an ok reply with a non-zero id. The proof is
   * direct; automatic induction is switched off because its hypothesis is of
   * no use here.
   */
  lemma {:induction false} KillEventFromOkReply(rs: seq<ShardResult>, e: Event)
    requires e in KillEvents(KillTargets(rs))
    ensures e.Kill? && exists j | 0 <= j < |rs| ::
      IsOk(rs[j].result) && rs[j].target == e.handle.target && CursorId(rs[j].result) == Some(e.handle.id) && e.handle.id != 0
  {
    KillEventsAre(KillTargets(rs), e);
    KillTargetsExactly(rs);
  }

  /** The fallback sends one scatter and merges whole replies, and raises only 17020 or 17021. */
  lemma FallbackEvents(p: SplitPipeline, cmdObj: Document, net: Network, out: Outcome, trace: seq<Event>)
    requires FallbackSpec(p, cmdObj, net, out, trace)
    ensures forall e | e in trace :: e.Dispatch? || (e.LocalMerge? && e.source.FromShardResults?)
    ensures out.Raised? ==> out.error == UserError(CursorNeedsAllShards) || out.error == UserError(FeatureNeedsAllShards)
  {
    if CanMergeInMongos(cmdObj, p.canRunInMongos).Pass? {
      assert trace == [trace[0], trace[1]];
    }
  }

  /** After the scatter, a run in fallback kills the open cursors, then runs the fallback. */
  lemma FallbackTrace(dbname: string, fullns: string, conf: DbConfig, p: SplitPipeline, cmdObj: Document,
                      net: Network, rs: seq<ShardResult>, out: Outcome, rest: seq<Event>)
    requires AfterScatter(dbname, fullns, conf, p, cmdObj, net, rs, out, rest)
    requires !p.isExplain && AnyShardLacksCursors(rs)
    ensures var kills := KillEvents(KillTargets(rs));
      && |rest| >= |kills|
      && rest == kills + rest[|kills|..]
      && FallbackSpec(p, cmdObj, net, out, rest[|kills|..])
  {
    var kills := KillEvents(KillTargets(rs));
    assert rest == rest[..|kills|] + rest[|kills|..];
  }

  /**
   * One legacy shard switches the whole operation to the pre-cursor protocol:
   * the cursors already open are killed first, nothing goes to the primary,
   * a kill goes only to the cursor an ok shard reported, and a local merge
   * reads whole replies.
   */
  lemma LegacyShardForcesFallbackEverywhere(dbname: string, fullns: string, conf: DbConfig, p: SplitPipeline,
                                            cmdObj: Document, net: Network, out: Outcome, trace: seq<Event>)
    requires ShardedSpec(dbname, fullns, conf, p, cmdObj, net, out, trace)
    requires !p.isExplain && AnyShardLacksCursors(net.commandOp(trace[0].cmd))
    ensures forall e | e in trace :: !e.OnPrimary? && (e.LocalMerge? ==> e.source.FromShardResults?)
    ensures forall e | e in trace && e.Kill? ::
      exists j | 0 <= j < |net.commandOp(trace[0].cmd)| ::
        var r := net.commandOp(trace[0].cmd)[j];
        IsOk(r.result) && r.target == e.handle.target && CursorId(r.result) == Some(e.handle.id) && e.handle.id != 0
    ensures out.Raised? ==> out.error == UserError(CursorNeedsAllShards) || out.error == UserError(FeatureNeedsAllShards)
  {
    var rs := net.commandOp(trace[0].cmd);
    var rest := trace[1..];
    FallbackTrace(dbname, fullns, conf, p, cmdObj, net, rs, out, rest);
    FallbackAfterScatter(p, cmdObj, net, rs, out, rest);
    assert trace == [trace[0]] + rest;
  }

  /** The events of a run in fallback after its scatter: kills of open cursors, then the fallback's own. */
  lemma FallbackAfterScatter(p: SplitPipeline, cmdObj: Document, net: Network, rs: seq<ShardResult>,
                             out: Outcome, rest: seq<Event>)
    requires var kills := KillEvents(KillTargets(rs));
      && |rest| >= |kills|
      && rest == kills + rest[|kills|..]
      && FallbackSpec(p, cmdObj, net, out, rest[|kills|..])
    ensures forall e | e in rest :: !e.OnPrimary? && (e.LocalMerge? ==> e.source.FromShardResults?)
    ensures forall e | e in rest && e.Kill? ::
      exists j | 0 <= j < |rs| ::
        IsOk(rs[j].result) && rs[j].target == e.handle.target && CursorId(rs[j].result) == Some(e.handle.id) && e.handle.id != 0
    ensures out.Raised? ==> out.error == UserError(CursorNeedsAllShards) || out.error == UserError(FeatureNeedsAllShards)
  {
    var kills := KillEvents(KillTargets(rs));
    var tail := rest[|kills|..];
    FallbackEvents(p, cmdObj, net, out, tail);
    forall e | e in rest
      ensures !e.OnPrimary? && (e.LocalMerge? ==> e.source.FromShardResults?)
      ensures e.Kill? ==> exists j | 0 <= j < |rs| ::
        IsOk(rs[j].result) && rs[j].target == e.handle.target && CursorId(rs[j].result) == Some(e.handle.id) && e.handle.id != 0
    {
      if e in kills {
        KillEventFromOkReply(rs, e);
      } else {
        assert e in tail;
      }
    }
  }

  // ---------------------------------------------------------------------------
  // The answer of a sharded run is a function of its inputs

  lemma ExplainResultIsUnique(r1: Document, r2: Document, p: SplitPipeline, rs: seq<ShardResult>)
    requires ExplainResult(r1, p, rs) && ExplainResult(r2, p, rs)
    ensures r1 == r2
  {
    assert r1[1].value.fields == r2[1].value.fields;
    assert r1[1] == r2[1];
  }

  lemma FallbackSpecIsFunctional(p: SplitPipeline, cmdObj: Document, net: Network,
                                 o1: Outcome, t1: seq<Event>, o2: Outcome, t2: seq<Event>)
    requires FallbackSpec(p, cmdObj, net, o1, t1) && FallbackSpec(p, cmdObj, net, o2, t2)
    ensures o1 == o2 && t1 == t2
  {
    if CanMergeInMongos(cmdObj, p.canRunInMongos).Pass? {
      FallbackCommandIsUnique(t1[0].cmd, t2[0].cmd, p.shardPart, cmdObj);
      assert t1 == [t1[0], t1[1]] && t2 == [t2[0], t2[1]];
    }
  }

  lemma MergeOutcomeIsFunctional(dbname: string, conf: DbConfig, p: SplitPipeline, cmdObj: Document,
                                 cursors: seq<CursorHandle>, cmd: Document, net: Network,
                                 o1: Outcome, t1: seq<Event>, o2: Outcome, t2: seq<Event>)
    requires MergeOutcome(dbname, conf, p, cmdObj, cursors, cmd, net, o1, t1)
    requires MergeOutcome(dbname, conf, p, cmdObj, cursors, cmd, net, o2, t2)
    ensures o1 == o2 && t1 == t2
  {
    if FirstFieldName(cmd) == "aggregate" {
      assert t1 == [t1[0]] + t1[1..] && t2 == [t2[0]] + t2[1..];
    }
  }

  lemma MergeSpecIsFunctional(dbname: string, conf: DbConfig, p: SplitPipeline, cmdObj: Document,
                              cursors: seq<CursorHandle>, net: Network,
                              o1: Outcome, t1: seq<Event>, o2: Outcome, t2: seq<Event>)
    requires MergeSpec(dbname, conf, p, cmdObj, cursors, net, o1, t1)
    requires MergeSpec(dbname, conf, p, cmdObj, cursors, net, o2, t2)
    ensures o1 == o2 && t1 == t2
  {
    var c1 :| MergeCommand(c1, p.mergeCommand(cursors), cmdObj) &&
              MergeOutcome(dbname, conf, p, cmdObj, cursors, c1, net, o1, t1);
    var c2 :| MergeCommand(c2, p.mergeCommand(cursors), cmdObj) &&
              MergeOutcome(dbname, conf, p, cmdObj, cursors, c2, net, o2, t2);
    MergeCommandIsUnique(c1, c2, p.mergeCommand(cursors), cmdObj);
    MergeOutcomeIsFunctional(dbname, conf, p, cmdObj, cursors, c1, net, o1, t1, o2, t2);
  }

  /**
   * A sharded run's specification leaves nothing open: given the same
   * inputs and collaborators' answers, the outcome and every event sent are
   * the same.
   */
  lemma ShardedSpecIsFunctional(dbname: string, fullns: string, conf: DbConfig, p: SplitPipeline,
                                cmdObj: Document, net: Network,
                                o1: Outcome, t1: seq<Event>, o2: Outcome, t2: seq<Event>)
    requires ShardedSpec(dbname, fullns, conf, p, cmdObj, net, o1, t1)
    requires ShardedSpec(dbname, fullns, conf, p, cmdObj, net, o2, t2)
    ensures o1 == o2 && t1 == t2
  {
    ShardCommandIsUnique(t1[0].cmd, t2[0].cmd, p.shardPart, cmdObj, p.isExplain);
    AfterScatterIsFunctional(dbname, fullns, conf, p, cmdObj, net, net.commandOp(t1[0].cmd), o1, t1[1..], o2, t2[1..]);
    assert t1 == [t1[0]] + t1[1..] && t2 == [t2[0]] + t2[1..];
  }

  lemma AfterScatterIsFunctional(dbname: string, fullns: string, conf: DbConfig, p: SplitPipeline,
                                 cmdObj: Document, net: Network, rs: seq<ShardResult>,
                                 o1: Outcome, r1: seq<Event>, o2: Outcome, r2: seq<Event>)
    requires AfterScatter(dbname, fullns, conf, p, cmdObj, net, rs, o1, r1)
    requires AfterScatter(dbname, fullns, conf, p, cmdObj, net, rs, o2, r2)
    ensures o1 == o2 && r1 == r2
  {
    if p.isExplain {
      if ExplainCheck(rs).Pass? {
        ExplainResultIsUnique(o1.result, o2.result, p, rs);
      }
    } else if AnyShardLacksCursors(rs) {
      var kills := KillEvents(KillTargets(rs));
      FallbackSpecIsFunctional(p, cmdObj, net, o1, r1[|kills|..], o2, r2[|kills|..]);
      assert r1 == r1[..|kills|] + r1[|kills|..] && r2 == r2[..|kills|] + r2[|kills|..];
    } else if ParseAll(rs, fullns).Success? {
      MergeSpecIsFunctional(dbname, conf, p, cmdObj, ParseAll(rs, fullns).value, net, o1, r1, o2, r2);
    }
  }
}
