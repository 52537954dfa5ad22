/**
 * Validation of the cursors the shards opened for a sharded aggregation
 * (PipelineCommand::parseCursors) and their best-effort cleanup
 * (PipelineCommand::killAllCursors).
 *
 * Every shard is sent `cursor: {batchSize: 0}`, so a conforming shard answers
 * `{ok: 1, cursor: {id: <non-zero>, ns: <fullns>, firstBatch: []}}`.
 */
module Cursors {
  import opened Documents
  import opened Errors
  import opened ShardResults

  /** The fields of a cursor reply that parseCursors reads. */
  const CursorField := "cursor"
  const FirstBatchField := "firstBatch"
  const IdField := "id"
  const NsField := "ns"

  /** Location code used when the failed replies do not share one code. */
  const MultipleShardFailures := 17022
  const NonEmptyFirstBatch := 17023
  const ZeroCursorId := 17024
  const WrongNamespace := 17025

  /** The `cursor` sub-document of a reply, when it is an object. */
  function CursorDoc(reply: Document): Option<Document> {
    match Lookup(reply, CursorField)
    case Some(Object(c)) => Some(c)
    case _ => None   // missing, or not an object: cursor["..."] then fails
  }

  /** `result["cursor"]["id"].Long()`, when both accessors succeed. */
  function CursorId(reply: Document): Option<int> {
    match CursorDoc(reply)
    case Some(c) => (match Lookup(c, IdField) case Some(Number(id)) => Some(id) case _ => None)
    case None => None
  }

  /** `cursor["firstBatch"]`, when the cursor is an object. */
  function FirstBatch(reply: Document): Option<Value> {
    match CursorDoc(reply)
    case Some(c) => Lookup(c, FirstBatchField)
    case None => None
  }

  /** `cursor["ns"]`, when the cursor is an object. */
  function CursorNs(reply: Document): Option<Value> {
    match CursorDoc(reply)
    case Some(c) => Lookup(c, NsField)
    case None => None
  }

  /** A first batch that `Obj()` can read: an object or an array. */
  predicate IsBatch(v: Option<Value>) {
    v.Some? && (v.value.Object? || v.value.Array?)
  }

  /** `cursor["firstBatch"].Obj().isEmpty()`: an empty object or array. */
  predicate EmptyBatch(v: Option<Value>) {
    v == Some(Object([])) || v == Some(Array([]))
  }

  /** A reply that honours the batchSize-0 cursor protocol for namespace `fullns`. */
  ghost predicate WellFormed(r: ShardResult, fullns: string) {
    && IsOk(r.result)
    && CursorDoc(r.result).Some?
    && EmptyBatch(Lookup(CursorDoc(r.result).value, FirstBatchField))
    && CursorId(r.result).Some? && CursorId(r.result).value != 0
    && Lookup(CursorDoc(r.result).value, NsField) == Some(Str(fullns))
  }

  /**
   * The code parseCursors raises when a reply is not ok: the code all failed
   * replies share, or 17022 when there is none.
   */
  function FailureCode(rs: seq<ShardResult>): (c: int)
    ensures c != 0
    ensures c == MultipleShardFailures || forall i | 0 <= i < |rs| && Failed(rs[i]) :: Code(rs[i].result) == c
  {
    var c := UniqueCode(rs);
    if c == 0 then MultipleShardFailures else c
  }

  /** When every failed reply carries the same non-zero code, that code is the one raised. */
  lemma SharedCodeIsFailureCode(rs: seq<ShardResult>, k: nat)
    requires k < |rs| && Failed(rs[k]) && Code(rs[k].result) != 0
    requires forall j | 0 <= j < |rs| && Failed(rs[j]) :: Code(rs[j].result) == Code(rs[k].result)
    ensures FailureCode(rs) == Code(rs[k].result)
  {
    assert UniqueCode(rs) == Code(rs[k].result);
  }

  /**
   * The checks parseCursors makes of an ok reply, in its order: the cursor
   * and its first batch must be objects, the batch must be empty (17023), the
   * id a non-zero number (17024), the namespace the requested one (17025).
   */
  function CheckCursor(target: string, reply: Document, fullns: string): (res: Result<CursorHandle>)
    ensures !IsBatch(FirstBatch(reply)) ==> res == Failure(TypeMismatch)
    ensures IsBatch(FirstBatch(reply)) && !EmptyBatch(FirstBatch(reply)) ==>
      res == Failure(ProtocolError(NonEmptyFirstBatch))
    ensures EmptyBatch(FirstBatch(reply)) && CursorId(reply).None? ==> res == Failure(TypeMismatch)
    ensures EmptyBatch(FirstBatch(reply)) && CursorId(reply) == Some(0) ==> res == Failure(ProtocolError(ZeroCursorId))
    ensures EmptyBatch(FirstBatch(reply)) && CursorId(reply).Some? && CursorId(reply).value != 0 ==>
      match CursorNs(reply)
      case Some(Str(ns)) =>
        res == if ns == fullns then Success(CursorHandle(target, CursorId(reply).value))
               else Failure(ProtocolError(WrongNamespace))
      case _ => res == Failure(TypeMismatch)
  {
    match Lookup(reply, CursorField)
    case Some(Object(cursor)) =>
      var batch := Lookup(cursor, FirstBatchField);
      if !(batch.Some? && (batch.value.Object? || batch.value.Array?)) then Failure(TypeMismatch)
      else if !EmptyBatch(batch) then Failure(ProtocolError(NonEmptyFirstBatch))
      else (match Lookup(cursor, IdField)
        case Some(Number(id)) =>
          if id == 0 then Failure(ProtocolError(ZeroCursorId))
          else (match Lookup(cursor, NsField)
            case Some(Str(ns)) =>
              if ns != fullns then Failure(ProtocolError(WrongNamespace))
              else Success(CursorHandle(target, id))
            case _ => Failure(TypeMismatch))
        case _ => Failure(TypeMismatch))
    case _ => Failure(TypeMismatch)
  }

  /** What parseCursors decides about one reply; `errCode` is the code for a failed reply. */
  function CheckReply(r: ShardResult, fullns: string, errCode: int): (res: Result<CursorHandle>)
    ensures !IsOk(r.result) ==> res == Failure(UserError(errCode))
    ensures res.Success? <==> WellFormed(r, fullns)
    ensures res.Success? ==> res.value == CursorHandle(r.target, CursorId(r.result).value)
    ensures IsOk(r.result) && IsBatch(FirstBatch(r.result)) && !EmptyBatch(FirstBatch(r.result)) ==>
      res == Failure(ProtocolError(NonEmptyFirstBatch))
    ensures IsOk(r.result) && EmptyBatch(FirstBatch(r.result)) && CursorId(r.result) == Some(0) ==>
      res == Failure(ProtocolError(ZeroCursorId))
    ensures IsOk(r.result) && EmptyBatch(FirstBatch(r.result)) && CursorId(r.result).Some? &&
            CursorId(r.result).value != 0 && CursorNs(r.result).Some? && CursorNs(r.result).value.Str? &&
            CursorNs(r.result).value.s != fullns ==>
      res == Failure(ProtocolError(WrongNamespace))
    ensures IsOk(r.result) && res.Failure? && !res.error.ProtocolError? ==> res.error.TypeMismatch?
    ensures IsOk(r.result) ==> res == CheckCursor(r.target, r.result, fullns)
  {
    if !IsOk(r.result) then Failure(UserError(errCode))
    else CheckCursor(r.target, r.result, fullns)
  }

  /** parseCursors over the first `n` replies: stop at the first bad one, else collect handles. */
  function ParseUpTo(rs: seq<ShardResult>, n: nat, fullns: string): (res: Result<seq<CursorHandle>>)
    requires n <= |rs|
    ensures res.Success? <==> forall i | 0 <= i < n :: WellFormed(rs[i], fullns)
    ensures res.Success? ==>
      |res.value| == n &&
      forall i | 0 <= i < n :: res.value[i] == CursorHandle(rs[i].target, CursorId(rs[i].result).value)
    ensures res.Failure? ==>
      exists k | 0 <= k < n ::
        && (forall j | 0 <= j < k :: WellFormed(rs[j], fullns))
        && CheckReply(rs[k], fullns, FailureCode(rs)) == Failure(res.error)
  {
    if n == 0 then Success([])
    else match ParseUpTo(rs, n - 1, fullns)
      case Failure(e) => Failure(e)
      case Success(cursors) =>
        match CheckReply(rs[n - 1], fullns, FailureCode(rs))
        case Failure(e) => Failure(e)
        case Success(h) => Success(cursors + [h])
  }

  /**
   * parseCursors over all replies: it succeeds exactly when every reply is
   * well formed, and then yields one handle per shard, in shard order, each
   * with a non-zero id on the shard's host.
   */
  function ParseAll(rs: seq<ShardResult>, fullns: string): (res: Result<seq<CursorHandle>>)
    ensures res.Success? <==> forall i | 0 <= i < |rs| :: WellFormed(rs[i], fullns)
    ensures res.Success? ==>
      |res.value| == |rs| &&
      forall i | 0 <= i < |rs| ::
        res.value[i].target == rs[i].target && res.value[i].id != 0 &&
        CursorId(rs[i].result) == Some(res.value[i].id) &&
        Lookup(CursorDoc(rs[i].result).value, NsField) == Some(Str(fullns))
  {
    ParseUpTo(rs, |rs|, fullns)
  }

  /**
   * The cursor killAllCursors kills for one reply: only an ok reply whose
   * cursor id can be read and is non-zero. Any other reply is skipped (an
   * unreadable id throws inside the per-shard try and is only logged).
   */
  function KillTarget(r: ShardResult): (h: Option<CursorHandle>)
    ensures h.Some? <==> IsOk(r.result) && CursorId(r.result).Some? && CursorId(r.result).value != 0
    ensures h.Some? ==> h.value == CursorHandle(r.target, CursorId(r.result).value)
  {
    if !IsOk(r.result) then None
    else match CursorId(r.result)
      case Some(id) => if id == 0 then None else Some(CursorHandle(r.target, id))
      case None => None
  }

  /** The cursors killAllCursors kills, in shard order. */
  function KillTargets(rs: seq<ShardResult>): (hs: seq<CursorHandle>)
    ensures |hs| <= |rs|
    ensures forall i | 0 <= i < |hs| :: hs[i].id != 0
  {
    if |rs| == 0 then []
    else
      var init := KillTargets(rs[..|rs| - 1]);
      match KillTarget(rs[|rs| - 1])
      case Some(h) => init + [h]
      case None => init
  }

  /** killAllCursors kills exactly the cursors of the ok replies with a non-zero id. */
  lemma {:induction false} KillTargetsExactly(rs: seq<ShardResult>)
    ensures forall h :: h in KillTargets(rs) <==> exists i | 0 <= i < |rs| :: KillTarget(rs[i]) == Some(h)
  {
    if |rs| > 0 {
      var init := rs[..|rs| - 1];
      KillTargetsExactly(init);
      assert forall i | 0 <= i < |init| :: init[i] == rs[i];
      forall h ensures h in KillTargets(rs) <==> exists i | 0 <= i < |rs| :: KillTarget(rs[i]) == Some(h) {
        if h in KillTargets(rs) && h !in KillTargets(init) {
          assert KillTarget(rs[|rs| - 1]) == Some(h);
        }
      }
    }
  }

  /** The positions of the replies whose kill is `h`. */
  ghost function Reporting(rs: seq<ShardResult>, h: CursorHandle): set<int> {
    set i | 0 <= i < |rs| && KillTarget(rs[i]) == Some(h)
  }

  lemma ReportingStep(rs: seq<ShardResult>, h: CursorHandle)
    requires |rs| > 0
    ensures Reporting(rs, h) ==
      Reporting(rs[..|rs| - 1], h) + (if KillTarget(rs[|rs| - 1]) == Some(h) then {|rs| - 1} else {})
    ensures |rs| - 1 !in Reporting(rs[..|rs| - 1], h)
  {
    var init := rs[..|rs| - 1];
    assert forall i | 0 <= i < |init| :: init[i] == rs[i];
  }

  /** Each cursor is killed once for every reply that reports it open, and never otherwise. */
  lemma {:induction false} KillTargetsCount(rs: seq<ShardResult>, h: CursorHandle)
    ensures multiset(KillTargets(rs))[h] == |Reporting(rs, h)|
  {
    if |rs| == 0 {
      assert Reporting(rs, h) == {};
    } else {
      var init := rs[..|rs| - 1];
      KillTargetsCount(init, h);
      ReportingStep(rs, h);
    }
  }

  /** Nothing is killed for a failed reply or a zero id; every open cursor of an ok reply is. */
  lemma KillsOnlyOpenCursors(rs: seq<ShardResult>, i: nat)
    requires i < |rs|
    ensures (IsOk(rs[i].result) && CursorId(rs[i].result).Some? && CursorId(rs[i].result).value != 0)
            ==> CursorHandle(rs[i].target, CursorId(rs[i].result).value) in KillTargets(rs)
    ensures forall h :: h in KillTargets(rs) ==> exists j | 0 <= j < |rs| ::
              IsOk(rs[j].result) && h.target == rs[j].target && CursorId(rs[j].result) == Some(h.id) && h.id != 0
  {
    KillTargetsExactly(rs);
    if IsOk(rs[i].result) && CursorId(rs[i].result).Some? && CursorId(rs[i].result).value != 0 {
      assert KillTarget(rs[i]).Some?;
    }
  }

  /** Every cursor that parseCursors accepts is one that killAllCursors would kill. */
  lemma AcceptedCursorsAreKilled(rs: seq<ShardResult>, fullns: string, i: nat)
    requires i < |rs| && WellFormed(rs[i], fullns)
    ensures CursorHandle(rs[i].target, CursorId(rs[i].result).value) in KillTargets(rs)
  {
    KillsOnlyOpenCursors(rs, i);
  }

  /**
   * The first reply that is not well formed decides the error. When it is a
   * failed reply, the code is the one all failed replies share, or 17022
   * (the invariant parseCursors asserts before raising); otherwise it is the
   * first cursor check that reply breaks.
   */
  lemma ParseFailsAtFirstBadReply(rs: seq<ShardResult>, fullns: string, k: nat)
    requires k < |rs| && !WellFormed(rs[k], fullns)
    requires forall j | 0 <= j < k :: WellFormed(rs[j], fullns)
    ensures Failed(rs[k]) ==>
      ParseAll(rs, fullns) == Failure(UserError(FailureCode(rs))) &&
      (FailureCode(rs) == Code(rs[k].result) || FailureCode(rs) == MultipleShardFailures)
    ensures !Failed(rs[k]) ==>
      ParseAll(rs, fullns) == Failure(CheckCursor(rs[k].target, rs[k].result, fullns).error)
    ensures !Failed(rs[k]) && IsBatch(FirstBatch(rs[k].result)) && !EmptyBatch(FirstBatch(rs[k].result)) ==>
      ParseAll(rs, fullns) == Failure(ProtocolError(NonEmptyFirstBatch))
    ensures !Failed(rs[k]) && EmptyBatch(FirstBatch(rs[k].result)) && CursorId(rs[k].result) == Some(0) ==>
      ParseAll(rs, fullns) == Failure(ProtocolError(ZeroCursorId))
    ensures !Failed(rs[k]) && EmptyBatch(FirstBatch(rs[k].result)) && CursorId(rs[k].result).Some? &&
            CursorId(rs[k].result).value != 0 && CursorNs(rs[k].result).Some? && CursorNs(rs[k].result).value.Str? &&
            CursorNs(rs[k].result).value.s != fullns ==>
      ParseAll(rs, fullns) == Failure(ProtocolError(WrongNamespace))
    ensures !Failed(rs[k]) && !IsBatch(FirstBatch(rs[k].result)) ==> ParseAll(rs, fullns) == Failure(TypeMismatch)
  {
    ParseUpToStopsAt(rs, fullns, k, |rs|);
    if Failed(rs[k]) {
      var c := UniqueCode(rs);
      assert c != 0 ==> Code(rs[k].result) == c;
    }
  }

  /** When the failed replies all carry one non-zero code, a failed reply surfaces that code. */
  lemma SharedCodeSurfaces(rs: seq<ShardResult>, fullns: string, k: nat, code: int)
    requires k < |rs| && Failed(rs[k]) && code != 0
    requires forall j | 0 <= j < k :: WellFormed(rs[j], fullns)
    requires forall j | 0 <= j < |rs| && Failed(rs[j]) :: Code(rs[j].result) == code
    ensures ParseAll(rs, fullns) == Failure(UserError(code))
  {
    assert UniqueCode(rs) == code;
    ParseUpToStopsAt(rs, fullns, k, |rs|);
  }

  lemma {:induction false} ParseUpToStopsAt(rs: seq<ShardResult>, fullns: string, k: nat, n: nat)
    requires k < n <= |rs|
    requires forall j | 0 <= j < k :: WellFormed(rs[j], fullns)
    requires CheckReply(rs[k], fullns, FailureCode(rs)).Failure?
    ensures ParseUpTo(rs, n, fullns) == Failure(CheckReply(rs[k], fullns, FailureCode(rs)).error)
  {
    if n - 1 > k {
      ParseUpToStopsAt(rs, fullns, k, n - 1);
      var prev := ParseUpTo(rs, n - 1, fullns);
      assert prev.Failure?;
      assert ParseUpTo(rs, n, fullns) == Failure(prev.error);
    } else {
      var prev := ParseUpTo(rs, k, fullns);
      assert prev.Success?;
      var check := CheckReply(rs[k], fullns, FailureCode(rs));
      assert ParseUpTo(rs, n, fullns) == Failure(check.error);
    }
  }

  /** PipelineCommand::killAllCursors: a best-effort kill per open cursor; never raises. */
  method KillAllCursors(rs: seq<ShardResult>) returns (kills: seq<CursorHandle>)
    ensures kills == KillTargets(rs)
  {
    kills := [];
    for i := 0 to |rs|
      invariant kills == KillTargets(rs[..i])
    {
      assert rs[..i + 1][..i] == rs[..i];
      var reply := rs[i].result;
      if !IsOk(reply) {
        continue;
      }
      var id := CursorId(reply);
      if id.None? || id.value == 0 {
        continue;
      }
      kills := kills + [CursorHandle(rs[i].target, id.value)];
    }
    assert rs[..|rs|] == rs;
  }

  /**
   * One pass of parseCursors' loop: a failed reply raises the shared code (or
   * 17022), an ok reply goes through the cursor checks.
   */
  method CheckShardReply(rs: seq<ShardResult>, i: nat, fullns: string) returns (check: Result<CursorHandle>)
    requires i < |rs|
    ensures check == CheckReply(rs[i], fullns, FailureCode(rs))
  {
    var reply := rs[i].result;
    if !IsOk(reply) {
      var errCode := UniqueCode(rs);
      if errCode == 0 {
        errCode := MultipleShardFailures;
      }
      assert errCode == Code(reply) || errCode == MultipleShardFailures;
      return Failure(UserError(errCode));
    }
    check := CheckCursor(rs[i].target, reply, fullns);
  }

  /** parseCursors' exit at a bad reply: raise its error once every open cursor is killed. */
  method Abandon(rs: seq<ShardResult>, fullns: string, i: nat, e: Error)
    returns (res: Result<seq<CursorHandle>>, kills: seq<CursorHandle>)
    requires i < |rs| && forall j | 0 <= j < i :: WellFormed(rs[j], fullns)
    requires CheckReply(rs[i], fullns, FailureCode(rs)) == Failure(e)
    ensures res == ParseAll(rs, fullns) == Failure(e)
    ensures kills == KillTargets(rs)
  {
    ParseUpToStopsAt(rs, fullns, i, |rs|);
    kills := KillAllCursors(rs);
    res := Failure(e);
  }

  /**
   * PipelineCommand::parseCursors: the handles of a fully well-formed reply
   * set, or the first error, in which case every open cursor is killed first.
   */
  method ParseCursors(rs: seq<ShardResult>, fullns: string)
    returns (res: Result<seq<CursorHandle>>, kills: seq<CursorHandle>)
    ensures res == ParseAll(rs, fullns)
    ensures kills == if res.Failure? then KillTargets(rs) else []
  {
    var cursors: seq<CursorHandle> := [];
    var i := 0;
    while i < |rs|
      invariant 0 <= i <= |rs|
      invariant ParseUpTo(rs, i, fullns) == Success(cursors)
    {
      var check := CheckShardReply(rs, i, fullns);
      if check.Failure? {
        res, kills := Abandon(rs, fullns, i, check.error);
        return;
      }
      cursors := cursors + [check.value];
      i := i + 1;
    }
    return Success(cursors), [];
  }
}
