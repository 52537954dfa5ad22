/**
 * Per-shard replies collected by one scatter/gather, the cursor handles the
 * router keeps for them, and the error code that stands for a set of failed
 * replies.
 */
module ShardResults {
  import opened Documents

  /** Strategy::CommandResult: the shard's name, the host that answered, and its reply. */
  datatype ShardResult = ShardResult(shardName: string, target: string, result: Document)

  /** One open cursor: the host it lives on and its id. */
  datatype CursorHandle = CursorHandle(target: string, id: int)

  predicate IsOk(reply: Document) {
    TrueValue(Lookup(reply, "ok"))
  }

  function ErrMsg(reply: Document): string {
    StrValue(Lookup(reply, "errmsg"))
  }

  function Code(reply: Document): int {
    IntValue(Lookup(reply, "code"))
  }

  predicate Failed(r: ShardResult) {
    !IsOk(r.result)
  }

  /** How the codes of the failed replies agree. */
  datatype CodeSummary = NoFailure | Agreed(code: int) | Disagreed

  /** Scans the replies in order, as getUniqueCodeFromCommandResults does. */
  function Summarize(rs: seq<ShardResult>): (s: CodeSummary)
    ensures s.NoFailure? <==> forall i | 0 <= i < |rs| :: !Failed(rs[i])
    ensures s.Agreed? ==> forall i | 0 <= i < |rs| && Failed(rs[i]) :: Code(rs[i].result) == s.code
    ensures s.Disagreed? ==>
      exists i, j | 0 <= i < |rs| && 0 <= j < |rs| ::
        Failed(rs[i]) && Failed(rs[j]) && Code(rs[i].result) != Code(rs[j].result)
  {
    if |rs| == 0 then NoFailure
    else
      var init := rs[..|rs| - 1];
      var last := rs[|rs| - 1];
      var s := Summarize(init);
      assert forall i | 0 <= i < |init| :: init[i] == rs[i];
      if !Failed(last) then s
      else match s
        case NoFailure => Agreed(Code(last.result))
        case Agreed(c) =>
          if c == Code(last.result) then s
          else Disagreed
        case Disagreed => Disagreed
  }

  /**
   * getUniqueCodeFromCommandResults: the code every failed reply carries, or
   * 0 when no reply failed or the failed replies disagree.
   */
  function UniqueCode(rs: seq<ShardResult>): (c: int)
    ensures c != 0 ==>
      (exists i | 0 <= i < |rs| :: Failed(rs[i])) &&
      forall i | 0 <= i < |rs| && Failed(rs[i]) :: Code(rs[i].result) == c
    ensures forall k | 0 <= k < |rs| && Failed(rs[k]) ::
      (forall j | 0 <= j < |rs| && Failed(rs[j]) :: Code(rs[j].result) == Code(rs[k].result))
      ==> c == Code(rs[k].result)
  {
    match Summarize(rs)
    case Agreed(c) => c
    case _ => 0
  }
}
