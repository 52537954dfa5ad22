/**
 * The read-only checks that pick between the cursor protocol and its
 * fallbacks, and the checks that raise before a plan or a local merge is
 * attempted.
 */
module Compatibility {
  import opened Documents
  import opened Errors
  import opened ShardResults

  /** The errmsg of a pre-2.6 shard asked for a cursor (the unbalanced quote is real). */
  const CursorUnrecognized := "unrecognized field \"cursor"

  /** The errmsg of a pre-2.6 primary asked to run $mergeCursors. */
  const MergeCursorsUnrecognized := "exception: Unrecognized pipeline stage name: '$mergeCursors'"

  const CursorNeedsAllShards := 17020
  const FeatureNeedsAllShards := 17021
  const ShardFailedExplain := 17403
  const ShardLacksExplain := 17404

  /**
   * PipelineCommand::doAnyShardsNotSupportCursors: one shard whose errmsg is
   * exactly the legacy cursor complaint is enough, whatever the others said.
   */
  function AnyShardLacksCursors(rs: seq<ShardResult>): (b: bool)
    ensures b <==> exists i | 0 <= i < |rs| :: ErrMsg(rs[i].result) == CursorUnrecognized
  {
    if |rs| == 0 then false
    else if ErrMsg(rs[0].result) == CursorUnrecognized then true
    else
      var rest := rs[1..];
      assert forall i | 0 <= i < |rest| :: rest[i] == rs[i + 1];
      AnyShardLacksCursors(rest)
  }

  /** PipelineCommand::wasMergeCursorsSupported: false only for the exact legacy complaint. */
  function MergeCursorsSupported(reply: Document): (b: bool)
    ensures !b <==> Lookup(reply, "errmsg") == Some(Str(MergeCursorsUnrecognized))
  {
    ErrMsg(reply) != MergeCursorsUnrecognized
  }

  /**
   * PipelineCommand::uassertCanMergeInMongos: a client that asked for a
   * cursor (17020) or a merge half the router cannot run itself (17021)
   * cannot be served without cursors on every shard.
   */
  function CanMergeInMongos(cmdObj: Document, canRunInMongos: bool): (c: Check)
    ensures c.Pass? <==> !HasField(cmdObj, "cursor") && canRunInMongos
    ensures c.Fail? ==> c.error.UserError?
    ensures HasField(cmdObj, "cursor") ==> c == Fail(UserError(CursorNeedsAllShards))
    ensures c == Fail(UserError(FeatureNeedsAllShards)) ==> !HasField(cmdObj, "cursor")
  {
    if HasField(cmdObj, "cursor") then Fail(UserError(CursorNeedsAllShards))
    else if !canRunInMongos then Fail(UserError(FeatureNeedsAllShards))
    else Pass
  }

  /** A shard reply that can contribute its part of an explain plan. */
  predicate SupportsExplain(r: ShardResult) {
    IsOk(r.result) && HasField(r.result, "stages")
  }

  /**
   * PipelineCommand::uassertAllShardsSupportExplain: shard by shard, first
   * the reply must be ok (17403), then it must hold `stages` (17404).
   */
  function ExplainCheck(rs: seq<ShardResult>): (c: Check)
    ensures c.Pass? <==> forall i | 0 <= i < |rs| :: SupportsExplain(rs[i])
    ensures c.Fail? ==>
      exists k | 0 <= k < |rs| ::
        && (forall j | 0 <= j < k :: SupportsExplain(rs[j]))
        && !SupportsExplain(rs[k])
        && c.error == UserError(if IsOk(rs[k].result) then ShardLacksExplain else ShardFailedExplain)
  {
    if |rs| == 0 then Pass
    else if !IsOk(rs[0].result) then Fail(UserError(ShardFailedExplain))
    else if !HasField(rs[0].result, "stages") then Fail(UserError(ShardLacksExplain))
    else
      var c := ExplainCheck(rs[1..]);
      assert forall i | 0 <= i < |rs| - 1 :: rs[1..][i] == rs[i + 1];
      if c.Pass? then c
      else
        ExplainFailureShifts(rs, c.error);
        c
  }

  /** A first unsupported reply among `rs[1..]` is the first in `rs` when `rs[0]` supports explain. */
  lemma ExplainFailureShifts(rs: seq<ShardResult>, e: Error)
    requires |rs| > 0 && SupportsExplain(rs[0])
    requires exists k | 0 <= k < |rs| - 1 ::
      && (forall j | 0 <= j < k :: SupportsExplain(rs[1..][j]))
      && !SupportsExplain(rs[1..][k])
      && e == UserError(if IsOk(rs[1..][k].result) then ShardLacksExplain else ShardFailedExplain)
    ensures exists k | 0 <= k < |rs| ::
      && (forall j | 0 <= j < k :: SupportsExplain(rs[j]))
      && !SupportsExplain(rs[k])
      && e == UserError(if IsOk(rs[k].result) then ShardLacksExplain else ShardFailedExplain)
  {
    var k :| 0 <= k < |rs| - 1
             && (forall j | 0 <= j < k :: SupportsExplain(rs[1..][j]))
             && !SupportsExplain(rs[1..][k])
             && e == UserError(if IsOk(rs[1..][k].result) then ShardLacksExplain else ShardFailedExplain);
    forall j | 0 <= j < k + 1 ensures SupportsExplain(rs[j]) {
      if j > 0 {
        assert rs[j] == rs[1..][j - 1];
      }
    }
    assert rs[k + 1] == rs[1..][k];
  }
}
