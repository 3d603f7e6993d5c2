/** Concrete runs of the agent: what the preview flag lets an apply do, and what the kill switch does not stop. */
module AgentExamples {
  import opened Common
  import opened ByteMemory
  import opened JsonCodec
  import opened PolicyGate
  import opened HexValues
  import opened AgentApprovals
  import opened AgentMemory
  import FreezeOrder
  import FreezeProtocol
  import AgentRate
  import AuditTrail

  // ---------------------------------------------------------------- an apply nobody approved

  const TARGET := Identity(1, 1, "game", "", X64)
  const GAME := Manifest("game", "game", "", "x64", true)

  /** A request to write 9 at address 16; it carries the preview flag, and nothing says that it is approved. */
  const REQUEST := Obj([
    Member("request_id", Str("r")), Member("target_alias", Str("game")), Member("capability", Str("write")),
    Member("preview", Bool(true)), Member("expected_current_hash", Str("h")),
    Member("address", Int(16)), Member("size", Int(1)), Member("value_hex", Str("09"))])

  function Example(truncate: Truncation): Setting {
    Setting([GAME], TARGET, truncate)
  }

  lemma RequestTexts()
    ensures Get(REQUEST, "request_id") == Some(Str("r")) && Get(REQUEST, "target_alias") == Some(Str("game"))
    ensures Get(REQUEST, "capability") == Some(Str("write")) && Get(REQUEST, "expected_current_hash") == Some(Str("h"))
    ensures Get(REQUEST, "value_hex") == Some(Str("09")) && Get(REQUEST, "value_repr").None?
  {
    var m := REQUEST.members;
    LookupAt(m, 0, "request_id");
    LookupAt(m, 1, "target_alias");
    LookupAt(m, 2, "capability");
    LookupAt(m, 4, "expected_current_hash");
    LookupAt(m, 7, "value_hex");
    NoSuchKey(m, "value_repr");
  }

  lemma RequestNumbers()
    ensures Get(REQUEST, "preview") == Some(Bool(true)) && Get(REQUEST, "approved").None?
    ensures Get(REQUEST, "address") == Some(Int(16)) && Get(REQUEST, "size") == Some(Int(1))
  {
    var m := REQUEST.members;
    LookupAt(m, 3, "preview");
    LookupAt(m, 5, "address");
    LookupAt(m, 6, "size");
    NoSuchKey(m, "approved");
  }

  lemma RequestFields(truncate: Truncation)
    ensures MakeRequest(REQUEST, "apply", truncate) == MutationRequest("r", "game", CAP_WRITE, true, false, "h", 16, 1, "apply")
  {
    RequestTexts();
    RequestNumbers();
  }

  lemma RequestValue()
    ensures ValueIn(REQUEST) == Bytes([9])
  {
    RequestTexts();
    PairInFront("09", "");
    assert "09" + "" == "09" && PairValues("") == Some([]);
  }

  lemma RequestBypasses(truncate: Truncation)
    ensures AgentRate.Bypasses(Example(truncate), REQUEST)
    ensures !GetBool(REQUEST, "approved", false) && RequestId(REQUEST) == "r"
  {
    RequestFields(truncate);
    RequestValue();
    RequestTexts();
    RequestNumbers();
    assert FindManifest([GAME], "game") == Some(GAME);
  }

  /** A preview at time 1; its apply is not approved, comes long after the approval has run out, and writes. */
  lemma OverdueApplyWrites(truncate: Truncation, mem: Memory, delay: nat) returns (steps: seq<Step>)
    ensures var c, s := Example(truncate), Agent(AuditTrail.INITIAL, map[], FreezeProtocol.Init(mem));
            && |steps| == 2 && steps[0].Preview? && steps[1].Apply?
            && !GetBool(steps[1].params, "approved", false)
            && steps[1].at.token == steps[0].issued + APPROVAL_TTL + 1 + delay
            && Writes(c, Before(c, s, steps, 1), steps[1])
            && Load(Run(c, s, steps).Memory(), 16, 1) == Success([9])
  {
    var c, s := Example(truncate), Agent(AuditTrail.INITIAL, map[], FreezeProtocol.Init(mem));
    var late := 1 + APPROVAL_TTL + 1 + delay;
    var x := Step.Preview(REQUEST, Readings(1, 1, 1), 1);
    var y := Apply(REQUEST, Readings(late, late, late), FreezeProtocol.Wrote(1));
    steps := [x, y];
    RequestFields(truncate);
    RequestValue();
    RequestBypasses(truncate);
    AgentRate.FlaggedApplyWrites(c, s, REQUEST, x.at, 1, y.at, y.written);
    assert steps[..1] == [x];
    OneStep(c, s, x);
    assert Before(c, s, steps, 1) == Next(c, s, x);
    WriteBytesEffect(mem, 16, [9], y.written);
    assert Run(c, s, steps) == Next(c, Next(c, s, x), y);
  }

  // ---------------------------------------------------------------- freeze and restore under an engaged kill switch

  /** The kill switch is engaged from beginning to end; the freeze writes 7 over 1, and its restore 1 over 7. */
  lemma KilledFreezeAndRestore(c: Setting, s: Agent) returns (frozen: seq<Step>, restored: seq<Step>)
    requires s.gate.killed && s.freezer == FreezeProtocol.Init(FreezeOrder.BEFORE)
    ensures frozen <= restored && NeverReleases(restored)
    ensures Run(c, s, frozen).gate.killed && Run(c, s, restored).gate.killed
    ensures s.Memory()[16] == 1
    ensures 16 in Run(c, s, frozen).Memory() && Run(c, s, frozen).Memory()[16] == 7
    ensures 16 in Run(c, s, restored).Memory() && Run(c, s, restored).Memory()[16] == 1
  {
    var x, y, a, b := FreezeOrder.FreezeAndRestore();
    frozen, restored := Lifted(x), Lifted(y);
    LiftRun(c, s, x);
    LiftRun(c, s, y);
    assert forall step | step in restored :: step.Freezer?;
  }
}
