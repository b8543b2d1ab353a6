/** The registry of API route blocks, drawn into one route set. */
module RouteRegistry {
  import opened Wrappers

  /** A block is known by its object id. */
  type Block = int

  /** What is registered, what the registry thinks is applied, and what the route set holds. */
  datatype State = State(blocks: seq<Block>, core: Option<Block>, applied: set<Block>, drawn: seq<Block>)

  function SetOf(bs: seq<Block>): set<Block> {
    set b | b in bs
  }

  ghost predicate Distinct(bs: seq<Block>) {
    forall i, j | 0 <= i < j < |bs| :: bs[i] != bs[j]
  }

  /** How many blocks are evaluated before one turns out applied already. */
  function FreshPrefix(applied: set<Block>, bs: seq<Block>): (k: nat)
    ensures k <= |bs|
    decreases |bs|
  {
    if bs == [] || bs[0] in applied then 0 else 1 + FreshPrefix(applied + {bs[0]}, bs[1..])
  }

  /** evaluate_block! on each block in turn; a duplicate raises and leaves what was drawn. */
  function Evaluate(s: State, bs: seq<Block>): State {
    var k := FreshPrefix(s.applied, bs);
    s.(applied := s.applied + SetOf(bs[..k]), drawn := s.drawn + bs[..k])
  }

  predicate Raises(applied: set<Block>, bs: seq<Block>) {
    FreshPrefix(applied, bs) < |bs|
  }

  function All(s: State): seq<Block> {
    (if s.core.Some? then [s.core.value] else []) + s.blocks
  }

  /** draw_routes_on: lingering ids are forgotten first. */
  function DrawRoutesOn(s: State): State {
    Evaluate(s.(applied := {}), All(s))
  }

  function Pending(s: State): seq<Block> {
    Reject(s.blocks, s.applied)
  }

  function Reject(bs: seq<Block>, applied: set<Block>): seq<Block> {
    if bs == [] then []
    else if bs[0] in applied then Reject(bs[1..], applied)
    else [bs[0]] + Reject(bs[1..], applied)
  }

  // Operations

  datatype Op = Register(block: Block) | Apply | AppendPending | Reload

  /** Every block draws an API route, so the table has one as soon as a block is drawn.
      A reload clears the table and draws it again. */
  function Step(s: State, op: Op): State {
    match op
    case Register(block) => s.(blocks := s.blocks + [block])
    case Apply => if s.drawn != [] then Evaluate(s, Pending(s)) else if All(s) == [] then s else DrawRoutesOn(s)
    case AppendPending => Evaluate(s, Pending(s))
    case Reload => DrawRoutesOn(s.(drawn := []))
  }

  predicate StepRaises(s: State, op: Op) {
    match op
    case Register(_) => false
    case Apply => if s.drawn != [] then Raises(s.applied, Pending(s)) else Raises({}, All(s))
    case AppendPending => Raises(s.applied, Pending(s))
    case Reload => Raises({}, All(s))
  }

  // What the table holds

  /** No block is drawn twice, and the applied ids are those of the table. */
  ghost predicate Inv(s: State) {
    && Distinct(s.drawn)
    && s.applied == SetOf(s.drawn)
    && s.applied <= SetOf(All(s))
  }

  lemma {:induction false} FreshPrefixSpec(applied: set<Block>, bs: seq<Block>)
    ensures var k := FreshPrefix(applied, bs);
            && Distinct(bs[..k]) && (forall i | 0 <= i < k :: bs[i] !in applied)
            && (k < |bs| ==> bs[k] in applied + SetOf(bs[..k]))
    decreases |bs|
  {
    if bs != [] && bs[0] !in applied {
      FreshPrefixSpec(applied + {bs[0]}, bs[1..]);
      var k := FreshPrefix(applied, bs);
      assert bs[..k] == [bs[0]] + bs[1..][..k - 1];
      assert forall i | 0 < i < k :: bs[i] == bs[1..][i - 1];
    }
  }

  /** Evaluation raises exactly when a block comes twice or was applied before. */
  lemma RaisesIffDuplicate(applied: set<Block>, bs: seq<Block>)
    ensures Raises(applied, bs) <==> !(Distinct(bs) && forall b | b in bs :: b !in applied)
  {
    FreshPrefixSpec(applied, bs);
    var k := FreshPrefix(applied, bs);
    if k < |bs| {
      if bs[k] in SetOf(bs[..k]) {
        var i :| 0 <= i < k && bs[i] == bs[k];
      }
    } else {
      assert bs[..k] == bs;
    }
  }

  lemma {:induction false} RejectSpec(bs: seq<Block>, applied: set<Block>)
    ensures SetOf(Reject(bs, applied)) == SetOf(bs) - applied
    ensures Distinct(bs) ==> Distinct(Reject(bs, applied))
  {
    if bs != [] {
      RejectSpec(bs[1..], applied);
      assert bs == [bs[0]] + bs[1..];
      assert Distinct(bs) ==> bs[0] !in SetOf(bs[1..]);
      var rest := Reject(bs[1..], applied);
      assert SetOf(bs) == {bs[0]} + SetOf(bs[1..]);
      assert SetOf([bs[0]] + rest) == {bs[0]} + SetOf(rest);
      assert forall i | 0 <= i < |rest| :: rest[i] in SetOf(rest);
    }
  }

  lemma EvaluateKeepsInv(s: State, bs: seq<Block>)
    requires Inv(s) && SetOf(bs) <= SetOf(All(s))
    ensures Inv(Evaluate(s, bs))
    ensures !Raises(s.applied, bs) ==> SetOf(Evaluate(s, bs).drawn) == SetOf(s.drawn) + SetOf(bs)
  {
    FreshPrefixSpec(s.applied, bs);
    var k := FreshPrefix(s.applied, bs);
    assert forall i | 0 <= i < |s.drawn| :: s.drawn[i] in SetOf(s.drawn);
    assert SetOf(s.drawn + bs[..k]) == SetOf(s.drawn) + SetOf(bs[..k]);
    assert forall b | b in bs[..k] :: b in bs;
    if k == |bs| {
      assert bs[..k] == bs;
    }
  }

  lemma PendingKnown(s: State)
    ensures SetOf(Pending(s)) <= SetOf(All(s))
    ensures SetOf(Pending(s)) == SetOf(s.blocks) - s.applied
  {
    RejectSpec(s.blocks, s.applied);
  }

  lemma StepKeepsInv(s: State, op: Op)
    requires Inv(s)
    ensures Inv(Step(s, op))
  {
    match op
    case Register(block) =>
      assert SetOf(All(s)) <= SetOf(All(Step(s, op)));
    case AppendPending =>
      PendingKnown(s);
      EvaluateKeepsInv(s, Pending(s));
    case Reload =>
      EvaluateKeepsInv(s.(drawn := [], applied := {}), All(s));
    case Apply =>
      PendingKnown(s);
      if s.drawn != [] {
        EvaluateKeepsInv(s, Pending(s));
      } else if All(s) != [] {
        EvaluateKeepsInv(s.(drawn := [], applied := {}), All(s));
      }
  }

  ghost predicate Run(states: seq<State>, ops: seq<Op>) {
    && |states| == |ops| + 1
    && states[0].blocks == [] && states[0].applied == {} && states[0].drawn == []
    && forall i | 0 <= i < |ops| :: states[i + 1] == Step(states[i], ops[i])
  }

  /** Over every run, raising steps included, no block is drawn twice into the table. */
  lemma {:induction false} RunKeepsInv(states: seq<State>, ops: seq<Op>, k: nat)
    requires Run(states, ops) && k <= |ops|
    ensures Inv(states[k])
  {
    if k > 0 {
      RunKeepsInv(states, ops, k - 1);
      StepKeepsInv(states[k - 1], ops[k - 1]);
    }
  }

  /** The blocks registered in the run's first k steps, in order. */
  function Registered(ops: seq<Op>, k: nat): seq<Block>
    requires k <= |ops|
  {
    if k == 0 then []
    else Registered(ops, k - 1) + match ops[k - 1] case Register(block) => [block] case _ => []
  }

  /** Over every run the registry holds the blocks registered, in order, and the table nothing but them and the
      core block. */
  lemma {:induction false} RunKeepsRegistered(states: seq<State>, ops: seq<Op>, k: nat)
    requires Run(states, ops) && k <= |ops|
    ensures states[k].blocks == Registered(ops, k) && states[k].core == states[0].core
    ensures forall b | b in states[k].drawn :: b in Registered(ops, k) || states[k].core == Some(b)
  {
    hide Step, Inv;
    if k > 0 {
      RunKeepsRegistered(states, ops, k - 1);
      StepRegisters(states[k - 1], ops[k - 1]);
    }
    RunKeepsInv(states, ops, k);
    DrawnIsKnown(states[k]);
  }

  lemma StepRegisters(s: State, op: Op)
    ensures Step(s, op).core == s.core
    ensures Step(s, op).blocks == s.blocks + match op case Register(block) => [block] case _ => []
  {
  }

  lemma DrawnIsKnown(s: State)
    requires Inv(s)
    ensures forall b | b in s.drawn :: b in s.blocks || s.core == Some(b)
  {
    forall b | b in s.drawn ensures b in s.blocks || s.core == Some(b) {
      assert b in SetOf(s.drawn) && b in SetOf(All(s));
    }
  }

  /** After a draw that did not raise, the table holds the registered blocks, and the core block
      when it was there already or the draw started from an empty table and was no bare append. */
  lemma DrawnIsRegistered(s: State, op: Op)
    requires Inv(s) && !op.Register? && !StepRaises(s, op)
    ensures var redrawn := op == Reload || (op == Apply && s.drawn == []);
            SetOf(Step(s, op).drawn)
              == SetOf(s.blocks) + (if redrawn then SetOf(All(s)) else SetOf(s.drawn) * SetOf(All(s)))
  {
    PendingKnown(s);
    if op == AppendPending || (op == Apply && s.drawn != []) {
      EvaluateKeepsInv(s, Pending(s));
    } else {
      EvaluateKeepsInv(s.(drawn := [], applied := {}), All(s));
    }
  }

  /** With distinct blocks nothing ever raises. */
  lemma DistinctNeverRaises(s: State, op: Op)
    requires Inv(s) && Distinct(All(s))
    ensures !StepRaises(s, op)
  {
    RejectSpec(s.blocks, s.applied);
    assert Distinct(s.blocks) by {
      assert forall i | 0 <= i < |s.blocks| :: All(s)[|All(s)| - |s.blocks| + i] == s.blocks[i];
    }
    RaisesIffDuplicate(s.applied, Pending(s));
    assert forall b | b in Pending(s) :: b in SetOf(Pending(s));
    RaisesIffDuplicate({}, All(s));
  }

  lemma EmptySetOf(bs: seq<Block>)
    ensures SetOf(bs) == {} <==> bs == []
  {
    if bs != [] {
      assert bs[0] in SetOf(bs);
    }
  }

  lemma {:induction false} PendingFresh(bs: seq<Block>, applied: set<Block>)
    ensures forall b | b in Reject(bs, applied) :: b !in applied
  {
    if bs != [] {
      PendingFresh(bs[1..], applied);
    }
  }

  lemma EmptyEvaluation(s: State)
    requires Pending(s) == []
    ensures Evaluate(s, Pending(s)) == s
  {
    assert s.drawn + [] == s.drawn && s.applied + SetOf([]) == s.applied;
  }

  /** Appending twice is appending once exactly when no new block waits behind the first duplicate. */
  lemma AppendIdempotentIff(s: State)
    requires Inv(s)
    ensures var bs := Pending(s);
            Step(Step(s, AppendPending), AppendPending) == Step(s, AppendPending)
            <==> SetOf(bs) <= SetOf(bs[..FreshPrefix(s.applied, bs)])
  {
    var bs := Pending(s);
    var drew := bs[..FreshPrefix(s.applied, bs)];
    var s' := Step(s, AppendPending);
    var bs' := Pending(s');
    PendingKnown(s);
    PendingKnown(s');
    PendingFresh(s.blocks, s'.applied);
    assert s'.applied == s.applied + SetOf(drew);
    assert SetOf(bs') == SetOf(bs) - SetOf(drew);
    EmptySetOf(bs');
    if bs' == [] {
      EmptyEvaluation(s');
    } else {
      assert bs'[0] !in s'.applied;
      assert |Step(s', AppendPending).drawn| > |s'.drawn|;
    }
  }

  /** A raising append stops short: the next one draws more. */
  lemma AppendAfterRaise()
    ensures var s := State([1, 1, 2], None, {}, []);
            && StepRaises(s, AppendPending)
            && Step(s, AppendPending).drawn == [1]
            && Step(Step(s, AppendPending), AppendPending).drawn == [1, 2]
  {
  }

  // The registry

  class RouteRegistry {
    var blocks: seq<Block>
    var core: Option<Block>
    var applied: set<Block>
    var drawn: seq<Block>

    constructor (core: Option<Block>)
      ensures Snapshot() == State([], core, {}, [])
    {
      this.core := core;
      blocks, applied, drawn := [], {}, [];
    }

    ghost function Snapshot(): State
      reads this
    {
      State(blocks, core, applied, drawn)
    }

    method DrawApiRoutes(block: Block)
      modifies `blocks
      ensures Snapshot() == Step(old(Snapshot()), Register(block))
    {
      blocks := blocks + [block];
    }

    /** Evaluates blocks until one raises. */
    method EvaluateBlocks(bs: seq<Block>) returns (raised: bool)
      modifies `applied, `drawn
      ensures Snapshot() == Evaluate(old(Snapshot()), bs) && raised == Raises(old(applied), bs)
    {
      var i := 0;
      while i < |bs|
        invariant 0 <= i <= |bs|
        invariant applied == old(applied) + SetOf(bs[..i]) && drawn == old(drawn) + bs[..i]
        invariant FreshPrefix(old(applied), bs) == i + FreshPrefix(applied, bs[i..])
      {
        if bs[i] in applied {
          return true;
        }
        drawn := drawn + [bs[i]];
        applied := applied + {bs[i]};
        assert bs[i..][1..] == bs[i + 1..] && bs[..i + 1] == bs[..i] + [bs[i]];
        i := i + 1;
      }
      raised := false;
    }

    method DrawRoutesOnTable() returns (raised: bool)
      modifies `applied, `drawn
      ensures Snapshot() == DrawRoutesOn(old(Snapshot()))
      ensures raised == Raises({}, All(old(Snapshot())))
    {
      applied := {};
      raised := EvaluateBlocks((if core.Some? then [core.value] else []) + blocks);
    }

    method Append() returns (raised: bool)
      modifies `applied, `drawn
      ensures Snapshot() == Step(old(Snapshot()), AppendPending)
      ensures raised == StepRaises(old(Snapshot()), AppendPending)
    {
      raised := EvaluateBlocks(Reject(blocks, applied));
    }

    method ApplyTo() returns (raised: bool)
      modifies `applied, `drawn
      ensures Snapshot() == Step(old(Snapshot()), Apply)
      ensures raised == StepRaises(old(Snapshot()), Apply)
    {
      if drawn != [] {
        raised := Append();
        return;
      }
      if core.None? && blocks == [] {
        return false;
      }
      raised := DrawRoutesOnTable();
    }

    method ReloadTable() returns (raised: bool)
      modifies `applied, `drawn
      ensures Snapshot() == Step(old(Snapshot()), Reload)
      ensures raised == StepRaises(old(Snapshot()), Reload)
    {
      drawn := [];
      raised := DrawRoutesOnTable();
    }
  }
}
