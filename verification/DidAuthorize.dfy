/** Signed DID operations, their counters, and the chain that takes them. */
module DidAuthorize {
  import opened DidBatch
  import opened Wrappers

  const MAX_NONCE: nat := 0xFFFF_FFFF_FFFF_FFFF

  /** Wraps only when the current value is exactly the maximum. */
  function IncreaseNonce(current: nat, increment: nat): nat {
    if current == MAX_NONCE then increment else current + increment
  }

  /** `getNextNonce`, from the counter on chain, if the DID is there. */
  function NextNonce(onChain: Option<nat>): nat {
    IncreaseNonce(if onChain.Some? then onChain.value else 0, 1)
  }

  /** What `generateDidAuthenticatedTx` is asked to sign. */
  datatype Operation = Operation(did: string, relationship: Relationship, call: Call, txCounter: nat, submitter: string)

  datatype Submission = Single(op: Operation) | BatchOf(fn: string, ops: seq<Operation>)

  datatype Request = Request(fn: string, did: string, submitter: string, nonce: Option<nat>, onChain: Option<nat>)

  function FirstNonce(q: Request): nat {
    if q.nonce.Some? then q.nonce.value else NextNonce(q.onChain)
  }

  /** `authorizeTx`; detection may itself throw. */
  function AuthorizeTx(q: Request, extrinsic: Call): Outcome<Operation, Error> {
    match Detect(extrinsic)
    case EmptyReduce => Thrown(TypeError)
    case Found(None) => Thrown(NoKeyRelationship)
    case Found(Some(r)) => Ok(Operation(q.did, r, extrinsic, FirstNonce(q), q.submitter))
  }

  function CallOf(fn: string, g: Group): Call
    requires g.extrinsics != []
  {
    if |g.extrinsics| == 1 then g.extrinsics[0] else MakeBatch(fn, g.extrinsics)
  }

  function OperationOf(q: Request, g: Group, batchIndex: nat): Operation
    requires g.extrinsics != []
  {
    Operation(q.did, g.relationship, CallOf(q.fn, g), IncreaseNonce(FirstNonce(q), batchIndex), q.submitter)
  }

  function Operations(q: Request, gs: seq<Group>): (ops: seq<Operation>)
    requires NonEmptyGroups(gs)
    ensures |ops| == |gs|
    ensures forall i :: 0 <= i < |gs| ==> ops[i] == OperationOf(q, gs[i], i)
  {
    seq(|gs|, i requires 0 <= i < |gs| => OperationOf(q, gs[i], i))
  }

  /** The operations that `authorizeBatch` submits for `extrinsics`, or what it throws. */
  ghost function Authorized(q: Request, extrinsics: seq<Call>): Outcome<seq<Operation>, Error> {
    if extrinsics == [] then Thrown(EmptyBatch)
    else if |extrinsics| == 1 then
      match AuthorizeTx(q, extrinsics[0])
      case Thrown(e) => Thrown(e)
      case Ok(op) => Ok([op])
    else
      match Relationships(extrinsics)
      case Thrown(e) => Thrown(e)
      case Ok(rs) =>
        GroupsSplit(extrinsics, rs);
        Ok(Operations(q, Groups(extrinsics, rs)))
  }

  /** The callback of `groups.map`, group by group. */
  method SignGroups(q: Request, groups: seq<ExtrinsicGroup>) returns (batches: seq<Operation>)
    requires NonEmptyGroups(View(groups))
    ensures batches == Operations(q, View(groups))
  {
    batches := [];
    for i := 0 to |groups|
      invariant batches == Operations(q, View(groups))[..i]
    {
      var list := groups[i].extrinsics;
      assert View(groups)[i] == Group(list, groups[i].relationship);
      var call := if |list| == 1 then list[0] else MakeBatch(q.fn, list);
      var txCounter := IncreaseNonce(FirstNonce(q), i);
      batches := batches + [Operation(q.did, groups[i].relationship, call, txCounter, q.submitter)];
    }
  }

  method AuthorizeBatch(q: Request, extrinsics: seq<Call>) returns (r: Outcome<Submission, Error>)
    ensures r.Thrown? <==> Authorized(q, extrinsics).Thrown?
    ensures r.Thrown? ==> r.error == Authorized(q, extrinsics).error
    ensures r.Ok? ==> var ops := Authorized(q, extrinsics).value;
      r.value == if |ops| == 1 then Single(ops[0]) else BatchOf(q.fn, ops)
  {
    if |extrinsics| == 0 {
      return Thrown(EmptyBatch);
    }
    if |extrinsics| == 1 {
      var tx := AuthorizeTx(q, extrinsics[0]);
      if tx.Thrown? {
        return Thrown(tx.error);
      }
      return Ok(Single(tx.value));
    }
    var grouped := GroupByKeyRelationship(extrinsics);
    if grouped.Thrown? {
      return Thrown(grouped.error);
    }
    GroupsSplit(extrinsics, Relationships(extrinsics).value);
    var batches := SignGroups(q, grouped.value);
    if |batches| == 1 {
      return Ok(Single(batches[0]));
    }
    return Ok(BatchOf(q.fn, batches));
  }

  // ---------- what is signed ----------

  /** All calls of the lists, in order. */
  ghost function Joined(parts: seq<seq<Call>>): seq<Call> {
    if parts == [] then [] else Joined(parts[..|parts| - 1]) + parts[|parts| - 1]
  }

  /** A part of one call is signed as it is, any other as the batch that was asked for. */
  ghost predicate Carries(q: Request, op: Operation, part: seq<Call>) {
    && part != [] && op.call == (if |part| == 1 then part[0] else Call("utility", q.fn, Calls(part)))
    && forall c :: c in part ==> Detect(c) == Found(Some(op.relationship))
  }

  ghost function PartsOf(gs: seq<Group>): (parts: seq<seq<Call>>)
    ensures |parts| == |gs| && forall i :: 0 <= i < |gs| ==> parts[i] == gs[i].extrinsics
  {
    seq(|gs|, i requires 0 <= i < |gs| => gs[i].extrinsics)
  }

  lemma {:induction false} PartsJoined(gs: seq<Group>)
    ensures Joined(PartsOf(gs)) == Concat(gs)
  {
    if gs != [] {
      var n := |gs| - 1;
      PartsJoined(gs[..n]);
      assert PartsOf(gs)[..n] == PartsOf(gs[..n]);
    }
  }

  /**
   * Each operation carries a part of the calls, in order and all of them, as one call or one batch, signed under the
   * relationship that each of these calls has; it is for the DID and the submitter that were given.
   */
  lemma CallsCarried(q: Request, extrinsics: seq<Call>) returns (parts: seq<seq<Call>>)
    requires Authorized(q, extrinsics).Ok?
    ensures var ops := Authorized(q, extrinsics).value;
      && Joined(parts) == extrinsics && |parts| == |ops| > 0
      && forall i :: 0 <= i < |ops| ==>
        Carries(q, ops[i], parts[i]) && ops[i].did == q.did && ops[i].submitter == q.submitter
  {
    if |extrinsics| == 1 {
      parts := [extrinsics];
      assert parts[..0] == [] && Joined(parts[..0]) == [];
    } else {
      var rs := Relationships(extrinsics).value;
      var gs := Groups(extrinsics, rs);
      GroupsSplit(extrinsics, rs);
      GroupsEnd(extrinsics, rs);
      PartsJoined(gs);
      parts := PartsOf(gs);
      var ops := Operations(q, gs);
      forall i | 0 <= i < |gs|
        ensures Carries(q, ops[i], parts[i]) && ops[i].did == q.did && ops[i].submitter == q.submitter
      {
        GroupCarried(q, extrinsics, rs, gs, i);
      }
    }
  }

  lemma GroupCarried(q: Request, extrinsics: seq<Call>, rs: seq<Relationship>, gs: seq<Group>, i: nat)
    requires IsSplit(gs, extrinsics, rs) && i < |gs|
    requires forall k :: 0 <= k < |extrinsics| ==> Detect(extrinsics[k]) == Found(Some(rs[k]))
    ensures Carries(q, Operations(q, gs)[i], gs[i].extrinsics)
  {
    forall c | c in gs[i].extrinsics ensures Detect(c) == Found(Some(gs[i].relationship)) {
      var j :| 0 <= j < |gs[i].extrinsics| && gs[i].extrinsics[j] == c;
      var k := LabelsOfGroup(gs, i, j);
    }
  }

  /** A nonce that is given is that of the first operation, and the next ones count on from it. */
  lemma GivenNonceSigned(q: Request, extrinsics: seq<Call>, n: nat, i: nat)
    requires q.nonce == Some(n) && Authorized(q, extrinsics).Ok? && i < |Authorized(q, extrinsics).value|
    ensures Authorized(q, extrinsics).value[i].txCounter ==
      if |extrinsics| > 1 && n == 0xFFFF_FFFF_FFFF_FFFF then i else n + i
  {
    if |extrinsics| > 1 {
      RunCounters(q, extrinsics);
    }
  }

  /** With none given, the first is the one after the counter on chain, or 1 for a DID that is not there. */
  lemma ChainNonceSigned(q: Request, extrinsics: seq<Call>, i: nat)
    requires q.nonce == None && Authorized(q, extrinsics).Ok? && i < |Authorized(q, extrinsics).value|
    requires q.onChain == None || q.onChain.value + 1 < MAX_NONCE
    ensures Authorized(q, extrinsics).value[i].txCounter ==
      (if q.onChain.Some? then q.onChain.value + 1 else 1) + i
  {
    if |extrinsics| > 1 {
      RunCounters(q, extrinsics);
    }
  }

  /** When a batch is refused, and how: no calls, an empty batch among them, or a call without a key. */
  lemma RefusedExactly(q: Request, extrinsics: seq<Call>)
    ensures Authorized(q, extrinsics).Ok? <==> extrinsics != [] && forall c :: c in extrinsics ==> HasKey(c)
    ensures extrinsics == [] ==> Authorized(q, extrinsics) == Thrown(EmptyBatch)
    ensures |extrinsics| == 1 && HasEmptyBatch(extrinsics[0]) ==> Authorized(q, extrinsics) == Thrown(TypeError)
    ensures |extrinsics| == 1 && !HasEmptyBatch(extrinsics[0]) && !HasKey(extrinsics[0]) ==>
      Authorized(q, extrinsics) == Thrown(NoKeyRelationship)
    ensures |extrinsics| > 1 && Authorized(q, extrinsics).Thrown? ==>
      exists i :: 0 <= i < |extrinsics| && FirstWithoutKey(extrinsics, i) &&
        Authorized(q, extrinsics).error == if HasEmptyBatch(extrinsics[i]) then TypeError else BatchNeedsDidSignature
  {
    if |extrinsics| == 1 {
      DetectThrows(extrinsics[0]);
      assert extrinsics[0] in extrinsics;
    } else if |extrinsics| > 1 && Relationships(extrinsics).Thrown? {
      var i :| 0 <= i < |extrinsics| && Relationships(extrinsics).error == ErrorOf(Detect(extrinsics[i])) &&
        FirstWithoutKey(extrinsics, i);
      DetectThrows(extrinsics[i]);
      assert extrinsics[i] in extrinsics;
    } else if |extrinsics| > 1 {
      forall c | c in extrinsics ensures HasKey(c) {
        var k :| 0 <= k < |extrinsics| && extrinsics[k] == c;
      }
    }
  }

  // ---------- the chain ----------

  /** An operation is taken when its counter is the u64 after the last one taken. */
  predicate Accepts(last: nat, op: Operation) {
    op.txCounter <= MAX_NONCE && op.txCounter == last + 1
  }

  /** The last counter after taking the operations in order; none if one is refused. */
  function Run(last: nat, ops: seq<Operation>): Option<nat>
    decreases ops
  {
    if ops == [] then Some(last)
    else if Accepts(last, ops[0]) then Run(ops[0].txCounter, ops[1..])
    else None
  }

  /** Every operation is taken, and the counter ends up as many further. */
  predicate RunsThrough(last: nat, ops: seq<Operation>) {
    Run(last, ops) == Some(last + |ops|)
  }

  predicate Consecutive(last: nat, ops: seq<Operation>) {
    forall i :: 0 <= i < |ops| ==> ops[i].txCounter == last + 1 + i <= MAX_NONCE
  }

  lemma ConsecutiveTail(last: nat, ops: seq<Operation>)
    requires ops != [] && Consecutive(last, ops)
    ensures Accepts(last, ops[0]) && Consecutive(last + 1, ops[1..])
  {
    assert ops[0].txCounter == last + 1 + 0 <= MAX_NONCE;
    forall i | 0 <= i < |ops[1..]| ensures ops[1..][i].txCounter == last + 1 + 1 + i <= MAX_NONCE {
      assert ops[i + 1].txCounter == last + 1 + (i + 1) <= MAX_NONCE;
    }
  }

  lemma ConsecutiveCons(last: nat, ops: seq<Operation>)
    requires ops != [] && Accepts(last, ops[0]) && Consecutive(last + 1, ops[1..])
    ensures Consecutive(last, ops)
  {
    forall i | 0 <= i < |ops| ensures ops[i].txCounter == last + 1 + i <= MAX_NONCE {
      if i > 0 {
        assert ops[1..][i - 1].txCounter == last + 1 + 1 + (i - 1) <= MAX_NONCE;
      }
    }
  }

  lemma {:induction false} RunConsecutive(last: nat, ops: seq<Operation>)
    ensures Run(last, ops).Some? <==> Consecutive(last, ops)
    ensures Run(last, ops).Some? ==> Run(last, ops).value == last + |ops|
    decreases ops
  {
    if ops != [] {
      if Consecutive(last, ops) {
        ConsecutiveTail(last, ops);
      }
      if Accepts(last, ops[0]) {
        RunConsecutive(last + 1, ops[1..]);
        if Run(last, ops).Some? {
          ConsecutiveCons(last, ops);
        }
      }
    }
  }

  /** Where the counter on chain starts: an unknown DID counts as 0. */
  function Start(onChain: Option<nat>): nat {
    if onChain.Some? then onChain.value else 0
  }

  ghost predicate Numbered(ops: seq<Operation>, first: nat) {
    forall i :: 0 <= i < |ops| ==> ops[i].txCounter == IncreaseNonce(first, i)
  }

  /** A run over several calls numbers its operations from the first nonce on. */
  lemma RunCounters(q: Request, extrinsics: seq<Call>)
    requires |extrinsics| >= 2 && Authorized(q, extrinsics).Ok?
    ensures var ops := Authorized(q, extrinsics).value;
      ops != [] && Numbered(ops, FirstNonce(q))
  {
    var rs := Relationships(extrinsics).value;
    GroupsEnd(extrinsics, rs);
    GroupsSplit(extrinsics, rs);
  }

  lemma CountersAccepted(c: nat, ops: seq<Operation>, first: nat)
    requires ops != [] && Numbered(ops, first)
    ensures RunsThrough(c, ops) <==> first == c + 1 && c + 1 < MAX_NONCE && c + |ops| <= MAX_NONCE
  {
    RunConsecutive(c, ops);
    var n := |ops| - 1;
    assert ops[0].txCounter == IncreaseNonce(first, 0) && ops[n].txCounter == IncreaseNonce(first, n);
    if Consecutive(c, ops) {
      assert ops[0].txCounter == c + 1 + 0 <= MAX_NONCE;
      assert ops[n].txCounter == c + 1 + n <= MAX_NONCE;
    }
  }

  /**
   * From whatever first nonce, a run over several calls is taken in full exactly when that nonce is
   * next on chain, is not the maximum, and the last counter is within the u64.
   */
  lemma RunAcceptedExactly(q: Request, extrinsics: seq<Call>, c: nat)
    requires |extrinsics| >= 2 && Authorized(q, extrinsics).Ok?
    ensures var ops := Authorized(q, extrinsics).value;
      RunsThrough(c, ops) <==>
        FirstNonce(q) == c + 1 && c + 1 < MAX_NONCE && c + |ops| <= MAX_NONCE
  {
    RunCounters(q, extrinsics);
    CountersAccepted(c, Authorized(q, extrinsics).value, FirstNonce(q));
  }

  /** A run from a given nonce is taken in full exactly when the nonce is next and the counters fit. */
  lemma GivenNonceAccepted(q: Request, extrinsics: seq<Call>, n: nat, c: nat)
    requires q.nonce == Some(n) && Authorized(q, extrinsics).Ok?
    ensures var ops := Authorized(q, extrinsics).value;
      RunsThrough(c, ops) <==>
        n == c + 1 && c + |ops| < 0x1_0000_0000_0000_0000 && (|extrinsics| > 1 ==> n < 0xFFFF_FFFF_FFFF_FFFF)
  {
    var ops := Authorized(q, extrinsics).value;
    if |extrinsics| == 1 {
      RunConsecutive(c, ops);
    } else {
      RunAcceptedExactly(q, extrinsics, c);
    }
  }

  /** With the nonce left out, the first nonce is the next one, so only the bounds remain. */
  lemma BatchRunAccepted(q: Request, extrinsics: seq<Call>)
    requires q.nonce.None? && Start(q.onChain) <= MAX_NONCE
    requires |extrinsics| >= 2 && Authorized(q, extrinsics).Ok?
    ensures var c, ops := Start(q.onChain), Authorized(q, extrinsics).value;
      RunsThrough(c, ops) <==> c + 1 < MAX_NONCE && c + |ops| <= MAX_NONCE
  {
    RunAcceptedExactly(q, extrinsics, Start(q.onChain));
  }

  /** A single call skips the batch arithmetic, so it is taken right up to the maximum. */
  lemma SingleRunAccepted(q: Request, extrinsic: Call)
    requires q.nonce.None? && Start(q.onChain) <= MAX_NONCE
    requires Authorized(q, [extrinsic]).Ok?
    ensures var c, ops := Start(q.onChain), Authorized(q, [extrinsic]).value;
      |ops| == 1 && (RunsThrough(c, ops) <==> c < MAX_NONCE)
  {
    var c, ops := Start(q.onChain), Authorized(q, [extrinsic]).value;
    RunConsecutive(c, ops);
  }

  /** Once a run is over, none of its operations is taken again, then or later. */
  lemma NoReplay(c: nat, ops: seq<Operation>, later: nat, i: int)
    requires Run(c, ops).Some? && later >= Run(c, ops).value
    requires 0 <= i < |ops|
    ensures !Accepts(later, ops[i])
  {
    RunConsecutive(c, ops);
  }

  // ---------- what is executed, and who signed it ----------

  /** The calls the operations carry, flattened in order. */
  function Executed(ops: seq<Operation>): seq<Call>
    requires forall i :: 0 <= i < |ops| ==> WellTyped(ops[i].call)
  {
    if ops == [] then [] else Executed(ops[..|ops| - 1]) + FlattenCalls(ops[|ops| - 1].call)
  }

  lemma {:induction false} FlattenAllConcat(a: seq<Call>, b: seq<Call>)
    requires forall i :: 0 <= i < |a| ==> WellTyped(a[i])
    requires forall i :: 0 <= i < |b| ==> WellTyped(b[i])
    ensures forall i :: 0 <= i < |a + b| ==> WellTyped((a + b)[i])
    ensures FlattenAll(a + b) == FlattenAll(a) + FlattenAll(b)
  {
    if a == [] {
      assert a + b == b;
    } else {
      assert (a + b)[1..] == a[1..] + b;
      FlattenAllConcat(a[1..], b);
    }
  }

  lemma CallOfFlattens(fn: string, g: Group)
    requires fn in BATCH_METHODS && g.extrinsics != []
    requires forall i :: 0 <= i < |g.extrinsics| ==> WellTyped(g.extrinsics[i])
    ensures WellTyped(CallOf(fn, g))
    ensures FlattenCalls(CallOf(fn, g)) == FlattenAll(g.extrinsics)
  {
    if |g.extrinsics| == 1 {
      assert g.extrinsics == [g.extrinsics[0]] && g.extrinsics[1..] == [];
    }
  }

  lemma TypedParts(front: seq<Call>, back: seq<Call>, cs: seq<Call>)
    requires cs == front + back && forall i :: 0 <= i < |cs| ==> WellTyped(cs[i])
    ensures forall i :: 0 <= i < |front| ==> WellTyped(front[i])
    ensures forall i :: 0 <= i < |back| ==> WellTyped(back[i])
  {
    forall i | 0 <= i < |front| ensures WellTyped(front[i]) { assert front[i] == cs[i]; }
    forall i | 0 <= i < |back| ensures WellTyped(back[i]) { assert back[i] == cs[|front| + i]; }
  }

  lemma ExecutedAppend(ops: seq<Operation>, op: Operation)
    requires forall i :: 0 <= i < |ops| ==> WellTyped(ops[i].call)
    requires WellTyped(op.call)
    ensures forall i :: 0 <= i < |ops + [op]| ==> WellTyped((ops + [op])[i].call)
    ensures Executed(ops + [op]) == Executed(ops) + FlattenCalls(op.call)
  {
    assert (ops + [op])[..|ops|] == ops;
  }

  lemma {:induction false} ExecutedIs(q: Request, gs: seq<Group>, cs: seq<Call>)
    requires q.fn in BATCH_METHODS && NonEmptyGroups(gs) && Concat(gs) == cs
    requires forall i :: 0 <= i < |cs| ==> WellTyped(cs[i])
    ensures forall i :: 0 <= i < |gs| ==> WellTyped(Operations(q, gs)[i].call)
    ensures Executed(Operations(q, gs)) == FlattenAll(cs)
  {
    var n := |gs| - 1;
    if n >= 0 {
      var front, g := Concat(gs[..n]), gs[n];
      TypedParts(front, g.extrinsics, cs);
      ExecutedIs(q, gs[..n], front);
      CallOfFlattens(q.fn, g);
      FlattenAllConcat(front, g.extrinsics);
      ExecutedAppend(Operations(q, gs[..n]), OperationOf(q, g, n));
      assert Operations(q, gs) == Operations(q, gs[..n]) + [OperationOf(q, g, n)];
    }
  }

  /** The leaf calls executed are those asked for, in the same order. */
  lemma ExecutesWhatWasAsked(q: Request, extrinsics: seq<Call>)
    requires q.fn in BATCH_METHODS && Authorized(q, extrinsics).Ok?
    requires forall i :: 0 <= i < |extrinsics| ==> WellTyped(extrinsics[i])
    ensures var ops := Authorized(q, extrinsics).value;
      (forall i :: 0 <= i < |ops| ==> WellTyped(ops[i].call)) && Executed(ops) == FlattenAll(extrinsics)
  {
    if |extrinsics| == 1 {
      var ops := Authorized(q, extrinsics).value;
      assert ops[..0] == [] && extrinsics[1..] == [] && extrinsics == [extrinsics[0]];
      assert Executed(ops[..0]) == [];
    } else {
      var rs := Relationships(extrinsics).value;
      GroupsSplit(extrinsics, rs);
      ExecutedIs(q, Groups(extrinsics, rs), extrinsics);
    }
  }

  lemma {:induction false} LabelsOfGroup(gs: seq<Group>, i: int, j: int) returns (k: int)
    requires 0 <= i < |gs| && 0 <= j < |gs[i].extrinsics|
    ensures 0 <= k < |Concat(gs)| == |Labels(gs)|
    ensures Concat(gs)[k] == gs[i].extrinsics[j] && Labels(gs)[k] == gs[i].relationship
  {
    var n := |gs| - 1;
    SameLengths(gs[..n]);
    if i == n {
      k := |Concat(gs[..n])| + j;
    } else {
      k := LabelsOfGroup(gs[..n], i, j);
    }
  }

  lemma {:induction false} SameLengths(gs: seq<Group>)
    ensures |Concat(gs)| == |Labels(gs)|
  {
    if gs != [] {
      SameLengths(gs[..|gs| - 1]);
    }
  }

  lemma {:induction false} DetectBatch(fn: string, cs: seq<Call>, r: Relationship)
    requires fn in BATCH_METHODS && cs != []
    requires forall i :: 0 <= i < |cs| ==> Detect(cs[i]) == Found(Some(r))
    ensures Detect(MakeBatch(fn, cs)) == Found(Some(r))
  {
    DetectAllIs(cs);
    var rs := DetectAll(cs).value;
    ReduceIs(rs[0], rs[1..]);
    assert forall i :: 0 <= i < |rs| ==> rs[i] == Some(r);
  }

  /** Every operation is signed under the relationship its own call asks for. */
  lemma SignedAsRequired(q: Request, extrinsics: seq<Call>, i: int)
    requires q.fn in BATCH_METHODS && Authorized(q, extrinsics).Ok?
    requires 0 <= i < |Authorized(q, extrinsics).value|
    ensures var op := Authorized(q, extrinsics).value[i];
      Detect(op.call) == Found(Some(op.relationship))
  {
    if |extrinsics| > 1 {
      var rs := Relationships(extrinsics).value;
      var gs := Groups(extrinsics, rs);
      GroupsSplit(extrinsics, rs);
      var g := gs[i];
      forall j | 0 <= j < |g.extrinsics| ensures Detect(g.extrinsics[j]) == Found(Some(g.relationship)) {
        var k := LabelsOfGroup(gs, i, j);
      }
      if |g.extrinsics| > 1 {
        DetectBatch(q.fn, g.extrinsics, g.relationship);
      }
    }
  }
}
