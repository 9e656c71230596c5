/** Which key must sign a call, how a list of calls is split into batches, and how the chain takes them. */
module DidBatch {
  import opened Wrappers

  // ---------- calls ----------

  /** A call's first argument, as far as it matters here: a list of calls, or something else. */
  datatype Arg = Calls(calls: seq<Call>) | Other

  datatype Call = Call(section: string, method_: string, arg0: Arg)

  const BATCH_METHODS := ["batch", "batchAll", "forceBatch"]

  predicate IsBatch(c: Call) {
    c.section == "utility" && c.method_ in BATCH_METHODS
  }

  /** The chain's metadata gives every batch a list of calls. */
  ghost predicate WellTyped(c: Call)
    decreases c
  {
    IsBatch(c) ==> c.arg0.Calls? && forall i :: 0 <= i < |c.arg0.calls| ==> WellTyped(c.arg0.calls[i])
  }

  /** `batchFunction(list)`. */
  function MakeBatch(fn: string, calls: seq<Call>): Call {
    Call("utility", fn, Calls(calls))
  }

  /** The calls that are not batches, depth first. */
  function FlattenCalls(c: Call): seq<Call>
    requires WellTyped(c)
    decreases c, 0
  {
    if IsBatch(c) then FlattenAll(c.arg0.calls) else [c]
  }

  function FlattenAll(cs: seq<Call>): seq<Call>
    requires forall i :: 0 <= i < |cs| ==> WellTyped(cs[i])
    decreases cs, 1
  {
    if cs == [] then [] else FlattenCalls(cs[0]) + FlattenAll(cs[1..])
  }

  /** Nested batches are flattened depth first: `[[n1, n2], [n3, [n4, n5], n6]]` to `n1` up to `n6`. */
  lemma FlattenedDepthFirst(n: seq<Call>)
    requires |n| == 6 && forall i :: 0 <= i < 6 ==> !IsBatch(n[i])
    ensures var b := (cs: seq<Call>) => MakeBatch("batch", cs);
      var c := b([b([n[0], n[1]]), b([n[2], b([n[3], n[4]]), n[5]])]);
      WellTyped(c) && FlattenCalls(c) == n
  {
    var x, y := MakeBatch("batch", [n[0], n[1]]), MakeBatch("batch", [n[3], n[4]]);
    var z := MakeBatch("batch", [n[2], y, n[5]]);
    FlattenTwo(n[0], n[1]);
    FlattenTwo(n[3], n[4]);
    FlattenTwo(y, n[5]);
    assert FlattenCalls(x) == [n[0], n[1]] && FlattenCalls(y) == [n[3], n[4]];
    FlattenThree(n[2], y, n[5]);
    assert FlattenCalls(z) == [n[2]] + ([n[3], n[4]] + [n[5]]);
    FlattenTwo(x, z);
    assert n == [n[0], n[1]] + ([n[2]] + ([n[3], n[4]] + [n[5]]));
  }

  lemma FlattenThree(a: Call, b: Call, c: Call)
    requires WellTyped(a) && WellTyped(b) && WellTyped(c)
    ensures FlattenAll([a, b, c]) == FlattenCalls(a) + (FlattenCalls(b) + FlattenCalls(c))
  {
    assert [a, b, c][1..] == [b, c];
    FlattenTwo(b, c);
  }

  lemma FlattenTwo(a: Call, b: Call)
    requires WellTyped(a) && WellTyped(b)
    ensures FlattenAll([a, b]) == FlattenCalls(a) + FlattenCalls(b)
  {
    assert [a, b][1..] == [b] && [b][1..] == [];
    assert FlattenAll([b]) == FlattenCalls(b);
  }

  // ---------- key relationships ----------

  datatype Relationship = Authentication | AssertionMethod | CapabilityDelegation

  /** An entry of the mapping may be present and still name no relationship. */
  function MethodMapping(key: string): Option<Option<Relationship>> {
    if key == "stream" || key == "schema" then Some(Some(AssertionMethod))
    else if key == "registry.addAdminDelegate" || key == "registry.addDelegate" || key == "registry.removeDelegate" then
      Some(Some(CapabilityDelegation))
    else if key == "registry.create" || key == "registry.archive" || key == "registry.restore" then
      Some(Some(AssertionMethod))
    else if key == "did" || key == "didLookup" || key == "didNames" then Some(Some(Authentication))
    else if key == "did.create" || key == "did.submitDidCall" then Some(None)
    else None
  }

  /** The relationship of a call that is not a batch: by section and method first, then by section. */
  function LeafRelationship(c: Call): Option<Relationship> {
    var exact := MethodMapping(c.section + "." + c.method_);
    if exact.Some? then exact.value
    else
      var general := MethodMapping(c.section);
      if general.Some? then general.value else None
  }

  lemma DotSplits(s: string, m: string, t: string, n: string)
    requires '.' !in s && '.' !in t
    ensures s + "." + m == t + "." + n <==> s == t && m == n
  {
    var u, v := s + "." + m, t + "." + n;
    if u == v {
      assert u[|s|] == '.' && v[|t|] == '.';
      assert forall i :: 0 <= i < |s| ==> u[i] == s[i] && s[i] in s;
      assert forall i :: 0 <= i < |t| ==> v[i] == t[i] && t[i] in t;
      assert |s| == |t|;
      assert u[..|s|] == s && v[..|t|] == t && u[|s| + 1..] == m && v[|t| + 1..] == n;
    }
  }

  lemma DotInside(s: string, m: string)
    ensures '.' in s + "." + m
  {
    assert (s + "." + m)[|s|] == '.';
  }

  lemma EntryKey(s: string, m: string, key: string, t: string, n: string)
    requires '.' !in s && '.' !in t && key == t + "." + n
    ensures s + "." + m == key <==> s == t && m == n
  {
    DotSplits(s, m, t, n);
  }

  lemma RegistryDelegates(s: string, m: string)
    requires '.' !in s
    ensures s + "." + m == "registry.addAdminDelegate" <==> s == "registry" && m == "addAdminDelegate"
    ensures s + "." + m == "registry.addDelegate" <==> s == "registry" && m == "addDelegate"
    ensures s + "." + m == "registry.removeDelegate" <==> s == "registry" && m == "removeDelegate"
  {
    EntryKey(s, m, "registry.addAdminDelegate", "registry", "addAdminDelegate");
    EntryKey(s, m, "registry.addDelegate", "registry", "addDelegate");
    EntryKey(s, m, "registry.removeDelegate", "registry", "removeDelegate");
  }

  lemma RegistryOthers(s: string, m: string)
    requires '.' !in s
    ensures s + "." + m == "registry.create" <==> s == "registry" && m == "create"
    ensures s + "." + m == "registry.archive" <==> s == "registry" && m == "archive"
    ensures s + "." + m == "registry.restore" <==> s == "registry" && m == "restore"
  {
    EntryKey(s, m, "registry.create", "registry", "create");
    EntryKey(s, m, "registry.archive", "registry", "archive");
    EntryKey(s, m, "registry.restore", "registry", "restore");
  }

  lemma DidEntries(s: string, m: string)
    requires '.' !in s
    ensures s + "." + m == "did.create" <==> s == "did" && m == "create"
    ensures s + "." + m == "did.submitDidCall" <==> s == "did" && m == "submitDidCall"
  {
    EntryKey(s, m, "did.create", "did", "create");
    EntryKey(s, m, "did.submitDidCall", "did", "submitDidCall");
  }

  lemma SectionKeys(key: string)
    requires '.' in key
    ensures key != "stream" && key != "schema" && key != "did" && key != "didLookup" && key != "didNames"
  {
    assert '.' !in "stream" && '.' !in "schema" && '.' !in "did" && '.' !in "didLookup" && '.' !in "didNames";
  }

  /** What the exact entries say of a section and a method. */
  lemma ExactEntries(s: string, m: string)
    requires '.' !in s
    ensures MethodMapping(s + "." + m) ==
      if s == "registry" && (m == "addAdminDelegate" || m == "addDelegate" || m == "removeDelegate") then
        Some(Some(CapabilityDelegation))
      else if s == "registry" && (m == "create" || m == "archive" || m == "restore") then Some(Some(AssertionMethod))
      else if s == "did" && (m == "create" || m == "submitDidCall") then Some(None)
      else None
  {
    RegistryDelegates(s, m);
    RegistryOthers(s, m);
    DidEntries(s, m);
    DotInside(s, m);
    SectionKeys(s + "." + m);
  }

  /** Which key a call needs, section by section; the creation of a DID and a submitted call need none. */
  lemma LeafRelationships(c: Call)
    requires '.' !in c.section
    ensures var s, m := c.section, c.method_;
      LeafRelationship(c) ==
      if s == "stream" || s == "schema" then Some(AssertionMethod)
      else if s == "registry" && (m == "addAdminDelegate" || m == "addDelegate" || m == "removeDelegate") then
        Some(CapabilityDelegation)
      else if s == "registry" && (m == "create" || m == "archive" || m == "restore") then Some(AssertionMethod)
      else if s == "did" && m != "create" && m != "submitDidCall" then Some(Authentication)
      else if s == "didLookup" || s == "didNames" then Some(Authentication)
      else None
  {
    ExactEntries(c.section, c.method_);
    DottedKeys(c.section);
  }

  lemma DottedKeys(s: string)
    requires '.' !in s
    ensures MethodMapping(s) ==
      if s == "stream" || s == "schema" then Some(Some(AssertionMethod))
      else if s == "did" || s == "didLookup" || s == "didNames" then Some(Some(Authentication))
      else None
  {
    DotInside("registry", "addAdminDelegate");
    DotInside("registry", "addDelegate");
    DotInside("registry", "removeDelegate");
    DotInside("registry", "create");
    DotInside("registry", "archive");
    DotInside("registry", "restore");
    DotInside("did", "create");
    DotInside("did", "submitDidCall");
  }

  /** Batches are the three calls of the utility section. */
  lemma BatchCalls(c: Call)
    ensures IsBatch(c) <==>
      c.section == "utility" && (c.method_ == "batch" || c.method_ == "batchAll" || c.method_ == "forceBatch")
  {
  }

  /** A relationship or none; or the TypeError of reducing an empty list. */
  datatype Detected = Found(relationship: Option<Relationship>) | EmptyReduce

  function Detect(c: Call): Detected
    decreases c, 0
  {
    if IsBatch(c) && c.arg0.Calls? then
      var rs := DetectAll(c.arg0.calls);
      if rs.None? || rs.value == [] then EmptyReduce else Found(Reduce(rs.value[0], rs.value[1..]))
    else Found(LeafRelationship(c))
  }

  /** `.map(getKeyRelationshipForMethod)`; none if one of the calls throws. */
  function DetectAll(cs: seq<Call>): (r: Option<seq<Option<Relationship>>>)
    ensures r.Some? ==> |r.value| == |cs|
    decreases cs, 1
  {
    if cs == [] then Some([])
    else
      var head, tail := Detect(cs[0]), DetectAll(cs[1..]);
      if head.EmptyReduce? || tail.None? then None else Some([head.relationship] + tail.value)
  }

  /** `.reduce((prev, value) => (prev === value ? prev : undefined))` from `prev`. */
  function Reduce(prev: Option<Relationship>, rest: seq<Option<Relationship>>): Option<Relationship>
    decreases rest
  {
    if rest == [] then prev else Reduce(if prev == rest[0] then prev else None, rest[1..])
  }

  // ---------- detection against the leaves ----------

  ghost predicate HasEmptyBatch(c: Call)
    decreases c
  {
    IsBatch(c) && c.arg0.Calls? &&
    (c.arg0.calls == [] || exists i :: 0 <= i < |c.arg0.calls| && HasEmptyBatch(c.arg0.calls[i]))
  }

  ghost predicate AllLeaves(cs: seq<Call>, r: Option<Relationship>) {
    forall l :: l in cs ==> LeafRelationship(l) == r
  }

  lemma {:induction false} ReduceIs(prev: Option<Relationship>, rest: seq<Option<Relationship>>)
    ensures Reduce(prev, rest) == if forall r :: r in rest ==> r == prev then prev else None
    decreases rest
  {
    if rest != [] {
      if prev == rest[0] {
        ReduceIs(prev, rest[1..]);
        forall r | r in rest ensures r == rest[0] || r in rest[1..] {
          var i :| 0 <= i < |rest| && rest[i] == r;
          assert i > 0 ==> rest[1..][i - 1] == r;
        }
        forall r | r in rest[1..] ensures r in rest {
          var i :| 0 <= i < |rest[1..]| && rest[1..][i] == r;
          assert rest[i + 1] == r;
        }
      } else {
        ReduceIs(None, rest[1..]);
        assert rest[0] in rest;
      }
    }
  }

  lemma {:induction false} FlattenAllMember(cs: seq<Call>, l: Call)
    requires forall i :: 0 <= i < |cs| ==> WellTyped(cs[i])
    ensures l in FlattenAll(cs) <==> exists i :: 0 <= i < |cs| && l in FlattenCalls(cs[i])
  {
    if cs != [] {
      FlattenAllMember(cs[1..], l);
      if i :| 0 <= i < |cs[1..]| && l in FlattenCalls(cs[1..][i]) {
        assert l in FlattenCalls(cs[i + 1]);
      }
      if i :| 0 <= i < |cs| && l in FlattenCalls(cs[i]) && i > 0 {
        assert cs[1..][i - 1] == cs[i];
      }
    }
  }

  lemma {:induction false} DetectAllIs(cs: seq<Call>)
    ensures DetectAll(cs).None? <==> exists i :: 0 <= i < |cs| && Detect(cs[i]).EmptyReduce?
    ensures DetectAll(cs).Some? ==> forall i :: 0 <= i < |cs| ==> Detect(cs[i]) == Found(DetectAll(cs).value[i])
  {
    if cs != [] {
      var rest := cs[1..];
      DetectAllIs(rest);
      if DetectAll(cs).Some? {
        forall i | 0 <= i < |cs| ensures Detect(cs[i]) == Found(DetectAll(cs).value[i]) {
          assert i > 0 ==> cs[i] == rest[i - 1];
        }
      } else if Detect(cs[0]).Found? {
        var i :| 0 <= i < |rest| && Detect(rest[i]).EmptyReduce?;
        assert Detect(cs[i + 1]).EmptyReduce?;
      }
    }
  }

  /** Detection throws exactly on an empty batch, at any depth. */
  lemma {:induction false} DetectThrows(c: Call)
    ensures Detect(c).EmptyReduce? <==> HasEmptyBatch(c)
    decreases c
  {
    if IsBatch(c) && c.arg0.Calls? {
      var cs := c.arg0.calls;
      DetectAllIs(cs);
      forall i | 0 <= i < |cs| ensures Detect(cs[i]).EmptyReduce? <==> HasEmptyBatch(cs[i]) {
        DetectThrows(cs[i]);
      }
    }
  }

  /** A call without empty batches has leaves. */
  lemma {:induction false} HasLeaf(c: Call)
    requires WellTyped(c) && !HasEmptyBatch(c)
    ensures FlattenCalls(c) != []
    decreases c
  {
    if IsBatch(c) {
      assert !HasEmptyBatch(c.arg0.calls[0]);
      HasLeaf(c.arg0.calls[0]);
    }
  }

  /**
   * On a call tree without empty batches, detection is the leaves' common relationship, and nothing
   * when they differ or have none.
   */
  lemma {:induction false} DetectIsCommon(c: Call)
    requires WellTyped(c) && !HasEmptyBatch(c)
    ensures Detect(c).Found?
    ensures forall r: Relationship :: Detect(c) == Found(Some(r)) <==> AllLeaves(FlattenCalls(c), Some(r))
    decreases c
  {
    if IsBatch(c) {
      var cs := c.arg0.calls;
      DetectThrows(c);
      DetectAllIs(cs);
      var rs := DetectAll(cs).value;
      ReduceIs(rs[0], rs[1..]);
      forall i | 0 <= i < |cs|
        ensures forall r: Relationship :: rs[i] == Some(r) <==> AllLeaves(FlattenCalls(cs[i]), Some(r))
        ensures FlattenCalls(cs[i]) != []
      {
        assert !HasEmptyBatch(cs[i]);
        DetectIsCommon(cs[i]);
        HasLeaf(cs[i]);
      }
      forall r: Relationship
        ensures Detect(c) == Found(Some(r)) <==> AllLeaves(FlattenCalls(c), Some(r))
      {
        CommonOfParts(cs, rs, r);
      }
    } else {
      assert FlattenCalls(c) == [c];
    }
  }

  lemma {:induction false} CommonOfParts(cs: seq<Call>, rs: seq<Option<Relationship>>, r: Relationship)
    requires cs != [] && |rs| == |cs| && forall i :: 0 <= i < |cs| ==> WellTyped(cs[i])
    requires forall i :: 0 <= i < |cs| ==> (rs[i] == Some(r) <==> AllLeaves(FlattenCalls(cs[i]), Some(r)))
    ensures Reduce(rs[0], rs[1..]) == Some(r) <==> AllLeaves(FlattenAll(cs), Some(r))
  {
    ReduceIs(rs[0], rs[1..]);
    if Reduce(rs[0], rs[1..]) == Some(r) {
      forall l | l in FlattenAll(cs) ensures LeafRelationship(l) == Some(r) {
        FlattenAllMember(cs, l);
        var i :| 0 <= i < |cs| && l in FlattenCalls(cs[i]);
        assert i > 0 ==> rs[1..][i - 1] in rs[1..];
        assert rs[i] == Some(r);
      }
    }
    if AllLeaves(FlattenAll(cs), Some(r)) {
      forall i | 0 <= i < |cs| ensures rs[i] == Some(r) {
        forall l | l in FlattenCalls(cs[i]) ensures LeafRelationship(l) == Some(r) {
          FlattenAllMember(cs, l);
        }
      }
      assert forall x :: x in rs[1..] ==> x in rs;
    }
  }

  /** Nothing is detected exactly when two leaves differ or a leaf has no relationship. */
  lemma {:induction false} DetectNothing(c: Call)
    requires WellTyped(c) && !HasEmptyBatch(c)
    ensures Detect(c) == Found(None) <==>
      exists l, m :: l in FlattenCalls(c) && m in FlattenCalls(c) &&
        (LeafRelationship(l) != LeafRelationship(m) || LeafRelationship(l).None?)
  {
    DetectIsCommon(c);
    HasLeaf(c);
    var first := FlattenCalls(c)[0];
    if Detect(c) == Found(None) {
      if LeafRelationship(first).Some? {
        assert !AllLeaves(FlattenCalls(c), LeafRelationship(first));
      }
    } else {
      assert AllLeaves(FlattenCalls(c), Detect(c).relationship);
    }
  }

  // ---------- grouping ----------

  datatype Error = TypeError | BatchNeedsDidSignature | NoKeyRelationship | EmptyBatch

  datatype Group = Group(extrinsics: seq<Call>, relationship: Relationship)

  /** What a call that has no relationship throws. */
  function ErrorOf(d: Detected): Error {
    if d.EmptyReduce? then TypeError else BatchNeedsDidSignature
  }

  predicate HasKey(c: Call) {
    Detect(c).Found? && Detect(c).relationship.Some?
  }

  /** Position `i` holds the first call without a relationship. */
  predicate FirstWithoutKey(cs: seq<Call>, i: nat)
    requires i < |cs|
  {
    !HasKey(cs[i]) && forall j :: 0 <= j < i ==> HasKey(cs[j])
  }

  /** The relationship of every call, or what the first call without one throws. */
  function Relationships(cs: seq<Call>): (r: Outcome<seq<Relationship>, Error>)
    ensures r.Ok? ==> |r.value| == |cs| && forall i :: 0 <= i < |cs| ==> Detect(cs[i]) == Found(Some(r.value[i]))
    ensures r.Thrown? ==> exists i :: 0 <= i < |cs| && r.error == ErrorOf(Detect(cs[i])) && FirstWithoutKey(cs, i)
  {
    if cs == [] then Ok([])
    else
      match Detect(cs[0])
      case EmptyReduce => Thrown(TypeError)
      case Found(None) => Thrown(BatchNeedsDidSignature)
      case Found(Some(r)) =>
        var tail := Relationships(cs[1..]);
        if tail.Ok? then Ok([r] + tail.value) else tail
  }

  function Extend(gs: seq<Group>, c: Call, r: Relationship): seq<Group> {
    var n := |gs|;
    if n > 0 && gs[n - 1].relationship == r then gs[..n - 1] + [Group(gs[n - 1].extrinsics + [c], r)]
    else gs + [Group([c], r)]
  }

  /** The groups the loop has built after looking at all of `cs`. */
  function Groups(cs: seq<Call>, rs: seq<Relationship>): seq<Group>
    requires |cs| == |rs|
  {
    var n := |cs|;
    if n == 0 then [] else Extend(Groups(cs[..n - 1], rs[..n - 1]), cs[n - 1], rs[n - 1])
  }

  class ExtrinsicGroup {
    var extrinsics: seq<Call>
    const relationship: Relationship

    constructor (extrinsic: Call, relationship: Relationship)
      ensures this.extrinsics == [extrinsic] && this.relationship == relationship
    {
      this.extrinsics := [extrinsic];
      this.relationship := relationship;
    }
  }

  ghost function View(gs: seq<ExtrinsicGroup>): (v: seq<Group>)
    reads gs
    ensures |v| == |gs|
  {
    seq(|gs|, i requires 0 <= i < |gs| reads gs => Group(gs[i].extrinsics, gs[i].relationship))
  }

  ghost predicate AllDistinct(gs: seq<ExtrinsicGroup>) {
    forall j, k :: 0 <= j < k < |gs| ==> gs[j] != gs[k]
  }

  /** The callback of `rest.forEach`: the call joins the current group, or opens a new one. */
  method AddExtrinsic(groups: seq<ExtrinsicGroup>, extrinsic: Call, relationship: Relationship)
    returns (r: seq<ExtrinsicGroup>)
    requires groups != [] && AllDistinct(groups)
    modifies groups[|groups| - 1]
    ensures AllDistinct(r) && |groups| <= |r| && forall k :: 0 <= k < |groups| ==> r[k] == groups[k]
    ensures forall k :: |groups| <= k < |r| ==> fresh(r[k])
    ensures View(r) == Extend(old(View(groups)), extrinsic, relationship)
  {
    var current := groups[|groups| - 1];
    if relationship == current.relationship {
      current.extrinsics := current.extrinsics + [extrinsic];
      r := groups;
    } else {
      var g := new ExtrinsicGroup(extrinsic, relationship);
      r := groups + [g];
    }
    assert |View(r)| == |Extend(old(View(groups)), extrinsic, relationship)|;
  }

  lemma GroupsStep(cs: seq<Call>, rs: seq<Relationship>, i: nat)
    requires |cs| == |rs| && i < |cs|
    ensures Groups(cs[..i + 1], rs[..i + 1]) == Extend(Groups(cs[..i], rs[..i]), cs[i], rs[i])
    ensures Groups(cs[..0], rs[..0]) == []
  {
    assert cs[..i + 1][..i] == cs[..i] && rs[..i + 1][..i] == rs[..i];
  }

  method GroupByKeyRelationship(extrinsics: seq<Call>) returns (r: Outcome<seq<ExtrinsicGroup>, Error>)
    ensures r.Thrown? <==> extrinsics == [] || Relationships(extrinsics).Thrown?
    ensures r.Thrown? ==> r.error == if extrinsics == [] then TypeError else Relationships(extrinsics).error
    ensures r.Ok? ==> fresh(r.value) && View(r.value) == Groups(extrinsics, Relationships(extrinsics).value)
  {
    var keyed := Relationships(extrinsics);
    if keyed.Thrown? {
      return Thrown(keyed.error);
    }
    if extrinsics == [] {
      return Thrown(TypeError);
    }
    var rs := keyed.value;
    var first := new ExtrinsicGroup(extrinsics[0], rs[0]);
    var groups := [first];
    GroupsStep(extrinsics, rs, 0);
    for i := 1 to |extrinsics|
      invariant groups != [] && AllDistinct(groups)
      invariant forall k :: 0 <= k < |groups| ==> fresh(groups[k])
      invariant View(groups) == Groups(extrinsics[..i], rs[..i])
    {
      GroupsStep(extrinsics, rs, i);
      groups := AddExtrinsic(groups, extrinsics[i], rs[i]);
    }
    assert extrinsics[..|extrinsics|] == extrinsics && rs[..|extrinsics|] == rs;
    return Ok(groups);
  }

  // ---------- the grouping is a split, and the shortest one ----------

  function Concat(gs: seq<Group>): seq<Call> {
    if gs == [] then [] else Concat(gs[..|gs| - 1]) + gs[|gs| - 1].extrinsics
  }

  ghost predicate NonEmptyGroups(gs: seq<Group>) {
    forall i :: 0 <= i < |gs| ==> gs[i].extrinsics != []
  }

  /** Non-empty groups, each under one relationship, that together are `cs` in order. */
  ghost predicate IsSplit(gs: seq<Group>, cs: seq<Call>, rs: seq<Relationship>) {
    Concat(gs) == cs && |rs| == |cs| && Labels(gs) == rs && NonEmptyGroups(gs)
  }

  /** The relationship of each call's group. */
  ghost function Labels(gs: seq<Group>): seq<Relationship> {
    if gs == [] then []
    else Labels(gs[..|gs| - 1]) + seq(|gs[|gs| - 1].extrinsics|, _ => gs[|gs| - 1].relationship)
  }

  lemma ConcatAppend(gs: seq<Group>, g: Group)
    ensures Concat(gs + [g]) == Concat(gs) + g.extrinsics
    ensures Labels(gs + [g]) == Labels(gs) + seq(|g.extrinsics|, _ => g.relationship)
  {
    assert (gs + [g])[..|gs|] == gs;
  }

  lemma ExtendNonEmpty(gs: seq<Group>, c: Call, r: Relationship)
    requires NonEmptyGroups(gs)
    ensures NonEmptyGroups(Extend(gs, c, r))
  {
    var hs := Extend(gs, c, r);
    forall i | 0 <= i < |hs| ensures hs[i].extrinsics != [] {
      assert i < |hs| - 1 ==> hs[i] == gs[i];
    }
  }

  lemma ExtendJoined(gs: seq<Group>, c: Call, r: Relationship)
    ensures Concat(Extend(gs, c, r)) == Concat(gs) + [c] && Labels(Extend(gs, c, r)) == Labels(gs) + [r]
  {
    var n := |gs| - 1;
    if n >= 0 && gs[n].relationship == r {
      assert gs == gs[..n] + [Group(gs[n].extrinsics, r)];
      JoinLast(gs[..n], gs[n].extrinsics, c, r);
    } else {
      ConcatAppend(gs, Group([c], r));
      assert seq(1, _ => r) == [r];
    }
  }

  lemma ExtendIsSplit(gs: seq<Group>, cs: seq<Call>, rs: seq<Relationship>, c: Call, r: Relationship)
    requires IsSplit(gs, cs, rs)
    ensures IsSplit(Extend(gs, c, r), cs + [c], rs + [r])
  {
    ExtendNonEmpty(gs, c, r);
    ExtendJoined(gs, c, r);
  }

  lemma JoinLast(front: seq<Group>, es: seq<Call>, c: Call, r: Relationship)
    ensures var gs, hs := front + [Group(es, r)], front + [Group(es + [c], r)];
      Concat(hs) == Concat(gs) + [c] && Labels(hs) == Labels(gs) + [r]
  {
    ConcatAppend(front, Group(es, r));
    ConcatAppend(front, Group(es + [c], r));
    LabelsGrow(Labels(front), |es|, r);
    assert Concat(front) + (es + [c]) == Concat(front) + es + [c];
  }

  lemma LabelsGrow(ls: seq<Relationship>, n: nat, r: Relationship)
    ensures ls + seq(n + 1, _ => r) == ls + seq(n, _ => r) + [r]
  {
  }

  lemma ExtendEnds(gs: seq<Group>, c: Call, r: Relationship)
    ensures Extend(gs, c, r) != [] && Extend(gs, c, r)[|Extend(gs, c, r)| - 1].relationship == r
  {
  }

  /** The last group takes the last call's key. */
  lemma GroupsEnd(cs: seq<Call>, rs: seq<Relationship>)
    requires |cs| == |rs| > 0
    ensures Groups(cs, rs) != [] && Groups(cs, rs)[|Groups(cs, rs)| - 1].relationship == rs[|rs| - 1]
  {
    var n := |cs| - 1;
    ExtendEnds(Groups(cs[..n], rs[..n]), cs[n], rs[n]);
  }

  lemma {:induction false} GroupsSplit(cs: seq<Call>, rs: seq<Relationship>)
    requires |cs| == |rs|
    ensures IsSplit(Groups(cs, rs), cs, rs)
  {
    if cs != [] {
      var n := |cs| - 1;
      GroupsSplit(cs[..n], rs[..n]);
      ExtendIsSplit(Groups(cs[..n], rs[..n]), cs[..n], rs[..n], cs[n], rs[n]);
      assert cs[..n] + [cs[n]] == cs && rs[..n] + [rs[n]] == rs;
    }
  }

  ghost predicate Alternating(gs: seq<Group>) {
    forall i :: 0 < i < |gs| ==> gs[i - 1].relationship != gs[i].relationship
  }

  /** Neighbouring groups need different keys. */
  lemma {:induction false} NeighboursDiffer(cs: seq<Call>, rs: seq<Relationship>)
    requires |cs| == |rs|
    ensures Alternating(Groups(cs, rs))
  {
    var n := |cs|;
    if n > 0 {
      NeighboursDiffer(cs[..n - 1], rs[..n - 1]);
      ExtendAlternates(Groups(cs[..n - 1], rs[..n - 1]), cs[n - 1], rs[n - 1]);
    }
  }

  lemma ExtendAlternates(gs: seq<Group>, c: Call, r: Relationship)
    requires Alternating(gs)
    ensures Alternating(Extend(gs, c, r))
  {
    var hs := Extend(gs, c, r);
    forall i | 0 < i < |hs| ensures hs[i - 1].relationship != hs[i].relationship {
      assert hs[i - 1].relationship == gs[i - 1].relationship;
      assert i < |gs| ==> hs[i].relationship == gs[i].relationship;
    }
  }

  /** The split without its last call. */
  ghost function DropLastCall(gs: seq<Group>): seq<Group>
    requires gs != [] && gs[|gs| - 1].extrinsics != []
  {
    var n, g := |gs|, gs[|gs| - 1];
    if |g.extrinsics| == 1 then gs[..n - 1]
    else gs[..n - 1] + [Group(g.extrinsics[..|g.extrinsics| - 1], g.relationship)]
  }

  lemma DropLastCallIsSplit(gs: seq<Group>, cs: seq<Call>, rs: seq<Relationship>)
    requires IsSplit(gs, cs, rs) && cs != []
    ensures gs != [] && IsSplit(DropLastCall(gs), cs[..|cs| - 1], rs[..|rs| - 1])
    ensures gs[|gs| - 1].relationship == rs[|rs| - 1]
  {
    var n, g := |gs|, gs[|gs| - 1];
    var m := |g.extrinsics|;
    var front := gs[..n - 1];
    assert gs == front + [g];
    assert seq(m, _ => g.relationship) == seq(m - 1, _ => g.relationship) + [g.relationship];
    assert g.extrinsics == g.extrinsics[..m - 1] + [g.extrinsics[m - 1]];
    if m > 1 {
      ConcatAppend(front, Group(g.extrinsics[..m - 1], g.relationship));
    }
    assert cs[..|cs| - 1] == Concat(front) + g.extrinsics[..m - 1];
    assert rs[..|rs| - 1] == Labels(front) + seq(m - 1, _ => g.relationship);
  }

  /** No split of the calls into single-relationship groups, in order, has fewer groups. */
  lemma {:induction false} GroupsMinimal(cs: seq<Call>, rs: seq<Relationship>, hs: seq<Group>)
    requires |cs| == |rs| && IsSplit(hs, cs, rs)
    ensures |Groups(cs, rs)| <= |hs|
  {
    var n := |cs|;
    if n > 0 {
      DropLastCallIsSplit(hs, cs, rs);
      var ks := DropLastCall(hs);
      GroupsMinimal(cs[..n - 1], rs[..n - 1], ks);
      if n > 1 {
        GroupsEnd(cs[..n - 1], rs[..n - 1]);
      }
      if n > 1 && |hs[|hs| - 1].extrinsics| > 1 {
        DropLastCallIsSplit(ks, cs[..n - 1], rs[..n - 1]);
        assert rs[..n - 1][n - 2] == rs[n - 1];
      }
    }
  }
}
