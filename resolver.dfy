/** The reference resolver: repeated full passes over the pool that link
    every reference whose target is itself fully resolved, until either
    every entry is resolved or a pass makes no progress.

    The pure functions below (`ResolveRef`, `ResolveEntry`, `Pass`,
    `ResolveFrom`) are the specification; `ResolveEntryAt`, `ResolvePass`
    and `ResolveConstantPool` are the in-place algorithm over the pool array
    and are proved to compute exactly what the specification computes. */
module Resolver {
  import opened Results
  import opened Bytes
  import opened Entries

  // ---------------------------------------------------------------------
  // Vocabulary

  /** A link from entry `owner` to `t` is sound: in bounds, not the owner
      itself, and to an entry whose own references are all linked. */
  predicate SoundTarget(t: nat, owner: nat, pool: seq<Entry>) {
    t < |pool| && t != owner && IsResolved(pool[t])
  }

  /** `e'` is `e` with some unresolved references linked, each to a sound
      target, and nothing else changed. */
  predicate Relinks(e: Entry, e': Entry, owner: nat, pool: seq<Entry>) {
    && |Refs(e')| == |Refs(e)|
    && e' == WithRefs(e, Refs(e'))
    && forall k :: 0 <= k < |Refs(e)| ==>
         && Refs(e')[k].index == Refs(e)[k].index
         && (Refs(e)[k].Resolved? ==> Refs(e')[k] == Refs(e)[k])
         && (Refs(e)[k].Unresolved? && Refs(e')[k].Resolved? ==> SoundTarget(Refs(e)[k].index, owner, pool))
  }

  /** Every linked reference in the pool is sound. The decoder's output
      (no linked references at all) has this property, and resolution
      keeps it. */
  predicate WellLinked(pool: seq<Entry>) {
    forall j, k :: 0 <= j < |pool| && 0 <= k < |Refs(pool[j])| && Refs(pool[j])[k].Resolved? ==>
      SoundTarget(Refs(pool[j])[k].index, j, pool)
  }

  /** Every reference of `x` that is linked is still there, unchanged, in
      `y`. */
  predicate KeepsLinks(x: Entry, y: Entry) {
    && |Refs(x)| == |Refs(y)|
    && forall k :: 0 <= k < |Refs(x)| && Refs(x)[k].Resolved? ==> Refs(y)[k] == Refs(x)[k]
  }

  /** `y` is `x` after some resolution work: the same skeleton, resolved if
      `x` was, and no linked reference undone. */
  predicate EntryProgressed(x: Entry, y: Entry) {
    && Skeleton(x) == Skeleton(y)
    && (IsResolved(x) ==> IsResolved(y))
    && KeepsLinks(x, y)
  }

  /** `b` is `a` after some resolution work, entry by entry. */
  predicate Progressed(a: seq<Entry>, b: seq<Entry>) {
    && |a| == |b|
    && forall j {:trigger EntryProgressed(a[j], b[j])} :: 0 <= j < |a| ==> EntryProgressed(a[j], b[j])
  }

  predicate AllResolved(pool: seq<Entry>) {
    forall j :: 0 <= j < |pool| ==> IsResolved(pool[j])
  }

  /** Number of fully resolved entries. */
  function CountResolved(s: seq<Entry>): (n: nat)
    ensures n <= |s|
  {
    if s == [] then 0 else (if IsResolved(s[0]) then 1 else 0) + CountResolved(s[1..])
  }

  // ---------------------------------------------------------------------
  // One reference, one entry

  /** `ConstantPoolRef::resolve`: the outcome and the new value of the
      reference. A self-reference is reported before the bounds check; a
      reference whose target is not yet resolved stays as it is and yields
      false; a linked reference is never touched again. */
  function ResolveRef(r: Ref, myIndex: nat, pool: seq<Entry>): (res: Result<(bool, Ref)>)
    ensures r.Resolved? ==> res == Ok((true, r))
    ensures r.Unresolved? && r.index == myIndex ==> res == Err(SelfReference(myIndex))
    ensures r.Unresolved? && r.index != myIndex && r.index >= |pool| ==>
              res == Err(OutOfBoundsReference(myIndex, r.index))
    ensures res.Ok? ==> res.value.1.index == r.index && (res.value.0 <==> res.value.1.Resolved?)
    ensures res.Ok? && r.Unresolved? ==> (res.value.0 <==> SoundTarget(r.index, myIndex, pool))
  {
    match r
    case Unresolved(ix) =>
      var target := ix as nat;
      if target == myIndex then Err(SelfReference(myIndex))
      else if target >= |pool| then Err(OutOfBoundsReference(myIndex, target))
      else if !IsResolved(pool[target]) then Ok((false, r))
      else Ok((true, Resolved(ix)))
    case Resolved(_) => Ok((true, r))
  }

  /** `Ok(x.resolve()? && y.resolve()?)`: the second reference is attempted
      only once the first has resolved. */
  function ResolvePair(x: Ref, y: Ref, myIndex: nat, pool: seq<Entry>): (res: Result<(bool, Ref, Ref)>)
    ensures res.Ok? ==> res.value.1.index == x.index && res.value.2.index == y.index
    ensures res.Ok? ==> (res.value.0 <==> res.value.1.Resolved? && res.value.2.Resolved?)
    ensures res.Ok? && res.value.1.Unresolved? ==> res.value.2 == y
  {
    var rx :- ResolveRef(x, myIndex, pool);
    if !rx.0 then Ok((false, rx.1, y))
    else
      var ry :- ResolveRef(y, myIndex, pool);
      Ok((ry.0, rx.1, ry.1))
  }

  /** `ConstantPoolEntry::resolve`: the outcome and the entry afterwards.
      The original matches on the variant; every variant falls in one of
      three shapes, which `Refs`/`WithRefs` expose: no reference (Zero, Utf8,
      the numbers, Unused) resolves trivially, a single reference (ClassInfo,
      String, MethodHandle, MethodType, InvokeDynamic) is resolved on its
      own, and two references (the three member refs, NameAndType) go
      through `ResolvePair`. */
  function ResolveEntry(e: Entry, myIndex: nat, pool: seq<Entry>): (res: Result<(bool, Entry)>)
    ensures IsResolved(e) ==> res == Ok((true, e))
    ensures res.Ok? ==> (res.value.0 <==> IsResolved(res.value.1))
  {
    var rs := Refs(e);
    if |rs| == 0 then Ok((true, e))
    else if |rs| == 1 then
      var r0 :- ResolveRef(rs[0], myIndex, pool);
      Ok((r0.0, WithRefs(e, [r0.1])))
    else
      var p :- ResolvePair(rs[0], rs[1], myIndex, pool);
      Ok((p.0, WithRefs(e, [p.1, p.2])))
  }

  /** A successful resolution only links references, each to a sound
      target. */
  lemma ResolveEntryRelinks(e: Entry, myIndex: nat, pool: seq<Entry>)
    requires ResolveEntry(e, myIndex, pool).Ok?
    ensures Relinks(e, ResolveEntry(e, myIndex, pool).value.1, myIndex, pool)
  {
  }

  /** Errors come only from an unresolved reference that names its own
      entry or an index past the end of the pool; an entry whose references
      all name other, in-bounds entries never fails. (The converse does not
      hold: see `ShortCircuit`.) */
  lemma {:induction false} ResolveEntryErrors(e: Entry, myIndex: nat, pool: seq<Entry>)
    ensures ResolveEntry(e, myIndex, pool).Err? ==>
              exists k :: 0 <= k < |Refs(e)| && Refs(e)[k].Unresolved? &&
                (Refs(e)[k].index == myIndex || Refs(e)[k].index >= |pool|)
    ensures ResolveEntry(e, myIndex, pool).Err? ==>
              var err := ResolveEntry(e, myIndex, pool).error;
              err == SelfReference(myIndex) ||
              (err.OutOfBoundsReference? && err.index == myIndex && err.target >= |pool| && err.target in Targets(e))
    ensures (forall k :: 0 <= k < |Targets(e)| ==> Targets(e)[k] < |pool| && Targets(e)[k] != myIndex) ==>
              ResolveEntry(e, myIndex, pool).Ok?
  {
    var rs := Refs(e);
    if |rs| == 1 {
      assert Targets(e)[0] == rs[0].index;
    } else if |rs| == 2 {
      assert Targets(e)[0] == rs[0].index && Targets(e)[1] == rs[1].index;
    }
  }

  /** Short circuit: when the first reference of a two-reference entry does
      not resolve, the second one is not examined at all, so whatever is
      wrong with it (a self-reference, say) goes unreported in this pass. */
  lemma ShortCircuit(e: Entry, myIndex: nat, pool: seq<Entry>)
    requires |Refs(e)| == 2
    requires ResolveRef(Refs(e)[0], myIndex, pool) == Ok((false, Refs(e)[0]))
    ensures ResolveEntry(e, myIndex, pool) == Ok((false, e))
  {
  }

  lemma {:induction false} RelinksSkeleton(e: Entry, e': Entry, owner: nat, pool: seq<Entry>)
    requires Relinks(e, e', owner, pool)
    ensures Skeleton(e') == Skeleton(e)
  {
    SkeletonOfWithRefs(e, Refs(e'));
  }

  // ---------------------------------------------------------------------
  // Facts about resolution progress

  lemma EntryProgressedTrans(x: Entry, y: Entry, z: Entry)
    requires EntryProgressed(x, y) && EntryProgressed(y, z)
    ensures EntryProgressed(x, z)
  {
  }

  lemma ProgressedTrans(a: seq<Entry>, b: seq<Entry>, c: seq<Entry>)
    requires Progressed(a, b) && Progressed(b, c)
    ensures Progressed(a, c)
  {
    forall j | 0 <= j < |a|
      ensures EntryProgressed(a[j], c[j])
    {
      EntryProgressedTrans(a[j], b[j], c[j]);
    }
  }

  /** Writing back the entry that `ResolveEntry` produced is progress. */
  lemma {:induction false} StepProgresses(pool: seq<Entry>, i: nat, e': Entry)
    requires i < |pool|
    requires ResolveEntry(pool[i], i, pool) == Ok((IsResolved(e'), e'))
    ensures Progressed(pool, pool[i := e'])
  {
    ResolveEntryRelinks(pool[i], i, pool);
    RelinksSkeleton(pool[i], e', i, pool);
  }

  /** Writing back the entry that `ResolveEntry` produced keeps every link
      sound: a target that was resolved is still resolved, because the only
      entry that changed either was unresolved or is unchanged. */
  lemma {:induction false} StepKeepsWellLinked(pool: seq<Entry>, i: nat, e': Entry)
    requires i < |pool| && WellLinked(pool)
    requires ResolveEntry(pool[i], i, pool) == Ok((IsResolved(e'), e'))
    ensures WellLinked(pool[i := e'])
  {
    var mid := pool[i := e'];
    ResolveEntryRelinks(pool[i], i, pool);
    assert IsResolved(pool[i]) ==> e' == pool[i];
    forall j, k | 0 <= j < |mid| && 0 <= k < |Refs(mid[j])| && Refs(mid[j])[k].Resolved?
      ensures SoundTarget(Refs(mid[j])[k].index, j, mid)
    {
      if j == i {
        assert Relinks(pool[i], e', i, pool);
        assert SoundTarget(Refs(mid[j])[k].index, j, pool);
      }
    }
  }

  /** Counting from `i` is counting entry `i` and then the rest. */
  lemma CountFrom(s: seq<Entry>, i: nat)
    requires i < |s|
    ensures CountResolved(s[i..]) == (if IsResolved(s[i]) then 1 else 0) + CountResolved(s[i + 1..])
  {
    assert s[i..][1..] == s[i + 1..];
  }

  /** Progress never unresolves an entry. */
  lemma ProgressedMono(a: seq<Entry>, b: seq<Entry>)
    requires Progressed(a, b)
    ensures forall j :: 0 <= j < |a| && IsResolved(a[j]) ==> IsResolved(b[j])
  {
    forall j | 0 <= j < |a| && IsResolved(a[j])
      ensures IsResolved(b[j])
    {
      assert EntryProgressed(a[j], b[j]);
    }
  }

  lemma {:induction false} CountMonotone(a: seq<Entry>, b: seq<Entry>)
    requires |a| == |b|
    requires forall j :: 0 <= j < |a| && IsResolved(a[j]) ==> IsResolved(b[j])
    ensures CountResolved(a) <= CountResolved(b)
  {
    if a != [] {
      CountMonotone(a[1..], b[1..]);
    }
  }

  /** If in addition entry `m` went from unresolved to resolved, the count
      strictly grows. */
  lemma {:induction false} CountStrictlyGrows(a: seq<Entry>, b: seq<Entry>, m: nat)
    requires |a| == |b| && m < |a|
    requires forall j :: 0 <= j < |a| && IsResolved(a[j]) ==> IsResolved(b[j])
    requires !IsResolved(a[m]) && IsResolved(b[m])
    ensures CountResolved(a) < CountResolved(b)
  {
    if m == 0 {
      CountMonotone(a[1..], b[1..]);
    } else {
      CountStrictlyGrows(a[1..], b[1..], m - 1);
    }
  }

  /** The count reaches the length exactly when every entry is resolved. */
  lemma {:induction false} CountFull(s: seq<Entry>)
    ensures CountResolved(s) == |s| <==> AllResolved(s)
  {
    if s != [] {
      CountFull(s[1..]);
      assert forall j :: 0 < j < |s| ==> s[j] == s[1..][j - 1];
    }
  }

  // ---------------------------------------------------------------------
  // Passes

  /** One scan of `resolve_constant_pool`'s `for` loop, from entry `i` on,
      with `count` entries found resolved so far. Each entry is resolved
      against the pool as the earlier steps of the same pass left it. A
      pass only makes progress, leaves the entries before `i` alone, and
      counts exactly the entries from `i` on that are resolved afterwards. */
  function Pass(pool: seq<Entry>, i: nat, count: nat): (r: Result<(seq<Entry>, nat)>)
    requires i <= |pool|
    ensures r.Ok? ==> Progressed(pool, r.value.0)
    ensures r.Ok? ==> forall j :: 0 <= j < i ==> r.value.0[j] == pool[j]
    ensures r.Ok? ==> r.value.1 == count + CountResolved(r.value.0[i..])
    decreases |pool| - i
  {
    if i == |pool| then
      assert pool[i..] == [];
      assert Progressed(pool, pool);
      Ok((pool, count))
    else
      var step :- ResolveEntry(pool[i], i, pool);
      var mid := pool[i := step.1];
      var rest := Pass(mid, i + 1, if step.0 then count + 1 else count);
      if rest.Err? then rest
      else
        StepProgresses(pool, i, step.1);
        ProgressedTrans(pool, mid, rest.value.0);
        CountFrom(rest.value.0, i);
        rest
  }

  lemma {:induction false} PassKeepsWellLinked(pool: seq<Entry>, i: nat, count: nat, p: seq<Entry>, c: nat)
    requires i <= |pool| && WellLinked(pool)
    requires Pass(pool, i, count) == Ok((p, c))
    ensures WellLinked(p)
    decreases |pool| - i
  {
    if i < |pool| {
      var step := ResolveEntry(pool[i], i, pool).value;
      StepKeepsWellLinked(pool, i, step.1);
      PassKeepsWellLinked(pool[i := step.1], i + 1, if step.0 then count + 1 else count, p, c);
    } else {
      assert p == pool;
    }
  }

  /** The `while resolved_count < constant_pool.len()` loop, entered with
      the count of the previous pass. A pass whose count equals the previous
      one is the "Unable to resolve all constant pool entries" error. The
      count of resolved entries never drops, so each further pass raises it
      by at least one: at most |pool| passes are made. */
  function ResolveFrom(pool: seq<Entry>, resolvedCount: nat): (r: Result<seq<Entry>>)
    requires resolvedCount <= CountResolved(pool)
    ensures r.Ok? ==> |r.value| == |pool| && AllResolved(r.value)
    decreases |pool| - resolvedCount
  {
    if resolvedCount >= |pool| then CountFull(pool); Ok(pool)
    else
      var passed :- Pass(pool, 0, 0);
      if passed.1 == resolvedCount then Err(Unresolvable)
      else
        assert passed.0[0..] == passed.0;
        ProgressedMono(pool, passed.0);
        CountMonotone(pool, passed.0);
        ResolveFrom(passed.0, passed.1)
  }

  /** On success every entry is resolved, nothing but links changed, and
      every link made is sound. */
  lemma {:induction false} ResolveFromSucceeds(pool: seq<Entry>, resolvedCount: nat)
    requires resolvedCount <= CountResolved(pool)
    requires ResolveFrom(pool, resolvedCount).Ok?
    ensures AllResolved(ResolveFrom(pool, resolvedCount).value)
    ensures Progressed(pool, ResolveFrom(pool, resolvedCount).value)
    ensures WellLinked(pool) ==> WellLinked(ResolveFrom(pool, resolvedCount).value)
    decreases |pool| - resolvedCount
  {
    if resolvedCount >= |pool| {
      CountFull(pool);
      assert Progressed(pool, pool);
    } else {
      var passed := Pass(pool, 0, 0).value;
      assert passed.0[0..] == passed.0;
      ProgressedMono(pool, passed.0);
      CountMonotone(pool, passed.0);
      ResolveFromSucceeds(passed.0, passed.1);
      ProgressedTrans(pool, passed.0, ResolveFrom(passed.0, passed.1).value);
      if WellLinked(pool) {
        PassKeepsWellLinked(pool, 0, 0, passed.0, passed.1);
      }
    }
  }

  // ---------------------------------------------------------------------
  // Completeness: pools without reference cycles always resolve

  /** Every reference is in bounds and points to an entry of strictly
      smaller rank: the references form no cycle (and no self-reference). */
  predicate Ranked(pool: seq<Entry>, rank: seq<nat>) {
    && |rank| == |pool|
    && forall j, k :: 0 <= j < |pool| && 0 <= k < |Targets(pool[j])| ==>
         Targets(pool[j])[k] < |pool| && rank[Targets(pool[j])[k]] < rank[j]
  }

  /** Entry `m` is unresolved but everything it refers to is resolved. */
  predicate Ready(pool: seq<Entry>, m: nat) {
    && m < |pool|
    && !IsResolved(pool[m])
    && forall k :: 0 <= k < |Targets(pool[m])| ==>
         Targets(pool[m])[k] < |pool| && Targets(pool[m])[k] != m && IsResolved(pool[Targets(pool[m])[k]])
  }

  /** Same skeletons mean the same targets, so a ranking survives progress. */
  lemma RankedKept(a: seq<Entry>, b: seq<Entry>, rank: seq<nat>)
    requires Ranked(a, rank) && Progressed(a, b)
    ensures Ranked(b, rank)
  {
    forall j | 0 <= j < |a|
      ensures Targets(b[j]) == Targets(a[j])
    {
      assert EntryProgressed(a[j], b[j]);
      SkeletonKeepsShape(a[j], b[j]);
    }
  }

  /** An entry whose targets are all resolved resolves. */
  lemma {:induction false} ReadyResolves(e: Entry, myIndex: nat, pool: seq<Entry>)
    requires forall k :: 0 <= k < |Targets(e)| ==>
               Targets(e)[k] < |pool| && Targets(e)[k] != myIndex && IsResolved(pool[Targets(e)[k]])
    ensures ResolveEntry(e, myIndex, pool).Ok? && ResolveEntry(e, myIndex, pool).value.0
  {
    var rs := Refs(e);
    if |rs| >= 1 {
      assert Targets(e)[0] == rs[0].index;
      assert ResolveRef(rs[0], myIndex, pool) == Ok((true, Resolved(rs[0].index)));
    }
    if |rs| == 2 {
      assert Targets(e)[1] == rs[1].index;
      assert ResolveRef(rs[1], myIndex, pool) == Ok((true, Resolved(rs[1].index)));
    }
  }

  /** In a ranked pool that is not fully resolved, some entry is ready: take
      an unresolved entry and walk down to unresolved targets of ever
      smaller rank. */
  lemma {:induction false} FindReady(pool: seq<Entry>, rank: seq<nat>, m: nat, bound: nat) returns (ready: nat)
    requires Ranked(pool, rank)
    requires m < |pool| && !IsResolved(pool[m]) && rank[m] <= bound
    ensures Ready(pool, ready)
    decreases bound
  {
    if forall k :: 0 <= k < |Targets(pool[m])| ==> IsResolved(pool[Targets(pool[m])[k]]) {
      return m;
    }
    var k :| 0 <= k < |Targets(pool[m])| && !IsResolved(pool[Targets(pool[m])[k]]);
    ready := FindReady(pool, rank, Targets(pool[m])[k], bound - 1);
  }

  /** A ranked pool never makes a pass fail. */
  lemma {:induction false} RankedPassSucceeds(pool: seq<Entry>, i: nat, count: nat, rank: seq<nat>)
    requires i <= |pool| && Ranked(pool, rank)
    ensures Pass(pool, i, count).Ok?
    decreases |pool| - i
  {
    if i < |pool| {
      ResolveEntryErrors(pool[i], i, pool);
      var step := ResolveEntry(pool[i], i, pool).value;
      StepProgresses(pool, i, step.1);
      RankedKept(pool, pool[i := step.1], rank);
      RankedPassSucceeds(pool[i := step.1], i + 1, if step.0 then count + 1 else count, rank);
    }
  }

  /** An entry that is ready when the pass reaches it is resolved. */
  lemma ReadyAtStep(pool: seq<Entry>, m: nat, count: nat)
    requires Ready(pool, m)
    requires Pass(pool, m, count).Ok?
    ensures IsResolved(Pass(pool, m, count).value.0[m])
  {
    ReadyResolves(pool[m], m, pool);
    PassUnfold(pool, m, count);
  }

  /** Resolving another entry keeps a ready entry ready. */
  lemma ReadyStaysReady(pool: seq<Entry>, i: nat, m: nat)
    requires i < m && Ready(pool, m)
    requires ResolveEntry(pool[i], i, pool).Ok?
    ensures Ready(pool[i := ResolveEntry(pool[i], i, pool).value.1], m)
  {
    var mid := pool[i := ResolveEntry(pool[i], i, pool).value.1];
    StepProgresses(pool, i, mid[i]);
    ProgressedMono(pool, mid);
  }

  /** A pass resolves every entry that is ready when the pass starts:
      entries that are ready stay ready until the pass reaches them. */
  lemma {:induction false} PassResolvesReady(pool: seq<Entry>, i: nat, count: nat, m: nat)
    requires i <= m && Ready(pool, m)
    requires Pass(pool, i, count).Ok?
    ensures IsResolved(Pass(pool, i, count).value.0[m])
    decreases |pool| - i
  {
    if i == m {
      ReadyAtStep(pool, m, count);
    } else {
      PassUnfold(pool, i, count);
      var step := ResolveEntry(pool[i], i, pool).value;
      ReadyStaysReady(pool, i, m);
      PassResolvesReady(pool[i := step.1], i + 1, if step.0 then count + 1 else count, m);
    }
  }

  /** A pass over a ranked pool succeeds and, unless every entry is
      resolved afterwards, finds more resolved entries than there were. */
  lemma RankedPassGrows(pool: seq<Entry>, rank: seq<nat>)
    requires Ranked(pool, rank)
    ensures Pass(pool, 0, 0).Ok?
    ensures Pass(pool, 0, 0).value.1 > CountResolved(pool) || Pass(pool, 0, 0).value.1 == |pool|
  {
    RankedPassSucceeds(pool, 0, 0, rank);
    var passed := Pass(pool, 0, 0).value;
    assert passed.0[0..] == passed.0;
    ProgressedMono(pool, passed.0);
    if AllResolved(pool) {
      CountFull(pool);
      CountMonotone(pool, passed.0);
    } else {
      var m :| 0 <= m < |pool| && !IsResolved(pool[m]);
      var ready := FindReady(pool, rank, m, rank[m]);
      PassResolvesReady(pool, 0, 0, ready);
      CountStrictlyGrows(pool, passed.0, ready);
    }
  }

  /** Resolution succeeds on every pool whose references are ranked. */
  lemma {:induction false} RankedResolves(pool: seq<Entry>, resolvedCount: nat, rank: seq<nat>)
    requires resolvedCount <= CountResolved(pool) && Ranked(pool, rank)
    ensures ResolveFrom(pool, resolvedCount).Ok?
    decreases |pool| - resolvedCount
  {
    if resolvedCount < |pool| {
      RankedPassGrows(pool, rank);
      var passed := Pass(pool, 0, 0).value;
      assert passed.0[0..] == passed.0;
      RankedKept(pool, passed.0, rank);
      RankedResolves(passed.0, passed.1, rank);
    }
  }

  // ---------------------------------------------------------------------
  // Soundness: pools that resolve have no reference cycles

  /** Every resolved entry outranks each of its targets. This holds from
      the start when no reference is linked (a resolved entry then has no
      references at all), and each resolution step keeps it. */
  predicate RanksResolved(pool: seq<Entry>, rank: seq<nat>) {
    && |rank| == |pool|
    && forall j, k :: 0 <= j < |pool| && IsResolved(pool[j]) && 0 <= k < |Targets(pool[j])| ==>
         Targets(pool[j])[k] < |pool| && rank[Targets(pool[j])[k]] < rank[j]
  }

  /** The largest rank among the targets `ts`. */
  function MaxRank(rank: seq<nat>, ts: seq<nat>): (m: nat)
    requires forall k :: 0 <= k < |ts| ==> ts[k] < |rank|
    ensures forall k :: 0 <= k < |ts| ==> rank[ts[k]] <= m
  {
    if ts == [] then 0
    else
      var rest := MaxRank(rank, ts[1..]);
      assert forall k :: 0 < k < |ts| ==> ts[k] == ts[1..][k - 1];
      if rank[ts[0]] > rest then rank[ts[0]] else rest
  }

  /** Each target of the entry a step writes back is sound, whether it was
      linked earlier or in this step. */
  lemma {:induction false} StepTargetsSound(pool: seq<Entry>, i: nat, e': Entry, k: nat)
    requires i < |pool| && WellLinked(pool)
    requires ResolveEntry(pool[i], i, pool) == Ok((IsResolved(e'), e'))
    requires IsResolved(e') && k < |Targets(e')|
    ensures SoundTarget(Targets(e')[k], i, pool)
  {
    ResolveEntryRelinks(pool[i], i, pool);
    assert Relinks(pool[i], e', i, pool);
    assert Refs(e')[k] in Refs(e');
    assert Targets(e')[k] == Refs(pool[i])[k].index;
  }

  /** A step that resolves entry `i` gives it a rank above all its targets;
      every other step keeps the ranks. */
  lemma {:induction false} StepRanks(pool: seq<Entry>, i: nat, e': Entry, rank: seq<nat>) returns (rank': seq<nat>)
    requires i < |pool| && WellLinked(pool) && RanksResolved(pool, rank)
    requires ResolveEntry(pool[i], i, pool) == Ok((IsResolved(e'), e'))
    ensures RanksResolved(pool[i := e'], rank')
  {
    var mid := pool[i := e'];
    if IsResolved(pool[i]) || !IsResolved(e') {
      rank' := rank;
      assert IsResolved(pool[i]) ==> e' == pool[i];
      return;
    }
    forall k | 0 <= k < |Targets(e')|
      ensures SoundTarget(Targets(e')[k], i, pool)
    {
      StepTargetsSound(pool, i, e', k);
    }
    rank' := rank[i := 1 + MaxRank(rank, Targets(e'))];
    forall j, k | 0 <= j < |mid| && IsResolved(mid[j]) && 0 <= k < |Targets(mid[j])|
      ensures Targets(mid[j])[k] < |mid| && rank'[Targets(mid[j])[k]] < rank'[j]
    {
      if j != i {
        var t := Targets(pool[j])[k];
        assert Refs(pool[j])[k] in Refs(pool[j]);
        assert SoundTarget(Refs(pool[j])[k].index, j, pool);
        assert t != i;
      }
    }
  }

  /** A pass keeps some ranking of the resolved entries. */
  lemma {:induction false} PassRanks(pool: seq<Entry>, i: nat, count: nat, rank: seq<nat>, p: seq<Entry>, c: nat)
    returns (rank': seq<nat>)
    requires i <= |pool| && WellLinked(pool) && RanksResolved(pool, rank)
    requires Pass(pool, i, count) == Ok((p, c))
    ensures RanksResolved(p, rank')
    decreases |pool| - i
  {
    if i == |pool| {
      assert p == pool;
      return rank;
    }
    PassUnfold(pool, i, count);
    var step := ResolveEntry(pool[i], i, pool).value;
    StepKeepsWellLinked(pool, i, step.1);
    var mid := StepRanks(pool, i, step.1, rank);
    rank' := PassRanks(pool[i := step.1], i + 1, if step.0 then count + 1 else count, mid, p, c);
  }

  /** Resolution to the end keeps some ranking of the resolved entries. */
  lemma {:induction false} ResolveFromRanks(pool: seq<Entry>, resolvedCount: nat, rank: seq<nat>) returns (rank': seq<nat>)
    requires resolvedCount <= CountResolved(pool) && WellLinked(pool) && RanksResolved(pool, rank)
    requires ResolveFrom(pool, resolvedCount).Ok?
    ensures RanksResolved(ResolveFrom(pool, resolvedCount).value, rank')
    decreases |pool| - resolvedCount
  {
    if resolvedCount >= |pool| {
      return rank;
    }
    var passed := Pass(pool, 0, 0).value;
    assert passed.0[0..] == passed.0;
    ProgressedMono(pool, passed.0);
    CountMonotone(pool, passed.0);
    PassKeepsWellLinked(pool, 0, 0, passed.0, passed.1);
    var mid := PassRanks(pool, 0, 0, rank, passed.0, passed.1);
    rank' := ResolveFromRanks(passed.0, passed.1, mid);
  }

  /** The converse of `RankedResolves`: a well-linked pool whose resolved
      entries are ranked, and that resolves, was ranked throughout, so its
      references formed no cycle. */
  lemma ResolvedWasRanked(pool: seq<Entry>, rank: seq<nat>) returns (rank': seq<nat>)
    requires WellLinked(pool) && RanksResolved(pool, rank)
    requires ResolveFrom(pool, 0).Ok?
    ensures Ranked(pool, rank')
  {
    var final := ResolveFrom(pool, 0).value;
    ResolveFromSucceeds(pool, 0);
    rank' := ResolveFromRanks(pool, 0, rank);
    forall j | 0 <= j < |pool|
      ensures Targets(final[j]) == Targets(pool[j]) && IsResolved(final[j])
    {
      assert EntryProgressed(pool[j], final[j]);
      SkeletonKeepsShape(pool[j], final[j]);
    }
  }

  // ---------------------------------------------------------------------
  // The in-place algorithm

  /** Resolving a reference looks only at its target, never at the entry
      that holds it, so rewriting that entry does not change the outcome. */
  lemma ResolveRefIgnoresOwner(r: Ref, myIndex: nat, pool: seq<Entry>, e: Entry)
    requires myIndex < |pool|
    ensures ResolveRef(r, myIndex, pool[myIndex := e]) == ResolveRef(r, myIndex, pool)
  {
  }

  /** How a pass starting at `i` continues, whether entry `i` resolves or
      fails. */
  lemma PassUnfold(pool: seq<Entry>, i: nat, count: nat)
    requires i < |pool|
    ensures ResolveEntry(pool[i], i, pool).Err? ==>
              Pass(pool, i, count) == Err(ResolveEntry(pool[i], i, pool).error)
    ensures ResolveEntry(pool[i], i, pool).Ok? ==>
              var step := ResolveEntry(pool[i], i, pool).value;
              Pass(pool, i, count) == Pass(pool[i := step.1], i + 1, if step.0 then count + 1 else count)
  {
  }

  /** `ConstantPoolEntry::resolve` on entry `i` of the pool, overwriting
      each reference in place as soon as it is linked. The outcome is that
      of `ResolveEntry`; when the second reference of a pair fails, the
      first may already have been linked, which is still progress. */
  method ResolveEntryAt(pool: array<Entry>, i: nat) returns (r: Result<bool>)
    requires i < pool.Length
    modifies pool
    ensures var spec := ResolveEntry(old(pool[i]), i, old(pool[..]));
            && (r.Ok? <==> spec.Ok?)
            && (r.Ok? ==> r.value == spec.value.0 && pool[..] == old(pool[..])[i := spec.value.1])
            && (r.Err? ==> r.error == spec.error)
    ensures pool[..] == old(pool[..])[i := pool[i]]
    ensures Progressed(old(pool[..]), pool[..])
  {
    ghost var before := pool[..];
    var e := pool[i];
    var rs := Refs(e);
    if |rs| == 0 {
      assert Progressed(before, pool[..]);
      return Ok(true);
    }
    var r0 := ResolveRef(rs[0], i, pool[..]);
    if r0.Err? {
      assert Progressed(before, pool[..]);
      return Err(r0.error);
    }
    if |rs| == 1 {
      pool[i] := WithRefs(e, [r0.value.1]);
      StepProgresses(before, i, pool[i]);
      return Ok(r0.value.0);
    }
    pool[i] := WithRefs(e, [r0.value.1, rs[1]]);
    ghost var half := pool[..];
    assert half == before[i := pool[i]];
    assert Progressed(before, half) by {
      SkeletonOfWithRefs(e, [r0.value.1, rs[1]]);
      assert Refs(half[i]) == [r0.value.1, rs[1]];
    }
    if !r0.value.0 {
      assert pool[i] == e;
      return Ok(false);
    }
    var r1 := ResolveRef(rs[1], i, pool[..]);
    ResolveRefIgnoresOwner(rs[1], i, before, pool[i]);
    if r1.Err? {
      return Err(r1.error);
    }
    pool[i] := WithRefs(e, [r0.value.1, r1.value.1]);
    StepProgresses(before, i, pool[i]);
    return Ok(r1.value.0);
  }

  /** The body of `resolve_constant_pool`'s `while` loop: one `for` pass
      over the pool, counting the entries that report themselves resolved.
      It computes exactly `Pass(pool, 0, 0)`. */
  method ResolvePass(pool: array<Entry>) returns (r: Result<nat>)
    modifies pool
    ensures var spec := Pass(old(pool[..]), 0, 0);
            && (r.Ok? <==> spec.Ok?)
            && (r.Ok? ==> spec.value == (pool[..], r.value))
            && (r.Err? ==> r.error == spec.error)
    ensures Progressed(old(pool[..]), pool[..])
  {
    ghost var start := pool[..];
    var count := 0;
    assert Progressed(start, start);
    for i := 0 to pool.Length
      invariant Pass(pool[..], i, count) == Pass(start, 0, 0)
      invariant Progressed(start, pool[..])
    {
      ghost var here := pool[..];
      PassUnfold(here, i, count);
      var res := ResolveEntryAt(pool, i);
      ProgressedTrans(start, here, pool[..]);
      if res.Err? {
        return Err(res.error);
      }
      if res.value {
        count := count + 1;
      }
    }
    assert Pass(pool[..], pool.Length, count) == Ok((pool[..], count));
    return Ok(count);
  }

  /** `resolve_constant_pool`: full passes over the pool until every entry
      is resolved, failing when a pass finds no more resolved entries than
      the one before. It computes exactly `ResolveFrom(pool, 0)`; on success
      every entry is resolved and, if the pool started well linked, it stays
      so. */
  method ResolveConstantPool(pool: array<Entry>) returns (r: Result<()>)
    modifies pool
    ensures var spec := ResolveFrom(old(pool[..]), 0);
            && (r.Ok? <==> spec.Ok?)
            && (r.Ok? ==> pool[..] == spec.value)
            && (r.Err? ==> r.error == spec.error)
    ensures Progressed(old(pool[..]), pool[..])
    ensures r.Ok? ==> AllResolved(pool[..])
    ensures r.Ok? && WellLinked(old(pool[..])) ==> WellLinked(pool[..])
  {
    ghost var initial := pool[..];
    assert Progressed(initial, initial);
    var resolvedCount := 0;
    while resolvedCount < pool.Length
      invariant resolvedCount <= CountResolved(pool[..])
      invariant ResolveFrom(pool[..], resolvedCount) == ResolveFrom(initial, 0)
      invariant Progressed(initial, pool[..])
      decreases pool.Length - resolvedCount
    {
      ghost var start := pool[..];
      var passed := ResolvePass(pool);
      ProgressedTrans(initial, start, pool[..]);
      if passed.Err? {
        return Err(passed.error);
      }
      var count := passed.value;
      if count == resolvedCount {
        return Err(Unresolvable);
      }
      assert pool[..][0..] == pool[..];
      ProgressedMono(start, pool[..]);
      CountMonotone(start, pool[..]);
      resolvedCount := count;
    }
    ResolveFromSucceeds(initial, 0);
    r := Ok(());
  }
}
