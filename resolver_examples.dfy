/** Small pools that pin down how the resolver behaves on cycles and on a
    self-reference hidden behind the short-circuit of a two-reference
    entry. */
module ResolverExamples {
  import opened Results
  import opened Entries
  import opened Resolver

  /** Two NameAndType entries whose names refer to each other. */
  function CyclePool(): seq<Entry> {
    [Zero, NameAndType(Unresolved(2), Unresolved(3)), NameAndType(Unresolved(1), Unresolved(3)), Utf8("x")]
  }

  /** A reference cycle makes the second pass count as many resolved
      entries as the first, which is reported as unresolvable. */
  lemma CyclePass()
    ensures Pass(CyclePool(), 0, 0) == Ok((CyclePool(), 2))
  {
    CycleSteps();
    CycleFirst();
  }

  /** The Utf8 entry resolves; each NameAndType waits for the other. */
  lemma CycleSteps()
    ensures Pass(CyclePool(), 1, 1) == Ok((CyclePool(), 2))
  {
    var p := CyclePool();
    assert p[3 := p[3]] == p;
    assert Pass(p, 4, 2) == Ok((p, 2));
    assert Pass(p, 3, 1) == Pass(p, 4, 2);
    CycleWaits(2, 1);
    CycleWaits(1, 2);
  }

  /** Entry `i` of the cycle names the unresolved entry `j` first. */
  lemma CycleWaits(i: nat, j: nat)
    requires (i == 1 && j == 2) || (i == 2 && j == 1)
    ensures Pass(CyclePool(), i, 1) == Pass(CyclePool(), i + 1, 1)
  {
    var p := CyclePool();
    assert p[i := p[i]] == p;
    assert ResolveRef(Unresolved(j), i, p) == Ok((false, Unresolved(j)));
    ShortCircuit(p[i], i, p);
  }

  /** The sentinel in slot 0 counts as resolved. */
  lemma CycleFirst()
    ensures Pass(CyclePool(), 0, 0) == Pass(CyclePool(), 1, 1)
  {
    var p := CyclePool();
    assert p[0 := p[0]] == p;
  }

  lemma CycleIsUnresolvable()
    ensures CountResolved(CyclePool()) == 2
    ensures ResolveFrom(CyclePool(), 0) == Err(Unresolvable)
  {
    var p := CyclePool();
    assert CountResolved(p) == 2 by {
      assert p[1..][1..][1..][1..] == [];
    }
    CyclePass();
    assert ResolveFrom(p, 2) == Err(Unresolvable);
  }

  /** Entry 1 names itself as its NameAndType, but its class reference
      points into the cycle between entries 2 and 3 and never resolves, so
      the self-reference is never examined. */
  function MaskedSelfReferencePool(): seq<Entry> {
    [Zero, FieldRef(Unresolved(2), Unresolved(1)), ClassInfo(Unresolved(3)), ClassInfo(Unresolved(2))]
  }

  /** The masked self-reference is reported as an unresolvable pool, not
      as a self-reference. */
  lemma MaskedSelfReferencePass()
    ensures Pass(MaskedSelfReferencePool(), 0, 0) == Ok((MaskedSelfReferencePool(), 1))
  {
    var p := MaskedSelfReferencePool();
    assert p[0 := p[0]] == p && p[1 := p[1]] == p && p[2 := p[2]] == p && p[3 := p[3]] == p;
    assert Pass(p, 4, 1) == Ok((p, 1));
    assert Pass(p, 3, 1) == Pass(p, 4, 1);
    assert Pass(p, 2, 1) == Pass(p, 3, 1);
    assert Pass(p, 1, 1) == Pass(p, 2, 1);
  }

  lemma MaskedSelfReference()
    ensures Refs(MaskedSelfReferencePool()[1])[1] == Unresolved(1)
    ensures ResolveFrom(MaskedSelfReferencePool(), 0) == Err(Unresolvable)
  {
    var p := MaskedSelfReferencePool();
    assert CountResolved(p) == 1 by {
      assert p[1..][1..][1..][1..] == [];
    }
    MaskedSelfReferencePass();
    assert ResolveFrom(p, 1) == Err(Unresolvable);
  }
}
