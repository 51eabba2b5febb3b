/** `read_constant_pool` and `read_cp_ref`: the three phases chained (decode
    the entries, resolve their references in place, validate the kinds the
    references name) and the typed read of a pool index elsewhere in the
    class file. */
module ConstantPool {
  import opened Results
  import opened Bytes
  import opened Entries
  import opened Decoder
  import opened Resolver
  import opened Validator

  /** The decoder's output has no links, so none of them can be unsound. */
  lemma UnlinkedIsWellLinked(pool: seq<Entry>)
    requires AllUnlinked(pool)
    ensures WellLinked(pool)
  {
    forall j, k | 0 <= j < |pool| && 0 <= k < |Refs(pool[j])|
      ensures Refs(pool[j])[k].Unresolved?
    {
      assert Unlinked(pool[j]);
    }
  }

  /** A resolved entry of the decoder's output has no references, so any
      ranking of the resolved entries will do. */
  lemma UnlinkedRanksResolved(pool: seq<Entry>)
    requires AllUnlinked(pool)
    ensures RanksResolved(pool, seq(|pool|, _ => 0))
  {
    forall j | 0 <= j < |pool| && |Refs(pool[j])| > 0
      ensures !IsResolved(pool[j])
    {
      assert Unlinked(pool[j]);
      assert Refs(pool[j])[0] in Refs(pool[j]);
    }
  }

  /** Resolution of a decoded pool succeeds exactly when its references
      form no cycle: a cycle (a self-reference included) is reported as an
      error, and every acyclic pool resolves. */
  lemma ResolvesIffAcyclic(pool: seq<Entry>)
    requires AllUnlinked(pool)
    ensures ResolveFrom(pool, 0).Ok? <==> exists rank :: Ranked(pool, rank)
  {
    if ResolveFrom(pool, 0).Ok? {
      UnlinkedIsWellLinked(pool);
      UnlinkedRanksResolved(pool);
      var rank := ResolvedWasRanked(pool, seq(|pool|, _ => 0));
    } else if rank :| Ranked(pool, rank) {
      RankedResolves(pool, 0, rank);
    }
  }

  /** A fully resolved, well-linked pool is linked: every reference can be
      followed, so the validator's `get` never panics. */
  lemma ResolvedIsLinked(pool: seq<Entry>)
    requires AllResolved(pool) && WellLinked(pool)
    ensures Linked(pool)
  {
    forall j | 0 <= j < |pool|
      ensures EntryLinked(pool[j], pool)
    {
      assert IsResolved(pool[j]);
      forall k | 0 <= k < |Refs(pool[j])|
        ensures Refs(pool[j])[k].Resolved? && Refs(pool[j])[k].index < |pool|
      {
        assert Refs(pool[j])[k] in Refs(pool[j]);
      }
    }
  }

  /** Resolution only links references, so it keeps the decoded layout. */
  lemma ProgressKeepsLayout(a: seq<Entry>, b: seq<Entry>)
    requires WellLaid(a) && Progressed(a, b)
    ensures WellLaid(b)
  {
    forall j | 0 <= j < |a|
      ensures a[j].Zero? == b[j].Zero? && a[j].Unused? == b[j].Unused?
      ensures a[j].Long? == b[j].Long? && a[j].Double? == b[j].Double?
    {
      assert EntryProgressed(a[j], b[j]);
      SkeletonKeepsShape(a[j], b[j]);
      GetTypeDistinct(a[j], b[j]);
    }
  }

  /** `read_constant_pool`: decode `count - 1` slots of entries, resolve
      every reference, then validate every entry against `majorVersion`.
      The outcome is that of the first phase to fail; on success the pool
      keeps the decoded layout, is fully resolved and linked, and every
      entry names targets of the kinds it needs. */
  method ReadConstantPool(bytes: seq<u8>, ix: nat, count: u16, majorVersion: u16, decodeText: TextDecoder)
    returns (r: Result<seq<Entry>>, next: nat)
    ensures var decoded := DecodeFrom(bytes, ix, 1, count, [Zero], decodeText);
            && (decoded.Err? ==> r == Err(decoded.error))
            && (decoded.Ok? ==>
                  var resolved := ResolveFrom(decoded.value.0, 0);
                  && (resolved.Err? ==> r == Err(resolved.error))
                  && (resolved.Ok? ==>
                        && (r.Ok? <==> AllConform(resolved.value, majorVersion))
                        && (r.Ok? ==> r.value == resolved.value && next == decoded.value.1)
                        && (r.Err? ==> FirstNonConforming(resolved.value, majorVersion, r.error))))
    ensures r.Ok? ==> WellLaid(r.value) && AllResolved(r.value) && WellLinked(r.value)
    ensures r.Ok? ==> count <= 1 || count <= |r.value| <= count + 1
  {
    next := ix;
    var decoded, n :- ReadEntries(bytes, ix, count, decodeText);
    next := n;
    DecodedPool(bytes, ix, count, decodeText, decoded, n);
    UnlinkedIsWellLinked(decoded);
    var pool := new Entry[|decoded|](j requires 0 <= j < |decoded| => decoded[j]);
    assert pool[..] == decoded;
    var resolved := ResolveConstantPool(pool);
    if resolved.Err? {
      return Err(resolved.error), next;
    }
    ResolvedIsLinked(pool[..]);
    ProgressKeepsLayout(decoded, pool[..]);
    var validated := ValidateConstantPool(pool[..], majorVersion);
    if validated.Err? {
      return Err(validated.error), next;
    }
    return Ok(pool[..]), next;
  }

  /** `read_cp_ref`: read a 16-bit pool index, reject it when it is past the
      pool, then check the kind of the entry it names against `allowed`
      and return that entry. */
  method ReadCpRef(bytes: seq<u8>, ix: nat, pool: seq<Entry>, allowed: EntryTypes)
    returns (r: Result<Entry>, next: nat)
    ensures ix + 2 > |bytes| ==> r == Err(Truncated(ix))
    ensures ix + 2 <= |bytes| ==>
              var k := BE16(bytes, ix) as nat;
              && next == ix + 2
              && (k >= |pool| ==> r == Err(OutOfBoundsIndex(k)))
              && (k < |pool| ==> (r.Ok? <==> Contains(allowed, GetType(pool[k]))))
              && (k < |pool| && r.Ok? ==> r.value == pool[k])
              && (k < |pool| && r.Err? ==> r.error == UnexpectedReferenceType)
  {
    next := ix;
    var cpIndex, n :- ReadU2(bytes, ix);
    next := n;
    if cpIndex >= |pool| {
      return Err(OutOfBoundsIndex(cpIndex)), next;
    }
    var checked :- EnsureType(pool[cpIndex], allowed);
    return Ok(pool[cpIndex]), next;
  }

  /** On a pool that passed validation, `classinfo_utf8` cannot panic: a
      ClassInfo's name is linked to a Utf8 entry, whose text it returns. */
  lemma ValidatedClassInfo(pool: seq<Entry>, majorVersion: u16, j: nat)
    requires AllConform(pool, majorVersion)
    requires j < |pool| && pool[j].ClassInfo?
    ensures pool[j].nameRef.Resolved? && pool[j].nameRef.index < |pool|
    ensures pool[pool[j].nameRef.index].Utf8?
    ensures ClassInfoUtf8(pool[j], pool) == pool[pool[j].nameRef.index].text
  {
    assert EntryLinked(pool[j], pool);
    LinkedRefs(pool[j], pool);
    assert Conforms(pool[j], pool, majorVersion);
  }

  /** On a validated pool, a reference read with `read_cp_ref` and the
      UTF8 kind set yields an entry from which `utf8` cannot panic. */
  lemma Utf8RefIsText(pool: seq<Entry>, k: nat)
    requires k < |pool| && EnsureType(pool[k], UTF8).Ok?
    ensures pool[k].Utf8?
  {
    AcceptedKinds(pool[k]);
  }
}
