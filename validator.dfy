/** The validator: once every reference is linked, each entry's references
    must point to entries of the kinds section 4.4 of The Java Virtual
    Machine Specification (Java SE 8 edition) prescribes. `Validate` is the
    original's per-variant matrix over 16-bit kind sets; `Conforms` states
    the same requirement directly on the variants of the targets, and the
    two are proved to agree. */
module Validator {
  import opened Results
  import opened Bytes
  import opened Entries

  // ---------------------------------------------------------------------
  // Linked pools

  /** Every reference of `e` is linked and names an entry of the pool:
      following it (`ConstantPoolRef::get`) cannot fail. */
  predicate EntryLinked(e: Entry, pool: seq<Entry>) {
    forall k :: 0 <= k < |Refs(e)| ==> Refs(e)[k].Resolved? && Refs(e)[k].index < |pool|
  }

  /** The references of a linked entry, one by one. */
  lemma LinkedRefs(e: Entry, pool: seq<Entry>)
    requires EntryLinked(e, pool)
    ensures |Refs(e)| >= 1 ==> Refs(e)[0].Resolved? && Refs(e)[0].index < |pool|
    ensures |Refs(e)| == 2 ==> Refs(e)[1].Resolved? && Refs(e)[1].index < |pool|
  {
  }

  predicate Linked(pool: seq<Entry>) {
    forall j :: 0 <= j < |pool| ==> EntryLinked(pool[j], pool)
  }

  /** `RefCellDeref::ensure_type`: follow a linked reference and check the
      kind of its target. */
  function EnsureRefType(r: Ref, pool: seq<Entry>, allowed: EntryTypes): (res: Result<bool>)
    requires r.Resolved? && r.index < |pool|
    ensures res.Ok? <==> Contains(allowed, GetType(pool[r.index]))
    ensures res.Ok? ==> res.value
    ensures res.Err? ==> res.error == UnexpectedReferenceType
  {
    EnsureType(pool[r.index], allowed)
  }

  /** The kinds a MethodHandle may refer to, by reference kind. Before
      class-file version 52, invokestatic and invokespecial handles must
      name a method of a class; from 52 on, also one of an interface. */
  function HandleTargetTypes(kind: ReferenceKind, majorVersion: u16): (allowed: EntryTypes)
    ensures allowed != 0
  {
    match kind
    case GetField | GetStatic | PutField | PutStatic => FIELD_REF
    case InvokeVirtual | NewInvokeSpecial => METHOD_REF
    case InvokeStatic | InvokeSpecial => if majorVersion < 52 then METHOD_REF else NEW_METHOD_REFS
    case InvokeInterface => INTERFACE_METHOD_REF
  }

  /** `ConstantPoolEntry::validate`. Two-reference entries check both
      references in order; entries without references always pass. */
  function Validate(e: Entry, pool: seq<Entry>, majorVersion: u16): (r: Result<bool>)
    requires EntryLinked(e, pool)
    ensures r.Ok? ==> r.value
    ensures r.Err? ==> r.error == UnexpectedReferenceType
  {
    LinkedRefs(e, pool);
    match e
    case ClassInfo(x) => EnsureRefType(x, pool, UTF8)
    case String(x) => EnsureRefType(x, pool, UTF8)
    case FieldRef(x, y) =>
      var a :- EnsureRefType(x, pool, CLASS_INFO);
      var b :- EnsureRefType(y, pool, NAME_AND_TYPE);
      Ok(a && b)
    case MethodRef(x, y) =>
      var a :- EnsureRefType(x, pool, CLASS_INFO);
      var b :- EnsureRefType(y, pool, NAME_AND_TYPE);
      Ok(a && b)
    case InterfaceMethodRef(x, y) =>
      var a :- EnsureRefType(x, pool, CLASS_INFO);
      var b :- EnsureRefType(y, pool, NAME_AND_TYPE);
      Ok(a && b)
    case NameAndType(x, y) =>
      var a :- EnsureRefType(x, pool, UTF8);
      var b :- EnsureRefType(y, pool, UTF8);
      Ok(a && b)
    case MethodHandle(kind, y) => EnsureRefType(y, pool, HandleTargetTypes(kind, majorVersion))
    case MethodType(x) => EnsureRefType(x, pool, UTF8)
    case InvokeDynamic(_, y) => EnsureRefType(y, pool, NAME_AND_TYPE)
    case _ => Ok(true)
  }

  // ---------------------------------------------------------------------
  // The same requirement, stated on variants

  /** What a MethodHandle of the given reference kind may refer to. */
  predicate HandleTargetOk(kind: ReferenceKind, target: Entry, majorVersion: u16) {
    match kind
    case GetField | GetStatic | PutField | PutStatic => target.FieldRef?
    case InvokeVirtual | NewInvokeSpecial => target.MethodRef?
    case InvokeStatic | InvokeSpecial => target.MethodRef? || (majorVersion >= 52 && target.InterfaceMethodRef?)
    case InvokeInterface => target.InterfaceMethodRef?
  }

  /** The entry's references name entries of the kinds its variant needs. */
  predicate Conforms(e: Entry, pool: seq<Entry>, majorVersion: u16)
    requires EntryLinked(e, pool)
  {
    LinkedRefs(e, pool);
    match e
    case ClassInfo(x) => pool[x.index].Utf8?
    case String(x) => pool[x.index].Utf8?
    case FieldRef(x, y) => pool[x.index].ClassInfo? && pool[y.index].NameAndType?
    case MethodRef(x, y) => pool[x.index].ClassInfo? && pool[y.index].NameAndType?
    case InterfaceMethodRef(x, y) => pool[x.index].ClassInfo? && pool[y.index].NameAndType?
    case NameAndType(x, y) => pool[x.index].Utf8? && pool[y.index].Utf8?
    case MethodHandle(kind, y) => HandleTargetOk(kind, pool[y.index], majorVersion)
    case MethodType(x) => pool[x.index].Utf8?
    case InvokeDynamic(_, y) => pool[y.index].NameAndType?
    case _ => true
  }

  lemma HandleTypesMeanTargets(kind: ReferenceKind, target: Entry, majorVersion: u16)
    ensures EnsureType(target, HandleTargetTypes(kind, majorVersion)).Ok? <==> HandleTargetOk(kind, target, majorVersion)
  {
    AcceptedKinds(target);
  }

  /** The flag-set matrix accepts an entry exactly when its references
      conform. */
  lemma ValidateMeansConforms(e: Entry, pool: seq<Entry>, majorVersion: u16)
    requires EntryLinked(e, pool)
    ensures Validate(e, pool, majorVersion).Ok? <==> Conforms(e, pool, majorVersion)
  {
    LinkedRefs(e, pool);
    var rs := Refs(e);
    if |rs| >= 1 {
      AcceptedKinds(pool[rs[0].index]);
    }
    if |rs| == 2 {
      AcceptedKinds(pool[rs[1].index]);
    }
    if e.MethodHandle? {
      HandleTypesMeanTargets(e.kind, pool[e.referenceRef.index], majorVersion);
    }
  }

  /** The version-52 rule: an invokestatic or invokespecial handle naming an
      interface method is rejected up to version 51 and accepted from 52;
      one naming a class method is accepted at every version. */
  lemma Version52Rule(kind: ReferenceKind, y: Ref, pool: seq<Entry>, majorVersion: u16)
    requires kind == InvokeStatic || kind == InvokeSpecial
    requires y.Resolved? && y.index < |pool|
    ensures pool[y.index].InterfaceMethodRef? ==>
              (Validate(MethodHandle(kind, y), pool, majorVersion).Ok? <==> majorVersion >= 52)
    ensures pool[y.index].MethodRef? ==> Validate(MethodHandle(kind, y), pool, majorVersion).Ok?
  {
    HandleTypesMeanTargets(kind, pool[y.index], majorVersion);
  }

  // ---------------------------------------------------------------------
  // The whole pool

  /** A linked pool all of whose entries conform. */
  predicate AllConform(pool: seq<Entry>, majorVersion: u16) {
    Linked(pool) && forall j :: 0 <= j < |pool| ==> Conforms(pool[j], pool, majorVersion)
  }

  /** `err` reports the first entry of a linked pool that does not conform. */
  predicate FirstNonConforming(pool: seq<Entry>, majorVersion: u16, err: Error) {
    && Linked(pool)
    && err.InvalidEntry?
    && err.index < |pool|
    && !Conforms(pool[err.index], pool, majorVersion)
    && forall j :: 0 <= j < err.index ==> Conforms(pool[j], pool, majorVersion)
  }

  /** `validate_constant_pool`: validate the entries in index order and
      stop at the first one that fails, reporting its index. */
  method ValidateConstantPool(pool: seq<Entry>, majorVersion: u16) returns (r: Result<()>)
    requires Linked(pool)
    ensures r.Ok? <==> AllConform(pool, majorVersion)
    ensures r.Err? ==> FirstNonConforming(pool, majorVersion, r.error)
  {
    for i := 0 to |pool|
      invariant forall j :: 0 <= j < i ==> Conforms(pool[j], pool, majorVersion)
    {
      ValidateMeansConforms(pool[i], pool, majorVersion);
      var v := Validate(pool[i], pool, majorVersion);
      if v.Err? {
        return Err(InvalidEntry(i));
      }
    }
    return Ok(());
  }
}
