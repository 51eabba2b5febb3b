/** The constant-pool data model: entries, references into the pool, the
    16-bit set of entry kinds, and the checked accessors on entries.

    The original shares entries through reference counting and keeps each
    reference in a mutable cell. Here the pool is an arena: a reference is
    the raw 16-bit index read from the class file, tagged with whether the
    resolver has linked it yet, and a resolved reference is followed by
    looking the index up in the pool. */
module Entries {
  import opened Results
  import opened Bytes

  /** The nine MethodHandle reference kinds, codes 1 to 9 (section 4.4.8 of
      The Java Virtual Machine Specification, Java SE 8 edition). */
  datatype ReferenceKind =
    | GetField | GetStatic | PutField | PutStatic
    | InvokeVirtual | InvokeStatic | InvokeSpecial | NewInvokeSpecial
    | InvokeInterface

  /** A reference to another pool entry. `Resolved` keeps the same index and
      records that the target was itself fully resolved when it was linked. */
  datatype Ref = Unresolved(index: u16) | Resolved(index: u16)

  datatype Entry =
    | Zero                                         // slot 0 sentinel
    | Utf8(text: string)
    | Integer(intValue: i32)
    | Float(floatBits: u32)                        // raw IEEE 754 bits
    | Long(longValue: i64)
    | Double(doubleBits: u64)                      // raw IEEE 754 bits
    | ClassInfo(nameRef: Ref)
    | String(stringRef: Ref)
    | FieldRef(classRef: Ref, nameAndTypeRef: Ref)
    | MethodRef(classRef: Ref, nameAndTypeRef: Ref)
    | InterfaceMethodRef(classRef: Ref, nameAndTypeRef: Ref)
    | NameAndType(nameRef: Ref, descriptorRef: Ref)
    | MethodHandle(kind: ReferenceKind, referenceRef: Ref)
    | MethodType(descriptorRef: Ref)
    | InvokeDynamic(bootstrapMethod: u16, nameAndTypeRef: Ref)  // bootstrap index is never resolved here
    | Unused                                       // second slot of a Long or Double

  // ---------------------------------------------------------------------
  // Outgoing references of an entry

  /** The references an entry holds, in field order. */
  function Refs(e: Entry): seq<Ref> {
    match e
    case ClassInfo(x) => [x]
    case String(x) => [x]
    case FieldRef(x, y) => [x, y]
    case MethodRef(x, y) => [x, y]
    case InterfaceMethodRef(x, y) => [x, y]
    case NameAndType(x, y) => [x, y]
    case MethodHandle(_, y) => [y]
    case MethodType(x) => [x]
    case InvokeDynamic(_, y) => [y]
    case _ => []
  }

  /** The raw pool indices an entry refers to, in field order. */
  function Targets(e: Entry): (t: seq<nat>)
    ensures |t| == |Refs(e)|
    ensures forall k :: 0 <= k < |t| ==> t[k] == Refs(e)[k].index
  {
    match e
    case ClassInfo(x) => [x.index]
    case String(x) => [x.index]
    case FieldRef(x, y) => [x.index, y.index]
    case MethodRef(x, y) => [x.index, y.index]
    case InterfaceMethodRef(x, y) => [x.index, y.index]
    case NameAndType(x, y) => [x.index, y.index]
    case MethodHandle(_, y) => [y.index]
    case MethodType(x) => [x.index]
    case InvokeDynamic(_, y) => [y.index]
    case _ => []
  }

  /** The entry with its references replaced by `rs`, everything else kept. */
  function WithRefs(e: Entry, rs: seq<Ref>): (e': Entry)
    requires |rs| == |Refs(e)|
    ensures Refs(e') == rs
    ensures GetType(e') == GetType(e)
    ensures rs == Refs(e) ==> e' == e
  {
    match e
    case ClassInfo(_) => ClassInfo(rs[0])
    case String(_) => String(rs[0])
    case FieldRef(_, _) => FieldRef(rs[0], rs[1])
    case MethodRef(_, _) => MethodRef(rs[0], rs[1])
    case InterfaceMethodRef(_, _) => InterfaceMethodRef(rs[0], rs[1])
    case NameAndType(_, _) => NameAndType(rs[0], rs[1])
    case MethodHandle(k, _) => MethodHandle(k, rs[0])
    case MethodType(_) => MethodType(rs[0])
    case InvokeDynamic(b, _) => InvokeDynamic(b, rs[0])
    case _ => e
  }

  /** The entry as the decoder produced it: every reference unresolved. Two
      entries with the same skeleton differ only in which references have
      been linked. */
  function Skeleton(e: Entry): Entry {
    match e
    case ClassInfo(x) => ClassInfo(Unresolved(x.index))
    case String(x) => String(Unresolved(x.index))
    case FieldRef(x, y) => FieldRef(Unresolved(x.index), Unresolved(y.index))
    case MethodRef(x, y) => MethodRef(Unresolved(x.index), Unresolved(y.index))
    case InterfaceMethodRef(x, y) => InterfaceMethodRef(Unresolved(x.index), Unresolved(y.index))
    case NameAndType(x, y) => NameAndType(Unresolved(x.index), Unresolved(y.index))
    case MethodHandle(k, y) => MethodHandle(k, Unresolved(y.index))
    case MethodType(x) => MethodType(Unresolved(x.index))
    case InvokeDynamic(b, y) => InvokeDynamic(b, Unresolved(y.index))
    case _ => e
  }

  /** Relinking references without changing their indices keeps the skeleton. */
  lemma SkeletonOfWithRefs(e: Entry, rs: seq<Ref>)
    requires |rs| == |Refs(e)|
    requires forall k :: 0 <= k < |rs| ==> rs[k].index == Refs(e)[k].index
    ensures Skeleton(WithRefs(e, rs)) == Skeleton(e)
  {
  }

  /** Entries with the same skeleton are of the same kind and refer to the
      same indices. */
  lemma SkeletonKeepsShape(a: Entry, b: Entry)
    requires Skeleton(a) == Skeleton(b)
    ensures GetType(a) == GetType(b)
    ensures Targets(a) == Targets(b)
  {
  }

  /** `ConstantPoolEntry::is_resolved`: every reference the entry holds has
      been linked. Entries without references are always resolved. */
  function IsResolved(e: Entry): (b: bool)
    ensures b <==> forall r :: r in Refs(e) ==> r.Resolved?
  {
    match e
    case ClassInfo(x) => x.Resolved?
    case String(x) => x.Resolved?
    case FieldRef(x, y) => x.Resolved? && y.Resolved?
    case MethodRef(x, y) => x.Resolved? && y.Resolved?
    case InterfaceMethodRef(x, y) => x.Resolved? && y.Resolved?
    case NameAndType(x, y) => x.Resolved? && y.Resolved?
    case MethodHandle(_, y) => y.Resolved?
    case MethodType(x) => x.Resolved?
    case InvokeDynamic(_, y) => y.Resolved?
    case _ => true
  }

  // ---------------------------------------------------------------------
  // Kinds as a 16-bit flag set (`ConstantPoolEntryTypes`)

  type EntryTypes = bv16

  const ZERO: EntryTypes := 0x0001
  const UTF8: EntryTypes := 0x0002
  const INTEGER: EntryTypes := 0x0004
  const FLOAT: EntryTypes := 0x0008
  const LONG: EntryTypes := 0x0010
  const DOUBLE: EntryTypes := 0x0020
  const CLASS_INFO: EntryTypes := 0x0040
  const STRING: EntryTypes := 0x0080
  const FIELD_REF: EntryTypes := 0x0100
  const METHOD_REF: EntryTypes := 0x0200
  const INTERFACE_METHOD_REF: EntryTypes := 0x0400
  const NAME_AND_TYPE: EntryTypes := 0x0800
  const METHOD_HANDLE: EntryTypes := 0x1000
  const METHOD_TYPE: EntryTypes := 0x2000
  const INVOKE_DYNAMIC: EntryTypes := 0x4000
  const UNUSED: EntryTypes := 0x8000

  const CLASS_OR_ZERO: EntryTypes := ZERO | CLASS_INFO
  const NEW_METHOD_REFS: EntryTypes := METHOD_REF | INTERFACE_METHOD_REF
  const CONSTANTS: EntryTypes := INTEGER | FLOAT | LONG | DOUBLE | STRING
  const UTF8_OR_ZERO: EntryTypes := ZERO | UTF8
  const NAME_AND_TYPE_OR_ZERO: EntryTypes := ZERO | NAME_AND_TYPE

  /** bitflags' `contains`: every bit of `t` is in `allowed`. */
  predicate Contains(allowed: EntryTypes, t: EntryTypes) {
    allowed & t == t
  }

  /** `get_type`: the one flag bit naming the entry's variant. */
  function GetType(e: Entry): (t: EntryTypes)
    ensures t != 0 && t & (t - 1) == 0
  {
    match e
    case Zero => ZERO
    case Utf8(_) => UTF8
    case Integer(_) => INTEGER
    case Float(_) => FLOAT
    case Long(_) => LONG
    case Double(_) => DOUBLE
    case ClassInfo(_) => CLASS_INFO
    case String(_) => STRING
    case FieldRef(_, _) => FIELD_REF
    case MethodRef(_, _) => METHOD_REF
    case InterfaceMethodRef(_, _) => INTERFACE_METHOD_REF
    case NameAndType(_, _) => NAME_AND_TYPE
    case MethodHandle(_, _) => METHOD_HANDLE
    case MethodType(_) => METHOD_TYPE
    case InvokeDynamic(_, _) => INVOKE_DYNAMIC
    case Unused => UNUSED
  }

  /** Two entries are built by the same constructor. */
  predicate SameVariant(a: Entry, b: Entry) {
    && a.Zero? == b.Zero? && a.Utf8? == b.Utf8?
    && a.Integer? == b.Integer? && a.Float? == b.Float?
    && a.Long? == b.Long? && a.Double? == b.Double?
    && a.ClassInfo? == b.ClassInfo? && a.String? == b.String?
    && a.FieldRef? == b.FieldRef? && a.MethodRef? == b.MethodRef?
    && a.InterfaceMethodRef? == b.InterfaceMethodRef? && a.NameAndType? == b.NameAndType?
    && a.MethodHandle? == b.MethodHandle? && a.MethodType? == b.MethodType?
    && a.InvokeDynamic? == b.InvokeDynamic? && a.Unused? == b.Unused?
  }

  /** Distinct variants get distinct bits, the same variant the same bit. */
  lemma GetTypeDistinct(a: Entry, b: Entry)
    ensures GetType(a) == GetType(b) <==> SameVariant(a, b)
  {
  }

  /** `ensure_type`: succeeds exactly when the entry's kind is allowed. */
  function EnsureType(e: Entry, allowed: EntryTypes): (r: Result<bool>)
    ensures r.Ok? ==> r.value
    ensures r.Err? ==> r.error == UnexpectedReferenceType
  {
    if Contains(allowed, GetType(e)) then Ok(true) else Err(UnexpectedReferenceType)
  }

  /** Because every kind is a single bit, a union of flag sets accepts an
      entry exactly when one of its parts does. */
  lemma SingleBitUnion(a: EntryTypes, b: EntryTypes, t: EntryTypes)
    requires t != 0 && t & (t - 1) == 0
    ensures (a | b) & t == t <==> a & t == t || b & t == t
  {
  }

  lemma {:induction false} EnsureTypeUnion(e: Entry, a: EntryTypes, b: EntryTypes)
    ensures EnsureType(e, a | b).Ok? <==> EnsureType(e, a).Ok? || EnsureType(e, b).Ok?
  {
    SingleBitUnion(a, b, GetType(e));
  }

  /** What each flag set used by the validator and by the class-file parser
      accepts, stated on the variants themselves. */
  lemma AcceptedKinds(e: Entry)
    ensures EnsureType(e, UTF8).Ok? <==> e.Utf8?
    ensures EnsureType(e, CLASS_INFO).Ok? <==> e.ClassInfo?
    ensures EnsureType(e, NAME_AND_TYPE).Ok? <==> e.NameAndType?
    ensures EnsureType(e, FIELD_REF).Ok? <==> e.FieldRef?
    ensures EnsureType(e, METHOD_REF).Ok? <==> e.MethodRef?
    ensures EnsureType(e, INTERFACE_METHOD_REF).Ok? <==> e.InterfaceMethodRef?
    ensures EnsureType(e, NEW_METHOD_REFS).Ok? <==> e.MethodRef? || e.InterfaceMethodRef?
    ensures EnsureType(e, CLASS_OR_ZERO).Ok? <==> e.Zero? || e.ClassInfo?
    ensures EnsureType(e, UTF8_OR_ZERO).Ok? <==> e.Zero? || e.Utf8?
    ensures EnsureType(e, NAME_AND_TYPE_OR_ZERO).Ok? <==> e.Zero? || e.NameAndType?
    ensures EnsureType(e, CONSTANTS).Ok? <==> e.Integer? || e.Float? || e.Long? || e.Double? || e.String?
  {
  }

  /** The sentinel and the placeholder pass only through sets holding their
      own bit. */
  lemma SentinelsNeedTheirBit(allowed: EntryTypes)
    ensures EnsureType(Zero, allowed).Ok? <==> allowed & ZERO != 0
    ensures EnsureType(Unused, allowed).Ok? <==> allowed & UNUSED != 0
  {
  }

  // ---------------------------------------------------------------------
  // Typed accessors. The original panics on the wrong variant; here that
  // is a precondition.

  /** `utf8`: the decoded text of a Utf8 entry. */
  function Utf8Text(e: Entry): (s: string)
    requires e.Utf8?
    ensures e == Utf8(s)
  {
    e.text
  }

  /** `classinfo_utf8`: follow a ClassInfo's linked name to its text. */
  function ClassInfoUtf8(e: Entry, pool: seq<Entry>): (s: string)
    requires e.ClassInfo? && e.nameRef.Resolved? && e.nameRef.index < |pool|
    requires pool[e.nameRef.index].Utf8?
    ensures pool[e.nameRef.index] == Utf8(s)
  {
    Utf8Text(pool[e.nameRef.index])
  }
}
