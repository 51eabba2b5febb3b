/** The decoder: the per-tag readers and the loop that reads the entries of
    a constant pool, in the layout of section 4.4 of The Java Virtual
    Machine Specification (Java SE 8 edition). Every reference comes out
    unresolved, carrying the raw 16-bit index read from the class file.

    Each reader is a method over the byte slice and a cursor, as in the
    original; its contract ties its outcome to a pure description of the
    bytes (`RefAt`, `FixedPayload`, `Utf8At`, `EntryAt`, `DecodeFrom`),
    about which the layout facts are then proved. On failure the cursor's
    final value is not specified: the original abandons the whole read. */
module Decoder {
  import opened Results
  import opened Bytes
  import opened Entries

  /** Decoding of Java's modified UTF-8 (CESU-8): the text, or `None` when
      the bytes are malformed. The decoder itself is not part of this model. */
  type TextDecoder = seq<u8> -> Option<string>

  /** A method's pair of outcome and cursor agrees with a pure outcome. */
  predicate Agrees<T(==)>(r: Result<T>, next: nat, spec: Result<(T, nat)>) {
    match spec
    case Ok(v) => r == Ok(v.0) && next == v.1
    case Err(e) => r == Err(e)
  }

  // ---------------------------------------------------------------------
  // Fixed-width fields

  function U1At(b: seq<u8>, p: nat): Result<(u8, nat)> {
    if p + 1 <= |b| then Ok((b[p], p + 1)) else Err(Truncated(p))
  }

  function U2At(b: seq<u8>, p: nat): Result<(u16, nat)> {
    if p + 2 <= |b| then Ok((BE16(b, p), p + 2)) else Err(Truncated(p))
  }

  function U4At(b: seq<u8>, p: nat): Result<(u32, nat)> {
    if p + 4 <= |b| then Ok((BE32(b, p), p + 4)) else Err(Truncated(p))
  }

  function U8At(b: seq<u8>, p: nat): Result<(u64, nat)> {
    if p + 8 <= |b| then Ok((BE64(b, p), p + 8)) else Err(Truncated(p))
  }

  /** A reference field: an unresolved reference to the index at `p`. */
  function RefAt(b: seq<u8>, p: nat): (r: Result<(Ref, nat)>)
    ensures r.Ok? <==> p + 2 <= |b|
    ensures r.Ok? ==> r.value == (Unresolved(BE16(b, p)), p + 2)
    ensures r.Err? ==> r.error == Truncated(p)
  {
    var v :- U2At(b, p);
    Ok((Unresolved(v.0), v.1))
  }

  // ---------------------------------------------------------------------
  // Tags and reference kinds

  /** The code of each reference kind (Table 5.4.3.5-A). */
  function KindCode(k: ReferenceKind): (c: u8)
    ensures 1 <= c <= 9
  {
    match k
    case GetField => 1
    case GetStatic => 2
    case PutField => 3
    case PutStatic => 4
    case InvokeVirtual => 5
    case InvokeStatic => 6
    case InvokeSpecial => 7
    case NewInvokeSpecial => 8
    case InvokeInterface => 9
  }

  /** The reference-kind byte of a MethodHandle; codes outside 1..9 are
      rejected. */
  function KindOf(code: u8): (r: Option<ReferenceKind>)
    ensures r.Some? <==> 1 <= code <= 9
    ensures r.Some? ==> KindCode(r.value) == code
  {
    match code
    case 1 => Some(GetField)
    case 2 => Some(GetStatic)
    case 3 => Some(PutField)
    case 4 => Some(PutStatic)
    case 5 => Some(InvokeVirtual)
    case 6 => Some(InvokeStatic)
    case 7 => Some(InvokeSpecial)
    case 8 => Some(NewInvokeSpecial)
    case 9 => Some(InvokeInterface)
    case _ => None
  }

  /** Every reference kind is read back from its own code. */
  lemma KindRoundTrip(k: ReferenceKind)
    ensures KindOf(KindCode(k)) == Some(k)
  {
  }

  /** The tags of Table 4.4-A of The Java Virtual Machine Specification
      that this reader accepts. */
  predicate KnownTag(tag: u8) {
    tag == 1 || 3 <= tag <= 12 || tag == 15 || tag == 16 || tag == 18
  }

  /** Long and Double take two pool slots. */
  predicate WideTag(tag: u8) {
    tag == 5 || tag == 6
  }

  /** The tag of each kind of entry; the two placeholders have none. */
  function TagOf(e: Entry): (t: u8)
    ensures e.Zero? || e.Unused? <==> t == 0
    ensures t != 0 ==> KnownTag(t)
  {
    match e
    case Zero => 0
    case Utf8(_) => 1
    case Integer(_) => 3
    case Float(_) => 4
    case Long(_) => 5
    case Double(_) => 6
    case ClassInfo(_) => 7
    case String(_) => 8
    case FieldRef(_, _) => 9
    case MethodRef(_, _) => 10
    case InterfaceMethodRef(_, _) => 11
    case NameAndType(_, _) => 12
    case MethodHandle(_, _) => 15
    case MethodType(_) => 16
    case InvokeDynamic(_, _) => 18
    case Unused => 0
  }

  /** The number of bytes after the tag of an entry of fixed size. */
  function Width(tag: u8): nat
    requires KnownTag(tag) && tag != 1
  {
    if tag == 3 || tag == 4 then 4
    else if tag == 5 || tag == 6 then 8
    else if tag == 7 || tag == 8 || tag == 16 then 2
    else if tag == 15 then 3
    else 4
  }

  // ---------------------------------------------------------------------
  // The body of one entry

  /** A CONSTANT_Utf8 body at `p`: a 16-bit length and that many bytes. */
  function Utf8At(b: seq<u8>, p: nat, decodeText: TextDecoder): (r: Result<(Entry, nat)>)
    ensures r.Ok? ==> r.value.0.Utf8? && p + 2 <= r.value.1 <= |b|
  {
    var len :- U2At(b, p);
    var q := len.1;
    var n := len.0 as nat;
    if |b| < q + n then Err(Utf8Truncated(q))
    else match decodeText(b[q .. q + n])
      case None => Err(MalformedUtf8(q, q + n))
      case Some(s) => Ok((Utf8(s), q + n))
  }

  /** The body at `p` of an entry of fixed size with tag `tag`. */
  function FixedPayload(tag: u8, b: seq<u8>, p: nat): (r: Result<(Entry, nat)>)
    requires KnownTag(tag) && tag != 1
    ensures r.Ok? ==> TagOf(r.value.0) == tag && Unlinked(r.value.0)
    ensures r.Ok? ==> r.value.1 == p + Width(tag) <= |b|
  {
    if tag == 3 then var v :- U4At(b, p); Ok((Integer(AsI32(v.0)), v.1))
    else if tag == 4 then var v :- U4At(b, p); Ok((Float(v.0), v.1))
    else if tag == 5 then var v :- U8At(b, p); Ok((Long(AsI64(v.0)), v.1))
    else if tag == 6 then var v :- U8At(b, p); Ok((Double(v.0), v.1))
    else if tag == 7 then var x :- RefAt(b, p); Ok((ClassInfo(x.0), x.1))
    else if tag == 8 then var x :- RefAt(b, p); Ok((String(x.0), x.1))
    else if 9 <= tag <= 12 then
      var x :- RefAt(b, p);
      var y :- RefAt(b, x.1);
      Ok((if tag == 9 then FieldRef(x.0, y.0)
          else if tag == 10 then MethodRef(x.0, y.0)
          else if tag == 11 then InterfaceMethodRef(x.0, y.0)
          else NameAndType(x.0, y.0), y.1))
    else if tag == 15 then
      var k :- U1At(b, p);
      match KindOf(k.0)
      case None => Err(UnknownReferenceKind(k.0, p))
      case Some(kind) => var y :- RefAt(b, k.1); Ok((MethodHandle(kind, y.0), y.1))
    else if tag == 16 then var x :- RefAt(b, p); Ok((MethodType(x.0), x.1))
    else
      var bsm :- U2At(b, p);
      var y :- RefAt(b, bsm.1);
      Ok((InvokeDynamic(bsm.0, y.0), y.1))
  }

  /** The body of an entry with a known tag, Utf8 or of fixed size. */
  function Payload(tag: u8, b: seq<u8>, p: nat, decodeText: TextDecoder): (r: Result<(Entry, nat)>)
    requires KnownTag(tag)
    ensures r.Ok? ==> TagOf(r.value.0) == tag && Unlinked(r.value.0)
    ensures r.Ok? ==> p < r.value.1 <= |b|
  {
    if tag == 1 then Utf8At(b, p, decodeText) else FixedPayload(tag, b, p)
  }

  /** One entry at `at`: its tag, the entry and the cursor after it. */
  function EntryAt(b: seq<u8>, at: nat, decodeText: TextDecoder): (r: Result<(u8, Entry, nat)>)
    ensures r.Ok? ==> at < |b| && r.value.0 == b[at] && TagOf(r.value.1) == r.value.0
    ensures r.Ok? ==> Unlinked(r.value.1) && at + 1 < r.value.2 <= |b|
  {
    var t :- U1At(b, at);
    if !KnownTag(t.0) then Err(UnknownTag(t.0, at))
    else var e :- Payload(t.0, b, t.1, decodeText); Ok((t.0, e.0, e.1))
  }

  // ---------------------------------------------------------------------
  // What a body holds

  /** A fixed-size body succeeds exactly when its bytes are present and, for
      a MethodHandle, its kind byte is a known code; it then ends `Width`
      bytes on, is of the kind its tag names, and holds only unresolved
      references to the indices stored at the offsets that section 4.4 of
      The Java Virtual Machine Specification gives. */
  lemma FixedPayloadLayout(tag: u8, b: seq<u8>, p: nat)
    requires KnownTag(tag) && tag != 1
    ensures FixedPayload(tag, b, p).Ok? <==>
              p + Width(tag) <= |b| && (tag == 15 ==> 1 <= b[p] <= 9)
    ensures FixedPayload(tag, b, p).Ok? ==>
              var (e, q) := FixedPayload(tag, b, p).value;
              && q == p + Width(tag)
              && TagOf(e) == tag
              && (tag == 3 ==> e.intValue == AsI32(BE32(b, p)))
              && (tag == 4 ==> e.floatBits == BE32(b, p))
              && (tag == 5 ==> e.longValue == AsI64(BE64(b, p)))
              && (tag == 6 ==> e.doubleBits == BE64(b, p))
              && (tag == 7 || tag == 8 || tag == 16 ==> Refs(e) == [Unresolved(BE16(b, p))])
              && (9 <= tag <= 12 ==> Refs(e) == [Unresolved(BE16(b, p)), Unresolved(BE16(b, p + 2))])
              && (tag == 15 ==> KindCode(e.kind) == b[p] && Refs(e) == [Unresolved(BE16(b, p + 1))])
              && (tag == 18 ==> e.bootstrapMethod == BE16(b, p) && Refs(e) == [Unresolved(BE16(b, p + 2))])
    ensures tag == 15 && p < |b| && !(1 <= b[p] <= 9) ==>
              FixedPayload(tag, b, p) == Err(UnknownReferenceKind(b[p], p))
  {
  }

  /** A Utf8 body succeeds exactly when its length and its bytes are present
      and the bytes decode; the text is their decoding. A length running
      past the end is reported at the first text byte, bad bytes with the
      range they occupy. */
  lemma Utf8Layout(b: seq<u8>, p: nat, decodeText: TextDecoder)
    ensures p + 2 <= |b| ==>
              var n := BE16(b, p) as nat;
              && (Utf8At(b, p, decodeText).Ok? <==>
                    p + 2 + n <= |b| && decodeText(b[p + 2 .. p + 2 + n]).Some?)
              && (Utf8At(b, p, decodeText).Ok? ==>
                    Utf8At(b, p, decodeText).value ==
                      (Utf8(decodeText(b[p + 2 .. p + 2 + n]).value), p + 2 + n))
              && (p + 2 + n > |b| ==> Utf8At(b, p, decodeText) == Err(Utf8Truncated(p + 2)))
              && (p + 2 + n <= |b| && decodeText(b[p + 2 .. p + 2 + n]).None? ==>
                    Utf8At(b, p, decodeText) == Err(MalformedUtf8(p + 2, p + 2 + n)))
    ensures p + 2 > |b| ==> Utf8At(b, p, decodeText) == Err(Truncated(p))
  {
  }

  /** An entry read from the stream is of the kind its tag names, is never a
      placeholder, holds only unresolved references and lies within the
      bytes. An unknown tag is reported at its own offset. */
  lemma EntryAtFacts(b: seq<u8>, at: nat, decodeText: TextDecoder)
    ensures EntryAt(b, at, decodeText).Ok? ==>
              var (tag, e, next) := EntryAt(b, at, decodeText).value;
              && at < |b| && tag == b[at]
              && TagOf(e) == tag && !e.Zero? && !e.Unused?
              && Unlinked(e)
              && at + 1 < next <= |b|
    ensures at < |b| && !KnownTag(b[at]) ==> EntryAt(b, at, decodeText) == Err(UnknownTag(b[at], at))
    ensures at >= |b| ==> EntryAt(b, at, decodeText) == Err(Truncated(at))
  {
    if at < |b| && KnownTag(b[at]) {
      if b[at] == 1 {
        Utf8Layout(b, at + 1, decodeText);
      } else {
        FixedPayloadLayout(b[at], b, at + 1);
      }
    }
  }

  // ---------------------------------------------------------------------
  // The whole pool

  /** No reference of `e` has been linked yet. */
  predicate Unlinked(e: Entry) {
    forall k :: 0 <= k < |Refs(e)| ==> Refs(e)[k].Unresolved?
  }

  /** The slot that follows the entry at `cpIx` with tag `tag`. */
  function NextSlot(cpIx: nat, tag: u8): (n: nat)
    ensures n > cpIx
  {
    if WideTag(tag) then cpIx + 2 else cpIx + 1
  }

  /** The rest of the pool, from slot `cpIx` below `count`, appended to the
      entries read so far; a Long or Double is followed by `Unused`. */
  function DecodeFrom(b: seq<u8>, ix: nat, cpIx: nat, count: nat, pool: seq<Entry>, decodeText: TextDecoder)
    : (r: Result<(seq<Entry>, nat)>)
    ensures r.Ok? ==> pool <= r.value.0 && |r.value.0| - |pool| >= count - cpIx
    ensures r.Ok? ==> ix <= r.value.1 && (cpIx < count ==> r.value.1 <= |b|)
    decreases count - cpIx
  {
    if cpIx >= count then Ok((pool, ix))
    else
      var step :- EntryAt(b, ix, decodeText);
      var grown := if WideTag(step.0) then pool + [step.1] + [Unused] else pool + [step.1];
      DecodeFrom(b, step.2, NextSlot(cpIx, step.0), count, grown, decodeText)
  }

  /** The shape of a decoded pool: slot 0 holds the sentinel and no other
      slot does; every Long or Double is followed by `Unused`, and `Unused`
      only ever follows one of them. */
  predicate WellLaid(pool: seq<Entry>) {
    && |pool| >= 1 && pool[0] == Zero
    && (forall j :: 1 <= j < |pool| ==> !pool[j].Zero?)
    && (forall j :: 0 <= j < |pool| && (pool[j].Long? || pool[j].Double?) ==>
          j + 1 < |pool| && pool[j + 1].Unused?)
    && (forall j :: 0 <= j < |pool| && pool[j].Unused? ==>
          j >= 1 && (pool[j - 1].Long? || pool[j - 1].Double?))
  }

  predicate AllUnlinked(pool: seq<Entry>) {
    forall j :: 0 <= j < |pool| ==> Unlinked(pool[j])
  }

  /** Appending one decoded entry, and its `Unused` when it is wide, keeps
      the shape. */
  lemma GrowKeepsLayout(pool: seq<Entry>, tag: u8, e: Entry)
    requires WellLaid(pool) && AllUnlinked(pool)
    requires TagOf(e) == tag && tag != 0 && Unlinked(e)
    ensures var grown := if WideTag(tag) then pool + [e] + [Unused] else pool + [e];
            WellLaid(grown) && AllUnlinked(grown)
  {
    var grown := if WideTag(tag) then pool + [e] + [Unused] else pool + [e];
    assert grown[|pool|] == e;
    assert forall j :: 0 <= j < |pool| ==> grown[j] == pool[j];
  }

  /** Decoding keeps the shape and leaves every reference unlinked. While
      the slot counter equals the number of entries, the pool ends with
      exactly `count` slots, or `count + 1` when a Long or Double sits in the
      last slot. */
  lemma {:induction false} DecodeKeepsLayout(b: seq<u8>, ix: nat, cpIx: nat, count: nat, pool: seq<Entry>,
                                             decodeText: TextDecoder, p: seq<Entry>, next: nat)
    requires WellLaid(pool) && AllUnlinked(pool) && |pool| == cpIx
    requires DecodeFrom(b, ix, cpIx, count, pool, decodeText) == Ok((p, next))
    ensures WellLaid(p) && AllUnlinked(p)
    ensures cpIx >= count ==> |p| == cpIx
    ensures cpIx < count ==> count <= |p| <= count + 1
    ensures cpIx < count ==> (|p| == count + 1 <==> p[count - 1].Long? || p[count - 1].Double?)
    ensures cpIx < count ==> ix < next <= |b|
    ensures pool <= p
    decreases count - cpIx
  {
    if cpIx < count {
      EntryAtFacts(b, ix, decodeText);
      var step := EntryAt(b, ix, decodeText).value;
      var grown := if WideTag(step.0) then pool + [step.1] + [Unused] else pool + [step.1];
      GrowKeepsLayout(pool, step.0, step.1);
      DecodeKeepsLayout(b, step.2, NextSlot(cpIx, step.0), count, grown, decodeText, p, next);
    }
  }

  /** The pool as `read_constant_pool` lays it out before resolution. */
  lemma DecodedPool(b: seq<u8>, ix: nat, count: u16, decodeText: TextDecoder, p: seq<Entry>, next: nat)
    requires DecodeFrom(b, ix, 1, count, [Zero], decodeText) == Ok((p, next))
    ensures WellLaid(p) && AllUnlinked(p)
    ensures count <= 1 ==> p == [Zero] && next == ix
    ensures count > 1 ==> count <= |p| <= count + 1 && ix < next <= |b|
    ensures count > 1 ==> (|p| == count as nat + 1 <==> p[count - 1].Long? || p[count - 1].Double?)
  {
    DecodeKeepsLayout(b, ix, 1, count, [Zero], decodeText, p, next);
  }

  // ---------------------------------------------------------------------
  // The readers

  /** `read_unresolved_cp_ref`. */
  method ReadUnresolvedCpRef(bytes: seq<u8>, ix: nat) returns (r: Result<Ref>, next: nat)
    ensures Agrees(r, next, RefAt(bytes, ix))
  {
    next := ix;
    var v, n :- ReadU2(bytes, ix);
    return Ok(Unresolved(v)), n;
  }

  /** `read_constant_utf8`. */
  method ReadConstantUtf8(bytes: seq<u8>, ix: nat, decodeText: TextDecoder) returns (r: Result<Entry>, next: nat)
    ensures Agrees(r, next, Utf8At(bytes, ix, decodeText))
  {
    next := ix;
    var length, n :- ReadU2(bytes, ix);
    if |bytes| < n + length {
      return Err(Utf8Truncated(n)), n;
    }
    var data := bytes[n .. n + length];
    next := n + length;
    match decodeText(data)
    case None => r := Err(MalformedUtf8(next - length, next));
    case Some(s) => r := Ok(Utf8(s));
  }

  method ReadConstantInteger(bytes: seq<u8>, ix: nat) returns (r: Result<Entry>, next: nat)
    ensures Agrees(r, next, FixedPayload(3, bytes, ix))
  {
    next := ix;
    var v, n :- ReadU4(bytes, ix);
    return Ok(Integer(AsI32(v))), n;
  }

  method ReadConstantFloat(bytes: seq<u8>, ix: nat) returns (r: Result<Entry>, next: nat)
    ensures Agrees(r, next, FixedPayload(4, bytes, ix))
  {
    next := ix;
    var v, n :- ReadU4(bytes, ix);
    return Ok(Float(v)), n;
  }

  method ReadConstantLong(bytes: seq<u8>, ix: nat) returns (r: Result<Entry>, next: nat)
    ensures Agrees(r, next, FixedPayload(5, bytes, ix))
  {
    next := ix;
    var v, n :- ReadU8(bytes, ix);
    return Ok(Long(AsI64(v))), n;
  }

  method ReadConstantDouble(bytes: seq<u8>, ix: nat) returns (r: Result<Entry>, next: nat)
    ensures Agrees(r, next, FixedPayload(6, bytes, ix))
  {
    next := ix;
    var v, n :- ReadU8(bytes, ix);
    return Ok(Double(v)), n;
  }

  method ReadConstantClass(bytes: seq<u8>, ix: nat) returns (r: Result<Entry>, next: nat)
    ensures Agrees(r, next, FixedPayload(7, bytes, ix))
  {
    next := ix;
    var nameRef, n :- ReadUnresolvedCpRef(bytes, ix);
    return Ok(ClassInfo(nameRef)), n;
  }

  method ReadConstantString(bytes: seq<u8>, ix: nat) returns (r: Result<Entry>, next: nat)
    ensures Agrees(r, next, FixedPayload(8, bytes, ix))
  {
    next := ix;
    var valueRef, n :- ReadUnresolvedCpRef(bytes, ix);
    return Ok(String(valueRef)), n;
  }

  method ReadConstantFieldref(bytes: seq<u8>, ix: nat) returns (r: Result<Entry>, next: nat)
    ensures Agrees(r, next, FixedPayload(9, bytes, ix))
  {
    next := ix;
    var classRef, n :- ReadUnresolvedCpRef(bytes, ix);
    var nameAndTypeRef, n2 :- ReadUnresolvedCpRef(bytes, n);
    return Ok(FieldRef(classRef, nameAndTypeRef)), n2;
  }

  method ReadConstantMethodref(bytes: seq<u8>, ix: nat) returns (r: Result<Entry>, next: nat)
    ensures Agrees(r, next, FixedPayload(10, bytes, ix))
  {
    next := ix;
    var classRef, n :- ReadUnresolvedCpRef(bytes, ix);
    var nameAndTypeRef, n2 :- ReadUnresolvedCpRef(bytes, n);
    return Ok(MethodRef(classRef, nameAndTypeRef)), n2;
  }

  method ReadConstantInterfacemethodref(bytes: seq<u8>, ix: nat) returns (r: Result<Entry>, next: nat)
    ensures Agrees(r, next, FixedPayload(11, bytes, ix))
  {
    next := ix;
    var classRef, n :- ReadUnresolvedCpRef(bytes, ix);
    var nameAndTypeRef, n2 :- ReadUnresolvedCpRef(bytes, n);
    return Ok(InterfaceMethodRef(classRef, nameAndTypeRef)), n2;
  }

  method ReadConstantNameandtype(bytes: seq<u8>, ix: nat) returns (r: Result<Entry>, next: nat)
    ensures Agrees(r, next, FixedPayload(12, bytes, ix))
  {
    next := ix;
    var nameRef, n :- ReadUnresolvedCpRef(bytes, ix);
    var descriptorRef, n2 :- ReadUnresolvedCpRef(bytes, n);
    return Ok(NameAndType(nameRef, descriptorRef)), n2;
  }

  method ReadConstantMethodhandle(bytes: seq<u8>, ix: nat) returns (r: Result<Entry>, next: nat)
    ensures Agrees(r, next, FixedPayload(15, bytes, ix))
  {
    next := ix;
    var code, n :- ReadU1(bytes, ix);
    var kind := KindOf(code);
    if kind.None? {
      return Err(UnknownReferenceKind(code, n - 1)), n;
    }
    var referenceRef, n2 :- ReadUnresolvedCpRef(bytes, n);
    return Ok(MethodHandle(kind.value, referenceRef)), n2;
  }

  method ReadConstantMethodtype(bytes: seq<u8>, ix: nat) returns (r: Result<Entry>, next: nat)
    ensures Agrees(r, next, FixedPayload(16, bytes, ix))
  {
    next := ix;
    var descriptorRef, n :- ReadUnresolvedCpRef(bytes, ix);
    return Ok(MethodType(descriptorRef)), n;
  }

  method ReadConstantInvokedynamic(bytes: seq<u8>, ix: nat) returns (r: Result<Entry>, next: nat)
    ensures Agrees(r, next, FixedPayload(18, bytes, ix))
  {
    next := ix;
    var bootstrapMethod, n :- ReadU2(bytes, ix);
    var nameAndTypeRef, n2 :- ReadUnresolvedCpRef(bytes, n);
    return Ok(InvokeDynamic(bootstrapMethod, nameAndTypeRef)), n2;
  }

  /** The dispatch on a known tag. */
  method ReadPayload(tag: u8, bytes: seq<u8>, ix: nat, decodeText: TextDecoder) returns (r: Result<Entry>, next: nat)
    requires KnownTag(tag)
    ensures Agrees(r, next, Payload(tag, bytes, ix, decodeText))
  {
    if tag == 1 { r, next := ReadConstantUtf8(bytes, ix, decodeText); }
    else if tag == 3 { r, next := ReadConstantInteger(bytes, ix); }
    else if tag == 4 { r, next := ReadConstantFloat(bytes, ix); }
    else if tag == 5 { r, next := ReadConstantLong(bytes, ix); }
    else if tag == 6 { r, next := ReadConstantDouble(bytes, ix); }
    else if tag == 7 { r, next := ReadConstantClass(bytes, ix); }
    else if tag == 8 { r, next := ReadConstantString(bytes, ix); }
    else if tag == 9 { r, next := ReadConstantFieldref(bytes, ix); }
    else if tag == 10 { r, next := ReadConstantMethodref(bytes, ix); }
    else if tag == 11 { r, next := ReadConstantInterfacemethodref(bytes, ix); }
    else if tag == 12 { r, next := ReadConstantNameandtype(bytes, ix); }
    else if tag == 15 { r, next := ReadConstantMethodhandle(bytes, ix); }
    else if tag == 16 { r, next := ReadConstantMethodtype(bytes, ix); }
    else { r, next := ReadConstantInvokedynamic(bytes, ix); }
  }

  /** The entry loop of `read_constant_pool`: slot 0 is the sentinel, then
      one entry per slot below `count`, a wide entry taking two. */
  method ReadEntries(bytes: seq<u8>, ix: nat, count: u16, decodeText: TextDecoder)
    returns (r: Result<seq<Entry>>, next: nat)
    ensures Agrees(r, next, DecodeFrom(bytes, ix, 1, count, [Zero], decodeText))
  {
    var pool := [Zero];
    var cpIx: nat := 1;
    next := ix;
    while cpIx < count
      invariant |pool| == cpIx
      invariant DecodeFrom(bytes, next, cpIx, count, pool, decodeText) == DecodeFrom(bytes, ix, 1, count, [Zero], decodeText)
      decreases count - cpIx
    {
      var tag, n :- ReadU1(bytes, next);
      if !KnownTag(tag) {
        return Err(UnknownTag(tag, n - 1)), n;
      }
      var entry, n2 :- ReadPayload(tag, bytes, n, decodeText);
      pool := pool + [entry];
      cpIx := cpIx + 1;
      if tag == 5 || tag == 6 {
        cpIx := cpIx + 1;
        pool := pool + [Unused];
      }
      next := n2;
    }
    r := Ok(pool);
  }

  // ---------------------------------------------------------------------
  // The slot counter

  /** The slot counter as written: a 16-bit integer stepped by one, and by
      one more after a Long or Double, wrapping around at 2^16. */
  function NextSlotAsWritten(cpIx: u16, tag: u8): (n: u16)
    ensures cpIx as nat + (if WideTag(tag) then 2 else 1) < 0x1_0000 ==> n == NextSlot(cpIx, tag)
  {
    var once := (cpIx + 1) % 0x1_0000;
    if WideTag(tag) then (once + 1) % 0x1_0000 else once
  }

  /** A Long in slot 65534 of a pool of 65535 slots wraps the counter to 0,
      which is again below the count, so the loop goes on reading; the
      unbounded counter stops the loop at 65536. */
  lemma SlotCounterWraps()
    ensures NextSlotAsWritten(65534, 5) == 0 < 65535
    ensures NextSlot(65534, 5) == 65536 >= 65535
  {
  }
}
