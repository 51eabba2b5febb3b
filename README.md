# Constant-pool reader of a JVM class-file parser, in Dafny

This project models `src/constant_pool.rs` of the Rust crate `classparse`.
That file reads the constant pool of a JVM class file, following section
4.4 of The Java Virtual Machine Specification, Java SE 8 edition. The work
happens in three phases, run one after the other by `read_constant_pool`:

1. **Decoding.**
   - The entries are read one tag at a time from a byte buffer with a moving cursor.
   - Slot 0 holds the `Zero` sentinel.
   - A Long or Double is followed by an `Unused` slot.
   - Every reference field is kept as the raw 16-bit index (`Unresolved`).
2. **Resolution.**
   - Full passes over the pool link each reference whose target is itself fully resolved.
   - A pass that finds no more resolved entries than the pass before is an error. This is how reference cycles are rejected.
3. **Validation.**
   - Every reference must name an entry of the kind its owner needs.
   - The check uses a 16-bit flag set of entry kinds.
   - For invokestatic and invokespecial method handles, the allowed kinds depend on the class-file version: from version 52 on, interface methods are also accepted.

`read_cp_ref` then gives the rest of the parser a checked, typed lookup of a
pool index. `utf8` and `classinfo_utf8` give it typed accessors.

The pool is modelled as an arena. An entry is a datatype value. A reference
is `Unresolved(index)` or `Resolved(index)`: the index from the class file,
tagged with whether it has been linked. Following a resolved reference means
looking its index up in the pool. This replaces the original's `Rc` sharing
and `RefCell` cells.

The code is modelled in the form the source gives it:

- **Readers.** The per-tag readers and the entry loop are methods over the
  byte sequence and a cursor. Each one is proved to compute a pure
  description of the bytes: `RefAt`, `Utf8At`, `FixedPayload`, `Payload`,
  `EntryAt` and `DecodeFrom`.
- **Resolver.** The resolver overwrites entries in place in an `array`.
  Each rewrite is visible to later entries of the same pass, as in the
  source. The array methods are proved to compute the pure `Pass` and
  `ResolveFrom`, and the resolver's guarantees are proved about those two.
- **Pure parts.** `get_type`, `ensure_type`, `validate`, `is_resolved` and
  the accessors are functions.
- **Validation loop.** The validation loop is a method with an early exit.

Files:

- `results.dfy`: the error kinds and `Result`/`Option`.
- `bytes.dfy`: the integer widths and the big-endian cursor reads.
- `entries.dfy`: the entry datatype, references and the kind flags.
- `decoder.dfy`: the readers and the layout of a decoded pool.
- `resolver.dfy`: reference resolution.
- `resolver_examples.dfy`: two small pools that fix the resolver's behaviour on cycles.
- `validator.dfy`: the kind checks.
- `constant_pool.dfy`: `read_constant_pool`, `read_cp_ref` and facts about validated pools.

A self-reference is not always reported as one. In a two-reference entry,
the second reference is looked at only after the first has resolved (the
`&&` of lines 129-132). So a self-referencing second reference behind a
first reference that never resolves ends in "Unable to resolve all constant
pool entries", not in the self-reference error. `ResolverExamples.MaskedSelfReference`
proves this on a four-entry pool. The model follows the code here.

## Model

| member | source | states |
|---|---|---|
| Bytes.ReadU1 | src/constant_pool.rs:288 | the byte at the cursor and the cursor one further, or a truncation error at the cursor |
| Bytes.ReadU2 | src/constant_pool.rs:228 | the big-endian 16-bit value at the cursor and the cursor two further, or a truncation error at the cursor |
| Bytes.ReadU4 | src/constant_pool.rs:238 | the big-endian 32-bit value at the cursor and the cursor four further, or a truncation error at the cursor |
| Bytes.ReadU8 | src/constant_pool.rs:246 | the big-endian 64-bit value at the cursor and the cursor eight further, or a truncation error at the cursor |
| Bytes.AsI32 | src/constant_pool.rs:238 | `u32 as i32` gives the two's-complement value congruent to the bits modulo 2^32, negative exactly when the top bit is set |
| Bytes.AsI64 | src/constant_pool.rs:246 | `u64 as i64` gives the two's-complement value congruent modulo 2^64, negative exactly when the top bit is set |
| Entries.IsResolved | src/constant_pool.rs:140-153 | an entry is resolved exactly when every reference it holds is linked; entries without references always are |
| Entries.GetType | src/constant_pool.rs:155-174 | every variant maps to a single flag bit |
| Entries.GetTypeDistinct | src/constant_pool.rs:155-174 | two entries get the same bit exactly when they are the same variant |
| Entries.EnsureType | src/constant_pool.rs:201-207 | success carries `true`; failure is the unexpected-reference-type error |
| Entries.SingleBitUnion | src/constant_pool.rs:96-100 | a union of flag sets contains a single bit exactly when one of its parts does |
| Entries.EnsureTypeUnion | src/constant_pool.rs:201-207 | `ensure_type` against a union accepts exactly what one of the parts accepts |
| Entries.AcceptedKinds | src/constant_pool.rs:77-102 | for every flag set that the validator and the parser use (UTF8, CLASS_INFO, NAME_AND_TYPE, the three member-ref sets, NEW_METHOD_REFS, the three `_OR_ZERO` sets, CONSTANTS), `ensure_type` accepts exactly the variants that set names |
| Entries.SentinelsNeedTheirBit | src/constant_pool.rs:77-102 | `Zero` and `Unused` pass a kind check exactly when the allowed set holds their own bit |
| Entries.Utf8Text | src/constant_pool.rs:209-214 | the text is the one the Utf8 entry holds |
| Entries.ClassInfoUtf8 | src/constant_pool.rs:216-221 | the text is the one held by the Utf8 entry that the ClassInfo's linked name names |
| Resolver.ResolveRef | src/constant_pool.rs:14-31 | order of checks: a linked reference stays as it is and yields true; then a self-reference error; then an out-of-bounds error; otherwise the result is true exactly when the target is a sound one (in bounds, not the owner, resolved); the index never changes, and the reference is linked exactly when the result is true |
| Resolver.ResolvePair | src/constant_pool.rs:129-132 | both indices are kept; the pair is reported resolved exactly when both references are linked afterwards; when the first reference stays unlinked, the second is returned exactly as it was |
| Resolver.ResolveEntry | src/constant_pool.rs:125-138 | an already resolved entry is returned unchanged with true; on success the result is true exactly when the entry is resolved afterwards |
| Resolver.ResolveEntryRelinks | src/constant_pool.rs:125-138 | a successful resolution only links references, keeps their indices, keeps every link already made, and links only to sound targets |
| Resolver.ResolveEntryErrors | src/constant_pool.rs:125-138 | an error is a self-reference or an out-of-bounds error coming from one of the entry's own unresolved references; an entry whose targets are all other, in-bounds entries never fails |
| Resolver.ShortCircuit | src/constant_pool.rs:129-132 | when the first of two references does not resolve, the entry comes back unchanged with false, whatever the second one holds |
| Resolver.StepKeepsWellLinked | src/constant_pool.rs:27 | writing back the resolved entry keeps every link in the pool sound |
| Resolver.CountResolved | src/constant_pool.rs:318-323 | the number of resolved entries is at most the pool length |
| Resolver.CountFull | src/constant_pool.rs:317 | the count reaches the pool length exactly when every entry is resolved |
| Resolver.Pass | src/constant_pool.rs:318-323 | a pass only makes progress: every entry keeps its skeleton, keeps its links, and stays resolved once resolved; entries before the start are untouched; the count returned is the number of entries from the start on that are resolved afterwards |
| Resolver.PassKeepsWellLinked | src/constant_pool.rs:319-323 | a successful pass over a well-linked pool leaves it well linked |
| Resolver.ResolveFrom | src/constant_pool.rs:315-330 | on success the pool keeps its length and every entry is resolved |
| Resolver.ResolveFromSucceeds | src/constant_pool.rs:315-330 | on success every entry is resolved, the pool has only made progress, and soundness of links is kept |
| Resolver.RankedPassGrows | src/constant_pool.rs:318-327 | on a pool without reference cycles a pass succeeds and either finds more resolved entries than before or resolves everything |
| Resolver.RankedResolves | src/constant_pool.rs:315-330 | resolution succeeds on every pool whose references are in bounds and form no cycle |
| Resolver.StepTargetsSound | src/constant_pool.rs:14-31 | every target of an entry that a step leaves resolved is sound: in bounds, not the entry itself, and already resolved, whether linked earlier or in this step |
| Resolver.StepRanks | src/constant_pool.rs:125-138 | resolving one entry of a well-linked pool keeps a ranking in which every resolved entry outranks its targets; a newly resolved entry gets a rank above all its targets |
| Resolver.PassRanks | src/constant_pool.rs:318-323 | a successful pass over a well-linked pool keeps such a ranking of the resolved entries |
| Resolver.ResolveFromRanks | src/constant_pool.rs:315-330 | successful resolution of a well-linked pool keeps such a ranking of the resolved entries |
| Resolver.ResolvedWasRanked | src/constant_pool.rs:315-330 | converse of `RankedResolves`: a well-linked pool with its resolved entries ranked that resolves has references that are in bounds and form no cycle |
| Resolver.ResolveEntryAt | src/constant_pool.rs:125-138 | the in-place resolution of entry `i` gives exactly `ResolveEntry`'s outcome and new entry; any other slot is unchanged, and even on error the pool has only made progress |
| Resolver.ResolvePass | src/constant_pool.rs:318-323 | the in-place `for` pass computes exactly `Pass` from entry 0: the same outcome, the same new pool and the same count |
| Resolver.ResolveConstantPool | src/constant_pool.rs:315-330 | the in-place loop computes exactly `ResolveFrom`; on success every entry is resolved and a well-linked pool stays well linked; in every case the pool has only made progress |
| ResolverExamples.CyclePass | src/constant_pool.rs:318-323 | on a pool where two NameAndType entries name each other, a pass changes nothing and counts 2 resolved entries |
| ResolverExamples.CycleIsUnresolvable | src/constant_pool.rs:324-326 | that pool is reported as "Unable to resolve all constant pool entries" |
| ResolverExamples.MaskedSelfReference | src/constant_pool.rs:129-132 | a FieldRef whose NameAndType reference names itself, behind a class reference into a cycle, ends in the unresolvable error, not a self-reference error |
| Validator.EnsureRefType | src/constant_pool.rs:58-60 | following a linked reference and checking its target succeeds exactly when the target's bit is in the allowed set |
| Validator.HandleTargetTypes | src/constant_pool.rs:184-194 | every reference kind allows some kind of target |
| Validator.HandleTypesMeanTargets | src/constant_pool.rs:184-194 | the flag set chosen for a MethodHandle accepts exactly FieldRef for kinds 1-4, MethodRef for 5 and 8, InterfaceMethodRef for 9, and for 6 and 7 MethodRef, plus InterfaceMethodRef from version 52 |
| Validator.Validate | src/constant_pool.rs:176-199 | success carries `true`; failure is the unexpected-reference-type error |
| Validator.ValidateMeansConforms | src/constant_pool.rs:176-199 | the flag-set matrix accepts an entry exactly when its references name the kinds section 4.4 of The Java Virtual Machine Specification requires (Utf8 for ClassInfo, String, NameAndType and MethodType; ClassInfo then NameAndType for the member refs; NameAndType for InvokeDynamic; the MethodHandle table) |
| Validator.Version52Rule | src/constant_pool.rs:191-192 | an invokestatic or invokespecial handle to an interface method is accepted exactly from version 52 on; one to a class method is accepted at every version |
| Validator.ValidateConstantPool | src/constant_pool.rs:332-337 | success exactly when every entry conforms; on failure the error names the first entry, in index order, that does not conform |
| Decoder.RefAt | src/constant_pool.rs:224-226 | a reference field succeeds exactly when two bytes remain; it yields an unresolved reference to their big-endian value, or a truncation error at the field |
| Decoder.KindOf | src/constant_pool.rs:288-299 | a reference kind is recognised exactly for codes 1 to 9, and then its code is the byte read |
| Decoder.KindRoundTrip | src/constant_pool.rs:288-297 | every reference kind is read back from its own code |
| Decoder.TagOf | src/constant_pool.rs:345-360 | only the two placeholders lack a tag; every other entry's tag is one the reader accepts |
| Decoder.NextSlot | src/constant_pool.rs:362-367 | the slot counter always advances |
| Decoder.Utf8At | src/constant_pool.rs:227-235 | a decoded Utf8 body is a Utf8 entry that ends within the buffer, after its length field |
| Decoder.FixedPayload | src/constant_pool.rs:237-313 | a fixed-size body is an entry of the kind its tag names, with no linked reference, ending `Width` bytes on within the buffer |
| Decoder.Payload | src/constant_pool.rs:345-359 | the body of a known tag is an entry of that kind, with no linked reference, ending after at least one byte and within the buffer |
| Decoder.EntryAt | src/constant_pool.rs:344-361 | an entry read from the stream lies in the buffer, its tag is the byte read and names its kind, it has no linked reference, and it ends after the tag |
| Decoder.FixedPayloadLayout | src/constant_pool.rs:237-313 | a fixed-size body is read exactly when its bytes are present and, for a MethodHandle, the kind byte is 1..9; it then ends 2 (Class, String, MethodType), 3 (MethodHandle), 4 (Integer, Float, member refs, NameAndType, InvokeDynamic) or 8 (Long, Double) bytes on, has the kind its tag names, holds the two's-complement value or raw bits read, and holds only unresolved references to the raw indices at their offsets; an unknown kind byte is reported at its own offset |
| Decoder.Utf8Layout | src/constant_pool.rs:227-235 | a Utf8 body is read exactly when its length field and that many bytes are present and decode; the text is their decoding and the cursor ends after them; a length running past the end is reported at the first text byte, bad bytes with the range they occupy, and a missing length field at the field |
| Decoder.EntryAtFacts | src/constant_pool.rs:344-361 | an entry read from the stream has the tag byte read as its kind, is never a placeholder, holds only unresolved references, and ends after the tag within the buffer; an unknown tag is reported at its own offset; a missing tag is a truncation error |
| Decoder.DecodeKeepsLayout | src/constant_pool.rs:340-368 | the loop keeps the layout and needs no link; while the pool length equals the slot counter, the pool ends with `count` slots, or `count + 1` exactly when slot `count - 1` holds a Long or Double; the cursor ends within the buffer; the entries already read are kept |
| Decoder.DecodeFrom | src/constant_pool.rs:340-368 | decoding only appends to the entries read so far, at least one entry per slot left below the count; the cursor only advances and, if any entry is read, ends within the buffer |
| Decoder.DecodedPool | src/constant_pool.rs:340-368 | after decoding, slot 0 holds `Zero` and no other slot does; every Long or Double is followed by `Unused` and `Unused` follows nothing else; every reference is unresolved; the length is 1 when the count is at most 1 and otherwise `count`, or `count + 1` exactly when slot `count - 1` holds a Long or Double |
| Decoder.GrowKeepsLayout | src/constant_pool.rs:345-368 | pushing an entry, and `Unused` after a wide one, keeps the layout |
| Decoder.ReadUnresolvedCpRef | src/constant_pool.rs:224-226 | computes exactly `RefAt`: the reference and the cursor after it, or the same error |
| Decoder.ReadConstantUtf8 | src/constant_pool.rs:227-235 | computes exactly `Utf8At` |
| Decoder.ReadConstantInteger | src/constant_pool.rs:237-239 | computes exactly `FixedPayload` for tag 3 |
| Decoder.ReadConstantFloat | src/constant_pool.rs:241-243 | computes exactly `FixedPayload` for tag 4 |
| Decoder.ReadConstantLong | src/constant_pool.rs:245-247 | computes exactly `FixedPayload` for tag 5 |
| Decoder.ReadConstantDouble | src/constant_pool.rs:249-251 | computes exactly `FixedPayload` for tag 6 |
| Decoder.ReadConstantClass | src/constant_pool.rs:253-256 | computes exactly `FixedPayload` for tag 7 |
| Decoder.ReadConstantString | src/constant_pool.rs:258-261 | computes exactly `FixedPayload` for tag 8 |
| Decoder.ReadConstantFieldref | src/constant_pool.rs:263-267 | computes exactly `FixedPayload` for tag 9 |
| Decoder.ReadConstantMethodref | src/constant_pool.rs:269-273 | computes exactly `FixedPayload` for tag 10 |
| Decoder.ReadConstantInterfacemethodref | src/constant_pool.rs:275-279 | computes exactly `FixedPayload` for tag 11 |
| Decoder.ReadConstantNameandtype | src/constant_pool.rs:281-285 | computes exactly `FixedPayload` for tag 12 |
| Decoder.ReadConstantMethodhandle | src/constant_pool.rs:287-302 | computes exactly `FixedPayload` for tag 15, including the unknown-kind error at the kind byte |
| Decoder.ReadConstantMethodtype | src/constant_pool.rs:304-307 | computes exactly `FixedPayload` for tag 16 |
| Decoder.ReadConstantInvokedynamic | src/constant_pool.rs:309-313 | computes exactly `FixedPayload` for tag 18 |
| Decoder.ReadPayload | src/constant_pool.rs:345-359 | the dispatch on a known tag computes exactly `Payload` |
| Decoder.ReadEntries | src/constant_pool.rs:340-368 | the entry loop keeps the pool length equal to the slot counter and computes exactly `DecodeFrom` from slot 1 with `[Zero]`: the same pool and final cursor, or the same error |
| Decoder.NextSlotAsWritten | src/constant_pool.rs:362-366 | the 16-bit counter agrees with the unbounded one whenever no wrap-around happens |
| Decoder.SlotCounterWraps | src/constant_pool.rs:342-366 | with a count of 65535 and a Long in slot 65534, the 16-bit counter wraps to 0, which keeps the loop going; the unbounded counter stops it |
| ConstantPool.UnlinkedIsWellLinked | src/constant_pool.rs:370 | a pool without links has no unsound link |
| ConstantPool.UnlinkedRanksResolved | src/constant_pool.rs:370 | in a pool without links the all-zero ranking already ranks every resolved entry above its targets (such an entry has none) |
| ConstantPool.ResolvesIffAcyclic | src/constant_pool.rs:315-330 | resolution of a decoded pool succeeds exactly when its references are in bounds and form no cycle (a self-reference included) |
| ConstantPool.ResolvedIsLinked | src/constant_pool.rs:370-371 | once resolution has succeeded, every reference can be followed, so validation's `get` cannot panic |
| ConstantPool.ProgressKeepsLayout | src/constant_pool.rs:370 | resolution keeps the decoded layout |
| ConstantPool.ReadConstantPool | src/constant_pool.rs:339-373 | the outcome of the first phase to fail: the decode error, then the resolution error, then the first entry that does not conform; on success the resolved pool and the cursor after the last entry; the pool keeps the decoded layout and length, is fully resolved, and every link is sound (in bounds, not the owner) |
| ConstantPool.ReadCpRef | src/constant_pool.rs:375-382 | a truncation error if the index is missing; an out-of-bounds error for an index past the pool, before any kind check; otherwise the named entry exactly when its kind is allowed, else the unexpected-reference-type error |
| ConstantPool.ValidatedClassInfo | src/constant_pool.rs:216-221 | on a validated pool, every ClassInfo's name is linked to a Utf8 entry, so `classinfo_utf8` cannot panic and returns that entry's text |
| ConstantPool.Utf8RefIsText | src/constant_pool.rs:209-214 | an entry that passed a UTF8 kind check is a Utf8 entry, so `utf8` cannot panic on it |

## Left out

- Modified UTF-8 decoding (`cesu8::from_java_cesu8`, line 234) comes from a foreign library. It is a parameter `decodeText` that may fail, and nothing is assumed about it.
- Float and Double values keep their raw IEEE 754 bits. `f32::from_bits` and `f64::from_bits` are not modelled, because floating point is out of scope.
- `Rc`, `RefCell`, `Cow` and the lifetimes are replaced by the arena. A resolved reference keeps its index instead of a shared pointer.
- `ConstantPoolRef::is_resolved` is the `Resolved?` test and `ConstantPoolRef::get` is pool lookup by index. The panics of `get`, `utf8` and `classinfo_utf8` are preconditions.
- Error messages are modelled as an error kind plus the index or byte offset the message mentions. The text is not modelled. `validate_constant_pool` keeps only the index of the failing entry, not the inner message.
- The bootstrap-method index of InvokeDynamic is kept as a plain 16-bit number and is never resolved, as in the source.
- `read_u1`, `read_u2`, `read_u4`, `read_u8` and `err` live in the crate root. The crate root is not part of this model. The read functions are given the big-endian contract their callers rely on.
- The cursor's value after a failed read is not specified. The original abandons the whole read on any error.
- Decoder.ReadPayload: the source dispatches inside `read_constant_pool`. Here the unknown-tag error is raised in `ReadEntries` and the dispatch on known tags is a separate method.
- Resolver.ResolvePass: the body of the `while` loop of `resolve_constant_pool` is a separate method, so each loop has its own invariant.
- ConstantPool.ReadConstantPool: the entries are collected in a sequence and then copied into an array for resolution. The source uses one growable vector.
- Decoder.ReadEntries: the slot counter is an unbounded integer, the corrected behaviour of the finding below. The 16-bit counter as written is `Decoder.NextSlotAsWritten`.

## Findings

| source | as written | input that shows it | evidently intended | confidence | as-written member | corrected member |
|---|---|---|---|---|---|---|
| src/constant_pool.rs:342-366 | `cp_ix` is a 16-bit counter (it is compared with the 16-bit `constant_pool_count`) and steps by 2 after a Long or Double; in a release build it wraps around | `constant_pool_count` = 65535 with a Long or Double in slot 65534: the counter goes to 0, which is below the count, so the loop reads about 65535 more entries and the pool outgrows what a 16-bit index can name (a debug build panics on the overflow instead) | the loop stops once the counter reaches the count, leaving a pool of count + 1 slots, as for any Long or Double in the last slot | medium, not executed | Decoder.SlotCounterWraps | Decoder.DecodedPool |
