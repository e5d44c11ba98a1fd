# dynasm-rs x64 runtime assembler, modelled in Dafny

This project models `runtime/src/x64.rs` of dynasm-rs: the runtime `Assembler`
that collects machine code in an assembling buffer `ops`, resolves labels and
relocations, and commits the bytes into an executable buffer. It also models the
two modifiers that overwrite bytes already emitted. `AssemblyModifier` works on the
committed buffer during `alter`; `UncommittedModifier` works on `ops` during
`alter_uncommitted`.

Files:

- `little_endian.dfy` (module `LittleEndian`): what `as i8/i16/i32/i64`
  followed by the byteorder little-endian writers store. These are the low `w` bytes
  of a two's-complement value, least significant first. The module gives the
  unsigned and signed readings of such a field and their round trips.
- `patching.dfy` (module `Patching`): a relocation site `PatchLoc(end, size)` names
  the `size` bytes that end at absolute offset `end`. `Patch` is the effect of
  `patch_loc` on a buffer whose first byte sits at `base`. `PatchAll` patches a
  list of sites in order. The module proves which bytes each patch writes and
  which it leaves alone.
- `local_labels.dfy` (module `LocalLabels`): the per-name queue of forward
  references and the most-recent-definition map. It proves, over a history of
  `local_label` / `forward_reloc` directives, which definition each reference
  binds to.
- `resolution.dfy` (module `Resolution`): panics as a `Status` value. It models the
  resolution loop shared by `encode_relocs` and `local_label`: look up each
  reference, patch its site, and stop at the first failure.
- `x64.dfy` (module `X64`): the classes `Assembler`, `AssemblyModifier` and
  `UncommittedModifier`. Their fields are those of the Rust structs, and their
  methods update them in place.

Conventions:

- A Rust `panic!`, and a panic from a failed slice index, a `usize` subtraction
  below zero or a remainder by zero, becomes a `Panicked(cause)` status.
- The executable buffer is the byte sequence `exec` (the whole mapping, `mapLen`
  bytes) together with `length`, the number of committed bytes.
- The fresh mapping that `commit` allocates when `ops` outruns the mapping is a
  parameter. The same holds for the initial mapping of `new`.
- The closures passed to `alter` and `alter_uncommitted` are scripts of calls on the
  modifier.

The displacement written into a field is `target - end`. `patch_loc` does not
check that it fits the field: the casts truncate it to the field width. Likewise
`local_label` accepts a second definition of a name at the same offset as the
first. The model follows that.

## Model

| member | source | states |
|---|---|---|
| LittleEndian.EncodeSigned | runtime/src/x64.rs:139-142 | the bytes `patch_loc` stores for a value in a field of w bytes: exactly w of them (their meaning is stated by the round-trip lemmas below) |
| LittleEndian.DecodeEncode | runtime/src/x64.rs:138-142 | the bytes written for a value read back, unsigned, as that value modulo 256^w: the cast keeps the low bytes |
| LittleEndian.EncodeDecode | runtime/src/x64.rs:138-142 | every w-byte field is the encoding of its own unsigned reading, so the encoding loses nothing beyond the truncation |
| LittleEndian.TruncatedRoundTrip | runtime/src/x64.rs:135-142 | a written field, read back signed, lies in the signed range of its width and is congruent to the written value modulo 256^w |
| LittleEndian.SignedRoundTrip | runtime/src/x64.rs:135-142 | a value that fits the signed range of the field reads back exactly |
| LittleEndian.MinusSevenInFourBytes | runtime/src/x64.rs:140 | a displacement of -7 in a 4-byte field is stored as F9 FF FF FF and reads back as -7 |
| LittleEndian.DisplacementTruncated | runtime/src/x64.rs:139 | there is no overflow check: 200 in a 1-byte field is stored as C8 and reads back as -56 |
| Patching.Patch | runtime/src/x64.rs:133-145 | patching keeps the buffer length, writes the encoded displacement `target - end` into exactly the field ending at `end`, and leaves every other byte unchanged |
| Patching.PatchedFieldDecodes | runtime/src/x64.rs:133-145 | the patched field read back signed fits its width, agrees with the displacement modulo 256^size, and equals the displacement whenever it fits |
| Patching.PatchAll | runtime/src/x64.rs:150-166 | the buffer after patching a list of sites in order, which keeps the buffer's length (the lemmas below say which bytes it writes) |
| Patching.PatchAllFrame | runtime/src/x64.rs:147-166 | patching a list of sites changes no byte outside their fields |
| Patching.PatchKeepsField | runtime/src/x64.rs:133-145 | patching one site leaves the bytes of a disjoint site unchanged |
| Patching.PatchAllKeepsField | runtime/src/x64.rs:147-166 | patching a list of sites that are all disjoint from a site leaves that site's bytes unchanged |
| Patching.PatchAllWrites | runtime/src/x64.rs:147-166 | after the loops, each site holds its own displacement unless a later site overlaps it |
| Patching.PatchAllAppend | runtime/src/x64.rs:147-166 | patching one list and then another is the same as patching their concatenation |
| Patching.PatchAllCons | runtime/src/x64.rs:150-156 | patching a list is patching its first site and then the rest |
| Patching.PatchedReferenceResolves | runtime/src/x64.rs:147-166 | a reference that no later one overwrites and whose displacement fits lands on its target: the field's end plus the value read from it is the label offset |
| LocalLabels.Enqueue | runtime/src/x64.rs:319-329 | `forward_reloc`'s entry update appends the site to this name's queue, inserting a queue if none exists, and leaves every other name's queue unchanged |
| LocalLabels.Release | runtime/src/x64.rs:310 | removing a name's entry empties its queue and leaves every other queue unchanged |
| LocalLabels.QueueHoldsUnboundForwards | runtime/src/x64.rs:308-329 | after any history, a name's queue holds exactly the forward references to it that no later definition has answered, in issue order |
| LocalLabels.ForwardBindsToNextDefinition | runtime/src/x64.rs:308-329 | a forward reference is in the queue patched by the first later definition of its name, and is not pending at any other definition of that name |
| LocalLabels.DefinitionIsLatest | runtime/src/x64.rs:308-316 | a name is in `local_labels` iff it was ever defined, and then its offset is that of the most recent definition |
| Resolution.PatchStep | runtime/src/x64.rs:133-145 | `patch_loc` completes iff the field's slice exists and the width is 1, 2, 4 or 8; otherwise it panics with an index error or with "invalid patch size", checked in that order |
| Resolution.ResolveFrom | runtime/src/x64.rs:150-166 | the resolution loop over a list of references: look up, patch, stop at the first panic; a completed run keeps the buffer's length |
| Resolution.ResolveFromSpec | runtime/src/x64.rs:147-166 | resolving a list of references succeeds iff every target is known and every site can be patched, and then the buffer equals the one with every site patched in order |
| Resolution.ResolveFromStep | runtime/src/x64.rs:150-155 | resolving from reference i on is: fail with its lookup panic, or fail with its patch panic, or patch it and continue from i + 1 |
| X64.GlobalLookup | runtime/src/x64.rs:151-154 | a global reference resolves to its label's offset iff the name is defined; otherwise it panics with the unknown name |
| X64.DynamicLookup | runtime/src/x64.rs:161-164 | a dynamic reference resolves iff its handle is in range and defined; both other cases panic as an unknown dynamic label |
| X64.PendingBinds | runtime/src/x64.rs:310-314 | resolving a local label's queue succeeds iff every queued site can be patched, and then patches each site with the label's offset |
| X64.Assembler.EncodedIsOnePass | runtime/src/x64.rs:147-166 | resolving the global list and then the dynamic list equals one pass over both lists of fixups |
| X64.Assembler.GlobalReferenceLands | runtime/src/x64.rs:148-156 | after resolution, a global reference that no later reference overwrites and whose displacement fits decodes to its label's offset |
| X64.Assembler.DynamicReferenceLands | runtime/src/x64.rs:158-166 | after resolution, a dynamic reference that no later one overwrites and whose displacement fits decodes to its label's offset |
| X64.Assembler.Offset | runtime/src/x64.rs:256-258 | `offset()` is `asmoffset` plus the number of bytes assembled in `ops` since the last commit |
| X64.Assembler.constructor | runtime/src/x64.rs:61-75 | a new assembler has a 4096-byte mapping, nothing committed, offset 0, and no labels or references |
| X64.Assembler.NewDynamicLabel | runtime/src/x64.rs:78-82 | the new handle is the previous label count, and the label starts undefined |
| X64.Assembler.Push | runtime/src/x64.rs:261-263 | appends exactly one byte, so `offset()` grows by one |
| X64.Assembler.Extend | runtime/src/x64.rs:344-346 | appends the bytes, so `offset()` grows by their number |
| X64.Assembler.Align | runtime/src/x64.rs:268-275 | panics iff the alignment is 0; otherwise it appends only NOPs, and the new offset is the least multiple of the alignment at or above the old one |
| X64.Assembler.GlobalLabel | runtime/src/x64.rs:278-283 | records the current offset for the name; it panics iff the name was already defined, reporting the earlier offset, after overwriting it |
| X64.Assembler.GlobalReloc | runtime/src/x64.rs:286-289 | queues a reference whose site ends at the current offset |
| X64.Assembler.DefineDynamicLabel | runtime/src/x64.rs:292-299 | completes iff the handle exists and is undefined, and then defines it at the current offset; an out-of-range handle is an index panic, a defined one a duplicate-label panic |
| X64.Assembler.DynamicReloc | runtime/src/x64.rs:302-305 | queues a reference whose site ends at the current offset |
| X64.Assembler.PatchAt | runtime/src/x64.rs:133-145 | completes iff the field lies inside `ops` and has a valid width, and then `ops` is patched; otherwise `ops` is unchanged and the cause is the failing check |
| X64.Assembler.PatchQueue | runtime/src/x64.rs:311-313 | the loop's status and resulting `ops` are those of resolving the queue in order |
| X64.Assembler.LocalLabel | runtime/src/x64.rs:308-316 | patches every queued forward site of the name with the current offset (completing iff all can be patched), drops the queue, makes the current offset the latest definition, and keeps the maps in step with the directive history |
| X64.Assembler.ForwardReloc | runtime/src/x64.rs:319-329 | queues the site ending at the current offset under the name, and keeps the maps in step with the directive history |
| X64.Assembler.BackwardReloc | runtime/src/x64.rs:332-339 | panics iff the name was never defined or the site cannot be patched; otherwise it patches the field ending at the current offset with the latest definition |
| X64.Assembler.PatchGlobals | runtime/src/x64.rs:148-156 | the loop's status, including which reference panics first and why, and the resulting `ops` are those of resolving the global list in order |
| X64.Assembler.PatchDynamics | runtime/src/x64.rs:158-166 | the loop's status, including which reference panics first and why, and the resulting `ops` are those of resolving the dynamic list in order |
| X64.Assembler.EncodeRelocs | runtime/src/x64.rs:147-171 | empties both reference lists; completes iff every reference resolves and no local forward reference is pending; the first failing global reference decides the panic; on success `ops` has every reference patched |
| X64.Assembler.Commit | runtime/src/x64.rs:177-227 | with nothing pending it changes nothing. Otherwise it completes iff every reference resolves and no local reference is pending. Then the bytes before `asmoffset` are kept, the patched `ops` follow, `ops` is empty, `asmoffset` is the old end, `length` is the larger of the end and the old length, and a grown mapping is large enough |
| X64.Assembler.CopyOps | runtime/src/x64.rs:188-226 | copies `ops` to `[asmoffset, end)` in place or into the larger new mapping, empties `ops`, and moves `asmoffset` to the end |
| X64.Assembler.Alter | runtime/src/x64.rs:91-119 | when it completes, the assembler is consistent, `asmoffset` is where the commit left it, `ops` holds only the NOPs that `align` calls in the edits left there, and no reference is pending |
| X64.Assembler.EditCommitted | runtime/src/x64.rs:93-116 | runs the edits with the cursor from 0 and resolves their references. No byte of the mapping past the committed ones changes, and `ops` gains only NOPs. On completion `asmoffset` is restored and no reference is pending |
| X64.Assembler.AlterUncommitted | runtime/src/x64.rs:125-130 | the edits overwrite `ops` without changing its length |
| X64.AssemblyModifier.constructor | runtime/src/x64.rs:104-107 | the modifier works on the given assembler |
| X64.AssemblyModifier.Offset | runtime/src/x64.rs:436-438 | the modifier's `offset()` is the assembler's: the cursor `asmoffset` plus the length of `ops` |
| X64.AssemblyModifier.Goto | runtime/src/x64.rs:371-373 | moves the cursor to the given offset |
| X64.AssemblyModifier.Check | runtime/src/x64.rs:378-382 | panics iff the cursor is past the offset |
| X64.AssemblyModifier.CheckExact | runtime/src/x64.rs:387-391 | panics iff the cursor is not at the offset |
| X64.AssemblyModifier.Push | runtime/src/x64.rs:441-444 | completes iff the cursor is within the committed bytes, and then overwrites the byte there and advances the cursor by one |
| X64.AssemblyModifier.Extend | runtime/src/x64.rs:502-506 | overwrites the committed bytes from the cursor on with the given bytes and advances the cursor by their number; it panics iff they run past the committed bytes |
| X64.AssemblyModifier.PatchAt | runtime/src/x64.rs:394-405 | as `Assembler.PatchAt`, on the committed buffer with absolute offsets |
| X64.AssemblyModifier.PatchGlobals | runtime/src/x64.rs:408-416 | as `Assembler.PatchGlobals`, on the committed buffer |
| X64.AssemblyModifier.PatchDynamics | runtime/src/x64.rs:418-426 | as `Assembler.PatchDynamics`, on the committed buffer |
| X64.AssemblyModifier.EncodeRelocs | runtime/src/x64.rs:407-431 | as `Assembler.EncodeRelocs`, on the committed buffer |
| X64.AssemblyModifier.PatchQueue | runtime/src/x64.rs:476-480 | as `Assembler.PatchQueue`, on the committed buffer |
| X64.AssemblyModifier.LocalLabel | runtime/src/x64.rs:474-482 | as `Assembler.LocalLabel`, on the committed buffer |
| X64.AssemblyModifier.BackwardReloc | runtime/src/x64.rs:490-497 | as `Assembler.BackwardReloc`, on the committed buffer |
| X64.AssemblyModifier.Align | runtime/src/x64.rs:449-451 | the corrected `align`: pads the committed bytes with NOPs from the cursor to the next multiple of the alignment, and panics iff the alignment is 0 or the padding runs past the committed bytes |
| X64.AssemblyModifier.AlignAsWritten | runtime/src/x64.rs:449-451 | `align` as written, which the edits of `alter` run: it appends only NOPs to `ops` and not to the committed buffer. From a misaligned cursor the cursor stays misaligned |
| X64.AssemblyModifier.Run | runtime/src/x64.rs:108 | the calls of the `alter` closure keep the mapping consistent, change no byte past the committed ones, leave only NOPs in `ops`, and keep the local-label maps in step with the history |
| X64.AssemblyModifier.Apply | runtime/src/x64.rs:454-471 | one call of the `alter` closure. `align`, the global and dynamic label definitions, and the global, dynamic and forward references delegate to the assembler; `local_label` and `backward_reloc` are the modifier's own. No byte past the committed ones changes, and `ops` only gains NOPs |
| X64.UncommittedModifier.constructor | runtime/src/x64.rs:126-129 | the cursor starts at `asmoffset` |
| X64.UncommittedModifier.Offset | runtime/src/x64.rs:554-556 | the modifier's `offset()` is its own cursor, not the assembler's offset |
| X64.UncommittedModifier.Goto | runtime/src/x64.rs:529-531 | moves the cursor to the given offset |
| X64.UncommittedModifier.Check | runtime/src/x64.rs:536-540 | panics iff the cursor is past the offset |
| X64.UncommittedModifier.CheckExact | runtime/src/x64.rs:545-549 | panics iff the cursor is not at the offset |
| X64.UncommittedModifier.Push | runtime/src/x64.rs:559-562 | completes iff the cursor lies within `ops`, and then overwrites `ops[cursor - asmoffset]` and advances the cursor; `ops` keeps its length |
| X64.UncommittedModifier.Extend | runtime/src/x64.rs:567-571 | overwrites `ops` from the cursor on with the given bytes and advances the cursor by their number; it panics iff they do not all lie within `ops` |
| X64.UncommittedModifier.Apply | runtime/src/x64.rs:529-562 | one call of the `alter_uncommitted` closure; `ops` keeps its length |

## Left out

- `Arc<RwLock<…>>`, the read and write locks, `reader()`/`Executor` and `finalize`'s `Arc::try_unwrap` (runtime/src/x64.rs:232-251): these are concurrency and ownership, with no sequential behaviour to state.
- `make_mut`/`make_exec`, `take_mut::take_or_recover`, and the mmap allocation by `ExecutableBuffer::new`/`MutableBuffer::new`: these are operating-system calls. The mapping they return is a parameter. The page rounding of its size is not visible, so only the lower bound `max(end, 2 * map_len)` is required of it.
- `io::Result` failures of the mapping calls (the `?` in `new` and the `unwrap`s in `commit` and `alter`): foreign I/O.
- `MutableBuffer`, `ExecutableBuffer`, `DynamicLabel` and `AssemblyOffset` are defined in `runtime/src/lib.rs`, which is not part of this model. Indexing the committed buffer is taken to be bounded by its `length`.
- `usize`/`isize` widths: offsets are unbounded naturals, so an offset overflow is not modelled. The displacement's truncation to the field width is modelled.
- The `Extend<&u8>` impls (runtime/src/x64.rs:349-353, 509-514, 574-579) only clone each byte and forward to `extend`.
- The state left behind by a panic is stated only where the Rust code panics before changing anything, or after a known change as in `global_label`.
- X64.Assembler.EncodeRelocs, X64.AssemblyModifier.EncodeRelocs: which leftover local label the final panic names is any queued one, because `HashMap::keys().next()` has no defined order.
- X64.Assembler.Alter, X64.Assembler.EditCommitted: do not state the resulting committed bytes, because they depend on the arbitrary edit script. They state the offsets, the consistency of the assembler, the NOP-only contents of `ops` and that no reference is left pending. EditCommitted also states that no byte past the committed ones changes. Each edit's exact effect is the contract of its own method.
- X64.Assembler.AlterUncommitted, X64.UncommittedModifier.Apply: state only that `ops` keeps its length. Each cursor operation has its exact contract on its own method.
- X64.AssemblyModifier.Run, X64.AssemblyModifier.Apply: state the consistency that later resolution needs and the frame on the bytes, but not the bytes the edits write. Each edit has its exact contract on its own method.
- The panic messages' text is not modelled; each panic is identified by its cause.

## Findings

| source | as written | input that shows it | evidently intended | confidence | as-written member | corrected member |
|---|---|---|---|---|---|---|
| runtime/src/x64.rs:449-451 | `AssemblyModifier::align` forwards to `Assembler::align`. That pushes NOPs onto the uncommitted `ops` and leaves the modifier's cursor (`asmoffset`) where it was. | `alter` with a closure that calls `goto(1)` and then `align(4)`: three NOPs are appended to `ops`, the cursor stays at 1, and the next `push` overwrites byte 1. The NOPs stay in `ops` after `alter`, so the next commit appends them to the code | pad the committed bytes with NOPs from the cursor up to the next multiple of the alignment, moving the cursor there, as `align` does on the assembler | not executed | X64.AssemblyModifier.AlignAsWritten | X64.AssemblyModifier.Align |
