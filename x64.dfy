/**
 * The x64 runtime assembler of dynasm-rs: an assembling buffer `ops`, the
 * label/relocation registry, and the committed executable buffer, with the two
 * modifiers that overwrite bytes that were already emitted.
 *
 * A `panic!` of `x64.rs` (and a Rust panic on a failed index, subtraction or
 * remainder) is the `Panicked` status; what the state is after it is stated only
 * where the Rust code panics at a known point.
 */
module X64 {
  import opened LittleEndian
  import opened Patching
  import opened LocalLabels
  import opened Resolution

  /** Size of the first mapping (`MMAP_INIT_SIZE`). */
  const MMAP_INIT_SIZE: nat := 4096

  /** The filler byte `align` emits. */
  const NOP: u8 := 0x90

  datatype Option<T> = None | Some(value: T)

  /** A handle returned by `new_dynamic_label`: an index into `dynamic_labels`. */
  datatype DynamicLabel = DynamicLabel(id: nat)

  /** A pending reference to a global label. */
  datatype GlobalRef = GlobalRef(loc: PatchLoc, name: string)

  /** A pending reference to a dynamic label. */
  datatype DynamicRef = DynamicRef(loc: PatchLoc, handle: DynamicLabel)

  /** Edits that only move the cursor or overwrite bytes: all that `UncommittedModifier` offers. */
  datatype CursorEdit =
    | GotoOffset(offset: nat)
    | CheckAtMost(offset: nat)
    | CheckExactly(offset: nat)
    | PushByte(value: u8)
    | ExtendBy(bytes: seq<u8>)

  /** One call the closure passed to `alter` makes on its `AssemblyModifier`. */
  datatype Edit =
    | Cursor(edit: CursorEdit)
    | DefineGlobal(name: string)
    | RelocGlobal(name: string, size: u8)
    | DefineDynamic(handle: DynamicLabel)
    | RelocDynamic(handle: DynamicLabel, size: u8)
    | DefineLocal(name: string)
    | RelocForward(name: string, size: u8)
    | RelocBackward(name: string, size: u8)
    | Pad(alignment: nat)

  function Max(a: int, b: int): int
  {
    if a >= b then a else b
  }

  /** n filler bytes. */
  function Nops(n: nat): (s: seq<u8>)
    ensures |s| == n && forall k :: 0 <= k < n ==> s[k] == NOP
  {
    seq(n, _ => NOP)
  }

  /** `global_labels.get(&name)`: the label's offset, or the panic for an unknown name. */
  function GlobalLookup(labels: map<string, nat>, name: string): (r: Result<nat>)
    ensures r.Ok? <==> name in labels
    ensures r.Ok? ==> r.value == labels[name]
    ensures r.Err? ==> r.cause == UnknownGlobalLabel(name)
  {
    if name in labels then Ok(labels[name]) else Err(UnknownGlobalLabel(name))
  }

  /** The global references as `encode_relocs` resolves them. */
  function GlobalRequests(relocs: seq<GlobalRef>, labels: map<string, nat>): (reqs: seq<Request>)
    ensures |reqs| == |relocs|
    ensures forall i :: 0 <= i < |relocs| ==> reqs[i] == Request(relocs[i].loc, GlobalLookup(labels, relocs[i].name))
  {
    seq(|relocs|, i requires 0 <= i < |relocs| => Request(relocs[i].loc, GlobalLookup(labels, relocs[i].name)))
  }

  /**
   * `dynamic_labels.get(id)` matched against `Some(&Some(target))`: a handle out
   * of range and a handle never defined both panic as unknown.
   */
  function DynamicLookup(labels: seq<Option<nat>>, handle: DynamicLabel): (r: Result<nat>)
    ensures r.Ok? <==> handle.id < |labels| && labels[handle.id].Some?
    ensures r.Ok? ==> r.value == labels[handle.id].value
    ensures r.Err? ==> r.cause == UnknownDynamicLabel(handle.id)
  {
    if handle.id < |labels| && labels[handle.id].Some? then Ok(labels[handle.id].value)
    else Err(UnknownDynamicLabel(handle.id))
  }

  /** The dynamic references as `encode_relocs` resolves them. */
  function DynamicRequests(relocs: seq<DynamicRef>, labels: seq<Option<nat>>): (reqs: seq<Request>)
    ensures |reqs| == |relocs|
    ensures forall i :: 0 <= i < |relocs| ==> reqs[i] == Request(relocs[i].loc, DynamicLookup(labels, relocs[i].handle))
  {
    seq(|relocs|, i requires 0 <= i < |relocs| => Request(relocs[i].loc, DynamicLookup(labels, relocs[i].handle)))
  }

  /** The queued forward sites of a local label, all bound to the offset it is defined at. */
  function Pending(locs: seq<PatchLoc>, target: nat): (reqs: seq<Request>)
    ensures |reqs| == |locs|
    ensures forall i :: 0 <= i < |locs| ==> reqs[i] == Request(locs[i], Ok(target))
  {
    seq(|locs|, i requires 0 <= i < |locs| => Request(locs[i], Ok(target)))
  }

  /** Resolving a local label's queue is patching each site with the label's offset. */
  lemma PendingBinds(buf: seq<u8>, base: nat, len: nat, locs: seq<PatchLoc>, target: nat)
    requires len <= |buf|
    ensures ResolveFrom(buf, base, len, Pending(locs, target)).Ok? <==> AllPatchable(len, base, Bind(locs, target))
    ensures AllPatchable(len, base, Bind(locs, target)) ==>
      AllPatchable(|buf|, base, Bind(locs, target))
      && ResolveFrom(buf, base, len, Pending(locs, target)).value == PatchAll(buf, base, Bind(locs, target))
  {
    assert Fixups(Pending(locs, target)) == Bind(locs, target);
    ResolveFromSpec(buf, base, len, Pending(locs, target));
  }

  /** The only multiple of `a` in `[o, o + a)`, for `o` not itself a multiple, lies `a - o % a` above `o`. */
  lemma AlignmentGap(o: nat, n: nat, a: nat)
    requires a > 0 && n % a == 0 && o <= n < o + a && o % a != 0
    ensures n - o == a - o % a
  {
    DivMod(o, a);
    DivMod(n, a);
    var q, p := o / a, n / a;
    if p <= q {
      MulMonotone(a, p, q);
    } else if p >= q + 2 {
      MulMonotone(a, q + 2, p);
    }
    assert p == q + 1;
  }

  class Assembler {
    // The executable buffer: the first `mapLen` bytes of the mapping, of which
    // the first `length` are committed code.
    var exec: seq<u8>
    var length: nat
    var mapLen: nat
    // Offset of `ops[0]` in the executable buffer; during `alter`, the cursor.
    var asmoffset: nat
    var ops: seq<u8>

    var globalLabels: map<string, nat>
    var globalRelocs: seq<GlobalRef>
    var dynamicLabels: seq<Option<nat>>
    var dynamicRelocs: seq<DynamicRef>
    var localLabels: map<string, nat>
    var localRelocs: Queues
    // The local-label directives issued so far, in order.
    ghost var localHistory: seq<LocalEvent>

    /** The mapping is as long as `mapLen` says and holds the committed bytes. */
    ghost predicate Mapped()
      reads this`exec, this`mapLen, this`length
    {
      |exec| == mapLen && length <= mapLen
    }

    /** The local-label maps are those the directive history produces. */
    ghost predicate LocalsTracked()
      reads this`localRelocs, this`localLabels, this`localHistory
    {
      localRelocs == QueuesAfter(localHistory) && localLabels == DefinitionsAfter(localHistory)
    }

    ghost predicate Valid()
      reads this`exec, this`mapLen, this`length, this`asmoffset, this`localRelocs, this`localLabels, this`localHistory
    {
      Mapped() && asmoffset <= length && LocalsTracked()
    }

    /** `exec` has the length of `before` and agrees with it past the committed bytes. */
    ghost predicate KeepsUncommitted(before: seq<u8>)
      reads this`exec, this`length
    {
      |exec| == |before| && forall k :: length <= k < |exec| ==> exec[k] == before[k]
    }

    /** `offset()`: the absolute offset the next pushed byte will get. */
    function Offset(): (o: nat)
      reads this`asmoffset, this`ops
      ensures asmoffset <= o && o - asmoffset == |ops|
    {
      asmoffset + |ops|
    }

    /** The queued global references, looked up in `global_labels`. */
    ghost function GlobalQueue(): seq<Request>
      reads this`globalRelocs, this`globalLabels
    {
      GlobalRequests(globalRelocs, globalLabels)
    }

    /** The queued dynamic references, looked up in `dynamic_labels`. */
    ghost function DynamicQueue(): seq<Request>
      reads this`dynamicRelocs, this`dynamicLabels
    {
      DynamicRequests(dynamicRelocs, dynamicLabels)
    }

    /** Every queued global and dynamic reference has a target and a site that can be patched. */
    ghost predicate RelocsResolvable(len: nat, base: nat)
      reads this`globalRelocs, this`globalLabels, this`dynamicRelocs, this`dynamicLabels
    {
      Resolvable(len, base, GlobalQueue()) && Resolvable(len, base, DynamicQueue())
    }

    /** `buf` with every queued global, then every queued dynamic, reference patched. */
    ghost function Encoded(buf: seq<u8>, base: nat): seq<u8>
      reads this`globalRelocs, this`globalLabels, this`dynamicRelocs, this`dynamicLabels
      requires RelocsResolvable(|buf|, base)
    {
      PatchAll(PatchAll(buf, base, Fixups(GlobalQueue())), base, Fixups(DynamicQueue()))
    }

    /** Resolving globals then dynamics is one pass over both lists of fixups. */
    lemma EncodedIsOnePass(buf: seq<u8>, base: nat)
      requires RelocsResolvable(|buf|, base)
      ensures AllPatchable(|buf|, base, Fixups(GlobalQueue()) + Fixups(DynamicQueue()))
      ensures Encoded(buf, base) == PatchAll(buf, base, Fixups(GlobalQueue()) + Fixups(DynamicQueue()))
    {
      var g := Fixups(GlobalQueue());
      var d := Fixups(DynamicQueue());
      assert forall i :: 0 <= i < |g + d| ==> (g + d)[i] == if i < |g| then g[i] else d[i - |g|];
      PatchAllAppend(buf, base, g, d);
    }

    /**
     * After resolution, global reference i lands on its label, provided no later
     * reference overwrites its field and the displacement fits the field.
     */
    lemma GlobalReferenceLands(buf: seq<u8>, base: nat, i: nat)
      requires RelocsResolvable(|buf|, base) && i < |globalRelocs|
      requires forall j :: i < j < |globalRelocs| ==> Disjoint(globalRelocs[i].loc, globalRelocs[j].loc)
      requires forall j :: 0 <= j < |dynamicRelocs| ==> Disjoint(globalRelocs[i].loc, dynamicRelocs[j].loc)
      requires globalRelocs[i].name in globalLabels
      requires FitsSigned(Displacement(globalRelocs[i].loc, globalLabels[globalRelocs[i].name]), globalRelocs[i].loc.size as nat)
      ensures var loc := globalRelocs[i].loc;
        loc.end + DecodeSigned(Encoded(buf, base)[FieldStart(base, loc)..FieldEnd(base, loc)]) == globalLabels[globalRelocs[i].name]
    {
      var g := Fixups(GlobalQueue());
      var d := Fixups(DynamicQueue());
      PatchedReferenceResolves(buf, base, g, i);
      PatchAllKeepsField(PatchAll(buf, base, g), base, d, globalRelocs[i].loc);
    }

    /**
     * After resolution, dynamic reference i lands on its label, provided no later
     * dynamic reference overwrites its field and the displacement fits the field.
     */
    lemma DynamicReferenceLands(buf: seq<u8>, base: nat, i: nat)
      requires RelocsResolvable(|buf|, base) && i < |dynamicRelocs|
      requires forall j :: i < j < |dynamicRelocs| ==> Disjoint(dynamicRelocs[i].loc, dynamicRelocs[j].loc)
      requires DynamicLookup(dynamicLabels, dynamicRelocs[i].handle).Ok?
      requires FitsSigned(Displacement(dynamicRelocs[i].loc, DynamicLookup(dynamicLabels, dynamicRelocs[i].handle).value),
                          dynamicRelocs[i].loc.size as nat)
      ensures var loc := dynamicRelocs[i].loc;
        loc.end + DecodeSigned(Encoded(buf, base)[FieldStart(base, loc)..FieldEnd(base, loc)])
          == DynamicLookup(dynamicLabels, dynamicRelocs[i].handle).value
    {
      var g := Fixups(GlobalQueue());
      var d := Fixups(DynamicQueue());
      PatchedReferenceResolves(PatchAll(buf, base, g), base, d, i);
    }

    /** `Assembler::new`; `mapping` is the fresh mapping `ExecutableBuffer::new(0, MMAP_INIT_SIZE)` returns. */
    constructor (mapping: seq<u8>)
      requires |mapping| == MMAP_INIT_SIZE
      ensures Valid() && Offset() == 0
      ensures exec == mapping && length == 0 && mapLen == MMAP_INIT_SIZE && asmoffset == 0 && ops == []
      ensures globalLabels == map[] && globalRelocs == [] && dynamicLabels == [] && dynamicRelocs == []
      ensures localLabels == map[] && localRelocs == map[] && localHistory == []
    {
      exec := mapping;
      length := 0;
      mapLen := MMAP_INIT_SIZE;
      asmoffset := 0;
      ops := [];
      globalLabels := map[];
      globalRelocs := [];
      dynamicLabels := [];
      dynamicRelocs := [];
      localLabels := map[];
      localRelocs := map[];
      localHistory := [];
    }

    /** A fresh handle, numbered after the existing ones, that starts undefined. */
    method NewDynamicLabel() returns (handle: DynamicLabel)
      modifies this`dynamicLabels
      ensures handle.id == |old(dynamicLabels)|
      ensures dynamicLabels == old(dynamicLabels) + [None]
    {
      handle := DynamicLabel(|dynamicLabels|);
      dynamicLabels := dynamicLabels + [None];
    }

    method Push(value: u8)
      modifies this`ops
      ensures ops == old(ops) + [value]
      ensures Offset() == old(Offset()) + 1
    {
      ops := ops + [value];
    }

    method Extend(bytes: seq<u8>)
      modifies this`ops
      ensures ops == old(ops) + bytes
      ensures Offset() == old(Offset()) + |bytes|
    {
      ops := ops + bytes;
    }

    /** Pads with NOPs up to the next multiple of `alignment`. */
    method Align(alignment: nat) returns (s: Status)
      modifies this`ops
      ensures s.Panicked? <==> alignment == 0
      ensures s.Panicked? ==> s.cause == RemainderByZero && ops == old(ops)
      ensures s.Completed? ==>
        && Offset() % alignment == 0
        && old(Offset()) <= Offset() < old(Offset()) + alignment
        && ops == old(ops) + Nops(Offset() - old(Offset()))
    {
      if alignment == 0 {
        return Panicked(RemainderByZero);
      }
      var start := Offset();
      var misalignment := start % alignment;
      DivMod(start, alignment);
      if misalignment != 0 {
        var k := 0;
        while k < alignment - misalignment
          invariant 0 <= k <= alignment - misalignment
          invariant ops == old(ops) + Nops(k)
        {
          Push(NOP);
          assert Nops(k + 1) == Nops(k) + [NOP];
          k := k + 1;
        }
        ModUnique(Offset(), alignment, start / alignment + 1, 0);
      }
      s := Completed;
    }

    /** Records the current offset for `name`; a second definition panics (after overwriting). */
    method GlobalLabel(name: string) returns (s: Status)
      modifies this`globalLabels
      ensures globalLabels == old(globalLabels)[name := Offset()]
      ensures s.Panicked? <==> name in old(globalLabels)
      ensures s.Panicked? ==> s.cause == DuplicateGlobalLabel(old(globalLabels)[name])
    {
      var offset := Offset();
      var previous := if name in globalLabels then Some(globalLabels[name]) else None;
      globalLabels := globalLabels[name := offset];
      if previous.Some? {
        return Panicked(DuplicateGlobalLabel(previous.value));
      }
      s := Completed;
    }

    method GlobalReloc(name: string, size: u8)
      modifies this`globalRelocs
      ensures globalRelocs == old(globalRelocs) + [GlobalRef(PatchLoc(Offset(), size), name)]
    {
      globalRelocs := globalRelocs + [GlobalRef(PatchLoc(Offset(), size), name)];
    }

    /** Defines a handle at the current offset; an unknown handle or a second definition panics. */
    method DefineDynamicLabel(handle: DynamicLabel) returns (s: Status)
      modifies this`dynamicLabels
      ensures s.Completed? <==> handle.id < |old(dynamicLabels)| && old(dynamicLabels)[handle.id].None?
      ensures s.Completed? ==> dynamicLabels == old(dynamicLabels)[handle.id := Some(Offset())]
      ensures s.Panicked? ==> dynamicLabels == old(dynamicLabels)
      ensures s.Panicked? ==> s.cause == if handle.id < |dynamicLabels| then DuplicateDynamicLabel(handle.id) else IndexOutOfBounds
    {
      if handle.id >= |dynamicLabels| {
        return Panicked(IndexOutOfBounds);
      }
      if dynamicLabels[handle.id].Some? {
        return Panicked(DuplicateDynamicLabel(handle.id));
      }
      dynamicLabels := dynamicLabels[handle.id := Some(Offset())];
      s := Completed;
    }

    method DynamicReloc(handle: DynamicLabel, size: u8)
      modifies this`dynamicRelocs
      ensures dynamicRelocs == old(dynamicRelocs) + [DynamicRef(PatchLoc(Offset(), size), handle)]
    {
      dynamicRelocs := dynamicRelocs + [DynamicRef(PatchLoc(Offset(), size), handle)];
    }

    /** `patch_loc` on the assembling buffer: the field must lie inside `ops`. */
    method PatchAt(loc: PatchLoc, target: nat) returns (s: Status)
      modifies this`ops
      ensures s.Completed? <==> Patchable(|old(ops)|, asmoffset, loc)
      ensures s.Completed? ==> ops == Patch(old(ops), asmoffset, loc, target)
      ensures s.Panicked? ==> ops == old(ops)
      ensures s.Panicked? ==> s.cause == if InBounds(|ops|, asmoffset, loc) then InvalidPatchSize(loc.size) else IndexOutOfBounds
    {
      if !InBounds(|ops|, asmoffset, loc) {
        return Panicked(IndexOutOfBounds);
      }
      if !ValidSize(loc.size) {
        return Panicked(InvalidPatchSize(loc.size));
      }
      ops := Patch(ops, asmoffset, loc, target);
      s := Completed;
    }

    /** The loop of `local_label`: patches each queued site with `target`, in order, until one fails. */
    method PatchQueue(locs: seq<PatchLoc>, target: nat) returns (s: Status)
      modifies this`ops
      ensures |ops| == |old(ops)|
      ensures s == StatusOf(ResolveFrom(old(ops), asmoffset, |old(ops)|, Pending(locs, target)))
      ensures s.Completed? ==> ops == ResolveFrom(old(ops), asmoffset, |old(ops)|, Pending(locs, target)).value
    {
      ghost var len := |ops|;
      ghost var reqs := Pending(locs, target);
      ghost var outcome := ResolveFrom(ops, asmoffset, len, reqs);
      var i := 0;
      while i < |locs|
        invariant 0 <= i <= |locs|
        invariant |ops| == len
        invariant ResolveFrom(ops, asmoffset, len, reqs[i..]) == outcome
      {
        ResolveFromStep(ops, asmoffset, len, reqs, i);
        s := PatchAt(locs[i], target);
        if s.Panicked? {
          return;
        }
        i := i + 1;
      }
      s := Completed;
    }

    /**
     * Patches every queued forward reference to `name` with the current offset,
     * drops the queue and makes the current offset `name`'s latest definition.
     */
    method LocalLabel(name: string) returns (s: Status)
      modifies this`ops, this`localRelocs, this`localLabels, this`localHistory
      ensures |ops| == |old(ops)|
      ensures localRelocs == Release(old(localRelocs), name)
      ensures s.Completed? <==> AllPatchable(|old(ops)|, asmoffset, Bind(Queued(old(localRelocs), name), old(Offset())))
      ensures s.Completed? ==>
        && ops == PatchAll(old(ops), asmoffset, Bind(Queued(old(localRelocs), name), old(Offset())))
        && localLabels == old(localLabels)[name := old(Offset())]
        && localHistory == old(localHistory) + [Define(name, old(Offset()))]
      ensures s.Completed? && old(LocalsTracked()) ==> LocalsTracked()
    {
      var offset := Offset();
      var relocs := Queued(localRelocs, name);
      localRelocs := Release(localRelocs, name);
      ghost var before := ops;
      PendingBinds(before, asmoffset, |before|, relocs, offset);
      s := PatchQueue(relocs, offset);
      if s.Panicked? {
        return;
      }
      localLabels := localLabels[name := offset];
      localHistory := localHistory + [Define(name, offset)];
      assert localHistory[..|localHistory| - 1] == old(localHistory);
    }

    /** Queues the site ending at the current offset for the next definition of `name`. */
    method ForwardReloc(name: string, size: u8)
      modifies this`localRelocs, this`localHistory
      ensures localRelocs == Enqueue(old(localRelocs), name, PatchLoc(Offset(), size))
      ensures localHistory == old(localHistory) + [Forward(name, PatchLoc(Offset(), size))]
      ensures old(LocalsTracked()) ==> LocalsTracked()
    {
      var loc := PatchLoc(Offset(), size);
      localRelocs := Enqueue(localRelocs, name, loc);
      localHistory := localHistory + [Forward(name, loc)];
      assert localHistory[..|localHistory| - 1] == old(localHistory);
    }

    /** Patches the site ending at the current offset with `name`'s latest definition. */
    method BackwardReloc(name: string, size: u8) returns (s: Status)
      modifies this`ops
      ensures name !in localLabels ==> s == Panicked(UnknownLocalLabel(name))
      ensures name in localLabels ==> (s.Completed? <==> Patchable(|old(ops)|, asmoffset, PatchLoc(old(Offset()), size)))
      ensures s.Completed? ==> ops == Patch(old(ops), asmoffset, PatchLoc(old(Offset()), size), localLabels[name])
      ensures s.Panicked? ==> ops == old(ops)
    {
      if name !in localLabels {
        return Panicked(UnknownLocalLabel(name));
      }
      var target := localLabels[name];
      s := PatchAt(PatchLoc(Offset(), size), target);
    }

    /**
     * The first loop of `encode_relocs`: patches each global reference into
     * `ops`, in order, and panics at the first unknown name or bad site.
     */
    method PatchGlobals(relocs: seq<GlobalRef>) returns (s: Status)
      modifies this`ops
      ensures |ops| == |old(ops)|
      ensures s == StatusOf(ResolveFrom(old(ops), asmoffset, |old(ops)|, GlobalRequests(relocs, globalLabels)))
      ensures s.Completed? ==> ops == ResolveFrom(old(ops), asmoffset, |old(ops)|, GlobalRequests(relocs, globalLabels)).value
    {
      ghost var len := |ops|;
      ghost var reqs := GlobalRequests(relocs, globalLabels);
      ghost var outcome := ResolveFrom(ops, asmoffset, len, reqs);
      var i := 0;
      while i < |relocs|
        invariant 0 <= i <= |relocs|
        invariant |ops| == len
        invariant ResolveFrom(ops, asmoffset, len, reqs[i..]) == outcome
      {
        var r := relocs[i];
        ResolveFromStep(ops, asmoffset, len, reqs, i);
        if r.name !in globalLabels {
          return Panicked(UnknownGlobalLabel(r.name));
        }
        s := PatchAt(r.loc, globalLabels[r.name]);
        if s.Panicked? {
          return;
        }
        i := i + 1;
      }
      s := Completed;
    }

    /**
     * The second loop of `encode_relocs`: patches each dynamic reference into
     * `ops`, in order, and panics at the first unknown handle or bad site.
     */
    method PatchDynamics(relocs: seq<DynamicRef>) returns (s: Status)
      modifies this`ops
      ensures |ops| == |old(ops)|
      ensures s == StatusOf(ResolveFrom(old(ops), asmoffset, |old(ops)|, DynamicRequests(relocs, dynamicLabels)))
      ensures s.Completed? ==> ops == ResolveFrom(old(ops), asmoffset, |old(ops)|, DynamicRequests(relocs, dynamicLabels)).value
    {
      ghost var len := |ops|;
      ghost var reqs := DynamicRequests(relocs, dynamicLabels);
      ghost var outcome := ResolveFrom(ops, asmoffset, len, reqs);
      var i := 0;
      while i < |relocs|
        invariant 0 <= i <= |relocs|
        invariant |ops| == len
        invariant ResolveFrom(ops, asmoffset, len, reqs[i..]) == outcome
      {
        var r := relocs[i];
        ResolveFromStep(ops, asmoffset, len, reqs, i);
        if r.handle.id < |dynamicLabels| && dynamicLabels[r.handle.id].Some? {
          s := PatchAt(r.loc, dynamicLabels[r.handle.id].value);
          if s.Panicked? {
            return;
          }
        } else {
          return Panicked(UnknownDynamicLabel(r.handle.id));
        }
        i := i + 1;
      }
      s := Completed;
    }

    /**
     * Drains the global and then the dynamic reference lists, patching each into
     * `ops`; panics on an undefined target or a site that cannot be patched, and
     * afterwards if any forward reference to a local label is still queued.
     */
    method EncodeRelocs() returns (s: Status)
      modifies this`ops, this`globalRelocs, this`dynamicRelocs
      ensures |ops| == |old(ops)|
      ensures globalRelocs == []
      ensures s.Completed? <==> old(RelocsResolvable(|ops|, asmoffset)) && localRelocs == map[]
      ensures s.Completed? ==> dynamicRelocs == [] && ops == old(Encoded(ops, asmoffset))
      ensures old(ResolveFrom(ops, asmoffset, |ops|, GlobalQueue())).Err? ==>
        s == Panicked(old(ResolveFrom(ops, asmoffset, |ops|, GlobalQueue())).cause)
    {
      ghost var len := |ops|;
      ghost var start := ops;
      var relocs := globalRelocs;
      globalRelocs := [];
      s := PatchGlobals(relocs);
      ResolveFromSpec(start, asmoffset, len, GlobalRequests(relocs, globalLabels));
      if s.Panicked? {
        return;
      }
      ghost var mid := ops;
      var drelocs := dynamicRelocs;
      dynamicRelocs := [];
      s := PatchDynamics(drelocs);
      ResolveFromSpec(mid, asmoffset, len, DynamicRequests(drelocs, dynamicLabels));
      if s.Panicked? {
        return;
      }
      if localRelocs != map[] {
        var name :| name in localRelocs;
        return Panicked(UnknownLocalLabel(name));
      }
      s := Completed;
    }

    /**
     * Resolves the queued references and copies `ops` into the executable
     * buffer at `asmoffset`. When `ops` outruns the mapping, a new one of at
     * least `max(end, 2 * mapLen)` bytes replaces it: `mapping` is what
     * `MutableBuffer::new` returns for that request.
     */
    method Commit(mapping: seq<u8>) returns (s: Status)
      requires Valid()
      requires Offset() > mapLen ==> |mapping| >= Max(Offset(), 2 * mapLen)
      modifies this`exec, this`length, this`mapLen, this`asmoffset, this`ops, this`globalRelocs, this`dynamicRelocs
      ensures old(asmoffset == Offset()) ==> s.Completed? && unchanged(this)
      ensures old(asmoffset < Offset()) ==>
        (s.Completed? <==> old(RelocsResolvable(|ops|, asmoffset)) && localRelocs == map[])
      ensures s.Completed? ==> Valid() && ops == [] && asmoffset == old(Offset())
      ensures s.Completed? && old(asmoffset < Offset()) ==>
        && globalRelocs == [] && dynamicRelocs == []
        && length == Max(old(Offset()), old(length))
        && mapLen == (if old(Offset()) > old(mapLen) then |mapping| else old(mapLen))
        && mapLen >= old(Offset())
        && exec == old(exec[..asmoffset]) + old(Encoded(ops, asmoffset))
                   + (if old(Offset()) > old(mapLen) then mapping else old(exec))[old(Offset())..]
    {
      var start := asmoffset;
      var end := Offset();
      if start == end {
        return Completed;
      }
      ghost var exec0 := exec;
      s := EncodeRelocs();
      if s.Panicked? {
        return;
      }
      ghost var encoded := ops;
      assert exec == exec0 && asmoffset == start && Offset() == end;
      assert Valid();
      CopyOps(mapping);
      assert exec == exec0[..start] + encoded + (if end > old(mapLen) then mapping else exec0)[end..];
    }

    /**
     * The second half of `commit`: copies `ops` into the executable buffer at
     * `asmoffset`, in place or into the larger `mapping`, and empties `ops`.
     */
    method CopyOps(mapping: seq<u8>)
      requires Valid()
      requires Offset() > mapLen ==> |mapping| >= Max(Offset(), 2 * mapLen)
      modifies this`exec, this`length, this`mapLen, this`asmoffset, this`ops
      ensures Valid() && ops == [] && asmoffset == old(Offset())
      ensures length == Max(old(Offset()), old(length))
      ensures mapLen == (if old(Offset()) > old(mapLen) then |mapping| else old(mapLen))
      ensures exec == old(exec[..asmoffset]) + old(ops)
                      + (if old(Offset()) > old(mapLen) then mapping else old(exec))[old(Offset())..]
    {
      var start := asmoffset;
      var end := Offset();
      if end > mapLen {
        exec := exec[..start] + ops + mapping[end..];
        mapLen := |mapping|;
        length := end;
      } else {
        exec := exec[..start] + ops + exec[end..];
        length := Max(end, length);
      }
      ops := [];
      asmoffset := end;
    }

    /**
     * `alter`: commits, then runs the edits on the committed code with the
     * cursor starting at 0, resolves the references they made, and puts
     * `asmoffset` back where the commit left it. An `align` among the edits
     * leaves its NOPs in `ops`, where the next commit appends them.
     */
    method Alter(edits: seq<Edit>, mapping: seq<u8>) returns (s: Status)
      requires Valid()
      requires Offset() > mapLen ==> |mapping| >= Max(Offset(), 2 * mapLen)
      modifies this
      ensures s.Completed? ==>
        && Valid()
        && asmoffset == old(Offset()) && ops == Nops(|ops|)
        && length == Max(old(Offset()), old(length))
        && globalRelocs == [] && dynamicRelocs == [] && localRelocs == map[]
    {
      s := Commit(mapping);
      if s.Panicked? {
        return;
      }
      s := EditCommitted(edits);
    }

    /** The part of `alter` after the commit: the edits, with the cursor from 0, then their references. */
    method EditCommitted(edits: seq<Edit>) returns (s: Status)
      requires Valid() && ops == []
      modifies this`exec, this`asmoffset, this`ops, this`globalLabels, this`globalRelocs, this`dynamicLabels,
        this`dynamicRelocs, this`localLabels, this`localRelocs, this`localHistory
      ensures ops == Nops(|ops|) && KeepsUncommitted(old(exec))
      ensures s.Completed? ==>
        && Valid() && asmoffset == old(asmoffset)
        && globalRelocs == [] && dynamicRelocs == [] && localRelocs == map[]
    {
      var saved := asmoffset;
      asmoffset := 0;
      var m := new AssemblyModifier(this);
      s := m.Run(edits);
      if s.Panicked? {
        return;
      }
      s := m.EncodeRelocs();
      if s.Panicked? {
        return;
      }
      asmoffset := saved;
    }

    /** `alter_uncommitted`: runs the edits on `ops` with the cursor starting at `asmoffset`. */
    method AlterUncommitted(edits: seq<CursorEdit>) returns (s: Status)
      modifies this`ops
      ensures |ops| == |old(ops)|
    {
      var m := new UncommittedModifier(this);
      var i := 0;
      while i < |edits|
        invariant |ops| == |old(ops)|
      {
        s := m.Apply(edits[i]);
        if s.Panicked? {
          return;
        }
        i := i + 1;
      }
      s := Completed;
    }
  }

  /**
   * Assembles directly into the committed buffer. Its cursor is the assembler's
   * `asmoffset`; the buffer it writes is the assembler's `exec`, of which only
   * the first `length` bytes may be indexed.
   */
  class AssemblyModifier {
    const assembler: Assembler

    constructor (assembler: Assembler)
      ensures this.assembler == assembler
    {
      this.assembler := assembler;
    }

    /** The assembler's `offset()`: the cursor plus whatever `align` has left in `ops`. */
    function Offset(): (o: nat)
      reads assembler`asmoffset, assembler`ops
      ensures o == assembler.asmoffset + |assembler.ops|
    {
      assembler.Offset()
    }

    method Goto(offset: nat)
      modifies assembler`asmoffset
      ensures assembler.asmoffset == offset
    {
      assembler.asmoffset := offset;
    }

    /** Panics when the cursor has moved past `offset`. */
    method Check(offset: nat) returns (s: Status)
      ensures s.Panicked? <==> assembler.asmoffset > offset
      ensures s.Panicked? ==> s.cause == CheckFailed
    {
      if assembler.asmoffset > offset {
        return Panicked(CheckFailed);
      }
      s := Completed;
    }

    /** Panics unless the cursor is exactly at `offset`. */
    method CheckExact(offset: nat) returns (s: Status)
      ensures s.Panicked? <==> assembler.asmoffset != offset
      ensures s.Panicked? ==> s.cause == CheckExactFailed
    {
      if assembler.asmoffset != offset {
        return Panicked(CheckExactFailed);
      }
      s := Completed;
    }

    /** Overwrites the committed byte at the cursor and advances the cursor. */
    method Push(value: u8) returns (s: Status)
      requires assembler.Mapped()
      modifies assembler`exec, assembler`asmoffset
      ensures assembler.KeepsUncommitted(old(assembler.exec))
      ensures s.Completed? <==> old(assembler.asmoffset) < assembler.length
      ensures s.Completed? ==>
        && assembler.exec == old(assembler.exec)[old(assembler.asmoffset) := value]
        && assembler.asmoffset == old(assembler.asmoffset) + 1
      ensures s.Panicked? ==> s.cause == IndexOutOfBounds && unchanged(assembler)
    {
      if assembler.asmoffset >= assembler.length {
        return Panicked(IndexOutOfBounds);
      }
      assembler.exec := assembler.exec[assembler.asmoffset := value];
      assembler.asmoffset := assembler.asmoffset + 1;
      s := Completed;
    }

    /** Overwrites `|bytes|` committed bytes from the cursor on, one `Push` at a time. */
    method Extend(bytes: seq<u8>) returns (s: Status)
      requires assembler.Mapped()
      modifies assembler`exec, assembler`asmoffset
      ensures assembler.KeepsUncommitted(old(assembler.exec))
      ensures s.Completed? <==> |bytes| == 0 || old(assembler.asmoffset) + |bytes| <= assembler.length
      ensures s.Completed? ==>
        && assembler.asmoffset == old(assembler.asmoffset) + |bytes|
        && forall k :: 0 <= k < |assembler.exec| ==>
             assembler.exec[k] == if old(assembler.asmoffset) <= k < assembler.asmoffset
                                  then bytes[k - old(assembler.asmoffset)] else old(assembler.exec)[k]
    {
      var i := 0;
      while i < |bytes|
        invariant 0 <= i <= |bytes|
        invariant assembler.KeepsUncommitted(old(assembler.exec))
        invariant assembler.asmoffset == old(assembler.asmoffset) + i
        invariant i > 0 ==> assembler.asmoffset <= assembler.length
        invariant forall k :: 0 <= k < |assembler.exec| ==>
          assembler.exec[k] == if old(assembler.asmoffset) <= k < assembler.asmoffset
                               then bytes[k - old(assembler.asmoffset)] else old(assembler.exec)[k]
      {
        s := Push(bytes[i]);
        if s.Panicked? {
          return;
        }
        i := i + 1;
      }
      s := Completed;
    }

    /** `patch_loc` on the committed buffer (absolute offsets, base 0). */
    method PatchAt(loc: PatchLoc, target: nat) returns (s: Status)
      requires assembler.Mapped()
      modifies assembler`exec
      ensures assembler.KeepsUncommitted(old(assembler.exec))
      ensures s.Completed? <==> Patchable(assembler.length, 0, loc)
      ensures s.Completed? ==> assembler.exec == Patch(old(assembler.exec), 0, loc, target)
      ensures s.Panicked? ==> assembler.exec == old(assembler.exec)
      ensures s.Panicked? ==> s.cause == if InBounds(assembler.length, 0, loc) then InvalidPatchSize(loc.size) else IndexOutOfBounds
    {
      if !InBounds(assembler.length, 0, loc) {
        return Panicked(IndexOutOfBounds);
      }
      if !ValidSize(loc.size) {
        return Panicked(InvalidPatchSize(loc.size));
      }
      assembler.exec := Patch(assembler.exec, 0, loc, target);
      s := Completed;
    }

    /** As `Assembler.PatchGlobals`, patching the committed buffer instead of `ops`. */
    method PatchGlobals(relocs: seq<GlobalRef>) returns (s: Status)
      requires assembler.Mapped()
      modifies assembler`exec
      ensures assembler.KeepsUncommitted(old(assembler.exec))
      ensures s == StatusOf(ResolveFrom(old(assembler.exec), 0, assembler.length, GlobalRequests(relocs, assembler.globalLabels)))
      ensures s.Completed? ==>
        assembler.exec == ResolveFrom(old(assembler.exec), 0, assembler.length, GlobalRequests(relocs, assembler.globalLabels)).value
    {
      var labels := assembler.globalLabels;
      ghost var len := assembler.length;
      ghost var reqs := GlobalRequests(relocs, labels);
      ghost var outcome := ResolveFrom(assembler.exec, 0, len, reqs);
      var i := 0;
      while i < |relocs|
        invariant 0 <= i <= |relocs|
        invariant assembler.Mapped() && assembler.KeepsUncommitted(old(assembler.exec))
        invariant ResolveFrom(assembler.exec, 0, len, reqs[i..]) == outcome
      {
        var r := relocs[i];
        ResolveFromStep(assembler.exec, 0, len, reqs, i);
        if r.name !in labels {
          return Panicked(UnknownGlobalLabel(r.name));
        }
        s := PatchAt(r.loc, labels[r.name]);
        if s.Panicked? {
          return;
        }
        i := i + 1;
      }
      s := Completed;
    }

    /** As `Assembler.PatchDynamics`, patching the committed buffer instead of `ops`. */
    method PatchDynamics(relocs: seq<DynamicRef>) returns (s: Status)
      requires assembler.Mapped()
      modifies assembler`exec
      ensures assembler.KeepsUncommitted(old(assembler.exec))
      ensures s == StatusOf(ResolveFrom(old(assembler.exec), 0, assembler.length, DynamicRequests(relocs, assembler.dynamicLabels)))
      ensures s.Completed? ==>
        assembler.exec == ResolveFrom(old(assembler.exec), 0, assembler.length, DynamicRequests(relocs, assembler.dynamicLabels)).value
    {
      var labels := assembler.dynamicLabels;
      ghost var len := assembler.length;
      ghost var reqs := DynamicRequests(relocs, labels);
      ghost var outcome := ResolveFrom(assembler.exec, 0, len, reqs);
      var i := 0;
      while i < |relocs|
        invariant 0 <= i <= |relocs|
        invariant assembler.Mapped() && assembler.KeepsUncommitted(old(assembler.exec))
        invariant ResolveFrom(assembler.exec, 0, len, reqs[i..]) == outcome
      {
        var r := relocs[i];
        ResolveFromStep(assembler.exec, 0, len, reqs, i);
        if r.handle.id < |labels| && labels[r.handle.id].Some? {
          s := PatchAt(r.loc, labels[r.handle.id].value);
          if s.Panicked? {
            return;
          }
        } else {
          return Panicked(UnknownDynamicLabel(r.handle.id));
        }
        i := i + 1;
      }
      s := Completed;
    }

    /** As `Assembler.EncodeRelocs`, patching the committed buffer instead of `ops`. */
    method EncodeRelocs() returns (s: Status)
      requires assembler.Mapped()
      modifies assembler`exec, assembler`globalRelocs, assembler`dynamicRelocs
      ensures assembler.KeepsUncommitted(old(assembler.exec))
      ensures assembler.globalRelocs == []
      ensures s.Completed? <==> old(assembler.RelocsResolvable(assembler.length, 0)) && assembler.localRelocs == map[]
      ensures s.Completed? ==> assembler.dynamicRelocs == [] && assembler.exec == old(assembler.Encoded(assembler.exec, 0))
      ensures old(ResolveFrom(assembler.exec, 0, assembler.length, assembler.GlobalQueue())).Err? ==>
        s == Panicked(old(ResolveFrom(assembler.exec, 0, assembler.length, assembler.GlobalQueue())).cause)
    {
      ghost var start := assembler.exec;
      var relocs := assembler.globalRelocs;
      assembler.globalRelocs := [];
      s := PatchGlobals(relocs);
      ResolveFromSpec(start, 0, assembler.length, GlobalRequests(relocs, assembler.globalLabels));
      if s.Panicked? {
        return;
      }
      ghost var mid := assembler.exec;
      var drelocs := assembler.dynamicRelocs;
      assembler.dynamicRelocs := [];
      s := PatchDynamics(drelocs);
      ResolveFromSpec(mid, 0, assembler.length, DynamicRequests(drelocs, assembler.dynamicLabels));
      if s.Panicked? {
        return;
      }
      if assembler.localRelocs != map[] {
        var name :| name in assembler.localRelocs;
        return Panicked(UnknownLocalLabel(name));
      }
      s := Completed;
    }

    /** As `Assembler.PatchQueue`, patching the committed buffer instead of `ops`. */
    method PatchQueue(locs: seq<PatchLoc>, target: nat) returns (s: Status)
      requires assembler.Mapped()
      modifies assembler`exec
      ensures assembler.KeepsUncommitted(old(assembler.exec))
      ensures s == StatusOf(ResolveFrom(old(assembler.exec), 0, assembler.length, Pending(locs, target)))
      ensures s.Completed? ==> assembler.exec == ResolveFrom(old(assembler.exec), 0, assembler.length, Pending(locs, target)).value
    {
      ghost var len := assembler.length;
      ghost var reqs := Pending(locs, target);
      ghost var outcome := ResolveFrom(assembler.exec, 0, len, reqs);
      var i := 0;
      while i < |locs|
        invariant 0 <= i <= |locs|
        invariant assembler.Mapped() && assembler.KeepsUncommitted(old(assembler.exec))
        invariant ResolveFrom(assembler.exec, 0, len, reqs[i..]) == outcome
      {
        ResolveFromStep(assembler.exec, 0, len, reqs, i);
        s := PatchAt(locs[i], target);
        if s.Panicked? {
          return;
        }
        i := i + 1;
      }
      s := Completed;
    }

    /** As `Assembler.LocalLabel`, patching the committed buffer instead of `ops`. */
    method LocalLabel(name: string) returns (s: Status)
      requires assembler.Mapped()
      modifies assembler`exec, assembler`localRelocs, assembler`localLabels, assembler`localHistory
      ensures assembler.KeepsUncommitted(old(assembler.exec))
      ensures assembler.localRelocs == Release(old(assembler.localRelocs), name)
      ensures s.Completed? <==> AllPatchable(assembler.length, 0, Bind(Queued(old(assembler.localRelocs), name), Offset()))
      ensures s.Completed? ==>
        && assembler.exec == PatchAll(old(assembler.exec), 0, Bind(Queued(old(assembler.localRelocs), name), Offset()))
        && assembler.localLabels == old(assembler.localLabels)[name := Offset()]
        && assembler.localHistory == old(assembler.localHistory) + [Define(name, Offset())]
      ensures s.Completed? && old(assembler.LocalsTracked()) ==> assembler.LocalsTracked()
    {
      var offset := Offset();
      var relocs := Queued(assembler.localRelocs, name);
      assembler.localRelocs := Release(assembler.localRelocs, name);
      ghost var before := assembler.exec;
      PendingBinds(before, 0, assembler.length, relocs, offset);
      s := PatchQueue(relocs, offset);
      if s.Panicked? {
        return;
      }
      ghost var history := assembler.localHistory;
      assembler.localLabels := assembler.localLabels[name := offset];
      assembler.localHistory := history + [Define(name, offset)];
      assert assembler.localHistory[..|assembler.localHistory| - 1] == history;
      assert Offset() == offset;
    }

    /** As `Assembler.BackwardReloc`, patching the committed buffer instead of `ops`. */
    method BackwardReloc(name: string, size: u8) returns (s: Status)
      requires assembler.Mapped()
      modifies assembler`exec
      ensures assembler.KeepsUncommitted(old(assembler.exec))
      ensures name !in assembler.localLabels ==> s == Panicked(UnknownLocalLabel(name))
      ensures name in assembler.localLabels ==> (s.Completed? <==> Patchable(assembler.length, 0, PatchLoc(Offset(), size)))
      ensures s.Completed? ==> assembler.exec == Patch(old(assembler.exec), 0, PatchLoc(Offset(), size), assembler.localLabels[name])
      ensures s.Panicked? ==> assembler.exec == old(assembler.exec)
    {
      if name !in assembler.localLabels {
        return Panicked(UnknownLocalLabel(name));
      }
      var target := assembler.localLabels[name];
      s := PatchAt(PatchLoc(Offset(), size), target);
    }

    /**
     * `align` as it should behave here: pads the committed buffer with NOPs from
     * the cursor up to the next multiple of `alignment`. The edits of `alter`
     * run `AlignAsWritten`, as `AssemblyModifier::align` does.
     */
    method Align(alignment: nat) returns (s: Status)
      requires assembler.Mapped()
      modifies assembler`exec, assembler`asmoffset
      ensures assembler.KeepsUncommitted(old(assembler.exec))
      ensures alignment == 0 ==> s == Panicked(RemainderByZero)
      ensures s.Completed? ==>
        && assembler.asmoffset % alignment == 0
        && old(assembler.asmoffset) <= assembler.asmoffset < old(assembler.asmoffset) + alignment
        && forall k :: 0 <= k < |assembler.exec| ==>
             assembler.exec[k] == if old(assembler.asmoffset) <= k < assembler.asmoffset then NOP else old(assembler.exec)[k]
      ensures alignment > 0 ==>
        (s.Completed? <==> old(assembler.asmoffset) % alignment == 0
                           || old(assembler.asmoffset) + (alignment - old(assembler.asmoffset) % alignment) <= assembler.length)
    {
      if alignment == 0 {
        return Panicked(RemainderByZero);
      }
      var start := assembler.asmoffset;
      var misalignment := start % alignment;
      DivMod(start, alignment);
      if misalignment == 0 {
        return Completed;
      }
      s := Extend(Nops(alignment - misalignment));
      if s.Completed? {
        ModUnique(assembler.asmoffset, alignment, start / alignment + 1, 0);
      }
    }

    /**
     * `align` as written: it forwards to the assembler's `align`, which pads the
     * uncommitted `ops` and leaves the cursor, where the next byte is written,
     * where it was.
     */
    method AlignAsWritten(alignment: nat) returns (s: Status)
      modifies assembler`ops
      ensures s.Panicked? <==> alignment == 0
      ensures |old(assembler.ops)| <= |assembler.ops|
      ensures assembler.ops == old(assembler.ops) + Nops(|assembler.ops| - |old(assembler.ops)|)
      ensures s.Completed? ==> assembler.Offset() % alignment == 0
      ensures s.Completed? && old(assembler.asmoffset) % alignment != 0 && old(assembler.ops) == [] ==>
        && assembler.asmoffset % alignment != 0
        && |assembler.ops| == alignment - old(assembler.asmoffset) % alignment
    {
      s := assembler.Align(alignment);
      if s.Completed? && old(assembler.asmoffset) % alignment != 0 && old(assembler.ops) == [] {
        AlignmentGap(old(assembler.asmoffset), assembler.Offset(), alignment);
      }
    }

    /** The closure passed to `alter`: its calls on the modifier, in order, until one panics. */
    method Run(edits: seq<Edit>) returns (s: Status)
      requires assembler.Mapped() && assembler.ops == []
      modifies assembler`exec, assembler`asmoffset, assembler`ops, assembler`globalLabels, assembler`globalRelocs,
        assembler`dynamicLabels, assembler`dynamicRelocs, assembler`localLabels, assembler`localRelocs,
        assembler`localHistory
      ensures assembler.Mapped() && assembler.KeepsUncommitted(old(assembler.exec))
      ensures assembler.ops == Nops(|assembler.ops|)
      ensures s.Completed? && old(assembler.LocalsTracked()) ==> assembler.LocalsTracked()
    {
      var i := 0;
      while i < |edits|
        invariant 0 <= i <= |edits|
        invariant assembler.Mapped() && assembler.ops == Nops(|assembler.ops|)
        invariant assembler.KeepsUncommitted(old(assembler.exec))
        invariant old(assembler.LocalsTracked()) ==> assembler.LocalsTracked()
      {
        s := Apply(edits[i]);
        if s.Panicked? {
          return;
        }
        i := i + 1;
      }
      s := Completed;
    }

    /**
     * One call of the `alter` closure. `align`, the global and dynamic label definitions,
     * and the global, dynamic and forward references delegate to the assembler.
     */
    method Apply(edit: Edit) returns (s: Status)
      requires assembler.Mapped()
      modifies assembler`exec, assembler`asmoffset, assembler`ops, assembler`globalLabels, assembler`globalRelocs,
        assembler`dynamicLabels, assembler`dynamicRelocs, assembler`localLabels, assembler`localRelocs,
        assembler`localHistory
      ensures assembler.Mapped() && assembler.KeepsUncommitted(old(assembler.exec))
      ensures |old(assembler.ops)| <= |assembler.ops|
      ensures assembler.ops == old(assembler.ops) + Nops(|assembler.ops| - |old(assembler.ops)|)
      ensures s.Completed? && old(assembler.LocalsTracked()) ==> assembler.LocalsTracked()
    {
      match edit
      case Cursor(GotoOffset(offset)) =>
        Goto(offset);
        s := Completed;
      case Cursor(CheckAtMost(offset)) =>
        s := Check(offset);
      case Cursor(CheckExactly(offset)) =>
        s := CheckExact(offset);
      case Cursor(PushByte(value)) =>
        s := Push(value);
      case Cursor(ExtendBy(bytes)) =>
        s := Extend(bytes);
      case DefineGlobal(name) =>
        s := assembler.GlobalLabel(name);
      case RelocGlobal(name, size) =>
        assembler.GlobalReloc(name, size);
        s := Completed;
      case DefineDynamic(handle) =>
        s := assembler.DefineDynamicLabel(handle);
      case RelocDynamic(handle, size) =>
        assembler.DynamicReloc(handle, size);
        s := Completed;
      case DefineLocal(name) =>
        s := LocalLabel(name);
      case RelocForward(name, size) =>
        assembler.ForwardReloc(name, size);
        s := Completed;
      case RelocBackward(name, size) =>
        s := BackwardReloc(name, size);
      case Pad(alignment) =>
        s := AlignAsWritten(alignment);
    }
  }

  /**
   * Overwrites bytes of the assembling buffer `ops` at its own cursor, which
   * counts in absolute offsets. It offers no label operations.
   */
  class UncommittedModifier {
    const assembler: Assembler
    var offset: nat

    constructor (assembler: Assembler)
      ensures this.assembler == assembler && offset == assembler.asmoffset
    {
      this.assembler := assembler;
      this.offset := assembler.asmoffset;
    }

    /** Its own cursor, not the assembler's `offset()`. */
    function Offset(): (o: nat)
      reads this`offset
      ensures o == offset
    {
      offset
    }

    method Goto(offset: nat)
      modifies this`offset
      ensures this.offset == offset
    {
      this.offset := offset;
    }

    /** Panics when the cursor has moved past `offset`. */
    method Check(offset: nat) returns (s: Status)
      ensures s.Panicked? <==> this.offset > offset
      ensures s.Panicked? ==> s.cause == CheckFailed
    {
      if this.offset > offset {
        return Panicked(CheckFailed);
      }
      s := Completed;
    }

    /** Panics unless the cursor is exactly at `offset`. */
    method CheckExact(offset: nat) returns (s: Status)
      ensures s.Panicked? <==> this.offset != offset
      ensures s.Panicked? ==> s.cause == CheckExactFailed
    {
      if this.offset != offset {
        return Panicked(CheckExactFailed);
      }
      s := Completed;
    }

    /** Overwrites `ops` at the cursor and advances the cursor; `ops` keeps its length. */
    method Push(value: u8) returns (s: Status)
      modifies this`offset, assembler`ops
      ensures |assembler.ops| == |old(assembler.ops)|
      ensures s.Completed? <==> assembler.asmoffset <= old(offset) < assembler.Offset()
      ensures s.Completed? ==>
        && assembler.ops == old(assembler.ops)[old(offset) - assembler.asmoffset := value]
        && offset == old(offset) + 1
      ensures s.Panicked? ==> s.cause == IndexOutOfBounds && offset == old(offset) && assembler.ops == old(assembler.ops)
    {
      if offset < assembler.asmoffset || offset - assembler.asmoffset >= |assembler.ops| {
        return Panicked(IndexOutOfBounds);
      }
      assembler.ops := assembler.ops[offset - assembler.asmoffset := value];
      offset := offset + 1;
      s := Completed;
    }

    /** Overwrites `|bytes|` bytes of `ops` from the cursor on, one `Push` at a time. */
    method Extend(bytes: seq<u8>) returns (s: Status)
      modifies this`offset, assembler`ops
      ensures |assembler.ops| == |old(assembler.ops)|
      ensures s.Completed? <==>
        |bytes| == 0 || (assembler.asmoffset <= old(offset) && old(offset) + |bytes| <= assembler.Offset())
      ensures s.Completed? ==>
        && offset == old(offset) + |bytes|
        && forall k :: 0 <= k < |assembler.ops| ==>
             assembler.ops[k] == if old(offset) <= assembler.asmoffset + k < offset
                                 then bytes[assembler.asmoffset + k - old(offset)] else old(assembler.ops)[k]
    {
      var i := 0;
      while i < |bytes|
        invariant 0 <= i <= |bytes|
        invariant |assembler.ops| == |old(assembler.ops)|
        invariant offset == old(offset) + i
        invariant i > 0 ==> assembler.asmoffset <= old(offset) && offset <= assembler.Offset()
        invariant forall k :: 0 <= k < |assembler.ops| ==>
          assembler.ops[k] == if old(offset) <= assembler.asmoffset + k < offset
                              then bytes[assembler.asmoffset + k - old(offset)] else old(assembler.ops)[k]
      {
        s := Push(bytes[i]);
        if s.Panicked? {
          return;
        }
        i := i + 1;
      }
      s := Completed;
    }

    /** One call of the `alter_uncommitted` closure. */
    method Apply(edit: CursorEdit) returns (s: Status)
      modifies this`offset, assembler`ops
      ensures |assembler.ops| == |old(assembler.ops)|
    {
      match edit
      case GotoOffset(offset) =>
        Goto(offset);
        s := Completed;
      case CheckAtMost(offset) =>
        s := Check(offset);
      case CheckExactly(offset) =>
        s := CheckExact(offset);
      case PushByte(value) =>
        s := Push(value);
      case ExtendBy(bytes) =>
        s := Extend(bytes);
    }
  }
}
