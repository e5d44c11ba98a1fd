/**
 * Panics, and the resolution of a list of references as the loops of
 * `encode_relocs` and `local_label` perform it: each reference in turn looks up
 * its label and patches its site, and the first failure panics.
 */
module Resolution {
  import opened LittleEndian
  import opened Patching

  /** Why `x64.rs` panics. */
  datatype Panic =
    | DuplicateGlobalLabel(previous: nat) // the message prints the earlier offset: `name` is shadowed by it
    | DuplicateDynamicLabel(id: nat)
    | UnknownGlobalLabel(name: string)
    | UnknownDynamicLabel(id: nat)
    | UnknownLocalLabel(name: string)
    | InvalidPatchSize(size: u8)
    | IndexOutOfBounds                    // slice or index out of range, or a `usize` subtraction below zero
    | RemainderByZero                     // `offset % alignment` with alignment 0
    | CheckFailed                         // `check`: the cursor is past the given offset
    | CheckExactFailed                    // `check_exact`: the cursor is not at the given offset

  /** How a call that returns nothing ends. */
  datatype Status = Completed | Panicked(cause: Panic)

  datatype Result<T> = Ok(value: T) | Err(cause: Panic)

  function StatusOf(r: Result<seq<u8>>): (s: Status)
    ensures s.Completed? <==> r.Ok?
    ensures s.Panicked? ==> s.cause == r.cause
  {
    if r.Ok? then Completed else Panicked(r.cause)
  }

  /** One reference to resolve: its site, and the label's offset or the panic its lookup raises. */
  datatype Request = Request(loc: PatchLoc, target: Result<nat>)

  /**
   * `patch_loc` on a buffer whose first byte has absolute offset `base` and of
   * which the first `len` bytes may be indexed: the slice is taken first, then
   * the width is dispatched on.
   */
  function PatchStep(buf: seq<u8>, base: nat, len: nat, loc: PatchLoc, target: nat): (r: Result<seq<u8>>)
    requires len <= |buf|
    ensures r.Ok? <==> Patchable(len, base, loc)
    ensures r.Ok? ==> r.value == Patch(buf, base, loc, target)
    ensures r.Err? ==> r.cause == if InBounds(len, base, loc) then InvalidPatchSize(loc.size) else IndexOutOfBounds
  {
    if !InBounds(len, base, loc) then Err(IndexOutOfBounds)
    else if !ValidSize(loc.size) then Err(InvalidPatchSize(loc.size))
    else Ok(Patch(buf, base, loc, target))
  }

  /** The requests resolved in order from the front; the first failing one decides the panic. */
  function ResolveFrom(buf: seq<u8>, base: nat, len: nat, reqs: seq<Request>): (r: Result<seq<u8>>)
    requires len <= |buf|
    ensures r.Ok? ==> |r.value| == |buf|
    decreases |reqs|
  {
    if reqs == [] then Ok(buf)
    else if reqs[0].target.Err? then Err(reqs[0].target.cause)
    else
      var step := PatchStep(buf, base, len, reqs[0].loc, reqs[0].target.value);
      if step.Err? then Err(step.cause) else ResolveFrom(step.value, base, len, reqs[1..])
  }

  /** Every request has a target and a site that can be patched. */
  predicate Resolvable(len: nat, base: nat, reqs: seq<Request>)
  {
    forall j :: 0 <= j < |reqs| ==> reqs[j].target.Ok? && Patchable(len, base, reqs[j].loc)
  }

  /** The patch a request asks for (the target is only consulted when the lookup succeeded). */
  function FixupOf(q: Request): Fixup
  {
    Fixup(q.loc, match q.target case Ok(t) => t case Err(_) => 0)
  }

  function Fixups(reqs: seq<Request>): (fixups: seq<Fixup>)
    ensures |fixups| == |reqs|
    ensures forall j :: 0 <= j < |reqs| ==> fixups[j] == FixupOf(reqs[j])
  {
    seq(|reqs|, j requires 0 <= j < |reqs| => FixupOf(reqs[j]))
  }

  /** A site patchable within the first `len` bytes is patchable within any longer buffer. */
  lemma ResolvablePatchable(len: nat, n: nat, base: nat, reqs: seq<Request>)
    requires Resolvable(len, base, reqs) && len <= n
    ensures AllPatchable(n, base, Fixups(reqs))
  {
  }

  /**
   * Resolution succeeds exactly when every request is resolvable, and then the
   * buffer is the one obtained by patching every request's site in order.
   */
  lemma {:induction false} ResolveFromSpec(buf: seq<u8>, base: nat, len: nat, reqs: seq<Request>)
    requires len <= |buf|
    ensures ResolveFrom(buf, base, len, reqs).Ok? <==> Resolvable(len, base, reqs)
    ensures Resolvable(len, base, reqs) ==>
      AllPatchable(|buf|, base, Fixups(reqs))
      && ResolveFrom(buf, base, len, reqs).value == PatchAll(buf, base, Fixups(reqs))
    decreases |reqs|
  {
    if reqs != [] {
      var q := reqs[0];
      if q.target.Ok? && Patchable(len, base, q.loc) {
        var next := Patch(buf, base, q.loc, q.target.value);
        ResolveFromSpec(next, base, len, reqs[1..]);
        ResolvableCons(len, base, reqs);
        if Resolvable(len, base, reqs) {
          ResolvablePatchable(len, |buf|, base, reqs);
          FixupsCons(reqs);
          PatchAllCons(buf, base, FixupOf(q), Fixups(reqs[1..]));
        }
      }
    }
  }

  /** A list whose head resolves is resolvable exactly when its tail is. */
  lemma ResolvableCons(len: nat, base: nat, reqs: seq<Request>)
    requires reqs != [] && reqs[0].target.Ok? && Patchable(len, base, reqs[0].loc)
    ensures Resolvable(len, base, reqs) <==> Resolvable(len, base, reqs[1..])
  {
    var rest := reqs[1..];
    forall j | 0 <= j < |rest|
      ensures rest[j] == reqs[j + 1]
    {
    }
  }

  lemma FixupsCons(reqs: seq<Request>)
    requires reqs != []
    ensures Fixups(reqs) == [FixupOf(reqs[0])] + Fixups(reqs[1..])
  {
  }

  /** Resolving one more request from the front: the step `encode_relocs` takes for each reference. */
  lemma ResolveFromStep(buf: seq<u8>, base: nat, len: nat, reqs: seq<Request>, i: nat)
    requires len <= |buf| && i < |reqs|
    ensures reqs[i].target.Err? ==> ResolveFrom(buf, base, len, reqs[i..]) == Err(reqs[i].target.cause)
    ensures reqs[i].target.Ok? ==>
      var step := PatchStep(buf, base, len, reqs[i].loc, reqs[i].target.value);
      ResolveFrom(buf, base, len, reqs[i..]) == if step.Err? then Err(step.cause) else ResolveFrom(step.value, base, len, reqs[i + 1..])
  {
    assert reqs[i..][0] == reqs[i];
    assert reqs[i..][1..] == reqs[i + 1..];
  }
}
