/**
 * Relocation sites and the patch arithmetic of `patch_loc`.
 *
 * A buffer is a byte sequence whose first byte sits at absolute offset `base`
 * (`asmoffset` for the assembling buffer `ops`, 0 for the committed buffer).
 * A relocation site `PatchLoc(end, size)` names the `size` bytes that END at
 * absolute offset `end`: the site is recorded after the field was emitted.
 */
module Patching {
  import opened LittleEndian

  /** `PatchLoc(usize, u8)`: offset just past the field, and the field's width in bytes. */
  datatype PatchLoc = PatchLoc(end: nat, size: u8)

  /** A relocation site together with the offset of the label it resolves to. */
  datatype Fixup = Fixup(loc: PatchLoc, target: nat)

  /** The widths `patch_loc` accepts; any other one panics with "invalid patch size". */
  predicate ValidSize(size: u8)
  {
    size == 1 || size == 2 || size == 4 || size == 8
  }

  /** Index (within the buffer) of the first byte of the field. */
  function FieldStart(base: nat, loc: PatchLoc): int
  {
    loc.end - base - loc.size as int
  }

  /** Index (within the buffer) just past the field. */
  function FieldEnd(base: nat, loc: PatchLoc): int
  {
    loc.end - base
  }

  /**
   * The slice `buf[loc.0 - base - size .. loc.0 - base]` exists: neither subtraction
   * underflows and the end lies within the `len` bytes that may be indexed.
   */
  predicate InBounds(len: nat, base: nat, loc: PatchLoc)
  {
    0 <= FieldStart(base, loc) && FieldEnd(base, loc) <= len
  }

  /** `patch_loc` completes on this site. */
  predicate Patchable(len: nat, base: nat, loc: PatchLoc)
  {
    InBounds(len, base, loc) && ValidSize(loc.size)
  }

  /** The value stored: the target measured from the END of the field (`target - loc.0`). */
  function Displacement(loc: PatchLoc, target: nat): int
  {
    target - loc.end
  }

  /** Buffer index k lies inside the field of `loc`. */
  predicate InField(base: nat, loc: PatchLoc, k: int)
  {
    FieldStart(base, loc) <= k < FieldEnd(base, loc)
  }

  /** The bytes after `patch_loc(loc, target)`: only the field changes, and it holds the displacement. */
  function Patch(buf: seq<u8>, base: nat, loc: PatchLoc, target: nat): (r: seq<u8>)
    requires Patchable(|buf|, base, loc)
    ensures |r| == |buf|
    ensures r[FieldStart(base, loc)..FieldEnd(base, loc)] == EncodeSigned(Displacement(loc, target), loc.size as nat)
    ensures forall k :: 0 <= k < |buf| && !InField(base, loc, k) ==> r[k] == buf[k]
  {
    var lo, hi := FieldStart(base, loc), FieldEnd(base, loc);
    buf[..lo] + EncodeSigned(Displacement(loc, target), loc.size as nat) + buf[hi..]
  }

  /**
   * Reading the patched field back as a signed little-endian number gives the
   * displacement modulo 256^size, and the displacement itself whenever it fits:
   * a relative jump through the field lands on the label.
   */
  lemma PatchedFieldDecodes(buf: seq<u8>, base: nat, loc: PatchLoc, target: nat)
    requires Patchable(|buf|, base, loc)
    ensures var field := Patch(buf, base, loc, target)[FieldStart(base, loc)..FieldEnd(base, loc)];
      && FitsSigned(DecodeSigned(field), loc.size as nat)
      && DecodeSigned(field) % Pow256(loc.size as nat) == Displacement(loc, target) % Pow256(loc.size as nat)
      && (FitsSigned(Displacement(loc, target), loc.size as nat) ==> DecodeSigned(field) == Displacement(loc, target))
  {
    var d := Displacement(loc, target);
    TruncatedRoundTrip(d, loc.size as nat);
    if FitsSigned(d, loc.size as nat) {
      SignedRoundTrip(d, loc.size as nat);
    }
  }

  predicate AllPatchable(len: nat, base: nat, fixups: seq<Fixup>)
  {
    forall i :: 0 <= i < |fixups| ==> Patchable(len, base, fixups[i].loc)
  }

  /** Buffer index k lies in the field of one of the fixups. */
  predicate Touched(base: nat, fixups: seq<Fixup>, k: int)
  {
    exists i :: 0 <= i < |fixups| && InField(base, fixups[i].loc, k)
  }

  /** The bytes after patching each fixup in turn, as the resolution loops do. */
  function PatchAll(buf: seq<u8>, base: nat, fixups: seq<Fixup>): (r: seq<u8>)
    requires AllPatchable(|buf|, base, fixups)
    ensures |r| == |buf|
  {
    if fixups == [] then buf
    else
      var n := |fixups| - 1;
      Patch(PatchAll(buf, base, fixups[..n]), base, fixups[n].loc, fixups[n].target)
  }

  /** Patching a list of fixups leaves every byte outside their fields as it was. */
  lemma {:induction false} PatchAllFrame(buf: seq<u8>, base: nat, fixups: seq<Fixup>)
    requires AllPatchable(|buf|, base, fixups)
    ensures forall k :: 0 <= k < |buf| && !Touched(base, fixups, k) ==> PatchAll(buf, base, fixups)[k] == buf[k]
  {
    if fixups != [] {
      var n := |fixups| - 1;
      PatchAllFrame(buf, base, fixups[..n]);
      assert forall k :: Touched(base, fixups[..n], k) ==> Touched(base, fixups, k);
    }
  }

  /** Patching one more fixup after a list of them. */
  lemma PatchAllSnoc(buf: seq<u8>, base: nat, fixups: seq<Fixup>, f: Fixup)
    requires AllPatchable(|buf|, base, fixups) && Patchable(|buf|, base, f.loc)
    ensures AllPatchable(|buf|, base, fixups + [f])
    ensures PatchAll(buf, base, fixups + [f]) == Patch(PatchAll(buf, base, fixups), base, f.loc, f.target)
  {
    assert (fixups + [f])[..|fixups|] == fixups;
  }

  /** The fields of two sites do not overlap. */
  predicate Disjoint(a: PatchLoc, b: PatchLoc)
  {
    a.end <= b.end - b.size as int || b.end <= a.end - a.size as int
  }

  /** Patching a site leaves the field of a site disjoint from it as it was. */
  lemma PatchKeepsField(buf: seq<u8>, base: nat, f: Fixup, loc: PatchLoc)
    requires Patchable(|buf|, base, f.loc) && InBounds(|buf|, base, loc) && Disjoint(loc, f.loc)
    ensures Patch(buf, base, f.loc, f.target)[FieldStart(base, loc)..FieldEnd(base, loc)]
      == buf[FieldStart(base, loc)..FieldEnd(base, loc)]
  {
    var lo, hi := FieldStart(base, loc), FieldEnd(base, loc);
    var r := Patch(buf, base, f.loc, f.target);
    forall k | lo <= k < hi
      ensures r[k] == buf[k]
    {
      assert !InField(base, f.loc, k);
    }
  }

  /** Patching a list of sites all disjoint from `loc` leaves the field of `loc` as it was. */
  lemma {:induction false} PatchAllKeepsField(buf: seq<u8>, base: nat, fixups: seq<Fixup>, loc: PatchLoc)
    requires AllPatchable(|buf|, base, fixups) && InBounds(|buf|, base, loc)
    requires forall j :: 0 <= j < |fixups| ==> Disjoint(loc, fixups[j].loc)
    ensures PatchAll(buf, base, fixups)[FieldStart(base, loc)..FieldEnd(base, loc)]
      == buf[FieldStart(base, loc)..FieldEnd(base, loc)]
  {
    if fixups != [] {
      var n := |fixups| - 1;
      var init := fixups[..n];
      assert forall j :: 0 <= j < n ==> init[j] == fixups[j];
      PatchAllKeepsField(buf, base, init, loc);
      PatchKeepsField(PatchAll(buf, base, init), base, fixups[n], loc);
    }
  }

  /**
   * After patching a list of fixups, the field of fixup i holds its own
   * displacement unless a LATER fixup overlaps it (later writes win).
   */
  lemma PatchAllWrites(buf: seq<u8>, base: nat, fixups: seq<Fixup>, i: nat)
    requires AllPatchable(|buf|, base, fixups)
    requires i < |fixups|
    requires forall j :: i < j < |fixups| ==> Disjoint(fixups[i].loc, fixups[j].loc)
    ensures var f := fixups[i];
      PatchAll(buf, base, fixups)[FieldStart(base, f.loc)..FieldEnd(base, f.loc)]
        == EncodeSigned(Displacement(f.loc, f.target), f.loc.size as nat)
  {
    var upto, rest := fixups[..i + 1], fixups[i + 1..];
    DisjointFromSuffix(fixups, i, rest);
    PatchAllSplit(buf, base, fixups, i + 1);
    LastPatchWrites(buf, base, upto);
    PatchAllKeepsField(PatchAll(buf, base, upto), base, rest, fixups[i].loc);
  }

  /** Patching a list is patching a prefix of it and then the rest. */
  lemma PatchAllSplit(buf: seq<u8>, base: nat, fixups: seq<Fixup>, n: nat)
    requires AllPatchable(|buf|, base, fixups) && n <= |fixups|
    ensures AllPatchable(|buf|, base, fixups[..n]) && AllPatchable(|buf|, base, fixups[n..])
    ensures PatchAll(PatchAll(buf, base, fixups[..n]), base, fixups[n..]) == PatchAll(buf, base, fixups)
  {
    assert fixups == fixups[..n] + fixups[n..];
    PatchAllAppend(buf, base, fixups[..n], fixups[n..]);
  }

  /** The last fixup of a list holds its displacement once the list is patched. */
  lemma LastPatchWrites(buf: seq<u8>, base: nat, fixups: seq<Fixup>)
    requires AllPatchable(|buf|, base, fixups) && fixups != []
    ensures var f := fixups[|fixups| - 1];
      PatchAll(buf, base, fixups)[FieldStart(base, f.loc)..FieldEnd(base, f.loc)]
        == EncodeSigned(Displacement(f.loc, f.target), f.loc.size as nat)
  {
  }

  /** The fixups after i, as a list of their own, are all disjoint from fixup i. */
  lemma DisjointFromSuffix(fixups: seq<Fixup>, i: nat, rest: seq<Fixup>)
    requires i < |fixups| && rest == fixups[i + 1..]
    requires forall j :: i < j < |fixups| ==> Disjoint(fixups[i].loc, fixups[j].loc)
    ensures forall j :: 0 <= j < |rest| ==> Disjoint(fixups[i].loc, rest[j].loc)
  {
    forall j | 0 <= j < |rest|
      ensures Disjoint(fixups[i].loc, rest[j].loc)
    {
      assert rest[j] == fixups[i + 1 + j];
    }
  }

  /** Patching two lists one after the other is patching their concatenation. */
  lemma {:induction false} PatchAllAppend(buf: seq<u8>, base: nat, a: seq<Fixup>, b: seq<Fixup>)
    requires AllPatchable(|buf|, base, a + b)
    ensures AllPatchable(|buf|, base, a) && AllPatchable(|buf|, base, b)
    ensures PatchAll(PatchAll(buf, base, a), base, b) == PatchAll(buf, base, a + b)
  {
    assert forall i :: 0 <= i < |a| ==> (a + b)[i] == a[i];
    assert forall i :: 0 <= i < |b| ==> (a + b)[|a| + i] == b[i];
    if b == [] {
      assert a + b == a;
    } else {
      var n := |b| - 1;
      assert (a + b)[..|a + b| - 1] == a + b[..n];
      PatchAllAppend(buf, base, a, b[..n]);
    }
  }

  /** Patching a list with one more fixup in front is patching that fixup first. */
  lemma PatchAllCons(buf: seq<u8>, base: nat, f: Fixup, rest: seq<Fixup>)
    requires AllPatchable(|buf|, base, [f] + rest)
    ensures Patchable(|buf|, base, f.loc) && AllPatchable(|buf|, base, rest)
    ensures PatchAll(Patch(buf, base, f.loc, f.target), base, rest) == PatchAll(buf, base, [f] + rest)
  {
    assert ([f] + rest)[0] == f;
    PatchAllAppend(buf, base, [f], rest);
    assert [f][..0] == [];
  }

  /**
   * A resolved reference lands on its label: when no later fixup overwrites its
   * field and the displacement fits the field, the field's end plus the value
   * read back from the field is the target.
   */
  lemma PatchedReferenceResolves(buf: seq<u8>, base: nat, fixups: seq<Fixup>, i: nat)
    requires AllPatchable(|buf|, base, fixups) && i < |fixups|
    requires forall j :: i < j < |fixups| ==> Disjoint(fixups[i].loc, fixups[j].loc)
    requires FitsSigned(Displacement(fixups[i].loc, fixups[i].target), fixups[i].loc.size as nat)
    ensures var loc := fixups[i].loc;
      loc.end + DecodeSigned(PatchAll(buf, base, fixups)[FieldStart(base, loc)..FieldEnd(base, loc)]) == fixups[i].target
  {
    var f := fixups[i];
    PatchAllWrites(buf, base, fixups, i);
    SignedRoundTrip(Displacement(f.loc, f.target), f.loc.size as nat);
  }

  /** Every site bound to the same target. */
  function Bind(locs: seq<PatchLoc>, target: nat): (fixups: seq<Fixup>)
    ensures |fixups| == |locs|
    ensures forall i :: 0 <= i < |locs| ==> fixups[i] == Fixup(locs[i], target)
  {
    seq(|locs|, i requires 0 <= i < |locs| => Fixup(locs[i], target))
  }
}
