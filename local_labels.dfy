/**
 * Local labels: the per-name queue of forward relocations and the
 * most-recent-definition map, and which definition each reference binds to.
 *
 * The assembler keeps `local_labels: name -> most recent definition` and
 * `local_relocs: name -> forward sites waiting for the next definition`.
 * Defining a name patches and drops its whole queue, so a forward reference
 * binds to the first definition of its name that comes after it, and a
 * backward reference to the last definition before it. This module states
 * that over a history of local-label events, independently of the offsets.
 */
module LocalLabels {
  import opened Patching

  /** `local_relocs`: the forward sites queued per name. */
  type Queues = map<string, seq<PatchLoc>>

  /** The sites queued for `name` (none when the name has no entry). */
  function Queued(q: Queues, name: string): seq<PatchLoc>
  {
    if name in q then q[name] else []
  }

  /** `forward_reloc`: push onto an occupied entry, or insert a one-element queue into a vacant one. */
  function Enqueue(q: Queues, name: string, loc: PatchLoc): (r: Queues)
    ensures Queued(r, name) == Queued(q, name) + [loc]
    ensures forall other :: other != name ==> Queued(r, other) == Queued(q, other)
    ensures r.Keys == q.Keys + {name}
  {
    if name in q then q[name := q[name] + [loc]] else q[name := [loc]]
  }

  /** `local_relocs.remove(&name)` when `name` is defined. */
  function Release(q: Queues, name: string): (r: Queues)
    ensures Queued(r, name) == []
    ensures forall other :: other != name ==> Queued(r, other) == Queued(q, other)
    ensures r.Keys == q.Keys - {name}
  {
    q - {name}
  }

  /** One local-label directive, with the offset it was issued at. */
  datatype LocalEvent =
    | Define(name: string, at: nat)        // local_label(name) at offset `at`
    | Forward(name: string, loc: PatchLoc) // forward_reloc(name, size) recording site `loc`

  predicate Defines(e: LocalEvent, name: string)
  {
    e.Define? && e.name == name
  }

  /** The forward queues after a history of directives, starting from none. */
  function QueuesAfter(events: seq<LocalEvent>): Queues
  {
    if events == [] then map[]
    else
      var q := QueuesAfter(events[..|events| - 1]);
      match events[|events| - 1]
      case Define(n, _) => Release(q, n)
      case Forward(n, loc) => Enqueue(q, n, loc)
  }

  /** `local_labels` after a history of directives: each definition overwrites the previous one. */
  function DefinitionsAfter(events: seq<LocalEvent>): map<string, nat>
  {
    if events == [] then map[]
    else
      var d := DefinitionsAfter(events[..|events| - 1]);
      match events[|events| - 1]
      case Define(n, at) => d[n := at]
      case Forward(_, _) => d
  }

  /** Some event strictly between positions lo and hi defines `name`. */
  predicate DefinedBetween(events: seq<LocalEvent>, name: string, lo: int, hi: int)
  {
    exists k :: lo < k < hi && 0 <= k < |events| && Defines(events[k], name)
  }

  /** Event i is a forward reference to `name` that no later definition of `name` has answered. */
  predicate Unbound(events: seq<LocalEvent>, name: string, i: int)
  {
    0 <= i < |events| && events[i].Forward? && events[i].name == name
    && !DefinedBetween(events, name, i, |events|)
  }

  lemma DefinedBetweenSnoc(events: seq<LocalEvent>, name: string, i: int)
    requires events != [] && 0 <= i < |events| - 1
    ensures DefinedBetween(events, name, i, |events|)
      <==> DefinedBetween(events[..|events| - 1], name, i, |events| - 1) || Defines(events[|events| - 1], name)
  {
    var n := |events| - 1;
    if DefinedBetween(events, name, i, |events|) {
      var k :| i < k < |events| && Defines(events[k], name);
      if k < n {
        assert events[..n][k] == events[k];
      }
    }
    if DefinedBetween(events[..n], name, i, n) {
      var k :| i < k < n && Defines(events[..n][k], name);
      assert events[k] == events[..n][k];
    }
  }

  lemma UnboundSnoc(events: seq<LocalEvent>, name: string)
    requires events != []
    ensures forall i :: 0 <= i < |events| - 1 ==>
      (Unbound(events, name, i) <==> Unbound(events[..|events| - 1], name, i) && !Defines(events[|events| - 1], name))
  {
    forall i | 0 <= i < |events| - 1
      ensures Unbound(events, name, i) <==> Unbound(events[..|events| - 1], name, i) && !Defines(events[|events| - 1], name)
    {
      DefinedBetweenSnoc(events, name, i);
    }
  }

  /** The positions of the unanswered forward references to `name`, in order. */
  function UnboundForwards(events: seq<LocalEvent>, name: string): (ids: seq<nat>)
    ensures forall p :: 0 <= p < |ids| ==> Unbound(events, name, ids[p])
    ensures forall p, p' :: 0 <= p < p' < |ids| ==> ids[p] < ids[p']
    ensures forall i: nat :: i < |events| && Unbound(events, name, i) ==> i in ids
  {
    if events == [] then []
    else
      var n := |events| - 1;
      var prev := UnboundForwards(events[..n], name);
      UnboundSnoc(events, name);
      if Defines(events[n], name) then []
      else if events[n].Forward? && events[n].name == name then prev + [n]
      else prev
  }

  /** The sites at the given positions of a history. */
  function SitesAt(events: seq<LocalEvent>, ids: seq<nat>): seq<PatchLoc>
    requires forall p :: 0 <= p < |ids| ==> ids[p] < |events| && events[ids[p]].Forward?
  {
    seq(|ids|, p requires 0 <= p < |ids| => events[ids[p]].loc)
  }

  /** The queue of `name` holds exactly the unanswered forward references to `name`, in issue order. */
  lemma {:induction false} QueueHoldsUnboundForwards(events: seq<LocalEvent>, name: string)
    ensures Queued(QueuesAfter(events), name) == SitesAt(events, UnboundForwards(events, name))
  {
    if events != [] {
      var n := |events| - 1;
      var init := events[..n];
      QueueHoldsUnboundForwards(init, name);
      var prev := UnboundForwards(init, name);
      var ids := UnboundForwards(events, name);
      assert SitesAt(init, prev) == SitesAt(events, prev) by {
        forall p | 0 <= p < |prev| ensures init[prev[p]] == events[prev[p]] { }
      }
      if Defines(events[n], name) {
        assert ids == [];
      } else if events[n].Forward? && events[n].name == name {
        assert ids == prev + [n];
        assert SitesAt(events, prev + [n]) == SitesAt(events, prev) + [events[n].loc];
      } else {
        assert ids == prev;
      }
    }
  }

  /**
   * A forward reference binds to the first later definition of its name: when
   * that definition happens the reference is in the queue that gets patched,
   * and at no other definition of the name is it there.
   */
  lemma ForwardBindsToNextDefinition(events: seq<LocalEvent>, i: nat, j: nat)
    requires i < j < |events|
    requires events[i].Forward? && Defines(events[j], events[i].name)
    requires !DefinedBetween(events, events[i].name, i, j)
    ensures i in UnboundForwards(events[..j], events[i].name)
    ensures events[i].loc in Queued(QueuesAfter(events[..j]), events[i].name)
    ensures forall k :: (0 <= k < |events| && k != j && Defines(events[k], events[i].name)
      ==> i !in UnboundForwards(events[..k], events[i].name))
  {
    var name := events[i].name;
    var init := events[..j];
    assert Unbound(init, name, i);
    var ids := UnboundForwards(init, name);
    var p :| 0 <= p < |ids| && ids[p] == i;
    QueueHoldsUnboundForwards(init, name);
    assert Queued(QueuesAfter(init), name)[p] == events[i].loc;
    forall k | 0 <= k < |events| && k != j && Defines(events[k], name)
      ensures i !in UnboundForwards(events[..k], name)
    {
      var before := events[..k];
      if k > j {
        assert before[j] == events[j];
        assert DefinedBetween(before, name, i, k);
      }
    }
  }

  /** `local_labels[name]` is the offset of the most recent definition of `name`. */
  lemma {:induction false} DefinitionIsLatest(events: seq<LocalEvent>, name: string)
    ensures name in DefinitionsAfter(events) <==> DefinedBetween(events, name, -1, |events|)
    ensures name in DefinitionsAfter(events) ==>
      exists k :: 0 <= k < |events| && events[k] == Define(name, DefinitionsAfter(events)[name])
        && !DefinedBetween(events, name, k, |events|)
  {
    if events != [] {
      var n := |events| - 1;
      var init := events[..n];
      DefinitionIsLatest(init, name);
      if Defines(events[n], name) {
        assert events[n] == Define(name, DefinitionsAfter(events)[name]);
        assert !DefinedBetween(events, name, n, |events|);
      } else {
        if DefinedBetween(events, name, -1, |events|) {
          var k :| -1 < k < |events| && Defines(events[k], name);
          assert init[k] == events[k];
        }
        if DefinedBetween(init, name, -1, n) {
          var k :| -1 < k < n && Defines(init[k], name);
          assert init[k] == events[k];
        }
        if name in DefinitionsAfter(events) {
          var k :| 0 <= k < n && init[k] == Define(name, DefinitionsAfter(init)[name])
            && !DefinedBetween(init, name, k, n);
          assert events[k] == init[k];
          DefinedBetweenSnoc(events, name, k);
        }
      }
    }
  }
}
