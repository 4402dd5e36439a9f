/** Contexts as chains of derivations, innermost first. */
module Contexts {
  import opened Options

  datatype Ctx =
    | NilContext
    | Background
    | Caller(callerDeadline: Option<int>)
    | WithDeadline(parent: Ctx, id: nat, deadline: int)
    | WithCancelKey(parent: Ctx, cancel: nat) // carries the cancel function of the context with that id
    | WithValue(parent: Ctx, key: nat)

  function NormalizeContext(c: Ctx): Ctx {
    if c.NilContext? then Background else c
  }

  function Earliest(a: Option<int>, b: int): Option<int> {
    if a.Some? && a.value <= b then a else Some(b)
  }

  /** A derived context never outlives its parent: the earlier deadline wins. */
  function Deadline(c: Ctx): Option<int> {
    match c
    case NilContext => None
    case Background => None
    case Caller(d) => d
    case WithDeadline(parent, _, d) => Earliest(Deadline(parent), d)
    case WithCancelKey(parent, _) => Deadline(parent)
    case WithValue(parent, _) => Deadline(parent)
  }

  /** ctx.Value(timeoutCancelKey{}): the binding nearest to the leaf. */
  function InnermostCancel(c: Ctx): Option<nat> {
    match c
    case NilContext => None
    case Background => None
    case Caller(_) => None
    case WithDeadline(parent, _, _) => InnermostCancel(parent)
    case WithCancelKey(_, id) => Some(id)
    case WithValue(parent, _) => InnermostCancel(parent)
  }

  predicate Descends(c: Ctx, root: Ctx) {
    c == root ||
    match c
    case WithDeadline(parent, _, _) => Descends(parent, root)
    case WithCancelKey(parent, _) => Descends(parent, root)
    case WithValue(parent, _) => Descends(parent, root)
    case _ => false
  }

  /** Ids of the cancellable contexts in a chain. */
  function Ids(c: Ctx): set<nat> {
    match c
    case WithDeadline(parent, id, _) => {id} + Ids(parent)
    case WithCancelKey(parent, _) => Ids(parent)
    case WithValue(parent, _) => Ids(parent)
    case _ => {}
  }

  // ---------------------------------------------------------------------------------------------
  // What the recursions find, on the chain as a list
  // ---------------------------------------------------------------------------------------------

  /** A context and those it derives from, itself first. */
  function Layers(c: Ctx): seq<Ctx> {
    match c
    case WithDeadline(parent, _, _) => [c] + Layers(parent)
    case WithCancelKey(parent, _) => [c] + Layers(parent)
    case WithValue(parent, _) => [c] + Layers(parent)
    case _ => [c]
  }

  function OwnDeadline(c: Ctx): Option<int> {
    match c
    case WithDeadline(_, _, d) => Some(d)
    case Caller(d) => d
    case _ => None
  }

  /** The deadline is the earliest of the chain: none before it, and one of them. */
  lemma {:induction false} DeadlineIsEarliest(c: Ctx) returns (k: nat)
    ensures forall l <- Layers(c) :: OwnDeadline(l).Some? ==>
              Deadline(c).Some? && Deadline(c).value <= OwnDeadline(l).value
    ensures Deadline(c).Some? ==> k < |Layers(c)| && OwnDeadline(Layers(c)[k]) == Deadline(c)
  {
    k := 0;
    match c
    case WithDeadline(parent, _, d) =>
      var above := DeadlineIsEarliest(parent);
      k := if Deadline(parent).Some? && Deadline(parent).value <= d then above + 1 else 0;
    case WithCancelKey(parent, _) =>
      k := DeadlineIsEarliest(parent);
      k := k + 1;
    case WithValue(parent, _) =>
      k := DeadlineIsEarliest(parent);
      k := k + 1;
    case _ =>
  }

  /** The cancel handle found is that of the first layer that carries one. */
  lemma {:induction false} CancelIsNearest(c: Ctx) returns (k: nat)
    ensures k <= |Layers(c)| && forall i :: 0 <= i < k ==> !Layers(c)[i].WithCancelKey?
    ensures InnermostCancel(c).Some? <==> k < |Layers(c)|
    ensures k < |Layers(c)| ==> Layers(c)[k].WithCancelKey? && InnermostCancel(c) == Some(Layers(c)[k].cancel)
  {
    match c
    case WithDeadline(parent, _, _) =>
      k := CancelIsNearest(parent);
      k := k + 1;
    case WithCancelKey(_, _) => k := 0;
    case WithValue(parent, _) =>
      k := CancelIsNearest(parent);
      k := k + 1;
    case _ => k := 1;
  }

  /** A context descends from another exactly when that is one of its layers; its ids are those of its layers. */
  lemma {:induction false} LayersHold(c: Ctx, root: Ctx, id: nat)
    ensures Descends(c, root) <==> root in Layers(c)
    ensures id in Ids(c) <==> exists l <- Layers(c) :: l.WithDeadline? && l.id == id
  {
    match c
    case WithDeadline(parent, _, _) => LayersHold(parent, root, id);
    case WithCancelKey(parent, _) => LayersHold(parent, root, id);
    case WithValue(parent, _) => LayersHold(parent, root, id);
    case _ =>
  }
}
