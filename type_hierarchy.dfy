/**
  The runtime type hierarchy that exception-type matching inspects.

  Reflection (`GetType()`, `GetTypeInfo().BaseType`, `Type.BaseType`) is replaced
  by a finite table: a type is the index of its entry, and each entry records the
  type's short name and its base type (absent at the root, `System.Object`).
  A base id never exceeds the type's own id, so every base chain is finite; the
  one cycle this admits, a type that is its own base, is the case the walk in
  the source guards against explicitly.
 */
module TypeHierarchy {

  import opened Wrappers

  type TypeId = nat

  datatype TypeInfo = TypeInfo(name: string, base: Option<TypeId>)

  /** The type table, together with the id of `System.Exception`. */
  datatype Hierarchy = Hierarchy(types: seq<TypeInfo>, exception: TypeId) {

    predicate Valid() {
      && exception < |types|
      && forall t | 0 <= t < |types| :: types[t].base.Some? ==> types[t].base.value <= t
    }

    predicate Has(t: TypeId) {
      t < |types|
    }
  }

  /** Every type in the list is a type of the table. */
  predicate AllIn(h: Hierarchy, ts: seq<TypeId>) {
    forall i | 0 <= i < |ts| :: ts[i] < |h.types|
  }

  /**
    True iff `target` is `source` or is reached from `source` by following base
    types, stopping at a type without a base or at a type that is its own base:
    the loop of `IsOfTypeOrInHerits`, written as a recursion.
   */
  function Inherits(h: Hierarchy, source: TypeId, target: TypeId): bool
    requires h.Valid() && h.Has(source)
    decreases source
  {
    if source == target then true
    else match h.types[source].base
      case None => false
      case Some(b) => if b == source then false else Inherits(h, b, target)
  }

  /** A type is an exception type when it is `System.Exception` or derives from it. */
  predicate IsException(h: Hierarchy, t: TypeId)
    requires h.Valid() && h.Has(t)
  {
    Inherits(h, t, h.exception)
  }

  /**
    The base-type chain of `source`: `source` itself, then its base, then that
    type's base, and so on up to a type that has no base or is its own base.
   */
  function BaseChain(h: Hierarchy, source: TypeId): (chain: seq<TypeId>)
    requires h.Valid() && h.Has(source)
    ensures |chain| > 0 && chain[0] == source
    ensures AllIn(h, chain)
    ensures forall i | 0 <= i < |chain| - 1 ::
              h.Has(chain[i]) && h.types[chain[i]].base == Some(chain[i + 1]) && chain[i + 1] < chain[i]
    ensures var last := chain[|chain| - 1];
            h.Has(last) && (h.types[last].base.None? || h.types[last].base == Some(last))
    decreases source
  {
    match h.types[source].base
    case None => [source]
    case Some(b) => if b == source then [source] else [source] + BaseChain(h, b)
  }

  /** The walk answers yes exactly for the types on the base chain. */
  lemma {:induction false} InheritsIffOnChain(h: Hierarchy, source: TypeId, target: TypeId)
    requires h.Valid() && h.Has(source)
    ensures Inherits(h, source, target) <==> target in BaseChain(h, source)
    decreases source
  {
    match h.types[source].base
    case None =>
    case Some(b) =>
      if b != source {
        InheritsIffOnChain(h, b, target);
      }
  }

  /** Every type matches itself. */
  lemma InheritsReflexive(h: Hierarchy, t: TypeId)
    requires h.Valid() && h.Has(t)
    ensures Inherits(h, t, t)
  {
  }

  /** A match only ever goes up the hierarchy: the target id is at most the source id. */
  lemma {:induction false} InheritsAscends(h: Hierarchy, source: TypeId, target: TypeId)
    requires h.Valid() && h.Has(source)
    requires Inherits(h, source, target)
    ensures target <= source && h.Has(target)
    decreases source
  {
    if source != target {
      InheritsAscends(h, h.types[source].base.value, target);
    }
  }

  /** Matching is transitive: a type matches every ancestor of each of its ancestors. */
  lemma {:induction false} InheritsTransitive(h: Hierarchy, a: TypeId, b: TypeId, c: TypeId)
    requires h.Valid() && h.Has(a) && h.Has(b)
    requires Inherits(h, a, b) && Inherits(h, b, c)
    ensures Inherits(h, a, c)
    decreases a
  {
    if a != b {
      var p := h.types[a].base.value;
      InheritsTransitive(h, p, b, c);
    }
  }

  /** Two distinct types never match each other in both directions. */
  lemma InheritsAntisymmetric(h: Hierarchy, a: TypeId, b: TypeId)
    requires h.Valid() && h.Has(a) && h.Has(b)
    requires Inherits(h, a, b) && Inherits(h, b, a)
    ensures a == b
  {
    InheritsAscends(h, a, b);
    InheritsAscends(h, b, a);
  }
}
