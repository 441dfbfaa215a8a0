/**
 * The part of gnc_commodity that the scrubber relies on.  A commodity is a
 * value; a missing commodity (a NULL pointer) is `None`.  Two commodity
 * objects with the same fields are not told apart, so pointer equality and
 * gnc_commodity_equal are both the datatype's equality.
 */
module Commodities {

  datatype Option<T> = None | Some(value: T)

  datatype Commodity = Commodity(namespace: string, mnemonic: string, fullname: string, fraction: nat)

  /** gnc_commodity_is_currency: ISO currencies and the legacy currency namespace */
  predicate IsCurrency(c: Commodity)
  {
    c.namespace == "CURRENCY" || c.namespace == "ISO4217"
  }

  /** gnc_commodity_equiv: the same object, or both present with the same namespace and mnemonic */
  predicate Equiv(a: Option<Commodity>, b: Option<Commodity>)
  {
    a == b || (a.Some? && b.Some? && a.value.namespace == b.value.namespace && a.value.mnemonic == b.value.mnemonic)
  }

  /** gnc_commodity_equal (and pointer equality) */
  predicate Equal(a: Option<Commodity>, b: Option<Commodity>)
  {
    a == b
  }

  /** gnc_commodity_get_fraction: 0 for a missing commodity */
  function Fraction(c: Option<Commodity>): nat
  {
    if c.Some? then c.value.fraction else 0
  }

  /** gnc_commodity_get_mnemonic: a missing commodity contributes nothing to a name */
  function Mnemonic(c: Option<Commodity>): string
  {
    if c.Some? then c.value.mnemonic else ""
  }

  /** gnc_commodity_get_namespace */
  function Namespace(c: Option<Commodity>): string
  {
    if c.Some? then c.value.namespace else ""
  }

  /** Equivalence is an equivalence relation, and equality implies it. */
  lemma EquivIsEquivalence(a: Option<Commodity>, b: Option<Commodity>, c: Option<Commodity>)
    ensures Equiv(a, a)
    ensures Equiv(a, b) ==> Equiv(b, a)
    ensures Equiv(a, b) && Equiv(b, c) ==> Equiv(a, c)
    ensures Equal(a, b) ==> Equiv(a, b)
  {
  }
}
