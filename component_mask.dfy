/**
 * Identifiers and the per-entity component mask (ecs/ntshengn_ecs.h:23-30).
 *
 * A `std::bitset<MAX_COMPONENTS>` is modelled as the set of its set bit
 * positions; `to_ulong` reads that set as the unsigned number whose binary
 * digits are the bits, which is what the interest tracker compares.
 */
module ComponentMasks {

  const MAX_ENTITIES: nat := 4096
  const MAX_COMPONENTS: nat := 32

  /** An entity handle (uint32_t); valid handles are below MAX_ENTITIES. */
  type Entity = nat

  /** A component type id, which is also its bit position in a mask. */
  type Component = c: nat | c < MAX_COMPONENTS

  /** A std::bitset<MAX_COMPONENTS>: the positions of its set bits. */
  type ComponentMask = set<Component>

  /**
   * The key a type is registered under. The registries key types by the
   * string typeid(T).name(), which tells distinct types apart; only that
   * identity matters, so a key is a number standing for one type.
   */
  type TypeKey = nat

  function Pow2(i: nat): (r: nat)
    ensures r >= 1
  {
    if i == 0 then 1 else 2 * Pow2(i - 1)
  }

  /** The unsigned value of the bits of `m` below position `n`. */
  function ValueBelow(m: ComponentMask, n: nat): nat
  {
    if n == 0 then 0
    else ValueBelow(m, n - 1) + (if n - 1 in m then Pow2(n - 1) else 0)
  }

  /** bitset::to_ulong: a mask of MAX_COMPONENTS bits fits in that many binary digits. */
  function ToUlong(m: ComponentMask): (r: nat)
    ensures r < Pow2(MAX_COMPONENTS)
  {
    ValueBelowBound(m, MAX_COMPONENTS);
    ValueBelow(m, MAX_COMPONENTS)
  }

  /** Setting one bit that was clear adds exactly 2^c to the value below any n past c. */
  lemma {:induction false} ValueBelowWithBit(m: ComponentMask, c: Component, n: nat)
    requires c !in m && c < n
    ensures ValueBelow(m + {c}, n) == ValueBelow(m, n) + Pow2(c)
  {
    if n - 1 == c {
      ValueBelowUnaffected(m, c, c);
    } else {
      ValueBelowWithBit(m, c, n - 1);
    }
  }

  /** Bits at or above n do not contribute to the value below n. */
  lemma {:induction false} ValueBelowUnaffected(m: ComponentMask, c: Component, n: nat)
    requires n <= c
    ensures ValueBelow(m + {c}, n) == ValueBelow(m, n)
  {
    if n > 0 {
      ValueBelowUnaffected(m, c, n - 1);
    }
  }

  /** The bits below n are worth less than 2^n. */
  lemma {:induction false} ValueBelowBound(m: ComponentMask, n: nat)
    ensures ValueBelow(m, n) < Pow2(n)
  {
    if n > 0 {
      ValueBelowBound(m, n - 1);
    }
  }

  /** Masks with the same value below n agree on every bit below n. */
  lemma {:induction false} ValueBelowInjective(m1: ComponentMask, m2: ComponentMask, n: nat)
    requires ValueBelow(m1, n) == ValueBelow(m2, n)
    ensures forall c: Component :: c < n ==> (c in m1 <==> c in m2)
  {
    if n > 0 {
      ValueBelowBound(m1, n - 1);
      ValueBelowBound(m2, n - 1);
      assert (n - 1 in m1) == (n - 1 in m2);
      ValueBelowInjective(m1, m2, n - 1);
    }
  }

  /** to_ulong tells masks apart: masks with the same value are the same mask. */
  lemma ToUlongInjective(m1: ComponentMask, m2: ComponentMask)
    ensures ToUlong(m1) == ToUlong(m2) ==> m1 == m2
  {
    if ToUlong(m1) == ToUlong(m2) {
      ValueBelowInjective(m1, m2, MAX_COMPONENTS);
      assert forall c: Component :: c in m1 <==> c in m2;
    }
  }

  /** to_ulong grows by exactly 2^c when bit c is set. */
  lemma ToUlongWithBit(m: ComponentMask, c: Component)
    requires c !in m
    ensures ToUlong(m + {c}) == ToUlong(m) + Pow2(c)
  {
    ValueBelowWithBit(m, c, MAX_COMPONENTS);
  }
}
