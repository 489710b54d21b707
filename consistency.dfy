/**
 * What the ECS facade keeps true between its calls (ecs/ntshengn_ecs.h:311-411),
 * stated on the values the three managers hold, and how each facade
 * operation keeps it.
 *
 *  - a free id carries the empty mask;
 *  - only registered component ids appear in masks;
 *  - bit t of an entity's mask is set iff the store of the type with id t holds it;
 *  - every system's members are the entities whose mask overlaps its interest.
 */
module Consistency {
  import opened ComponentMasks
  import opened Interest
  import opened Systems
  import opened ComponentRegistry
  import Entities

  /** A free id carries the empty mask (destroyEntity resets it, lines 61-63). */
  ghost predicate FreeSlotsEmpty(live: set<Entity>, masks: seq<ComponentMask>)
  {
    |masks| == MAX_ENTITIES &&
    forall e :: 0 <= e < MAX_ENTITIES && e !in live ==> masks[e] == {}
  }

  /** Only ids handed out by registerComponent appear in masks. */
  ghost predicate BitsRegistered(masks: seq<ComponentMask>, nextComponent: nat)
  {
    forall e, c :: 0 <= e < |masks| && c in masks[e] ==> c < nextComponent
  }

  /** Bit types[k] of mask(e) is set iff store k holds e. */
  ghost predicate MasksAgreeWithStores<P>(masks: seq<ComponentMask>, types: map<TypeKey, Component>,
                                         stores: map<TypeKey, map<Entity, P>>)
  {
    forall k, e {:trigger e in stores[k]} {:trigger types[k] in masks[e]} :: k in types && k in stores ==>
      (e in stores[k] <==> 0 <= e < |masks| && types[k] in masks[e])
  }

  /** Every system's members are the entities whose mask overlaps its interest. */
  ghost predicate MembershipTracked(masks: seq<ComponentMask>, systems: map<TypeKey, SystemState>,
                                    interests: map<TypeKey, ComponentMask>)
  {
    forall s :: s in systems ==> systems[s].entities == Members(masks, InterestOf(interests, s))
  }

  ghost predicate Consistent<P>(live: set<Entity>, masks: seq<ComponentMask>, types: map<TypeKey, Component>,
                                nextComponent: nat, stores: map<TypeKey, map<Entity, P>>,
                                systems: map<TypeKey, SystemState>, interests: map<TypeKey, ComponentMask>)
  {
    FreeSlotsEmpty(live, masks) && BitsRegistered(masks, nextComponent) &&
    MasksAgreeWithStores(masks, types, stores) && MembershipTracked(masks, systems, interests)
  }

  /**
   * Every system reacted to a change of e's mask as OnMaskChanged says, and
   * kept its interest; reading the interest through operator[] stored the
   * empty mask for every system that had none, so afterwards exactly the
   * registered systems have a mask.
   */
  ghost predicate AllNotifiedOfChange(systems: map<TypeKey, SystemState>, interests: map<TypeKey, ComponentMask>,
                                      systems': map<TypeKey, SystemState>, interests': map<TypeKey, ComponentMask>,
                                      e: Entity, oldMask: ComponentMask, newMask: ComponentMask, c: Component)
  {
    (forall s :: s in systems' <==> s in systems) &&
    (forall s :: s in interests' ==> s in systems) &&
    forall s :: s in systems ==>
      systems'[s] == OnMaskChanged(systems[s], InterestOf(interests, s), e, oldMask, newMask, c) &&
      s in interests' && interests'[s] == InterestOf(interests, s)
  }

  /**
   * Every system reacted to the destruction of e as OnDestroyed says, and
   * kept its interest, which is now stored for every registered system.
   */
  ghost predicate AllNotifiedOfDestroy(systems: map<TypeKey, SystemState>, interests: map<TypeKey, ComponentMask>,
                                       systems': map<TypeKey, SystemState>, interests': map<TypeKey, ComponentMask>,
                                       e: Entity, entityMask: ComponentMask)
  {
    (forall s :: s in systems' <==> s in systems) &&
    (forall s :: s in interests' ==> s in systems) &&
    forall s :: s in systems ==>
      systems'[s] == OnDestroyed(systems[s], InterestOf(interests, s), e, entityMask) &&
      s in interests' && interests'[s] == InterestOf(interests, s)
  }

  /** A store agreeing with the masks holds only ids below MAX_ENTITIES, so it has room for one more. */
  lemma StoreHasRoom<P>(masks: seq<ComponentMask>, types: map<TypeKey, Component>,
                        stores: map<TypeKey, map<Entity, P>>, key: TypeKey, e: Entity)
    requires |masks| == MAX_ENTITIES && MasksAgreeWithStores(masks, types, stores)
    requires key in types && key in stores && e < MAX_ENTITIES && e !in stores[key]
    ensures |stores[key]| < MAX_ENTITIES
  {
    var holders := stores[key].Keys + {e};
    forall x | x in holders ensures x < MAX_ENTITIES {
      if x != e {
        assert x in stores[key];
      }
    }
    Entities.BoundedSetSize(holders, MAX_ENTITIES);
    assert |holders| == |stores[key].Keys| + 1;
  }

  /** createEntity hands out a free id, whose mask is empty, so nothing else changes. */
  lemma CreateKeeps<P>(live: set<Entity>, masks: seq<ComponentMask>, types: map<TypeKey, Component>,
                       nextComponent: nat, stores: map<TypeKey, map<Entity, P>>,
                       systems: map<TypeKey, SystemState>, interests: map<TypeKey, ComponentMask>, e: Entity)
    requires Consistent(live, masks, types, nextComponent, stores, systems, interests)
    requires e < MAX_ENTITIES && e !in live
    ensures masks[e] == {}
    ensures Consistent(live + {e}, masks, types, nextComponent, stores, systems, interests)
    ensures forall k :: k in types && k in stores ==> e !in stores[k]
  {
  }

  /**
   * addComponent: the store gains e, bit c is set in e's mask and every
   * system is notified; the invariant holds again.
   */
  lemma {:induction false} AddKeeps<P>(live: set<Entity>, masks: seq<ComponentMask>, types: map<TypeKey, Component>,
                    nextComponent: nat, stores: map<TypeKey, map<Entity, P>>,
                    systems: map<TypeKey, SystemState>, interests: map<TypeKey, ComponentMask>,
                    systems': map<TypeKey, SystemState>, interests': map<TypeKey, ComponentMask>,
                    key: TypeKey, e: Entity, component: P)
    requires Consistent(live, masks, types, nextComponent, stores, systems, interests) && IdsInjective(types)
    requires key in types && key in stores && types[key] < nextComponent
    requires e in live && e < MAX_ENTITIES && e !in stores[key]
    requires AllNotifiedOfChange(systems, interests, systems', interests', e, masks[e], masks[e] + {types[key]}, types[key])
    ensures var updated: map<Entity, P> := stores[key][e := component];
      Consistent(live, masks[e := masks[e] + {types[key]}], types, nextComponent,
                 stores[key := updated], systems', interests')
  {
    var c := types[key];
    var masks' := masks[e := masks[e] + {c}];
    var updated: map<Entity, P> := stores[key][e := component];
    var stores' := stores[key := updated];
    assert c !in masks[e];
    forall k, x: Entity | k in types && k in stores'
      ensures x in stores'[k] <==> 0 <= x < |masks'| && types[k] in masks'[x]
    {
      assert x in stores[k] <==> 0 <= x < |masks| && types[k] in masks[x];
      if k != key && x == e {
        assert types[k] != c;
      }
    }
    forall s | s in systems' ensures systems'[s].entities == Members(masks', InterestOf(interests', s)) {
      MaskChangeKeepsMembership(systems[s], InterestOf(interests, s), masks, e, masks[e] + {c}, c);
    }
  }

  /**
   * removeComponent: bit c is cleared in e's mask, every system is notified,
   * then the store loses e; the invariant holds again.
   */
  lemma {:induction false} RemoveKeeps<P>(live: set<Entity>, masks: seq<ComponentMask>, types: map<TypeKey, Component>,
                       nextComponent: nat, stores: map<TypeKey, map<Entity, P>>,
                       systems: map<TypeKey, SystemState>, interests: map<TypeKey, ComponentMask>,
                       systems': map<TypeKey, SystemState>, interests': map<TypeKey, ComponentMask>,
                       key: TypeKey, e: Entity)
    requires Consistent(live, masks, types, nextComponent, stores, systems, interests) && IdsInjective(types)
    requires key in types && key in stores && e in stores[key]
    requires e < MAX_ENTITIES && types[key] in masks[e]
    requires AllNotifiedOfChange(systems, interests, systems', interests', e, masks[e], masks[e] - {types[key]}, types[key])
    ensures Consistent(live, masks[e := masks[e] - {types[key]}], types, nextComponent,
                       stores[key := stores[key] - {e}], systems', interests')
  {
    var c := types[key];
    var masks' := masks[e := masks[e] - {c}];
    var stores' := stores[key := stores[key] - {e}];
    forall k, x: Entity | k in types && k in stores'
      ensures x in stores'[k] <==> 0 <= x < |masks'| && types[k] in masks'[x]
    {
      assert x in stores[k] <==> 0 <= x < |masks| && types[k] in masks[x];
      if k != key && x == e {
        assert types[k] != c;
      }
    }
    forall s | s in systems' ensures systems'[s].entities == Members(masks', InterestOf(interests', s)) {
      MaskChangeKeepsMembership(systems[s], InterestOf(interests, s), masks, e, masks[e] - {c}, c);
    }
  }

  /**
   * destroyEntity: systems are notified under the old mask, the mask is reset
   * and the id freed, and every store loses e; the invariant holds again.
   */
  lemma {:induction false} DestroyKeeps<P>(live: set<Entity>, masks: seq<ComponentMask>, types: map<TypeKey, Component>,
                        nextComponent: nat, stores: map<TypeKey, map<Entity, P>>,
                        systems: map<TypeKey, SystemState>, interests: map<TypeKey, ComponentMask>,
                        systems': map<TypeKey, SystemState>, interests': map<TypeKey, ComponentMask>,
                        stores': map<TypeKey, map<Entity, P>>, e: Entity)
    requires Consistent(live, masks, types, nextComponent, stores, systems, interests)
    requires e in live && e < MAX_ENTITIES
    requires AllNotifiedOfDestroy(systems, interests, systems', interests', e, masks[e])
    requires (forall k :: k in stores' <==> k in stores) && forall k :: k in stores ==> stores'[k] == stores[k] - {e}
    ensures Consistent(live - {e}, masks[e := {}], types, nextComponent, stores', systems', interests')
    ensures forall s :: s in systems' ==> e !in systems'[s].entities
  {
    var masks' := masks[e := {}];
    forall k, x: Entity | k in types && k in stores'
      ensures x in stores'[k] <==> 0 <= x < |masks'| && types[k] in masks'[x]
    {
      assert x in stores[k] <==> 0 <= x < |masks| && types[k] in masks[x];
    }
    forall s | s in systems' ensures systems'[s].entities == Members(masks', InterestOf(interests', s)) {
      DestroyKeepsMembership(systems[s], InterestOf(interests, s), masks, e);
    }
  }

  /** registerComponent: the new type's id is set in no mask, matching its empty store. */
  lemma RegisterComponentKeeps<P>(live: set<Entity>, masks: seq<ComponentMask>, types: map<TypeKey, Component>,
                                  nextComponent: nat, stores: map<TypeKey, map<Entity, P>>,
                                  systems: map<TypeKey, SystemState>, interests: map<TypeKey, ComponentMask>,
                                  key: TypeKey)
    requires Consistent(live, masks, types, nextComponent, stores, systems, interests)
    requires key !in types && nextComponent < MAX_COMPONENTS
    ensures Consistent(live, masks, types[key := nextComponent], nextComponent + 1,
                       stores[key := map[]], systems, interests)
  {
    var types' := types[key := nextComponent];
    var stores': map<TypeKey, map<Entity, P>> := stores[key := map[]];
    forall k, x: Entity | k in types' && k in stores'
      ensures x in stores'[k] <==> 0 <= x < |masks| && types'[k] in masks[x]
    {
      if k == key && 0 <= x < |masks| {
        assert nextComponent !in masks[x];
      }
    }
  }

  /** registerSystem: a fresh system has no members and no interest yet. */
  lemma RegisterSystemKeeps<P>(live: set<Entity>, masks: seq<ComponentMask>, types: map<TypeKey, Component>,
                               nextComponent: nat, stores: map<TypeKey, map<Entity, P>>,
                               systems: map<TypeKey, SystemState>, interests: map<TypeKey, ComponentMask>,
                               key: TypeKey)
    requires Consistent(live, masks, types, nextComponent, stores, systems, interests)
    requires key !in interests
    ensures Consistent(live, masks, types, nextComponent, stores, systems[key := SystemState({}, [])], interests)
  {
    assert Members(masks, InterestOf(interests, key)) == {};
  }

  /**
   * setSystemComponents: a first interest keeps membership right only when no
   * entity overlaps it yet, since the source does not fill the members in.
   */
  lemma SetInterestKeeps<P>(live: set<Entity>, masks: seq<ComponentMask>, types: map<TypeKey, Component>,
                            nextComponent: nat, stores: map<TypeKey, map<Entity, P>>,
                            systems: map<TypeKey, SystemState>, interests: map<TypeKey, ComponentMask>,
                            key: TypeKey, interest: ComponentMask)
    requires Consistent(live, masks, types, nextComponent, stores, systems, interests)
    requires key in systems && key !in interests && Members(masks, interest) == {}
    ensures Consistent(live, masks, types, nextComponent, stores, systems, interests[key := interest])
  {
    assert systems[key].entities == Members(masks, {}) == {};
  }
}
