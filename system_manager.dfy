/**
 * SystemManager (ecs/ntshengn_ecs.h:241-309): the registered systems, each
 * with the interest mask set for it, kept up to date as entities change.
 *
 * A registered System* is held as the value of what the manager changes in
 * it: its entities set and the hooks fired on it (Interest.SystemState).
 */
module Systems {
  import opened ComponentMasks
  import opened Interest

  /**
   * m_componentMasks[type] read through operator[]: the mask set for the
   * system, or the empty mask when none was set.
   */
  function InterestOf(masks: map<TypeKey, ComponentMask>, key: TypeKey): (interest: ComponentMask)
    ensures key in masks ==> interest == masks[key]
    ensures key !in masks ==> interest == {}
  {
    if key in masks then masks[key] else {}
  }

  /**
   * The body of the per-system step of entityDestroyed (lines 265-278): one
   * Removed hook per relevant bit, in increasing bit order, each seeing the
   * entities set before the erase, then the entity leaves the system if any
   * bit was relevant.
   */
  method NotifyDestroyed(s: SystemState, interest: ComponentMask, entity: Entity, entityComponents: ComponentMask)
    returns (r: SystemState)
    ensures r == OnDestroyed(s, interest, entity, entityComponents)
  {
    var relevant := entityComponents * interest;
    var entityInSystem := false;
    var events := s.events;
    for i := 0 to MAX_COMPONENTS
      invariant events == s.events + RemovalEvents(entity, relevant, i, s.entities)
      invariant entityInSystem <==> RemovalEvents(entity, relevant, i, s.entities) != []
    {
      if i in relevant {
        entityInSystem := true;
        events := events + [Removed(entity, i, s.entities)];
      }
    }
    RemovalEventsComplete(entity, relevant, MAX_COMPONENTS, s.entities);
    assert entityInSystem <==> relevant != {};
    r := SystemState(if entityInSystem then s.entities - {entity} else s.entities, events);
  }

  class SystemManager {
    /** m_systems */
    var systems: map<TypeKey, SystemState>
    /** m_componentMasks */
    var componentMasks: map<TypeKey, ComponentMask>

    ghost predicate Valid()
      reads this
    {
      // masks are only ever set for registered systems
      forall k :: k in componentMasks ==> k in systems
    }

    constructor ()
      ensures Valid()
      ensures systems == map[] && componentMasks == map[]
    {
      systems := map[];
      componentMasks := map[];
    }

    /** registerSystem: a type registers one system, which starts without an interest mask. */
    method RegisterSystem(key: TypeKey, system: SystemState)
      requires Valid() && key !in systems
      modifies this
      ensures Valid()
      ensures systems == old(systems)[key := system]
      ensures componentMasks == old(componentMasks) && key !in componentMasks
    {
      systems := systems[key := system];
    }

    /**
     * setComponents: the first mask set for a system wins; a later call, or a
     * call after a notification has stored the empty mask, changes nothing.
     */
    method SetComponents(key: TypeKey, componentMask: ComponentMask)
      requires Valid() && key in systems
      modifies this
      ensures Valid()
      ensures systems == old(systems)
      ensures key in old(componentMasks) ==> componentMasks == old(componentMasks)
      ensures key !in old(componentMasks) ==> componentMasks == old(componentMasks)[key := componentMask]
      ensures InterestOf(componentMasks, key) == if key in old(componentMasks) then old(componentMasks)[key] else componentMask
    {
      if key !in componentMasks {
        componentMasks := componentMasks[key := componentMask];
      }
    }

    /**
     * entityDestroyed: every system reacts to the destruction as OnDestroyed
     * says, under its interest; reading the interest stores the empty mask for
     * every system that had none.
     */
    method EntityDestroyed(entity: Entity, entityComponents: ComponentMask)
      requires Valid()
      modifies this
      ensures Valid()
      ensures systems.Keys == old(systems).Keys
      ensures forall k :: k in systems ==>
        systems[k] == OnDestroyed(old(systems)[k], InterestOf(old(componentMasks), k), entity, entityComponents)
      ensures forall k :: k in systems ==> k in componentMasks && componentMasks[k] == InterestOf(old(componentMasks), k)
    {
      var pending := systems.Keys;
      while pending != {}
        invariant Valid()
        invariant systems.Keys == old(systems).Keys && pending <= systems.Keys
        invariant forall k :: k in systems && k !in pending ==>
          systems[k] == OnDestroyed(old(systems)[k], InterestOf(old(componentMasks), k), entity, entityComponents)
        invariant forall k :: k in pending ==> systems[k] == old(systems)[k]
        invariant forall k :: k in systems && k !in pending ==> k in componentMasks
        invariant forall k :: k in old(componentMasks) ==> k in componentMasks
        invariant forall k :: k in componentMasks ==> componentMasks[k] == InterestOf(old(componentMasks), k)
        decreases pending
      {
        var key :| key in pending;
        var systemComponentMask := InterestOf(componentMasks, key);
        assert systemComponentMask == InterestOf(old(componentMasks), key);
        componentMasks := componentMasks[key := systemComponentMask];
        var updated := NotifyDestroyed(systems[key], systemComponentMask, entity, entityComponents);
        systems := systems[key := updated];
        pending := pending - {key};
      }
    }

    /**
     * entityComponentMaskChanged: every system reacts to the change of the
     * entity's mask as OnMaskChanged says, under its interest; reading the
     * interest stores the empty mask for every system that had none.
     */
    method EntityComponentMaskChanged(entity: Entity, oldMask: ComponentMask, newMask: ComponentMask, componentId: Component)
      requires Valid()
      modifies this
      ensures Valid()
      ensures systems.Keys == old(systems).Keys
      ensures forall k :: k in systems ==>
        systems[k] == OnMaskChanged(old(systems)[k], InterestOf(old(componentMasks), k), entity, oldMask, newMask, componentId)
      ensures forall k :: k in systems ==> k in componentMasks && componentMasks[k] == InterestOf(old(componentMasks), k)
    {
      var pending := systems.Keys;
      while pending != {}
        invariant Valid()
        invariant systems.Keys == old(systems).Keys && pending <= systems.Keys
        invariant forall k :: k in systems && k !in pending ==>
          systems[k] == OnMaskChanged(old(systems)[k], InterestOf(old(componentMasks), k), entity, oldMask, newMask, componentId)
        invariant forall k :: k in pending ==> systems[k] == old(systems)[k]
        invariant forall k :: k in systems && k !in pending ==> k in componentMasks
        invariant forall k :: k in old(componentMasks) ==> k in componentMasks
        invariant forall k :: k in componentMasks ==> componentMasks[k] == InterestOf(old(componentMasks), k)
        decreases pending
      {
        var key :| key in pending;
        var systemComponentMask := InterestOf(componentMasks, key);
        assert systemComponentMask == InterestOf(old(componentMasks), key);
        componentMasks := componentMasks[key := systemComponentMask];
        systems := systems[key := OnMaskChanged(systems[key], systemComponentMask, entity, oldMask, newMask, componentId)];
        pending := pending - {key};
      }
    }
  }
}
