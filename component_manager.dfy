/**
 * ComponentManager (ecs/ntshengn_ecs.h:168-230): the registry that gives each
 * component type the next free id, and one store per registered type.
 *
 * Each store is held by its contents, the map from holder to value that
 * ComponentArray.Contents() abstracts a dense store to; the manager's updates
 * of a store are exactly the changes of Contents() that ComponentArray's
 * InsertData, RemoveData and EntityDestroyed are proved to make.
 */
module ComponentRegistry {
  import opened ComponentMasks

  /** No two registered types share an id. */
  ghost predicate IdsInjective(types: map<TypeKey, Component>)
  {
    forall k1, k2 :: k1 in types && k2 in types && types[k1] == types[k2] ==> k1 == k2
  }

  class ComponentManager<P(0)> {
    /** m_componentTypes */
    var componentTypes: map<TypeKey, Component>
    /** m_componentArrays, each store by its contents */
    var componentArrays: map<TypeKey, map<Entity, P>>
    /** m_nextComponent */
    var nextComponent: nat
    /** The registered keys in registration order: registrationOrder[c] is the type with id c. */
    ghost var registrationOrder: seq<TypeKey>

    ghost predicate Valid()
      reads this
    {
      nextComponent <= MAX_COMPONENTS && |registrationOrder| == nextComponent &&
      // each registered type has its own store, and only those do
      (forall k :: k in componentArrays <==> k in componentTypes) &&
      // ids are handed out consecutively in registration order
      (forall k :: k in componentTypes ==>
        componentTypes[k] < nextComponent && registrationOrder[componentTypes[k]] == k) &&
      (forall c :: 0 <= c < |registrationOrder| ==>
        registrationOrder[c] in componentTypes && componentTypes[registrationOrder[c]] == c)
    }

    /** A fresh manager has no types and gives the first type id 0. */
    constructor ()
      ensures Valid()
      ensures componentTypes == map[] && componentArrays == map[] && nextComponent == 0
      ensures registrationOrder == []
    {
      componentTypes := map[];
      componentArrays := map[];
      nextComponent := 0;
      registrationOrder := [];
    }

    /**
     * registerComponent: the type must not be registered yet and, for its id
     * to be a bit of a mask, fewer than MAX_COMPONENTS types may be registered.
     * It gets id nextComponent and an empty store.
     */
    method RegisterComponent(key: TypeKey)
      requires Valid() && key !in componentTypes
      requires nextComponent < MAX_COMPONENTS
      modifies this
      ensures Valid()
      ensures componentTypes == old(componentTypes)[key := old(nextComponent)]
      ensures componentArrays == old(componentArrays)[key := map[]]
      ensures nextComponent == old(nextComponent) + 1
      ensures registrationOrder == old(registrationOrder) + [key]
    {
      var empty: map<Entity, P> := map[];
      componentTypes := componentTypes[key := nextComponent];
      componentArrays := componentArrays[key := empty];
      registrationOrder := registrationOrder + [key];
      nextComponent := nextComponent + 1;
    }

    /** getComponentId: the id of a registered type, its position in registration order. */
    function GetComponentId(key: TypeKey): (id: Component)
      reads this
      requires Valid() && key in componentTypes
      ensures id < nextComponent && registrationOrder[id] == key
    {
      componentTypes[key]
    }

    /** Two registered types never share an id, so each id names one bit of a mask. */
    lemma ComponentIdsDistinct()
      requires Valid()
      ensures IdsInjective(componentTypes)
    {
      forall k1, k2 | k1 in componentTypes && k2 in componentTypes && componentTypes[k1] == componentTypes[k2]
        ensures k1 == k2
      {
        assert registrationOrder[componentTypes[k1]] == k1;
      }
    }

    /**
     * addComponent: insertData on the type's store, which must not hold the
     * entity yet and must have a free slot in its fixed array.
     */
    method AddComponent(key: TypeKey, entity: Entity, component: P)
      requires Valid() && key in componentTypes
      requires entity !in componentArrays[key]
      requires |componentArrays[key]| < MAX_ENTITIES
      modifies this
      ensures Valid()
      ensures var updated: map<Entity, P> := old(componentArrays)[key][entity := component];
        componentArrays == old(componentArrays)[key := updated]
      ensures componentTypes == old(componentTypes) && nextComponent == old(nextComponent)
      ensures registrationOrder == old(registrationOrder)
    {
      var store := componentArrays[key];
      componentArrays := componentArrays[key := store[entity := component]];
    }

    /** removeComponent: removeData on the type's store, which must hold the entity. */
    method RemoveComponent(key: TypeKey, entity: Entity)
      requires Valid() && key in componentTypes
      requires entity in componentArrays[key]
      modifies this
      ensures Valid()
      ensures componentArrays == old(componentArrays)[key := old(componentArrays)[key] - {entity}]
      ensures componentTypes == old(componentTypes) && nextComponent == old(nextComponent)
      ensures registrationOrder == old(registrationOrder)
    {
      var store := componentArrays[key];
      componentArrays := componentArrays[key := store - {entity}];
    }

    /** hasComponent on the type's store. */
    function HasComponent(key: TypeKey, entity: Entity): (present: bool)
      reads this
      requires Valid() && key in componentTypes
      ensures present <==> entity in componentArrays[key]
    {
      entity in componentArrays[key]
    }

    /** getComponent: the value the entity holds in the type's store. */
    function GetComponent(key: TypeKey, entity: Entity): (component: P)
      reads this
      requires Valid() && key in componentTypes && entity in componentArrays[key]
      ensures component == componentArrays[key][entity]
    {
      componentArrays[key][entity]
    }

    /**
     * entityDestroyed: the tolerant removal on every store, one store at a
     * time; afterwards no store holds the entity and every other holder keeps
     * its value.
     */
    method EntityDestroyed(entity: Entity)
      requires Valid()
      modifies this
      ensures Valid()
      ensures componentArrays.Keys == old(componentArrays).Keys
      ensures forall k :: k in componentArrays ==> componentArrays[k] == old(componentArrays)[k] - {entity}
      ensures componentTypes == old(componentTypes) && nextComponent == old(nextComponent)
      ensures registrationOrder == old(registrationOrder)
    {
      var pending := componentArrays.Keys;
      while pending != {}
        invariant Valid()
        invariant componentTypes == old(componentTypes) && nextComponent == old(nextComponent)
        invariant registrationOrder == old(registrationOrder)
        invariant componentArrays.Keys == old(componentArrays).Keys && pending <= componentArrays.Keys
        invariant forall k :: k in componentArrays && k !in pending ==>
          componentArrays[k] == old(componentArrays)[k] - {entity}
        invariant forall k :: k in pending ==> componentArrays[k] == old(componentArrays)[k]
        decreases pending
      {
        var key :| key in pending;
        var store := componentArrays[key];
        if entity in store {
          componentArrays := componentArrays[key := store - {entity}];
        }
        pending := pending - {key};
      }
    }
  }
}
