/**
 * The ECS facade (ecs/ntshengn_ecs.h:311-411): one entity manager, one
 * component manager and one system manager, driven in a fixed order so that
 * masks, stores and system memberships stay in agreement (Consistency).
 */
module Facade {
  import opened ComponentMasks
  import opened Interest
  import opened Entities
  import opened ComponentRegistry
  import opened Systems
  import opened Consistency

  /**
   * What a system's hook can read through the ECS while it runs: the live
   * ids, the mask table, the stores and the two name maps, as they stand at
   * the moment the system manager is called.
   */
  datatype HookView<P> = HookView(live: set<Entity>, masks: seq<ComponentMask>, stores: map<TypeKey, map<Entity, P>>,
                                  entityToName: map<Entity, string>, nameToEntity: map<string, Entity>)

  class ECS<P(0)> {
    /** m_entityManager */
    const entityManager: EntityManager
    /** m_componentManager */
    const componentManager: ComponentManager<P>
    /** m_systemManager */
    const systemManager: SystemManager
    /** The type key of Transform, the component every entity is created with. */
    const transformKey: TypeKey
    /** Transform{} */
    const defaultTransform: P
    /** The state the hooks saw during the latest notification of the systems. */
    ghost var seenByHooks: HookView<P>

    ghost predicate Valid()
      reads this, entityManager, entityManager.componentMasks, componentManager, systemManager
    {
      entityManager.Valid() && componentManager.Valid() && systemManager.Valid() &&
      Consistent(entityManager.Live(), entityManager.Masks(), componentManager.componentTypes,
                 componentManager.nextComponent, componentManager.componentArrays,
                 systemManager.systems, systemManager.componentMasks)
    }

    /** init: three fresh managers; no entity is live, no type or system registered. */
    constructor (transformKey: TypeKey, defaultTransform: P)
      ensures Valid()
      ensures fresh(entityManager) && fresh(entityManager.componentMasks)
      ensures fresh(componentManager) && fresh(systemManager)
      ensures entityManager.freeIds == IdsBelow(MAX_ENTITIES) && entityManager.Live() == {}
      ensures componentManager.componentTypes == map[] && componentManager.nextComponent == 0
      ensures systemManager.systems == map[] && systemManager.componentMasks == map[]
      ensures componentManager.componentArrays == map[]
      ensures entityManager.entityToName == map[] && entityManager.nameToEntity == map[]
      ensures this.transformKey == transformKey && this.defaultTransform == defaultTransform
    {
      this.transformKey := transformKey;
      this.defaultTransform := defaultTransform;
      seenByHooks := HookView({}, [], map[], map[], map[]);
      entityManager := new EntityManager();
      componentManager := new ComponentManager<P>();
      systemManager := new SystemManager();
      new;
      assert forall e :: 0 <= e < MAX_ENTITIES ==> e in entityManager.freeIds by {
        forall e | 0 <= e < MAX_ENTITIES ensures e in entityManager.freeIds {
          assert entityManager.freeIds[e] == e;
        }
      }
    }

    /**
     * addComponent: the store first, then the mask gains the type's bit, then
     * every system hears of the change, so its hooks already see the new
     * value and the new bit. The entity must be live and must not hold the
     * type yet.
     */
    method AddComponent(key: TypeKey, entity: Entity, component: P)
      requires Valid() && key in componentManager.componentTypes
      requires entity in entityManager.Live() && entity !in componentManager.componentArrays[key]
      modifies this, entityManager.componentMasks, componentManager, systemManager
      ensures Valid()
      ensures componentManager.componentTypes == old(componentManager.componentTypes)
      ensures componentManager.nextComponent == old(componentManager.nextComponent)
      ensures var c := componentManager.componentTypes[key];
        entityManager.Masks() == old(entityManager.Masks())[entity := old(entityManager.Masks())[entity] + {c}]
      ensures var updated: map<Entity, P> := old(componentManager.componentArrays)[key][entity := component];
        componentManager.componentArrays == old(componentManager.componentArrays)[key := updated]
      ensures var c := componentManager.componentTypes[key];
        AllNotifiedOfChange(old(systemManager.systems), old(systemManager.componentMasks),
                            systemManager.systems, systemManager.componentMasks,
                            entity, old(entityManager.Masks())[entity], old(entityManager.Masks())[entity] + {c}, c)
      ensures seenByHooks == HookView(entityManager.Live(), entityManager.Masks(), componentManager.componentArrays,
                                      entityManager.entityToName, entityManager.nameToEntity)
    {
      ghost var masks, stores, systems, interests :=
        entityManager.Masks(), componentManager.componentArrays, systemManager.systems, systemManager.componentMasks;
      StoreHasRoom(masks, componentManager.componentTypes, stores, key, entity);
      componentManager.AddComponent(key, entity, component);
      var oldComponents := entityManager.GetComponents(entity);
      var componentId := componentManager.GetComponentId(key);
      var newComponents := oldComponents + {componentId};
      entityManager.SetComponents(entity, newComponents);
      seenByHooks := HookView(entityManager.Live(), entityManager.Masks(), componentManager.componentArrays,
                              entityManager.entityToName, entityManager.nameToEntity);
      systemManager.EntityComponentMaskChanged(entity, oldComponents, newComponents, componentId);
      componentManager.ComponentIdsDistinct();
      AddKeeps(entityManager.Live(), masks, componentManager.componentTypes, componentManager.nextComponent,
               stores, systems, interests, systemManager.systems, systemManager.componentMasks,
               key, entity, component);
    }

    /**
     * removeComponent: the mask loses the type's bit and every system hears of
     * the change first, so its hooks still see the value in the store; only
     * then does the store drop the entity, which must hold the type.
     */
    method RemoveComponent(key: TypeKey, entity: Entity)
      requires Valid() && key in componentManager.componentTypes
      requires entity in componentManager.componentArrays[key]
      modifies this, entityManager.componentMasks, componentManager, systemManager
      ensures Valid()
      ensures componentManager.componentTypes == old(componentManager.componentTypes)
      ensures componentManager.nextComponent == old(componentManager.nextComponent)
      ensures entity < MAX_ENTITIES
      ensures var c := componentManager.componentTypes[key];
        entityManager.Masks() == old(entityManager.Masks())[entity := old(entityManager.Masks())[entity] - {c}]
      ensures componentManager.componentArrays ==
        old(componentManager.componentArrays)[key := old(componentManager.componentArrays)[key] - {entity}]
      ensures var c := componentManager.componentTypes[key];
        AllNotifiedOfChange(old(systemManager.systems), old(systemManager.componentMasks),
                            systemManager.systems, systemManager.componentMasks,
                            entity, old(entityManager.Masks())[entity], old(entityManager.Masks())[entity] - {c}, c)
      ensures seenByHooks == HookView(entityManager.Live(), entityManager.Masks(), old(componentManager.componentArrays),
                                      entityManager.entityToName, entityManager.nameToEntity)
    {
      ghost var masks, stores, systems, interests :=
        entityManager.Masks(), componentManager.componentArrays, systemManager.systems, systemManager.componentMasks;
      assert entity < MAX_ENTITIES && componentManager.componentTypes[key] in masks[entity];
      var oldComponents := entityManager.GetComponents(entity);
      var componentId := componentManager.GetComponentId(key);
      var newComponents := oldComponents - {componentId};
      entityManager.SetComponents(entity, newComponents);
      seenByHooks := HookView(entityManager.Live(), entityManager.Masks(), componentManager.componentArrays,
                              entityManager.entityToName, entityManager.nameToEntity);
      systemManager.EntityComponentMaskChanged(entity, oldComponents, newComponents, componentId);
      componentManager.RemoveComponent(key, entity);
      componentManager.ComponentIdsDistinct();
      RemoveKeeps(entityManager.Live(), masks, componentManager.componentTypes, componentManager.nextComponent,
                  stores, systems, interests, systemManager.systems, systemManager.componentMasks, key, entity);
    }

    /**
     * createEntity: the next free id, which then receives a Transform{}
     * through addComponent. The Transform type must be registered.
     */
    method CreateEntity() returns (id: Entity)
      requires Valid() && entityManager.numberOfEntities < MAX_ENTITIES
      requires transformKey in componentManager.componentTypes
      modifies this, entityManager, entityManager.componentMasks, componentManager, systemManager
      ensures Valid()
      ensures componentManager.componentTypes == old(componentManager.componentTypes)
      ensures componentManager.nextComponent == old(componentManager.nextComponent)
      ensures id == old(entityManager.freeIds)[0] && entityManager.freeIds == old(entityManager.freeIds)[1..]
      ensures id !in old(entityManager.Live()) && entityManager.Live() == old(entityManager.Live()) + {id}
      ensures var t := componentManager.componentTypes[transformKey];
        entityManager.Masks() == old(entityManager.Masks())[id := {t}]
      ensures var updated: map<Entity, P> := old(componentManager.componentArrays)[transformKey][id := defaultTransform];
        componentManager.componentArrays == old(componentManager.componentArrays)[transformKey := updated]
      ensures var t := componentManager.componentTypes[transformKey];
        AllNotifiedOfChange(old(systemManager.systems), old(systemManager.componentMasks),
                            systemManager.systems, systemManager.componentMasks, id, {}, {t}, t)
      ensures seenByHooks == HookView(entityManager.Live(), entityManager.Masks(), componentManager.componentArrays,
                                      entityManager.entityToName, entityManager.nameToEntity)
      ensures entityManager.entityToName == old(entityManager.entityToName)
      ensures entityManager.nameToEntity == old(entityManager.nameToEntity)
    {
      id := entityManager.CreateEntity();
      CreateKeeps(old(entityManager.Live()), entityManager.Masks(), componentManager.componentTypes,
                  componentManager.nextComponent, componentManager.componentArrays,
                  systemManager.systems, systemManager.componentMasks, id);
      AddComponent(transformKey, id, defaultTransform);
    }

    /** createEntity(name): as createEntity, and the unbound name is bound to the new entity. */
    method CreateNamedEntity(name: string) returns (id: Entity)
      requires Valid() && entityManager.numberOfEntities < MAX_ENTITIES
      requires transformKey in componentManager.componentTypes
      requires name !in entityManager.nameToEntity
      modifies this, entityManager, entityManager.componentMasks, componentManager, systemManager
      ensures Valid()
      ensures componentManager.componentTypes == old(componentManager.componentTypes)
      ensures componentManager.nextComponent == old(componentManager.nextComponent)
      ensures id == old(entityManager.freeIds)[0] && entityManager.freeIds == old(entityManager.freeIds)[1..]
      ensures id !in old(entityManager.Live()) && entityManager.Live() == old(entityManager.Live()) + {id}
      ensures var t := componentManager.componentTypes[transformKey];
        entityManager.Masks() == old(entityManager.Masks())[id := {t}]
      ensures var updated: map<Entity, P> := old(componentManager.componentArrays)[transformKey][id := defaultTransform];
        componentManager.componentArrays == old(componentManager.componentArrays)[transformKey := updated]
      ensures var t := componentManager.componentTypes[transformKey];
        AllNotifiedOfChange(old(systemManager.systems), old(systemManager.componentMasks),
                            systemManager.systems, systemManager.componentMasks, id, {}, {t}, t)
      ensures seenByHooks == HookView(entityManager.Live(), entityManager.Masks(), componentManager.componentArrays,
                                      entityManager.entityToName, entityManager.nameToEntity)
      ensures entityManager.nameToEntity == old(entityManager.nameToEntity)[name := id]
      ensures entityManager.entityToName == old(entityManager.entityToName)[id := name]
    {
      id := entityManager.CreateNamedEntity(name);
      CreateKeeps(old(entityManager.Live()), entityManager.Masks(), componentManager.componentTypes,
                  componentManager.nextComponent, componentManager.componentArrays,
                  systemManager.systems, systemManager.componentMasks, id);
      AddComponent(transformKey, id, defaultTransform);
    }

    /**
     * destroyEntity: the systems hear of the destruction under the entity's
     * mask first, then the id is freed with its mask reset, then every store
     * drops the entity. The entity must be live.
     */
    method DestroyEntity(entity: Entity)
      requires Valid() && entity < MAX_ENTITIES && entity in entityManager.Live()
      modifies this, entityManager, entityManager.componentMasks, componentManager, systemManager
      ensures Valid()
      ensures entityManager.freeIds == old(entityManager.freeIds) + [entity]
      ensures entityManager.Live() == old(entityManager.Live()) - {entity}
      ensures entityManager.Masks() == old(entityManager.Masks())[entity := {}]
      ensures componentManager.componentArrays.Keys == old(componentManager.componentArrays).Keys
      ensures forall k :: k in componentManager.componentArrays ==>
        componentManager.componentArrays[k] == old(componentManager.componentArrays)[k] - {entity}
      ensures AllNotifiedOfDestroy(old(systemManager.systems), old(systemManager.componentMasks),
                                   systemManager.systems, systemManager.componentMasks,
                                   entity, old(entityManager.Masks())[entity])
      ensures forall s :: s in systemManager.systems ==> entity !in systemManager.systems[s].entities
      ensures componentManager.componentTypes == old(componentManager.componentTypes)
      ensures componentManager.nextComponent == old(componentManager.nextComponent)
      ensures entity in old(entityManager.entityToName) ==>
        entityManager.entityToName == old(entityManager.entityToName) - {entity} &&
        entityManager.nameToEntity == old(entityManager.nameToEntity) - {old(entityManager.entityToName)[entity]}
      ensures entity !in old(entityManager.entityToName) ==>
        entityManager.entityToName == old(entityManager.entityToName) &&
        entityManager.nameToEntity == old(entityManager.nameToEntity)
      ensures seenByHooks == HookView(old(entityManager.Live()), old(entityManager.Masks()),
                                      old(componentManager.componentArrays),
                                      old(entityManager.entityToName), old(entityManager.nameToEntity))
    {
      ghost var live, masks, stores, systems, interests := entityManager.Live(), entityManager.Masks(),
        componentManager.componentArrays, systemManager.systems, systemManager.componentMasks;
      var entityComponents := entityManager.GetComponents(entity);
      seenByHooks := HookView(entityManager.Live(), entityManager.Masks(), componentManager.componentArrays,
                              entityManager.entityToName, entityManager.nameToEntity);
      systemManager.EntityDestroyed(entity, entityComponents);
      entityManager.DestroyEntity(entity);
      componentManager.EntityDestroyed(entity);
      DestroyKeeps(live, masks, componentManager.componentTypes, componentManager.nextComponent, stores,
                   systems, interests, systemManager.systems, systemManager.componentMasks,
                   componentManager.componentArrays, entity);
    }

    /** setEntityName: binds an unbound name to the entity; nothing else changes. */
    method SetEntityName(entity: Entity, name: string)
      requires Valid() && name !in entityManager.nameToEntity
      modifies entityManager
      ensures Valid()
      ensures entityManager.nameToEntity == old(entityManager.nameToEntity)[name := entity]
      ensures entityManager.entityToName == old(entityManager.entityToName)[entity := name]
      ensures entityManager.freeIds == old(entityManager.freeIds)
      ensures entityManager.numberOfEntities == old(entityManager.numberOfEntities)
      ensures entityManager.Live() == old(entityManager.Live())
    {
      entityManager.SetEntityName(entity, name);
    }

    /** getEntityName */
    function GetEntityName(entity: Entity): (name: string)
      reads this, entityManager, entityManager.componentMasks, componentManager, systemManager
      requires Valid() && entity in entityManager.entityToName
      ensures name in entityManager.nameToEntity && entityManager.nameToEntity[name] == entity
    {
      entityManager.GetEntityName(entity)
    }

    /** findEntityByName */
    function FindEntityByName(name: string): (entity: Entity)
      reads this, entityManager, entityManager.componentMasks, componentManager, systemManager
      requires Valid() && name in entityManager.nameToEntity
      ensures forall x :: x in entityManager.entityToName && entityManager.entityToName[x] == name ==> entity == x
    {
      entityManager.FindEntityByName(name)
    }

    /** registerComponent: the new type's id is set in no mask, as its store is empty. */
    method RegisterComponent(key: TypeKey)
      requires Valid() && key !in componentManager.componentTypes
      requires componentManager.nextComponent < MAX_COMPONENTS
      modifies componentManager
      ensures Valid()
      ensures componentManager.componentTypes == old(componentManager.componentTypes)[key := old(componentManager.nextComponent)]
      ensures componentManager.componentArrays == old(componentManager.componentArrays)[key := map[]]
      ensures componentManager.nextComponent == old(componentManager.nextComponent) + 1
    {
      RegisterComponentKeeps(entityManager.Live(), entityManager.Masks(), componentManager.componentTypes,
                             componentManager.nextComponent, componentManager.componentArrays,
                             systemManager.systems, systemManager.componentMasks, key);
      componentManager.RegisterComponent(key);
    }

    /**
     * hasComponent: whether the type's store holds the entity, which is
     * whether the type's bit is set in the entity's mask.
     */
    function HasComponent(key: TypeKey, entity: Entity): (present: bool)
      reads this, entityManager, entityManager.componentMasks, componentManager, systemManager
      requires Valid() && key in componentManager.componentTypes
      ensures present <==> entity in componentManager.componentArrays[key]
      ensures present <==> entity < MAX_ENTITIES && componentManager.componentTypes[key] in entityManager.Masks()[entity]
      ensures present ==> entity in entityManager.Live()
    {
      componentManager.HasComponent(key, entity)
    }

    /** getComponent: the value a holder of the type stores. */
    function GetComponent(key: TypeKey, entity: Entity): (component: P)
      reads this, entityManager, entityManager.componentMasks, componentManager, systemManager
      requires Valid() && key in componentManager.componentTypes
      requires entity in componentManager.componentArrays[key]
      ensures component == componentManager.componentArrays[key][entity]
    {
      componentManager.GetComponent(key, entity)
    }

    /** getComponentId: the registered type's id, its position in registration order. */
    function GetComponentId(key: TypeKey): (id: Component)
      reads this, entityManager, entityManager.componentMasks, componentManager, systemManager
      requires Valid() && key in componentManager.componentTypes
      ensures id < componentManager.nextComponent && componentManager.registrationOrder[id] == key
    {
      componentManager.GetComponentId(key)
    }

    /** registerSystem: a newly constructed system, without members or interest. */
    method RegisterSystem(key: TypeKey)
      requires Valid() && key !in systemManager.systems
      modifies systemManager
      ensures Valid()
      ensures systemManager.systems == old(systemManager.systems)[key := SystemState({}, [])]
      ensures systemManager.componentMasks == old(systemManager.componentMasks)
    {
      RegisterSystemKeeps(entityManager.Live(), entityManager.Masks(), componentManager.componentTypes,
                          componentManager.nextComponent, componentManager.componentArrays,
                          systemManager.systems, systemManager.componentMasks, key);
      systemManager.RegisterSystem(key, SystemState({}, []));
    }

    /**
     * setSystemComponents: the first interest set for a system wins. Since the
     * members are not filled in, a first interest must not overlap any mask yet.
     */
    method SetSystemComponents(key: TypeKey, componentMask: ComponentMask)
      requires Valid() && key in systemManager.systems
      requires key !in systemManager.componentMasks ==> Members(entityManager.Masks(), componentMask) == {}
      modifies systemManager
      ensures Valid()
      ensures systemManager.systems == old(systemManager.systems)
      ensures key in old(systemManager.componentMasks) ==> systemManager.componentMasks == old(systemManager.componentMasks)
      ensures key !in old(systemManager.componentMasks) ==>
        systemManager.componentMasks == old(systemManager.componentMasks)[key := componentMask]
      ensures InterestOf(systemManager.componentMasks, key) ==
        if key in old(systemManager.componentMasks) then old(systemManager.componentMasks)[key] else componentMask
    {
      if key !in systemManager.componentMasks {
        SetInterestKeeps(entityManager.Live(), entityManager.Masks(), componentManager.componentTypes,
                         componentManager.nextComponent, componentManager.componentArrays,
                         systemManager.systems, systemManager.componentMasks, key, componentMask);
      }
      systemManager.SetComponents(key, componentMask);
    }
  }
}
