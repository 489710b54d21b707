/**
 * EntityManager (ecs/ntshengn_ecs.h:32-111): the FIFO pool of free ids, the
 * live counter, one component mask per id slot, and the two name maps.
 */
module Entities {
  import opened ComponentMasks

  /** The ids 0, 1, ..., n - 1 in increasing order. */
  function IdsBelow(n: nat): (ids: seq<Entity>)
    ensures |ids| == n && forall i :: 0 <= i < n ==> ids[i] == i
  {
    seq(n, i requires 0 <= i => i)
  }

  /** A set of naturals below n has at most n elements. */
  lemma {:induction false} BoundedSetSize(s: set<nat>, n: nat)
    requires forall x :: x in s ==> x < n
    ensures |s| <= n
  {
    if n > 0 {
      var below := s - {n - 1};
      BoundedSetSize(below, n - 1);
    }
  }

  class EntityManager {
    /** m_entities: the queue of free ids, front first. */
    var freeIds: seq<Entity>
    /** m_componentMasks */
    const componentMasks: array<ComponentMask>
    /** m_entityToName */
    var entityToName: map<Entity, string>
    /** m_nameToEntity */
    var nameToEntity: map<string, Entity>
    /** m_numberOfEntities */
    var numberOfEntities: nat

    ghost predicate Valid()
      reads this
    {
      componentMasks.Length == MAX_ENTITIES &&
      |freeIds| + numberOfEntities == MAX_ENTITIES &&
      (forall i :: 0 <= i < |freeIds| ==> freeIds[i] < MAX_ENTITIES) &&
      (forall i, j :: 0 <= i < j < |freeIds| ==> freeIds[i] != freeIds[j]) &&
      // the live counter counts the ids not in the queue
      numberOfEntities == |Live()| &&
      // every name an entity carries finds that entity back
      (forall e :: e in entityToName ==>
        entityToName[e] in nameToEntity && nameToEntity[entityToName[e]] == e)
    }

    /** The ids handed out and not yet destroyed. */
    ghost function Live(): set<Entity>
      reads this
    {
      set e | 0 <= e < MAX_ENTITIES && e !in freeIds
    }

    /** The mask table as a sequence indexed by id. */
    ghost function Masks(): seq<ComponentMask>
      reads this, componentMasks
    {
      componentMasks[..]
    }

    /** EntityManager(): every id queued in increasing order, all masks empty, no names. */
    constructor ()
      ensures Valid() && fresh(componentMasks)
      ensures freeIds == IdsBelow(MAX_ENTITIES) && numberOfEntities == 0
      ensures forall e :: 0 <= e < MAX_ENTITIES ==> Masks()[e] == {}
      ensures entityToName == map[] && nameToEntity == map[]
    {
      componentMasks := new ComponentMask[MAX_ENTITIES](_ => {});
      entityToName, nameToEntity := map[], map[];
      numberOfEntities := 0;
      var queue: seq<Entity> := [];
      for entity := 0 to MAX_ENTITIES
        invariant queue == IdsBelow(entity)
      {
        queue := queue + [entity];
      }
      freeIds := queue;
      new;
      assert Live() == {} by {
        forall e | 0 <= e < MAX_ENTITIES ensures e in freeIds { assert freeIds[e] == e; }
      }
    }

    /** createEntity(): pops the oldest free id; needs a free id. */
    method CreateEntity() returns (id: Entity)
      requires Valid() && numberOfEntities < MAX_ENTITIES
      modifies this
      ensures Valid()
      ensures id == old(freeIds)[0] && freeIds == old(freeIds)[1..]
      ensures id < MAX_ENTITIES && id !in old(Live()) && Live() == old(Live()) + {id}
      ensures numberOfEntities == old(numberOfEntities) + 1
      ensures entityToName == old(entityToName) && nameToEntity == old(nameToEntity)
      ensures Masks() == old(Masks())
    {
      id := freeIds[0];
      freeIds := freeIds[1..];
      numberOfEntities := numberOfEntities + 1;
      assert forall i :: 0 <= i < |freeIds| ==> freeIds[i] == old(freeIds)[i + 1];
      assert old(freeIds) == [id] + freeIds;
      assert Live() == old(Live()) + {id};
    }

    /** createEntity(name): as createEntity(), then binds the name, which must be unbound. */
    method CreateNamedEntity(name: string) returns (id: Entity)
      requires Valid() && numberOfEntities < MAX_ENTITIES
      requires name !in nameToEntity
      modifies this
      ensures Valid()
      ensures id == old(freeIds)[0] && freeIds == old(freeIds)[1..]
      ensures id < MAX_ENTITIES && id !in old(Live()) && Live() == old(Live()) + {id}
      ensures numberOfEntities == old(numberOfEntities) + 1
      ensures nameToEntity == old(nameToEntity)[name := id]
      ensures entityToName == old(entityToName)[id := name]
      ensures Masks() == old(Masks())
    {
      id := CreateEntity();
      nameToEntity := nameToEntity[name := id];
      entityToName := entityToName[id := name];
    }

    /**
     * destroyEntity: clears the mask, queues the id at the back and drops its
     * current name binding. The id must be live.
     */
    method DestroyEntity(entity: Entity)
      requires Valid() && entity < MAX_ENTITIES && entity in Live()
      modifies this, componentMasks
      ensures Valid()
      ensures freeIds == old(freeIds) + [entity]
      ensures Live() == old(Live()) - {entity}
      ensures numberOfEntities == old(numberOfEntities) - 1
      ensures Masks() == old(Masks())[entity := {}]
      ensures entity in old(entityToName) ==>
        entityToName == old(entityToName) - {entity} &&
        nameToEntity == old(nameToEntity) - {old(entityToName)[entity]}
      ensures entity !in old(entityToName) ==>
        entityToName == old(entityToName) && nameToEntity == old(nameToEntity)
    {
      componentMasks[entity] := {};
      freeIds := freeIds + [entity];
      numberOfEntities := numberOfEntities - 1;
      assert Live() == old(Live()) - {entity};
      assert |Live()| == |old(Live())| - 1;
      if entity in entityToName {
        var entityName := entityToName[entity];
        entityToName := entityToName - {entity};
        nameToEntity := nameToEntity - {entityName};
      }
    }

    /** setComponents */
    method SetComponents(entity: Entity, mask: ComponentMask)
      requires Valid() && entity < MAX_ENTITIES
      modifies componentMasks
      ensures Masks() == old(Masks())[entity := mask]
    {
      componentMasks[entity] := mask;
    }

    /** getComponents */
    function GetComponents(entity: Entity): (mask: ComponentMask)
      reads this, componentMasks
      requires Valid() && entity < MAX_ENTITIES
      ensures mask == Masks()[entity]
    {
      componentMasks[entity]
    }

    /**
     * setEntityName: binds an unbound name to the entity. A name the entity
     * carried before stays bound to it in nameToEntity.
     */
    method SetEntityName(entity: Entity, name: string)
      requires Valid() && name !in nameToEntity
      modifies this
      ensures Valid()
      ensures nameToEntity == old(nameToEntity)[name := entity]
      ensures entityToName == old(entityToName)[entity := name]
      ensures freeIds == old(freeIds) && numberOfEntities == old(numberOfEntities)
    {
      nameToEntity := nameToEntity[name := entity];
      entityToName := entityToName[entity := name];
    }

    /** getEntityName: the entity's current name, which finds the entity back. */
    function GetEntityName(entity: Entity): (name: string)
      reads this
      requires Valid() && entity in entityToName
      ensures name in nameToEntity && nameToEntity[name] == entity
    {
      entityToName[entity]
    }

    /** findEntityByName: the entity bound to a name; if some entity currently carries the name, that one. */
    function FindEntityByName(name: string): (entity: Entity)
      reads this
      requires Valid() && name in nameToEntity
      ensures forall x :: x in entityToName && entityToName[x] == name ==> entity == x
    {
      nameToEntity[name]
    }
  }
}
