/**
 * ComponentArray<T> (ecs/ntshengn_ecs.h:119-166): a sparse set holding one
 * component type. Values sit densely in a fixed-capacity buffer; two maps link
 * entities and dense positions; insertion appends and removal moves the last
 * dense element into the freed slot.
 *
 * The buffer is a std::array member, stored inside the object itself, so it
 * is a field of MAX_ENTITIES values that the methods update one slot at a
 * time. P stands for the component payload, an opaque value.
 */
module ComponentStorage {
  import opened ComponentMasks

  /**
   * The dense positions in use are exactly 0 .. size - 1, and the two maps
   * are inverse to each other over them.
   */
  ghost predicate DenseMaps(entityToIndex: map<Entity, nat>, indexToEntity: map<nat, Entity>, size: nat)
  {
    (forall i: nat :: i in indexToEntity <==> i < size) &&
    (forall e :: e in entityToIndex ==>
      entityToIndex[e] < size && indexToEntity[entityToIndex[e]] == e) &&
    (forall i :: i in indexToEntity ==>
      indexToEntity[i] in entityToIndex && entityToIndex[indexToEntity[i]] == i)
  }

  /** Dense maps over positions 0 .. size - 1 hold exactly size entities. */
  lemma {:induction false} DenseSize(entityToIndex: map<Entity, nat>, indexToEntity: map<nat, Entity>, size: nat)
    requires DenseMaps(entityToIndex, indexToEntity, size)
    ensures |entityToIndex.Keys| == size
  {
    if size == 0 {
      assert forall e :: e !in entityToIndex;
      assert entityToIndex.Keys == {};
    } else {
      var last := indexToEntity[size - 1];
      SwapRemoveKeepsDense(entityToIndex, indexToEntity, size, last);
      assert entityToIndex[last := size - 1] - {last} == entityToIndex - {last};
      assert indexToEntity[size - 1 := last] - {size - 1} == indexToEntity - {size - 1};
      DenseSize(entityToIndex - {last}, indexToEntity - {size - 1}, size - 1);
      assert entityToIndex.Keys == (entityToIndex - {last}).Keys + {last};
    }
  }

  /** Each entity of the index map with the value at its dense position. */
  ghost function ValuesOf<P>(entityToIndex: map<Entity, nat>, values: seq<P>): map<Entity, P>
  {
    map e | e in entityToIndex && entityToIndex[e] < |values| :: values[entityToIndex[e]]
  }

  /** The entities at dense positions 0 .. size - 1, in that order. */
  ghost function EntitiesInOrder(indexToEntity: map<nat, Entity>, size: nat): seq<Entity>
    requires forall i: nat :: i < size ==> i in indexToEntity
  {
    seq(size, i requires 0 <= i < size => indexToEntity[i])
  }

  /** Appending an absent entity at position `size` keeps the maps dense and inverse. */
  lemma AppendKeepsDense(entityToIndex: map<Entity, nat>, indexToEntity: map<nat, Entity>, size: nat, entity: Entity)
    requires DenseMaps(entityToIndex, indexToEntity, size) && entity !in entityToIndex
    ensures DenseMaps(entityToIndex[entity := size], indexToEntity[size := entity], size + 1)
  {
    var e2i, i2e := entityToIndex[entity := size], indexToEntity[size := entity];
    assert forall i: nat :: i in i2e <==> i < size + 1 by {
      forall i: nat ensures i in i2e <==> i < size + 1 {
        assert i in indexToEntity <==> i < size;
      }
    }
    assert forall e :: e in e2i ==> e2i[e] < size + 1 && i2e[e2i[e]] == e by {
      forall e | e in e2i ensures e2i[e] < size + 1 && i2e[e2i[e]] == e {
        if e != entity {
          assert indexToEntity[entityToIndex[e]] == e;
        }
      }
    }
    assert forall i :: i in i2e ==> i2e[i] in e2i && e2i[i2e[i]] == i by {
      forall i | i in i2e ensures i2e[i] in e2i && e2i[i2e[i]] == i {
        if i != size {
          assert entityToIndex[indexToEntity[i]] == i;
        }
      }
    }
  }

  /** After an append, the new entity reads the appended value and every other entity its old one. */
  lemma AppendValues<P>(entityToIndex: map<Entity, nat>, indexToEntity: map<nat, Entity>, size: nat,
                        values: seq<P>, entity: Entity, value: P)
    requires DenseMaps(entityToIndex, indexToEntity, size) && entity !in entityToIndex
    requires size < |values|
    ensures ValuesOf(entityToIndex[entity := size], values[size := value]) ==
      ValuesOf(entityToIndex, values)[entity := value]
  {
    var e2i, values' := entityToIndex[entity := size], values[size := value];
    forall e | e in entityToIndex ensures values'[e2i[e]] == values[entityToIndex[e]] {
      assert entityToIndex[e] < size;
    }
  }

  /** After an append, the dense order is the old order followed by the new entity. */
  lemma AppendOrder(indexToEntity: map<nat, Entity>, size: nat, entity: Entity)
    requires forall i: nat :: i < size ==> i in indexToEntity
    ensures EntitiesInOrder(indexToEntity[size := entity], size + 1) == EntitiesInOrder(indexToEntity, size) + [entity]
  {
  }

  /**
   * Moving the last entity into the removed entity's position, then erasing
   * the removed entity and the last position, keeps the maps dense and inverse.
   */
  lemma SwapRemoveKeepsDense(entityToIndex: map<Entity, nat>, indexToEntity: map<nat, Entity>,
                             size: nat, entity: Entity)
    requires DenseMaps(entityToIndex, indexToEntity, size) && entity in entityToIndex
    ensures size >= 1 && size - 1 in indexToEntity
    ensures var slot, last := entityToIndex[entity], indexToEntity[size - 1];
      DenseMaps(entityToIndex[last := slot] - {entity}, indexToEntity[slot := last] - {size - 1}, size - 1)
  {
    var slot, last := entityToIndex[entity], indexToEntity[size - 1];
    var e2i, i2e := entityToIndex[last := slot] - {entity}, indexToEntity[slot := last] - {size - 1};
    forall e | e in e2i ensures e2i[e] < size - 1 && i2e[e2i[e]] == e {
      if e == last {
        assert entityToIndex[last] == size - 1;
      } else {
        assert indexToEntity[entityToIndex[e]] == e;
      }
    }
    forall i | i in i2e ensures i2e[i] in e2i && e2i[i2e[i]] == i {
      if i != slot {
        assert entityToIndex[indexToEntity[i]] == i;
      }
    }
  }

  /**
   * After a swap-remove, the removed entity has no value and every remaining
   * entity, the moved one included, reads the value it had.
   */
  lemma SwapRemoveValues<P>(entityToIndex: map<Entity, nat>, indexToEntity: map<nat, Entity>,
                            size: nat, values: seq<P>, entity: Entity)
    requires DenseMaps(entityToIndex, indexToEntity, size) && entity in entityToIndex
    requires size <= |values|
    ensures size >= 1 && size - 1 in indexToEntity
    ensures var slot, last := entityToIndex[entity], indexToEntity[size - 1];
      ValuesOf(entityToIndex[last := slot] - {entity}, values[slot := values[size - 1]]) ==
      ValuesOf(entityToIndex, values) - {entity}
  {
    var slot, last := entityToIndex[entity], indexToEntity[size - 1];
    var e2i, values' := entityToIndex[last := slot] - {entity}, values[slot := values[size - 1]];
    assert e2i.Keys == entityToIndex.Keys - {entity};
    forall e | e in e2i ensures values'[e2i[e]] == values[entityToIndex[e]] {
      if e == last {
        assert entityToIndex[last] == size - 1;
      } else {
        assert indexToEntity[entityToIndex[e]] == e;
        assert indexToEntity[slot] == entity;
      }
    }
  }

  /** After a swap-remove, the order is the old one with the last entity moved into the hole, then cut. */
  lemma SwapRemoveOrder(entityToIndex: map<Entity, nat>, indexToEntity: map<nat, Entity>, size: nat, entity: Entity)
    requires DenseMaps(entityToIndex, indexToEntity, size) && entity in entityToIndex
    requires size >= 1 && size - 1 in indexToEntity
    requires var slot, last := entityToIndex[entity], indexToEntity[size - 1];
      DenseMaps(entityToIndex[last := slot] - {entity}, indexToEntity[slot := last] - {size - 1}, size - 1)
    ensures var slot, last := entityToIndex[entity], indexToEntity[size - 1];
      EntitiesInOrder(indexToEntity[slot := last] - {size - 1}, size - 1) ==
      EntitiesInOrder(indexToEntity, size)[slot := last][..size - 1]
  {
    assert entityToIndex[entity] < size;
  }

  class ComponentArray<P(0)> {
    /** m_components */
    var components: seq<P>
    /** m_entityToIndex */
    var entityToIndex: map<Entity, nat>
    /** m_indexToEntity */
    var indexToEntity: map<nat, Entity>
    /** m_validSize */
    var validSize: nat

    ghost predicate Valid()
      reads this
    {
      |components| == MAX_ENTITIES &&
      validSize <= MAX_ENTITIES &&
      DenseMaps(entityToIndex, indexToEntity, validSize)
    }

    /** The entities holding this component, with their values. */
    ghost function Contents(): map<Entity, P>
      reads this
    {
      ValuesOf(entityToIndex, components)
    }

    /** Under the invariant, the holders are the entity map's keys, as many as the store's size. */
    lemma ContentsKeys()
      requires Valid()
      ensures Contents().Keys == entityToIndex.Keys && |Contents().Keys| == validSize
    {
      DenseSize(entityToIndex, indexToEntity, validSize);
    }

    /** The entities in dense order. */
    ghost function DenseEntities(): seq<Entity>
      reads this
      requires Valid()
    {
      EntitiesInOrder(indexToEntity, validSize)
    }

    /** The stored values in dense order. */
    ghost function DenseValues(): seq<P>
      reads this
      requires Valid()
    {
      components[..validSize]
    }

    /** A fresh store is empty (make_shared value-initializes m_validSize to 0). */
    constructor ()
      ensures Valid()
      ensures Contents() == map[] && validSize == 0
    {
      var blank: P := *;
      components := seq(MAX_ENTITIES, _ => blank);
      entityToIndex := map[];
      indexToEntity := map[];
      validSize := 0;
    }

    /**
     * insertData: the entity must not hold the component yet. The value goes to
     * dense position validSize, which must lie inside the fixed array.
     */
    method InsertData(entity: Entity, component: P)
      requires Valid() && entity !in entityToIndex
      requires validSize < MAX_ENTITIES
      modifies this
      ensures Valid()
      ensures validSize == old(validSize) + 1
      ensures entity in entityToIndex && entityToIndex[entity] == old(validSize)
      ensures Contents() == old(Contents())[entity := component]
      ensures DenseEntities() == old(DenseEntities()) + [entity]
      ensures DenseValues() == old(DenseValues()) + [component]
    {
      AppendKeepsDense(entityToIndex, indexToEntity, validSize, entity);
      AppendValues(entityToIndex, indexToEntity, validSize, components, entity, component);
      AppendOrder(indexToEntity, validSize, entity);
      var tmp := validSize;
      entityToIndex := entityToIndex[entity := tmp];
      indexToEntity := indexToEntity[tmp := entity];
      components := components[tmp := component];
      validSize := validSize + 1;
    }

    /**
     * removeData: the entity must hold the component. The last dense entity
     * and its value move into the freed position, every other entity keeps
     * its position and value, and the store shrinks by one. This holds also
     * when the removed entity is itself the last one.
     */
    method RemoveData(entity: Entity)
      requires Valid() && entity in entityToIndex
      modifies this
      ensures Valid()
      ensures validSize == old(validSize) - 1
      ensures Contents() == old(Contents()) - {entity}
      ensures DenseEntities() ==
        old(DenseEntities())[old(entityToIndex[entity]) := old(DenseEntities()[validSize - 1])][..validSize]
      ensures DenseValues() ==
        old(DenseValues())[old(entityToIndex[entity]) := old(DenseValues()[validSize - 1])][..validSize]
    {
      SwapRemoveKeepsDense(entityToIndex, indexToEntity, validSize, entity);
      SwapRemoveValues(entityToIndex, indexToEntity, validSize, components, entity);
      SwapRemoveOrder(entityToIndex, indexToEntity, validSize, entity);
      var tmp := entityToIndex[entity];
      components := components[tmp := components[validSize - 1]];
      var entityLast := indexToEntity[validSize - 1];
      // the moved entity's entry is written before the removed one is erased
      entityToIndex := entityToIndex[entityLast := tmp] - {entity};
      indexToEntity := indexToEntity[tmp := entityLast] - {validSize - 1};
      validSize := validSize - 1;
    }

    /** hasComponent */
    function HasComponent(entity: Entity): (present: bool)
      reads this
      requires Valid()
      ensures present <==> entity in Contents()
    {
      entity in entityToIndex
    }

    /** getData: the value the entity holds (the source hands out a reference to it). */
    function GetData(entity: Entity): (component: P)
      reads this
      requires Valid() && entity in entityToIndex
      ensures entity in Contents() && component == Contents()[entity]
    {
      components[entityToIndex[entity]]
    }

    /** entityDestroyed: removeData when the entity holds the component, nothing otherwise. */
    method EntityDestroyed(entity: Entity)
      requires Valid()
      modifies this
      ensures Valid()
      ensures Contents() == old(Contents()) - {entity}
      ensures entity !in old(entityToIndex) ==>
        entityToIndex == old(entityToIndex) && indexToEntity == old(indexToEntity) &&
        components == old(components) && validSize == old(validSize)
      ensures entity in old(entityToIndex) ==> validSize == old(validSize) - 1
      ensures entity in old(entityToIndex) ==>
        DenseEntities() == old(DenseEntities())[old(entityToIndex[entity]) := old(DenseEntities()[validSize - 1])][..validSize]
      ensures entity in old(entityToIndex) ==>
        DenseValues() == old(DenseValues())[old(entityToIndex[entity]) := old(DenseValues()[validSize - 1])][..validSize]
    {
      if entity in entityToIndex {
        RemoveData(entity);
      }
    }
  }
}
