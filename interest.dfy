/**
 * The per-system decision of the interest tracker
 * (SystemManager::entityComponentMaskChanged and ::entityDestroyed,
 * ecs/ntshengn_ecs.h:261-304), as functions on one system's state.
 *
 * A system's hooks are recorded as events appended to its own log, so the
 * order in which they fire can be stated.
 */
module Interest {
  import opened ComponentMasks

  /**
   * A call of onEntityComponentAdded / onEntityComponentRemoved, with the
   * system's own entities set as the hook can read it when called.
   */
  datatype Event =
    | Added(entity: Entity, component: Component, seen: set<Entity>)
    | Removed(entity: Entity, component: Component, seen: set<Entity>)

  /** What the tracker knows of one system: System::entities and its hook calls so far. */
  datatype SystemState = SystemState(entities: set<Entity>, events: seq<Event>)

  /** How the relevant part of a mask changed, judged as the source judges it. */
  datatype MaskChange = Unchanged | Gained | Lost

  /** The entities among the first |masks| whose mask overlaps `interest`. */
  function Members(masks: seq<ComponentMask>, interest: ComponentMask): set<Entity>
  {
    set e | 0 <= e < |masks| && masks[e] * interest != {}
  }

  /**
   * The relevant masks differ and are compared as unsigned numbers (lines
   * 287-296). Since to_ulong tells masks apart, a change is reported exactly
   * when the relevant bits differ: the comparison's last case never applies.
   */
  function Classify(oldMask: ComponentMask, newMask: ComponentMask, interest: ComponentMask): (r: MaskChange)
    ensures r == Unchanged <==> oldMask * interest == newMask * interest
  {
    var oldRelevant := oldMask * interest;
    var newRelevant := newMask * interest;
    ToUlongInjective(oldRelevant, newRelevant);
    if oldRelevant == newRelevant then Unchanged
    else if ToUlong(newRelevant) > ToUlong(oldRelevant) then Gained
    else if ToUlong(newRelevant) < ToUlong(oldRelevant) then Lost
    else Unchanged
  }

  /** Masks that differ exactly in bit c, as addComponent and removeComponent produce them. */
  predicate SingleBitChange(oldMask: ComponentMask, newMask: ComponentMask, c: Component)
  {
    (c !in oldMask && newMask == oldMask + {c}) || (c in oldMask && newMask == oldMask - {c})
  }

  /**
   * One system's reaction to a mask change of entity e in bit c (lines 287-301).
   * The hook fires before the entities set changes, so it sees the old set.
   */
  function OnMaskChanged(s: SystemState, interest: ComponentMask, e: Entity,
                         oldMask: ComponentMask, newMask: ComponentMask, c: Component): (r: SystemState)
    // only e's membership can change, and at most one hook naming e and c fires
    ensures r.entities - {e} == s.entities - {e}
    ensures r.events == s.events || r.events == s.events + [Added(e, c, s.entities)] ||
            r.events == s.events + [Removed(e, c, s.entities)]
    // e joins only with an Added hook and leaves only with a Removed hook
    ensures e in r.entities && e !in s.entities ==> r.events == s.events + [Added(e, c, s.entities)]
    ensures e in s.entities && e !in r.entities ==> r.events == s.events + [Removed(e, c, s.entities)]
  {
    match Classify(oldMask, newMask, interest)
    case Gained =>
      SystemState(if oldMask * interest == {} then s.entities + {e} else s.entities,
                  s.events + [Added(e, c, s.entities)])
    case Lost =>
      SystemState(if newMask * interest == {} then s.entities - {e} else s.entities,
                  s.events + [Removed(e, c, s.entities)])
    case Unchanged => s
  }

  /**
   * Removed(e, i) for every i below n in `relevant`, in increasing i (lines
   * 269-274); every hook sees the entities set `seen`, which the loop does not
   * change.
   */
  function RemovalEvents(e: Entity, relevant: ComponentMask, n: nat, seen: set<Entity>): (r: seq<Event>)
    requires n <= MAX_COMPONENTS
    ensures |r| <= n
  {
    if n == 0 then []
    else RemovalEvents(e, relevant, n - 1, seen) + (if n - 1 in relevant then [Removed(e, n - 1, seen)] else [])
  }

  /**
   * One system's reaction to the destruction of entity e holding `entityMask`
   * (lines 265-278): all hooks fire before the entity is erased.
   */
  function OnDestroyed(s: SystemState, interest: ComponentMask, e: Entity, entityMask: ComponentMask): (r: SystemState)
    // only e can leave, no one joins, and hooks are only appended
    ensures r.entities <= s.entities && r.entities - {e} == s.entities - {e}
    ensures s.events <= r.events
    // a hook fires exactly when the entity held a component of interest
    ensures r.events == s.events <==> entityMask * interest == {}
  {
    RemovalEventsComplete(e, entityMask * interest, MAX_COMPONENTS, s.entities);
    var relevant := entityMask * interest;
    SystemState(if relevant != {} then s.entities - {e} else s.entities,
                s.events + RemovalEvents(e, relevant, MAX_COMPONENTS, s.entities))
  }

  /**
   * The unsigned comparison is right for a single-bit change: it reports a gain
   * exactly when c is of interest and was set, a loss exactly when c is of
   * interest and was cleared, and nothing when c is not of interest.
   */
  lemma ClassifySingleBit(oldMask: ComponentMask, newMask: ComponentMask, interest: ComponentMask, c: Component)
    requires SingleBitChange(oldMask, newMask, c)
    ensures Classify(oldMask, newMask, interest) ==
      (if c !in interest then Unchanged else if c in newMask then Gained else Lost)
  {
    if c in interest {
      if c in newMask {
        assert newMask * interest == oldMask * interest + {c};
        ToUlongWithBit(oldMask * interest, c);
      } else {
        assert oldMask * interest == newMask * interest + {c};
        ToUlongWithBit(newMask * interest, c);
      }
    } else {
      assert oldMask * interest == newMask * interest;
    }
  }

  /**
   * The comparison is not a general diff: when two bits change at once, a lost
   * bit can be reported as a gain.
   */
  lemma ClassifyMultiBitMisreads()
    ensures Classify({0}, {1}, {0, 1}) == Gained
  {
    var low: ComponentMask, high: ComponentMask := {0}, {1};
    assert {0} * {0, 1} == low && {1} * {0, 1} == high;
    assert ValueBelow(low, 2) == 1 && ValueBelow(high, 2) == 2;
    ValueBelowIgnoresHigh(low, 2, MAX_COMPONENTS);
    ValueBelowIgnoresHigh(high, 2, MAX_COMPONENTS);
  }

  /** The value below n is the same for every n past the highest set bit. */
  lemma {:induction false} ValueBelowIgnoresHigh(m: ComponentMask, lo: nat, n: nat)
    requires lo <= n
    requires forall c :: c in m ==> c < lo
    ensures ValueBelow(m, n) == ValueBelow(m, lo)
  {
    if n > lo {
      ValueBelowIgnoresHigh(m, lo, n - 1);
    }
  }

  /**
   * A single-bit change keeps a system's membership equal to the entities whose
   * mask overlaps its interest (any overlap, not all interest bits), and fires
   * exactly one hook for c when c is of interest and none otherwise. The hook
   * sees the membership from before the change: without e when it is about to
   * join, with e when it is about to leave.
   */
  lemma MaskChangeKeepsMembership(s: SystemState, interest: ComponentMask, masks: seq<ComponentMask>,
                                  e: Entity, newMask: ComponentMask, c: Component)
    requires e < |masks|
    requires s.entities == Members(masks, interest)
    requires SingleBitChange(masks[e], newMask, c)
    ensures OnMaskChanged(s, interest, e, masks[e], newMask, c).entities == Members(masks[e := newMask], interest)
    ensures OnMaskChanged(s, interest, e, masks[e], newMask, c).events ==
      s.events + (if c !in interest then [] else if c in newMask then [Added(e, c, s.entities)] else [Removed(e, c, s.entities)])
    ensures c in interest && masks[e] * interest == {} ==> e !in s.entities
    ensures c in interest && newMask * interest == {} ==> e in s.entities
  {
    ClassifySingleBit(masks[e], newMask, interest, c);
    var r := OnMaskChanged(s, interest, e, masks[e], newMask, c);
    var masks' := masks[e := newMask];
    forall x | 0 <= x < |masks| ensures x in r.entities <==> masks'[x] * interest != {} {
      if x == e && c in interest {
        assert c in newMask ==> c in newMask * interest;
        assert c !in newMask ==> c in masks[e] * interest;
      }
    }
  }

  /**
   * Every removal event names e and a relevant bit below n, in strictly
   * increasing bit order, and sees the entities set `seen`.
   */
  lemma {:induction false} RemovalEventsSound(e: Entity, relevant: ComponentMask, n: nat, seen: set<Entity>)
    requires n <= MAX_COMPONENTS
    ensures forall k :: 0 <= k < |RemovalEvents(e, relevant, n, seen)| ==>
      RemovalEvents(e, relevant, n, seen)[k].Removed? &&
      RemovalEvents(e, relevant, n, seen)[k].entity == e &&
      RemovalEvents(e, relevant, n, seen)[k].component in relevant &&
      RemovalEvents(e, relevant, n, seen)[k].component < n &&
      RemovalEvents(e, relevant, n, seen)[k].seen == seen
    ensures forall j, k :: 0 <= j < k < |RemovalEvents(e, relevant, n, seen)| ==>
      RemovalEvents(e, relevant, n, seen)[j].component < RemovalEvents(e, relevant, n, seen)[k].component
  {
    if n > 0 {
      RemovalEventsSound(e, relevant, n - 1, seen);
    }
  }

  /** Every relevant bit below n has its removal event; there are none when nothing is relevant. */
  lemma {:induction false} RemovalEventsComplete(e: Entity, relevant: ComponentMask, n: nat, seen: set<Entity>)
    requires n <= MAX_COMPONENTS
    ensures forall c: Component :: c in relevant && c < n ==> Removed(e, c, seen) in RemovalEvents(e, relevant, n, seen)
    ensures RemovalEvents(e, relevant, n, seen) == [] <==> forall c: Component :: c < n ==> c !in relevant
  {
    if n > 0 {
      RemovalEventsComplete(e, relevant, n - 1, seen);
      if n - 1 in relevant {
        assert RemovalEvents(e, relevant, n, seen)[|RemovalEvents(e, relevant, n, seen)| - 1] == Removed(e, n - 1, seen);
      }
    }
  }

  /**
   * Destroying e keeps a system's membership equal to the entities whose mask
   * overlaps its interest, with e in no system afterwards; every Removed hook
   * fired for e still sees e among the system's entities.
   */
  lemma DestroyKeepsMembership(s: SystemState, interest: ComponentMask, masks: seq<ComponentMask>, e: Entity)
    requires e < |masks|
    requires s.entities == Members(masks, interest)
    ensures OnDestroyed(s, interest, e, masks[e]).entities == Members(masks[e := {}], interest)
    ensures e !in OnDestroyed(s, interest, e, masks[e]).entities
    ensures forall k :: |s.events| <= k < |OnDestroyed(s, interest, e, masks[e]).events| ==>
      OnDestroyed(s, interest, e, masks[e]).events[k].Removed? &&
      e in OnDestroyed(s, interest, e, masks[e]).events[k].seen
  {
    var relevant := masks[e] * interest;
    RemovalEventsSound(e, relevant, MAX_COMPONENTS, s.entities);
    if relevant != {} {
      assert e in s.entities;
    }
  }
}
