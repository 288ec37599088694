/** Primitives kept in the local map: each carries a unique id taken from a
    class-wide counter, and a match slot that records which detected
    primitive it was matched with in the current frame. */
module MapPrimitive {
  import opened ShapePrimitives

  /** An unsigned 8-bit value, the type of the match id. */
  type Uchar = x: int | 0 <= x < 256

  /** The match id meaning "not matched". */
  const UnmatchedPrimitiveId: Uchar := 0

  /** The match slot of a map primitive. */
  class MatchedPrimitive {
    var matchId: Uchar

    /** A new slot is unmatched. */
    constructor()
      ensures matchId == UnmatchedPrimitiveId && !IsMatched()
    {
      matchId := UnmatchedPrimitiveId;
    }

    /** The slot holds a match: its id is not the unmatched id. */
    predicate IsMatched()
      reads this
    {
      matchId != UnmatchedPrimitiveId
    }

    /** Clears the match. The new state does not depend on the old one, so
        clearing twice is clearing once. */
    method MarkUnmatched()
      modifies this
      ensures matchId == UnmatchedPrimitiveId && !IsMatched()
    {
      matchId := UnmatchedPrimitiveId;
    }
  }

  /** The class-wide id counter of map primitives. It starts at 1, since id 0
      is the invalid id; `issued` records the ids handed out so far. */
  class PrimitiveIdCounter {
    var currentPrimitiveId: nat
    ghost var issued: set<nat>

    /** Every id handed out is valid and below the next one. */
    ghost predicate Valid()
      reads this
    {
      currentPrimitiveId >= 1 && forall i :: i in issued ==> 1 <= i < currentPrimitiveId
    }

    constructor()
      ensures Valid() && currentPrimitiveId == 1 && issued == {}
    {
      currentPrimitiveId := 1;
      issued := {};
    }
  }

  /** A map primitive: its id, the detected primitive it stores and its match
      slot. */
  class MapPrimitive {
    const id: nat
    const primitive: Primitive
    const matchedPrimitive: MatchedPrimitive

    /** Takes the counter's current value as id and advances the counter by
        one, so the id is valid and differs from every id handed out before;
        the match slot starts unmatched. */
    constructor(primitive: Primitive, counter: PrimitiveIdCounter)
      requires counter.Valid()
      modifies counter
      ensures id == old(counter.currentPrimitiveId) && counter.currentPrimitiveId == id + 1
      ensures id != 0 && id !in old(counter.issued) && counter.issued == old(counter.issued) + {id}
      ensures counter.Valid()
      ensures this.primitive == primitive
      ensures fresh(matchedPrimitive) && !matchedPrimitive.IsMatched()
    {
      var taken := counter.currentPrimitiveId;
      id := taken;
      this.primitive := primitive;
      matchedPrimitive := new MatchedPrimitive();
      counter.currentPrimitiveId := taken + 1;
      counter.issued := counter.issued + {taken};
    }
  }
}
