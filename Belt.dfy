/**
 * The conveyor-belt element's own state, as far as `spawn` changes it: each
 * call appends one travelling token to the tile and schedules at most one
 * handoff. Styles, timers and the token's removal on `animationend` are
 * not modelled.
 */
module Belt {
  import opened Wrappers
  import opened Directions
  import opened Resolver

  class ConveyorBelt {
    /** The element's id (`this.id`, "" when absent). */
    var id: string
    /** The `direction` attribute, None when absent. */
    var directionAttr: Option<string>
    /** The animation name (`travel-<direction>`) of each token appended so far, oldest first. */
    var tokens: seq<string>

    constructor (id: string, directionAttr: Option<string>)
      ensures this.id == id && this.directionAttr == directionAttr && tokens == []
    {
      this.id := id;
      this.directionAttr := directionAttr;
      tokens := [];
    }

    /** `get direction()`. */
    function Direction(): (r: string)
      reads this
      ensures directionAttr == None || directionAttr == Some("") ==> r == "up-right"
      ensures |r| >= 1 && NoUpperCase(r)
    {
      DirectionText(directionAttr)
    }

    /**
     * `spawn()`: appends one token that travels in the current direction and
     * returns the index, among the parent's descendants, of the tile whose
     * `spawn` is scheduled (None when nothing is scheduled).
     */
    method Spawn(parent: Option<seq<Element>>) returns (handoff: Option<nat>)
      modifies this`tokens
      ensures tokens == old(tokens) + ["travel-" + DirectionText(directionAttr)]
      ensures handoff == HandoffTarget(parent, id, directionAttr)
      ensures handoff.Some? ==> parent.Some? && handoff.value < |parent.value|
      ensures handoff.Some? ==> parent.value[handoff.value].hasSpawn
      ensures handoff.Some? ==> Selects(parent.value[handoff.value], FindNextId(id, directionAttr).value)
    {
      tokens := tokens + ["travel-" + Direction()];
      var next := FindNextBelt(parent, id, directionAttr);
      handoff := None;
      if next.Some? && parent.value[next.value].hasSpawn {
        handoff := next;
      }
    }
  }
}
