/**
 * PositionQueue<T>: a list with a public read cursor. Pop hands out the
 * element under the cursor and moves the cursor on; nothing is ever removed
 * from the list, so the consumed prefix stays available.
 */
module PositionQueues {

  /** The growable list object the queue works on; other holders may share it. */
  class List<T> {
    var Items: seq<T>

    constructor (items: seq<T>)
      ensures Items == items
    {
      Items := items;
    }
  }

  class PositionQueue<T> {
    var InternalList: List<T>
    var Position: int
    /** default(T), what Peek and Pop hand out past the end. */
    const Default: T

    /** The cursor lies within the list (both fields are public, so this is not automatic). */
    ghost predicate Valid()
      reads this, InternalList
    {
      0 <= Position <= |InternalList.Items|
    }

    /** Builds the queue over a fresh list holding a copy of objs. */
    constructor (objs: seq<T>, Default: T)
      ensures fresh(InternalList) && InternalList.Items == objs
      ensures Position == 0 && this.Default == Default
      ensures Valid()
    {
      InternalList := new List(objs);
      Position := 0;
      this.Default := Default;
    }

    /** Builds the queue over the caller's own list object, which stays shared. */
    constructor Wrap(objs: List<T>, Default: T)
      ensures InternalList == objs && InternalList.Items == old(objs.Items)
      ensures Position == 0 && this.Default == Default
      ensures Valid()
    {
      InternalList := objs;
      Position := 0;
      this.Default := Default;
    }

    /** The consumed part of the list. */
    function GetPassed(): (r: seq<T>)
      requires Valid()
      reads this, InternalList
      ensures |r| == Position && r <= InternalList.Items
    {
      InternalList.Items[..Position]
    }

    /** The part of the list not yet consumed; with the consumed part it makes the whole list. */
    function GetConsumable(): (r: seq<T>)
      requires Valid()
      reads this, InternalList
      ensures |r| == |InternalList.Items| - Position
      ensures GetPassed() + r == InternalList.Items
    {
      InternalList.Items[Position..]
    }

    /** The next element, or Default once everything is consumed. A negative cursor is an index error. */
    function Peek(): (r: T)
      requires 0 <= Position
      reads this, InternalList
      ensures Valid() && GetConsumable() != [] ==> r == GetConsumable()[0]
      ensures |InternalList.Items| <= Position ==> r == Default
    {
      if |InternalList.Items| <= Position then Default else InternalList.Items[Position]
    }

    /**
     * True once at most one element is left to consume: the comparison is
     * against Count - 1, so the last element still counts as the end.
     */
    function AtEnd(): (r: bool)
      reads this, InternalList
      ensures Valid() ==> (r <==> |GetConsumable()| <= 1)
    {
      Position >= |InternalList.Items| - 1
    }

    /** Appends obj to the shared list; the cursor stays where it is. */
    method Push(obj: T)
      modifies InternalList
      ensures InternalList.Items == old(InternalList.Items) + [obj]
      ensures old(Valid()) ==> Valid() && GetPassed() == old(GetPassed())
    {
      InternalList.Items := InternalList.Items + [obj];
    }

    /** Hands out what Peek shows and advances the cursor past it, if there is one. */
    method Pop() returns (r: T)
      requires 0 <= Position
      modifies this
      ensures r == old(Peek())
      ensures InternalList == old(InternalList)
      ensures Position == if old(Position) < |InternalList.Items| then old(Position) + 1 else old(Position)
      ensures old(Valid()) ==> Valid()
      ensures old(Valid()) && old(GetConsumable()) != [] ==>
        GetPassed() == old(GetPassed()) + [r] && GetConsumable() == old(GetConsumable())[1..]
    {
      if |InternalList.Items| <= Position {
        return Default;
      }
      r := InternalList.Items[Position];
      Position := Position + 1;
    }

    /** Empties the (possibly shared) list and rewinds the cursor. */
    method Clear()
      modifies this, InternalList
      ensures InternalList == old(InternalList)
      ensures Position == 0 && InternalList.Items == []
      ensures Valid()
    {
      Position := 0;
      InternalList.Items := [];
    }

    /** Rewinds the cursor, so everything becomes consumable again. */
    method ResetPosition()
      modifies this
      ensures InternalList == old(InternalList)
      ensures Position == 0 && Valid()
      ensures GetConsumable() == InternalList.Items
    {
      Position := 0;
    }
  }
}
