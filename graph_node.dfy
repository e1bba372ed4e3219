/** One slot of the inventory graph: a payload, a neighbour per direction and a hover flag.
    A neighbour is held as the index of that node in the owning graph's node array,
    `Null` where there is no edge. */
module GraphNodes {
  import opened Actions
  import opened Nullables

  /** The neighbour dictionary of a fresh node: all four keys present, every edge absent. */
  function NoLinks(): (m: map<Action, Nullable<int>>)
    ensures m.Keys == Directions
    ensures forall d :: d in m ==> m[d] == Null
  {
    map[Up := Null, Right := Null, Down := Null, Left := Null]
  }

  class GraphNode<T> {
    var value: T
    var neighbors: map<Action, Nullable<int>>
    var isHovered: bool

    /** The dictionary holds exactly the four direction keys the constructors insert. */
    ghost predicate Valid()
      reads this
    {
      neighbors.Keys == Directions
    }

    /** A node with no neighbours, not hovered. */
    constructor (value: T)
      ensures Valid()
      ensures this.value == value && !isHovered
      ensures forall d: Action :: d.IsDirection() ==> GetNeighbor(d) == Null
      ensures neighbors == NoLinks()
    {
      this.value := value;
      neighbors := NoLinks();
      isHovered := false;
    }

    /** A node with the four given neighbours, not hovered. */
    constructor WithNeighbors(value: T, above: Nullable<int>, right: Nullable<int>,
                              below: Nullable<int>, left: Nullable<int>)
      ensures Valid()
      ensures this.value == value && !isHovered
      ensures GetNeighbor(Up) == above && GetNeighbor(Right) == right
      ensures GetNeighbor(Down) == below && GetNeighbor(Left) == left
    {
      this.value := value;
      neighbors := map[Up := above, Right := right, Down := below, Left := left];
      isHovered := false;
    }

    /** The `Hovered` property's getter. */
    function Hovered(): (r: bool)
      reads this
    {
      isHovered
    }

    /** The `Hovered` property's setter: stores the flag and touches nothing else. */
    method SetHovered(hovered: bool)
      modifies this
      ensures Hovered() == hovered
      ensures value == old(value) && neighbors == old(neighbors)
    {
      isHovered := hovered;
    }

    /** Dictionary lookup; only the four direction keys exist. */
    function GetNeighbor(direction: Action): (r: Nullable<int>)
      reads this
      requires Valid() && direction.IsDirection()
      ensures direction in neighbors && r == neighbors[direction]
    {
      neighbors[direction]
    }

    /** Rebinds the neighbour for a key the dictionary holds; any other action is ignored. */
    method SetNeighbor(direction: Action, neighbor: Nullable<int>)
      requires Valid()
      modifies this
      ensures Valid()
      ensures direction.IsDirection() ==> GetNeighbor(direction) == neighbor
      ensures forall d: Action :: d.IsDirection() && d != direction ==> GetNeighbor(d) == old(GetNeighbor(d))
      ensures neighbors == if direction in old(neighbors) then old(neighbors)[direction := neighbor] else old(neighbors)
      ensures !direction.IsDirection() ==> neighbors == old(neighbors)
      ensures value == old(value) && isHovered == old(isHovered)
    {
      if direction in neighbors {
        neighbors := neighbors[direction := neighbor];
      }
    }
  }
}
