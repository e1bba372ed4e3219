/** The inventory's hover navigation: an array of graph nodes laid out as a grid, and a
    cursor on the one node that is hovered, moved by directional input. */
module Inventory {
  import opened Actions
  import opened Nullables
  import opened GraphNodes
  import opened GridLayout

  /** The largest slot count ChangeSlotCount accepts. */
  const MaxSlots := 28
  /** The column count the manager starts with. */
  const StartColumns := 7

  /** A scene object held in a slot; only its name is observable here. */
  datatype GameObject = GameObject(name: string)

  /** A slot's payload, null when the slot holds nothing. */
  type Payload = Nullable<GameObject>

  /** What one input tick makes visible to the outside: nothing, or which branch the
      selection took. */
  datatype Effect = NoEffect | ItemSelected(name: string) | NoItemToSelect

  function Distance(a: int, b: int): (r: nat)
  {
    if a <= b then b - a else a - b
  }

  /** The clamp of the game engine's maths library: the point of `[min, max]` nearest to
      `value`. */
  function Clamp(value: int, min: int, max: int): (r: int)
    requires min <= max
    ensures min <= r <= max
    ensures forall k :: min <= k <= max ==> Distance(r, value) <= Distance(k, value)
  {
    if value < min then min else if value > max then max else value
  }

  class InventoryManager {
    var currentlyHoveredItem: GraphNode?<Payload>
    var columns: int
    var numOfSlots: int
    var itemSlots: array<GraphNode?<Payload>>
    /** The index of currentlyHoveredItem in itemSlots. */
    ghost var current: nat

    /** The graph invariant: every slot holds its own node, linked exactly by the grid
        rule, and exactly one node, the current one, is hovered. */
    ghost predicate Valid()
      reads this, itemSlots, itemSlots[..]
    {
      columns >= 1 &&
      1 <= numOfSlots <= MaxSlots && itemSlots.Length == numOfSlots &&
      (forall i :: 0 <= i < numOfSlots ==>
         itemSlots[i] != null && itemSlots[i].neighbors == Links(i, numOfSlots, columns)) &&
      (forall i, j :: 0 <= i < j < numOfSlots ==> itemSlots[i] != itemSlots[j]) &&
      current < numOfSlots && currentlyHoveredItem == itemSlots[current] &&
      (forall i :: 0 <= i < numOfSlots ==> (itemSlots[i].isHovered <==> i == current))
    }

    /** The slots whose node is hovered. */
    ghost function HoveredSlots(): set<int>
      reads this, itemSlots, itemSlots[..]
      requires Valid()
    {
      set i | 0 <= i < numOfSlots && itemSlots[i].isHovered
    }

    /** In a valid graph exactly one node is hovered, the one the cursor names. */
    lemma ExactlyOneHovered()
      requires Valid()
      ensures HoveredSlots() == {current}
      ensures itemSlots[current].isHovered
    {
    }

    /** Start-up: seven columns and the largest inventory. */
    constructor ()
      ensures Valid()
      ensures columns == StartColumns && numOfSlots == MaxSlots && current == 0
      ensures fresh(itemSlots)
      ensures forall i :: 0 <= i < numOfSlots ==> fresh(itemSlots[i]) && itemSlots[i].value == Null
    {
      currentlyHoveredItem := null;
      columns := StartColumns;
      numOfSlots := 0;
      itemSlots := new GraphNode?<Payload>[0];
      current := 0;
      new;
      ChangeSlotCount(MaxSlots);
    }

    function GetColumnsCount(): (r: int)
      reads this, itemSlots, itemSlots[..]
      requires Valid()
      ensures r >= 1 && r == columns
    {
      columns
    }

    /** The slot count is the length of the node array. */
    function GetSlotsCount(): (r: int)
      reads this, itemSlots, itemSlots[..]
      requires Valid()
      ensures 1 <= r <= MaxSlots && r == numOfSlots
    {
      itemSlots.Length
    }

    /** Clamps the requested count into [1, MaxSlots] and replaces the whole graph by a
        freshly built one, hovered at slot 0; the node hovered before is unhovered. */
    method ChangeSlotCount(newSlotCount: int)
      requires columns >= 1
      modifies this, currentlyHoveredItem
      ensures Valid()
      ensures numOfSlots == Clamp(newSlotCount, 1, MaxSlots)
      ensures columns == old(columns) && current == 0
      ensures fresh(itemSlots)
      ensures forall i :: 0 <= i < numOfSlots ==> fresh(itemSlots[i]) && itemSlots[i].value == Null
      ensures old(currentlyHoveredItem) != null ==>
        !old(currentlyHoveredItem).isHovered &&
        old(currentlyHoveredItem).value == old(currentlyHoveredItem.value) &&
        old(currentlyHoveredItem).neighbors == old(currentlyHoveredItem.neighbors)
    {
      numOfSlots := Clamp(newSlotCount, 1, MaxSlots);
      itemSlots := CreateInventoryGraphArray(numOfSlots, columns);
    }

    /** Builds `numOfSlots` fresh nodes, links each to its grid neighbours and hovers the
        first. The guards read the parameter `numOfColumns`, the offsets the field
        `columns`; they must agree. */
    method CreateInventoryGraphArray(numOfSlots: int, numOfColumns: int)
      returns (slots: array<GraphNode?<Payload>>)
      requires numOfSlots >= 1 && numOfColumns >= 1 && numOfColumns == columns
      modifies this`currentlyHoveredItem, this`current, currentlyHoveredItem
      ensures fresh(slots) && slots.Length == numOfSlots
      ensures forall i :: 0 <= i < numOfSlots ==>
        slots[i] != null && fresh(slots[i]) && slots[i].value == Null &&
        slots[i].neighbors == Links(i, numOfSlots, columns) &&
        (slots[i].isHovered <==> i == 0)
      ensures forall i, j :: 0 <= i < j < numOfSlots ==> slots[i] != slots[j]
      ensures currentlyHoveredItem == slots[0] && current == 0
      ensures old(currentlyHoveredItem) != null ==>
        !old(currentlyHoveredItem).isHovered &&
        old(currentlyHoveredItem).value == old(currentlyHoveredItem.value) &&
        old(currentlyHoveredItem).neighbors == old(currentlyHoveredItem.neighbors)
    {
      slots := NewUnlinkedSlots(numOfSlots);
      LinkSlots(slots, numOfSlots, numOfColumns);
      assert old(currentlyHoveredItem) != null ==>
        old(currentlyHoveredItem).value == old(currentlyHoveredItem.value) &&
        old(currentlyHoveredItem).neighbors == old(currentlyHoveredItem.neighbors);

      SetNewHoveredItem(slots[0]);
      current := 0;
    }

    /** The second pass of the construction: links every slot of `slots` by the grid rule,
        touching nothing else. */
    method LinkSlots(slots: array<GraphNode?<Payload>>, numOfSlots: int, numOfColumns: int)
      requires slots.Length == numOfSlots && numOfColumns >= 1 && numOfColumns == columns
      requires forall i :: 0 <= i < numOfSlots ==> slots[i] != null && slots[i].neighbors == NoLinks()
      requires forall i, j :: 0 <= i < j < numOfSlots ==> slots[i] != slots[j]
      modifies slots[..]
      ensures forall i :: 0 <= i < numOfSlots ==>
        slots[i].neighbors == Links(i, numOfSlots, columns) &&
        slots[i].value == old(slots[i].value) && slots[i].isHovered == old(slots[i].isHovered)
    {
      ghost var nodes := slots[..];
      var i := 0;
      while i < numOfSlots
        invariant 0 <= i <= numOfSlots
        invariant forall j :: 0 <= j < numOfSlots ==>
          nodes[j].value == old(nodes[j].value) && nodes[j].isHovered == old(nodes[j].isHovered)
        invariant forall j :: 0 <= j < i ==> nodes[j].neighbors == Links(j, numOfSlots, columns)
        invariant forall j :: i <= j < numOfSlots ==> nodes[j].neighbors == NoLinks()
      {
        assert slots[i] == nodes[i];
        assert forall j :: 0 <= j < numOfSlots && j != i ==> nodes[j] != nodes[i];
        LinkSlot(slots[i], i, numOfSlots, numOfColumns);
        i := i + 1;
      }
      assert slots[..] == nodes;
    }

    /** The first pass of the construction: an array of `numOfSlots` fresh nodes, each with
        a null payload, no neighbours and no hover. */
    static method NewUnlinkedSlots(numOfSlots: int) returns (slots: array<GraphNode?<Payload>>)
      requires numOfSlots >= 0
      ensures fresh(slots) && slots.Length == numOfSlots
      ensures forall i :: 0 <= i < numOfSlots ==>
        slots[i] != null && fresh(slots[i]) && slots[i].value == Null &&
        slots[i].neighbors == NoLinks() && !slots[i].isHovered
      ensures forall i, j :: 0 <= i < j < numOfSlots ==> slots[i] != slots[j]
    {
      slots := new GraphNode?<Payload>[numOfSlots];
      var i := 0;
      while i < numOfSlots
        modifies slots
        invariant 0 <= i <= numOfSlots
        invariant forall j :: 0 <= j < i ==>
          slots[j] != null && fresh(slots[j]) && slots[j].value == Null &&
          slots[j].neighbors == NoLinks() && !slots[j].isHovered
        invariant forall j, k :: 0 <= j < k < i ==> slots[j] != slots[k]
      {
        slots[i] := new GraphNode(Null);
        i := i + 1;
      }
    }

    /** The body of the linking pass for slot `i`: binds each neighbour whose guard holds. */
    method LinkSlot(node: GraphNode<Payload>, i: int, numOfSlots: int, numOfColumns: int)
      requires 0 <= i < numOfSlots && numOfColumns >= 1 && numOfColumns == columns
      requires node.neighbors == NoLinks()
      modifies node
      ensures node.neighbors == Links(i, numOfSlots, columns)
      ensures node.value == old(node.value) && node.isHovered == old(node.isHovered)
    {
      ghost var up, right := Neighbor(i, Up, numOfSlots, columns), Neighbor(i, Right, numOfSlots, columns);
      ghost var down, left := Neighbor(i, Down, numOfSlots, columns), Neighbor(i, Left, numOfSlots, columns);
      if i / numOfColumns > 0 {
        node.SetNeighbor(Up, Ref(i - columns));
        assert node.neighbors == NoLinks()[Up := up];
      } else {
        assert node.neighbors == NoLinks()[Up := up];
      }
      ghost var m1 := node.neighbors;
      if i % numOfColumns < numOfColumns - 1 && i + 1 < numOfSlots {
        node.SetNeighbor(Right, Ref(i + 1));
      }
      assert node.neighbors == m1[Right := right];
      ghost var m2 := node.neighbors;
      if i + numOfColumns < numOfSlots {
        node.SetNeighbor(Down, Ref(i + columns));
      }
      assert node.neighbors == m2[Down := down];
      ghost var m3 := node.neighbors;
      if i % numOfColumns > 0 {
        node.SetNeighbor(Left, Ref(i - 1));
      }
      assert node.neighbors == m3[Left := left];
      LinksAsUpdates(i, numOfSlots, columns);
    }

    /** Unhovers the node hovered so far, if any, and hovers the given one. */
    method SetNewHoveredItem(hoveredItem: GraphNode<Payload>)
      modifies this`currentlyHoveredItem, currentlyHoveredItem, hoveredItem
      ensures currentlyHoveredItem == hoveredItem && hoveredItem.isHovered
      ensures old(currentlyHoveredItem) != null && old(currentlyHoveredItem) != hoveredItem ==>
        !old(currentlyHoveredItem).isHovered
      ensures hoveredItem.value == old(hoveredItem.value)
      ensures hoveredItem.neighbors == old(hoveredItem.neighbors)
      ensures old(currentlyHoveredItem) != null ==>
        old(currentlyHoveredItem).value == old(currentlyHoveredItem.value) &&
        old(currentlyHoveredItem).neighbors == old(currentlyHoveredItem.neighbors)
    {
      if currentlyHoveredItem != null {
        currentlyHoveredItem.SetHovered(false);
      }
      hoveredItem.SetHovered(true);
      currentlyHoveredItem := hoveredItem;
    }

    /** Follows the edge from the hovered node toward `direction` when there is one;
        otherwise nothing changes. */
    method MoveHoveredSlot(direction: Action)
      requires Valid() && direction.IsDirection()
      modifies this`currentlyHoveredItem, this`current, itemSlots[..]
      ensures Valid()
      ensures itemSlots == old(itemSlots) && numOfSlots == old(numOfSlots) && columns == old(columns)
      ensures current == Moved(old(current), direction, numOfSlots, columns)
      ensures forall i :: 0 <= i < numOfSlots ==> itemSlots[i].value == old(itemSlots[i].value)
      ensures Neighbor(old(current), direction, numOfSlots, columns) == Null ==>
        currentlyHoveredItem == old(currentlyHoveredItem) &&
        forall i :: 0 <= i < numOfSlots ==> itemSlots[i].isHovered == old(itemSlots[i].isHovered)
    {
      var target := currentlyHoveredItem.GetNeighbor(direction);
      if target != Null {
        ghost var prev := current;
        SetNewHoveredItem(itemSlots[target.target]);
        current := target.target;
        forall i | 0 <= i < numOfSlots
          ensures itemSlots[i].neighbors == old(itemSlots[i].neighbors)
          ensures itemSlots[i].value == old(itemSlots[i].value)
          ensures itemSlots[i].isHovered <==> i == current
        {
          if i != prev && i != current {
            assert itemSlots[i] != itemSlots[prev] && itemSlots[i] != itemSlots[current];
          }
        }
      }
    }

    /** Reports which branch selection takes: the payload's name, or that there is none. */
    method SelectItem(selectedItem: GraphNode<Payload>) returns (effect: Effect)
      ensures effect != NoEffect
      ensures effect.ItemSelected? <==> selectedItem.value.Ref?
      ensures effect.ItemSelected? ==> effect.name == selectedItem.value.target.name
    {
      if selectedItem.value != Null {
        effect := ItemSelected(selectedItem.value.target.name);
      } else {
        effect := NoItemToSelect;
      }
    }

    /** One input tick: `None` does nothing, `Select` reports on the hovered node, and a
        direction moves the cursor. */
    method InterpretAction(action: Action) returns (effect: Effect)
      requires Valid()
      modifies this`currentlyHoveredItem, this`current, itemSlots[..]
      ensures Valid()
      ensures itemSlots == old(itemSlots) && numOfSlots == old(numOfSlots) && columns == old(columns)
      ensures current == Interpreted(old(current), action, numOfSlots, columns)
      ensures forall i :: 0 <= i < numOfSlots ==> itemSlots[i].value == old(itemSlots[i].value)
      ensures !action.IsDirection() ==>
        currentlyHoveredItem == old(currentlyHoveredItem) &&
        forall i :: 0 <= i < numOfSlots ==> itemSlots[i].isHovered == old(itemSlots[i].isHovered)
      ensures action != Select ==> effect == NoEffect
      ensures action == Select ==>
        effect != NoEffect && (effect.ItemSelected? <==> currentlyHoveredItem.value.Ref?) &&
        (effect.ItemSelected? ==> effect.name == currentlyHoveredItem.value.target.name)
    {
      if action == None {
        effect := NoEffect;
      } else if action == Select {
        effect := SelectItem(currentlyHoveredItem);
      } else {
        MoveHoveredSlot(action);
        effect := NoEffect;
      }
    }
  }
}
