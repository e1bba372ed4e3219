# Inventory grid navigation

A model of the navigation core of a grid inventory written for a game engine. The
inventory is a graph of slot nodes laid out row by row, `columns` to a row; each node has
an Up, Right, Down and Left neighbour (or none), and exactly one node is *hovered*.
Directional input moves the hover cursor along an edge when the edge exists; a `Select`
input reports whether the hovered slot holds an item; changing the slot count clamps it
to `[1, 28]` and rebuilds the whole graph, hovered at slot 0.

Modules:

- `Nullables` (`nullable.dfy`): `Nullable<T>`, standing for a C# reference that may be null.
- `Actions` (`actions.dfy`): the `Action` enumeration (`Up`, `Right`, `Down`, `Left`,
  `Select`, `None`), the four direction keys, and `Opposite`.
- `GraphNodes` (`graph_node.dfy`): the class `GraphNode<T>` with its payload `value`, its
  `neighbors` dictionary (exactly the four direction keys) and its `isHovered` flag behind
  the `Hovered()` getter and `SetHovered` setter. `GetNeighbor` is the plain dictionary
  lookup and is defined only for the four direction keys; the contracts below are stated
  through it.
- `DivMod` (`div_mod.dfy`): facts about `/` and `%` used by the proofs.
- `GridLayout` (`grid_layout.dfy`): the construction rule as a pure function of a slot
  index (`Neighbor`, `Links`), its meaning in rows and columns (`Adjacent`), and the hover
  cursor as a pure function of the inputs (`Moved`, `Interpreted`, `Run`). These are the
  specification the class is proved against, and the lemmas about them carry the
  grid's properties: links go exactly to grid-adjacent slots, they are symmetric, a
  successful move is undone by the opposite move, and a blocked move is a no-op.
- `Inventory` (`inventory_manager.dfy`): the class `InventoryManager`. Its invariant
  `Valid()` says that every slot holds its own node, each node's neighbours are exactly
  `Links(i, numOfSlots, columns)`, and exactly one node is hovered: the one
  `currentlyHoveredItem` points to (ghost index `current`).

Representation choices:

- A neighbour is the index of the neighbouring node in the manager's node array, not an
  object reference. The links form a mesh with 4-cycles, so indices are used rather than
  ownership.
- The node array has nullable elements, as in C#. The first pass of
  `CreateInventoryGraphArray` (`NewUnlinkedSlots`) fills it with fresh nodes and the
  second (`LinkSlots`, one `LinkSlot` per node) links them.
- A neighbour index is an `int`; `Neighbor` guarantees that every index it binds lies in
  `[0, n)`.
- `CreateInventoryGraphArray` keeps the source's two names for the column count. Its
  guards read the parameter `numOfColumns` and its offsets read the field `columns`. The
  model requires the two to be equal, which the only caller guarantees.
- Slot indices and column counts are non-negative and positive, so C#'s truncating `/` and
  `%` agree with Dafny's Euclidean ones.
- One might expect Up/Down links to be one-sided next to a ragged last row. The code never
  produces such links: `LinksSymmetric` proves that every link has its reverse, for every
  slot count and column count.

## Model

| member | source | states |
|---|---|---|
| `GraphNodes.NoLinks` | Assets/Scripts/GraphNode.cs:28-32 | a fresh dictionary holds exactly the four direction keys, all null |
| `GraphNodes.GraphNode.constructor` | Assets/Scripts/GraphNode.cs:25-34 | the one-argument node keeps its payload, has all four neighbours null and is not hovered |
| `GraphNodes.GraphNode.WithNeighbors` | Assets/Scripts/GraphNode.cs:43-52 | the five-argument node answers `above`, `right`, `below`, `left` for Up, Right, Down, Left and is not hovered |
| `GraphNodes.GraphNode.SetHovered` | Assets/Scripts/GraphNode.cs:13-17 | after setting `Hovered`, reading it back through the getter `Hovered()` gives the value set; payload and neighbours are unchanged |
| `GraphNodes.GraphNode.GetNeighbor` | Assets/Scripts/GraphNode.cs:61-64 | the lookup is defined only for the four direction keys the constructors insert (its `requires`); for them the key is always present, so the lookup never fails, and it returns the entry stored under that key |
| `GraphNodes.GraphNode.SetNeighbor` | Assets/Scripts/GraphNode.cs:70-74 | for a direction key, `GetNeighbor` afterwards returns the new neighbour and the other three are unchanged; `Select`/`None` leave the dictionary unchanged; payload and hover flag never change |
| `GridLayout.Neighbor` | Assets/Scripts/InventoryManager.cs:157-175 | the neighbour bound to slot `i` in a direction; every bound index is another slot in `[0, n)` |
| `GridLayout.Links` | Assets/Scripts/InventoryManager.cs:157-175 | a built node's dictionary has exactly the four direction keys |
| `GridLayout.NeighborIsAdjacency` | Assets/Scripts/InventoryManager.cs:159-174 | slot `j` is bound as `i`'s neighbour in direction `d` exactly when `j` is the grid cell next to `i` that way (one row up or down in the same column, one column left or right in the same row) |
| `GridLayout.UpIsAdjacency` | Assets/Scripts/InventoryManager.cs:159-161 | the Up link goes exactly to the same column one row higher |
| `GridLayout.RightIsAdjacency` | Assets/Scripts/InventoryManager.cs:163-166 | the Right link goes exactly to the next column of the same row, and only if that slot exists (ragged last row) |
| `GridLayout.DownIsAdjacency` | Assets/Scripts/InventoryManager.cs:168-170 | the Down link goes exactly to the same column one row lower, if that slot exists |
| `GridLayout.LeftIsAdjacency` | Assets/Scripts/InventoryManager.cs:172-174 | the Left link goes exactly to the previous column of the same row |
| `GridLayout.NoNeighborAtBoundary` | Assets/Scripts/InventoryManager.cs:157-175 | a neighbour stays null exactly when no slot of the grid lies in that direction |
| `GridLayout.LinksSymmetric` | Assets/Scripts/InventoryManager.cs:160-174 | `j` is `i`'s neighbour in direction `d` if and only if `i` is `j`'s neighbour in the opposite direction |
| `GridLayout.FirstRowHasNoUp` | Assets/Scripts/InventoryManager.cs:159-161 | no slot of the first row has an Up neighbour |
| `GridLayout.FiveSlotsThreeColumns` | Assets/Scripts/InventoryManager.cs:159-174 | with 5 slots in 3 columns, slots 2 and 4 have no Right neighbour, slot 4 has no Down neighbour, slot 1 has no Up neighbour and its Down neighbour is slot 4 |
| `GridLayout.Moved` | Assets/Scripts/InventoryManager.cs:245-249 | a move keeps the cursor in range, and changes it exactly when the hovered node has a neighbour that way |
| `GridLayout.Interpreted` | Assets/Scripts/InventoryManager.cs:228-239 | `Select` and `None` never move the cursor; the result is always a valid slot |
| `GridLayout.Run` | Assets/Scripts/InventoryManager.cs:228-249 | after any sequence of inputs the cursor is a valid slot |
| `GridLayout.RunAppend` | Assets/Scripts/InventoryManager.cs:228-249 | running two input sequences one after the other is running their concatenation |
| `GridLayout.MoveThenBack` | Assets/Scripts/InventoryManager.cs:245-249 | when the move toward `d` exists, moving toward `d` and then back returns to the start (Right then Left, Down then Up, and the reverses) |
| `GridLayout.BlockedMovesRepeat` | Assets/Scripts/InventoryManager.cs:245-249 | moving any number of times toward a missing neighbour leaves the cursor where it is |
| `GridLayout.RepeatedUpFromFirstSlot` | Assets/Scripts/InventoryManager.cs:245-249 | any number of Up moves from slot 0 leave the cursor at slot 0 |
| `Inventory.Clamp` | Assets/Scripts/InventoryManager.cs:98 | the clamped count lies in `[min, max]` and is the point of that range nearest to the request |
| `Inventory.InventoryManager.constructor` | Assets/Scripts/InventoryManager.cs:56-59 | start-up yields a valid graph of 28 slots in 7 columns hovered at slot 0; the array and all its nodes are fresh and every payload is null |
| `Inventory.InventoryManager.GetColumnsCount` | Assets/Scripts/InventoryManager.cs:77 | the column count is the positive `columns` field |
| `Inventory.InventoryManager.GetSlotsCount` | Assets/Scripts/InventoryManager.cs:83 | the length of the node array equals `numOfSlots` and lies in `[1, 28]` |
| `Inventory.InventoryManager.ChangeSlotCount` | Assets/Scripts/InventoryManager.cs:95-99 | the slot count becomes `Clamp(k, 1, 28)`; the array and all its nodes are fresh and valid; the cursor is at slot 0; the previously hovered node is unhovered and keeps its payload and links |
| `Inventory.InventoryManager.CreateInventoryGraphArray` | Assets/Scripts/InventoryManager.cs:147-182 | the new array has `numOfSlots` distinct fresh nodes, each with a null payload and linked exactly by `Links`; node 0 is the only hovered node and `currentlyHoveredItem` is node 0; the old hovered node is unhovered and keeps its payload and links |
| `Inventory.InventoryManager.NewUnlinkedSlots` | Assets/Scripts/InventoryManager.cs:150-154 | the first pass yields a fresh array of `numOfSlots` distinct fresh nodes, each with a null payload, no neighbours and no hover |
| `Inventory.InventoryManager.LinkSlots` | Assets/Scripts/InventoryManager.cs:156-175 | the second pass leaves every node's dictionary equal to `Links(i, n, c)` and changes no payload and no hover flag |
| `Inventory.InventoryManager.LinkSlot` | Assets/Scripts/InventoryManager.cs:159-174 | one pass of the linking loop turns an unlinked node into one whose dictionary is `Links(i, n, c)` and leaves its payload and flag alone |
| `Inventory.InventoryManager.SetNewHoveredItem` | Assets/Scripts/InventoryManager.cs:255-264 | the given node becomes hovered and current; the node hovered before, if any and different, is unhovered; payloads and links are untouched |
| `Inventory.InventoryManager.MoveHoveredSlot` | Assets/Scripts/InventoryManager.cs:245-249 | the invariant (one hovered node, and it is the current one) is kept; the cursor becomes `Moved(old cursor, d)`; with no neighbour that way, no cursor and no flag changes; payloads are untouched |
| `Inventory.InventoryManager.SelectItem` | Assets/Scripts/InventoryManager.cs:270-276 | the outcome is "item selected", carrying its name, exactly when the payload is non-null, and "no item to select" otherwise |
| `Inventory.InventoryManager.InterpretAction` | Assets/Scripts/InventoryManager.cs:228-239 | the cursor becomes `Interpreted(old cursor, action)`; `None` and `Select` change no flag and no cursor; only `Select` reports an outcome, chosen by whether the hovered payload is null and carrying the hovered item's name when it is not |
| `Inventory.InventoryManager.ExactlyOneHovered` | Assets/Scripts/InventoryManager.cs:255-264 | in a valid graph the set of hovered slots is exactly `{current}` |

## Left out

- The engine lifecycle and the singleton: `Awake`, `Update`, `Destroy`, `Application.Quit`. The constructor stands for the field set-up in `Start`.
- `GetActionFromInput` and `CheckForInput` poll the keyboard through the engine. The `Action` they produce is a parameter of `InterpretAction`, and `Run` folds a sequence of such actions.
- `CreateInputDictionary` and `ChangeControlScheme` hold static key-binding data for input devices.
- `PairUIElementsToGraph` and the `UIManager.UpdateSlotCountUI` call in `ChangeSlotCount` only touch the scene graph.
- The `Debug.Log` text in `SelectItem`. Only the branch taken and the item's name are kept.
- Assets/Scripts/UIManager.cs and Assets/Scripts/ItemSlot.cs. They lay out prefabs with floating-point offsets and mirror `Hovered` onto object visibility.
- 32-bit integer overflow. Slot counts are clamped to at most 28 and the column count is 7, so no index expression can overflow.
- Object identity of neighbours. A neighbour is an index into the manager's array. A node built with `WithNeighbors` outside a manager holds plain indices that refer to no array.
