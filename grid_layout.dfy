/** The grid rule behind the inventory graph: `n` slots laid out row by row, `c` to a row,
    each linked to the slots above, to the right, below and to the left of it. Everything
    here is a pure function of a slot index, so it serves as the specification of the
    array the graph construction builds and of the moves the hover cursor makes. */
module GridLayout {
  import opened Actions
  import opened Nullables
  import opened DivMod
  import opened GraphNodes

  /** Slot `i` sits in row `i / c` and column `i % c`. */
  function Row(i: int, c: int): (r: int)
    requires c >= 1
  {
    i / c
  }

  function Col(i: int, c: int): (r: int)
    requires c >= 1
  {
    i % c
  }

  /** The neighbour the construction binds to slot `i` in direction `d`: every bound
      index is another slot of the grid. */
  function Neighbor(i: int, d: Action, n: int, c: int): (r: Nullable<int>)
    requires 0 <= i < n && c >= 1 && d.IsDirection()
    ensures r.Ref? ==> 0 <= r.target < n && r.target != i
  {
    match d
    case Up => if i / c > 0 then DivPositive(i, c); Ref(i - c) else Null
    case Right => if i % c < c - 1 && i + 1 < n then Ref(i + 1) else Null
    case Down => if i + c < n then Ref(i + c) else Null
    case Left => if i % c > 0 then Ref(i - 1) else Null
  }

  /** The whole neighbour dictionary of slot `i` once the graph is built. */
  function Links(i: int, n: int, c: int): (m: map<Action, Nullable<int>>)
    requires 0 <= i < n && c >= 1
    ensures m.Keys == Directions
  {
    map[Up := Neighbor(i, Up, n, c), Right := Neighbor(i, Right, n, c),
        Down := Neighbor(i, Down, n, c), Left := Neighbor(i, Left, n, c)]
  }

  /** The built dictionary is the fresh one with the four neighbours bound in turn. */
  lemma LinksAsUpdates(i: int, n: int, c: int)
    requires 0 <= i < n && c >= 1
    ensures Links(i, n, c) == NoLinks()
      [Up := Neighbor(i, Up, n, c)][Right := Neighbor(i, Right, n, c)]
      [Down := Neighbor(i, Down, n, c)][Left := Neighbor(i, Left, n, c)]
  {
  }

  /** Slot `j` is the cell next to slot `i` in direction `d`, said in rows and columns. */
  ghost predicate Adjacent(i: int, j: int, d: Action, c: int)
    requires c >= 1
  {
    match d
    case Up => Row(j, c) + 1 == Row(i, c) && Col(j, c) == Col(i, c)
    case Down => Row(j, c) == Row(i, c) + 1 && Col(j, c) == Col(i, c)
    case Right => Row(j, c) == Row(i, c) && Col(j, c) == Col(i, c) + 1
    case Left => Row(j, c) == Row(i, c) && Col(j, c) + 1 == Col(i, c)
    case _ => false
  }

  /** The construction links exactly the grid-adjacent slots that exist. */
  lemma NeighborIsAdjacency(i: int, j: int, d: Action, n: int, c: int)
    requires 0 <= i < n && 0 <= j < n && c >= 1 && d.IsDirection()
    ensures Neighbor(i, d, n, c) == Ref(j) <==> Adjacent(i, j, d, c)
  {
    match d
    case Up => UpIsAdjacency(i, j, n, c);
    case Right => RightIsAdjacency(i, j, n, c);
    case Down => DownIsAdjacency(i, j, n, c);
    case Left => LeftIsAdjacency(i, j, n, c);
  }

  lemma UpIsAdjacency(i: int, j: int, n: int, c: int)
    requires 0 <= i < n && 0 <= j < n && c >= 1
    ensures Neighbor(i, Up, n, c) == Ref(j) <==> Adjacent(i, j, Up, c)
  {
    DivModSplit(i, c);
    DivModSplit(j, c);
    var q, r := i / c, i % c;
    Distribute(c, q);
    if Neighbor(i, Up, n, c) == Ref(j) {
      DivModUnique(j, c, q - 1, r);
    }
    if Adjacent(i, j, Up, c) {
      DivNonNegative(j, c);
      assert j == i - c;
    }
  }

  lemma RightIsAdjacency(i: int, j: int, n: int, c: int)
    requires 0 <= i < n && 0 <= j < n && c >= 1
    ensures Neighbor(i, Right, n, c) == Ref(j) <==> Adjacent(i, j, Right, c)
  {
    DivModSplit(i, c);
    DivModSplit(j, c);
    var q, r := i / c, i % c;
    if Neighbor(i, Right, n, c) == Ref(j) {
      DivModUnique(j, c, q, r + 1);
    }
    if Adjacent(i, j, Right, c) {
      assert j == i + 1;
    }
  }

  lemma DownIsAdjacency(i: int, j: int, n: int, c: int)
    requires 0 <= i < n && 0 <= j < n && c >= 1
    ensures Neighbor(i, Down, n, c) == Ref(j) <==> Adjacent(i, j, Down, c)
  {
    DivModSplit(i, c);
    DivModSplit(j, c);
    var q, r := i / c, i % c;
    Distribute(c, q);
    if Neighbor(i, Down, n, c) == Ref(j) {
      DivModUnique(j, c, q + 1, r);
    }
    if Adjacent(i, j, Down, c) {
      assert j == i + c;
    }
  }

  lemma LeftIsAdjacency(i: int, j: int, n: int, c: int)
    requires 0 <= i < n && 0 <= j < n && c >= 1
    ensures Neighbor(i, Left, n, c) == Ref(j) <==> Adjacent(i, j, Left, c)
  {
    DivModSplit(i, c);
    DivModSplit(j, c);
    var q, r := i / c, i % c;
    if Neighbor(i, Left, n, c) == Ref(j) {
      DivModUnique(j, c, q, r - 1);
    }
    if Adjacent(i, j, Left, c) {
      assert j == i - 1;
    }
  }

  /** A direction has no neighbour exactly when no slot of the grid lies that way. */
  lemma NoNeighborAtBoundary(i: int, d: Action, n: int, c: int)
    requires 0 <= i < n && c >= 1 && d.IsDirection()
    ensures Neighbor(i, d, n, c) == Null <==> forall j :: 0 <= j < n ==> !Adjacent(i, j, d, c)
  {
    forall j | 0 <= j < n
      ensures Neighbor(i, d, n, c) == Ref(j) <==> Adjacent(i, j, d, c)
    {
      NeighborIsAdjacency(i, j, d, n, c);
    }
    if Neighbor(i, d, n, c).Ref? {
      var j := Neighbor(i, d, n, c).target;
      assert Adjacent(i, j, d, c);
    }
  }

  /** Links are symmetric: `j` is `i`'s neighbour in direction `d` exactly when `i` is
      `j`'s neighbour in the opposite direction. */
  lemma LinksSymmetric(i: int, j: int, d: Action, n: int, c: int)
    requires 0 <= i < n && 0 <= j < n && c >= 1 && d.IsDirection()
    ensures Neighbor(i, d, n, c) == Ref(j) <==> Neighbor(j, Opposite(d), n, c) == Ref(i)
  {
    NeighborIsAdjacency(i, j, d, n, c);
    NeighborIsAdjacency(j, i, Opposite(d), n, c);
  }

  /** No slot of the first row has an Up neighbour. */
  lemma FirstRowHasNoUp(i: int, n: int, c: int)
    requires 0 <= i < n && c >= 1 && i < c
    ensures Neighbor(i, Up, n, c) == Null
  {
    DivModUnique(i, c, 0, i);
  }

  /** The five-slot, three-column grid: rows [0, 1, 2] and [3, 4]. */
  lemma FiveSlotsThreeColumns()
    ensures Neighbor(2, Right, 5, 3) == Null
    ensures Neighbor(4, Right, 5, 3) == Null && Neighbor(4, Down, 5, 3) == Null
    ensures Neighbor(1, Up, 5, 3) == Null && Neighbor(1, Down, 5, 3) == Ref(4)
    ensures Neighbor(4, Up, 5, 3) == Ref(1) && Neighbor(4, Left, 5, 3) == Ref(3)
  {
  }

  /** The hover cursor after a move from `cur` toward `d`: the neighbour if there is one,
      `cur` itself otherwise. */
  function Moved(cur: int, d: Action, n: int, c: int): (r: nat)
    requires 0 <= cur < n && c >= 1 && d.IsDirection()
    ensures r < n
    ensures r != cur <==> Neighbor(cur, d, n, c).Ref?
  {
    match Neighbor(cur, d, n, c)
    case Ref(j) => j
    case Null => cur
  }

  /** The hover cursor after one action: only the four directions move it. */
  function Interpreted(cur: int, a: Action, n: int, c: int): (r: nat)
    requires 0 <= cur < n && c >= 1
    ensures r < n
    ensures !a.IsDirection() ==> r == cur
  {
    if a.IsDirection() then Moved(cur, a, n, c) else cur
  }

  /** The hover cursor after a sequence of actions, one per input tick. */
  function Run(cur: int, actions: seq<Action>, n: int, c: int): (r: nat)
    requires 0 <= cur < n && c >= 1
    ensures r < n
    decreases |actions|
  {
    if actions == [] then cur
    else Run(Interpreted(cur, actions[0], n, c), actions[1..], n, c)
  }

  /** A move that succeeded is undone by the opposite move: Right then Left, Down then Up
      (and the other two orders) return to the start. */
  lemma MoveThenBack(i: int, d: Action, n: int, c: int)
    requires 0 <= i < n && c >= 1 && d.IsDirection()
    requires Neighbor(i, d, n, c).Ref?
    ensures Moved(Moved(i, d, n, c), Opposite(d), n, c) == i
  {
    var j := Neighbor(i, d, n, c).target;
    LinksSymmetric(i, j, d, n, c);
  }

  function Repeat(a: Action, k: nat): (s: seq<Action>)
    ensures |s| == k && forall m :: 0 <= m < k ==> s[m] == a
  {
    seq(k, _ => a)
  }

  /** Pushing against a boundary any number of times leaves the cursor where it is. */
  lemma {:induction false} BlockedMovesRepeat(i: int, d: Action, k: nat, n: int, c: int)
    requires 0 <= i < n && c >= 1 && d.IsDirection()
    requires Neighbor(i, d, n, c) == Null
    ensures Run(i, Repeat(d, k), n, c) == i
  {
    if k > 0 {
      assert Repeat(d, k)[1..] == Repeat(d, k - 1);
      BlockedMovesRepeat(i, d, k - 1, n, c);
    }
  }

  /** Repeated Up moves from slot 0 never leave it. */
  lemma RepeatedUpFromFirstSlot(k: nat, n: int, c: int)
    requires n >= 1 && c >= 1
    ensures Run(0, Repeat(Up, k), n, c) == 0
  {
    FirstRowHasNoUp(0, n, c);
    BlockedMovesRepeat(0, Up, k, n, c);
  }

  /** Runs compose: the cursor after `xs + ys` is the cursor after `ys` started where
      `xs` left it. */
  lemma {:induction false} RunAppend(cur: int, xs: seq<Action>, ys: seq<Action>, n: int, c: int)
    requires 0 <= cur < n && c >= 1
    ensures Run(cur, xs + ys, n, c) == Run(Run(cur, xs, n, c), ys, n, c)
    decreases |xs|
  {
    if xs == [] {
      assert xs + ys == ys;
    } else {
      assert (xs + ys)[1..] == xs[1..] + ys;
      RunAppend(Interpreted(cur, xs[0], n, c), xs[1..], ys, n, c);
    }
  }
}
