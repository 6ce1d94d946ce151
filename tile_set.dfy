/**
 * Linked2DTileSet: a rectangle of tile columns and rows in which every valid
 * tile has a slot, and a tile is "set" when it is linked into the list of
 * its depth class. Each list is kept in slot order, which is row-major
 * order. The tile objects and the list sentinels are an arena of two arrays
 * (see module TileLinks); the ghost fields `chains` (the three lists) and
 * `members` (the set slots) are the abstract state.
 */
module TileSet {
  import opened Wrappers
  import opened Tile
  import opened RowMajor
  import opened TileLinks
  import MapUtil

  /**
   * The slot coordinates of a rectangle of `w` columns and `h` rows starting
   * at (minX, minY), in row-major order, with each slot's depth class.
   */
  method BuildSlots(minX: int, minY: int, w: int, h: int) returns (xs: seq<int>, ys: seq<int>, ds: seq<int>)
    requires w >= 0 && h >= 0
    ensures |xs| == w * h && |ys| == w * h && |ds| == w * h
    ensures forall i :: 0 <= i < |xs| ==>
      minX <= xs[i] < minX + w && minY <= ys[i] < minY + h &&
      (ys[i] - minY) * w + (xs[i] - minX) == i && ds[i] == DepthModThree(xs[i], ys[i])
  {
    xs, ys, ds := [], [], [];
    var y := 0;
    while y < h
      invariant 0 <= y <= h
      invariant |xs| == y * w && |ys| == y * w && |ds| == y * w
      invariant forall i :: 0 <= i < |xs| ==>
        minX <= xs[i] < minX + w && minY <= ys[i] < minY + y &&
        (ys[i] - minY) * w + (xs[i] - minX) == i && ds[i] == DepthModThree(xs[i], ys[i])
    {
      xs, ys, ds := AppendRow(minX, minY, w, y, xs, ys, ds);
      assert (y + 1) * w == y * w + w;
      y := y + 1;
    }
  }

  /** The inner loop of BuildSlots: the slots of row `y`, appended in column order. */
  method AppendRow(minX: int, minY: int, w: int, y: int, xs0: seq<int>, ys0: seq<int>, ds0: seq<int>)
    returns (xs: seq<int>, ys: seq<int>, ds: seq<int>)
    requires w >= 0 && y >= 0 && |xs0| == y * w && |ys0| == y * w && |ds0| == y * w
    requires forall i :: 0 <= i < |xs0| ==>
      minX <= xs0[i] < minX + w && minY <= ys0[i] < minY + y &&
      (ys0[i] - minY) * w + (xs0[i] - minX) == i && ds0[i] == DepthModThree(xs0[i], ys0[i])
    ensures |xs| == y * w + w && |ys| == y * w + w && |ds| == y * w + w
    ensures forall i :: 0 <= i < |xs| ==>
      minX <= xs[i] < minX + w && minY <= ys[i] < minY + y + 1 &&
      (ys[i] - minY) * w + (xs[i] - minX) == i && ds[i] == DepthModThree(xs[i], ys[i])
  {
    xs, ys, ds := xs0, ys0, ds0;
    var x := 0;
    while x < w
      invariant 0 <= x <= w
      invariant |xs| == y * w + x && |ys| == y * w + x && |ds| == y * w + x
      invariant forall i :: 0 <= i < |xs| ==>
        minX <= xs[i] < minX + w && minY <= ys[i] < minY + y + 1 &&
        (ys[i] - minY) * w + (xs[i] - minX) == i && ds[i] == DepthModThree(xs[i], ys[i])
    {
      xs, ys, ds := xs + [minX + x], ys + [minY + y], ds + [DepthModThree(minX + x, minY + y)];
      x := x + 1;
    }
  }

  /**
   * The link arrays of a new set of `n` slots: every slot link null, and
   * each list's head linked to its tail (the three Linked2DTileList
   * constructors).
   */
  method NewLinks(n: nat) returns (nx: array<int>, pv: array<int>)
    ensures fresh(nx) && fresh(pv) && nx != pv && nx.Length == n + 6 && pv.Length == n + 6
    ensures forall i :: 0 <= i < n ==> nx[..][i] == NIL && pv[..][i] == NIL
    ensures forall d :: 0 <= d < 3 ==> nx[..][Head(n, d)] == Tail(n, d) && pv[..][Tail(n, d)] == Head(n, d)
  {
    nx := new int[n + 6](_ => NIL);
    pv := new int[n + 6](_ => NIL);
    nx[n], pv[n + 1] := n + 1, n;
    nx[n + 2], pv[n + 3] := n + 3, n + 2;
    nx[n + 4], pv[n + 5] := n + 5, n + 4;
  }

  class Linked2DTileSet {
    const offX: int
    const offY: int
    const width: int
    const height: int
    /** Number of slots, width * height. */
    const size: nat
    /** Coordinates and depth class of every slot; depth class -1 is a null slot. */
    const slotX: seq<int>
    const slotY: seq<int>
    const slotDepth: seq<int>
    /** Link fields of the slots, then of head/tail of lists 0, 1 and 2. */
    const next: array<int>
    const prev: array<int>
    ghost var chains: seq<seq<int>>
    ghost var members: set<int>

    /** Slot `i` holds the tile at column offX + i % width, row offY + i / width. */
    ghost predicate SlotsLaidOut() {
      width >= 0 && height >= 0 && size == width * height &&
      |slotX| == size && |slotY| == size && |slotDepth| == size &&
      forall i :: 0 <= i < size ==>
        offX <= slotX[i] < offX + width && offY <= slotY[i] < offY + height &&
        (slotY[i] - offY) * width + (slotX[i] - offX) == i &&
        slotDepth[i] == DepthModThree(slotX[i], slotY[i])
    }

    ghost predicate Valid()
      reads this, next, prev
    {
      SlotsLaidOut() && next.Length == size + 6 && prev.Length == size + 6 && next != prev &&
      ArenaValid(next[..], prev[..], size, slotDepth, chains, members)
    }

    /** The valid slots of the rectangle: the tiles that can be set. */
    ghost function ValidSlots(): set<int> {
      ValidSlotsOf(slotDepth)
    }

    /**
     * Creates the set for columns minX..maxX and rows minY..maxY, with a
     * slot for every valid tile; nothing is set yet.
     */
    constructor (minX: int, maxX: int, minY: int, maxY: int)
      requires maxX - minX + 1 >= 0 && maxY - minY + 1 >= 0
      ensures Valid() && fresh(next) && fresh(prev)
      ensures offX == minX && offY == minY && width == maxX - minX + 1 && height == maxY - minY + 1
      ensures members == {} && chains == [[], [], []]
    {
      var w, h := maxX - minX + 1, maxY - minY + 1;
      var xs, ys, ds := BuildSlots(minX, minY, w, h);
      var n := |xs|;
      var nx, pv := NewLinks(n);
      offX, offY, width, height, size := minX, minY, w, h, n;
      slotX, slotY, slotDepth := xs, ys, ds;
      next, prev := nx, pv;
      chains, members := [[], [], []], {};
      new;
      EmptyArenaValid(next[..], prev[..], size, slotDepth);
    }

    /** The default constructor: the empty 0x0 set, columns 0..-1 and rows 0..-1. */
    constructor Empty()
      ensures Valid() && fresh(next) && fresh(prev)
      ensures offX == 0 && offY == 0 && width == 0 && height == 0 && size == 0
      ensures members == {} && chains == [[], [], []]
    {
      var nx, pv := NewLinks(0);
      offX, offY, width, height, size := 0, 0, 0, 0, 0;
      slotX, slotY, slotDepth := [], [], [];
      next, prev := nx, pv;
      chains, members := [[], [], []], {};
      new;
      EmptyArenaValid(next[..], prev[..], size, slotDepth);
    }

    function GetMinX(): (r: int)
      requires SlotsLaidOut()
      ensures forall i :: 0 <= i < size ==> r <= slotX[i]
    {
      offX
    }

    function GetMaxX(): (r: int)
      requires SlotsLaidOut()
      ensures forall i :: 0 <= i < size ==> slotX[i] <= r
    {
      offX + width - 1
    }

    function GetMinY(): (r: int)
      requires SlotsLaidOut()
      ensures forall i :: 0 <= i < size ==> r <= slotY[i]
    {
      offY
    }

    function GetMaxY(): (r: int)
      requires SlotsLaidOut()
      ensures forall i :: 0 <= i < size ==> slotY[i] <= r
    {
      offY + height - 1
    }

    /** Every cell of the rectangle has a slot: the bounds are tight. */
    lemma BoundsAreTight(x: int, y: int)
      requires SlotsLaidOut()
      requires GetMinX() <= x <= GetMaxX() && GetMinY() <= y <= GetMaxY()
      ensures exists i :: 0 <= i < size && slotX[i] == x && slotY[i] == y
    {
      var i := GetIndex(x, y).value;
      assert slotX[i] == x && slotY[i] == y;
    }

    /**
     * getIndex: the slot of the tile at (x, y); IllegalArgumentException
     * outside the rectangle.
     */
    function GetIndex(x: int, y: int): (r: Result<int>)
      requires SlotsLaidOut()
      ensures r.Ok? <==> offX <= x < offX + width && offY <= y < offY + height
      ensures r.Err? ==> r.error == IllegalArgument
      ensures r.Ok? ==> 0 <= r.value < size && slotX[r.value] == x && slotY[r.value] == y
    {
      var lx, ly := x - offX, y - offY;
      if lx < 0 || lx >= width || ly < 0 || ly >= height then
        Err(IllegalArgument)
      else
        var i := ly * width + lx;
        IndexInBounds(ly, lx, width, height);
        IndexUnique(slotY[i] - offY, slotX[i] - offX, ly, lx, width);
        Ok(i)
    }

    /** Every slot is found again from its own coordinates. */
    lemma SlotIndexRoundTrip(i: int)
      requires SlotsLaidOut() && 0 <= i < size
      ensures GetIndex(slotX[i], slotY[i]) == Ok(i)
    {
    }

    /** Linked2DTile.isSet: a tile is set when its `next` link is not null. */
    function IsSet(i: int): (r: bool)
      requires Valid() && 0 <= i < size
      reads this, next, prev
      ensures r <==> i in members
    {
      assert next[..][i] == next[i];
      next[i] != NIL
    }

    /** Linked2DTile.link(a, b): a.next = b and b.prev = a, nothing else. */
    method Link(a: int, b: int)
      requires next.Length == size + 6 && prev.Length == size + 6 && next != prev
      requires 0 <= a < size + 6 && 0 <= b < size + 6
      modifies next, prev
      ensures next[..] == old(next[..])[a := b] && prev[..] == old(prev[..])[b := a]
    {
      next[a] := b;
      prev[b] := a;
    }

    /** Linked2DTileList.linkHeadToTail for the list of class `d`. */
    method LinkHeadToTail(d: int)
      requires next.Length == size + 6 && prev.Length == size + 6 && next != prev && 0 <= d < 3
      modifies next, prev
      ensures next[..] == old(next[..])[Head(size, d) := Tail(size, d)]
      ensures prev[..] == old(prev[..])[Tail(size, d) := Head(size, d)]
    {
      Link(Head(size, d), Tail(size, d));
    }

    /** Linked2DTileList.isEmpty: the head links straight to the tail. */
    function ListIsEmpty(d: int): (r: bool)
      requires Valid() && 0 <= d < 3
      reads this, next, prev
      ensures r <==> chains[d] == []
    {
      ChainMembership(next[..], prev[..], size, slotDepth, chains, members, d);
      assert next[..][Src(size, d, chains[d], 0)] == Dst(size, d, chains[d], 0);
      next[Head(size, d)] == Tail(size, d)
    }

    /** isEmpty: no tile is set. */
    function IsEmpty(): (r: bool)
      requires Valid()
      reads this, next, prev
      ensures r <==> members == {}
    {
      NoMembersIffChainsEmpty(next[..], prev[..], size, slotDepth, chains, members);
      ListIsEmpty(0) && ListIsEmpty(1) && ListIsEmpty(2)
    }

    /**
     * getValidTiles: the list of depth class `depth mod 3`. For the depths
     * whose remainder modulo 6 is below 3 it holds the tiles drawn at that
     * depth; for the others it holds columns and rows that are no tile there.
     */
    function GetValidTiles(depth: int): (d: int)
      ensures 0 <= d < 3
      ensures forall x, y :: DepthModThree(x, y) == d <==> MapUtil.IsTile(x, y, d)
      ensures MapUtil.FloorMod(depth, 6) < 3 ==> forall x, y :: MapUtil.IsTile(x, y, depth) <==> DepthModThree(x, y) == d
      ensures MapUtil.FloorMod(depth, 6) >= 3 ==> forall x, y :: DepthModThree(x, y) == d ==> !MapUtil.IsTile(x, y, depth)
    {
      DepthClasses(depth);
      MapUtil.FloorMod(depth, 3)
    }

    /**
     * The list getValidTiles(depth) returns holds exactly the set tiles that
     * are tiles at depth depth mod 3, in slot order.
     */
    lemma ValidTilesAreSetTilesAtDepth(depth: int)
      requires Valid()
      ensures var c := chains[GetValidTiles(depth)];
        (forall k :: 0 <= k < |c| ==> 0 <= c[k] < size && c[k] in members && MapUtil.IsTile(slotX[c[k]], slotY[c[k]], MapUtil.FloorMod(depth, 3))) &&
        (forall i :: 0 <= i < size && i in members && MapUtil.IsTile(slotX[i], slotY[i], MapUtil.FloorMod(depth, 3)) ==> i in c) &&
        c == SlotsOfDepth(slotDepth, members, GetValidTiles(depth), size)
    {
      var d := GetValidTiles(depth);
      assert ChainValid(next[..], prev[..], size, slotDepth, members, d, chains[d]);
      ChainIsSortedMembers(next[..], prev[..], size, slotDepth, chains, members, d);
    }

    /** contains: whether the tile at (x, y) is set; IllegalArgumentException outside the rectangle. */
    method Contains(x: int, y: int) returns (r: Result<bool>)
      requires Valid()
      ensures r.Ok? <==> GetIndex(x, y).Ok?
      ensures r.Err? ==> r.error == IllegalArgument
      ensures r.Ok? ==> r.value == (GetIndex(x, y).value in members)
    {
      var g := GetIndex(x, y);
      if g.Err? {
        return Err(IllegalArgument);
      }
      var i := g.value;
      return Ok(slotDepth[i] != -1 && IsSet(i));
    }

    /**
     * set: sets the tile at (x, y). Ok(false) when it is a null slot or
     * already set, IllegalArgumentException outside the rectangle.
     */
    method Set(x: int, y: int) returns (r: Result<bool>)
      requires Valid()
      modifies this, next, prev
      ensures Valid()
      ensures r.Ok? <==> GetIndex(x, y).Ok?
      ensures r.Err? ==> r.error == IllegalArgument
      ensures r.Ok? ==> r.value == (GetIndex(x, y).value in ValidSlots() && GetIndex(x, y).value !in old(members))
      ensures members == if r == Ok(true) then old(members) + {GetIndex(x, y).value} else old(members)
    {
      var g := GetIndex(x, y);
      if g.Err? {
        return Err(IllegalArgument);
      }
      var i := g.value;
      if slotDepth[i] == -1 || IsSet(i) {
        return Ok(false);
      }
      var d := slotDepth[i];
      ChainMembership(next[..], prev[..], size, slotDepth, chains, members, d);
      var p, q, k := FindNeighbours(next[..], prev[..], slotDepth, size, d, chains[d], i);
      ghost var nx0, pv0 := next[..], prev[..];
      Link(p, i);
      Link(i, q);
      InsertValid(nx0, pv0, size, slotDepth, chains, members, i, k);
      chains := chains[d := chains[d][..k] + [i] + chains[d][k..]];
      members := members + {i};
      return Ok(true);
    }

    /**
     * Linked2DTile.remove: unlinks set tile `i` from its list and returns
     * the node that was before it (a tile or the list's head).
     */
    method Remove(i: int) returns (p: int, ghost k: int)
      requires Valid() && i in members
      modifies this, next, prev
      ensures Valid()
      ensures members == old(members) - {i}
      ensures 0 <= slotDepth[i] < 3
      ensures 0 <= k < |old(chains[slotDepth[i]])| && old(chains[slotDepth[i]])[k] == i
      ensures p == Src(size, slotDepth[i], old(chains[slotDepth[i]]), k)
      ensures chains == old(chains)[slotDepth[i] := old(chains[slotDepth[i]])[..k] + old(chains[slotDepth[i]])[k + 1..]]
    {
      k := ChainPositionOf(next[..], prev[..], size, slotDepth, chains, members, i);
      ghost var nx0, pv0 := next[..], prev[..];
      p := prev[i];
      var q := next[i];
      next[p] := q;
      prev[q] := p;
      prev[i] := NIL;
      next[i] := NIL;
      RemoveValid(nx0, pv0, size, slotDepth, chains, members, slotDepth[i], k);
      assert next[..] == nx0[p := q][i := NIL] && prev[..] == pv0[q := p][i := NIL];
      chains := chains[slotDepth[i] := chains[slotDepth[i]][..k] + chains[slotDepth[i]][k + 1..]];
      members := members - {i};
    }

    /**
     * clear: clears the tile at (x, y). Ok(false) when it was not set,
     * IllegalArgumentException outside the rectangle.
     */
    method Clear(x: int, y: int) returns (r: Result<bool>)
      requires Valid()
      modifies this, next, prev
      ensures Valid()
      ensures r.Ok? <==> GetIndex(x, y).Ok?
      ensures r.Err? ==> r.error == IllegalArgument
      ensures r.Ok? ==> r.value == (GetIndex(x, y).value in old(members))
      ensures members == if r == Ok(true) then old(members) - {GetIndex(x, y).value} else old(members)
    {
      var g := GetIndex(x, y);
      if g.Err? {
        return Err(IllegalArgument);
      }
      var i := g.value;
      if slotDepth[i] != -1 && IsSet(i) {
        var _, _ := Remove(i);
        return Ok(true);
      }
      return Ok(false);
    }

    /** setAll: sets every valid tile, linking each list in slot order. */
    method SetAll()
      requires Valid()
      modifies this, next, prev
      ensures Valid()
      ensures members == ValidSlots()
      ensures forall d :: 0 <= d < 3 ==> chains[d] == SlotsOfDepth(slotDepth, ValidSlots(), d, size)
    {
      InvalidSlotsUnlinked(next[..], prev[..], size, slotDepth, chains, members);
      SetAllStart(next[..], prev[..], size, slotDepth);
      var current := LinkSlots();
      ghost var nx0, pv0 := next[..], prev[..];
      CloseLists(current);
      SetAllClose(nx0, pv0, size, slotDepth, current);
      chains := [SlotsOfDepth(slotDepth, ValidSlots(), 0, size), SlotsOfDepth(slotDepth, ValidSlots(), 1, size),
                 SlotsOfDepth(slotDepth, ValidSlots(), 2, size)];
      members := ValidSlots();
    }

    /**
     * The loop of setAll: every valid slot, in slot order, is linked after
     * the last node of its list; the result holds the last node of each.
     */
    method LinkSlots() returns (current: seq<int>)
      requires next.Length == size + 6 && prev.Length == size + 6 && next != prev
      requires SetAllProgress(next[..], prev[..], size, slotDepth, [Head(size, 0), Head(size, 1), Head(size, 2)], 0)
      modifies next, prev
      ensures SetAllProgress(next[..], prev[..], size, slotDepth, current, size)
    {
      current := [Head(size, 0), Head(size, 1), Head(size, 2)];
      var i := 0;
      while i < size
        invariant SetAllProgress(next[..], prev[..], size, slotDepth, current, i)
      {
        SetAllStep(next[..], prev[..], size, slotDepth, current, i);
        if slotDepth[i] != -1 {
          var d := slotDepth[i];
          Link(current[d], i);
          current := current[d := i];
        }
        i := i + 1;
      }
    }

    /** The end of setAll: the last node of each list is linked to its tail. */
    method CloseLists(current: seq<int>)
      requires next.Length == size + 6 && prev.Length == size + 6 && next != prev
      requires |current| == 3 && forall d :: 0 <= d < 3 ==> 0 <= current[d] < size + 6
      modifies next, prev
      ensures next[..] == CloseNext(old(next[..]), size, current) && prev[..] == ClosePrev(old(prev[..]), size, current)
    {
      Link(current[0], Tail(size, 0));
      Link(current[1], Tail(size, 1));
      Link(current[2], Tail(size, 2));
    }

    /** clearAll: clears every tile, when any is set. */
    method ClearAll()
      requires Valid()
      modifies this, next, prev
      ensures Valid()
      ensures members == {} && chains == [[], [], []]
    {
      NoMembersIffChainsEmpty(next[..], prev[..], size, slotDepth, chains, members);
      if !IsEmpty() {
        InvalidSlotsUnlinked(next[..], prev[..], size, slotDepth, chains, members);
        ResetLinks();
        EmptyArenaValid(next[..], prev[..], size, slotDepth);
        chains, members := [[], [], []], {};
      } else {
        assert chains == [chains[0], chains[1], chains[2]];
      }
    }

    /**
     * The work of clearAll: both links of every valid slot become null
     * (the loop), then each list's head is linked to its tail.
     */
    method ResetLinks()
      requires next.Length == size + 6 && prev.Length == size + 6 && next != prev && |slotDepth| == size
      requires forall j :: 0 <= j < size && slotDepth[j] == -1 ==> next[..][j] == NIL && prev[..][j] == NIL
      modifies next, prev
      ensures forall j :: 0 <= j < size ==> next[..][j] == NIL && prev[..][j] == NIL
      ensures forall d :: 0 <= d < 3 ==> next[..][Head(size, d)] == Tail(size, d) && prev[..][Tail(size, d)] == Head(size, d)
    {
      var i := 0;
      while i < size
        invariant 0 <= i <= size
        invariant forall j :: 0 <= j < i ==> next[j] == NIL && prev[j] == NIL
        invariant forall j :: i <= j < size && slotDepth[j] == -1 ==> next[j] == NIL && prev[j] == NIL
      {
        if slotDepth[i] != -1 {
          prev[i] := NIL;
          next[i] := NIL;
        }
        i := i + 1;
      }
      next[size], prev[size + 1] := size + 1, size;
      next[size + 2], prev[size + 3] := size + 3, size + 2;
      next[size + 4], prev[size + 5] := size + 5, size + 4;
    }

    /** The slots from `i` on that are valid and not set, in slot order. */
    ghost function UnsetFrom(i: int): seq<int>
      requires SlotsLaidOut() && 0 <= i
      reads this
      decreases size - i
    {
      if i >= size then []
      else (if slotDepth[i] != -1 && i !in members then [i] else []) + UnsetFrom(i + 1)
    }

    /** A valid slot that is not set heads the slots left from it. */
    lemma UnsetFromHead(i: int)
      requires SlotsLaidOut() && 0 <= i < size && slotDepth[i] != -1 && i !in members
      ensures UnsetFrom(i) == [i] + UnsetFrom(i + 1)
    {
    }

    /** UnsetFrom(i) lists exactly the valid slots from `i` on that are not set, increasing. */
    lemma {:induction false} UnsetFromSpec(i: int)
      requires SlotsLaidOut() && 0 <= i
      ensures Increasing(UnsetFrom(i))
      ensures forall v :: v in UnsetFrom(i) <==> i <= v < size && slotDepth[v] != -1 && v !in members
      decreases size - i
    {
      if i < size {
        UnsetFromSpec(i + 1);
        var t := UnsetFrom(i + 1);
        if slotDepth[i] != -1 && i !in members {
          forall k | 0 <= k < |t| ensures i < t[k] {
            assert t[k] in t;
          }
          PrependIncreasing(i, t);
        }
      }
    }
  }

  /**
   * The iterator of iterateInverse: visits the valid tiles that are NOT
   * set, in slot order. It reads the set as it is at each call.
   */
  class InverseIterator {
    const tiles: Linked2DTileSet
    var index: int

    /** The slots still to be visited. */
    ghost function Remaining(): seq<int>
      requires tiles.SlotsLaidOut() && 0 <= index
      reads this, tiles
    {
      tiles.UnsetFrom(index)
    }

    constructor (set_: Linked2DTileSet)
      ensures tiles == set_ && index == 0
    {
      tiles, index := set_, 0;
    }

    /**
     * advance: moves `index` to the next valid slot that is not set and
     * returns it, or None when there is none (index then at the end).
     */
    method Advance() returns (r: Option<int>)
      requires tiles.Valid() && 0 <= index
      modifies this
      ensures old(index) <= index
      ensures Remaining() == old(Remaining())
      ensures r.None? <==> old(Remaining()) == []
      ensures r.Some? ==> index == r.value && r.value == old(Remaining())[0]
      ensures r.Some? ==> 0 <= r.value < tiles.size && tiles.slotDepth[r.value] != -1 && r.value !in tiles.members
    {
      if index >= tiles.size {
        return None;
      }
      while true
        invariant old(index) <= index < tiles.size
        invariant Remaining() == old(Remaining())
        decreases tiles.size - index
      {
        if tiles.slotDepth[index] != -1 && !tiles.IsSet(index) {
          return Some(index);
        }
        index := index + 1;
        if index >= tiles.size {
          return None;
        }
      }
    }

    /** hasNext: whether a tile is left; it may move `index` past tiles it will not visit. */
    method HasNext() returns (r: bool)
      requires tiles.Valid() && 0 <= index
      modifies this
      ensures 0 <= index && Remaining() == old(Remaining())
      ensures r <==> old(Remaining()) != []
    {
      var a := Advance();
      return a.Some?;
    }

    /** next: the next tile not set; NoSuchElementException when none is left. */
    method Next() returns (r: Result<int>)
      requires tiles.Valid() && 0 <= index
      modifies this
      ensures 0 <= index
      ensures r.Err? <==> old(Remaining()) == []
      ensures r.Err? ==> r.error == NoSuchElement && Remaining() == []
      ensures r.Ok? ==> r.value == old(Remaining())[0] && Remaining() == old(Remaining())[1..]
    {
      var a := Advance();
      if a.None? {
        return Err(NoSuchElement);
      }
      tiles.UnsetFromHead(index);
      index := index + 1;
      return Ok(a.value);
    }
  }
}
