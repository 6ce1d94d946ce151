/**
 * The links of Linked2DTile and the lists of Linked2DTileList, over an arena.
 *
 * The tiles of a tile set with `n` slots are arena positions 0 .. n-1; then
 * come the head and tail sentinels of the three depth-class lists, head of
 * list d at n + 2d and its tail at n + 2d + 1. `nx` and `pv` hold the `next`
 * and `prev` fields of every position, NIL standing for Java's `null`. A
 * list is the sequence of slots between its head and its tail.
 */
module TileLinks {
  /** Java's `null` in a link field. */
  const NIL := -1

  /** Arena position of the head sentinel of chain `d`, for `n` slots. */
  function Head(n: nat, d: int): int { n + 2 * d }

  /** Arena position of the tail sentinel of chain `d`, for `n` slots. */
  function Tail(n: nat, d: int): int { n + 2 * d + 1 }

  /** The chain an arena position belongs to: a slot's depth class or a sentinel's chain. */
  function Owner(n: nat, slotDepth: seq<int>, i: int): int
    requires |slotDepth| == n && 0 <= i < n + 6
  {
    if i < n then slotDepth[i] else (i - n) / 2
  }

  /** The node before the `k`-th link of chain `c`: the head, then the elements of `c`. */
  function Src(n: nat, d: int, c: seq<int>, k: int): int
    requires 0 <= k <= |c|
  {
    if k == 0 then Head(n, d) else c[k - 1]
  }

  /** The node after the `k`-th link of chain `c`: the elements of `c`, then the tail. */
  function Dst(n: nat, d: int, c: seq<int>, k: int): int
    requires 0 <= k <= |c|
  {
    if k == |c| then Tail(n, d) else c[k]
  }

  ghost predicate Increasing(s: seq<int>) {
    forall i, j :: 0 <= i < j < |s| ==> s[i] < s[j]
  }

  ghost predicate InArena(n: nat, c: seq<int>) {
    forall k :: 0 <= k < |c| ==> 0 <= c[k] < n
  }

  /**
   * The link fields `nx`/`pv` spell out chain `c` of depth class `d`:
   * head <-> c[0] <-> ... <-> c[|c|-1] <-> tail.
   */
  ghost predicate LinkedChain(nx: seq<int>, pv: seq<int>, n: nat, d: int, c: seq<int>)
    requires 0 <= d < 3 && |nx| == n + 6 && |pv| == n + 6 && InArena(n, c)
  {
    forall k :: 0 <= k <= |c| ==> nx[Src(n, d, c, k)] == Dst(n, d, c, k) && pv[Dst(n, d, c, k)] == Src(n, d, c, k)
  }

  /** Distinct links of an increasing chain start at distinct nodes and end at distinct nodes. */
  lemma LinksDistinct(n: nat, d: int, c: seq<int>, i: int, j: int)
    requires InArena(n, c) && Increasing(c) && 0 <= d < 3 && 0 <= i < j <= |c|
    ensures Src(n, d, c, i) != Src(n, d, c, j) && Dst(n, d, c, i) != Dst(n, d, c, j)
  {
  }

  /** The links of chain `c` with `x` inserted at position `k`, in terms of the links of `c`. */
  lemma InsertedLinks(n: nat, d: int, c: seq<int>, k: int, x: int, e: int)
    requires 0 <= k <= |c| && 0 <= e <= |c| + 1
    ensures Src(n, d, c[..k] + [x] + c[k..], e) == if e <= k then Src(n, d, c, e) else if e == k + 1 then x else Src(n, d, c, e - 1)
    ensures Dst(n, d, c[..k] + [x] + c[k..], e) == if e < k then Dst(n, d, c, e) else if e == k then x else Dst(n, d, c, e - 1)
  {
  }

  /** Inserting `x` between smaller and larger elements keeps a chain increasing and in the arena. */
  lemma InsertedIncreasing(n: nat, c: seq<int>, k: int, x: int)
    requires InArena(n, c) && Increasing(c) && 0 <= x < n && 0 <= k <= |c|
    requires forall j :: 0 <= j < k ==> c[j] < x
    requires forall j :: k <= j < |c| ==> x < c[j]
    ensures InArena(n, c[..k] + [x] + c[k..]) && Increasing(c[..k] + [x] + c[k..])
  {
    var c' := c[..k] + [x] + c[k..];
    assert forall j :: 0 <= j < |c'| ==> c'[j] == if j < k then c[j] else if j == k then x else c[j - 1];
  }

  /**
   * Linking `x` between the nodes around the `k`-th link (link(prev, x);
   * link(x, next)) inserts `x` at position `k` of the chain.
   */
  lemma {:induction false} InsertLinks(nx: seq<int>, pv: seq<int>, n: nat, d: int, c: seq<int>, k: int, x: int)
    requires 0 <= d < 3 && |nx| == n + 6 && |pv| == n + 6 && InArena(n, c) && Increasing(c)
    requires LinkedChain(nx, pv, n, d, c)
    requires 0 <= x < n && 0 <= k <= |c|
    requires forall j :: 0 <= j < k ==> c[j] < x
    requires forall j :: k <= j < |c| ==> x < c[j]
    ensures InArena(n, c[..k] + [x] + c[k..]) && Increasing(c[..k] + [x] + c[k..])
    ensures LinkedChain(nx[Src(n, d, c, k) := x][x := Dst(n, d, c, k)],
                        pv[x := Src(n, d, c, k)][Dst(n, d, c, k) := x], n, d, c[..k] + [x] + c[k..])
  {
    InsertedIncreasing(n, c, k, x);
    var c' := c[..k] + [x] + c[k..];
    var a, b := Src(n, d, c, k), Dst(n, d, c, k);
    var nx', pv' := nx[a := x][x := b], pv[x := a][b := x];
    forall e | 0 <= e <= |c'|
      ensures nx'[Src(n, d, c', e)] == Dst(n, d, c', e) && pv'[Dst(n, d, c', e)] == Src(n, d, c', e)
    {
      InsertLinkAt(nx, pv, n, d, c, k, x, e);
    }
  }

  /** One link of the chain after inserting `x` at position `k`. */
  lemma InsertLinkAt(nx: seq<int>, pv: seq<int>, n: nat, d: int, c: seq<int>, k: int, x: int, e: int)
    requires 0 <= d < 3 && |nx| == n + 6 && |pv| == n + 6 && InArena(n, c) && Increasing(c)
    requires LinkedChain(nx, pv, n, d, c)
    requires 0 <= x < n && 0 <= k <= |c| && 0 <= e <= |c| + 1
    requires forall j :: 0 <= j < k ==> c[j] < x
    requires forall j :: k <= j < |c| ==> x < c[j]
    ensures var c', a, b := c[..k] + [x] + c[k..], Src(n, d, c, k), Dst(n, d, c, k);
      nx[a := x][x := b][Src(n, d, c', e)] == Dst(n, d, c', e) && pv[x := a][b := x][Dst(n, d, c', e)] == Src(n, d, c', e)
  {
    InsertedLinks(n, d, c, k, x, e);
    if e < k {
      LinksDistinct(n, d, c, e, k);
      assert nx[Src(n, d, c, e)] == Dst(n, d, c, e) && pv[Dst(n, d, c, e)] == Src(n, d, c, e);
    } else if e == k + 1 {
      assert nx[Src(n, d, c, k)] == Dst(n, d, c, k);
    } else if e > k + 1 {
      LinksDistinct(n, d, c, k, e - 1);
      assert nx[Src(n, d, c, e - 1)] == Dst(n, d, c, e - 1) && pv[Dst(n, d, c, e - 1)] == Src(n, d, c, e - 1);
    }
  }

  /** The links of chain `c` with its `k`-th element removed, in terms of the links of `c`. */
  lemma RemovedLinks(n: nat, d: int, c: seq<int>, k: int, e: int)
    requires 0 <= k < |c| && 0 <= e <= |c| - 1
    ensures Src(n, d, c[..k] + c[k + 1..], e) == if e <= k then Src(n, d, c, e) else Src(n, d, c, e + 1)
    ensures Dst(n, d, c[..k] + c[k + 1..], e) == if e < k then Dst(n, d, c, e) else Dst(n, d, c, e + 1)
  {
  }

  /** Removing an element keeps a chain increasing and in the arena. */
  lemma RemovedIncreasing(n: nat, c: seq<int>, k: int)
    requires InArena(n, c) && Increasing(c) && 0 <= k < |c|
    ensures InArena(n, c[..k] + c[k + 1..]) && Increasing(c[..k] + c[k + 1..])
    ensures forall m :: 0 <= m < |c| - 1 ==> (c[..k] + c[k + 1..])[m] == if m < k then c[m] else c[m + 1]
  {
    var c' := c[..k] + c[k + 1..];
    assert forall j :: 0 <= j < |c'| ==> c'[j] == if j < k then c[j] else c[j + 1];
  }

  /**
   * Unlinking the `k`-th element (prev.next = next; next.prev = prev; then
   * both of its own links to null) drops it from the chain.
   */
  lemma {:induction false} RemoveLinks(nx: seq<int>, pv: seq<int>, n: nat, d: int, c: seq<int>, k: int)
    requires 0 <= d < 3 && |nx| == n + 6 && |pv| == n + 6 && InArena(n, c) && Increasing(c)
    requires LinkedChain(nx, pv, n, d, c)
    requires 0 <= k < |c|
    ensures InArena(n, c[..k] + c[k + 1..]) && Increasing(c[..k] + c[k + 1..])
    ensures LinkedChain(nx[Src(n, d, c, k) := Dst(n, d, c, k + 1)][c[k] := NIL],
                        pv[Dst(n, d, c, k + 1) := Src(n, d, c, k)][c[k] := NIL], n, d, c[..k] + c[k + 1..])
  {
    RemovedIncreasing(n, c, k);
    var c' := c[..k] + c[k + 1..];
    var a, b, x := Src(n, d, c, k), Dst(n, d, c, k + 1), c[k];
    var nx', pv' := nx[a := b][x := NIL], pv[b := a][x := NIL];
    forall e | 0 <= e <= |c'|
      ensures nx'[Src(n, d, c', e)] == Dst(n, d, c', e) && pv'[Dst(n, d, c', e)] == Src(n, d, c', e)
    {
      RemoveLinkAt(nx, pv, n, d, c, k, e);
    }
  }

  /** One link of the chain after removing its `k`-th element. */
  lemma RemoveLinkAt(nx: seq<int>, pv: seq<int>, n: nat, d: int, c: seq<int>, k: int, e: int)
    requires 0 <= d < 3 && |nx| == n + 6 && |pv| == n + 6 && InArena(n, c) && Increasing(c)
    requires LinkedChain(nx, pv, n, d, c)
    requires 0 <= k < |c| && 0 <= e <= |c| - 1
    ensures var c', a, b, x := c[..k] + c[k + 1..], Src(n, d, c, k), Dst(n, d, c, k + 1), c[k];
      nx[a := b][x := NIL][Src(n, d, c', e)] == Dst(n, d, c', e) && pv[b := a][x := NIL][Dst(n, d, c', e)] == Src(n, d, c', e)
  {
    RemovedLinks(n, d, c, k, e);
    assert c[k] == Src(n, d, c, k + 1) && c[k] == Dst(n, d, c, k);
    if e < k {
      LinksDistinct(n, d, c, e, k);
      LinksDistinct(n, d, c, e, k + 1);
      assert nx[Src(n, d, c, e)] == Dst(n, d, c, e) && pv[Dst(n, d, c, e)] == Src(n, d, c, e);
    } else if e > k {
      LinksDistinct(n, d, c, k, e + 1);
      LinksDistinct(n, d, c, k + 1, e + 1);
      assert nx[Src(n, d, c, e + 1)] == Dst(n, d, c, e + 1) && pv[Dst(n, d, c, e + 1)] == Src(n, d, c, e + 1);
    } else {
      LinksDistinct(n, d, c, k, k + 1);
    }
  }

  /** A chain stays linked when no link field of its own depth class changes. */
  lemma LinkedChainFrame(nx: seq<int>, pv: seq<int>, nx2: seq<int>, pv2: seq<int>, n: nat, slotDepth: seq<int>, d: int, c: seq<int>)
    requires 0 <= d < 3 && |slotDepth| == n && |nx| == n + 6 && |pv| == n + 6 && |nx2| == n + 6 && |pv2| == n + 6
    requires InArena(n, c) && forall k :: 0 <= k < |c| ==> slotDepth[c[k]] == d
    requires LinkedChain(nx, pv, n, d, c)
    requires forall i :: 0 <= i < n + 6 && Owner(n, slotDepth, i) == d ==> nx2[i] == nx[i] && pv2[i] == pv[i]
    ensures LinkedChain(nx2, pv2, n, d, c)
  {
    forall k | 0 <= k <= |c|
      ensures nx2[Src(n, d, c, k)] == Dst(n, d, c, k) && pv2[Dst(n, d, c, k)] == Src(n, d, c, k)
    {
      assert Owner(n, slotDepth, Src(n, d, c, k)) == d && Owner(n, slotDepth, Dst(n, d, c, k)) == d;
    }
  }

  /** In an increasing sequence, the neighbours of position `k` bound everything before and after it. */
  lemma SplitAt(c: seq<int>, x: int, k: int)
    requires Increasing(c) && 0 <= k <= |c|
    requires k > 0 ==> c[k - 1] < x
    requires k < |c| ==> x < c[k]
    ensures forall j :: 0 <= j < k ==> c[j] < x
    ensures forall j :: k <= j < |c| ==> x < c[j]
  {
    assert forall j :: 0 <= j < k - 1 ==> c[j] < c[k - 1];
    assert forall j :: k < j < |c| ==> c[k] < c[j];
  }

  /** Two increasing sequences with the same elements are equal. */
  lemma {:induction false} IncreasingUnique(s: seq<int>, t: seq<int>)
    requires Increasing(s) && Increasing(t)
    requires forall v :: v in s <==> v in t
    ensures s == t
    decreases |s|
  {
    FirstMember(t);
    if s != [] {
      FirstMember(s);
      IncreasingFirst(s, t[0]);
      IncreasingFirst(t, s[0]);
      IncreasingTail(s);
      IncreasingTail(t);
      IncreasingUnique(s[1..], t[1..]);
      assert s == [s[0]] + s[1..] && t == [t[0]] + t[1..];
    }
  }

  lemma FirstMember(s: seq<int>)
    ensures s != [] ==> s[0] in s
  {
  }

  /** The first element of an increasing sequence is its least. */
  lemma IncreasingFirst(s: seq<int>, v: int)
    requires Increasing(s) && v in s
    ensures s[0] <= v
  {
  }

  /** Dropping the first element of an increasing sequence drops exactly that value. */
  lemma IncreasingTail(s: seq<int>)
    requires Increasing(s) && s != []
    ensures Increasing(s[1..])
    ensures forall v :: v in s[1..] <==> v in s && v != s[0]
  {
    forall v | v in s[1..] ensures v in s && v != s[0] {
      var m :| 1 <= m < |s| && s[m] == v;
    }
    assert s == [s[0]] + s[1..];
  }

  /** The slots below `i` of depth class `d` that are in `of`, in slot order. */
  ghost function SlotsOfDepth(slotDepth: seq<int>, of: set<int>, d: int, i: nat): seq<int>
    requires i <= |slotDepth|
  {
    if i == 0 then []
    else SlotsOfDepth(slotDepth, of, d, i - 1) + (if slotDepth[i - 1] == d && i - 1 in of then [i - 1] else [])
  }

  /** SlotsOfDepth lists exactly the slots below `i` of class `d` in `of`, in increasing order. */
  lemma {:induction false} SlotsOfDepthSpec(slotDepth: seq<int>, of: set<int>, d: int, i: nat)
    requires i <= |slotDepth|
    ensures Increasing(SlotsOfDepth(slotDepth, of, d, i))
    ensures forall v :: v in SlotsOfDepth(slotDepth, of, d, i) <==> 0 <= v < i && slotDepth[v] == d && v in of
  {
    if i > 0 {
      SlotsOfDepthSpec(slotDepth, of, d, i - 1);
      var p := SlotsOfDepth(slotDepth, of, d, i - 1);
      if slotDepth[i - 1] == d && i - 1 in of {
        forall k | 0 <= k < |p| ensures p[k] < i - 1 {
          assert p[k] in p;
        }
        AppendIncreasing(p, i - 1);
      }
    }
  }

  /** The links of chain `c` from the head up to its last element; the link to the tail is still missing. */
  ghost predicate LinkedPrefix(nx: seq<int>, pv: seq<int>, n: nat, d: int, c: seq<int>)
    requires 0 <= d < 3 && |nx| == n + 6 && |pv| == n + 6 && InArena(n, c)
  {
    forall k :: 0 <= k < |c| ==> nx[Src(n, d, c, k)] == c[k] && pv[c[k]] == Src(n, d, c, k)
  }

  /** Linking the last node of a linked prefix to a larger slot `x` extends the prefix by `x`. */
  lemma ExtendPrefix(nx: seq<int>, pv: seq<int>, n: nat, d: int, c: seq<int>, x: int)
    requires 0 <= d < 3 && |nx| == n + 6 && |pv| == n + 6 && InArena(n, c) && Increasing(c)
    requires LinkedPrefix(nx, pv, n, d, c)
    requires 0 <= x < n && forall k :: 0 <= k < |c| ==> c[k] < x
    ensures InArena(n, c + [x]) && Increasing(c + [x])
    ensures LinkedPrefix(nx[Src(n, d, c, |c|) := x], pv[x := Src(n, d, c, |c|)], n, d, c + [x])
  {
    AppendLarger(n, c, x);
    var c' := c + [x];
    var a := Src(n, d, c, |c|);
    forall k | 0 <= k < |c'|
      ensures nx[a := x][Src(n, d, c', k)] == c'[k] && pv[x := a][c'[k]] == Src(n, d, c', k)
    {
      ExtendLinkAt(nx, pv, n, d, c, x, k);
    }
  }

  /** One link of a prefix extended by `x`. */
  lemma ExtendLinkAt(nx: seq<int>, pv: seq<int>, n: nat, d: int, c: seq<int>, x: int, k: int)
    requires 0 <= d < 3 && |nx| == n + 6 && |pv| == n + 6 && InArena(n, c) && Increasing(c)
    requires LinkedPrefix(nx, pv, n, d, c)
    requires 0 <= x < n && (forall j :: 0 <= j < |c| ==> c[j] < x) && 0 <= k <= |c|
    ensures var c', a := c + [x], Src(n, d, c, |c|);
      nx[a := x][Src(n, d, c', k)] == c'[k] && pv[x := a][c'[k]] == Src(n, d, c', k)
  {
    var c' := c + [x];
    if k < |c| {
      assert c'[k] == c[k] && Src(n, d, c', k) == Src(n, d, c, k);
      LinksDistinct(n, d, c, k, |c|);
    } else {
      assert c'[k] == x && Src(n, d, c', k) == Src(n, d, c, |c|);
    }
  }

  lemma AppendLarger(n: nat, c: seq<int>, x: int)
    requires InArena(n, c) && Increasing(c)
    requires 0 <= x < n && forall k :: 0 <= k < |c| ==> c[k] < x
    ensures InArena(n, c + [x]) && Increasing(c + [x])
  {
    AppendIncreasing(c, x);
  }

  /** Prepending a value below every element keeps a sequence increasing. */
  lemma PrependIncreasing(x: int, c: seq<int>)
    requires Increasing(c) && forall k :: 0 <= k < |c| ==> x < c[k]
    ensures Increasing([x] + c)
  {
  }

  /** Appending a value above every element keeps a sequence increasing. */
  lemma AppendIncreasing(c: seq<int>, x: int)
    requires Increasing(c) && forall k :: 0 <= k < |c| ==> c[k] < x
    ensures Increasing(c + [x])
  {
  }

  /** Linking the last node of a linked prefix to the tail closes the chain. */
  lemma ClosePrefix(nx: seq<int>, pv: seq<int>, n: nat, d: int, c: seq<int>)
    requires 0 <= d < 3 && |nx| == n + 6 && |pv| == n + 6 && InArena(n, c) && Increasing(c)
    requires LinkedPrefix(nx, pv, n, d, c)
    ensures LinkedChain(nx[Src(n, d, c, |c|) := Tail(n, d)], pv[Tail(n, d) := Src(n, d, c, |c|)], n, d, c)
  {
    forall k | 0 <= k <= |c|
      ensures nx[Src(n, d, c, |c|) := Tail(n, d)][Src(n, d, c, k)] == Dst(n, d, c, k)
      ensures pv[Tail(n, d) := Src(n, d, c, |c|)][Dst(n, d, c, k)] == Src(n, d, c, k)
    {
      if k < |c| {
        LinksDistinct(n, d, c, k, |c|);
        assert Dst(n, d, c, k) == c[k];
      }
    }
  }

  /** A linked prefix stays linked when no link field of its own depth class changes. */
  lemma PrefixFrame(nx: seq<int>, pv: seq<int>, nx2: seq<int>, pv2: seq<int>, n: nat, slotDepth: seq<int>, d: int, c: seq<int>)
    requires 0 <= d < 3 && |slotDepth| == n && |nx| == n + 6 && |pv| == n + 6 && |nx2| == n + 6 && |pv2| == n + 6
    requires InArena(n, c) && forall k :: 0 <= k < |c| ==> slotDepth[c[k]] == d
    requires LinkedPrefix(nx, pv, n, d, c)
    requires forall i :: 0 <= i < n + 6 && Owner(n, slotDepth, i) == d ==> nx2[i] == nx[i] && pv2[i] == pv[i]
    ensures LinkedPrefix(nx2, pv2, n, d, c)
  {
    forall k | 0 <= k < |c|
      ensures nx2[Src(n, d, c, k)] == c[k] && pv2[c[k]] == Src(n, d, c, k)
    {
      assert Owner(n, slotDepth, Src(n, d, c, k)) == d && Owner(n, slotDepth, c[k]) == d;
    }
  }

  /**
   * The search of set(): walks outwards from slot `index`, alternately one
   * step back and one step forward, until it meets a set tile of class `d`
   * or runs off either end. `p`/`q` are the chain neighbours the new tile
   * goes between and `k` is the position it takes in chain `c`.
   */
  method FindNeighbours(nx: seq<int>, pv: seq<int>, slotDepth: seq<int>, n: nat, d: int, ghost c: seq<int>, index: int)
    returns (p: int, q: int, ghost k: int)
    requires |nx| == n + 6 && |pv| == n + 6 && |slotDepth| == n && 0 <= d < 3
    requires InArena(n, c) && Increasing(c) && LinkedChain(nx, pv, n, d, c)
    requires forall v :: 0 <= v < n ==> (v in c <==> slotDepth[v] != -1 && nx[v] != NIL && slotDepth[v] == d)
    requires 0 <= index < n && index !in c
    ensures 0 <= k <= |c|
    ensures p == Src(n, d, c, k) && q == Dst(n, d, c, k)
    ensures forall j :: 0 <= j < k ==> c[j] < index
    ensures forall j :: k <= j < |c| ==> index < c[j]
  {
    var pi, ni := index, index;
    while true
      invariant 0 <= pi <= index <= ni < n && ni - index == index - pi
      invariant forall m :: 0 <= m < |c| ==> c[m] < pi || c[m] > ni
      decreases pi
    {
      pi := pi - 1;
      if pi < 0 {
        p, k := Head(n, d), 0;
        q := nx[p];
        SplitAt(c, index, 0);
        return;
      }
      ni := ni + 1;
      if ni >= n {
        q, k := Tail(n, d), |c|;
        p := pv[q];
        SplitAt(c, index, |c|);
        return;
      }
      if slotDepth[pi] != -1 && nx[pi] != NIL && slotDepth[pi] == d {
        assert pi in c;
        ghost var j :| 0 <= j < |c| && c[j] == pi;
        p, k := pi, j + 1;
        q := nx[p];
        assert j + 1 < |c| ==> c[j] < c[j + 1];
        SplitAt(c, index, j + 1);
        return;
      }
      if slotDepth[ni] != -1 && nx[ni] != NIL && slotDepth[ni] == d {
        assert ni in c;
        ghost var j :| 0 <= j < |c| && c[j] == ni;
        q, k := ni, j;
        p := pv[q];
        assert j > 0 ==> c[j - 1] < c[j];
        SplitAt(c, index, j);
        return;
      }
      assert forall m :: 0 <= m < |c| ==> c[m] != pi && c[m] != ni;
    }
  }

  /**
   * Chain `c` is list `d` of a valid set: the set slots of class `d`, each
   * once, in slot order, linked head to tail.
   */
  ghost predicate ChainValid(nx: seq<int>, pv: seq<int>, n: nat, slotDepth: seq<int>, members: set<int>, d: int, c: seq<int>)
    requires |nx| == n + 6 && |pv| == n + 6 && |slotDepth| == n && 0 <= d < 3
  {
    InArena(n, c) && Increasing(c) &&
    (forall k :: 0 <= k < |c| ==> slotDepth[c[k]] == d && c[k] in members) &&
    (forall i :: 0 <= i < n && i in members && slotDepth[i] == d ==> i in c) &&
    LinkedChain(nx, pv, n, d, c)
  }

  /**
   * The invariant of a tile set: each list is valid; only valid slots are
   * set; a slot is set exactly when its `next` is not null (isSet); a slot
   * that is not set has a null `prev` too.
   */
  ghost predicate ArenaValid(nx: seq<int>, pv: seq<int>, n: nat, slotDepth: seq<int>, chains: seq<seq<int>>, members: set<int>) {
    |nx| == n + 6 && |pv| == n + 6 && |slotDepth| == n && |chains| == 3 &&
    (forall i :: 0 <= i < n ==> -1 <= slotDepth[i] < 3) &&
    (forall d :: 0 <= d < 3 ==> ChainValid(nx, pv, n, slotDepth, members, d, chains[d])) &&
    (forall i :: i in members ==> 0 <= i < n && slotDepth[i] != -1) &&
    (forall i :: 0 <= i < n ==> (i in members <==> nx[i] != NIL)) &&
    (forall i :: 0 <= i < n && i !in members ==> pv[i] == NIL)
  }

  /** The slots of depth class -1 are never linked. */
  lemma InvalidSlotsUnlinked(nx: seq<int>, pv: seq<int>, n: nat, slotDepth: seq<int>, chains: seq<seq<int>>, members: set<int>)
    requires ArenaValid(nx, pv, n, slotDepth, chains, members)
    ensures forall j :: 0 <= j < n && slotDepth[j] == -1 ==> nx[j] == NIL && pv[j] == NIL
  {
  }

  /** A set with no tile set: all slot links null, every head linked to its tail. */
  lemma EmptyArenaValid(nx: seq<int>, pv: seq<int>, n: nat, slotDepth: seq<int>)
    requires |nx| == n + 6 && |pv| == n + 6 && |slotDepth| == n
    requires forall i :: 0 <= i < n ==> -1 <= slotDepth[i] < 3
    requires forall i :: 0 <= i < n ==> nx[i] == NIL && pv[i] == NIL
    requires forall d :: 0 <= d < 3 ==> nx[Head(n, d)] == Tail(n, d) && pv[Tail(n, d)] == Head(n, d)
    ensures ArenaValid(nx, pv, n, slotDepth, [[], [], []], {})
  {
    forall d | 0 <= d < 3 ensures ChainValid(nx, pv, n, slotDepth, {}, d, [])
    {
      assert Src(n, d, [], 0) == Head(n, d) && Dst(n, d, [], 0) == Tail(n, d);
    }
  }

  /** The set is empty exactly when all three lists are. */
  lemma NoMembersIffChainsEmpty(nx: seq<int>, pv: seq<int>, n: nat, slotDepth: seq<int>, chains: seq<seq<int>>, members: set<int>)
    requires ArenaValid(nx, pv, n, slotDepth, chains, members)
    ensures members == {} <==> chains[0] == [] && chains[1] == [] && chains[2] == []
  {
    forall i | i in members ensures 0 <= slotDepth[i] < 3 && i in chains[slotDepth[i]] {
      assert ChainValid(nx, pv, n, slotDepth, members, slotDepth[i], chains[slotDepth[i]]);
    }
    if chains[0] == [] && chains[1] == [] && chains[2] == [] {
      assert forall i :: i !in members;
      assert members == {};
    }
    assert ChainValid(nx, pv, n, slotDepth, members, 0, chains[0]);
    assert ChainValid(nx, pv, n, slotDepth, members, 1, chains[1]);
    assert ChainValid(nx, pv, n, slotDepth, members, 2, chains[2]);
    assert chains[0] != [] ==> chains[0][0] in members;
    assert chains[1] != [] ==> chains[1][0] in members;
    assert chains[2] != [] ==> chains[2][0] in members;
  }

  /** List `d` is the set slots of class `d` in slot order: the links hold no more state than the set does. */
  lemma ChainIsSortedMembers(nx: seq<int>, pv: seq<int>, n: nat, slotDepth: seq<int>, chains: seq<seq<int>>, members: set<int>, d: int)
    requires ArenaValid(nx, pv, n, slotDepth, chains, members) && 0 <= d < 3
    ensures chains[d] == SlotsOfDepth(slotDepth, members, d, n)
  {
    var c := chains[d];
    assert ChainValid(nx, pv, n, slotDepth, members, d, c);
    SlotsOfDepthSpec(slotDepth, members, d, n);
    assert forall k :: 0 <= k < |c| ==> c[k] in c;
    IncreasingUnique(c, SlotsOfDepth(slotDepth, members, d, n));
  }

  /** What the search of set() reads: a slot is in list `d` exactly when it is a set tile of class `d`. */
  lemma ChainMembership(nx: seq<int>, pv: seq<int>, n: nat, slotDepth: seq<int>, chains: seq<seq<int>>, members: set<int>, d: int)
    requires ArenaValid(nx, pv, n, slotDepth, chains, members) && 0 <= d < 3
    ensures InArena(n, chains[d]) && Increasing(chains[d]) && LinkedChain(nx, pv, n, d, chains[d])
    ensures forall v :: 0 <= v < n ==> (v in chains[d] <==> slotDepth[v] != -1 && nx[v] != NIL && slotDepth[v] == d)
  {
    var c := chains[d];
    assert ChainValid(nx, pv, n, slotDepth, members, d, c);
    forall v | 0 <= v < n && v in c ensures slotDepth[v] == d && v in members {
      var k :| 0 <= k < |c| && c[k] == v;
    }
  }

  /** Where a set slot sits in its list, and its two links. */
  lemma ChainPositionOf(nx: seq<int>, pv: seq<int>, n: nat, slotDepth: seq<int>, chains: seq<seq<int>>, members: set<int>, v: int)
    returns (k: int)
    requires ArenaValid(nx, pv, n, slotDepth, chains, members) && v in members
    ensures 0 <= slotDepth[v] < 3
    ensures 0 <= k < |chains[slotDepth[v]]| && chains[slotDepth[v]][k] == v
    ensures pv[v] == Src(n, slotDepth[v], chains[slotDepth[v]], k)
    ensures nx[v] == Dst(n, slotDepth[v], chains[slotDepth[v]], k + 1)
  {
    var d := slotDepth[v];
    var c := chains[d];
    assert ChainValid(nx, pv, n, slotDepth, members, d, c);
    assert v in c;
    k :| 0 <= k < |c| && c[k] == v;
    assert nx[Src(n, d, c, k + 1)] == Dst(n, d, c, k + 1);
    assert pv[Dst(n, d, c, k)] == Src(n, d, c, k);
  }

  /**
   * set(): linking a new slot `i` of class `d` between the neighbours at
   * position `k` of its list keeps the set valid and adds `i` to it.
   */
  lemma InsertValid(nx: seq<int>, pv: seq<int>, n: nat, slotDepth: seq<int>, chains: seq<seq<int>>, members: set<int>, i: int, k: int)
    requires ArenaValid(nx, pv, n, slotDepth, chains, members)
    requires 0 <= i < n && 0 <= slotDepth[i] < 3 && i !in members
    requires 0 <= k <= |chains[slotDepth[i]]|
    requires forall j :: 0 <= j < k ==> chains[slotDepth[i]][j] < i
    requires forall j :: k <= j < |chains[slotDepth[i]]| ==> i < chains[slotDepth[i]][j]
    ensures var d, c := slotDepth[i], chains[slotDepth[i]];
      ArenaValid(nx[Src(n, d, c, k) := i][i := Dst(n, d, c, k)], pv[i := Src(n, d, c, k)][Dst(n, d, c, k) := i],
                 n, slotDepth, chains[d := c[..k] + [i] + c[k..]], members + {i})
  {
    var d, c := slotDepth[i], chains[slotDepth[i]];
    var p, q := Src(n, d, c, k), Dst(n, d, c, k);
    var nx', pv' := nx[p := i][i := q], pv[i := p][q := i];
    var chains', members' := chains[d := c[..k] + [i] + c[k..]], members + {i};
    assert ChainValid(nx, pv, n, slotDepth, members, d, c);
    InsertLinks(nx, pv, n, d, c, k, i);
    assert Owner(n, slotDepth, p) == d && Owner(n, slotDepth, q) == d;
    forall e | 0 <= e < 3 ensures ChainValid(nx', pv', n, slotDepth, members', e, chains'[e]) {
      if e != d {
        assert ChainValid(nx, pv, n, slotDepth, members, e, chains[e]);
        LinkedChainFrame(nx, pv, nx', pv', n, slotDepth, e, chains[e]);
      } else {
        InsertedChainValid(n, slotDepth, members, d, c, k, i, chains'[d]);
      }
    }
  }

  /** The elements of list `d` after inserting `i`: the old ones and `i`. */
  lemma InsertedChainValid(n: nat, slotDepth: seq<int>, members: set<int>, d: int, c: seq<int>, k: int, i: int, c': seq<int>)
    requires |slotDepth| == n && 0 <= d < 3 && 0 <= k <= |c| && 0 <= i < n && slotDepth[i] == d
    requires InArena(n, c) && forall m :: 0 <= m < |c| ==> slotDepth[c[m]] == d && c[m] in members
    requires forall v :: 0 <= v < n && v in members && slotDepth[v] == d ==> v in c
    requires c' == c[..k] + [i] + c[k..]
    ensures forall m :: 0 <= m < |c'| ==> 0 <= c'[m] < n && slotDepth[c'[m]] == d && c'[m] in members + {i}
    ensures forall v :: 0 <= v < n && v in members + {i} && slotDepth[v] == d ==> v in c'
  {
    assert forall m :: 0 <= m < |c'| ==> c'[m] == if m < k then c[m] else if m == k then i else c[m - 1];
    forall v | 0 <= v < n && v in members + {i} && slotDepth[v] == d ensures v in c' {
      if v != i {
        var m :| 0 <= m < |c| && c[m] == v;
        if m < k { assert c'[m] == v; } else { assert c'[m + 1] == v; }
      } else {
        assert c'[k] == i;
      }
    }
  }

  /**
   * remove(): unlinking the slot at position `k` of list `d` keeps the set
   * valid and takes that slot out of it.
   */
  lemma RemoveValid(nx: seq<int>, pv: seq<int>, n: nat, slotDepth: seq<int>, chains: seq<seq<int>>, members: set<int>, d: int, k: int)
    requires ArenaValid(nx, pv, n, slotDepth, chains, members) && 0 <= d < 3 && 0 <= k < |chains[d]|
    ensures var c := chains[d];
      ArenaValid(nx[Src(n, d, c, k) := Dst(n, d, c, k + 1)][c[k] := NIL], pv[Dst(n, d, c, k + 1) := Src(n, d, c, k)][c[k] := NIL],
                 n, slotDepth, chains[d := c[..k] + c[k + 1..]], members - {c[k]})
  {
    var c := chains[d];
    var i, p, q := c[k], Src(n, d, c, k), Dst(n, d, c, k + 1);
    var nx', pv' := nx[p := q][i := NIL], pv[q := p][i := NIL];
    var chains', members' := chains[d := c[..k] + c[k + 1..]], members - {i};
    assert ChainValid(nx, pv, n, slotDepth, members, d, c);
    RemoveLinks(nx, pv, n, d, c, k);
    assert Owner(n, slotDepth, p) == d && Owner(n, slotDepth, q) == d && Owner(n, slotDepth, i) == d;
    forall e | 0 <= e < 3 ensures ChainValid(nx', pv', n, slotDepth, members', e, chains'[e]) {
      if e != d {
        assert ChainValid(nx, pv, n, slotDepth, members, e, chains[e]);
        forall m | 0 <= m < |chains[e]| ensures chains[e][m] != i {}
        LinkedChainFrame(nx, pv, nx', pv', n, slotDepth, e, chains[e]);
      } else {
        RemovedChainValid(n, slotDepth, members, d, c, k, chains'[d]);
      }
    }
  }

  /** The elements of list `d` after removing its `k`-th: the others. */
  lemma RemovedChainValid(n: nat, slotDepth: seq<int>, members: set<int>, d: int, c: seq<int>, k: int, c': seq<int>)
    requires |slotDepth| == n && 0 <= d < 3 && 0 <= k < |c| && Increasing(c)
    requires InArena(n, c) && forall m :: 0 <= m < |c| ==> slotDepth[c[m]] == d && c[m] in members
    requires forall v :: 0 <= v < n && v in members && slotDepth[v] == d ==> v in c
    requires c' == c[..k] + c[k + 1..]
    ensures forall m :: 0 <= m < |c'| ==> 0 <= c'[m] < n && slotDepth[c'[m]] == d && c'[m] in members - {c[k]}
    ensures forall v :: 0 <= v < n && v in members - {c[k]} && slotDepth[v] == d ==> v in c'
  {
    RemovedIncreasing(n, c, k);
    forall m | 0 <= m < |c'| ensures c'[m] != c[k] {
      if m < k { assert c[m] < c[k]; } else { assert c[k] < c[m + 1]; }
    }
    forall v | 0 <= v < n && v in members - {c[k]} && slotDepth[v] == d ensures v in c' {
      var m :| 0 <= m < |c| && c[m] == v;
      if m < k { assert c'[m] == v; } else { assert c'[m - 1] == v; }
    }
  }

  /** The valid slots: those whose depth class is not -1. */
  ghost function ValidSlotsOf(slotDepth: seq<int>): set<int> {
    set i | 0 <= i < |slotDepth| && slotDepth[i] != -1
  }

  /**
   * The state of setAll() after its first `i` slots: each list `d` is linked
   * from its head through the valid slots of class `d` below `i`, and
   * current[d] is the last node linked so far.
   */
  ghost predicate SetAllProgress(nx: seq<int>, pv: seq<int>, n: nat, slotDepth: seq<int>, current: seq<int>, i: int) {
    |nx| == n + 6 && |pv| == n + 6 && |slotDepth| == n && 0 <= i <= n && |current| == 3 &&
    (forall j :: 0 <= j < n ==> -1 <= slotDepth[j] < 3) &&
    (forall j :: 0 <= j < n && slotDepth[j] == -1 ==> nx[j] == NIL && pv[j] == NIL) &&
    (forall d :: 0 <= d < 3 ==> 0 <= current[d] < n + 6 && Owner(n, slotDepth, current[d]) == d) &&
    forall d :: 0 <= d < 3 ==> PrefixLinked(nx, pv, n, slotDepth, current, i, d)
  }

  /** List `d` is linked through the valid slots of class `d` below `i`, ending at current[d]. */
  ghost predicate PrefixLinked(nx: seq<int>, pv: seq<int>, n: nat, slotDepth: seq<int>, current: seq<int>, i: int, d: int)
    requires |nx| == n + 6 && |pv| == n + 6 && |slotDepth| == n && 0 <= i <= n && |current| == 3 && 0 <= d < 3
  {
    var c := SlotsOfDepth(slotDepth, ValidSlotsOf(slotDepth), d, i);
    InArena(n, c) && current[d] == Src(n, d, c, |c|) && LinkedPrefix(nx, pv, n, d, c)
  }

  /** setAll() starts with nothing linked after the heads. */
  lemma SetAllStart(nx: seq<int>, pv: seq<int>, n: nat, slotDepth: seq<int>)
    requires |nx| == n + 6 && |pv| == n + 6 && |slotDepth| == n
    requires forall j :: 0 <= j < n ==> -1 <= slotDepth[j] < 3
    requires forall j :: 0 <= j < n && slotDepth[j] == -1 ==> nx[j] == NIL && pv[j] == NIL
    ensures SetAllProgress(nx, pv, n, slotDepth, [Head(n, 0), Head(n, 1), Head(n, 2)], 0)
  {
  }

  /** One pass of setAll()'s loop: a valid slot is linked after the last node of its class. */
  lemma SetAllStep(nx: seq<int>, pv: seq<int>, n: nat, slotDepth: seq<int>, current: seq<int>, i: int)
    requires SetAllProgress(nx, pv, n, slotDepth, current, i) && i < n
    ensures slotDepth[i] == -1 ==> SetAllProgress(nx, pv, n, slotDepth, current, i + 1)
    ensures slotDepth[i] != -1 ==>
      SetAllProgress(nx[current[slotDepth[i]] := i], pv[i := current[slotDepth[i]]], n, slotDepth, current[slotDepth[i] := i], i + 1)
  {
    var i' := i + 1;
    if slotDepth[i] == -1 {
      forall d | 0 <= d < 3 ensures PrefixLinked(nx, pv, n, slotDepth, current, i', d) {
        SkipInvalid(nx, pv, n, slotDepth, current, i, d);
      }
    } else {
      var d := slotDepth[i];
      var nx', pv', current' := nx[current[d] := i], pv[i := current[d]], current[d := i];
      forall e | 0 <= e < 3 ensures PrefixLinked(nx', pv', n, slotDepth, current', i', e) {
        if e == d {
          LinkValid(nx, pv, n, slotDepth, current, i, nx', pv', current');
        } else {
          LinkOther(nx, pv, n, slotDepth, current, i, e, nx', pv', current');
        }
      }
    }
  }

  /** An invalid slot leaves every list as it was. */
  lemma SkipInvalid(nx: seq<int>, pv: seq<int>, n: nat, slotDepth: seq<int>, current: seq<int>, i: int, d: int)
    requires SetAllProgress(nx, pv, n, slotDepth, current, i) && i < n && slotDepth[i] == -1 && 0 <= d < 3
    ensures PrefixLinked(nx, pv, n, slotDepth, current, i + 1, d)
  {
    assert PrefixLinked(nx, pv, n, slotDepth, current, i, d);
    assert SlotsOfDepth(slotDepth, ValidSlotsOf(slotDepth), d, i + 1) == SlotsOfDepth(slotDepth, ValidSlotsOf(slotDepth), d, i);
  }

  /** A valid slot extends the list of its own class. */
  lemma LinkValid(nx: seq<int>, pv: seq<int>, n: nat, slotDepth: seq<int>, current: seq<int>, i: int,
                  nx': seq<int>, pv': seq<int>, current': seq<int>)
    requires SetAllProgress(nx, pv, n, slotDepth, current, i) && i < n && slotDepth[i] != -1
    requires nx' == nx[current[slotDepth[i]] := i] && pv' == pv[i := current[slotDepth[i]]] && current' == current[slotDepth[i] := i]
    ensures PrefixLinked(nx', pv', n, slotDepth, current', i + 1, slotDepth[i])
  {
    var all := ValidSlotsOf(slotDepth);
    var d := slotDepth[i];
    var c := SlotsOfDepth(slotDepth, all, d, i);
    assert PrefixLinked(nx, pv, n, slotDepth, current, i, d);
    SlotsOfDepthSpec(slotDepth, all, d, i);
    assert forall k :: 0 <= k < |c| ==> c[k] in c;
    ExtendPrefix(nx, pv, n, d, c, i);
    assert i in all;
    assert SlotsOfDepth(slotDepth, all, d, i + 1) == c + [i];
  }

  /** A valid slot leaves the lists of the other classes linked as they were. */
  lemma LinkOther(nx: seq<int>, pv: seq<int>, n: nat, slotDepth: seq<int>, current: seq<int>, i: int, e: int,
                  nx': seq<int>, pv': seq<int>, current': seq<int>)
    requires SetAllProgress(nx, pv, n, slotDepth, current, i) && i < n && slotDepth[i] != -1
    requires 0 <= e < 3 && e != slotDepth[i]
    requires nx' == nx[current[slotDepth[i]] := i] && pv' == pv[i := current[slotDepth[i]]] && current' == current[slotDepth[i] := i]
    ensures PrefixLinked(nx', pv', n, slotDepth, current', i + 1, e)
  {
    var all := ValidSlotsOf(slotDepth);
    assert PrefixLinked(nx, pv, n, slotDepth, current, i, e);
    var ce := SlotsOfDepth(slotDepth, all, e, i);
    assert SlotsOfDepth(slotDepth, all, e, i + 1) == ce;
    SlotsOfDepthSpec(slotDepth, all, e, i);
    assert forall k :: 0 <= k < |ce| ==> ce[k] in ce;
    PrefixFrame(nx, pv, nx', pv', n, slotDepth, e, ce);
  }

  /** Linking the last node of each list to its tail, all three at once. */
  function CloseNext(nx: seq<int>, n: nat, current: seq<int>): seq<int>
    requires |nx| == n + 6 && |current| == 3 && forall d :: 0 <= d < 3 ==> 0 <= current[d] < n + 6
  {
    nx[current[0] := Tail(n, 0)][current[1] := Tail(n, 1)][current[2] := Tail(n, 2)]
  }

  function ClosePrev(pv: seq<int>, n: nat, current: seq<int>): seq<int>
    requires |pv| == n + 6 && |current| == 3
  {
    pv[Tail(n, 0) := current[0]][Tail(n, 1) := current[1]][Tail(n, 2) := current[2]]
  }

  /** The end of setAll() for list `d`: it is list `d` of the full set. */
  lemma SetAllCloseChain(nx: seq<int>, pv: seq<int>, n: nat, slotDepth: seq<int>, current: seq<int>, d: int)
    requires |nx| == n + 6 && |pv| == n + 6 && |slotDepth| == n && |current| == 3 && 0 <= d < 3
    requires forall e :: 0 <= e < 3 ==> 0 <= current[e] < n + 6 && Owner(n, slotDepth, current[e]) == e
    requires PrefixLinked(nx, pv, n, slotDepth, current, n, d)
    ensures ChainValid(CloseNext(nx, n, current), ClosePrev(pv, n, current), n, slotDepth, ValidSlotsOf(slotDepth), d,
                       SlotsOfDepth(slotDepth, ValidSlotsOf(slotDepth), d, n))
  {
    var all := ValidSlotsOf(slotDepth);
    var c := SlotsOfDepth(slotDepth, all, d, n);
    SlotsOfDepthSpec(slotDepth, all, d, n);
    assert forall k :: 0 <= k < |c| ==> c[k] in c;
    ClosePrefix(nx, pv, n, d, c);
    CloseKeepsChain(nx, pv, n, slotDepth, current, d, c);
    SortedChainValid(CloseNext(nx, n, current), ClosePrev(pv, n, current), n, slotDepth, d);
  }

  /** Closing the other two lists as well leaves closed list `d` linked. */
  lemma CloseKeepsChain(nx: seq<int>, pv: seq<int>, n: nat, slotDepth: seq<int>, current: seq<int>, d: int, c: seq<int>)
    requires |nx| == n + 6 && |pv| == n + 6 && |slotDepth| == n && |current| == 3 && 0 <= d < 3
    requires forall e :: 0 <= e < 3 ==> 0 <= current[e] < n + 6 && Owner(n, slotDepth, current[e]) == e
    requires InArena(n, c) && forall k :: 0 <= k < |c| ==> slotDepth[c[k]] == d
    requires LinkedChain(nx[current[d] := Tail(n, d)], pv[Tail(n, d) := current[d]], n, d, c)
    ensures LinkedChain(CloseNext(nx, n, current), ClosePrev(pv, n, current), n, d, c)
  {
    CloseFrame(nx, pv, n, slotDepth, current, d);
    LinkedChainFrame(nx[current[d] := Tail(n, d)], pv[Tail(n, d) := current[d]],
                     CloseNext(nx, n, current), ClosePrev(pv, n, current), n, slotDepth, d, c);
  }

  /** The valid slots of class `d` in slot order, once linked, are list `d` of the set of valid slots. */
  lemma SortedChainValid(nx: seq<int>, pv: seq<int>, n: nat, slotDepth: seq<int>, d: int)
    requires |nx| == n + 6 && |pv| == n + 6 && |slotDepth| == n && 0 <= d < 3
    requires InArena(n, SlotsOfDepth(slotDepth, ValidSlotsOf(slotDepth), d, n))
    requires LinkedChain(nx, pv, n, d, SlotsOfDepth(slotDepth, ValidSlotsOf(slotDepth), d, n))
    ensures ChainValid(nx, pv, n, slotDepth, ValidSlotsOf(slotDepth), d, SlotsOfDepth(slotDepth, ValidSlotsOf(slotDepth), d, n))
  {
    var all := ValidSlotsOf(slotDepth);
    var c := SlotsOfDepth(slotDepth, all, d, n);
    SlotsOfDepthSpec(slotDepth, all, d, n);
    assert forall k :: 0 <= k < |c| ==> c[k] in c;
  }

  /** Closing all three lists changes the links of class `d` only as closing list `d` does. */
  lemma CloseFrame(nx: seq<int>, pv: seq<int>, n: nat, slotDepth: seq<int>, current: seq<int>, d: int)
    requires |nx| == n + 6 && |pv| == n + 6 && |slotDepth| == n && |current| == 3 && 0 <= d < 3
    requires forall e :: 0 <= e < 3 ==> 0 <= current[e] < n + 6 && Owner(n, slotDepth, current[e]) == e
    ensures forall i :: 0 <= i < n + 6 && Owner(n, slotDepth, i) == d ==>
      CloseNext(nx, n, current)[i] == nx[current[d] := Tail(n, d)][i] &&
      ClosePrev(pv, n, current)[i] == pv[Tail(n, d) := current[d]][i]
  {
    assert Owner(n, slotDepth, Tail(n, 0)) == 0;
    assert Owner(n, slotDepth, Tail(n, 1)) == 1;
    assert Owner(n, slotDepth, Tail(n, 2)) == 2;
  }

  /**
   * The end of setAll(): linking the last node of each list to its tail
   * gives the set of all valid slots, each list in slot order.
   */
  lemma SetAllClose(nx: seq<int>, pv: seq<int>, n: nat, slotDepth: seq<int>, current: seq<int>)
    requires SetAllProgress(nx, pv, n, slotDepth, current, n)
    ensures ArenaValid(CloseNext(nx, n, current), ClosePrev(pv, n, current), n, slotDepth,
                       [SlotsOfDepth(slotDepth, ValidSlotsOf(slotDepth), 0, n),
                        SlotsOfDepth(slotDepth, ValidSlotsOf(slotDepth), 1, n),
                        SlotsOfDepth(slotDepth, ValidSlotsOf(slotDepth), 2, n)],
                       ValidSlotsOf(slotDepth))
  {
    assert PrefixLinked(nx, pv, n, slotDepth, current, n, 0);
    assert PrefixLinked(nx, pv, n, slotDepth, current, n, 1);
    assert PrefixLinked(nx, pv, n, slotDepth, current, n, 2);
    SetAllCloseChain(nx, pv, n, slotDepth, current, 0);
    SetAllCloseChain(nx, pv, n, slotDepth, current, 1);
    SetAllCloseChain(nx, pv, n, slotDepth, current, 2);
    ClosedArenaValid(nx, pv, n, slotDepth, current);
  }

  /** The three closed lists, with no link on an invalid slot, make up the set of all valid slots. */
  lemma ClosedArenaValid(nx: seq<int>, pv: seq<int>, n: nat, slotDepth: seq<int>, current: seq<int>)
    requires |nx| == n + 6 && |pv| == n + 6 && |slotDepth| == n && |current| == 3
    requires forall j :: 0 <= j < n ==> -1 <= slotDepth[j] < 3
    requires forall j :: 0 <= j < n && slotDepth[j] == -1 ==> nx[j] == NIL && pv[j] == NIL
    requires forall e :: 0 <= e < 3 ==> 0 <= current[e] < n + 6 && Owner(n, slotDepth, current[e]) == e
    requires ChainValid(CloseNext(nx, n, current), ClosePrev(pv, n, current), n, slotDepth,
                        ValidSlotsOf(slotDepth), 0, SlotsOfDepth(slotDepth, ValidSlotsOf(slotDepth), 0, n))
    requires ChainValid(CloseNext(nx, n, current), ClosePrev(pv, n, current), n, slotDepth,
                        ValidSlotsOf(slotDepth), 1, SlotsOfDepth(slotDepth, ValidSlotsOf(slotDepth), 1, n))
    requires ChainValid(CloseNext(nx, n, current), ClosePrev(pv, n, current), n, slotDepth,
                        ValidSlotsOf(slotDepth), 2, SlotsOfDepth(slotDepth, ValidSlotsOf(slotDepth), 2, n))
    ensures ArenaValid(CloseNext(nx, n, current), ClosePrev(pv, n, current), n, slotDepth,
                       [SlotsOfDepth(slotDepth, ValidSlotsOf(slotDepth), 0, n),
                        SlotsOfDepth(slotDepth, ValidSlotsOf(slotDepth), 1, n),
                        SlotsOfDepth(slotDepth, ValidSlotsOf(slotDepth), 2, n)],
                       ValidSlotsOf(slotDepth))
  {
    var all := ValidSlotsOf(slotDepth);
    var cs := [SlotsOfDepth(slotDepth, all, 0, n), SlotsOfDepth(slotDepth, all, 1, n), SlotsOfDepth(slotDepth, all, 2, n)];
    var nx', pv' := CloseNext(nx, n, current), ClosePrev(pv, n, current);
    assert forall d :: 0 <= d < 3 ==> ChainValid(nx', pv', n, slotDepth, all, d, cs[d]);
    forall i | 0 <= i < n && i in all ensures nx'[i] != NIL {
      SetSlotLinked(nx', pv', n, slotDepth, all, cs[slotDepth[i]], i);
    }
    forall i | 0 <= i < n && i !in all ensures nx'[i] == NIL && pv'[i] == NIL {
      assert slotDepth[i] == -1;
      assert forall e :: 0 <= e < 3 ==> i != current[e] && i != Tail(n, e);
    }
  }

  /** A slot of a valid list has a `next` link. */
  lemma SetSlotLinked(nx: seq<int>, pv: seq<int>, n: nat, slotDepth: seq<int>, members: set<int>, c: seq<int>, i: int)
    requires |nx| == n + 6 && |pv| == n + 6 && |slotDepth| == n && 0 <= i < n && i in members && 0 <= slotDepth[i] < 3
    requires ChainValid(nx, pv, n, slotDepth, members, slotDepth[i], c)
    ensures nx[i] != NIL
  {
    var d := slotDepth[i];
    var k :| 0 <= k < |c| && c[k] == i;
    assert nx[Src(n, d, c, k + 1)] == Dst(n, d, c, k + 1);
  }
}
