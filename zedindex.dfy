/** The spatial index of game.cpp: every cell of the 32x32 grid keeps an
    intrusive doubly-linked list of the zeds standing in it. The head of the
    list of cell c is cols[c] (-1 for an empty cell); the links are the
    fields cnext/cprev of the zeds themselves, and zed[i].ix/iz record the
    cell whose list zed i is on.

    This module states the invariant of that structure over snapshots of the
    two arrays, gives the pointer surgery of updateColInfo and killZed as
    functions on snapshots, and proves that the surgery keeps the invariant.
    The class in game.dfy performs the same surgery on the arrays. */
module ZedIndex {

  const MAX_ZEDS := 4096
  const GRID := 32
  const CELLS := GRID * GRID

  // zed states (unsigned char in the source)
  const Z_NONE := 0
  const Z_DEAD := 1
  const Z_IDLE := 2
  const Z_WANDERING := 3
  const Z_ATTACKING := 4
  const Z_HEALTH := 10
  const Z_AMMO := 11

  /** A zed slot without its float position and heading. */
  datatype Zed = Zed(state: int, ix: int, iz: int, cnext: int, cprev: int)

  /** A snapshot of zed[] and cols[]. */
  datatype Grid = Grid(zeds: seq<Zed>, cols: seq<int>)

  predicate InGrid(ix: int, iz: int)
  {
    0 <= ix < GRID && 0 <= iz < GRID
  }

  function CellIndex(ix: int, iz: int): (c: int)
    requires InGrid(ix, iz)
    ensures 0 <= c < CELLS
  {
    iz * GRID + ix
  }

  /** Two grid positions with the same cell index are the same position. */
  lemma SameCell(x: int, z: int, x': int, z': int)
    requires InGrid(x, z) && InGrid(x', z') && CellIndex(x, z) == CellIndex(x', z')
    ensures x == x' && z == z'
  {
  }

  /** The cell whose list a zed says it is on. */
  function CellOf(z: Zed): int
  {
    z.iz * GRID + z.ix
  }

  predicate Shaped(g: Grid)
  {
    |g.zeds| == MAX_ZEDS && |g.cols| == CELLS
  }

  predicate IsLink(v: int)
  {
    v == -1 || 0 <= v < MAX_ZEDS
  }

  // ---------------------------------------------------------------- the invariant

  function Head(l: seq<int>): int
  {
    if |l| == 0 then -1 else l[0]
  }

  function Prev(l: seq<int>, k: int): int
    requires 0 <= k < |l|
  {
    if k == 0 then -1 else l[k - 1]
  }

  function Next(l: seq<int>, k: int): int
    requires 0 <= k < |l|
  {
    if k == |l| - 1 then -1 else l[k + 1]
  }

  predicate Distinct(l: seq<int>)
  {
    forall k, m :: 0 <= k < m < |l| ==> l[k] != l[m]
  }

  /** l, walked from its head, is the list of cell c: its zeds are on the
      grid and record cell c, none comes twice, and each one's cprev/cnext
      name its neighbours in l. */
  ghost predicate ListOk(zs: seq<Zed>, l: seq<int>, c: int)
    requires |zs| == MAX_ZEDS
  {
    && Distinct(l)
    && (forall k :: 0 <= k < |l| ==> 0 <= l[k] < MAX_ZEDS)
    && (forall k {:trigger zs[l[k]]} :: 0 <= k < |l| ==>
          InGrid(zs[l[k]].ix, zs[l[k]].iz) && CellOf(zs[l[k]]) == c)
    && (forall k {:trigger zs[l[k]]} :: 0 <= k < |l| ==>
          zs[l[k]].cprev == Prev(l, k) && zs[l[k]].cnext == Next(l, k))
  }

  /** The index is sound: lists[c] is the list of cell c and cols[c] is its
      head. */
  ghost predicate IndexOk(g: Grid, lists: seq<seq<int>>)
  {
    && Shaped(g) && |lists| == CELLS
    && (forall c :: 0 <= c < CELLS ==> ListOk(g.zeds, lists[c], c) && g.cols[c] == Head(lists[c]))
  }

  /** Zed j is linked: it is on the list of the cell it records. */
  ghost predicate Listed(g: Grid, lists: seq<seq<int>>, j: int)
    requires Shaped(g) && |lists| == CELLS
  {
    0 <= j < MAX_ZEDS && InGrid(g.zeds[j].ix, g.zeds[j].iz) && j in lists[CellOf(g.zeds[j])]
  }

  /** The states whose zeds walk about and are kept in the index. */
  predicate Moving(s: int)
  {
    s == Z_WANDERING || s == Z_ATTACKING
  }

  /** The linked zeds are exactly the wandering and attacking ones. */
  ghost predicate LinkedAreMoving(g: Grid, lists: seq<seq<int>>)
    requires Shaped(g) && |lists| == CELLS
  {
    forall j :: 0 <= j < MAX_ZEDS ==> (Moving(g.zeds[j].state) <==> Listed(g, lists, j))
  }

  /** A zed on any list is on the list of the cell it records. */
  lemma OnListIsListed(g: Grid, lists: seq<seq<int>>, c: int, j: int)
    requires IndexOk(g, lists) && 0 <= c < CELLS && j in lists[c]
    ensures Listed(g, lists, j) && CellOf(g.zeds[j]) == c
  {
    var k := Position(lists[c], j);
    assert ListOk(g.zeds, lists[c], c);
    assert g.zeds[lists[c][k]] == g.zeds[j];
  }

  /** The index of a freshly cleared world: every cols[c] is -1. */
  lemma EmptyIndexOk(g: Grid)
    requires Shaped(g) && forall c :: 0 <= c < CELLS ==> g.cols[c] == -1
    ensures IndexOk(g, NoLists())
    ensures forall j :: !Listed(g, NoLists(), j)
  {
  }

  /** Every cell's list empty. */
  function NoLists(): (r: seq<seq<int>>)
    ensures |r| == CELLS
  {
    seq(CELLS, _ => [])
  }

  // ---------------------------------------------------------------- list helpers

  /** Where x sits in l. */
  function Position(l: seq<int>, x: int): (p: nat)
    requires x in l
    ensures p < |l| && l[p] == x
  {
    if l[0] == x then 0 else 1 + Position(l[1..], x)
  }

  /** l without its element at position p. */
  function Drop(l: seq<int>, p: nat): (r: seq<int>)
    requires p < |l|
    ensures |r| == |l| - 1
    ensures forall k :: 0 <= k < p ==> r[k] == l[k]
    ensures forall k :: p <= k < |r| ==> r[k] == l[k + 1]
  {
    l[..p] + l[p + 1..]
  }

  /** Dropping one element of a list without repetitions removes exactly
      that element. */
  lemma DropMembers(l: seq<int>, p: nat)
    requires p < |l| && Distinct(l)
    ensures Distinct(Drop(l, p))
    ensures forall x :: x in Drop(l, p) <==> x in l && x != l[p]
  {
    var r := Drop(l, p);
    forall x | x in l && x != l[p]
      ensures x in r
    {
      var k := Position(l, x);
      if k < p {
        assert r[k] == x;
      } else {
        assert r[k - 1] == x;
      }
    }
  }

  /** The lists after zed i leaves the list of cell c. */
  function Removed(lists: seq<seq<int>>, c: int, i: int): seq<seq<int>>
    requires 0 <= c < |lists| && i in lists[c]
  {
    lists[c := Drop(lists[c], Position(lists[c], i))]
  }

  /** A list stays sound when no zed on it changes. */
  lemma ListFrame(zs: seq<Zed>, zs': seq<Zed>, l: seq<int>, c: int)
    requires |zs| == MAX_ZEDS && |zs'| == MAX_ZEDS && ListOk(zs, l, c)
    requires forall k :: 0 <= k < |l| ==> zs'[l[k]] == zs[l[k]]
    ensures ListOk(zs', l, c)
  {
  }

  // ---------------------------------------------------------------- unlinking

  /** What the unlink half of updateColInfo and killZed needs of zed i: its
      links and its cell are in range, and it is not its own neighbour. */
  predicate UnlinkPre(g: Grid, i: int)
  {
    && Shaped(g) && 0 <= i < MAX_ZEDS
    && InGrid(g.zeds[i].ix, g.zeds[i].iz)
    && IsLink(g.zeds[i].cnext) && IsLink(g.zeds[i].cprev)
    && g.zeds[i].cnext != i && g.zeds[i].cprev != i
    && (g.zeds[i].cnext == -1 || g.zeds[i].cnext != g.zeds[i].cprev)
  }

  /** Lines 237-242 and 395-400 of game.cpp: the successor takes over i's
      cprev; the predecessor, or the cell's head when i has none, takes
      over i's cnext. Zed i's own fields are left alone. */
  function Unlink(g: Grid, i: int): (r: Grid)
    requires UnlinkPre(g, i)
    ensures Shaped(r)
  {
    var z := g.zeds[i];
    var zs1 := if z.cnext != -1 then g.zeds[z.cnext := g.zeds[z.cnext].(cprev := z.cprev)] else g.zeds;
    if z.cprev != -1 then Grid(zs1[z.cprev := zs1[z.cprev].(cnext := z.cnext)], g.cols)
    else Grid(zs1, g.cols[CellIndex(z.ix, z.iz) := z.cnext])
  }


  /** A linked zed's links satisfy UnlinkPre, and they are its neighbours on
      the list of its cell. */
  lemma LinkedNeighbours(g: Grid, lists: seq<seq<int>>, i: int)
    requires IndexOk(g, lists) && Listed(g, lists, i)
    ensures UnlinkPre(g, i)
    ensures g.zeds[i].cprev == Prev(lists[CellOf(g.zeds[i])], Position(lists[CellOf(g.zeds[i])], i))
    ensures g.zeds[i].cnext == Next(lists[CellOf(g.zeds[i])], Position(lists[CellOf(g.zeds[i])], i))
  {
    var c := CellOf(g.zeds[i]);
    var l := lists[c];
    var p := Position(l, i);
    assert ListOk(g.zeds, l, c);
    assert g.zeds[l[p]].cprev == Prev(l, p) && g.zeds[l[p]].cnext == Next(l, p);
    if p > 0 {
      assert 0 <= l[p - 1] < MAX_ZEDS;
    }
    if p < |l| - 1 {
      assert 0 <= l[p + 1] < MAX_ZEDS;
    }
  }

  /** The list of cell c with position p dropped is sound once p's neighbours
      have been patched as Unlink patches them. */
  lemma DropListOk(zs: seq<Zed>, zs': seq<Zed>, l: seq<int>, c: int, p: nat)
    requires |zs| == MAX_ZEDS && |zs'| == MAX_ZEDS && p < |l| && ListOk(zs, l, c)
    requires p > 0 ==> zs'[l[p - 1]] == zs[l[p - 1]].(cnext := Next(l, p))
    requires p < |l| - 1 ==> zs'[l[p + 1]] == zs[l[p + 1]].(cprev := Prev(l, p))
    requires forall k :: 0 <= k < |l| && k != p - 1 && k != p + 1 ==> zs'[l[k]] == zs[l[k]]
    ensures ListOk(zs', Drop(l, p), c)
  {
    var r := Drop(l, p);
    DropMembers(l, p);
    forall k | 0 <= k < |r|
      ensures 0 <= r[k] < MAX_ZEDS && InGrid(zs'[r[k]].ix, zs'[r[k]].iz) && CellOf(zs'[r[k]]) == c
      ensures zs'[r[k]].cprev == Prev(r, k) && zs'[r[k]].cnext == Next(r, k)
    {
      var k0 := if k < p then k else k + 1;
      assert r[k] == l[k0];
      assert zs[l[k0]].cprev == Prev(l, k0) && zs[l[k0]].cnext == Next(l, k0);
      assert 0 <= l[k0] < MAX_ZEDS && InGrid(zs[l[k0]].ix, zs[l[k0]].iz) && CellOf(zs[l[k0]]) == c;
      if k > 0 {
        assert r[k - 1] == (if k - 1 < p then l[k - 1] else l[k]);
      }
      if k < |r| - 1 {
        assert r[k + 1] == (if k + 1 < p then l[k + 1] else l[k + 2]);
      }
    }
  }

  /** Unlink writes only i's two neighbours and, when i has no predecessor,
      the head of i's cell. */
  lemma UnlinkWrites(g: Grid, i: int)
    requires UnlinkPre(g, i)
    ensures forall j :: 0 <= j < MAX_ZEDS && j != g.zeds[i].cnext && j != g.zeds[i].cprev ==>
              Unlink(g, i).zeds[j] == g.zeds[j]
    ensures forall j :: 0 <= j < MAX_ZEDS ==>
              Unlink(g, i).zeds[j].state == g.zeds[j].state
              && Unlink(g, i).zeds[j].ix == g.zeds[j].ix && Unlink(g, i).zeds[j].iz == g.zeds[j].iz
    ensures forall c :: 0 <= c < CELLS && c != CellOf(g.zeds[i]) ==> Unlink(g, i).cols[c] == g.cols[c]
    ensures g.zeds[i].cprev != -1 ==>
              Unlink(g, i).zeds[g.zeds[i].cprev] == g.zeds[g.zeds[i].cprev].(cnext := g.zeds[i].cnext)
              && Unlink(g, i).cols[CellOf(g.zeds[i])] == g.cols[CellOf(g.zeds[i])]
    ensures g.zeds[i].cnext != -1 ==>
              Unlink(g, i).zeds[g.zeds[i].cnext] == g.zeds[g.zeds[i].cnext].(cprev := g.zeds[i].cprev)
    ensures g.zeds[i].cprev == -1 ==> Unlink(g, i).cols[CellOf(g.zeds[i])] == g.zeds[i].cnext
  {
  }

  /** The lists of the other cells are untouched by unlinking i. */
  lemma UnlinkOtherCell(g: Grid, lists: seq<seq<int>>, i: int, c': int)
    requires IndexOk(g, lists) && Listed(g, lists, i)
    requires 0 <= c' < CELLS && c' != CellOf(g.zeds[i])
    ensures UnlinkPre(g, i)
    ensures ListOk(Unlink(g, i).zeds, lists[c'], c') && Unlink(g, i).cols[c'] == Head(lists[c'])
  {
    LinkedNeighbours(g, lists, i);
    UnlinkWrites(g, i);
    var c := CellOf(g.zeds[i]);
    var l := lists[c];
    var p := Position(l, i);
    var r := Unlink(g, i);
    assert ListOk(g.zeds, l, c);
    assert ListOk(g.zeds, lists[c'], c');
    var l2 := lists[c'];
    forall k | 0 <= k < |l2|
      ensures r.zeds[l2[k]] == g.zeds[l2[k]]
    {
      assert CellOf(g.zeds[l2[k]]) == c';
      if p > 0 {
        assert CellOf(g.zeds[l[p - 1]]) == c;
      }
      if p < |l| - 1 {
        assert CellOf(g.zeds[l[p + 1]]) == c;
      }
    }
    ListFrame(g.zeds, r.zeds, l2, c');
  }

  /** Unlink as seen from the list of i's own cell: i's neighbours on it are
      patched, every other entry is untouched, and the head moves on to i's
      successor when i was the head. */
  lemma UnlinkOwnCellWrites(g: Grid, lists: seq<seq<int>>, i: int)
    requires IndexOk(g, lists) && Listed(g, lists, i)
    ensures UnlinkPre(g, i)
    ensures var c := CellOf(g.zeds[i]);
            var l := lists[c];
            var p := Position(l, i);
            && (p > 0 ==> Unlink(g, i).zeds[l[p - 1]] == g.zeds[l[p - 1]].(cnext := Next(l, p)))
            && (p < |l| - 1 ==> Unlink(g, i).zeds[l[p + 1]] == g.zeds[l[p + 1]].(cprev := Prev(l, p)))
            && (forall k :: 0 <= k < |l| && k != p - 1 && k != p + 1 ==> Unlink(g, i).zeds[l[k]] == g.zeds[l[k]])
            && Unlink(g, i).cols[c] == (if p == 0 then Next(l, 0) else l[0])
  {
    LinkedNeighbours(g, lists, i);
    UnlinkWrites(g, i);
    var c := CellOf(g.zeds[i]);
    var l := lists[c];
    var p := Position(l, i);
    var r := Unlink(g, i);
    assert ListOk(g.zeds, l, c);
    forall k | 0 <= k < |l| && k != p - 1 && k != p + 1
      ensures r.zeds[l[k]] == g.zeds[l[k]]
    {
      if p > 0 {
        assert l[k] != l[p - 1];
      }
      if p < |l| - 1 {
        assert l[k] != l[p + 1];
      }
    }
  }

  /** The list of i's own cell loses i and stays sound. */
  lemma UnlinkOwnCell(g: Grid, lists: seq<seq<int>>, i: int)
    requires IndexOk(g, lists) && Listed(g, lists, i)
    ensures UnlinkPre(g, i)
    ensures var c := CellOf(g.zeds[i]);
            var l' := Drop(lists[c], Position(lists[c], i));
            ListOk(Unlink(g, i).zeds, l', c) && Unlink(g, i).cols[c] == Head(l')
  {
    UnlinkOwnCellWrites(g, lists, i);
    var c := CellOf(g.zeds[i]);
    var l := lists[c];
    var p := Position(l, i);
    assert ListOk(g.zeds, l, c);
    DropListOk(g.zeds, Unlink(g, i).zeds, l, c, p);
    var l' := Drop(l, p);
    if p == 0 {
      assert Head(l') == Next(l, 0);
    } else {
      assert l'[0] == l[0];
    }
  }

  /** Unlinking a linked zed keeps the index sound: its cell's list loses it
      and nothing else. */
  lemma UnlinkIndexOk(g: Grid, lists: seq<seq<int>>, i: int)
    requires IndexOk(g, lists) && Listed(g, lists, i)
    ensures UnlinkPre(g, i)
    ensures IndexOk(Unlink(g, i), Removed(lists, CellOf(g.zeds[i]), i))
  {
    LinkedNeighbours(g, lists, i);
    var c := CellOf(g.zeds[i]);
    var r := Unlink(g, i);
    var lists' := Removed(lists, c, i);
    UnlinkOwnCell(g, lists, i);
    forall c' | 0 <= c' < CELLS
      ensures ListOk(r.zeds, lists'[c'], c') && r.cols[c'] == Head(lists'[c'])
    {
      if c' != c {
        UnlinkOtherCell(g, lists, i, c');
      }
    }
  }

  /** Unlinking i leaves exactly the other linked zeds linked. */
  lemma UnlinkListed(g: Grid, lists: seq<seq<int>>, i: int)
    requires IndexOk(g, lists) && Listed(g, lists, i)
    ensures UnlinkPre(g, i)
    ensures forall j :: Listed(Unlink(g, i), Removed(lists, CellOf(g.zeds[i]), i), j)
                        <==> Listed(g, lists, j) && j != i
  {
    LinkedNeighbours(g, lists, i);
    UnlinkWrites(g, i);
    var c := CellOf(g.zeds[i]);
    assert ListOk(g.zeds, lists[c], c);
    DropMembers(lists[c], Position(lists[c], i));
  }

  /** Unlinking a linked zed keeps the index sound: its cell's list loses it
      and nothing else, so exactly the other linked zeds stay linked. Cells,
      states and zed i's own fields do not change. */
  lemma UnlinkOk(g: Grid, lists: seq<seq<int>>, i: int)
    requires IndexOk(g, lists) && Listed(g, lists, i)
    ensures UnlinkPre(g, i)
    ensures IndexOk(Unlink(g, i), Removed(lists, CellOf(g.zeds[i]), i))
    ensures forall j :: Listed(Unlink(g, i), Removed(lists, CellOf(g.zeds[i]), i), j)
                        <==> Listed(g, lists, j) && j != i
    ensures forall j :: 0 <= j < MAX_ZEDS ==>
              Unlink(g, i).zeds[j].state == g.zeds[j].state
              && Unlink(g, i).zeds[j].ix == g.zeds[j].ix && Unlink(g, i).zeds[j].iz == g.zeds[j].iz
    ensures Unlink(g, i).zeds[i] == g.zeds[i]
  {
    UnlinkIndexOk(g, lists, i);
    UnlinkListed(g, lists, i);
    UnlinkWrites(g, i);
  }

  // ---------------------------------------------------------------- linking

  /** What the link half of updateColInfo needs: the destination cell is on
      the grid and its head is -1 or a zed. */
  predicate LinkPre(g: Grid, i: int, ix: int, iz: int)
  {
    Shaped(g) && 0 <= i < MAX_ZEDS && InGrid(ix, iz) && IsLink(g.cols[CellIndex(ix, iz)])
  }

  /** Lines 243-248 of game.cpp with the guard line 245 lacks: zed i becomes
      the head of the list of cell (ix, iz), the old head (if any) gets i as
      its cprev, and i records its new cell. */
  function Link(g: Grid, i: int, ix: int, iz: int): (r: Grid)
    requires LinkPre(g, i, ix, iz)
    ensures Shaped(r)
  {
    var d := CellIndex(ix, iz);
    var h := g.cols[d];
    var zs1 := g.zeds[i := g.zeds[i].(cprev := -1, cnext := h)];
    var zs2 := if h != -1 then zs1[h := zs1[h].(cprev := i)] else zs1;
    Grid(zs2[i := zs2[i].(ix := ix, iz := iz)], g.cols[d := i])
  }

  /** A zed that is not linked is on no list at all. */
  lemma UnlistedOnNoList(g: Grid, lists: seq<seq<int>>, i: int)
    requires IndexOk(g, lists) && 0 <= i < MAX_ZEDS && !Listed(g, lists, i)
    ensures forall c :: 0 <= c < CELLS ==> i !in lists[c]
  {
    forall c | 0 <= c < CELLS && i in lists[c]
      ensures false
    {
      OnListIsListed(g, lists, c, i);
    }
  }

  /** Link moves zed i to cell (ix, iz) with no predecessor; no other zed
      changes cell, and no state changes. */
  lemma LinkWrites(g: Grid, i: int, ix: int, iz: int)
    requires LinkPre(g, i, ix, iz) && g.cols[CellIndex(ix, iz)] != i
    ensures var r := Link(g, i, ix, iz);
            && r.zeds[i].ix == ix && r.zeds[i].iz == iz && r.zeds[i].cprev == -1
            && r.cols[CellIndex(ix, iz)] == i
            && (forall j :: 0 <= j < MAX_ZEDS ==> r.zeds[j].state == g.zeds[j].state)
            && (forall j :: 0 <= j < MAX_ZEDS && j != i ==> r.zeds[j].ix == g.zeds[j].ix && r.zeds[j].iz == g.zeds[j].iz)
  {
  }

  /** Linking i into cell d = (ix, iz) leaves the list of every other cell
      sound and its head where it was. */
  lemma LinkOtherCell(g: Grid, lists: seq<seq<int>>, i: int, ix: int, iz: int, c': int)
    requires IndexOk(g, lists) && 0 <= i < MAX_ZEDS && !Listed(g, lists, i) && InGrid(ix, iz)
    requires 0 <= c' < CELLS && c' != CellIndex(ix, iz)
    ensures LinkPre(g, i, ix, iz)
    ensures ListOk(Link(g, i, ix, iz).zeds, lists[c'], c') && Link(g, i, ix, iz).cols[c'] == Head(lists[c'])
  {
    var d := CellIndex(ix, iz);
    assert ListOk(g.zeds, lists[d], d);
    if |lists[d]| > 0 {
      assert 0 <= lists[d][0] < MAX_ZEDS;
      assert CellOf(g.zeds[lists[d][0]]) == d;
    }
    UnlistedOnNoList(g, lists, i);
    var r := Link(g, i, ix, iz);
    var l2 := lists[c'];
    assert ListOk(g.zeds, l2, c');
    forall k | 0 <= k < |l2|
      ensures r.zeds[l2[k]] == g.zeds[l2[k]]
    {
      assert CellOf(g.zeds[l2[k]]) == c';
    }
    ListFrame(g.zeds, r.zeds, l2, c');
  }

  /** The list of cell d = (ix, iz) with i put at its head is sound, and i
      is its head. */
  lemma LinkOwnCell(g: Grid, lists: seq<seq<int>>, i: int, ix: int, iz: int)
    requires IndexOk(g, lists) && 0 <= i < MAX_ZEDS && !Listed(g, lists, i) && InGrid(ix, iz)
    ensures LinkPre(g, i, ix, iz)
    ensures ListOk(Link(g, i, ix, iz).zeds, [i] + lists[CellIndex(ix, iz)], CellIndex(ix, iz))
    ensures Link(g, i, ix, iz).cols[CellIndex(ix, iz)] == i
  {
    var d := CellIndex(ix, iz);
    var l := lists[d];
    assert ListOk(g.zeds, l, d);
    if |l| > 0 {
      assert 0 <= l[0] < MAX_ZEDS;
      assert CellOf(g.zeds[l[0]]) == d;
    }
    UnlistedOnNoList(g, lists, i);
    var r := Link(g, i, ix, iz);
    var l' := [i] + l;
    forall k | 0 <= k < |l'|
      ensures 0 <= l'[k] < MAX_ZEDS && InGrid(r.zeds[l'[k]].ix, r.zeds[l'[k]].iz) && CellOf(r.zeds[l'[k]]) == d
      ensures r.zeds[l'[k]].cprev == Prev(l', k) && r.zeds[l'[k]].cnext == Next(l', k)
    {
      if k > 0 {
        assert l'[k] == l[k - 1];
        assert g.zeds[l[k - 1]].cprev == Prev(l, k - 1) && g.zeds[l[k - 1]].cnext == Next(l, k - 1);
        assert 0 <= l[k - 1] < MAX_ZEDS && InGrid(g.zeds[l[k - 1]].ix, g.zeds[l[k - 1]].iz);
      }
    }
    assert Distinct(l') by {
      forall a, b | 0 <= a < b < |l'|
        ensures l'[a] != l'[b]
      {
        assert l'[b] == l[b - 1];
        if a > 0 {
          assert l'[a] == l[a - 1];
        }
      }
    }
  }

  /** Linking an unlinked zed into cell (ix, iz) keeps the index sound: that
      cell's list gains i at its head, and i joins the linked zeds. States do
      not change. */
  lemma LinkOk(g: Grid, lists: seq<seq<int>>, i: int, ix: int, iz: int)
    requires IndexOk(g, lists) && 0 <= i < MAX_ZEDS && !Listed(g, lists, i) && InGrid(ix, iz)
    ensures LinkPre(g, i, ix, iz)
    ensures IndexOk(Link(g, i, ix, iz), lists[CellIndex(ix, iz) := [i] + lists[CellIndex(ix, iz)]])
    ensures forall j :: Listed(Link(g, i, ix, iz), lists[CellIndex(ix, iz) := [i] + lists[CellIndex(ix, iz)]], j)
                        <==> Listed(g, lists, j) || j == i
    ensures forall j :: 0 <= j < MAX_ZEDS ==> Link(g, i, ix, iz).zeds[j].state == g.zeds[j].state
  {
    var d := CellIndex(ix, iz);
    var l := lists[d];
    var r := Link(g, i, ix, iz);
    var lists' := lists[d := [i] + l];
    LinkOwnCell(g, lists, i, ix, iz);
    forall c' | 0 <= c' < CELLS
      ensures ListOk(r.zeds, lists'[c'], c') && r.cols[c'] == Head(lists'[c'])
    {
      if c' != d {
        LinkOtherCell(g, lists, i, ix, iz, c');
      }
    }
    LinkListed(g, lists, i, ix, iz);
  }

  /** Linking i makes it linked and changes no other zed's standing. */
  lemma LinkListed(g: Grid, lists: seq<seq<int>>, i: int, ix: int, iz: int)
    requires IndexOk(g, lists) && 0 <= i < MAX_ZEDS && !Listed(g, lists, i) && InGrid(ix, iz)
    ensures LinkPre(g, i, ix, iz)
    ensures forall j :: Listed(Link(g, i, ix, iz), lists[CellIndex(ix, iz) := [i] + lists[CellIndex(ix, iz)]], j)
                        <==> Listed(g, lists, j) || j == i
  {
    var d := CellIndex(ix, iz);
    var l := lists[d];
    assert ListOk(g.zeds, l, d);
    if |l| > 0 {
      assert 0 <= l[0] < MAX_ZEDS;
    }
    var r := Link(g, i, ix, iz);
    var lists' := lists[d := [i] + l];
    forall j
      ensures Listed(r, lists', j) <==> Listed(g, lists, j) || j == i
    {
      if 0 <= j < MAX_ZEDS && j != i && InGrid(g.zeds[j].ix, g.zeds[j].iz) {
        assert r.zeds[j].ix == g.zeds[j].ix && r.zeds[j].iz == g.zeds[j].iz;
        if CellOf(g.zeds[j]) == d {
          assert j in lists'[d] <==> j in l;
        }
      }
    }
  }

  // ---------------------------------------------------------------- updateColInfo

  /** updateColInfo (game.cpp:233-250) given the cell the zed's float position
      now lies in: nothing happens when that is the cell it records,
      otherwise it is unlinked and linked again at the head of the new cell. */
  function Relink(g: Grid, i: int, ix: int, iz: int): Grid
    requires UnlinkPre(g, i) && InGrid(ix, iz)
    requires IsLink(Unlink(g, i).cols[CellIndex(ix, iz)])
  {
    if g.zeds[i].ix == ix && g.zeds[i].iz == iz then g
    else Link(Unlink(g, i), i, ix, iz)
  }

  /** The lists after a relink. */
  function Moved(lists: seq<seq<int>>, from: int, i: int, ix: int, iz: int): seq<seq<int>>
    requires 0 <= from < |lists| == CELLS && i in lists[from] && InGrid(ix, iz)
  {
    if from == CellIndex(ix, iz) then lists
    else
      var l1 := Removed(lists, from, i);
      l1[CellIndex(ix, iz) := [i] + l1[CellIndex(ix, iz)]]
  }

  /** The relink of a zed that changed cells: it is unlinked from the old
      cell's list and linked at the head of the new one. */
  lemma RelinkAcross(g: Grid, lists: seq<seq<int>>, i: int, ix: int, iz: int)
    requires IndexOk(g, lists) && Listed(g, lists, i) && InGrid(ix, iz)
    requires CellOf(g.zeds[i]) != CellIndex(ix, iz)
    ensures UnlinkPre(g, i) && IsLink(Unlink(g, i).cols[CellIndex(ix, iz)])
    ensures IndexOk(Relink(g, i, ix, iz), Moved(lists, CellOf(g.zeds[i]), i, ix, iz))
    ensures forall j :: Listed(Relink(g, i, ix, iz), Moved(lists, CellOf(g.zeds[i]), i, ix, iz), j)
                        <==> Listed(g, lists, j)
    ensures Relink(g, i, ix, iz).cols[CellIndex(ix, iz)] == i && Relink(g, i, ix, iz).zeds[i].cprev == -1
    ensures Relink(g, i, ix, iz).zeds[i].ix == ix && Relink(g, i, ix, iz).zeds[i].iz == iz
    ensures forall j :: 0 <= j < MAX_ZEDS ==> Relink(g, i, ix, iz).zeds[j].state == g.zeds[j].state
    ensures forall j :: 0 <= j < MAX_ZEDS && j != i ==>
              Relink(g, i, ix, iz).zeds[j].ix == g.zeds[j].ix && Relink(g, i, ix, iz).zeds[j].iz == g.zeds[j].iz
  {
    UnlinkOk(g, lists, i);
    var c := CellOf(g.zeds[i]);
    var d := CellIndex(ix, iz);
    var u := Unlink(g, i);
    var lists1 := Removed(lists, c, i);
    assert ListOk(u.zeds, lists1[d], d);
    if lists1[d] != [] {
      assert 0 <= lists1[d][0] < MAX_ZEDS;
    }
    assert g.zeds[i].ix != ix || g.zeds[i].iz != iz;
    assert Relink(g, i, ix, iz) == Link(u, i, ix, iz);
    LinkOk(u, lists1, i, ix, iz);
    UnlistedOnNoList(u, lists1, i);
    LinkWrites(u, i, ix, iz);
  }

  /** updateColInfo keeps the index sound, keeps the set of linked zeds, and
      leaves zed i recording the new cell at the head of its list. */
  lemma RelinkOk(g: Grid, lists: seq<seq<int>>, i: int, ix: int, iz: int)
    requires IndexOk(g, lists) && Listed(g, lists, i) && InGrid(ix, iz)
    ensures UnlinkPre(g, i) && IsLink(Unlink(g, i).cols[CellIndex(ix, iz)])
    ensures IndexOk(Relink(g, i, ix, iz), Moved(lists, CellOf(g.zeds[i]), i, ix, iz))
    ensures forall j :: Listed(Relink(g, i, ix, iz), Moved(lists, CellOf(g.zeds[i]), i, ix, iz), j)
                        <==> Listed(g, lists, j)
    ensures Relink(g, i, ix, iz).zeds[i].ix == ix && Relink(g, i, ix, iz).zeds[i].iz == iz
    ensures CellOf(g.zeds[i]) == CellIndex(ix, iz) ==> Relink(g, i, ix, iz) == g
    ensures CellOf(g.zeds[i]) != CellIndex(ix, iz) ==>
              Relink(g, i, ix, iz).cols[CellIndex(ix, iz)] == i && Relink(g, i, ix, iz).zeds[i].cprev == -1
    ensures forall j :: 0 <= j < MAX_ZEDS ==> Relink(g, i, ix, iz).zeds[j].state == g.zeds[j].state
    ensures forall j :: 0 <= j < MAX_ZEDS && j != i ==>
              Relink(g, i, ix, iz).zeds[j].ix == g.zeds[j].ix && Relink(g, i, ix, iz).zeds[j].iz == g.zeds[j].iz
  {
    if CellOf(g.zeds[i]) == CellIndex(ix, iz) {
      RelinkSame(g, lists, i, ix, iz);
    } else {
      RelinkAcross(g, lists, i, ix, iz);
    }
  }

  /** The relink of a zed that stayed in its cell changes nothing. */
  lemma RelinkSame(g: Grid, lists: seq<seq<int>>, i: int, ix: int, iz: int)
    requires IndexOk(g, lists) && Listed(g, lists, i) && InGrid(ix, iz)
    requires CellOf(g.zeds[i]) == CellIndex(ix, iz)
    ensures UnlinkPre(g, i) && IsLink(Unlink(g, i).cols[CellIndex(ix, iz)])
    ensures Relink(g, i, ix, iz) == g
    ensures Moved(lists, CellOf(g.zeds[i]), i, ix, iz) == lists
    ensures g.zeds[i].ix == ix && g.zeds[i].iz == iz
  {
    var c := CellOf(g.zeds[i]);
    SameCell(g.zeds[i].ix, g.zeds[i].iz, ix, iz);
    UnlinkOwnCell(g, lists, i);
    var l' := Drop(lists[c], Position(lists[c], i));
    if l' != [] {
      assert 0 <= l'[0] < MAX_ZEDS;
    }
  }

  /** Relinking moves no other zed between lists: every zed other than i is
      on the same lists as before, and i is on the list of its new cell only. */
  lemma MovedMembership(lists: seq<seq<int>>, from: int, i: int, ix: int, iz: int)
    requires 0 <= from < |lists| == CELLS && i in lists[from] && InGrid(ix, iz)
    requires Distinct(lists[from])
    requires from != CellIndex(ix, iz) ==> i !in lists[CellIndex(ix, iz)]
    ensures forall c, j :: 0 <= c < CELLS && j != i ==>
              (j in Moved(lists, from, i, ix, iz)[c] <==> j in lists[c])
    ensures i in Moved(lists, from, i, ix, iz)[CellIndex(ix, iz)]
    ensures from != CellIndex(ix, iz) ==> i !in Moved(lists, from, i, ix, iz)[from]
  {
    DropMembers(lists[from], Position(lists[from], i));
  }

  // ---------------------------------------------------------------- killZed

  /** killZed (game.cpp:395-403) without its particles: unlink, clear both
      links, free the slot. */
  function Kill(g: Grid, i: int): (r: Grid)
    requires UnlinkPre(g, i)
    ensures Shaped(r)
  {
    var u := Unlink(g, i);
    Grid(u.zeds[i := u.zeds[i].(cprev := -1, cnext := -1, state := Z_NONE)], u.cols)
  }

  /** Killing a zed rewrites links and states only: every zed, the killed
      one included, stays on its cell. */
  lemma KillKeepsCells(g: Grid, i: int)
    requires UnlinkPre(g, i)
    ensures forall j :: 0 <= j < MAX_ZEDS ==> Kill(g, i).zeds[j].ix == g.zeds[j].ix && Kill(g, i).zeds[j].iz == g.zeds[j].iz
  {
  }

  /** Writing a zed that is on no list leaves the index sound and the set of
      linked zeds as it was. */
  lemma UnlinkedWriteOk(g: Grid, lists: seq<seq<int>>, i: int, z: Zed)
    requires IndexOk(g, lists) && 0 <= i < MAX_ZEDS && !Listed(g, lists, i)
    ensures IndexOk(Grid(g.zeds[i := z], g.cols), lists)
    ensures forall j :: j != i ==> (Listed(Grid(g.zeds[i := z], g.cols), lists, j) <==> Listed(g, lists, j))
  {
    var zs' := g.zeds[i := z];
    UnlistedOnNoList(g, lists, i);
    forall c | 0 <= c < CELLS
      ensures ListOk(zs', lists[c], c)
    {
      assert ListOk(g.zeds, lists[c], c);
      ListFrame(g.zeds, zs', lists[c], c);
    }
  }

  /** zed[i].state = s: a write that leaves every link and cell alone. */
  function WithState(g: Grid, i: int, s: int): (r: Grid)
    requires Shaped(g) && 0 <= i < MAX_ZEDS
    ensures Shaped(r)
  {
    Grid(g.zeds[i := g.zeds[i].(state := s)], g.cols)
  }

  /** Changing a zed's state leaves the index sound and the set of linked
      zeds as it was: the index never looks at states. */
  lemma StateWriteOk(g: Grid, lists: seq<seq<int>>, i: int, s: int)
    requires IndexOk(g, lists) && 0 <= i < MAX_ZEDS
    ensures IndexOk(WithState(g, i, s), lists)
    ensures forall j :: Listed(WithState(g, i, s), lists, j) <==> Listed(g, lists, j)
  {
    var zs' := WithState(g, i, s).zeds;
    forall c | 0 <= c < CELLS
      ensures ListOk(zs', lists[c], c)
    {
      var l := lists[c];
      assert ListOk(g.zeds, l, c);
      forall k | 0 <= k < |l|
        ensures InGrid(zs'[l[k]].ix, zs'[l[k]].iz) && CellOf(zs'[l[k]]) == c
        ensures zs'[l[k]].cprev == Prev(l, k) && zs'[l[k]].cnext == Next(l, k)
      {
        assert g.zeds[l[k]].cprev == Prev(l, k);
      }
    }
  }

  /** Unlinking reads no state: after a state write, zed i can be unlinked
      as before, and the cell heads come out the same. */
  lemma StateKeepsUnlink(g: Grid, i: int, j: int, s: int)
    requires UnlinkPre(g, i) && 0 <= j < MAX_ZEDS
    ensures UnlinkPre(WithState(g, j, s), i)
    ensures Unlink(WithState(g, j, s), i).cols == Unlink(g, i).cols
  {
  }

  /** killZed leaves the index sound: the killed zed is free, has both links
      cleared and is on no list, and every other zed keeps its list
      membership, its state and its cell. */
  lemma KillOk(g: Grid, lists: seq<seq<int>>, i: int)
    requires IndexOk(g, lists) && Listed(g, lists, i)
    ensures UnlinkPre(g, i)
    ensures IndexOk(Kill(g, i), Removed(lists, CellOf(g.zeds[i]), i))
    ensures forall j :: Listed(Kill(g, i), Removed(lists, CellOf(g.zeds[i]), i), j)
                        <==> Listed(g, lists, j) && j != i
    ensures forall c :: 0 <= c < CELLS ==> i !in Removed(lists, CellOf(g.zeds[i]), i)[c]
    ensures forall c, j :: 0 <= c < CELLS && j != i ==>
              (j in Removed(lists, CellOf(g.zeds[i]), i)[c] <==> j in lists[c])
    ensures Kill(g, i).zeds[i].state == Z_NONE
    ensures Kill(g, i).zeds[i].cnext == -1 && Kill(g, i).zeds[i].cprev == -1
    ensures forall j :: 0 <= j < MAX_ZEDS && j != i ==>
              Kill(g, i).zeds[j].state == g.zeds[j].state && CellOf(Kill(g, i).zeds[j]) == CellOf(g.zeds[j])
  {
    UnlinkOk(g, lists, i);
    var c := CellOf(g.zeds[i]);
    var u := Unlink(g, i);
    var lists' := Removed(lists, c, i);
    assert !Listed(u, lists', i);
    UnlinkedWriteOk(u, lists', i, u.zeds[i].(cprev := -1, cnext := -1, state := Z_NONE));
    assert ListOk(g.zeds, lists[c], c);
    DropMembers(lists[c], Position(lists[c], i));
    UnlistedOnNoList(u, lists', i);
  }

  // ---------------------------------------------------------------- line 245 as written

  /** What a store to zed[] does: lands in a slot, or falls outside the array
      (undefined behaviour in C++). */
  datatype Store = Stored(g: Grid) | OutOfBounds(index: int)

  /** Lines 243-248 exactly as written: line 245 stores to
      zed[zed[i].cnext] without asking whether the destination cell had a
      head, so for an empty cell it writes zed[-1]. */
  function LinkAsWritten(g: Grid, i: int, ix: int, iz: int): (r: Store)
    requires Shaped(g) && 0 <= i < MAX_ZEDS && InGrid(ix, iz)
    ensures r.OutOfBounds? <==> !(0 <= g.cols[CellIndex(ix, iz)] < MAX_ZEDS)
    ensures r.OutOfBounds? ==> r.index == g.cols[CellIndex(ix, iz)]
  {
    var d := CellIndex(ix, iz);
    var h := g.cols[d];
    var zs1 := g.zeds[i := g.zeds[i].(cprev := -1, cnext := h)];
    if 0 <= h < MAX_ZEDS then
      var zs2 := zs1[h := zs1[h].(cprev := i)];
      Stored(Grid(zs2[i := zs2[i].(ix := ix, iz := iz)], g.cols[d := i]))
    else OutOfBounds(h)
  }

  /** Where the destination has a head, the code as written and the guarded
      Link agree. */
  lemma LinkAsWrittenAgrees(g: Grid, i: int, ix: int, iz: int)
    requires LinkPre(g, i, ix, iz) && g.cols[CellIndex(ix, iz)] != -1
    ensures LinkAsWritten(g, i, ix, iz) == Stored(Link(g, i, ix, iz))
  {
  }

  /** Moving a linked zed into a cell whose list is empty, as every cell's is
      once its last zed has walked out, makes line 245 store to zed[-1]. */
  lemma EmptyDestinationWritesMinusOne(g: Grid, lists: seq<seq<int>>, i: int, ix: int, iz: int)
    requires IndexOk(g, lists) && Listed(g, lists, i) && InGrid(ix, iz)
    requires lists[CellIndex(ix, iz)] == []
    ensures UnlinkPre(g, i)
    ensures LinkAsWritten(Unlink(g, i), i, ix, iz) == OutOfBounds(-1)
  {
    UnlinkOk(g, lists, i);
    UnlinkWrites(g, i);
    var d := CellIndex(ix, iz);
    assert g.cols[d] == -1;
    assert CellOf(g.zeds[i]) != d;
  }

  /** A concrete instance: one wandering zed alone in cell (15,12) walks
      south into cell (15,13), which init leaves empty. */
  lemma WalkIntoEmptyCell()
    ensures var g := Grid(seq(MAX_ZEDS, j => if j == 0 then Zed(Z_WANDERING, 15, 12, -1, -1) else Zed(Z_NONE, 0, 0, -1, -1)),
                          seq(CELLS, c => if c == 12 * GRID + 15 then 0 else -1));
            UnlinkPre(g, 0) && LinkAsWritten(Unlink(g, 0), 0, 15, 13) == OutOfBounds(-1)
  {
    var g := Grid(seq(MAX_ZEDS, j => if j == 0 then Zed(Z_WANDERING, 15, 12, -1, -1) else Zed(Z_NONE, 0, 0, -1, -1)),
                  seq(CELLS, c => if c == 12 * GRID + 15 then 0 else -1));
    var lists := seq(CELLS, c => if c == 12 * GRID + 15 then [0] else []);
    assert ListOk(g.zeds, lists[12 * GRID + 15], 12 * GRID + 15) by {
      assert g.zeds[lists[12 * GRID + 15][0]] == Zed(Z_WANDERING, 15, 12, -1, -1);
    }
    assert IndexOk(g, lists);
    EmptyDestinationWritesMinusOne(g, lists, 0, 15, 13);
  }
}
