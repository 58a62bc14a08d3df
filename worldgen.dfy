/** The value-level rules of init (game.cpp:80-221) after SDL and OpenGL are
    set up: what the building, cache and zed passes leave behind, stated
    over snapshots of the map and the zed slots. The methods of World in
    game.dfy run the passes on the arrays.

    rng's answers come from oracle functions keyed by the cell the pass is
    visiting (and, for the building pass, by the pass number); a real run
    draws them in scan order. */
module WorldGen {
  import opened ZedIndex
  import GameMap

  // ---------------------------------------------------------------- buildings

  /** Cell (x, z) had its building coin come up in one of the passes from
      `from` to 3 (the pass counter of line 132 runs 3, 2, 1). */
  predicate Coined(coin: (int, int, int) -> bool, from: int, x: int, z: int)
  {
    || (from <= 3 && coin(3, z, x))
    || (from <= 2 && coin(2, z, x))
    || (from <= 1 && coin(1, z, x))
  }

  /** A block on cell (x, z) whose doorway roll is one of the four cases
      of the switch has a doorway into it. */
  predicate DoorwayCut(m: seq<bv8>, door: (int, int) -> int, x: int, z: int)
    requires |m| == CELLS && 1 <= x <= 30 && 1 <= z <= 30
  {
    GameMap.Inside(m[CellIndex(x, z)]) && 0 <= door(z, x) <= 3 ==> GameMap.HasDoor(m, CellIndex(x, z))
  }

  /** The map the clearing loop of lines 125-126 leaves. */
  const BLANK: seq<bv8> := seq(CELLS, _ => 0)

  /** Cell k of building pass c (lines 134-145): a buildable cell whose coin
      comes up becomes a block, unless the neighbour test refuses it. */
  function BuildStep(m: seq<bv8>, coin: (int, int, int) -> bool, c: int, k: int): (r: seq<bv8>)
    requires |m| == CELLS && 0 <= k < CELLS
    ensures |r| == CELLS
  {
    if GameMap.Buildable(k) && coin(c, k / GRID, k % GRID) && !GameMap.Refused(m, k) then
      m[k := GameMap.INSIDE_BIT]
    else m
  }

  /** BuildStep at interior cell (ix, iy), in the coordinates the sweep
      uses. */
  lemma BuildStepAt(m: seq<bv8>, coin: (int, int, int) -> bool, c: int, ix: int, iy: int)
    requires |m| == CELLS && 1 <= ix <= 30 && 1 <= iy <= 30
    ensures GameMap.Interior(iy * GRID + ix)
    ensures BuildStep(m, coin, c, iy * GRID + ix) ==
              if iy != 13 && ix != 13 && coin(c, iy, ix) && !GameMap.Refused(m, iy * GRID + ix)
              then m[iy * GRID + ix := GameMap.INSIDE_BIT] else m
  {
    GameMap.CellCoords(ix, iy);
  }

  /** Building pass c over the cells before n, in scan order. */
  function BuildCells(m: seq<bv8>, coin: (int, int, int) -> bool, c: int, n: int): (r: seq<bv8>)
    requires |m| == CELLS && 0 <= n <= CELLS
    ensures |r| == CELLS
    decreases n
  {
    if n == 0 then m else BuildStep(BuildCells(m, coin, c, n - 1), coin, c, n - 1)
  }

  /** The building passes 3 down to c + 1 (the counter of line 132). */
  function BuildPasses(m: seq<bv8>, coin: (int, int, int) -> bool, c: int): (r: seq<bv8>)
    requires |m| == CELLS && 0 <= c <= 3
    ensures |r| == CELLS
    decreases 3 - c
  {
    if c == 3 then m else BuildCells(BuildPasses(m, coin, c + 1), coin, c + 1, CELLS)
  }

  /** The whole building pass (lines 132-146) on map m. */
  function Buildings(coin: (int, int, int) -> bool, m: seq<bv8>): (r: seq<bv8>)
    requires |m| == CELLS
    ensures |r| == CELLS
  {
    BuildPasses(m, coin, 0)
  }

  /** Cells outside the interior leave a building pass as it is. */
  lemma {:induction false} BuildCellsSkip(m: seq<bv8>, coin: (int, int, int) -> bool, c: int, n: int, top: int)
    requires |m| == CELLS && 0 <= n <= top <= CELLS
    requires forall k :: n <= k < top ==> !GameMap.Interior(k)
    ensures BuildCells(m, coin, c, top) == BuildCells(m, coin, c, n)
  {
    if n < top {
      BuildCellsSkip(m, coin, c, n, top - 1);
    }
  }

  /** A building pass never removes a block. */
  lemma {:induction false} BuildCellsGrow(m: seq<bv8>, coin: (int, int, int) -> bool, c: int, n: int, top: int)
    requires |m| == CELLS && 0 <= n <= top <= CELLS
    ensures forall k :: 0 <= k < CELLS && GameMap.Inside(BuildCells(m, coin, c, n)[k]) ==>
              GameMap.Inside(BuildCells(m, coin, c, top)[k])
  {
    if n < top {
      BuildCellsGrow(m, coin, c, n, top - 1);
    }
  }

  /** A building pass keeps a map of blocks one: it adds a block exactly on
      the buildable cells whose coin came up and that the neighbour test did
      not refuse when the scan reached them, and nowhere else. */
  lemma {:induction false} BuildCellsOk(m: seq<bv8>, coin: (int, int, int) -> bool, c: int, n: int)
    requires GameMap.BlocksOnly(m) && 0 <= n <= CELLS
    ensures GameMap.BlocksOnly(BuildCells(m, coin, c, n))
    ensures forall k :: 0 <= k < CELLS && GameMap.Inside(m[k]) ==> GameMap.Inside(BuildCells(m, coin, c, n)[k])
    ensures forall k :: 0 <= k < CELLS && GameMap.Inside(BuildCells(m, coin, c, n)[k]) ==>
              GameMap.Inside(m[k]) || coin(c, k / GRID, k % GRID)
    ensures forall k :: 0 <= k < n && GameMap.Buildable(k) && coin(c, k / GRID, k % GRID)
                        && !GameMap.Refused(BuildCells(m, coin, c, k), k) ==>
              GameMap.Inside(BuildCells(m, coin, c, n)[k])
  {
    BuildCellsGrow(m, coin, c, 0, n);
    if n > 0 {
      BuildCellsOk(m, coin, c, n - 1);
      forall k | 0 <= k < n && GameMap.Buildable(k) && coin(c, k / GRID, k % GRID)
                 && !GameMap.Refused(BuildCells(m, coin, c, k), k)
        ensures GameMap.Inside(BuildCells(m, coin, c, n)[k])
      {
        BuildCellsGrow(m, coin, c, k + 1, n);
      }
    }
  }

  /** The building pass leaves a map of blocks: it keeps every block, and a
      block stands only where one stood or a coin came up. */
  lemma BuildingsOk(coin: (int, int, int) -> bool, m: seq<bv8>)
    requires GameMap.BlocksOnly(m)
    ensures GameMap.BlocksOnly(Buildings(coin, m))
    ensures forall k :: 0 <= k < CELLS && GameMap.Inside(m[k]) ==> GameMap.Inside(Buildings(coin, m)[k])
    ensures forall x, z :: InGrid(x, z) && GameMap.Inside(Buildings(coin, m)[CellIndex(x, z)]) ==>
              GameMap.Inside(m[CellIndex(x, z)]) || Coined(coin, 1, x, z)
  {
    var m2 := BuildPasses(m, coin, 2);
    var m1 := BuildPasses(m, coin, 1);
    BuildCellsOk(m, coin, 3, CELLS);
    BuildCellsOk(m2, coin, 2, CELLS);
    BuildCellsOk(m1, coin, 1, CELLS);
    forall x, z | InGrid(x, z)
      ensures CellIndex(x, z) / GRID == z && CellIndex(x, z) % GRID == x
    {
      GameMap.CellCoords(x, z);
    }
  }

  /** On the cleared map, a coin that comes up for cell (1, 1) in the first
      pass always gives a block there: nothing is yet around it. */
  lemma FirstCoinBuilds(coin: (int, int, int) -> bool)
    requires coin(3, 1, 1)
    ensures GameMap.Inside(Buildings(coin, BLANK)[CellIndex(1, 1)])
  {
    var k := CellIndex(1, 1);
    assert GameMap.BlocksOnly(BLANK);
    BuildCellsSkip(BLANK, coin, 3, 0, k);
    assert GameMap.Buildable(k) && !GameMap.Refused(BLANK, k);
    GameMap.CellCoords(1, 1);
    assert BuildCells(BLANK, coin, 3, k + 1) == BuildStep(BLANK, coin, 3, k) == BLANK[k := GameMap.INSIDE_BIT];
    BuildCellsGrow(BLANK, coin, 3, k + 1, CELLS);
    var m2 := BuildPasses(BLANK, coin, 2);
    var m1 := BuildPasses(BLANK, coin, 1);
    BuildCellsGrow(m2, coin, 2, 0, CELLS);
    BuildCellsGrow(m1, coin, 1, 0, CELLS);
  }

  /** Cell k of the doorway pass (lines 150-165): a block gets the doorway
      its roll picks and, when the extra coin comes up, the one a second
      roll picks. */
  function DoorStep(m: seq<bv8>, door: (int, int) -> int, extra: (int, int) -> bool, extraDoor: (int, int) -> int,
                    k: int): (r: seq<bv8>)
    requires |m| == CELLS && 0 <= k < CELLS
    ensures |r| == CELLS
  {
    if GameMap.Interior(k) && GameMap.Inside(m[k]) then
      var m1 := GameMap.Carve(m, k, door(k / GRID, k % GRID));
      if extra(k / GRID, k % GRID) then GameMap.Carve(m1, k, extraDoor(k / GRID, k % GRID)) else m1
    else m
  }

  /** The doorway pass over the cells before n, in scan order. */
  function DoorCells(m: seq<bv8>, door: (int, int) -> int, extra: (int, int) -> bool, extraDoor: (int, int) -> int,
                     n: int): (r: seq<bv8>)
    requires |m| == CELLS && 0 <= n <= CELLS
    ensures |r| == CELLS
    decreases n
  {
    if n == 0 then m else DoorStep(DoorCells(m, door, extra, extraDoor, n - 1), door, extra, extraDoor, n - 1)
  }

  /** The whole doorway pass (lines 148-166) on map m. */
  function Doorways(m: seq<bv8>, door: (int, int) -> int, extra: (int, int) -> bool, extraDoor: (int, int) -> int)
    : (r: seq<bv8>)
    requires |m| == CELLS
    ensures |r| == CELLS
  {
    DoorCells(m, door, extra, extraDoor, CELLS)
  }

  /** Cells outside the interior leave the doorway pass as it is. */
  lemma {:induction false} DoorCellsSkip(m: seq<bv8>, door: (int, int) -> int, extra: (int, int) -> bool,
                                         extraDoor: (int, int) -> int, n: int, top: int)
    requires |m| == CELLS && 0 <= n <= top <= CELLS
    requires forall k :: n <= k < top ==> !GameMap.Interior(k)
    ensures DoorCells(m, door, extra, extraDoor, top) == DoorCells(m, door, extra, extraDoor, n)
  {
    if n < top {
      DoorCellsSkip(m, door, extra, extraDoor, n, top - 1);
    }
  }

  /** One cell of the doorway pass only adds doorways, each in a face of a
      block, and a block whose first roll is 0 to 3 can then be entered. */
  lemma DoorStepOk(m: seq<bv8>, door: (int, int) -> int, extra: (int, int) -> bool, extraDoor: (int, int) -> int,
                   k: int)
    requires GameMap.DoorsOnBlocks(m) && 0 <= k < CELLS
    ensures GameMap.Grows(m, DoorStep(m, door, extra, extraDoor, k))
    ensures GameMap.DoorsOnBlocks(DoorStep(m, door, extra, extraDoor, k))
    ensures GameMap.Interior(k) && GameMap.Inside(m[k]) && 0 <= door(k / GRID, k % GRID) <= 3 ==>
              GameMap.HasDoor(DoorStep(m, door, extra, extraDoor, k), k)
  {
    if GameMap.Interior(k) && GameMap.Inside(m[k]) {
      var m1 := GameMap.Carve(m, k, door(k / GRID, k % GRID));
      GameMap.CarveOk(m, k, door(k / GRID, k % GRID));
      if extra(k / GRID, k % GRID) {
        var m2 := GameMap.Carve(m1, k, extraDoor(k / GRID, k % GRID));
        GameMap.CarveOk(m1, k, extraDoor(k / GRID, k % GRID));
        GameMap.GrowsTrans(m, m1, m2);
        GameMap.GrowsKeeps(m1, m2);
      }
    } else {
      GameMap.GrowsTrans(m, m, m);
    }
  }

  /** The doorway pass only adds doorways, each in a face of a block, and
      every block it has reached whose first roll is 0 to 3 can be entered. */
  lemma DoorCellsOk(m: seq<bv8>, door: (int, int) -> int, extra: (int, int) -> bool, extraDoor: (int, int) -> int,
                    n: int)
    requires GameMap.DoorsOnBlocks(m) && 0 <= n <= CELLS
    ensures GameMap.Grows(m, DoorCells(m, door, extra, extraDoor, n))
    ensures GameMap.DoorsOnBlocks(DoorCells(m, door, extra, extraDoor, n))
    ensures forall x, z :: 1 <= x <= 30 && 1 <= z <= 30 && CellIndex(x, z) < n ==>
              DoorwayCut(DoorCells(m, door, extra, extraDoor, n), door, x, z)
  {
    DoorCellsGrow(m, door, extra, extraDoor, n);
    DoorCellsCut(m, door, extra, extraDoor, n);
  }

  /** The doorway pass keeps the blocks and only adds doorways, each in a
      face of a block. */
  lemma {:induction false} DoorCellsGrow(m: seq<bv8>, door: (int, int) -> int, extra: (int, int) -> bool,
                                         extraDoor: (int, int) -> int, n: int)
    requires GameMap.DoorsOnBlocks(m) && 0 <= n <= CELLS
    ensures GameMap.Grows(m, DoorCells(m, door, extra, extraDoor, n))
    ensures GameMap.DoorsOnBlocks(DoorCells(m, door, extra, extraDoor, n))
  {
    if n == 0 {
      GameMap.GrowsTrans(m, m, m);
    } else {
      var m' := DoorCells(m, door, extra, extraDoor, n - 1);
      DoorCellsGrow(m, door, extra, extraDoor, n - 1);
      DoorStepOk(m', door, extra, extraDoor, n - 1);
      GameMap.GrowsTrans(m, m', DoorCells(m, door, extra, extraDoor, n));
    }
  }

  /** Every block the doorway pass has reached whose first roll is 0 to 3
      can be entered. */
  lemma {:induction false} DoorCellsCut(m: seq<bv8>, door: (int, int) -> int, extra: (int, int) -> bool,
                                        extraDoor: (int, int) -> int, n: int)
    requires GameMap.DoorsOnBlocks(m) && 0 <= n <= CELLS
    ensures forall x, z :: 1 <= x <= 30 && 1 <= z <= 30 && CellIndex(x, z) < n ==>
              DoorwayCut(DoorCells(m, door, extra, extraDoor, n), door, x, z)
  {
    if n > 0 {
      DoorCellsCut(m, door, extra, extraDoor, n - 1);
      DoorCellsGrow(m, door, extra, extraDoor, n - 1);
      DoorCutStep(DoorCells(m, door, extra, extraDoor, n - 1), door, extra, extraDoor, n);
    }
  }

  /** Cell n-1 of the doorway pass keeps the doorways cut before it and
      cuts its own. */
  lemma DoorCutStep(m: seq<bv8>, door: (int, int) -> int, extra: (int, int) -> bool, extraDoor: (int, int) -> int,
                    n: int)
    requires GameMap.DoorsOnBlocks(m) && 1 <= n <= CELLS
    requires forall x, z :: 1 <= x <= 30 && 1 <= z <= 30 && CellIndex(x, z) < n - 1 ==> DoorwayCut(m, door, x, z)
    ensures forall x, z :: 1 <= x <= 30 && 1 <= z <= 30 && CellIndex(x, z) < n ==>
              DoorwayCut(DoorStep(m, door, extra, extraDoor, n - 1), door, x, z)
  {
    forall x, z | 1 <= x <= 30 && 1 <= z <= 30 && CellIndex(x, z) < n
      ensures DoorwayCut(DoorStep(m, door, extra, extraDoor, n - 1), door, x, z)
    {
      DoorCutCell(m, door, extra, extraDoor, n - 1, x, z);
    }
  }

  /** The same for one cell (x, z) at or before cell k. */
  lemma DoorCutCell(m: seq<bv8>, door: (int, int) -> int, extra: (int, int) -> bool, extraDoor: (int, int) -> int,
                    k: int, x: int, z: int)
    requires GameMap.DoorsOnBlocks(m) && 0 <= k < CELLS && 1 <= x <= 30 && 1 <= z <= 30 && CellIndex(x, z) <= k
    requires CellIndex(x, z) < k ==> DoorwayCut(m, door, x, z)
    ensures DoorwayCut(DoorStep(m, door, extra, extraDoor, k), door, x, z)
  {
    var r := DoorStep(m, door, extra, extraDoor, k);
    DoorStepOk(m, door, extra, extraDoor, k);
    GameMap.GrowsKeeps(m, r);
    GameMap.CellCoords(x, z);
  }

  // ---------------------------------------------------------------- caches

  predicate IsPack(s: int)
  {
    s == Z_HEALTH || s == Z_AMMO
  }

  /** A slot as the cache pass writes it: a health or ammo pack standing on
      a block cell, on no cell list. */
  predicate PackOk(z: Zed, m: seq<bv8>)
    requires |m| == CELLS
  {
    IsPack(z.state) && InGrid(z.ix, z.iz) && GameMap.Inside(m[CellOf(z)]) && z.cnext == -1 && z.cprev == -1
  }

  /** The zed slots after the cache pass has placed `placed` packs: they
      fill slots 0..placed-1, the other slots are free, and the scan
      position c rests on the last pack written (0 before the first), or
      has run off the end once every slot is taken. */
  ghost predicate Stocked(zs: seq<Zed>, m: seq<bv8>, placed: int, c: int)
  {
    && |zs| == MAX_ZEDS && |m| == CELLS && 0 <= placed <= MAX_ZEDS
    && (forall j :: 0 <= j < placed ==> PackOk(zs[j], m))
    && (forall j :: placed <= j < MAX_ZEDS ==> zs[j].state == Z_NONE)
    && (c == (if placed == 0 then 0 else placed - 1) || (placed == MAX_ZEDS && c == MAX_ZEDS))
  }

  /** The packs the cache pass writes on cell k of map m: s*s when the
      cell is an interior block whose cache coin comes up, with s the size
      its roll picks. */
  function CachePacks(m: seq<bv8>, cache: (int, int) -> bool, size: (int, int) -> int, k: int): nat
    requires |m| == CELLS && 0 <= k < CELLS
  {
    var x, z := k % GRID, k / GRID;
    if 1 <= x <= 30 && 1 <= z <= 30 && GameMap.Inside(m[k]) && cache(z, x) && size(z, x) > 0
    then size(z, x) * size(z, x) else 0
  }

  /** CachePacks summed over the first n cells in scan order; with n = |m|
      the number of packs the cache pass writes when the slots do not run
      out. */
  function Demand(m: seq<bv8>, cache: (int, int) -> bool, size: (int, int) -> int, n: int): nat
    requires |m| == CELLS && 0 <= n <= CELLS
  {
    if n == 0 then 0 else Demand(m, cache, size, n - 1) + CachePacks(m, cache, size, n - 1)
  }

  /** A map with a block on every cell. */
  const ALL_BLOCKS: seq<bv8> := seq(CELLS, _ => GameMap.INSIDE_BIT)

  /** The first cells demand no more than more cells. */
  lemma {:induction false} DemandGrows(m: seq<bv8>, cache: (int, int) -> bool, size: (int, int) -> int, n: int, top: int)
    requires |m| == CELLS && 0 <= n <= top <= CELLS
    ensures Demand(m, cache, size, n) <= Demand(m, cache, size, top)
    decreases top
  {
    if n < top {
      DemandGrows(m, cache, size, n, top - 1);
    }
  }

  /** Row 0 and the first cell of row 1 demand nothing. */
  lemma {:induction false} DemandBeforeInterior(m: seq<bv8>, cache: (int, int) -> bool, size: (int, int) -> int, n: int)
    requires |m| == CELLS && 0 <= n <= GRID + 1
    ensures Demand(m, cache, size, n) == 0
  {
    if n > 0 {
      DemandBeforeInterior(m, cache, size, n - 1);
    }
  }

  /** The last cell of row 30 and row 31 demand nothing. */
  lemma {:induction false} DemandAfterInterior(m: seq<bv8>, cache: (int, int) -> bool, size: (int, int) -> int, n: int)
    requires |m| == CELLS && 30 * GRID + 31 <= n <= CELLS
    ensures Demand(m, cache, size, n) == Demand(m, cache, size, 30 * GRID + 31)
  {
    if n > 30 * GRID + 31 {
      DemandAfterInterior(m, cache, size, n - 1);
    }
  }

  /** No map demands more packs than the map that is all blocks. */
  lemma {:induction false} DemandAtMostAllBlocks(m: seq<bv8>, cache: (int, int) -> bool, size: (int, int) -> int, n: int)
    requires |m| == CELLS && 0 <= n <= CELLS
    ensures Demand(m, cache, size, n) <= Demand(ALL_BLOCKS, cache, size, n)
  {
    if n > 0 {
      DemandAtMostAllBlocks(m, cache, size, n - 1);
      assert GameMap.Inside(ALL_BLOCKS[n - 1]);
    }
  }

  /** Started from the number of packs written instead, the zed pass begins
      on a free slot, below which every slot holds a pack. */
  lemma FreeSlotAfterPacks(zs: seq<Zed>, m: seq<bv8>, placed: int, c: int)
    requires Stocked(zs, m, placed, c) && placed < MAX_ZEDS
    ensures zs[placed].state == Z_NONE && !Moving(zs[placed].state)
    ensures forall j :: 0 <= j < placed ==> PackOk(zs[j], m)
  {
  }

  /** The pack the cache pass writes for cell k: a health pack when the
      cell's healthy coin comes up, an ammo pack otherwise, standing on
      cell k, on no list. */
  function PackOf(healthy: (int, int) -> bool, k: int): Zed
  {
    Zed(if healthy(k / GRID, k % GRID) then Z_HEALTH else Z_AMMO, k % GRID, k / GRID, -1, -1)
  }

  /** The pack in slot j once the cache pass has scanned the first n cells:
      the cells' packs take consecutive slots in scan order, so slot j
      holds the pack of the cell k with Demand(k) <= j < Demand(k+1). */
  function PackAt(m: seq<bv8>, cache: (int, int) -> bool, healthy: (int, int) -> bool, size: (int, int) -> int,
                  n: int, j: int): (r: Zed)
    requires |m| == CELLS && 0 <= n <= CELLS && 0 <= j < Demand(m, cache, size, n)
    ensures InGrid(r.ix, r.iz) && CellIndex(r.ix, r.iz) < n
    ensures Demand(m, cache, size, CellIndex(r.ix, r.iz)) <= j < Demand(m, cache, size, CellIndex(r.ix, r.iz) + 1)
    ensures r == PackOf(healthy, CellIndex(r.ix, r.iz))
    decreases n
  {
    if j < Demand(m, cache, size, n - 1) then PackAt(m, cache, healthy, size, n - 1, j)
    else
      assert ((n - 1) / GRID) * GRID + (n - 1) % GRID == n - 1;
      PackOf(healthy, n - 1)
  }

  /** A slot's pack stands on an interior block whose cache coin came up
      and whose size roll is positive, and its kind is the one that cell's
      healthy coin picks. */
  lemma PackAtOk(m: seq<bv8>, cache: (int, int) -> bool, healthy: (int, int) -> bool, size: (int, int) -> int,
                 n: int, j: int)
    requires |m| == CELLS && 0 <= n <= CELLS && 0 <= j < Demand(m, cache, size, n)
    ensures var r := PackAt(m, cache, healthy, size, n, j);
            && PackOk(r, m) && 1 <= r.ix <= 30 && 1 <= r.iz <= 30
            && cache(r.iz, r.ix) && size(r.iz, r.ix) > 0
            && (r.state == Z_HEALTH <==> healthy(r.iz, r.ix))
  {
    var r := PackAt(m, cache, healthy, size, n, j);
    var k := CellIndex(r.ix, r.iz);
    GameMap.CellCoords(r.ix, r.iz);
    assert CachePacks(m, cache, size, k) > 0;
  }

  /** Scanning further cells leaves the slots already filled as they were. */
  lemma {:induction false} PackAtGrows(m: seq<bv8>, cache: (int, int) -> bool, healthy: (int, int) -> bool,
                                      size: (int, int) -> int, n: int, top: int, j: int)
    requires |m| == CELLS && 0 <= n <= top <= CELLS && 0 <= j < Demand(m, cache, size, n)
    ensures j < Demand(m, cache, size, top)
    ensures PackAt(m, cache, healthy, size, top, j) == PackAt(m, cache, healthy, size, n, j)
    decreases top
  {
    if n < top {
      PackAtGrows(m, cache, healthy, size, n, top - 1, j);
    }
  }

  /** Slots 0..Demand(n)-1 hold the packs of the first n cells, as
      PackAt says. */
  ghost predicate PacksLaid(zs: seq<Zed>, m: seq<bv8>, cache: (int, int) -> bool, healthy: (int, int) -> bool,
                            size: (int, int) -> int, n: int)
    requires |m| == CELLS && 0 <= n <= CELLS
  {
    && Demand(m, cache, size, n) <= |zs|
    && forall j :: 0 <= j < Demand(m, cache, size, n) ==> zs[j] == PackAt(m, cache, healthy, size, n, j)
  }

  /** The packs laid for the first n cells are still the packs for the
      first top cells when the cells in between demand nothing. */
  lemma PackAtSame(zs: seq<Zed>, m: seq<bv8>, cache: (int, int) -> bool, healthy: (int, int) -> bool,
                   size: (int, int) -> int, n: int, top: int)
    requires |m| == CELLS && 0 <= n <= top <= CELLS
    requires Demand(m, cache, size, n) == Demand(m, cache, size, top)
    requires PacksLaid(zs, m, cache, healthy, size, n)
    ensures PacksLaid(zs, m, cache, healthy, size, top)
  {
    forall j | 0 <= j < Demand(m, cache, size, top)
      ensures zs[j] == PackAt(m, cache, healthy, size, top, j)
    {
      PackAtGrows(m, cache, healthy, size, n, top, j);
    }
  }

  /** Slots from..to-1 of zs all hold z. */
  predicate Filled(zs: seq<Zed>, from: int, to: int, z: Zed)
  {
    0 <= from <= to <= |zs| && forall j :: from <= j < to ==> zs[j] == z
  }

  /** Slots 0..n-1 of zs are those of zs0. */
  predicate Kept(zs: seq<Zed>, zs0: seq<Zed>, n: int)
  {
    0 <= n <= |zs| == |zs0| && forall j :: 0 <= j < n ==> zs[j] == zs0[j]
  }

  /** The packs laid for the first k cells, followed by cell k's own
      packs, are the packs laid for the first k+1 cells. */
  lemma PacksLaidStep(zs: seq<Zed>, zs0: seq<Zed>, m: seq<bv8>, cache: (int, int) -> bool, healthy: (int, int) -> bool,
                      size: (int, int) -> int, k: int)
    requires |m| == CELLS && 0 <= k < CELLS && PacksLaid(zs0, m, cache, healthy, size, k)
    requires Kept(zs, zs0, Demand(m, cache, size, k))
    requires Filled(zs, Demand(m, cache, size, k), Demand(m, cache, size, k + 1), PackOf(healthy, k))
    ensures PacksLaid(zs, m, cache, healthy, size, k + 1)
  {
    forall j | 0 <= j < Demand(m, cache, size, k + 1)
      ensures zs[j] == PackAt(m, cache, healthy, size, k + 1, j)
    {
      if j < Demand(m, cache, size, k) {
        assert zs[j] == zs0[j];
        PackAtGrows(m, cache, healthy, size, k, k + 1, j);
      }
    }
  }

  /** A map with a single block, on cell (1, 1). */
  const ONE_BLOCK: seq<bv8> := seq(CELLS, k => if k == GRID + 1 then GameMap.INSIDE_BIT else 0)

  /** A coin that always comes up. */
  function Always(z: int, x: int): bool
  {
    true
  }

  /** A size roll of 1. */
  function One(z: int, x: int): int
  {
    1
  }

  /** On ONE_BLOCK, with its cache coin up and a size roll of 1, the
      cache pass writes exactly one pack. */
  lemma {:induction false} OneCacheDemand(n: int)
    requires GRID + 2 <= n <= CELLS
    ensures Demand(ONE_BLOCK, Always, One, n) == 1
  {
    if n == GRID + 2 {
      DemandBeforeInterior(ONE_BLOCK, Always, One, GRID + 1);
      assert GameMap.Inside(ONE_BLOCK[GRID + 1]);
    } else {
      OneCacheDemand(n - 1);
      assert !GameMap.Inside(ONE_BLOCK[n - 1]);
    }
  }

  // ---------------------------------------------------------------- zeds

  function Abs(v: int): nat
  {
    if v < 0 then -v else v
  }

  /** The cells the zed pass fills: the interior, except the cells within
      distance 2 (in steps) of the player's spawn cell (15, 15). */
  predicate SpawnSpot(x: int, z: int)
  {
    1 <= x <= 30 && 1 <= z <= 30 && Abs(x - 15) + Abs(z - 15) >= 3
  }

  /** The spawn spots the zed pass meets before cell (x, z) of its
      row-major scan over columns and rows 1..30: the cells before x in row
      z, after those of the rows before. */
  function SpotsBefore(x: int, z: int): nat
    decreases z, x
  {
    if z < 1 then 0
    else if x <= 1 then (if z == 1 then 0 else SpotsBefore(31, z - 1))
    else SpotsBefore(x - 1, z) + (if SpawnSpot(x - 1, z) then 1 else 0)
  }

  /** The cells among columns 1..x-1 of row z that are too near (15, 15)
      to be spawn spots. */
  function RowGap(x: int, z: int): int
  {
    var d := Abs(z - 15);
    if d > 2 then 0
    else
      var hi := if x < 18 - d then x else 18 - d;
      if hi > 13 + d then hi - (13 + d) else 0
  }

  /** The cells of the rows before z that are too near (15, 15) to be
      spawn spots: 1, 3, 5, 3 and 1 of them in rows 13 to 17. */
  function GapsUpTo(z: int): int
  {
    if z <= 13 then 0 else if z == 14 then 1 else if z == 15 then 4 else if z == 16 then 9
    else if z == 17 then 12 else 13
  }

  /** SpotsBefore in closed form (SpotsBeforeCount): the offset from the
      zed pass's first slot of the slot it gives cell (x, z). */
  function SpawnRank(x: int, z: int): int
  {
    30 * (z - 1) - GapsUpTo(z) + (if z <= 30 then x - 1 - RowGap(x, z) else 0)
  }

  /** Along a row the rank grows by one past each spawn spot; the first
      cell of the next row has the rank of the end of this one. */
  lemma SpawnRankStep(x: int, z: int)
    requires 1 <= x <= 30 && 1 <= z <= 30
    ensures SpawnRank(x + 1, z) == SpawnRank(x, z) + (if SpawnSpot(x, z) then 1 else 0)
    ensures SpawnRank(1, z + 1) == SpawnRank(31, z)
  {
  }

  /** The closed form counts the spawn spots before (x, z). */
  lemma {:induction false} SpotsBeforeCount(x: int, z: int)
    requires 1 <= x <= 31 && 1 <= z <= 30
    ensures SpotsBefore(x, z) == SpawnRank(x, z)
    decreases z, x
  {
    if x > 1 {
      SpotsBeforeCount(x - 1, z);
      SpawnRankStep(x - 1, z);
    } else if z > 1 {
      SpotsBeforeCount(31, z - 1);
      SpawnRankStep(1, z - 1);
    }
  }

  /** The zed pass starts on rank 0 and fills 887 cells: the 900 interior
      cells less the 13 within distance 2 of (15, 15). It ends at cell
      (1, 31), so the slots from start+887 on are never written. */
  lemma SpawnSpotCount()
    ensures SpawnRank(1, 1) == 0 && SpawnRank(1, 31) == 887
  {
  }

  /** Every interior cell's rank lies below the 887 the pass fills. */
  lemma SpawnRankBound(x: int, z: int)
    requires 1 <= x <= 30 && 1 <= z <= 30
    ensures 0 <= SpawnRank(x, z) < 887
  {
  }

  /** Lines 199-210 for cell (ix, iz): slot c becomes a wandering zed there
      with no neighbours, and the head of the cell's list. */
  function Spawn(g: Grid, c: int, ix: int, iz: int): (r: Grid)
    requires Shaped(g) && 0 <= c < MAX_ZEDS && InGrid(ix, iz)
    ensures Shaped(r)
  {
    Grid(g.zeds[c := Zed(Z_WANDERING, ix, iz, -1, -1)], g.cols[CellIndex(ix, iz) := c])
  }

  /** Spawning an unlinked, still slot into an empty cell keeps the index
      sound and the linked zeds the moving ones: the cell's list becomes
      [c]. */
  lemma SpawnOk(g: Grid, lists: seq<seq<int>>, c: int, ix: int, iz: int)
    requires IndexOk(g, lists) && LinkedAreMoving(g, lists) && 0 <= c < MAX_ZEDS && InGrid(ix, iz)
    requires !Moving(g.zeds[c].state) && lists[CellIndex(ix, iz)] == []
    ensures IndexOk(Spawn(g, c, ix, iz), lists[CellIndex(ix, iz) := [c]])
    ensures LinkedAreMoving(Spawn(g, c, ix, iz), lists[CellIndex(ix, iz) := [c]])
    ensures forall j :: Listed(Spawn(g, c, ix, iz), lists[CellIndex(ix, iz) := [c]], j) <==> Listed(g, lists, j) || j == c
  {
    var k := CellIndex(ix, iz);
    var l' := lists[k := [c]];
    assert !Listed(g, lists, c);
    assert ListOk(g.zeds, lists[k], k);
    LinkOk(g, lists, c, ix, iz);
    assert [c] + lists[k] == [c];
    var g1 := Link(g, c, ix, iz);
    StateWriteOk(g1, l', c, Z_WANDERING);
    assert Spawn(g, c, ix, iz) == WithState(g1, c, Z_WANDERING);
    var r := Spawn(g, c, ix, iz);
    forall j | 0 <= j < MAX_ZEDS
      ensures Moving(r.zeds[j].state) <==> Listed(r, l', j)
    {
      if j != c {
        assert r.zeds[j] == g.zeds[j];
        assert Moving(g.zeds[j].state) <==> Listed(g, lists, j);
      }
    }
  }

  /** The cells the zed pass has visited before (ix, iz) in its row-major
      scan, and which of them it filled: a filled cell's list holds exactly
      its own slot, start plus its rank, below c, a wandering zed standing
      there with no neighbours; every other cell's list is empty. */
  ghost predicate SpawnedCell(g: Grid, lists: seq<seq<int>>, start: int, c: int, x: int, z: int, ix: int, iz: int)
    requires Shaped(g) && |lists| == CELLS && InGrid(x, z)
  {
    var l := lists[CellIndex(x, z)];
    if SpawnSpot(x, z) && (z < iz || (z == iz && x < ix)) then
      l == [start + SpawnRank(x, z)] && 0 <= start && l[0] < c <= MAX_ZEDS && g.zeds[l[0]] == Zed(Z_WANDERING, x, z, -1, -1)
    else
      l == []
  }

  /** The zed pass up to cell (ix, iz), started on slot start and now at
      slot c, which is start plus the rank of (ix, iz): the cells are as
      SpawnedCell says, and the slots outside start..c-1 are as they were
      in g0. */
  ghost predicate Spawned(g0: Grid, g: Grid, lists: seq<seq<int>>, start: int, c: int, ix: int, iz: int)
    requires Shaped(g0) && Shaped(g) && |lists| == CELLS
  {
    && 0 <= start <= c <= MAX_ZEDS && c == start + SpawnRank(ix, iz)
    && (forall x, z :: InGrid(x, z) ==> SpawnedCell(g, lists, start, c, x, z, ix, iz))
    && (forall j :: 0 <= j < start ==> g.zeds[j] == g0.zeds[j])
    && (forall j :: c <= j < MAX_ZEDS ==> g.zeds[j] == g0.zeds[j])
  }

  /** Cell (x, z) after the zed pass started on slot start: a spawn spot
      names, as its list head, slot start plus its rank in the scan,
      holding a wandering zed standing there with no neighbours; any other
      cell has no list. */
  predicate CellPlaced(g: Grid, start: int, x: int, z: int)
    requires Shaped(g) && InGrid(x, z)
  {
    var h := g.cols[CellIndex(x, z)];
    if SpawnSpot(x, z) then
      h == start + SpawnRank(x, z) && 0 <= h < MAX_ZEDS && g.zeds[h] == Zed(Z_WANDERING, x, z, -1, -1)
    else h == -1
  }

  /** Before the first cell nothing is filled. */
  lemma SpawnedStart(g0: Grid, start: int)
    requires Shaped(g0) && 0 <= start <= MAX_ZEDS
    ensures Spawned(g0, g0, NoLists(), start, start, 1, 1)
  {
    SpawnSpotCount();
    forall x, z | InGrid(x, z)
      ensures SpawnedCell(g0, NoLists(), start, start, x, z, 1, 1)
    {
      assert NoLists()[CellIndex(x, z)] == [];
    }
  }

  /** One cell of the zed pass: a spawn spot takes slot c, any other cell is
      skipped; the index stays sound throughout. */
  lemma SpawnStep(g0: Grid, g: Grid, lists: seq<seq<int>>, start: int, c: int, ix: int, iz: int)
    requires Shaped(g0) && IndexOk(g, lists) && LinkedAreMoving(g, lists)
    requires Spawned(g0, g, lists, start, c, ix, iz) && 1 <= ix <= 30 && 1 <= iz <= 30 && c < MAX_ZEDS
    requires forall j :: start <= j < MAX_ZEDS ==> !Moving(g0.zeds[j].state)
    ensures SpawnSpot(ix, iz) ==> !Moving(g.zeds[c].state) && lists[CellIndex(ix, iz)] == []
    ensures SpawnSpot(ix, iz) ==>
              Spawned(g0, Spawn(g, c, ix, iz), lists[CellIndex(ix, iz) := [c]], start, c + 1, ix + 1, iz)
    ensures !SpawnSpot(ix, iz) ==> Spawned(g0, g, lists, start, c, ix + 1, iz)
  {
    var k := CellIndex(ix, iz);
    SpawnRankStep(ix, iz);
    assert SpawnedCell(g, lists, start, c, ix, iz, ix, iz);
    assert g.zeds[c] == g0.zeds[c];
    if SpawnSpot(ix, iz) {
      var r := Spawn(g, c, ix, iz);
      var l' := lists[k := [c]];
      forall x, z | InGrid(x, z)
        ensures SpawnedCell(r, l', start, c + 1, x, z, ix + 1, iz)
      {
        var kk := CellIndex(x, z);
        assert SpawnedCell(g, lists, start, c, x, z, ix, iz);
        if kk != k {
          assert x != ix || z != iz;
          assert l'[kk] == lists[kk];
          if |lists[kk]| == 1 {
            assert lists[kk][0] < c;
            assert r.zeds[lists[kk][0]] == g.zeds[lists[kk][0]];
          }
        } else {
          assert x == ix && z == iz;
        }
      }
    } else {
      forall x, z | InGrid(x, z)
        ensures SpawnedCell(g, lists, start, c, x, z, ix + 1, iz)
      {
        assert SpawnedCell(g, lists, start, c, x, z, ix, iz);
      }
    }
  }

  /** Past the last cell of a row the pass is at the first cell of the
      next. */
  lemma SpawnedRow(g0: Grid, g: Grid, lists: seq<seq<int>>, start: int, c: int, iz: int)
    requires Shaped(g0) && Shaped(g) && |lists| == CELLS && Spawned(g0, g, lists, start, c, 31, iz) && 1 <= iz <= 30
    ensures Spawned(g0, g, lists, start, c, 1, iz + 1)
  {
    SpawnRankStep(1, iz);
    forall x, z | InGrid(x, z)
      ensures SpawnedCell(g, lists, start, c, x, z, 1, iz + 1)
    {
      assert SpawnedCell(g, lists, start, c, x, z, 31, iz);
    }
  }

  /** What the finished pass leaves in cols, as CellPlaced says; it used
      the 887 slots from start on. */
  lemma SpawnedCols(g0: Grid, g: Grid, lists: seq<seq<int>>, start: int, c: int)
    requires Shaped(g0) && IndexOk(g, lists) && Spawned(g0, g, lists, start, c, 1, 31)
    ensures forall x, z :: InGrid(x, z) ==> CellPlaced(g, start, x, z)
    ensures c == start + 887
  {
    SpawnSpotCount();
    forall x, z | InGrid(x, z)
      ensures CellPlaced(g, start, x, z)
    {
      assert SpawnedCell(g, lists, start, c, x, z, 1, 31);
      assert g.cols[CellIndex(x, z)] == Head(lists[CellIndex(x, z)]);
    }
  }

}
