/** The 32x32 city map of game.cpp and the integer and real-valued parts of
    collideCharacter that read it.

    A map cell is a char used as a bit set: INSIDE_BIT marks a building
    block, DOORX_BIT a doorway in the cell's east face (the face shared with
    the cell at x+1), DOORZ_BIT a doorway in its south face (shared with the
    cell at z+1). Positions are 16 units to a cell; the float arithmetic of
    the source is taken over the reals. */
module GameMap {

  const GRID := 32
  const CELLS := GRID * GRID
  const CELL_SIZE: real := 16.0

  const INSIDE_BIT: bv8 := 0x01
  const DOORX_BIT: bv8 := 0x02
  const DOORZ_BIT: bv8 := 0x04

  predicate Inside(b: bv8)
  {
    b & INSIDE_BIT != 0
  }

  predicate DoorX(b: bv8)
  {
    b & DOORX_BIT != 0
  }

  predicate DoorZ(b: bv8)
  {
    b & DOORZ_BIT != 0
  }

  // ---------------------------------------------------------------- generation

  /** The cells the building pass visits: the interior of the grid. */
  predicate Interior(k: int)
  {
    0 <= k < CELLS && 1 <= k % GRID <= 30 && 1 <= k / GRID <= 30
  }

  /** Where a building block may stand: an interior cell outside row 13 and
      column 13, which stay open as streets. */
  predicate Buildable(k: int)
  {
    Interior(k) && k % GRID != 13 && k / GRID != 13
  }

  /** The neighbour test of the building pass (game.cpp:137-141), over cells
      that are either empty (0) or INSIDE_BIT: a block is not placed where it
      would join two blocks on opposite sides, or touch a diagonal block
      without sharing a side with it. */
  predicate Refused(m: seq<bv8>, i: int)
    requires |m| == CELLS && Interior(i)
  {
    || (m[i - 32] != 0 && m[i + 32] != 0)
    || (m[i - 1] != 0 && m[i + 1] != 0)
    || (m[i - 33] != 0 && m[i - 32] == 0 && m[i - 1] == 0)
    || (m[i - 31] != 0 && m[i - 32] == 0 && m[i + 1] == 0)
    || (m[i + 31] != 0 && m[i + 32] == 0 && m[i - 1] == 0)
    || (m[i + 33] != 0 && m[i + 32] == 0 && m[i + 1] == 0)
  }

  /** What the building pass leaves behind: every cell is empty or exactly
      INSIDE_BIT, and blocks stand only on buildable cells. */
  ghost predicate BlocksOnly(m: seq<bv8>)
  {
    |m| == CELLS && forall k :: 0 <= k < CELLS ==> m[k] == 0 || (m[k] == INSIDE_BIT && Buildable(k))
  }

  /** The property generation promises the rest of the game: no block on the
      outer ring, in row 13 or in column 13. */
  ghost predicate StreetsOpen(m: seq<bv8>)
  {
    |m| == CELLS && forall k :: 0 <= k < CELLS && Inside(m[k]) ==> Buildable(k)
  }

  lemma BlocksOnlyStreetsOpen(m: seq<bv8>)
    requires BlocksOnly(m)
    ensures StreetsOpen(m)
  {
    forall k | 0 <= k < CELLS && Inside(m[k])
      ensures Buildable(k)
    {
      assert m[k] != 0;
    }
  }

  /** Setting a door bit never sets or clears INSIDE_BIT. */
  lemma DoorBitsKeepInside(b: bv8)
    ensures Inside(b | DOORX_BIT) == Inside(b) && Inside(b | DOORZ_BIT) == Inside(b)
    ensures DoorX(b | DOORX_BIT) && DoorZ(b | DOORZ_BIT)
    ensures DoorX(b | DOORZ_BIT) == DoorX(b) && DoorZ(b | DOORX_BIT) == DoorZ(b)
  {
  }

  /** Between the last interior cell of row z and the first of row z + 1
      lie only border cells. */
  lemma RowEnd(z: int)
    requires 0 <= z <= 30
    ensures forall k :: z * GRID + 31 <= k < (z + 1) * GRID + 1 ==> !Interior(k)
  {
    forall k | z * GRID + 31 <= k < (z + 1) * GRID + 1
      ensures !Interior(k)
    {
      if k == z * GRID + 31 {
        CellCoords(31, z);
      } else {
        CellCoords(0, z + 1);
      }
    }
  }

  /** The map index of cell (x, z) gives back x and z. */
  lemma CellCoords(x: int, z: int)
    requires 0 <= x < GRID && 0 <= z < GRID
    ensures (z * GRID + x) % GRID == x && (z * GRID + x) / GRID == z
  {
  }

  /** Block cell k can be entered: a doorway in its east or south face (its
      own bits) or in its west or north face (the bits of the cells at k-1
      and k-32). */
  predicate HasDoor(m: seq<bv8>, k: int)
    requires |m| == CELLS && GRID <= k < CELLS
  {
    DoorX(m[k]) || DoorZ(m[k]) || DoorX(m[k - 1]) || DoorZ(m[k - GRID])
  }

  /** The doorways of cell k are in faces of blocks: cell k or its
      neighbour across the face is a block. */
  predicate DoorOk(m: seq<bv8>, k: int)
    requires |m| == CELLS && 0 <= k < CELLS
  {
    && (DoorX(m[k]) ==> Inside(m[k]) || (k + 1 < CELLS && Inside(m[k + 1])))
    && (DoorZ(m[k]) ==> Inside(m[k]) || (k + GRID < CELLS && Inside(m[k + GRID])))
  }

  /** Every doorway is in a face of a block. */
  ghost predicate DoorsOnBlocks(m: seq<bv8>)
  {
    |m| == CELLS && forall k :: 0 <= k < CELLS ==> DoorOk(m, k)
  }

  /** m' is m with at most some doorway bits added. */
  ghost predicate Grows(m: seq<bv8>, m': seq<bv8>)
  {
    && |m| == CELLS && |m'| == CELLS
    && (forall k :: 0 <= k < CELLS ==> Inside(m'[k]) == Inside(m[k]))
    && (forall k :: 0 <= k < CELLS && DoorX(m[k]) ==> DoorX(m'[k]))
    && (forall k :: 0 <= k < CELLS && DoorZ(m[k]) ==> DoorZ(m'[k]))
  }

  /** A map fresh from the building pass has no doorways yet. */
  lemma BlocksOnlyNoDoors(m: seq<bv8>)
    requires BlocksOnly(m)
    ensures DoorsOnBlocks(m) && Grows(m, m)
    ensures forall k :: 0 <= k < CELLS ==> !DoorX(m[k]) && !DoorZ(m[k])
  {
    forall k | 0 <= k < CELLS
      ensures !DoorX(m[k]) && !DoorZ(m[k])
    {
      assert m[k] == 0 || m[k] == INSIDE_BIT;
    }
  }

  /** Adding doorways in two steps adds them in one. */
  lemma GrowsTrans(m: seq<bv8>, m': seq<bv8>, m'': seq<bv8>)
    requires Grows(m, m') && Grows(m', m'')
    ensures Grows(m, m'')
  {
  }

  /** Adding doorways keeps the blocks, so the streets stay open, and keeps
      every way into a block already there. */
  lemma GrowsKeeps(m: seq<bv8>, m': seq<bv8>)
    requires Grows(m, m')
    ensures StreetsOpen(m) ==> StreetsOpen(m')
    ensures forall k :: GRID <= k < CELLS && HasDoor(m, k) ==> HasDoor(m', k)
  {
  }

  /** One roll of the doorway switch for block cell i (game.cpp:152-157 and
      159-164): 0 opens its east face, 1 its south face, 2 its west face
      (the east face of cell i-1) and 3 its north face (the south face of
      cell i-32); any other roll does nothing. */
  function Carve(m: seq<bv8>, i: int, roll: int): (r: seq<bv8>)
    requires |m| == CELLS && GRID <= i < CELLS
    ensures |r| == CELLS
  {
    if 0 <= roll <= 3 then
      var j := DoorCell(i, roll);
      m[j := m[j] | DoorBit(roll)]
    else m
  }

  /** The cell whose byte a roll of 0 to 3 for block cell i writes. */
  function DoorCell(i: int, roll: int): int
  {
    if roll == 2 then i - 1 else if roll == 3 then i - GRID else i
  }

  /** The bit a roll of 0 to 3 sets. */
  function DoorBit(roll: int): bv8
  {
    if roll == 0 || roll == 2 then DOORX_BIT else DOORZ_BIT
  }

  /** A roll on a block only adds a doorway, in a face of that block, and a
      roll of 0 to 3 leaves the block with a doorway. */
  lemma CarveOk(m: seq<bv8>, i: int, roll: int)
    requires |m| == CELLS && GRID <= i < CELLS && Inside(m[i])
    ensures Grows(m, Carve(m, i, roll))
    ensures DoorsOnBlocks(m) ==> DoorsOnBlocks(Carve(m, i, roll))
    ensures 0 <= roll <= 3 ==> HasDoor(Carve(m, i, roll), i)
  {
    if 0 <= roll <= 3 {
      CarveWrites(m, i, roll);
      CarveOpens(m, i, roll);
    }
  }

  /** A roll of 0 to 3 sets one doorway bit, in a face of block i. */
  lemma CarveWrites(m: seq<bv8>, i: int, roll: int)
    requires |m| == CELLS && GRID <= i < CELLS && Inside(m[i]) && 0 <= roll <= 3
    ensures Grows(m, Carve(m, i, roll))
    ensures DoorsOnBlocks(m) ==> DoorsOnBlocks(Carve(m, i, roll))
  {
    var j := DoorCell(i, roll);
    if roll == 0 || roll == 2 {
      assert Carve(m, i, roll) == m[j := m[j] | DOORX_BIT];
      SetDoorX(m, j);
    } else {
      assert Carve(m, i, roll) == m[j := m[j] | DOORZ_BIT];
      SetDoorZ(m, j);
    }
  }

  /** Opening the east face of cell j, a face of a block. */
  lemma SetDoorX(m: seq<bv8>, j: int)
    requires |m| == CELLS && 0 <= j < CELLS && (Inside(m[j]) || (j + 1 < CELLS && Inside(m[j + 1])))
    ensures Grows(m, m[j := m[j] | DOORX_BIT])
    ensures DoorsOnBlocks(m) ==> DoorsOnBlocks(m[j := m[j] | DOORX_BIT])
  {
    DoorBitsKeepInside(m[j]);
    ByteWriteOk(m, j, m[j] | DOORX_BIT);
  }

  /** Opening the south face of cell j, a face of a block. */
  lemma SetDoorZ(m: seq<bv8>, j: int)
    requires |m| == CELLS && 0 <= j < CELLS && (Inside(m[j]) || (j + GRID < CELLS && Inside(m[j + GRID])))
    ensures Grows(m, m[j := m[j] | DOORZ_BIT])
    ensures DoorsOnBlocks(m) ==> DoorsOnBlocks(m[j := m[j] | DOORZ_BIT])
  {
    DoorBitsKeepInside(m[j]);
    ByteWriteOk(m, j, m[j] | DOORZ_BIT);
  }

  /** A roll of 0 to 3 leaves block i with a doorway. */
  lemma CarveOpens(m: seq<bv8>, i: int, roll: int)
    requires |m| == CELLS && GRID <= i < CELLS && 0 <= roll <= 3
    ensures HasDoor(Carve(m, i, roll), i)
  {
    var r := Carve(m, i, roll);
    var j := DoorCell(i, roll);
    DoorBitsKeepInside(m[j]);
    assert r[j] == m[j] | DoorBit(roll);
    if roll == 0 {
      assert DoorX(r[i]);
    } else if roll == 1 {
      assert DoorZ(r[i]);
    } else if roll == 2 {
      assert DoorX(r[i - 1]);
    } else {
      assert DoorZ(r[i - GRID]);
    }
  }

  /** Replacing the byte of cell j by one with the same block bit and at
      least its doorways: the new doorways decide whether doorways stay on
      blocks. */
  lemma ByteWriteOk(m: seq<bv8>, j: int, b': bv8)
    requires |m| == CELLS && 0 <= j < CELLS && Inside(b') == Inside(m[j])
    requires DoorX(m[j]) ==> DoorX(b')
    requires DoorZ(m[j]) ==> DoorZ(b')
    ensures Grows(m, m[j := b'])
    ensures DoorsOnBlocks(m) && (DoorX(b') ==> DoorX(m[j]) || Inside(m[j]) || (j + 1 < CELLS && Inside(m[j + 1])))
            && (DoorZ(b') ==> DoorZ(m[j]) || Inside(m[j]) || (j + GRID < CELLS && Inside(m[j + GRID])))
            ==> DoorsOnBlocks(m[j := b'])
  {
    var r := m[j := b'];
    assert forall k :: 0 <= k < CELLS ==> Inside(r[k]) == Inside(m[k]);
    if DoorsOnBlocks(m) && (DoorX(b') ==> DoorX(m[j]) || Inside(m[j]) || (j + 1 < CELLS && Inside(m[j + 1])))
       && (DoorZ(b') ==> DoorZ(m[j]) || Inside(m[j]) || (j + GRID < CELLS && Inside(m[j + GRID])))
    {
      forall k | 0 <= k < CELLS
        ensures DoorOk(r, k)
      {
        assert DoorOk(m, k);
        if k + 1 < CELLS {
          assert Inside(r[k + 1]) == Inside(m[k + 1]);
        }
        if k + GRID < CELLS {
          assert Inside(r[k + GRID]) == Inside(m[k + GRID]);
        }
      }
    }
  }

  // ---------------------------------------------------------------- collideCharacter: clamp

  /** Lines 255-258 for one coordinate: first pushed up to 16+rad, then down
      to 31*16-rad. */
  function Clamp(x: real, rad: real): real
  {
    var a := if x < CELL_SIZE + rad then CELL_SIZE + rad else x;
    if a > 31.0 * CELL_SIZE - rad then 31.0 * CELL_SIZE - rad else a
  }

  /** For any radius up to half the playable width the clamped coordinate
      lies in [16+rad, 496-rad], and a coordinate already there is kept. */
  lemma ClampBounds(x: real, rad: real)
    requires rad <= 240.0
    ensures CELL_SIZE + rad <= Clamp(x, rad) <= 31.0 * CELL_SIZE - rad
    ensures CELL_SIZE + rad <= x <= 31.0 * CELL_SIZE - rad ==> Clamp(x, rad) == x
    ensures Clamp(Clamp(x, rad), rad) == Clamp(x, rad)
  {
  }

  /** The cell index collideCharacter computes (the int conversion of x/16,
      which truncates; x is positive here, so it is the floor). */
  function CellCoord(x: real): int
  {
    (x / CELL_SIZE).Floor
  }

  /** After the clamp the cell lies in 1..30, so the reads of map[i-1],
      map[i+1], map[i-32] and map[i+32] at lines 279-293 stay inside the
      32*32 array, whatever the position before the clamp. */
  lemma ClampedCellInterior(x: real, z: real, rad: real)
    requires 0.0 < rad <= 240.0
    ensures 1 <= CellCoord(Clamp(x, rad)) <= 30 && 1 <= CellCoord(Clamp(z, rad)) <= 30
    ensures Interior(CellCoord(Clamp(z, rad)) * GRID + CellCoord(Clamp(x, rad)))
  {
    ClampBounds(x, rad);
    ClampBounds(z, rad);
    FloorBetween(Clamp(x, rad) / CELL_SIZE);
    FloorBetween(Clamp(z, rad) / CELL_SIZE);
    var ix := CellCoord(Clamp(x, rad));
    var iz := CellCoord(Clamp(z, rad));
    assert (iz * GRID + ix) % GRID == ix && (iz * GRID + ix) / GRID == iz;
  }

  lemma FloorBetween(v: real)
    requires 1.0 < v < 31.0
    ensures 1 <= v.Floor <= 30
  {
  }

  // ---------------------------------------------------------------- collideCharacter: walls

  /** The west face of cell i stops a character of radius rad standing at
      offset offz along it: either side of the face is a block, and there is
      no doorway in it (DOORX_BIT of the western cell) wide enough for it. */
  predicate WestBlocked(m: seq<bv8>, i: int, offz: real, rad: real)
    requires |m| == CELLS && Interior(i)
  {
    (Inside(m[i]) || Inside(m[i - 1])) && !(DoorX(m[i - 1]) && offz > 4.0 + rad && offz < 8.0 - rad)
  }

  predicate EastBlocked(m: seq<bv8>, i: int, offz: real, rad: real)
    requires |m| == CELLS && Interior(i)
  {
    (Inside(m[i]) || Inside(m[i + 1])) && !(DoorX(m[i]) && offz > 4.0 + rad && offz < 8.0 - rad)
  }

  predicate NorthBlocked(m: seq<bv8>, i: int, offx: real, rad: real)
    requires |m| == CELLS && Interior(i)
  {
    (Inside(m[i]) || Inside(m[i - 32])) && !(DoorZ(m[i - 32]) && offx > 4.0 + rad && offx < 8.0 - rad)
  }

  predicate SouthBlocked(m: seq<bv8>, i: int, offx: real, rad: real)
    requires |m| == CELLS && Interior(i)
  {
    (Inside(m[i]) || Inside(m[i + 32])) && !(DoorZ(m[i]) && offx > 4.0 + rad && offx < 8.0 - rad)
  }

  /** How far lines 278-295 move a character whose offsets inside cell i
      (measured after the clamp) are offx and offz: along each axis, at most
      one face, the near one, pushes it back to rad from that face. */
  function WallPush(m: seq<bv8>, i: int, offx: real, offz: real, rad: real): (r: (real, real))
    requires |m| == CELLS && Interior(i)
  {
    var dx :=
      if offx < rad then (if WestBlocked(m, i, offz, rad) then rad - offx else 0.0)
      else if offx > CELL_SIZE - rad then (if EastBlocked(m, i, offz, rad) then CELL_SIZE - rad - offx else 0.0)
      else 0.0;
    var dz :=
      if offz < rad then (if NorthBlocked(m, i, offx, rad) then rad - offz else 0.0)
      else if offz > CELL_SIZE - rad then (if SouthBlocked(m, i, offx, rad) then CELL_SIZE - rad - offz else 0.0)
      else 0.0;
    (dx, dz)
  }

  /** After the push a character of radius at most 8 keeps at least rad from
      every face of its cell that blocks it, measured from the offsets the
      push was computed from; and it is not moved at all along an axis where
      neither face blocks it. */
  lemma WallPushClears(m: seq<bv8>, i: int, offx: real, offz: real, rad: real)
    requires |m| == CELLS && Interior(i) && 0.0 <= rad <= 8.0
    ensures var r := WallPush(m, i, offx, offz, rad);
            && (WestBlocked(m, i, offz, rad) ==> offx + r.0 >= rad)
            && (EastBlocked(m, i, offz, rad) ==> offx + r.0 <= CELL_SIZE - rad)
            && (NorthBlocked(m, i, offx, rad) ==> offz + r.1 >= rad)
            && (SouthBlocked(m, i, offx, rad) ==> offz + r.1 <= CELL_SIZE - rad)
            && (!WestBlocked(m, i, offz, rad) && !EastBlocked(m, i, offz, rad) ==> r.0 == 0.0)
            && (!NorthBlocked(m, i, offx, rad) && !SouthBlocked(m, i, offx, rad) ==> r.1 == 0.0)
  {
  }

  /** What lines 278-295 do at each of the four faces of cell i. A
      character near a face with a block on either side and no doorway in
      it is pushed back to rad from the face; one near a face with a
      doorway in it, and fitting between 4 and 8 along the face, is not
      pushed along that axis; nor is one near a face between two open
      cells. A doorway only ever lets through a character of radius below
      2, as the gap from 4+rad to 8-rad is empty otherwise. */
  lemma DoorwayLetsThrough(m: seq<bv8>, i: int, offx: real, offz: real, rad: real)
    requires |m| == CELLS && Interior(i)
    ensures var r := WallPush(m, i, offx, offz, rad);
            && (offx < rad ==>
                  && ((Inside(m[i]) || Inside(m[i - 1])) && !DoorX(m[i - 1]) ==> r.0 == rad - offx)
                  && (DoorX(m[i - 1]) && 4.0 + rad < offz < 8.0 - rad ==> r.0 == 0.0)
                  && (!Inside(m[i]) && !Inside(m[i - 1]) ==> r.0 == 0.0))
            && (rad <= offx && offx > CELL_SIZE - rad ==>
                  && ((Inside(m[i]) || Inside(m[i + 1])) && !DoorX(m[i]) ==> r.0 == CELL_SIZE - rad - offx)
                  && (DoorX(m[i]) && 4.0 + rad < offz < 8.0 - rad ==> r.0 == 0.0)
                  && (!Inside(m[i]) && !Inside(m[i + 1]) ==> r.0 == 0.0))
            && (offz < rad ==>
                  && ((Inside(m[i]) || Inside(m[i - 32])) && !DoorZ(m[i - 32]) ==> r.1 == rad - offz)
                  && (DoorZ(m[i - 32]) && 4.0 + rad < offx < 8.0 - rad ==> r.1 == 0.0)
                  && (!Inside(m[i]) && !Inside(m[i - 32]) ==> r.1 == 0.0))
            && (rad <= offz && offz > CELL_SIZE - rad ==>
                  && ((Inside(m[i]) || Inside(m[i + 32])) && !DoorZ(m[i]) ==> r.1 == CELL_SIZE - rad - offz)
                  && (DoorZ(m[i]) && 4.0 + rad < offx < 8.0 - rad ==> r.1 == 0.0)
                  && (!Inside(m[i]) && !Inside(m[i + 32]) ==> r.1 == 0.0))
    ensures rad >= 2.0 ==>
              && (WestBlocked(m, i, offz, rad) <==> Inside(m[i]) || Inside(m[i - 1]))
              && (EastBlocked(m, i, offz, rad) <==> Inside(m[i]) || Inside(m[i + 1]))
              && (NorthBlocked(m, i, offx, rad) <==> Inside(m[i]) || Inside(m[i - 32]))
              && (SouthBlocked(m, i, offx, rad) <==> Inside(m[i]) || Inside(m[i + 32]))
  {
  }
}
