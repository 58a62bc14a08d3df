/** The single-player world of game.cpp: the zed slots and the spatial index
    over them, the map, the bullet slots and the player's health, ammo and
    fire delay, with the integer rules of init and updateFrame.

    Everything float in the source is abstracted. A distance test (in pickup
    range, touching the player, within aggro range), the "moved" result of
    collideCharacter and the cell a zed's float position falls in after it
    moved are inputs; the random draws of init come from oracle functions
    keyed by the cell being visited. */
module Game {
  import opened ZedIndex
  import GameMap
  import opened WorldGen

  const MAX_BULLETS := 64
  const MAX_HEALTH := 100
  const MAX_AMMO := 120
  const HEALTH_PACK := 25
  const AMMO_PACK := 30
  const ZED_DAMAGE := 30
  const SPAWN_HEALTH := 100
  const SPAWN_AMMO := 30
  const SPAWN_DELAY: real := 0.5
  const FIRE_DELAY: real := 0.20

  // ---------------------------------------------------------------- pickup

  /** Whether the player can take zed slot z now: a health pack while health
      is below 100, or an ammo pack while ammo is below 120, in reach. */
  predicate Takeable(z: Zed, near: bool, health: int, ammo: int)
  {
    near && ((z.state == Z_HEALTH && health < MAX_HEALTH) || (z.state == Z_AMMO && ammo < MAX_AMMO))
  }

  /** The lowest slot from k on that can be taken, or -1. */
  function FirstTakeable(zs: seq<Zed>, near: seq<bool>, health: int, ammo: int, k: nat): (r: int)
    requires |near| == |zs| && k <= |zs|
    ensures r == -1 || (k <= r < |zs| && Takeable(zs[r], near[r], health, ammo))
    ensures forall j :: k <= j < |zs| && (r == -1 || j < r) ==> !Takeable(zs[j], near[j], health, ammo)
    decreases |zs| - k
  {
    if k == |zs| then -1
    else if Takeable(zs[k], near[k], health, ammo) then k
    else FirstTakeable(zs, near, health, ammo, k + 1)
  }

  /** Health and ammo after taking a pack of the given kind: 25 health capped
      at 100, or 30 ammo capped at 120. */
  function Gain(kind: int, health: int, ammo: int): (r: (int, int))
    requires kind == Z_HEALTH || kind == Z_AMMO
    ensures kind == Z_HEALTH ==> r.1 == ammo && r.0 == if health + HEALTH_PACK > MAX_HEALTH then MAX_HEALTH else health + HEALTH_PACK
    ensures kind == Z_AMMO ==> r.0 == health && r.1 == if ammo + AMMO_PACK > MAX_AMMO then MAX_AMMO else ammo + AMMO_PACK
  {
    if kind == Z_HEALTH then
      var h := health + HEALTH_PACK;
      (if h > MAX_HEALTH then MAX_HEALTH else h, ammo)
    else
      var a := ammo + AMMO_PACK;
      (health, if a > MAX_AMMO then MAX_AMMO else a)
  }

  /** The slot the pickup pass of game.cpp:444-466 consumes, or -1: none
      unless E was pressed and health or ammo is below its cap, and otherwise
      the lowest slot that can be taken. */
  function PickupSlot(pressed: bool, zs: seq<Zed>, near: seq<bool>, health: int, ammo: int): (r: int)
    requires |near| == |zs|
    ensures r == -1 || (0 <= r < |zs| && Takeable(zs[r], near[r], health, ammo))
    ensures r != -1 ==> forall j :: 0 <= j < r ==> !Takeable(zs[j], near[j], health, ammo)
    ensures pressed && r == -1 ==> forall j :: 0 <= j < |zs| ==> !Takeable(zs[j], near[j], health, ammo)
    ensures !pressed ==> r == -1
  {
    if pressed && (health < MAX_HEALTH || ammo < MAX_AMMO) then FirstTakeable(zs, near, health, ammo, 0) else -1
  }

  /** A pack is only taken when it raises something, it never pushes health
      past 100 or ammo past 120, and it never lowers either; with both at
      their caps nothing is taken. */
  lemma PickupCaps(pressed: bool, zs: seq<Zed>, near: seq<bool>, health: int, ammo: int)
    requires |near| == |zs| && 0 <= health <= MAX_HEALTH && 0 <= ammo <= MAX_AMMO
    ensures var t := PickupSlot(pressed, zs, near, health, ammo);
            t != -1 ==>
              && (zs[t].state == Z_HEALTH ==> health < MAX_HEALTH)
              && (zs[t].state == Z_AMMO ==> ammo < MAX_AMMO)
              && var r := Gain(zs[t].state, health, ammo);
                 health <= r.0 <= MAX_HEALTH && ammo <= r.1 <= MAX_AMMO && r != (health, ammo)
    ensures health >= MAX_HEALTH && ammo >= MAX_AMMO ==> PickupSlot(pressed, zs, near, health, ammo) == -1
  {
  }

  // ---------------------------------------------------------------- shooting

  /** The lowest free bullet slot (x == -1 in the source) from k on, or -1. */
  function FirstFreeBullet(flying: seq<bool>, k: nat): (r: int)
    requires k <= |flying|
    ensures r == -1 || (k <= r < |flying| && !flying[r])
    ensures forall j :: k <= j < |flying| && (r == -1 || j < r) ==> flying[j]
    decreases |flying| - k
  {
    if k == |flying| then -1
    else if !flying[k] then k
    else FirstFreeBullet(flying, k + 1)
  }

  /** The fire delay after it has counted down by t (it only counts while
      positive). */
  function CountDown(delay: real, t: real): real
  {
    if delay > 0.0 then delay - t else delay
  }

  /** What shooting touches: the bullet slots in flight, the ammo and the
      fire delay. */
  datatype Gun = Gun(flying: seq<bool>, ammo: int, delay: real)

  /** Lines 469-485: the delay counts down; if ammo is left, the button is
      held and the delay has run out, the lowest free slot (if any) is filled
      at the cost of one round, and the delay is reset either way. */
  function Shoot(g: Gun, button: bool, t: real): (r: Gun)
    ensures |r.flying| == |g.flying|
    ensures r.ammo == g.ammo || r.ammo == g.ammo - 1
    ensures r.ammo == g.ammo - 1 <==>
              g.ammo > 0 && button && CountDown(g.delay, t) <= 0.0 && exists j :: 0 <= j < |g.flying| && !g.flying[j]
    ensures forall j :: 0 <= j < |g.flying| && r.flying[j] != g.flying[j] ==>
              !g.flying[j] && r.flying[j] && r.ammo == g.ammo - 1 && forall k :: 0 <= k < j ==> g.flying[k]
    ensures r.ammo == g.ammo - 1 ==> exists j :: 0 <= j < |g.flying| && r.flying[j] != g.flying[j]
    ensures g.ammo > 0 && button && CountDown(g.delay, t) <= 0.0 ==> r.delay == FIRE_DELAY
    ensures !(g.ammo > 0 && button && CountDown(g.delay, t) <= 0.0) ==> r.delay == CountDown(g.delay, t)
  {
    var d := CountDown(g.delay, t);
    if g.ammo > 0 && button && d <= 0.0 then
      var b := FirstFreeBullet(g.flying, 0);
      if b == -1 then Gun(g.flying, g.ammo, FIRE_DELAY)
      else Gun(g.flying[b := true], g.ammo - 1, FIRE_DELAY)
    else Gun(g.flying, g.ammo, d)
  }

  // ---------------------------------------------------------------- the zed state switch

  /** What one frame observes about a zed, all of it derived from floats:
      whether, after its move, it touches the player (distance under 1.6),
      whether collideCharacter reported that it was pushed, whether after
      the collision the player is within 32 units, and the cell its position
      then falls in. */
  datatype Sighting = Sighting(touching: bool, collided: bool, inRange: bool, ix: int, iz: int)

  /** The state a zed has after the switch of game.cpp:539-583. */
  function NextState(st: int, s: Sighting): (r: int)
    ensures Moving(r) <==> Moving(st)
    ensures !Moving(st) ==> r == st
    ensures st == Z_WANDERING && r == Z_ATTACKING <==> st == Z_WANDERING && s.collided && s.inRange
    ensures st == Z_ATTACKING && r == Z_WANDERING <==> st == Z_ATTACKING && (s.touching || s.collided)
  {
    if st == Z_WANDERING then (if s.collided && s.inRange then Z_ATTACKING else Z_WANDERING)
    else if st == Z_ATTACKING then (if s.touching || s.collided then Z_WANDERING else Z_ATTACKING)
    else st
  }

  /** Health after a run of hits, and whether one of them sent the player to
      a respawn. */
  datatype Struck = Struck(health: int, respawned: bool)

  /** Health after an attacking zed's hit, and whether the player respawned:
      30 off, and a full respawn once it drops below 0. */
  function Hit(health: int): (r: Struck)
    ensures r.respawned <==> health < ZED_DAMAGE
    ensures !r.respawned ==> r.health == health - ZED_DAMAGE
    ensures r.respawned ==> r.health == SPAWN_HEALTH
    ensures 0 <= health <= MAX_HEALTH ==> 0 <= r.health <= MAX_HEALTH
  {
    if health - ZED_DAMAGE < 0 then Struck(SPAWN_HEALTH, true) else Struck(health - ZED_DAMAGE, false)
  }

  /** updateColInfo keeps the linked zeds the moving ones (it changes no
      state and no membership) along with the soundness of the index. */
  lemma RelinkKeepsMoving(g: Grid, lists: seq<seq<int>>, i: int, ix: int, iz: int)
    requires IndexOk(g, lists) && LinkedAreMoving(g, lists) && Listed(g, lists, i) && InGrid(ix, iz)
    ensures UnlinkPre(g, i) && IsLink(Unlink(g, i).cols[CellIndex(ix, iz)])
    ensures IndexOk(Relink(g, i, ix, iz), Moved(lists, CellOf(g.zeds[i]), i, ix, iz))
    ensures LinkedAreMoving(Relink(g, i, ix, iz), Moved(lists, CellOf(g.zeds[i]), i, ix, iz))
  {
    RelinkOk(g, lists, i, ix, iz);
  }

  /** killZed keeps the linked zeds the moving ones: the one it unlinks is
      the one it frees. */
  lemma KillKeepsMoving(g: Grid, lists: seq<seq<int>>, i: int)
    requires IndexOk(g, lists) && LinkedAreMoving(g, lists) && Listed(g, lists, i)
    ensures UnlinkPre(g, i) && i in lists[CellOf(g.zeds[i])]
    ensures IndexOk(Kill(g, i), Removed(lists, CellOf(g.zeds[i]), i))
    ensures LinkedAreMoving(Kill(g, i), Removed(lists, CellOf(g.zeds[i]), i))
  {
    KillOk(g, lists, i);
  }

  /** A state write that neither starts nor stops a zed moving keeps the
      index sound, the membership of every zed, and the linked zeds the
      moving ones. */
  lemma StateWriteKeepsMoving(g: Grid, lists: seq<seq<int>>, i: int, s: int)
    requires IndexOk(g, lists) && LinkedAreMoving(g, lists) && 0 <= i < MAX_ZEDS
    requires Moving(g.zeds[i].state) <==> Moving(s)
    ensures IndexOk(WithState(g, i, s), lists)
    ensures LinkedAreMoving(WithState(g, i, s), lists)
    ensures forall j :: Listed(WithState(g, i, s), lists, j) <==> Listed(g, lists, j)
  {
    StateWriteOk(g, lists, i, s);
  }

  /** Health after n attacking zeds' hits in a row, and whether any of them
      sent the player to a respawn. */
  function Hits(health: int, n: nat): Struck
  {
    if n == 0 then Struck(health, false)
    else
      var p := Hits(health, n - 1);
      var q := Hit(p.health);
      Struck(q.health, p.respawned || q.respawned)
  }

  /** The player's health, ammo and fire delay. */
  datatype Vitals = Vitals(health: int, ammo: int, delay: real)

  /** Health, ammo and fire delay after n hits: a respawn on the way also
      resets ammo to 30 and the fire delay to 0.5. */
  function AfterHits(p: Vitals, n: nat): (r: Vitals)
    ensures r.health == Hits(p.health, n).health
    ensures Hits(p.health, n).respawned ==> r.ammo == SPAWN_AMMO && r.delay == SPAWN_DELAY
    ensures !Hits(p.health, n).respawned ==> r.ammo == p.ammo && r.delay == p.delay
  {
    var h := Hits(p.health, n);
    if h.respawned then Vitals(h.health, SPAWN_AMMO, SPAWN_DELAY) else Vitals(h.health, p.ammo, p.delay)
  }

  /** No hit changes nothing, and one more hit after n is the same as n + 1
      hits. */
  lemma AfterHitsStep(p: Vitals, n: nat, k: nat)
    requires k <= 1
    ensures AfterHits(AfterHits(p, n), k) == AfterHits(p, n + k)
  {
    if k == 1 {
      assert Hits(AfterHits(p, n).health, 1) == Struck(Hit(Hits(p.health, n).health).health, Hit(Hits(p.health, n).health).respawned);
    }
  }

  /** However many hits land, health stays within 0..100. */
  lemma {:induction false} HitsBounded(health: int, n: nat)
    requires 0 <= health <= MAX_HEALTH
    ensures 0 <= Hits(health, n).health <= MAX_HEALTH
  {
    if n > 0 {
      HitsBounded(health, n - 1);
    }
  }

  /** Hits that do not drive health below 0 take exactly 30 each and never
      respawn the player; a hit past that point always does. */
  lemma {:induction false} HitsWithoutRespawn(health: int, n: nat)
    requires n * ZED_DAMAGE <= health
    ensures Hits(health, n) == Struck(health - n * ZED_DAMAGE, false)
  {
    if n > 0 {
      HitsWithoutRespawn(health, n - 1);
    }
  }

  lemma {:induction false} HitsRespawn(health: int, n: nat)
    requires 0 <= health < n * ZED_DAMAGE
    ensures Hits(health, n).respawned
  {
    var k := health / ZED_DAMAGE;
    assert k * ZED_DAMAGE <= health < (k + 1) * ZED_DAMAGE;
    HitsSomeRespawn(health, k, n);
  }

  lemma {:induction false} HitsSomeRespawn(health: int, k: nat, n: nat)
    requires k * ZED_DAMAGE <= health < (k + 1) * ZED_DAMAGE && k < n
    ensures Hits(health, n).respawned
  {
    if n == k + 1 {
      HitsWithoutRespawn(health, k);
    } else {
      HitsSomeRespawn(health, k, n - 1);
    }
  }

  /** The number of zeds among the first k that are attacking and touch the
      player in this frame. */
  function Attacks(zs: seq<Zed>, obs: seq<Sighting>, k: nat): nat
    requires k <= |zs| && k <= |obs|
  {
    if k == 0 then 0
    else Attacks(zs, obs, k - 1) + (if zs[k - 1].state == Z_ATTACKING && obs[k - 1].touching then 1 else 0)
  }

  /** The zeds the bullets among the first n hit. */
  function Shot(flying: seq<bool>, hits: seq<int>, n: nat): set<int>
    requires n <= |flying| && n <= |hits|
  {
    set k | 0 <= k < n && flying[k] && hits[k] >= 0 :: hits[k]
  }

  /** Handling bullet slot b sets its flying flag and adds the zed it hit,
      if any, to the shot ones; that zed was not shot before. */
  lemma BulletSlotFacts(fl: seq<bool>, hits: seq<int>, b: int)
    requires |fl| == |hits| && 0 <= b < |fl|
    requires forall k, k' :: 0 <= k < k' < |fl| && fl[k] && fl[k'] && hits[k] >= 0 ==> hits[k] != hits[k']
    ensures FlyingAfter(fl, hits, b + 1) == FlyingAfter(fl, hits, b)[b := fl[b] && hits[b] == -1]
    ensures Shot(fl, hits, b + 1) == Shot(fl, hits, b) + (if fl[b] && hits[b] >= 0 then {hits[b]} else {})
    ensures fl[b] && hits[b] >= 0 ==> hits[b] !in Shot(fl, hits, b)
  {
  }

  /** collideCharacter's relink of zed i into cell (ix, iz), followed, when
      write holds, by setting its state to x. */
  function RelinkAndSet(g: Grid, i: int, ix: int, iz: int, x: int, write: bool): Grid
    requires UnlinkPre(g, i) && InGrid(ix, iz) && IsLink(Unlink(g, i).cols[CellIndex(ix, iz)])
  {
    var r := Relink(g, i, ix, iz);
    if write then WithState(r, i, x) else r
  }

  /** A linked moving zed relinked and kept moving: the index stays sound,
      the linked zeds stay the moving ones, zed i records (ix, iz), and no
      other zed changes state or cell. */
  lemma RelinkAndSetOk(g: Grid, lists: seq<seq<int>>, i: int, ix: int, iz: int, x: int, write: bool)
    requires IndexOk(g, lists) && LinkedAreMoving(g, lists) && Listed(g, lists, i) && InGrid(ix, iz)
    requires Moving(g.zeds[i].state) && Moving(x)
    ensures UnlinkPre(g, i) && IsLink(Unlink(g, i).cols[CellIndex(ix, iz)])
    ensures IndexOk(RelinkAndSet(g, i, ix, iz, x, write), Moved(lists, CellOf(g.zeds[i]), i, ix, iz))
    ensures LinkedAreMoving(RelinkAndSet(g, i, ix, iz, x, write), Moved(lists, CellOf(g.zeds[i]), i, ix, iz))
    ensures RelinkAndSet(g, i, ix, iz, x, write).zeds[i].state == if write then x else g.zeds[i].state
    ensures RelinkAndSet(g, i, ix, iz, x, write).zeds[i].ix == ix && RelinkAndSet(g, i, ix, iz, x, write).zeds[i].iz == iz
    ensures forall j :: 0 <= j < MAX_ZEDS && j != i ==>
              && RelinkAndSet(g, i, ix, iz, x, write).zeds[j].state == g.zeds[j].state
              && RelinkAndSet(g, i, ix, iz, x, write).zeds[j].ix == g.zeds[j].ix
              && RelinkAndSet(g, i, ix, iz, x, write).zeds[j].iz == g.zeds[j].iz
  {
    RelinkOk(g, lists, i, ix, iz);
    RelinkKeepsMoving(g, lists, i, ix, iz);
    if write {
      var r := Relink(g, i, ix, iz);
      var l := Moved(lists, CellOf(g.zeds[i]), i, ix, iz);
      StateWriteKeepsMoving(r, l, i, x);
    }
  }

  /** The zed slots and cell heads after the switch of game.cpp:539-583 has
      handled slot i. A wandering zed is relinked (inside collideCharacter)
      and then may turn to attack; an attacking zed that touches the player
      turns to wander, is relinked, and turns to wander if it was pushed.
      Other zeds are left alone. */
  function ZedStep(g: Grid, i: int, s: Sighting): Grid
    requires Shaped(g) && 0 <= i < MAX_ZEDS
    requires Moving(g.zeds[i].state) ==>
               UnlinkPre(g, i) && InGrid(s.ix, s.iz) && IsLink(Unlink(g, i).cols[CellIndex(s.ix, s.iz)])
  {
    var st := g.zeds[i].state;
    if st == Z_WANDERING then
      RelinkAndSet(g, i, s.ix, s.iz, Z_ATTACKING, s.collided && s.inRange)
    else if st == Z_ATTACKING then
      var g1 := if s.touching then WithState(g, i, Z_WANDERING) else g;
      StateKeepsUnlink(g, i, i, Z_WANDERING);
      RelinkAndSet(g1, i, s.ix, s.iz, Z_WANDERING, s.collided)
    else g
  }

  /** The cell lists after slot i's pass: a moving zed moves to its new
      cell's list. */
  ghost function StepLists(g: Grid, lists: seq<seq<int>>, i: int, s: Sighting): seq<seq<int>>
    requires Shaped(g) && |lists| == CELLS && 0 <= i < MAX_ZEDS
    requires Moving(g.zeds[i].state) ==> Listed(g, lists, i) && InGrid(s.ix, s.iz)
  {
    if Moving(g.zeds[i].state) then Moved(lists, CellOf(g.zeds[i]), i, s.ix, s.iz) else lists
  }

  /** One pass of the switch keeps the index sound and the linked zeds the
      moving ones; zed i takes the state NextState gives it and, if it
      moves, the observed cell; a still zed is not touched at all; no other
      zed changes state or cell. */
  lemma ZedStepFacts(g: Grid, lists: seq<seq<int>>, i: int, s: Sighting)
    requires IndexOk(g, lists) && LinkedAreMoving(g, lists) && 0 <= i < MAX_ZEDS
    requires Moving(g.zeds[i].state) ==> InGrid(s.ix, s.iz)
    ensures Moving(g.zeds[i].state) ==>
              Listed(g, lists, i) && UnlinkPre(g, i) && IsLink(Unlink(g, i).cols[CellIndex(s.ix, s.iz)])
    ensures IndexOk(ZedStep(g, i, s), StepLists(g, lists, i, s))
    ensures LinkedAreMoving(ZedStep(g, i, s), StepLists(g, lists, i, s))
    ensures ZedStep(g, i, s).zeds[i].state == NextState(g.zeds[i].state, s)
    ensures Moving(g.zeds[i].state) ==> ZedStep(g, i, s).zeds[i].ix == s.ix && ZedStep(g, i, s).zeds[i].iz == s.iz
    ensures !Moving(g.zeds[i].state) ==> ZedStep(g, i, s) == g
    ensures forall j :: 0 <= j < MAX_ZEDS && j != i ==>
              && ZedStep(g, i, s).zeds[j].state == g.zeds[j].state
              && ZedStep(g, i, s).zeds[j].ix == g.zeds[j].ix && ZedStep(g, i, s).zeds[j].iz == g.zeds[j].iz
  {
    if Moving(g.zeds[i].state) {
      ZedStepMoving(g, lists, i, s);
    }
  }

  /** ZedStepFacts for a moving zed. */
  lemma ZedStepMoving(g: Grid, lists: seq<seq<int>>, i: int, s: Sighting)
    requires IndexOk(g, lists) && LinkedAreMoving(g, lists) && 0 <= i < MAX_ZEDS
    requires Moving(g.zeds[i].state) && InGrid(s.ix, s.iz)
    ensures Listed(g, lists, i) && UnlinkPre(g, i) && IsLink(Unlink(g, i).cols[CellIndex(s.ix, s.iz)])
    ensures IndexOk(ZedStep(g, i, s), Moved(lists, CellOf(g.zeds[i]), i, s.ix, s.iz))
    ensures LinkedAreMoving(ZedStep(g, i, s), Moved(lists, CellOf(g.zeds[i]), i, s.ix, s.iz))
    ensures ZedStep(g, i, s).zeds[i].state == NextState(g.zeds[i].state, s)
    ensures ZedStep(g, i, s).zeds[i].ix == s.ix && ZedStep(g, i, s).zeds[i].iz == s.iz
    ensures forall j :: 0 <= j < MAX_ZEDS && j != i ==>
              && ZedStep(g, i, s).zeds[j].state == g.zeds[j].state
              && ZedStep(g, i, s).zeds[j].ix == g.zeds[j].ix && ZedStep(g, i, s).zeds[j].iz == g.zeds[j].iz
  {
    if g.zeds[i].state == Z_WANDERING {
      ZedStepWander(g, lists, i, s);
    } else {
      ZedStepAttack(g, lists, i, s);
    }
  }

  /** ZedStepMoving for a wandering zed. */
  lemma ZedStepWander(g: Grid, lists: seq<seq<int>>, i: int, s: Sighting)
    requires IndexOk(g, lists) && LinkedAreMoving(g, lists) && 0 <= i < MAX_ZEDS
    requires g.zeds[i].state == Z_WANDERING && InGrid(s.ix, s.iz)
    ensures Listed(g, lists, i) && UnlinkPre(g, i) && IsLink(Unlink(g, i).cols[CellIndex(s.ix, s.iz)])
    ensures IndexOk(ZedStep(g, i, s), Moved(lists, CellOf(g.zeds[i]), i, s.ix, s.iz))
    ensures LinkedAreMoving(ZedStep(g, i, s), Moved(lists, CellOf(g.zeds[i]), i, s.ix, s.iz))
    ensures ZedStep(g, i, s).zeds[i].state == NextState(g.zeds[i].state, s)
    ensures ZedStep(g, i, s).zeds[i].ix == s.ix && ZedStep(g, i, s).zeds[i].iz == s.iz
    ensures forall j :: 0 <= j < MAX_ZEDS && j != i ==>
              && ZedStep(g, i, s).zeds[j].state == g.zeds[j].state
              && ZedStep(g, i, s).zeds[j].ix == g.zeds[j].ix && ZedStep(g, i, s).zeds[j].iz == g.zeds[j].iz
  {
    var write := s.collided && s.inRange;
    RelinkAndSetOk(g, lists, i, s.ix, s.iz, Z_ATTACKING, write);
    assert ZedStep(g, i, s) == RelinkAndSet(g, i, s.ix, s.iz, Z_ATTACKING, write);
  }

  /** ZedStepMoving for an attacking zed: its pass is one RelinkAndSet, from
      the state the touch test leaves it in. */
  lemma ZedStepAttack(g: Grid, lists: seq<seq<int>>, i: int, s: Sighting)
    requires IndexOk(g, lists) && LinkedAreMoving(g, lists) && 0 <= i < MAX_ZEDS
    requires g.zeds[i].state == Z_ATTACKING && InGrid(s.ix, s.iz)
    ensures Listed(g, lists, i) && UnlinkPre(g, i) && IsLink(Unlink(g, i).cols[CellIndex(s.ix, s.iz)])
    ensures IndexOk(ZedStep(g, i, s), Moved(lists, CellOf(g.zeds[i]), i, s.ix, s.iz))
    ensures LinkedAreMoving(ZedStep(g, i, s), Moved(lists, CellOf(g.zeds[i]), i, s.ix, s.iz))
    ensures ZedStep(g, i, s).zeds[i].state == NextState(g.zeds[i].state, s)
    ensures ZedStep(g, i, s).zeds[i].ix == s.ix && ZedStep(g, i, s).zeds[i].iz == s.iz
    ensures forall j :: 0 <= j < MAX_ZEDS && j != i ==>
              && ZedStep(g, i, s).zeds[j].state == g.zeds[j].state
              && ZedStep(g, i, s).zeds[j].ix == g.zeds[j].ix && ZedStep(g, i, s).zeds[j].iz == g.zeds[j].iz
  {
    if s.touching {
      var g1 := WithState(g, i, Z_WANDERING);
      StateWriteKeepsMoving(g, lists, i, Z_WANDERING);
      assert IndexOk(g1, lists) && LinkedAreMoving(g1, lists) && Listed(g1, lists, i);
      RelinkAndSetOk(g1, lists, i, s.ix, s.iz, Z_WANDERING, s.collided);
      assert ZedStep(g, i, s) == RelinkAndSet(g1, i, s.ix, s.iz, Z_WANDERING, s.collided);
      assert CellOf(g1.zeds[i]) == CellOf(g.zeds[i]);
    } else {
      assert Listed(g, lists, i);
      RelinkAndSetOk(g, lists, i, s.ix, s.iz, Z_WANDERING, s.collided);
      assert ZedStep(g, i, s) == RelinkAndSet(g, i, s.ix, s.iz, Z_WANDERING, s.collided);
    }
  }

  /** After the zed loop has handled slots 0..i-1 of zs: those have their
      new state and cell, the rest are as they were. */
  ghost predicate ZedsProgress(zs: seq<Zed>, cur: seq<Zed>, obs: seq<Sighting>, i: int)
    requires |zs| == MAX_ZEDS && |cur| == MAX_ZEDS && |obs| == MAX_ZEDS && 0 <= i <= MAX_ZEDS
  {
    && (forall j :: 0 <= j < i ==> cur[j].state == NextState(zs[j].state, obs[j]))
    && (forall j :: 0 <= j < i && Moving(zs[j].state) ==> cur[j].ix == obs[j].ix && cur[j].iz == obs[j].iz)
    && (forall j :: 0 <= j < i && !Moving(zs[j].state) ==> cur[j].ix == zs[j].ix && cur[j].iz == zs[j].iz)
    && (forall j :: i <= j < MAX_ZEDS ==> cur[j].state == zs[j].state && cur[j].ix == zs[j].ix && cur[j].iz == zs[j].iz)
  }

  lemma ZedsProgressStep(zs: seq<Zed>, g: Grid, lists: seq<seq<int>>, obs: seq<Sighting>, i: int)
    requires |zs| == MAX_ZEDS && |obs| == MAX_ZEDS && 0 <= i < MAX_ZEDS
    requires IndexOk(g, lists) && LinkedAreMoving(g, lists) && ZedsProgress(zs, g.zeds, obs, i)
    requires Moving(zs[i].state) ==> InGrid(obs[i].ix, obs[i].iz)
    ensures Moving(g.zeds[i].state) ==> InGrid(obs[i].ix, obs[i].iz)
    ensures Moving(g.zeds[i].state) ==>
              Listed(g, lists, i) && UnlinkPre(g, i) && IsLink(Unlink(g, i).cols[CellIndex(obs[i].ix, obs[i].iz)])
    ensures ZedsProgress(zs, ZedStep(g, i, obs[i]).zeds, obs, i + 1)
  {
    ZedStepFacts(g, lists, i, obs[i]);
  }

  /** The bullet slots after the bullet loop has handled slots 0..b-1: those
      stay in flight only if collideLine found nothing. */
  function FlyingAfter(fl: seq<bool>, hits: seq<int>, b: int): (r: seq<bool>)
    requires |hits| == |fl|
    ensures |r| == |fl|
  {
    seq(|fl|, k requires 0 <= k < |fl| => if k < b then fl[k] && hits[k] == -1 else fl[k])
  }

  /** After the bullet loop has killed the zeds in shot: those are free and
      unlinked, every other zed keeps its state and its membership, and
      every zed keeps its cell. */
  ghost predicate KillsProgress(g0: Grid, l0: seq<seq<int>>, g: Grid, l: seq<seq<int>>, shot: set<int>)
    requires Shaped(g0) && |l0| == CELLS && Shaped(g) && |l| == CELLS
  {
    && (forall j :: Listed(g, l, j) <==> Listed(g0, l0, j) && j !in shot)
    && (forall j :: 0 <= j < MAX_ZEDS ==> g.zeds[j].state == if j in shot then Z_NONE else g0.zeds[j].state)
    && (forall j :: 0 <= j < MAX_ZEDS ==> g.zeds[j].ix == g0.zeds[j].ix && g.zeds[j].iz == g0.zeds[j].iz)
  }

  lemma KillsProgressStep(g0: Grid, l0: seq<seq<int>>, g: Grid, l: seq<seq<int>>, shot: set<int>, c: int)
    requires Shaped(g0) && |l0| == CELLS && IndexOk(g, l) && KillsProgress(g0, l0, g, l, shot)
    requires Listed(g, l, c)
    ensures UnlinkPre(g, c) && c in l[CellOf(g.zeds[c])]
    ensures KillsProgress(g0, l0, Kill(g, c), Removed(l, CellOf(g.zeds[c]), c), shot + {c})
  {
    KillOk(g, l, c);
    var g' := Kill(g, c);
    var l' := Removed(l, CellOf(g.zeds[c]), c);
    forall j
      ensures Listed(g', l', j) <==> Listed(g0, l0, j) && j !in shot + {c}
    {
      assert Listed(g', l', j) <==> Listed(g, l, j) && j != c;
    }
    KillKeepsCells(g, c);
    forall j | 0 <= j < MAX_ZEDS
      ensures g'.zeds[j].state == if j in shot + {c} then Z_NONE else g0.zeds[j].state
    {
      if j != c {
        assert g'.zeds[j].state == g.zeds[j].state;
      }
    }
  }

  /** Row jz + 1 of an s*s cache still lies within its s*s packs. */
  lemma NextRowFits(jz: int, s: int)
    requires 0 <= jz < s
    ensures jz * s + s == (jz + 1) * s <= s * s
  {
  }

  // ---------------------------------------------------------------- the world

  class World {
    const zed: array<Zed>
    const cols: array<int>
    const gameMap: array<bv8>
    /** bullets[i].x != -1 in the source: slot i holds a bullet in flight. */
    const flying: array<bool>
    var health: int
    var ammo: int
    var shootdelay: real
    /** The cell lists the links in zed[] and cols[] spell out. */
    ghost var lists: seq<seq<int>>

    ghost function Snap(): Grid
      reads zed, cols
    {
      Grid(zed[..], cols[..])
    }

    /** The cell index is sound and links exactly the moving zeds. */
    ghost predicate Indexed()
      reads this`lists, zed, cols
    {
      && zed.Length == MAX_ZEDS && cols.Length == CELLS
      && IndexOk(Snap(), lists)
      && LinkedAreMoving(Snap(), lists)
    }

    ghost predicate Valid()
      reads this, zed, cols, gameMap, flying
    {
      && Indexed()
      && gameMap.Length == CELLS && flying.Length == MAX_BULLETS
      && gameMap as object != cols
      && GameMap.StreetsOpen(gameMap[..])
      && 0 <= health <= MAX_HEALTH && 0 <= ammo <= MAX_AMMO
    }

    /** respawnPlayer (game.cpp:65-78) without the camera. */
    method RespawnPlayer()
      modifies this`health, this`ammo, this`shootdelay
      ensures health == SPAWN_HEALTH && ammo == SPAWN_AMMO && shootdelay == SPAWN_DELAY
    {
      shootdelay := SPAWN_DELAY;
      health := SPAWN_HEALTH;
      ammo := SPAWN_AMMO;
    }

    /** Lines 237-242 (and 395-400): unlink zed i from its cell's list in
        place. */
    method UnlinkSlot(i: int)
      requires zed.Length == MAX_ZEDS && cols.Length == CELLS && UnlinkPre(Snap(), i)
      modifies zed, cols
      ensures UnlinkPre(old(Snap()), i)
      ensures Snap() == Unlink(old(Snap()), i)
    {
      ghost var g := Snap();
      var z := zed[i];
      if z.cnext != -1 {
        zed[z.cnext] := zed[z.cnext].(cprev := z.cprev);
      }
      ghost var zs1 := zed[..];
      assert zs1 == if z.cnext != -1 then g.zeds[z.cnext := g.zeds[z.cnext].(cprev := z.cprev)] else g.zeds;
      if z.cprev != -1 {
        zed[z.cprev] := zed[z.cprev].(cnext := z.cnext);
        assert zed[..] == zs1[z.cprev := zs1[z.cprev].(cnext := z.cnext)];
      } else {
        cols[z.iz * GRID + z.ix] := z.cnext;
        assert cols[..] == g.cols[CellIndex(z.ix, z.iz) := z.cnext];
      }
    }

    /** Lines 243-248 with the guard line 245 lacks: zed i becomes the head
        of the list of cell (ix, iz) in place. */
    method LinkSlot(i: int, ix: int, iz: int)
      requires zed.Length == MAX_ZEDS && cols.Length == CELLS && LinkPre(Snap(), i, ix, iz)
      modifies zed, cols
      ensures LinkPre(old(Snap()), i, ix, iz)
      ensures Snap() == Link(old(Snap()), i, ix, iz)
    {
      ghost var g := Snap();
      var d := iz * GRID + ix;
      var h := cols[d];
      zed[i] := zed[i].(cprev := -1, cnext := h);
      ghost var zs1 := zed[..];
      assert zs1 == g.zeds[i := g.zeds[i].(cprev := -1, cnext := h)];
      if h != -1 {
        zed[h] := zed[h].(cprev := i);
      }
      ghost var zs2 := zed[..];
      assert zs2 == if h != -1 then zs1[h := zs1[h].(cprev := i)] else zs1;
      cols[d] := i;
      zed[i] := zed[i].(ix := ix, iz := iz);
      assert zed[..] == zs2[i := zs2[i].(ix := ix, iz := iz)];
    }

    /** updateColInfo (game.cpp:233-250) for a linked zed whose float position
        now falls in cell (ix, iz), with the guard line 245 lacks. */
    method UpdateColInfo(i: int, ix: int, iz: int)
      requires Valid() && Listed(Snap(), lists, i) && InGrid(ix, iz)
      modifies zed, cols, this`lists
      ensures UnlinkPre(old(Snap()), i) && IsLink(Unlink(old(Snap()), i).cols[CellIndex(ix, iz)])
      ensures Snap() == Relink(old(Snap()), i, ix, iz)
      ensures lists == Moved(old(lists), CellOf(old(zed[i])), i, ix, iz)
      ensures Valid()
    {
      ghost var g := Snap();
      RelinkKeepsMoving(g, lists, i, ix, iz);
      if zed[i].ix != ix || zed[i].iz != iz {
        UnlinkSlot(i);
        LinkSlot(i, ix, iz);
        lists := Moved(lists, CellOf(g.zeds[i]), i, ix, iz);
      }
      assert gameMap[..] == old(gameMap[..]);
    }

    /** killZed (game.cpp:383-404) for a zed a bullet found on a cell list;
        the particles it sprays are not modelled. */
    method KillZed(i: int)
      requires Valid() && Listed(Snap(), lists, i)
      modifies zed, cols, this`lists
      ensures UnlinkPre(old(Snap()), i) && i in old(lists)[CellOf(old(zed[i]))]
      ensures Snap() == Kill(old(Snap()), i)
      ensures lists == Removed(old(lists), CellOf(old(zed[i])), i)
      ensures Valid()
    {
      ghost var g := Snap();
      KillKeepsMoving(g, lists, i);
      UnlinkSlot(i);
      zed[i] := zed[i].(cprev := -1, cnext := -1, state := Z_NONE);
      lists := Removed(lists, CellOf(g.zeds[i]), i);
      assert gameMap[..] == old(gameMap[..]);
    }

    /** zed[i].state = s, for a state that keeps zed i moving or keeps it
        still. */
    method SetState(i: int, s: int)
      requires Valid() && 0 <= i < MAX_ZEDS && (Moving(zed[i].state) <==> Moving(s))
      modifies zed
      ensures Snap() == WithState(old(Snap()), i, s)
      ensures Valid()
      ensures forall j :: Listed(Snap(), lists, j) <==> old(Listed(Snap(), lists, j))
    {
      StateWriteKeepsMoving(Snap(), lists, i, s);
      zed[i] := zed[i].(state := s);
      assert zed[..] == old(zed[..])[i := old(zed[i]).(state := s)];
      assert gameMap[..] == old(gameMap[..]);
    }

    /** The pickup pass (game.cpp:444-466); near[i] is the float test that
        slot i lies within reach of the player. */
    method Pickup(pressed: bool, near: seq<bool>)
      requires Valid() && |near| == MAX_ZEDS
      modifies zed, this`health, this`ammo
      ensures var t := PickupSlot(pressed, old(zed[..]), near, old(health), old(ammo));
              && (t == -1 ==> zed[..] == old(zed[..]) && health == old(health) && ammo == old(ammo))
              && (t != -1 ==> zed[..] == old(zed[..])[t := old(zed[t]).(state := Z_NONE)]
                              && (health, ammo) == Gain(old(zed[t].state), old(health), old(ammo)))
      ensures Valid()
    {
      if !(pressed && (health < MAX_HEALTH || ammo < MAX_AMMO)) {
        return;
      }
      var i := 0;
      while i < MAX_ZEDS
        invariant 0 <= i <= MAX_ZEDS
        invariant forall j :: 0 <= j < i ==> !Takeable(zed[j], near[j], health, ammo)
        invariant zed[..] == old(zed[..]) && health == old(health) && ammo == old(ammo)
      {
        var z := zed[i];
        if (z.state == Z_HEALTH || z.state == Z_AMMO) && near[i] {
          if z.state == Z_HEALTH {
            if health < MAX_HEALTH {
              health := health + HEALTH_PACK;
              if health > MAX_HEALTH {
                health := MAX_HEALTH;
              }
              SetState(i, Z_NONE);
              return;
            }
          } else {
            if ammo < MAX_AMMO {
              ammo := ammo + AMMO_PACK;
              if ammo > MAX_AMMO {
                ammo := MAX_AMMO;
              }
              SetState(i, Z_NONE);
              return;
            }
          }
        }
        i := i + 1;
      }
    }

    /** The shooting block (game.cpp:469-485); button is the left mouse
        button and t the frame time. */
    method Fire(button: bool, t: real)
      requires Valid()
      modifies flying, this`ammo, this`shootdelay
      ensures Gun(flying[..], ammo, shootdelay) == Shoot(old(Gun(flying[..], ammo, shootdelay)), button, t)
      ensures Valid()
    {
      if shootdelay > 0.0 {
        shootdelay := shootdelay - t;
      }
      if ammo > 0 && button && shootdelay <= 0.0 {
        var i := 0;
        while i < MAX_BULLETS
          invariant 0 <= i <= MAX_BULLETS
          invariant forall j :: 0 <= j < i ==> flying[j]
          invariant flying[..] == old(flying[..]) && ammo == old(ammo)
        {
          if !flying[i] {
            flying[i] := true;
            ammo := ammo - 1;
            break;
          }
          i := i + 1;
        }
        shootdelay := FIRE_DELAY;
      }
    }

    /** Lines 564-568: an attacking zed's hit, with respawnPlayer when health
        drops below 0. */
    method TakeHit()
      requires Valid()
      modifies this`health, this`ammo, this`shootdelay
      ensures Vitals(health, ammo, shootdelay) == AfterHits(old(Vitals(health, ammo, shootdelay)), 1)
      ensures Valid()
    {
      assert Hits(health, 1) == Hit(health);
      health := health - ZED_DAMAGE;
      if health < 0 {
        RespawnPlayer();
      }
    }

    /** The Z_WANDERING case (lines 543-560) for its integer effects:
        collideCharacter relinks the zed, and a zed that was pushed while
        the player is in range turns to attack. */
    method WanderStep(i: int, s: Sighting)
      requires Valid() && 0 <= i < MAX_ZEDS && zed[i].state == Z_WANDERING && InGrid(s.ix, s.iz)
      modifies zed, cols, this`lists
      ensures Listed(old(Snap()), old(lists), i) && UnlinkPre(old(Snap()), i)
      ensures IsLink(Unlink(old(Snap()), i).cols[CellIndex(s.ix, s.iz)])
      ensures Snap() == ZedStep(old(Snap()), i, s)
      ensures lists == StepLists(old(Snap()), old(lists), i, s)
      ensures Valid()
    {
      ZedStepMoving(Snap(), lists, i, s);
      UpdateColInfo(i, s.ix, s.iz);
      if s.collided && s.inRange {
        SetState(i, Z_ATTACKING);
      }
    }

    /** The Z_ATTACKING case (lines 561-576) for its integer effects: a touch
        costs the player a hit and sends the zed wandering; collideCharacter
        relinks it; a zed that was pushed turns to wander. */
    method AttackStep(i: int, s: Sighting)
      requires Valid() && 0 <= i < MAX_ZEDS && zed[i].state == Z_ATTACKING && InGrid(s.ix, s.iz)
      modifies zed, cols, this`lists, this`health, this`ammo, this`shootdelay
      ensures Listed(old(Snap()), old(lists), i) && UnlinkPre(old(Snap()), i)
      ensures IsLink(Unlink(old(Snap()), i).cols[CellIndex(s.ix, s.iz)])
      ensures Snap() == ZedStep(old(Snap()), i, s)
      ensures lists == StepLists(old(Snap()), old(lists), i, s)
      ensures Valid()
      ensures Vitals(health, ammo, shootdelay) == AfterHits(old(Vitals(health, ammo, shootdelay)), if s.touching then 1 else 0)
    {
      ZedStepMoving(Snap(), lists, i, s);
      if s.touching {
        TakeHit();
        SetState(i, Z_WANDERING);
      }
      UpdateColInfo(i, s.ix, s.iz);
      if s.collided {
        SetState(i, Z_WANDERING);
      }
    }

    /** One pass of the zed switch (game.cpp:539-583) for slot i; s says what
        the frame observed about it. collideCharacter is where the zed is
        relinked (line 297), so a moving zed always ends up in s's cell. */
    method StepZed(i: int, s: Sighting)
      requires Valid() && 0 <= i < MAX_ZEDS && (Moving(zed[i].state) ==> InGrid(s.ix, s.iz))
      modifies zed, cols, this`lists, this`health, this`ammo, this`shootdelay
      ensures Moving(old(zed[i].state)) ==>
                && Listed(old(Snap()), old(lists), i) && UnlinkPre(old(Snap()), i)
                && IsLink(Unlink(old(Snap()), i).cols[CellIndex(s.ix, s.iz)])
      ensures Snap() == ZedStep(old(Snap()), i, s)
      ensures lists == StepLists(old(Snap()), old(lists), i, s)
      ensures Valid()
      ensures Vitals(health, ammo, shootdelay) ==
                AfterHits(old(Vitals(health, ammo, shootdelay)), if old(zed[i].state) == Z_ATTACKING && s.touching then 1 else 0)
    {
      var st := zed[i].state;
      if st == Z_WANDERING {
        WanderStep(i, s);
      } else if st == Z_ATTACKING {
        AttackStep(i, s);
      }
    }

    /** The zed loop of updateFrame (game.cpp:539-583): every zed takes the
        state NextState gives it, every moving zed ends up in the cell it was
        observed in, the others keep their cell, and the player takes one hit
        per attacking zed that touched it. */
    method UpdateZeds(obs: seq<Sighting>)
      requires Valid() && |obs| == MAX_ZEDS
      requires forall j :: 0 <= j < MAX_ZEDS && Moving(zed[j].state) ==> InGrid(obs[j].ix, obs[j].iz)
      modifies zed, cols, this`lists, this`health, this`ammo, this`shootdelay
      ensures Valid()
      ensures forall j :: 0 <= j < MAX_ZEDS ==> zed[j].state == NextState(old(zed[j].state), obs[j])
      ensures forall j :: 0 <= j < MAX_ZEDS && Moving(old(zed[j].state)) ==> zed[j].ix == obs[j].ix && zed[j].iz == obs[j].iz
      ensures forall j :: 0 <= j < MAX_ZEDS && !Moving(old(zed[j].state)) ==> zed[j].ix == old(zed[j].ix) && zed[j].iz == old(zed[j].iz)
      ensures Vitals(health, ammo, shootdelay) == AfterHits(old(Vitals(health, ammo, shootdelay)), Attacks(old(zed[..]), obs, MAX_ZEDS))
    {
      ghost var zs := zed[..];
      ghost var v0 := Vitals(health, ammo, shootdelay);
      var i := 0;
      while i < MAX_ZEDS
        invariant 0 <= i <= MAX_ZEDS && Valid()
        invariant forall j :: 0 <= j < MAX_ZEDS && Moving(zs[j].state) ==> InGrid(obs[j].ix, obs[j].iz)
        invariant ZedsProgress(zs, zed[..], obs, i)
        invariant Vitals(health, ammo, shootdelay) == AfterHits(v0, Attacks(zs, obs, i))
      {
        ZedPass(obs, i, zs, v0);
        i := i + 1;
      }
    }

    /** One pass of the zed loop: slot i of zs is handled, and the player
        takes the hit an attacking zed that touched it deals. */
    method ZedPass(obs: seq<Sighting>, i: int, ghost zs: seq<Zed>, ghost v0: Vitals)
      requires Valid() && |obs| == MAX_ZEDS && |zs| == MAX_ZEDS && 0 <= i < MAX_ZEDS
      requires Moving(zs[i].state) ==> InGrid(obs[i].ix, obs[i].iz)
      requires ZedsProgress(zs, zed[..], obs, i)
      requires Vitals(health, ammo, shootdelay) == AfterHits(v0, Attacks(zs, obs, i))
      modifies zed, cols, this`lists, this`health, this`ammo, this`shootdelay
      ensures Valid()
      ensures ZedsProgress(zs, zed[..], obs, i + 1)
      ensures Vitals(health, ammo, shootdelay) == AfterHits(v0, Attacks(zs, obs, i + 1))
    {
      ghost var k := if zs[i].state == Z_ATTACKING && obs[i].touching then 1 else 0;
      assert Attacks(zs, obs, i + 1) == Attacks(zs, obs, i) + k;
      AfterHitsStep(v0, Attacks(zs, obs, i), k);
      assert AfterHits(AfterHits(v0, Attacks(zs, obs, i)), k) == AfterHits(v0, Attacks(zs, obs, i + 1));
      ZedsProgressStep(zs, Snap(), lists, obs, i);
      assert zed[i].state == zs[i].state by {
        assert zed[..][i] == zed[i];
      }
      ghost var p := Vitals(health, ammo, shootdelay);
      StepZed(i, obs[i]);
      assert Vitals(health, ammo, shootdelay) == AfterHits(p, k);
    }

    /** What the bullet loop does with bullet b given collideLine's answer
        c: -1 keeps it flying; anything else stops it, and a zed (c >= 0) is
        killed outright (lines 494-496, 511). */
    method BulletStep(b: int, c: int)
      requires Valid() && 0 <= b < MAX_BULLETS && (flying[b] && c >= 0 ==> Listed(Snap(), lists, c))
      modifies zed, cols, flying, this`lists
      ensures flying[..] == old(flying[..])[b := old(flying[b]) && c == -1]
      ensures old(flying[b]) && c >= 0 ==> UnlinkPre(old(Snap()), c) && c in old(lists)[CellOf(old(zed[c]))]
      ensures Snap() == if old(flying[b]) && c >= 0 then Kill(old(Snap()), c) else old(Snap())
      ensures lists == if old(flying[b]) && c >= 0 then Removed(old(lists), CellOf(old(zed[c])), c) else old(lists)
      ensures Valid()
    {
      if flying[b] {
        if c != -1 {
          if c >= 0 {
            KillZed(c);
          }
          flying[b] := false;
        }
      }
    }

    /** The bullet loop of updateFrame (game.cpp:488-528) for its integer
        effects; hits[b] is what collideLine returned for bullet b: -1 for
        no contact, -2 for a wall, floor or the edge of the map, and
        otherwise a zed it found on a cell list. A bullet that hits anything
        stops, and a zed it hits is killed outright. */
    method UpdateBullets(hits: seq<int>)
      requires Valid() && |hits| == MAX_BULLETS
      requires forall k :: 0 <= k < MAX_BULLETS && flying[k] && hits[k] >= 0 ==> Listed(Snap(), lists, hits[k])
      requires forall k, k' :: 0 <= k < k' < MAX_BULLETS && flying[k] && flying[k'] && hits[k] >= 0 ==> hits[k] != hits[k']
      modifies zed, cols, flying, this`lists
      ensures Valid()
      ensures forall k :: 0 <= k < MAX_BULLETS ==> (flying[k] <==> old(flying[k]) && hits[k] == -1)
      ensures forall j :: Listed(Snap(), lists, j) <==> old(Listed(Snap(), lists, j)) && j !in Shot(old(flying[..]), hits, MAX_BULLETS)
      ensures forall j :: 0 <= j < MAX_ZEDS ==>
                zed[j].state == if j in Shot(old(flying[..]), hits, MAX_BULLETS) then Z_NONE else old(zed[j].state)
      ensures forall j :: 0 <= j < MAX_ZEDS ==> zed[j].ix == old(zed[j].ix) && zed[j].iz == old(zed[j].iz)
    {
      ghost var fl := flying[..];
      ghost var g0 := Snap();
      ghost var l0 := lists;
      var b := 0;
      while b < MAX_BULLETS
        invariant 0 <= b <= MAX_BULLETS && Valid()
        invariant flying[..] == FlyingAfter(fl, hits, b)
        invariant KillsProgress(g0, l0, Snap(), lists, Shot(fl, hits, b))
      {
        BulletPass(hits, b, fl, g0, l0);
        b := b + 1;
      }
    }

    /** One pass of the bullet loop: bullet b is handled, and the zed it hit,
        if any, joins the shot ones. */
    method BulletPass(hits: seq<int>, b: int, ghost fl: seq<bool>, ghost g0: Grid, ghost l0: seq<seq<int>>)
      requires Valid() && |hits| == MAX_BULLETS && |fl| == MAX_BULLETS && 0 <= b < MAX_BULLETS
      requires Shaped(g0) && |l0| == CELLS
      requires forall k :: 0 <= k < MAX_BULLETS && fl[k] && hits[k] >= 0 ==> Listed(g0, l0, hits[k])
      requires forall k, k' :: 0 <= k < k' < MAX_BULLETS && fl[k] && fl[k'] && hits[k] >= 0 ==> hits[k] != hits[k']
      requires flying[..] == FlyingAfter(fl, hits, b)
      requires KillsProgress(g0, l0, Snap(), lists, Shot(fl, hits, b))
      modifies zed, cols, flying, this`lists
      ensures Valid()
      ensures flying[..] == FlyingAfter(fl, hits, b + 1)
      ensures KillsProgress(g0, l0, Snap(), lists, Shot(fl, hits, b + 1))
    {
      assert flying[b] == fl[b] by {
        assert flying[..][b] == flying[b];
      }
      BulletSlotFacts(fl, hits, b);
      if flying[b] && hits[b] >= 0 {
        KillsProgressStep(g0, l0, Snap(), lists, Shot(fl, hits, b), hits[b]);
      }
      BulletStep(b, hits[b]);
    }

    // ---------------------------------------------------------------- init

    /** init (game.cpp:80-221) without SDL, OpenGL, the camera and the
        particles. rng's answers are the parameters: coin(pass, iy, ix) the
        building coin, door and extraDoor the doorway rolls, extra the 20%
        coin for a second doorway, cache the 12.5% cache coin, healthy the
        25% coin that makes a cache health rather than ammo, and size the
        side s of the cache's s*s packs. The zed pass starts on the first
        free slot after the packs. */
    constructor Init(coin: (int, int, int) -> bool, door: (int, int) -> int, extra: (int, int) -> bool,
                     extraDoor: (int, int) -> int, cache: (int, int) -> bool, healthy: (int, int) -> bool,
                     size: (int, int) -> int)
      requires Demand(ALL_BLOCKS, cache, size, |ALL_BLOCKS|) + 887 < MAX_ZEDS
      ensures Valid()
      ensures health == SPAWN_HEALTH && ammo == SPAWN_AMMO && shootdelay == SPAWN_DELAY
      ensures forall b :: 0 <= b < MAX_BULLETS ==> !flying[b]
      ensures Built(coin, door, extra, extraDoor) && Populated(cache, healthy, size)
    {
      zed := new Zed[MAX_ZEDS];
      cols := new int[CELLS];
      gameMap := new bv8[CELLS];
      flying := new bool[MAX_BULLETS];
      new;
      Setup(coin, door, extra, extraDoor, cache, healthy, size);
    }

    /** The body of init from line 117 on, on arrays of the right sizes. */
    method Setup(coin: (int, int, int) -> bool, door: (int, int) -> int, extra: (int, int) -> bool,
                 extraDoor: (int, int) -> int, cache: (int, int) -> bool, healthy: (int, int) -> bool,
                 size: (int, int) -> int)
      requires zed.Length == MAX_ZEDS && cols.Length == CELLS && gameMap.Length == CELLS && flying.Length == MAX_BULLETS
      requires gameMap as object != cols && gameMap as object != zed && gameMap as object != flying
      requires Demand(ALL_BLOCKS, cache, size, |ALL_BLOCKS|) + 887 < MAX_ZEDS
      modifies this`health, this`ammo, this`shootdelay, this`lists, zed, cols, gameMap, flying
      ensures Valid()
      ensures health == SPAWN_HEALTH && ammo == SPAWN_AMMO && shootdelay == SPAWN_DELAY
      ensures forall b :: 0 <= b < MAX_BULLETS ==> !flying[b]
      ensures Built(coin, door, extra, extraDoor) && Populated(cache, healthy, size)
    {
      RespawnPlayer();
      ClearMap();
      ClearCols();
      ClearZeds();
      BuildMap(coin, door, extra, extraDoor);
      DemandAtMostAllBlocks(gameMap[..], cache, size, gameMap.Length);
      Populate(cache, healthy, size);
      ClearBullets();
    }

    /** Lines 125-126. */
    method ClearMap()
      requires gameMap.Length == CELLS
      modifies gameMap
      ensures forall k :: 0 <= k < CELLS ==> gameMap[k] == 0
    {
      var i := 0;
      while i < CELLS
        invariant 0 <= i <= CELLS
        invariant forall k :: 0 <= k < i ==> gameMap[k] == 0
      {
        gameMap[i] := 0;
        i := i + 1;
      }
    }

    /** Lines 127-128. */
    method ClearCols()
      requires cols.Length == CELLS
      modifies cols
      ensures forall k :: 0 <= k < CELLS ==> cols[k] == -1
    {
      var i := 0;
      while i < CELLS
        invariant 0 <= i <= CELLS
        invariant forall k :: 0 <= k < i ==> cols[k] == -1
      {
        cols[i] := -1;
        i := i + 1;
      }
    }

    /** Lines 129-130: only the states are cleared. */
    method ClearZeds()
      requires zed.Length == MAX_ZEDS
      modifies zed
      ensures forall j :: 0 <= j < MAX_ZEDS ==> zed[j] == old(zed[j]).(state := Z_NONE)
    {
      var i := 0;
      while i < MAX_ZEDS
        invariant 0 <= i <= MAX_ZEDS
        invariant forall j :: 0 <= j < i ==> zed[j] == old(zed[j]).(state := Z_NONE)
        invariant forall j :: i <= j < MAX_ZEDS ==> zed[j] == old(zed[j])
      {
        zed[i] := zed[i].(state := Z_NONE);
        i := i + 1;
      }
    }

    /** Lines 215-216: no bullet in flight. */
    method ClearBullets()
      requires flying.Length == MAX_BULLETS
      modifies flying
      ensures forall b :: 0 <= b < MAX_BULLETS ==> !flying[b]
    {
      var i := 0;
      while i < MAX_BULLETS
        invariant 0 <= i <= MAX_BULLETS
        invariant forall b :: 0 <= b < i ==> !flying[b]
      {
        flying[i] := false;
        i := i + 1;
      }
    }

    /** What the building and doorway passes leave on the cleared map: the
        map is exactly their result, so every doorway is in a face of a
        block, every block had its coin come up, and a block whose doorway
        roll is 0 to 3 can be entered. */
    ghost predicate Built(coin: (int, int, int) -> bool, door: (int, int) -> int, extra: (int, int) -> bool,
                          extraDoor: (int, int) -> int)
      reads gameMap
    {
      && gameMap.Length == CELLS
      && gameMap[..] == Doorways(Buildings(coin, BLANK), door, extra, extraDoor)
      && GameMap.DoorsOnBlocks(gameMap[..])
      && (forall x, z :: InGrid(x, z) && GameMap.Inside(gameMap[CellIndex(x, z)]) ==> Coined(coin, 1, x, z))
      && (forall x, z :: 1 <= x <= 30 && 1 <= z <= 30 ==> DoorwayCut(gameMap[..], door, x, z))
    }

    /** What the cache and zed passes promise of the slots, with d the
        number of packs the map demands: slots 0..d-1 hold those packs, in
        scan order, each on its cell and of the kind its cell's coin picks
        (PackAt); the spawn spots take the next 887 slots, one each in scan
        order, each holding a wandering zed; the slots after those are free. */
    ghost predicate Populated(cache: (int, int) -> bool, healthy: (int, int) -> bool, size: (int, int) -> int)
      requires zed.Length == MAX_ZEDS && cols.Length == CELLS && gameMap.Length == CELLS
      reads zed, cols, gameMap
    {
      var d := Demand(gameMap[..], cache, size, gameMap.Length);
      && (forall j :: 0 <= j < d && j < MAX_ZEDS ==> zed[j] == PackAt(gameMap[..], cache, healthy, size, CELLS, j))
      && (forall x, z :: InGrid(x, z) ==> CellPlaced(Snap(), d, x, z))
      && (forall j :: d + 887 <= j < MAX_ZEDS ==> zed[j].state == Z_NONE)
    }

    /** Lines 131-166 on a cleared map. */
    method BuildMap(coin: (int, int, int) -> bool, door: (int, int) -> int, extra: (int, int) -> bool,
                    extraDoor: (int, int) -> int)
      requires gameMap.Length == CELLS && forall k :: 0 <= k < CELLS ==> gameMap[k] == 0
      modifies gameMap
      ensures Built(coin, door, extra, extraDoor) && GameMap.StreetsOpen(gameMap[..])
    {
      assert gameMap[..] == BLANK;
      assert GameMap.BlocksOnly(gameMap[..]);
      GenerateBuildings(coin);
      ghost var m1 := gameMap[..];
      GameMap.BlocksOnlyNoDoors(m1);
      GameMap.BlocksOnlyStreetsOpen(m1);
      CarveDoorways(door, extra, extraDoor);
      GameMap.GrowsKeeps(m1, gameMap[..]);
      forall x, z | InGrid(x, z) && GameMap.Inside(gameMap[CellIndex(x, z)])
        ensures Coined(coin, 1, x, z)
      {
        assert GameMap.Inside(m1[CellIndex(x, z)]);
      }
    }

    /** Lines 167-213 on free slots and empty cells: the cache pass, then
        the zed pass from the first slot after the packs. */
    method Populate(cache: (int, int) -> bool, healthy: (int, int) -> bool, size: (int, int) -> int)
      requires zed.Length == MAX_ZEDS && cols.Length == CELLS && gameMap.Length == CELLS && flying.Length == MAX_BULLETS
      requires gameMap as object != cols && gameMap as object != zed && GameMap.StreetsOpen(gameMap[..])
      requires 0 <= health <= MAX_HEALTH && 0 <= ammo <= MAX_AMMO
      requires forall k :: 0 <= k < CELLS ==> cols[k] == -1
      requires forall j :: 0 <= j < MAX_ZEDS ==> zed[j].state == Z_NONE
      requires Demand(gameMap[..], cache, size, gameMap.Length) + 887 < MAX_ZEDS
      modifies zed, cols, this`lists
      ensures Valid() && Populated(cache, healthy, size)
    {
      var c, placed := PlaceCaches(cache, healthy, size);
      ghost var zs := zed[..];
      FreeSlotAfterPacks(zs, gameMap[..], placed, c);
      lists := NoLists();
      EmptyIndexOk(Snap());
      SpawnZeds(placed);
      assert forall j :: 0 <= j < placed ==> zed[j] == zs[j];
    }

    /** Lines 167-213 as written: the zed pass starts on the slot c that
        the cache pass leaves behind, which is the last pack's slot once a
        pack was written, so the first zed (the one on cell (1, 1))
        overwrites that pack and only the others survive. */
    method PopulateAsWritten(cache: (int, int) -> bool, healthy: (int, int) -> bool, size: (int, int) -> int)
      requires zed.Length == MAX_ZEDS && cols.Length == CELLS && gameMap.Length == CELLS && flying.Length == MAX_BULLETS
      requires gameMap as object != cols && gameMap as object != zed && GameMap.StreetsOpen(gameMap[..])
      requires 0 <= health <= MAX_HEALTH && 0 <= ammo <= MAX_AMMO
      requires forall k :: 0 <= k < CELLS ==> cols[k] == -1
      requires forall j :: 0 <= j < MAX_ZEDS ==> zed[j].state == Z_NONE
      requires Demand(gameMap[..], cache, size, gameMap.Length) + 887 < MAX_ZEDS
      modifies zed, cols, this`lists
      ensures Valid()
      ensures var d := Demand(gameMap[..], cache, size, gameMap.Length);
              && (0 < d ==> zed[d - 1] == Zed(Z_WANDERING, 1, 1, -1, -1))
              && forall j :: 0 <= j < d - 1 ==> zed[j] == PackAt(gameMap[..], cache, healthy, size, CELLS, j)
    {
      var c, placed := PlaceCaches(cache, healthy, size);
      ghost var zs := zed[..];
      FreeSlotAfterPacks(zs, gameMap[..], placed, c);
      assert c == if placed == 0 then 0 else placed - 1;
      lists := NoLists();
      EmptyIndexOk(Snap());
      assert Valid();
      SpawnZeds(c);
      assert gameMap[..] == old(gameMap[..]);
      assert 0 < placed ==> zed[placed - 1] == Zed(Z_WANDERING, 1, 1, -1, -1);
      assert forall j :: 0 <= j < c ==> zed[j] == zs[j];
    }

    /** The building pass (lines 132-146): three sweeps over the interior,
        each placing a block on a cell outside row and column 13 whose coin
        comes up, unless Refused. */
    method GenerateBuildings(coin: (int, int, int) -> bool)
      requires gameMap.Length == CELLS && GameMap.BlocksOnly(gameMap[..])
      modifies gameMap
      ensures gameMap[..] == Buildings(coin, old(gameMap[..]))
      ensures GameMap.BlocksOnly(gameMap[..])
      ensures forall x, z :: InGrid(x, z) && GameMap.Inside(gameMap[CellIndex(x, z)]) ==>
                GameMap.Inside(old(gameMap[CellIndex(x, z)])) || Coined(coin, 1, x, z)
    {
      ghost var m0 := gameMap[..];
      var c := 3;
      while c > 0
        invariant 0 <= c <= 3 && gameMap[..] == BuildPasses(m0, coin, c)
      {
        ghost var mc := gameMap[..];
        BuildCellsSkip(mc, coin, c, 0, GRID + 1);
        var iy := 1;
        while iy < 31
          invariant 1 <= iy <= 31 && gameMap[..] == BuildCells(mc, coin, c, iy * GRID + 1)
        {
          BuildRow(iy, coin, c, mc);
          iy := iy + 1;
        }
        BuildCellsSkip(mc, coin, c, 31 * GRID + 1, CELLS);
        c := c - 1;
      }
      BuildingsOk(coin, m0);
    }

    /** One row iy of sweep c of the building pass (lines 134-145). */
    method BuildRow(iy: int, coin: (int, int, int) -> bool, c: int, ghost mc: seq<bv8>)
      requires gameMap.Length == CELLS && |mc| == CELLS && 1 <= iy <= 30
      requires gameMap[..] == BuildCells(mc, coin, c, iy * GRID + 1)
      modifies gameMap
      ensures gameMap[..] == BuildCells(mc, coin, c, (iy + 1) * GRID + 1)
    {
      var ix := 1;
      while ix < 31
        invariant 1 <= ix <= 31 && gameMap[..] == BuildCells(mc, coin, c, iy * GRID + ix)
      {
        BuildCell(ix, iy, coin, c);
        ix := ix + 1;
      }
      GameMap.RowEnd(iy);
      BuildCellsSkip(mc, coin, c, iy * GRID + 31, (iy + 1) * GRID + 1);
    }

    /** Lines 135-144 for cell (ix, iy) in sweep c: BuildStep in place. */
    method BuildCell(ix: int, iy: int, coin: (int, int, int) -> bool, c: int)
      requires gameMap.Length == CELLS && 1 <= ix <= 30 && 1 <= iy <= 30
      modifies gameMap
      ensures gameMap[..] == BuildStep(old(gameMap[..]), coin, c, iy * GRID + ix)
    {
      BuildStepAt(gameMap[..], coin, c, ix, iy);
      if iy != 13 && ix != 13 && coin(c, iy, ix) {
        PlaceBlock(ix, iy);
      }
    }

    /** Lines 136-144 for cell (ix, iy), once its coin came up: a block,
        unless the neighbour test refuses it. */
    method PlaceBlock(ix: int, iy: int)
      requires gameMap.Length == CELLS && 1 <= ix <= 30 && 1 <= iy <= 30
      modifies gameMap
      ensures GameMap.Interior(iy * GRID + ix)
      ensures gameMap[..] == if GameMap.Refused(old(gameMap[..]), iy * GRID + ix) then old(gameMap[..])
                             else old(gameMap[..])[iy * GRID + ix := GameMap.INSIDE_BIT]
    {
      var i := iy * GRID + ix;
      GameMap.CellCoords(ix, iy);
      if !GameMap.Refused(gameMap[..], i) {
        gameMap[i] := GameMap.INSIDE_BIT;
      }
    }

    /** The doorway switch (lines 152-157 and 159-164) applied in place. */
    method CarveAt(i: int, roll: int)
      requires gameMap.Length == CELLS && GameMap.GRID <= i < CELLS
      modifies gameMap
      ensures gameMap[..] == GameMap.Carve(old(gameMap[..]), i, roll)
    {
      if roll == 0 {
        gameMap[i] := gameMap[i] | GameMap.DOORX_BIT;
      } else if roll == 1 {
        gameMap[i] := gameMap[i] | GameMap.DOORZ_BIT;
      } else if roll == 2 {
        gameMap[i - 1] := gameMap[i - 1] | GameMap.DOORX_BIT;
      } else if roll == 3 {
        gameMap[i - GRID] := gameMap[i - GRID] | GameMap.DOORZ_BIT;
      }
    }

    /** The doorway pass (lines 148-166): every block gets the doorway its
        roll picks and, when the extra coin comes up, a second one. Blocks
        stay where they are, doorways are only ever added, each one in a
        face of a block, and a block whose first roll is 0 to 3 can be
        entered. */
    method CarveDoorways(door: (int, int) -> int, extra: (int, int) -> bool, extraDoor: (int, int) -> int)
      requires gameMap.Length == CELLS && GameMap.DoorsOnBlocks(gameMap[..])
      modifies gameMap
      ensures gameMap[..] == Doorways(old(gameMap[..]), door, extra, extraDoor)
      ensures GameMap.Grows(old(gameMap[..]), gameMap[..])
      ensures GameMap.DoorsOnBlocks(gameMap[..])
      ensures forall x, z :: 1 <= x <= 30 && 1 <= z <= 30 ==> DoorwayCut(gameMap[..], door, x, z)
    {
      ghost var m0 := gameMap[..];
      DoorCellsSkip(m0, door, extra, extraDoor, 0, GRID + 1);
      var iy := 1;
      while iy < 31
        invariant 1 <= iy <= 31 && gameMap[..] == DoorCells(m0, door, extra, extraDoor, iy * GRID + 1)
      {
        DoorRow(iy, door, extra, extraDoor, m0);
        iy := iy + 1;
      }
      DoorCellsSkip(m0, door, extra, extraDoor, 31 * GRID + 1, CELLS);
      DoorCellsOk(m0, door, extra, extraDoor, CELLS);
    }

    /** One row iy of the doorway pass (lines 149-165). */
    method DoorRow(iy: int, door: (int, int) -> int, extra: (int, int) -> bool, extraDoor: (int, int) -> int,
                   ghost m0: seq<bv8>)
      requires gameMap.Length == CELLS && |m0| == CELLS && 1 <= iy <= 30
      requires gameMap[..] == DoorCells(m0, door, extra, extraDoor, iy * GRID + 1)
      modifies gameMap
      ensures gameMap[..] == DoorCells(m0, door, extra, extraDoor, (iy + 1) * GRID + 1)
    {
      var ix := 1;
      while ix < 31
        invariant 1 <= ix <= 31 && gameMap[..] == DoorCells(m0, door, extra, extraDoor, iy * GRID + ix)
      {
        DoorCell(ix, iy, door, extra, extraDoor);
        ix := ix + 1;
      }
      GameMap.RowEnd(iy);
      DoorCellsSkip(m0, door, extra, extraDoor, iy * GRID + 31, (iy + 1) * GRID + 1);
    }

    /** Lines 150-165 for cell (ix, iy): a block gets the doorway of its
        roll and, when the extra coin comes up, the doorway of a second
        roll. */
    method DoorCell(ix: int, iy: int, door: (int, int) -> int, extra: (int, int) -> bool, extraDoor: (int, int) -> int)
      requires gameMap.Length == CELLS && 1 <= ix <= 30 && 1 <= iy <= 30
      modifies gameMap
      ensures gameMap[..] == DoorStep(old(gameMap[..]), door, extra, extraDoor, iy * GRID + ix)
    {
      var i := iy * GRID + ix;
      GameMap.CellCoords(ix, iy);
      if gameMap[i] & GameMap.INSIDE_BIT != 0 {
        CarveAt(i, door(iy, ix));
        if extra(iy, ix) {
          CarveAt(i, extraDoor(iy, ix));
        }
      }
    }

    /** The scan of lines 178-190 for one pack: from c up to the first free
        slot, which takes a pack of the given kind on cell (ix, iz) with no
        links; c stays on it. */
    method PlacePack(c: int, kind: int, ix: int, iz: int, placed: int) returns (c': int, placed': int)
      requires zed.Length == MAX_ZEDS && gameMap.Length == CELLS && Stocked(zed[..], gameMap[..], placed, c)
      requires IsPack(kind) && InGrid(ix, iz) && GameMap.Inside(gameMap[CellIndex(ix, iz)]) && placed < MAX_ZEDS
      modifies zed
      ensures placed' == placed + 1 && c' == placed
      ensures Stocked(zed[..], gameMap[..], placed', c')
      ensures zed[..] == old(zed[..])[placed := Zed(kind, ix, iz, -1, -1)]
    {
      c' := c;
      while c' < MAX_ZEDS
        invariant c <= c' <= placed
      {
        if zed[c'].state == Z_NONE {
          zed[c'] := Zed(kind, ix, iz, -1, -1);
          placed' := placed + 1;
          return;
        }
        c' := c' + 1;
      }
      assert false;
    }

    /** Lines 171-191 for a block cell whose cache coin came up: s*s packs
        of one kind, when that many slots are left. */
    method StockCell(c: int, kind: int, s: int, ix: int, iz: int, placed: int) returns (c': int, placed': int)
      requires zed.Length == MAX_ZEDS && gameMap.Length == CELLS && Stocked(zed[..], gameMap[..], placed, c)
      requires IsPack(kind) && InGrid(ix, iz) && GameMap.Inside(gameMap[CellIndex(ix, iz)])
      requires placed + (if s > 0 then s * s else 0) <= MAX_ZEDS
      modifies zed
      ensures Stocked(zed[..], gameMap[..], placed', c')
      ensures placed' == placed + (if s > 0 then s * s else 0)
      ensures Kept(zed[..], old(zed[..]), placed) && Filled(zed[..], placed, placed', Zed(kind, ix, iz, -1, -1))
    {
      c', placed' := c, placed;
      var jz := 0;
      while jz < s
        invariant 0 <= jz && (jz <= s || jz == 0)
        invariant Stocked(zed[..], gameMap[..], placed', c')
        invariant placed' == placed + jz * s
        invariant Kept(zed[..], old(zed[..]), placed) && Filled(zed[..], placed, placed', Zed(kind, ix, iz, -1, -1))
      {
        NextRowFits(jz, s);
        c', placed' := StockRow(c', kind, s, ix, iz, placed');
        jz := jz + 1;
      }
    }

    /** One row (the jx loop) of StockCell: s packs. */
    method StockRow(c: int, kind: int, s: int, ix: int, iz: int, placed: int) returns (c': int, placed': int)
      requires zed.Length == MAX_ZEDS && gameMap.Length == CELLS && Stocked(zed[..], gameMap[..], placed, c)
      requires IsPack(kind) && InGrid(ix, iz) && GameMap.Inside(gameMap[CellIndex(ix, iz)])
      requires 0 <= s && placed + s <= MAX_ZEDS
      modifies zed
      ensures Stocked(zed[..], gameMap[..], placed', c')
      ensures placed' == placed + s
      ensures Kept(zed[..], old(zed[..]), placed) && Filled(zed[..], placed, placed', Zed(kind, ix, iz, -1, -1))
    {
      c', placed' := c, placed;
      var jx := 0;
      while jx < s
        invariant 0 <= jx <= s
        invariant Stocked(zed[..], gameMap[..], placed', c')
        invariant placed' == placed + jx
        invariant Kept(zed[..], old(zed[..]), placed) && Filled(zed[..], placed, placed', Zed(kind, ix, iz, -1, -1))
      {
        c', placed' := PlacePack(c', kind, ix, iz, placed');
        jx := jx + 1;
      }
    }

    /** The cache pass (lines 167-192). When the map's demand fits in the
        slots, every pack it demands is written, into slots 0, 1, ... in
        scan order, as PackAt says; it returns the scan position c the
        source leaves behind and the number of packs written. */
    method PlaceCaches(cache: (int, int) -> bool, healthy: (int, int) -> bool, size: (int, int) -> int)
      returns (c: int, placed: int)
      requires zed.Length == MAX_ZEDS && gameMap.Length == CELLS && gameMap as object != zed
      requires forall j :: 0 <= j < MAX_ZEDS ==> zed[j].state == Z_NONE
      requires Demand(gameMap[..], cache, size, gameMap.Length) <= MAX_ZEDS
      modifies zed
      ensures Stocked(zed[..], gameMap[..], placed, c)
      ensures placed == Demand(gameMap[..], cache, size, gameMap.Length)
      ensures PacksLaid(zed[..], gameMap[..], cache, healthy, size, CELLS)
    {
      c, placed := 0, 0;
      ghost var m := gameMap[..];
      DemandBeforeInterior(m, cache, size, GRID + 1);
      var iz := 1;
      while iz < 31
        invariant 1 <= iz <= 31 && gameMap[..] == m
        invariant Stocked(zed[..], m, placed, c)
        invariant placed == Demand(m, cache, size, iz * GRID + 1)
        invariant PacksLaid(zed[..], m, cache, healthy, size, iz * GRID + 1)
      {
        c, placed := CacheRow(c, placed, cache, healthy, size, iz);
        iz := iz + 1;
      }
      DemandAfterInterior(m, cache, size, 31 * GRID + 1);
      DemandAfterInterior(m, cache, size, CELLS);
      PackAtSame(zed[..], m, cache, healthy, size, 31 * GRID + 1, CELLS);
    }

    /** One row iz of the cache pass (lines 170-191). */
    method CacheRow(c: int, placed: int, cache: (int, int) -> bool, healthy: (int, int) -> bool, size: (int, int) -> int,
                    iz: int) returns (c': int, placed': int)
      requires zed.Length == MAX_ZEDS && gameMap.Length == CELLS && 1 <= iz <= 30
      requires Stocked(zed[..], gameMap[..], placed, c)
      requires placed == Demand(gameMap[..], cache, size, iz * GRID + 1)
      requires Demand(gameMap[..], cache, size, gameMap.Length) <= MAX_ZEDS
      requires PacksLaid(zed[..], gameMap[..], cache, healthy, size, iz * GRID + 1)
      modifies zed
      ensures Stocked(zed[..], gameMap[..], placed', c')
      ensures placed' == Demand(gameMap[..], cache, size, (iz + 1) * GRID + 1)
      ensures PacksLaid(zed[..], gameMap[..], cache, healthy, size, (iz + 1) * GRID + 1)
    {
      c', placed' := c, placed;
      ghost var m := gameMap[..];
      var ix := 1;
      while ix < 31
        invariant 1 <= ix <= 31 && gameMap[..] == m
        invariant Stocked(zed[..], m, placed', c')
        invariant placed' == Demand(m, cache, size, iz * GRID + ix)
        invariant PacksLaid(zed[..], m, cache, healthy, size, iz * GRID + ix)
      {
        c', placed' := CacheCell(c', placed', cache, healthy, size, ix, iz);
        ix := ix + 1;
      }
      GameMap.CellCoords(31, iz);
      GameMap.CellCoords(0, iz + 1);
      assert placed' == Demand(m, cache, size, (iz + 1) * GRID + 1);
      PackAtSame(zed[..], m, cache, healthy, size, iz * GRID + 31, (iz + 1) * GRID + 1);
    }

    /** Lines 171-191 for cell (ix, iz). */
    method CacheCell(c: int, placed: int, cache: (int, int) -> bool, healthy: (int, int) -> bool, size: (int, int) -> int,
                     ix: int, iz: int) returns (c': int, placed': int)
      requires zed.Length == MAX_ZEDS && gameMap.Length == CELLS && 1 <= ix <= 30 && 1 <= iz <= 30
      requires Stocked(zed[..], gameMap[..], placed, c)
      requires placed == Demand(gameMap[..], cache, size, iz * GRID + ix)
      requires Demand(gameMap[..], cache, size, gameMap.Length) <= MAX_ZEDS
      requires PacksLaid(zed[..], gameMap[..], cache, healthy, size, iz * GRID + ix)
      modifies zed
      ensures Stocked(zed[..], gameMap[..], placed', c')
      ensures placed' == Demand(gameMap[..], cache, size, iz * GRID + ix + 1)
      ensures PacksLaid(zed[..], gameMap[..], cache, healthy, size, iz * GRID + ix + 1)
    {
      var i := iz * GRID + ix;
      ghost var m := gameMap[..];
      ghost var zs0 := zed[..];
      DemandGrows(m, cache, size, i + 1, CELLS);
      GameMap.CellCoords(ix, iz);
      assert CellIndex(ix, iz) == i;
      c', placed' := c, placed;
      if gameMap[i] & GameMap.INSIDE_BIT != 0 && cache(iz, ix) {
        var kind := if healthy(iz, ix) then Z_HEALTH else Z_AMMO;
        var s := size(iz, ix);
        c', placed' := StockCell(c, kind, s, ix, iz, placed);
        assert Zed(kind, ix, iz, -1, -1) == PackOf(healthy, i);
      }
      PacksLaidStep(zed[..], zs0, m, cache, healthy, size, i);
    }

    /** Lines 199-210 for cell (ix, iz) in place. */
    method SpawnAt(c: int, ix: int, iz: int)
      requires Valid() && 0 <= c < MAX_ZEDS && InGrid(ix, iz)
      requires !Moving(zed[c].state) && lists[CellIndex(ix, iz)] == []
      modifies zed, cols, this`lists
      ensures Snap() == Spawn(old(Snap()), c, ix, iz)
      ensures lists == old(lists)[CellIndex(ix, iz) := [c]]
      ensures Valid()
    {
      SpawnOk(Snap(), lists, c, ix, iz);
      zed[c] := Zed(Z_WANDERING, ix, iz, -1, -1);
      cols[iz * GRID + ix] := c;
      lists := lists[CellIndex(ix, iz) := [c]];
      assert gameMap[..] == old(gameMap[..]);
    }

    /** The zed pass (lines 194-213) from slot start: every spawn spot gets
        a wandering zed of its own, alone on its cell's list, in slot start
        plus its rank in the scan, so the first of them, on cell (1, 1),
        takes slot start; no other cell has a list, and the slots outside
        start..start+886 are untouched. */
    method SpawnZeds(start: int)
      requires Valid() && 0 <= start && start + 887 < MAX_ZEDS
      requires lists == NoLists()
      requires forall j :: 0 <= j < MAX_ZEDS ==> !Moving(zed[j].state)
      modifies zed, cols, this`lists
      ensures Valid()
      ensures forall x, z :: InGrid(x, z) ==> CellPlaced(Snap(), start, x, z)
      ensures cols[CellIndex(1, 1)] == start && zed[start] == Zed(Z_WANDERING, 1, 1, -1, -1)
      ensures forall j :: 0 <= j < start ==> zed[j] == old(zed[j])
      ensures forall j :: start + 887 <= j < MAX_ZEDS ==> zed[j] == old(zed[j])
    {
      ghost var g0 := Snap();
      SpawnedStart(g0, start);
      var c := start;
      var iz := 1;
      while iz < 31
        invariant 1 <= iz <= 31 && Valid()
        invariant Spawned(g0, Snap(), lists, start, c, 1, iz)
        invariant iz > 1 ==> lists[CellIndex(1, 1)] == [start]
      {
        c := SpawnRow(g0, start, c, iz);
        iz := iz + 1;
      }
      SpawnedCols(g0, Snap(), lists, start, c);
      assert CellPlaced(Snap(), start, 1, 1);
    }

    /** One row iz of the zed pass (lines 195-212). */
    method SpawnRow(ghost g0: Grid, ghost start: int, c: int, iz: int) returns (c': int)
      requires Valid() && Shaped(g0) && 1 <= iz <= 30 && 0 <= start && start + 887 < MAX_ZEDS
      requires forall j :: start <= j < MAX_ZEDS ==> !Moving(g0.zeds[j].state)
      requires Spawned(g0, Snap(), lists, start, c, 1, iz)
      requires iz > 1 ==> lists[CellIndex(1, 1)] == [start]
      modifies zed, cols, this`lists
      ensures Valid() && Spawned(g0, Snap(), lists, start, c', 1, iz + 1)
      ensures lists[CellIndex(1, 1)] == [start]
    {
      c' := c;
      var ix := 1;
      while ix < 31
        invariant 1 <= ix <= 31 && Valid()
        invariant Spawned(g0, Snap(), lists, start, c', ix, iz)
        invariant iz > 1 || ix > 1 ==> lists[CellIndex(1, 1)] == [start]
      {
        c' := SpawnCell(g0, start, c', ix, iz);
        ix := ix + 1;
      }
      SpawnedRow(g0, Snap(), lists, start, c', iz);
    }

    /** One cell of the zed pass (lines 196-212): a spawn spot takes slot
        c, which then moves on (it is never the last slot here); any other
        cell is skipped. */
    method SpawnCell(ghost g0: Grid, ghost start: int, c: int, ix: int, iz: int) returns (c': int)
      requires Valid() && Shaped(g0) && 1 <= ix <= 30 && 1 <= iz <= 30 && 0 <= start && start + 887 < MAX_ZEDS
      requires forall j :: start <= j < MAX_ZEDS ==> !Moving(g0.zeds[j].state)
      requires Spawned(g0, Snap(), lists, start, c, ix, iz)
      requires iz > 1 || ix > 1 ==> lists[CellIndex(1, 1)] == [start]
      modifies zed, cols, this`lists
      ensures Valid() && Spawned(g0, Snap(), lists, start, c', ix + 1, iz)
      ensures c' == if SpawnSpot(ix, iz) then c + 1 else c
      ensures lists[CellIndex(1, 1)] == [start]
    {
      c' := c;
      SpawnRankBound(ix, iz);
      SpawnStep(g0, Snap(), lists, start, c, ix, iz);
      if CellIndex(ix, iz) == CellIndex(1, 1) {
        SameCell(ix, iz, 1, 1);
      }
      if !(Abs(ix - 15) + Abs(iz - 15) < 3) {
        SpawnAt(c, ix, iz);
        if c + 1 < MAX_ZEDS {
          c' := c + 1;
        }
      }
    }
  }
}
