/** The hook of the characters, on values: one core's hook state and the relation between
    who hooks whom.  Geometry, input and tuning enter with every tick. */
module HookModel {
  const MAX_CLIENTS: nat := 128
  const SERVER_TICK_SPEED: nat := 50

  const HOOK_RETRACTED: int := -1
  const HOOK_IDLE: int := 0
  const HOOK_RETRACT_START: int := 1
  const HOOK_RETRACT_END: int := 3
  const HOOK_FLYING: int := 4
  const HOOK_GRABBED: int := 5

  /** The longest a player is held, in ticks. */
  const HOOK_LIMIT: int := SERVER_TICK_SPEED + SERVER_TICK_SPEED / 5

  datatype Core = Core(
    id: int,               // the slot, or -1
    hookState: int,
    hookTick: int,
    hooked: int,           // m_HookedPlayer
    attached: set<int>,    // m_AttachedPlayers
    newHook: bool,
    solo: bool,
    super: bool,
    hookHitDisabled: bool)

  datatype Slot = Empty | Used(core: Core)

  /** The cores by slot, `m_apCharacters`. */
  type World = w: seq<Slot> | |w| == MAX_CLIENTS witness seq(MAX_CLIENTS, _ => Empty)

  /** What the hook meets on its way this tick. */
  datatype Ahead = Clear | Ground | NoHook | Tele(hasOut: bool)

  datatype Input = Input(
    mounted: bool,
    useInput: bool,
    hook: bool,            // the hook button
    launchTick: int,       // where m_HookTick starts
    tooFar: bool,          // the hook would leave its length
    ahead: Ahead,
    playerHooking: bool,
    near: seq<bool>,       // close enough to the segment the hook moves along
    dist: seq<real>,       // distance from m_HookPos
    canCollide: seq<bool>,
    canKeepHook: bool,
    deferred: bool)

  predicate ValidInput(inp: Input) {
    && |inp.near| == |inp.dist| == |inp.canCollide| == MAX_CLIENTS
    && forall j :: 0 <= j < MAX_CLIENTS ==> inp.dist[j] >= 0.0
  }

  /** The hook in a snapshot of a core. */
  datatype Snapshot = Snapshot(hookState: int, hookTick: int, hooked: int)

  // ----- SetHookedPlayer

  predicate IsPlayer(h: int) {
    -1 <= h < MAX_CLIENTS
  }

  function Detach(w: World, j: int, id: int): World
    requires 0 <= j < MAX_CLIENTS
  {
    if w[j].Used? then w[j := Used(w[j].core.(attached := w[j].core.attached - {id}))] else w
  }

  function Attach(w: World, j: int, id: int): World
    requires 0 <= j < MAX_CLIENTS
  {
    if w[j].Used? then w[j := Used(w[j].core.(attached := w[j].core.attached + {id}))] else w
  }

  predicate Present(w: World, i: nat) {
    i < MAX_CLIENTS && w[i].Used? && IsPlayer(w[i].core.hooked)
  }

  function SetHookedPlayer(w: World, i: nat, h: int): (r: World)
    requires Present(w, i) && IsPlayer(h)
    ensures Present(r, i) && r[i].core == w[i].core.(hooked := h, attached := r[i].core.attached)
  {
    var c := w[i].core;
    if h == c.hooked then w
    else
      var w := if c.hooked != -1 && c.id != -1 then Detach(w, c.hooked, c.id) else w;
      var w := if h != -1 && c.id != -1 then Attach(w, h, c.id) else w;
      w[i := Used(w[i].core.(hooked := h))]
  }

  function SetState(w: World, i: nat, state: int): (r: World)
    requires Present(w, i)
    ensures Present(r, i)
  {
    w[i := Used(w[i].core.(hookState := state))]
  }

  function SetTick(w: World, i: nat, tick: int): (r: World)
    requires Present(w, i)
    ensures Present(r, i)
  {
    w[i := Used(w[i].core.(hookTick := tick))]
  }

  function SetNewHook(w: World, i: nat, newHook: bool): (r: World)
    requires Present(w, i)
    ensures Present(r, i)
  {
    w[i := Used(w[i].core.(newHook := newHook))]
  }

  // ----- Tick, in the order of the program

  function HandleInput(w: World, i: nat, inp: Input): (r: World)
    requires Present(w, i)
    ensures Present(r, i)
  {
    if !inp.useInput then w
    else if !inp.hook then SetState(SetHookedPlayer(w, i, -1), i, HOOK_IDLE)
    else if w[i].core.hookState != HOOK_IDLE then w
    else SetTick(SetHookedPlayer(SetState(w, i, HOOK_FLYING), i, -1), i, inp.launchTick)
  }

  /** May the hook of `i` take player `j`? */
  predicate Candidate(w: World, i: nat, inp: Input, j: nat)
    requires Present(w, i) && ValidInput(inp) && j < MAX_CLIENTS
  {
    && w[j].Used? && j != i
    && (w[i].core.super || w[j].core.super ||
        ((w[i].core.id == -1 || inp.canCollide[j]) && !w[j].core.solo && !w[i].core.solo))
    && inp.near[j]
  }

  /** `j` is the nearest candidate below `n`, the lowest slot among equals. */
  predicate IsNearest(w: World, i: nat, inp: Input, n: nat, j: nat)
    requires Present(w, i) && ValidInput(inp) && n <= MAX_CLIENTS
  {
    && j < n && Candidate(w, i, inp, j)
    && (forall k :: 0 <= k < n && Candidate(w, i, inp, k) ==> inp.dist[j] <= inp.dist[k])
    && (forall k :: 0 <= k < j && Candidate(w, i, inp, k) ==> inp.dist[j] < inp.dist[k])
  }

  /** The player the scan over the first `n` slots ends with, -1 for none. */
  function Nearest(w: World, i: nat, inp: Input, n: nat): (j: int)
    requires Present(w, i) && ValidInput(inp) && n <= MAX_CLIENTS
    ensures -1 <= j < n
    ensures j != -1 ==> IsNearest(w, i, inp, n, j)
    ensures j == -1 ==> forall k :: 0 <= k < n ==> !Candidate(w, i, inp, k)
  {
    if n == 0 then -1
    else
      var j := Nearest(w, i, inp, n - 1);
      if Candidate(w, i, inp, n - 1) && (j == -1 || inp.dist[n - 1] < inp.dist[j]) then n - 1 else j
  }

  /** The scan over the first `n` slots: each candidate that is the first or nearer than the
      one before is taken. A hook that holds somebody takes nobody. */
  function ScanTo(w: World, i: nat, inp: Input, n: nat): (r: World)
    requires Present(w, i) && ValidInput(inp) && n <= MAX_CLIENTS
    ensures Present(r, i)
  {
    if n == 0 then w
    else
      var v := ScanTo(w, i, inp, n - 1);
      if w[i].core.hooked == -1 && Nearest(w, i, inp, n) == n - 1 then
        SetHookedPlayer(SetState(v, i, HOOK_GRABBED), i, n - 1)
      else v
  }

  function Scan(w: World, i: nat, inp: Input): (r: World)
    requires Present(w, i) && ValidInput(inp)
    ensures Present(r, i)
  {
    ScanTo(w, i, inp, MAX_CLIENTS)
  }

  /** What is on the way of a hook that is still flying. */
  function Ended(w: World, i: nat, inp: Input): (r: World)
    requires Present(w, i)
    ensures Present(r, i)
  {
    if w[i].core.hookState != HOOK_FLYING then w
    else
      match inp.ahead
      case Clear => w
      case Ground => SetState(w, i, HOOK_GRABBED)
      case NoHook => SetState(w, i, HOOK_RETRACT_START)
      case Tele(hasOut) => if hasOut then SetNewHook(SetHookedPlayer(w, i, -1), i, true) else w
  }

  function Fly(w: World, i: nat, inp: Input): (r: World)
    requires Present(w, i) && ValidInput(inp)
    ensures Present(r, i)
  {
    var c := w[i].core;
    var w := if inp.tooFar then SetState(w, i, HOOK_RETRACT_START) else w;
    var w :=
      if !c.hookHitDisabled && inp.playerHooking && (!inp.tooFar || !c.newHook) then Scan(w, i, inp) else w;
    Ended(w, i, inp)
  }

  function Release(w: World, i: nat): (r: World)
    requires Present(w, i)
    ensures Present(r, i) && r[i].core.hookTick == w[i].core.hookTick && r[i].core.hooked == -1
  {
    SetState(SetHookedPlayer(w, i, -1), i, HOOK_RETRACTED)
  }

  function Hold(w: World, i: nat, inp: Input): (r: World)
    requires Present(w, i)
    ensures Present(r, i)
  {
    var c := w[i].core;
    var w :=
      if c.hooked == -1 || (w[c.hooked].Used? && c.id != -1 && inp.canKeepHook) then w else Release(w, i);
    var w := SetTick(w, i, c.hookTick + 1);
    var h := w[i].core.hooked;
    if h != -1 && (c.hookTick + 1 > HOOK_LIMIT || w[h].Empty?) then Release(w, i) else w
  }

  function DoHook(w: World, i: nat, inp: Input): (r: World)
    requires Present(w, i) && ValidInput(inp)
    ensures Present(r, i)
  {
    var state := w[i].core.hookState;
    if state == HOOK_IDLE then SetHookedPlayer(w, i, -1)
    else if HOOK_RETRACT_START <= state < HOOK_RETRACT_END then SetState(w, i, state + 1)
    else if state == HOOK_RETRACT_END then SetState(w, i, HOOK_RETRACTED)
    else if state == HOOK_FLYING then Fly(w, i, inp)
    else w
  }

  function Deferred(w: World, i: nat, inp: Input): (r: World)
    requires Present(w, i)
    ensures Present(r, i)
  {
    if inp.deferred && w[i].core.hookState != HOOK_FLYING then SetNewHook(w, i, false) else w
  }

  function Tick(w: World, i: nat, inp: Input): (r: World)
    requires Present(w, i) && ValidInput(inp)
    ensures Present(r, i)
  {
    if inp.mounted then w
    else
      var w := DoHook(HandleInput(w, i, inp), i, inp);
      var w := if w[i].core.hookState == HOOK_GRABBED then Hold(w, i, inp) else w;
      Deferred(w, i, inp)
  }

  // ----- Write, Read and Reset

  function Write(c: Core): Snapshot {
    Snapshot(c.hookState, c.hookTick, c.hooked)
  }

  function Read(w: World, i: nat, snap: Snapshot): (r: World)
    requires Present(w, i) && IsPlayer(snap.hooked)
    ensures Present(r, i)
  {
    SetHookedPlayer(SetTick(SetState(w, i, snap.hookState), i, snap.hookTick), i, snap.hooked)
  }

  function Reset(w: World, i: nat): (r: World)
    requires Present(w, i)
    ensures Present(r, i)
  {
    var c := w[i].core;
    var w := w[i := Used(c.(newHook := false, hookTick := 0, hookState := HOOK_IDLE))];
    var w := SetHookedPlayer(w, i, -1);
    w[i := Used(w[i].core.(attached := {}, solo := false, super := false, hookHitDisabled := false))]
  }

  // ----- the slots

  /** A character that dies or is destroyed gives up its slot, and nothing else happens. */
  function Leave(w: World, i: nat): World
    requires i < MAX_CLIENTS
  {
    w[i := Empty]
  }

  /** A paused character gives up its slot and then lets go of a player it holds. */
  function Pause(w: World, i: nat): World
    requires Present(w, i)
  {
    var c := w[i].core;
    if c.hooked != -1 && c.id != -1 then Detach(Leave(w, i), c.hooked, c.id) else Leave(w, i)
  }

  /** The core it keeps meanwhile. */
  function Paused(c: Core): Core {
    if c.hooked != -1 then c.(hooked := -1, hookState := HOOK_RETRACTED) else c
  }

  /** A character takes its slot: a new one, or one that was paused with the core it had. */
  function Join(w: World, i: nat, c: Core): (r: World)
    requires i < MAX_CLIENTS && w[i].Empty? && IsPlayer(c.hooked)
    ensures Present(r, i)
  {
    w[i := Used(c)]
  }

  /** The core of a new character. */
  function Spawned(i: nat): Core {
    Core(i, HOOK_IDLE, 0, -1, {}, false, false, false, false)
  }

  function ReadFlags(w: World, i: nat, solo: bool, super: bool, hookHitDisabled: bool): (r: World)
    requires Present(w, i)
    ensures Present(r, i)
  {
    w[i := Used(w[i].core.(solo := solo, super := super, hookHitDisabled := hookHitDisabled))]
  }
}
