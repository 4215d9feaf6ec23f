/** The character cores as objects that update each other's lists in place.  Each method
    is proved to do to the cores of the world what its namesake in HookModel does. */
module HookCore {
  import opened HookModel
  import opened HookRuns

  class WorldCore {
    /** `m_apCharacters`. */
    var characters: seq<CharacterCore?>

    ghost predicate Valid()
      reads this, characters
    {
      && |characters| == MAX_CLIENTS
      && (forall i, j :: 0 <= i < j < MAX_CLIENTS && characters[i] != null ==> characters[i] != characters[j])
      && (forall i :: 0 <= i < MAX_CLIENTS && characters[i] != null ==>
            characters[i].world == this && IsPlayer(characters[i].hookedPlayer))
    }

    /** The cores as values. */
    ghost function View(): (w: World)
      requires Valid()
      reads this, characters
      ensures forall i :: 0 <= i < MAX_CLIENTS ==> w[i] == SlotOf(characters[i])
    {
      seq(MAX_CLIENTS, i requires 0 <= i < MAX_CLIENTS && Valid() reads this, characters => SlotOf(characters[i]))
    }

    /** Strike `x` from the list in slot `j`, if there is one. */
    method Erase(j: int, x: int)
      requires Valid() && 0 <= j < MAX_CLIENTS
      modifies characters
      ensures Valid() && characters == old(characters)
      ensures View() == Detach(old(View()), j, x)
    {
      var other := characters[j];
      if other != null {
        other.attachedPlayers := other.attachedPlayers - {x};
      }
    }

    method Insert(j: int, x: int)
      requires Valid() && 0 <= j < MAX_CLIENTS
      modifies characters
      ensures Valid() && characters == old(characters)
      ensures View() == Attach(old(View()), j, x)
    {
      var other := characters[j];
      if other != null {
        other.attachedPlayers := other.attachedPlayers + {x};
      }
    }

    method Leave(i: nat)
      requires Valid() && i < MAX_CLIENTS
      modifies this
      ensures Valid() && characters == old(characters)[i := null]
      ensures View() == HookModel.Leave(old(View()), i)
    {
      characters := characters[i := null];
    }

    /** The slot is emptied before the hook is released, so the core is no longer among the
        others when it strikes itself from a list. */
    method Pause(i: nat)
      requires Valid() && i < MAX_CLIENTS && characters[i] != null
      modifies this, characters
      ensures Valid() && View() == HookModel.Pause(old(View()), i)
      ensures old(characters[i]).Value() == Paused(old(characters[i].Value()))
    {
      var core := characters[i];
      Leave(i);
      assert core !in characters;
      if core.hookedPlayer != -1 {
        core.ReleaseOutside();
      }
    }

    method Join(i: nat, core: CharacterCore)
      requires Valid() && i < MAX_CLIENTS && characters[i] == null
      requires core.world == this && core !in characters && IsPlayer(core.hookedPlayer)
      modifies this
      ensures Valid() && characters == old(characters)[i := core]
      ensures View() == HookModel.Join(old(View()), i, core.Value())
    {
      characters := characters[i := core];
    }
  }

  ghost function SlotOf(c: CharacterCore?): Slot
    reads c
  {
    if c == null then Empty else Used(c.Value())
  }

  class CharacterCore {
    const world: WorldCore
    var id: int
    var hookState: int
    var hookTick: int
    var hookedPlayer: int
    var attachedPlayers: set<int>
    var newHook: bool
    var solo: bool
    var super: bool
    var hookHitDisabled: bool

    constructor (world: WorldCore)
      ensures this.world == world
    {
      this.world := world;
      id, hookState, hookTick, hookedPlayer := -1, HOOK_IDLE, 0, -1;
      attachedPlayers, newHook := {}, false;
      solo, super, hookHitDisabled := false, false, false;
    }

    function Value(): Core
      reads this
    {
      Core(id, hookState, hookTick, hookedPlayer, attachedPlayers, newHook, solo, super, hookHitDisabled)
    }

    /** This core stands in slot `i` of its world. */
    ghost predicate InSlot(i: nat)
      reads world, world.characters
    {
      world.Valid() && i < MAX_CLIENTS && world.characters[i] == this
    }

    method SetHookedPlayer(player: int, ghost i: nat)
      requires InSlot(i) && IsPlayer(player)
      modifies world.characters
      ensures InSlot(i) && world.characters == old(world.characters)
      ensures world.View() == HookModel.SetHookedPlayer(old(world.View()), i, player)
    {
      hide Detach, Attach;
      if player != hookedPlayer {
        if hookedPlayer != -1 && id != -1 {
          StrikeFrom(hookedPlayer, i);
        }
        if player != -1 && id != -1 {
          ListAt(player, i);
        }
        StoreHookedPlayer(player, i);
      }
    }

    method StoreHookedPlayer(player: int, ghost i: nat)
      requires InSlot(i) && IsPlayer(player)
      modifies this`hookedPlayer
      ensures InSlot(i)
      ensures world.View() == old(world.View())[i := Used(old(Value()).(hooked := player))]
    {
      hookedPlayer := player;
    }

    method StoreState(state: int, ghost i: nat)
      requires InSlot(i)
      modifies this`hookState
      ensures InSlot(i) && hookState == state && world.View() == SetState(old(world.View()), i, state)
    {
      hookState := state;
    }

    method StoreTick(tick: int, ghost i: nat)
      requires InSlot(i)
      modifies this`hookTick
      ensures InSlot(i) && hookTick == tick && world.View() == SetTick(old(world.View()), i, tick)
    {
      hookTick := tick;
    }

    /** Release the hook of a core that has no slot. */
    method ReleaseOutside()
      requires world.Valid() && this !in world.characters && 0 <= hookedPlayer < MAX_CLIENTS
      modifies this, world.characters
      ensures world.Valid() && world.characters == old(world.characters)
      ensures Value() == Paused(old(Value()))
      ensures world.View() == if id == -1 then old(world.View()) else Detach(old(world.View()), old(hookedPlayer), id)
    {
      if id != -1 {
        world.Erase(hookedPlayer, id);
      }
      hookedPlayer := -1;
      hookState := HOOK_RETRACTED;
    }

    method StrikeFrom(j: int, ghost i: nat)
      requires InSlot(i) && 0 <= j < MAX_CLIENTS
      modifies world.characters
      ensures InSlot(i) && world.characters == old(world.characters)
      ensures id == old(id) && hookedPlayer == old(hookedPlayer)
      ensures world.View() == Detach(old(world.View()), j, id)
    {
      assert world.View()[i] == Used(Value());
      world.Erase(j, id);
      assert world.View()[i] == Used(Value());
    }

    method ListAt(j: int, ghost i: nat)
      requires InSlot(i) && 0 <= j < MAX_CLIENTS
      modifies world.characters
      ensures InSlot(i) && world.characters == old(world.characters)
      ensures id == old(id) && hookedPlayer == old(hookedPlayer)
      ensures world.View() == Attach(old(world.View()), j, id)
    {
      assert world.View()[i] == Used(Value());
      world.Insert(j, id);
      assert world.View()[i] == Used(Value());
    }

    method HandleInput(inp: Input, ghost i: nat)
      requires InSlot(i)
      modifies world.characters
      ensures InSlot(i) && world.characters == old(world.characters)
      ensures world.View() == HookModel.HandleInput(old(world.View()), i, inp)
    {
      hide HookModel.SetHookedPlayer, SetState, SetTick;
      if inp.useInput {
        if inp.hook {
          if hookState == HOOK_IDLE {
            StoreState(HOOK_FLYING, i);
            SetHookedPlayer(-1, i);
            StoreTick(inp.launchTick, i);
          }
        } else {
          SetHookedPlayer(-1, i);
          StoreState(HOOK_IDLE, i);
        }
      }
    }

    /** The loop over all slots: a candidate is taken if none was before or it is nearer. */
    method Scan(inp: Input, ghost i: nat)
      requires InSlot(i) && ValidInput(inp)
      modifies world.characters
      ensures InSlot(i) && world.characters == old(world.characters)
      ensures world.View() == HookModel.Scan(old(world.View()), i, inp)
    {
      hide ScanTo, ScanDistance;
      ghost var v := world.View();
      var distance := 0.0;
      var n := 0;
      ScanStart(v, i, inp);
      while n < MAX_CLIENTS
        invariant 0 <= n <= MAX_CLIENTS
        invariant InSlot(i) && world.characters == old(world.characters)
        invariant world.View() == ScanTo(v, i, inp, n)
        invariant distance == ScanDistance(v, i, inp, n)
      {
        distance := ScanSlot(inp, n, distance, i, v);
        n := n + 1;
      }
    }

    method ScanSlot(inp: Input, n: nat, distance: real, ghost i: nat, ghost v: World) returns (newDistance: real)
      requires InSlot(i) && ValidInput(inp) && n < MAX_CLIENTS
      requires Present(v, i) && world.View() == ScanTo(v, i, inp, n)
      requires distance == ScanDistance(v, i, inp, n)
      modifies world.characters
      ensures InSlot(i) && world.characters == old(world.characters)
      ensures world.View() == ScanTo(v, i, inp, n + 1)
      ensures newDistance == ScanDistance(v, i, inp, n + 1)
    {
      hide ScanTo, Nearest, HookModel.SetHookedPlayer, SetState;
      ScanToKeeps(v, i, inp, n);
      ScanToOwn(v, i, inp, n);
      ScanNext(v, i, inp, n);
      newDistance := distance;
      var other := world.characters[n];
      if other != null && other != this && inp.near[n] &&
         (super || other.super || ((id == -1 || inp.canCollide[n]) && !other.solo && !solo)) {
        assert Candidate(v, i, inp, n);
        if hookedPlayer == -1 || inp.dist[n] < distance {
          StoreState(HOOK_GRABBED, i);
          SetHookedPlayer(n, i);
          newDistance := inp.dist[n];
        }
      } else {
        assert !Candidate(v, i, inp, n);
      }
    }

    /** The flying hook: cut to its length, then players before ground, walls and teleporters. */
    method Fly(inp: Input, ghost i: nat)
      requires InSlot(i) && ValidInput(inp) && hookState == HOOK_FLYING
      modifies world.characters
      ensures InSlot(i) && world.characters == old(world.characters)
      ensures world.View() == HookModel.Fly(old(world.View()), i, inp)
    {
      hide HookModel.Scan, Ended;
      CutToLength(inp, i);
      if !hookHitDisabled && inp.playerHooking && (hookState == HOOK_FLYING || !newHook) {
        Scan(inp, i);
      }
      End(inp, i);
    }

    method CutToLength(inp: Input, ghost i: nat)
      requires InSlot(i)
      modifies world.characters
      ensures InSlot(i) && world.characters == old(world.characters)
      ensures world.View() ==
              if inp.tooFar then SetState(old(world.View()), i, HOOK_RETRACT_START) else old(world.View())
    {
      if inp.tooFar {
        hookState := HOOK_RETRACT_START;
      }
    }

    /** What is on the way of a hook that has not found a player. */
    method End(inp: Input, ghost i: nat)
      requires InSlot(i)
      modifies world.characters
      ensures InSlot(i) && world.characters == old(world.characters)
      ensures world.View() == Ended(old(world.View()), i, inp)
    {
      hide HookModel.SetHookedPlayer;
      if hookState == HOOK_FLYING {
        if inp.ahead.Ground? {
          hookState := HOOK_GRABBED;
        } else if inp.ahead.NoHook? {
          hookState := HOOK_RETRACT_START;
        }
        if inp.ahead.Tele? && inp.ahead.hasOut {
          SetHookedPlayer(-1, i);
          newHook := true;
        }
      }
    }

    method Release(ghost i: nat)
      requires InSlot(i)
      modifies world.characters
      ensures InSlot(i) && world.characters == old(world.characters)
      ensures world.View() == HookModel.Release(old(world.View()), i)
    {
      SetHookedPlayer(-1, i);
      hookState := HOOK_RETRACTED;
    }

    /** The grabbing hook: let go of a player that is gone, may not be kept or was held too long. */
    method Hold(inp: Input, ghost i: nat)
      requires InSlot(i)
      modifies world.characters
      ensures InSlot(i) && world.characters == old(world.characters)
      ensures world.View() == HookModel.Hold(old(world.View()), i, inp)
    {
      hide HookModel.Release;
      if hookedPlayer != -1 {
        var other := world.characters[hookedPlayer];
        if !(other != null && id != -1 && inp.canKeepHook) {
          Release(i);
        }
      }
      StoreTick(hookTick + 1, i);
      if hookedPlayer != -1 && (hookTick > HOOK_LIMIT || world.characters[hookedPlayer] == null) {
        Release(i);
      }
    }

    method DoHook(inp: Input, ghost i: nat)
      requires InSlot(i) && ValidInput(inp)
      modifies world.characters
      ensures InSlot(i) && world.characters == old(world.characters)
      ensures world.View() == HookModel.DoHook(old(world.View()), i, inp)
    {
      hide HookModel.Fly, HookModel.SetHookedPlayer;
      if hookState == HOOK_IDLE {
        SetHookedPlayer(-1, i);
      } else if HOOK_RETRACT_START <= hookState < HOOK_RETRACT_END {
        hookState := hookState + 1;
      } else if hookState == HOOK_RETRACT_END {
        hookState := HOOK_RETRACTED;
      } else if hookState == HOOK_FLYING {
        Fly(inp, i);
      }
    }

    /** The hook part of a tick. */
    method Tick(inp: Input, ghost i: nat)
      requires InSlot(i) && ValidInput(inp)
      modifies world.characters
      ensures InSlot(i) && world.characters == old(world.characters)
      ensures world.View() == HookModel.Tick(old(world.View()), i, inp)
      ensures Rel(old(world.View())) ==> Rel(world.View())
    {
      hide HookModel.HandleInput, HookModel.DoHook, HookModel.Hold, Rel, HookModel.Deferred;
      TickKeeps(world.View(), i, inp);
      if !inp.mounted {
        HandleInput(inp, i);
        DoHook(inp, i);
        HoldIfGrabbed(inp, i);
        Deferred(inp, i);
      }
    }

    method HoldIfGrabbed(inp: Input, ghost i: nat)
      requires InSlot(i)
      modifies world.characters
      ensures InSlot(i) && world.characters == old(world.characters)
      ensures
        var v := old(world.View());
        world.View() == if v[i].core.hookState == HOOK_GRABBED then HookModel.Hold(v, i, inp) else v
    {
      hide HookModel.Hold;
      if hookState == HOOK_GRABBED {
        Hold(inp, i);
      }
    }

    /** The hook part of the deferred tick. */
    method Deferred(inp: Input, ghost i: nat)
      requires InSlot(i)
      modifies world.characters
      ensures InSlot(i) && world.characters == old(world.characters)
      ensures world.View() == HookModel.Deferred(old(world.View()), i, inp)
    {
      if inp.deferred && hookState != HOOK_FLYING {
        newHook := false;
      }
    }

    method Read(snap: Snapshot, ghost i: nat)
      requires InSlot(i) && IsPlayer(snap.hooked)
      modifies world.characters
      ensures InSlot(i) && world.characters == old(world.characters)
      ensures world.View() == HookModel.Read(old(world.View()), i, snap)
    {
      ghost var v := world.View();
      hookState := snap.hookState;
      hookTick := snap.hookTick;
      assert world.View() == SetTick(SetState(v, i, snap.hookState), i, snap.hookTick);
      SetHookedPlayer(snap.hooked, i);
    }

    method Write() returns (snap: Snapshot)
      ensures snap == HookModel.Write(Value())
    {
      snap := Snapshot(hookState, hookTick, hookedPlayer);
    }

    /** Writing a core and reading it back leaves every hook as it was. */
    method Quantize(ghost i: nat)
      requires InSlot(i)
      modifies world.characters
      ensures InSlot(i) && world.characters == old(world.characters)
      ensures world.View() == old(world.View())
    {
      WriteReadInverse(world.View(), i, HookModel.Write(Value()));
      var snap := Write();
      Read(snap, i);
    }

    method Reset(ghost i: nat)
      requires InSlot(i)
      modifies world.characters
      ensures InSlot(i) && world.characters == old(world.characters)
      ensures world.View() == HookModel.Reset(old(world.View()), i)
    {
      hide HookModel.SetHookedPlayer;
      StopHook(i);
      SetHookedPlayer(-1, i);
      ClearRest(i);
    }

    method StopHook(ghost i: nat)
      requires InSlot(i)
      modifies this
      ensures InSlot(i)
      ensures world.View() == old(world.View())[
              i := Used(old(Value()).(newHook := false, hookTick := 0, hookState := HOOK_IDLE))]
    {
      newHook := false;
      hookTick := 0;
      hookState := HOOK_IDLE;
    }

    method ClearRest(ghost i: nat)
      requires InSlot(i)
      modifies this
      ensures InSlot(i)
      ensures world.View() == old(world.View())[
              i := Used(old(Value()).(attached := {}, solo := false, super := false, hookHitDisabled := false))]
    {
      attachedPlayers := {};
      solo, super, hookHitDisabled := false, false, false;
    }
  }

  /** The distance of the player the scan has taken so far. */
  ghost function ScanDistance(v: World, i: nat, inp: Input, n: nat): real
    requires Present(v, i) && ValidInput(inp) && n <= MAX_CLIENTS
  {
    var j := Nearest(v, i, inp, n);
    if v[i].core.hooked != -1 || j == -1 then 0.0 else inp.dist[j]
  }

  lemma ScanStart(v: World, i: nat, inp: Input)
    requires Present(v, i) && ValidInput(inp)
    ensures ScanTo(v, i, inp, 0) == v && ScanDistance(v, i, inp, 0) == 0.0
  {
  }

  /** Slot `n` is taken exactly if it is a candidate and nobody was taken or it is nearer. */
  lemma ScanNext(v: World, i: nat, inp: Input, n: nat)
    requires Present(v, i) && ValidInput(inp) && n < MAX_CLIENTS
    ensures
      var j, t := Nearest(v, i, inp, n), ScanTo(v, i, inp, n);
      var takes := v[i].core.hooked == -1 && Candidate(v, i, inp, n) && (j == -1 || inp.dist[n] < inp.dist[j]);
      && ScanTo(v, i, inp, n + 1) == (if takes then SetHookedPlayer(SetState(t, i, HOOK_GRABBED), i, n) else t)
      && ScanDistance(v, i, inp, n + 1) == (if takes then inp.dist[n] else ScanDistance(v, i, inp, n))
  {
    hide SetHookedPlayer, SetState;
  }
}
