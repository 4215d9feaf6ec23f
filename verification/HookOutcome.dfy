/** The rest of what a tick and a reset do to a core: the new-hook flag, the counter, whom the
    hook may take, and what can be done after a reset. */
module HookOutcome {
  import opened HookModel
  import opened HookRuns

  /** The hook is in flight once the input is handled. */
  predicate InFlight(c: Core, inp: Input) {
    (c.hookState == HOOK_FLYING || (c.hookState == HOOK_IDLE && inp.useInput)) && (inp.useInput ==> inp.hook)
  }

  /** It takes nobody and goes through a teleporter that leads somewhere. */
  predicate Teleports(w: World, i: nat, inp: Input)
    requires Present(w, i) && ValidInput(inp)
  {
    && w[i].core.hooked == -1 && InFlight(w[i].core, inp) && Taken(w, i, inp) == -1
    && !inp.tooFar && inp.ahead == Tele(true)
  }

  /** It has hold of something before the tick ends, so that the counter runs. */
  predicate Grabs(w: World, i: nat, inp: Input)
    requires Present(w, i) && ValidInput(inp)
  {
    var c := w[i].core;
    && (inp.useInput ==> inp.hook)
    && (if c.hooked == -1 && InFlight(c, inp) then Taken(w, i, inp) != -1 || StateAhead(inp) == HOOK_GRABBED
        else c.hookState == HOOK_GRABBED)
  }

  lemma FlyRest(w: World, i: nat, inp: Input)
    requires Present(w, i) && ValidInput(inp)
    requires w[i].core.hookState == HOOK_FLYING && w[i].core.hooked == -1
    ensures
      var c, d, j := w[i].core, Fly(w, i, inp)[i].core, Nearest(w, i, inp, MAX_CLIENTS);
      var takes := !c.hookHitDisabled && inp.playerHooking && (!inp.tooFar || !c.newHook) && j != -1;
      d.newHook <==> c.newHook || (!takes && !inp.tooFar && inp.ahead == Tele(true))
  {
    hide SetHookedPlayer, Nearest, ScanTo;
    var a := SetState(w, i, HOOK_RETRACT_START);
    SetStateKeeps(w, i, HOOK_RETRACT_START);
    ScanToOwn(w, i, inp, MAX_CLIENTS);
    ScanToOwn(a, i, inp, MAX_CLIENTS);
    NearestSame(w, a, i, inp, MAX_CLIENTS);
  }

  lemma HoldRest(w: World, i: nat, inp: Input)
    requires Present(w, i)
    ensures Hold(w, i, inp)[i].core.newHook == w[i].core.newHook
    ensures Hold(w, i, inp)[i].core.hookTick == w[i].core.hookTick + 1
  {
    hide SetHookedPlayer;
  }

  lemma DeferredRest(w: World, i: nat, inp: Input)
    requires Present(w, i)
    ensures
      var c, d := w[i].core, Deferred(w, i, inp)[i].core;
      d == c.(newHook := c.newHook && (inp.deferred ==> c.hookState == HOOK_FLYING))
  {
  }

  /** The new-hook flag after a tick: it was set or this tick set it, and a deferred tick
      leaves it only to a hook in flight. The counter: it starts with the launch and goes up
      by one exactly if the hook has hold of something. */
  lemma TickRest(w: World, i: nat, inp: Input)
    requires Present(w, i) && ValidInput(inp) && GoodCore(w[i].core) && !inp.mounted
    ensures
      var c, d := w[i].core, Tick(w, i, inp)[i].core;
      && (d.newHook <==> (c.newHook || Teleports(w, i, inp)) && (inp.deferred ==> d.hookState == HOOK_FLYING))
      && d.hookTick ==
         (if c.hookState == HOOK_IDLE && inp.useInput && inp.hook then inp.launchTick else c.hookTick)
         + (if Grabs(w, i, inp) then 1 else 0)
  {
    hide SetHookedPlayer, HandleInput, DoHook, Hold, Deferred, StateAhead, Taken, GoodCore;
    var a := HandleInput(w, i, inp);
    InputRest(w, i, inp);
    var b := DoHook(a, i, inp);
    DoHookRest(w, a, i, inp);
    HoldRest(b, i, inp);
    DeferredRest(b, i, inp);
    DeferredRest(Hold(b, i, inp), i, inp);
  }

  lemma InputRest(w: World, i: nat, inp: Input)
    requires Present(w, i) && GoodCore(w[i].core)
    ensures
      var c, a := w[i].core, HandleInput(w, i, inp);
      && OnlyOf(w, a, i) && a[i].core.newHook == c.newHook
      && a[i].core.hookTick ==
         (if c.hookState == HOOK_IDLE && inp.useInput && inp.hook then inp.launchTick else c.hookTick)
      && a[i].core.hookState ==
         (if inp.useInput && !inp.hook then HOOK_IDLE
          else if c.hookState == HOOK_IDLE && inp.useInput then HOOK_FLYING else c.hookState)
      && a[i].core.hooked == (if inp.useInput && !inp.hook then -1 else c.hooked)
  {
    HandleInputKeeps(w, i, inp);
    hide SetHookedPlayer;
  }

  lemma DoHookRest(w: World, a: World, i: nat, inp: Input)
    requires Present(w, i) && Present(a, i) && ValidInput(inp) && OnlyOf(w, a, i) && GoodCore(w[i].core)
    requires a[i].core.newHook == w[i].core.newHook
    requires a[i].core.hookState ==
             (if inp.useInput && !inp.hook then HOOK_IDLE
              else if w[i].core.hookState == HOOK_IDLE && inp.useInput then HOOK_FLYING else w[i].core.hookState)
    requires a[i].core.hooked == (if inp.useInput && !inp.hook then -1 else w[i].core.hooked)
    ensures
      var b := DoHook(a, i, inp)[i].core;
      && (b.newHook <==> w[i].core.newHook || Teleports(w, i, inp))
      && b.hookTick == a[i].core.hookTick
      && (b.hookState == HOOK_GRABBED <==> Grabs(w, i, inp))
  {
    hide SetHookedPlayer, Fly, Nearest;
    if a[i].core.hookState == HOOK_FLYING {
      NearestSame(w, a, i, inp, MAX_CLIENTS);
      FlyOwn(a, i, inp);
      FlyRest(a, i, inp);
    }
  }

  // ----- whom the hook takes

  /** A tick hooks a player only by the rules: never itself, a solo player or one of another
      team only if one of the two is super, only one close to the way of the hook, and of all
      who would do the nearest. */
  lemma TickTakesByTheRules(w: World, i: nat, inp: Input)
    requires Present(w, i) && ValidInput(inp) && GoodCore(w[i].core) && !inp.mounted
    requires w[i].core.hooked == -1 && Tick(w, i, inp)[i].core.hooked != -1
    ensures
      var c, j := w[i].core, Tick(w, i, inp)[i].core.hooked;
      && 0 <= j < MAX_CLIENTS && j != i && w[j].Used? && inp.near[j] && inp.playerHooking && !c.hookHitDisabled
      && (c.solo || w[j].core.solo ==> c.super || w[j].core.super)
      && (c.id != -1 && !inp.canCollide[j] ==> c.super || w[j].core.super)
      && forall k: nat :: k < MAX_CLIENTS && k != i && w[k].Used? && inp.near[k] && inp.dist[k] < inp.dist[j] ==>
           && !c.super && !w[k].core.super
           && (c.solo || w[k].core.solo || (c.id != -1 && !inp.canCollide[k]))
  {
    hide Tick;
    TickHook(w, i, inp);
    var c, j := w[i].core, Tick(w, i, inp)[i].core.hooked;
    assert IsNearest(w, i, inp, MAX_CLIENTS, j);
    forall k: nat | k < MAX_CLIENTS && k != i && w[k].Used? && inp.near[k] && inp.dist[k] < inp.dist[j]
      ensures !c.super && !w[k].core.super
      ensures c.solo || w[k].core.solo || (c.id != -1 && !inp.canCollide[k])
    {
      assert !Candidate(w, i, inp, k);
    }
  }

  /** A hook that looked for players and flies on passed nobody whom the rules let it take. */
  lemma FliesOnPastNobody(w: World, i: nat, inp: Input)
    requires Present(w, i) && ValidInput(inp) && GoodCore(w[i].core) && !inp.mounted
    requires w[i].core.hooked == -1 && Scans(w[i].core, inp) && Tick(w, i, inp)[i].core.hookState == HOOK_FLYING
    ensures
      var c := w[i].core;
      forall k: nat :: k < MAX_CLIENTS && k != i && w[k].Used? && inp.near[k] ==>
        && !c.super && !w[k].core.super
        && (c.solo || w[k].core.solo || (c.id != -1 && !inp.canCollide[k]))
  {
    hide Tick;
    TickHook(w, i, inp);
    var c := w[i].core;
    assert Nearest(w, i, inp, MAX_CLIENTS) == -1;
    forall k: nat | k < MAX_CLIENTS && k != i && w[k].Used? && inp.near[k]
      ensures !c.super && !w[k].core.super
      ensures c.solo || w[k].core.solo || (c.id != -1 && !inp.canCollide[k])
    {
      assert !Candidate(w, i, inp, k);
    }
  }

  // ----- after a reset

  /** A core that is reset is like that of a new character. */
  lemma ResetIsLikeNew(w: World, i: nat)
    requires Present(w, i)
    ensures Reset(w, i)[i].core == Spawned(i).(id := w[i].core.id)
  {
    hide SetHookedPlayer;
  }

  /** The button launches the hook right after a reset: in the open it is in flight, with the
      counter at its start, and otherwise it has met something. */
  lemma PressAfterReset(w: World, i: nat, inp: Input)
    requires Present(w, i) && ValidInput(inp) && !inp.mounted && inp.useInput && inp.hook
    ensures
      var d := Tick(Reset(w, i), i, inp)[i].core;
      && d.hookState != HOOK_IDLE
      && (!inp.playerHooking && !inp.tooFar && inp.ahead.Clear? ==>
            d.hookState == HOOK_FLYING && d.hookTick == inp.launchTick)
  {
    hide Tick, Reset;
    ResetIsLikeNew(w, i);
    TickHook(Reset(w, i), i, inp);
    TickRest(Reset(w, i), i, inp);
  }

  // ----- the new-hook flag over runs

  /** The flag is set only while the hook is in flight. */
  predicate FlagFits(c: Core) {
    c.newHook ==> c.hookState == HOOK_FLYING
  }

  ghost predicate FlagsFit(w: World) {
    forall i: nat :: i < MAX_CLIENTS && w[i].Used? ==> FlagFits(w[i].core)
  }

  /** Ticks are deferred; no snapshot and no release from outside ends a flight with the flag
      set; and who joins has a fitting flag. */
  predicate FlagSafe(w: World, a: Action)
    requires Possible(w, a)
  {
    match a
    case DoTick(i, inp) => inp.mounted || inp.deferred
    case DoRead(i, snap) => w[i].core.newHook ==> snap.hookState == HOOK_FLYING
    case DoRelease(i) => !w[i].core.newHook
    case DoJoin(i, c) => FlagFits(c)
    case _ => true
  }

  lemma ActionKeepsFlags(w: World, a: Action)
    requires GoodWorld(w) && FlagsFit(w) && Possible(w, a)
    ensures FlagSafe(w, a) ==> FlagsFit(Apply(w, a))
    ensures !a.DoTick? && FlagsFit(Apply(w, a)) ==> FlagSafe(w, a)
  {
    hide Tick, SetHookedPlayer, GoodCore;
    var r := Apply(w, a);
    OwnFlag(w, a);
    forall k: nat | k < MAX_CLIENTS && k != a.i && r[k].Used?
      ensures FlagFits(r[k].core)
    {
      ActionOnlyOf(w, a, k);
    }
  }

  lemma OwnFlag(w: World, a: Action)
    requires GoodWorld(w) && FlagsFit(w) && Possible(w, a)
    ensures
      var r := Apply(w, a);
      && (r[a.i].Used? && FlagSafe(w, a) ==> FlagFits(r[a.i].core))
      && (!a.DoTick? && !FlagSafe(w, a) ==> r[a.i].Used? && !FlagFits(r[a.i].core))
  {
    hide Tick, SetHookedPlayer, Reset;
    match a {
      case DoTick(i, inp) =>
        if inp.mounted {
          MountedTick(w, i, inp);
        } else {
          TickRest(w, i, inp);
        }
      case DoReset(i) => ResetIsLikeNew(w, i);
      case DoPause(i) => PauseLetsGo(w, i);
      case _ =>
    }
  }

  /** In every such run no flag outlives the flight. */
  lemma {:induction false} FlagsFitOverRun(worlds: seq<World>, actions: seq<Action>, k: nat)
    requires Run(worlds, actions) && k < |worlds| && GoodWorld(worlds[0]) && FlagsFit(worlds[0])
    requires forall m :: 0 <= m < |actions| ==> GoodAction(actions[m])
    requires forall m :: 0 <= m < k ==> FlagSafe(worlds[m], actions[m])
    ensures FlagsFit(worlds[k])
  {
    hide Apply, Possible, FlagSafe, FlagsFit, GoodWorld, GoodAction;
    if k > 0 {
      FlagsFitOverRun(worlds, actions, k - 1);
      GoodOverRun(worlds, actions, k - 1);
      ActionKeepsFlags(worlds[k - 1], actions[k - 1]);
    }
  }
}
