/** What every run of ticks, reads, releases, resets, deaths, pauses and joins keeps. */
module HookRuns {
  import opened HookModel

  datatype Action =
    | DoTick(i: nat, inp: Input)
    | DoRead(i: nat, snap: Snapshot)
    | DoReset(i: nat)
    | DoReadFlags(i: nat, solo: bool, super: bool, hookHitDisabled: bool)
    | DoRelease(i: nat)
    | DoLeave(i: nat)
    | DoPause(i: nat)
    | DoJoin(i: nat, core: Core)

  predicate Possible(w: World, a: Action) {
    match a
    case DoTick(i, inp) => Present(w, i) && ValidInput(inp)
    case DoRead(i, snap) => Present(w, i) && IsPlayer(snap.hooked)
    case DoJoin(i, c) => i < MAX_CLIENTS && w[i].Empty? && IsPlayer(c.hooked) && (c.id == i || c.id == -1)
    case _ => Present(w, a.i)
  }

  function Apply(w: World, a: Action): World
    requires Possible(w, a)
  {
    match a
    case DoTick(i, inp) => Tick(w, i, inp)
    case DoRead(i, snap) => Read(w, i, snap)
    case DoReset(i) => Reset(w, i)
    case DoReadFlags(i, solo, super, hookHitDisabled) => ReadFlags(w, i, solo, super, hookHitDisabled)
    case DoRelease(i) => Release(w, i)
    case DoLeave(i) => Leave(w, i)
    case DoPause(i) => Pause(w, i)
    case DoJoin(i, c) => Join(w, i, c)
  }

  ghost predicate Run(worlds: seq<World>, actions: seq<Action>) {
    && |worlds| == |actions| + 1
    && forall k :: 0 <= k < |actions| ==>
         Possible(worlds[k], actions[k]) && worlds[k + 1] == Apply(worlds[k], actions[k])
  }

  // ----- the relation between hooking and hooked cores

  /** Cores sit in the slot of their id, if they have one. */
  ghost predicate WellFormed(w: World) {
    forall i: nat :: i < MAX_CLIENTS && w[i].Used? ==> Present(w, i) && (w[i].core.id == i || w[i].core.id == -1)
  }

  /** `x` hooks `j`, seen from `x`. */
  predicate Hooks(w: World, x: int, j: int) {
    0 <= x < MAX_CLIENTS && w[x].Used? && w[x].core.id == x && w[x].core.hooked == j
  }

  /** Whoever is listed as attached does hook that core. */
  ghost predicate AttachedHook(w: World) {
    forall j, x :: 0 <= j < MAX_CLIENTS && w[j].Used? && x in w[j].core.attached ==> Hooks(w, x, j)
  }

  /** Whoever hooks a core is listed there. */
  ghost predicate HookersListed(w: World) {
    forall j, x :: 0 <= j < MAX_CLIENTS && w[j].Used? && Hooks(w, x, j) ==> x in w[j].core.attached
  }

  ghost predicate Rel(w: World) {
    WellFormed(w) && AttachedHook(w)
  }

  /** The list of attached players of core `j` after `i` hooks `h`. */
  function AttachedAfter(w: World, i: nat, h: int, j: nat): set<int>
    requires Present(w, i) && j < MAX_CLIENTS && w[j].Used?
  {
    var c, was := w[i].core, w[j].core.attached;
    if h == c.hooked || c.id == -1 then was
    else if j == h then was + {c.id}
    else if j == c.hooked then was - {c.id}
    else was
  }

  /** Hooking changes the one `hooked` field and at most two lists. */
  lemma SetHookedAt(w: World, i: nat, h: int, j: nat)
    requires Present(w, i) && IsPlayer(h) && j < MAX_CLIENTS
    ensures
      var r := SetHookedPlayer(w, i, h);
      if w[j].Used? then
        r[j] == Used(w[j].core.(
          attached := AttachedAfter(w, i, h, j), hooked := if j == i then h else w[j].core.hooked))
      else r[j].Empty?
  {
    var c := w[i].core;
    if c.hooked != -1 && c.id != -1 && h != c.hooked {
      var d := Detach(w, c.hooked, c.id);
      assert d[j].Used? <==> w[j].Used?;
      assert d[i].Used?;
    }
  }

  lemma SetHookedKeepsRel(w: World, i: nat, h: int)
    requires Rel(w) && Present(w, i) && IsPlayer(h)
    ensures Rel(SetHookedPlayer(w, i, h))
    ensures HookersListed(w) ==> HookersListed(SetHookedPlayer(w, i, h))
  {
    hide SetHookedPlayer;
    var r := SetHookedPlayer(w, i, h);
    forall j: nat | j < MAX_CLIENTS
      ensures w[j].Used? <==> r[j].Used?
      ensures w[j].Used? ==>
                && r[j].core.id == w[j].core.id
                && r[j].core.hooked == (if j == i then h else w[j].core.hooked)
                && r[j].core.attached == AttachedAfter(w, i, h, j)
    {
      SetHookedAt(w, i, h, j);
    }
    assert WellFormed(r);
    forall j, x | 0 <= j < MAX_CLIENTS && r[j].Used? && x in r[j].core.attached
      ensures Hooks(r, x, j)
    {
      assert x == w[i].core.id || x in w[j].core.attached;
      if x in w[j].core.attached {
        assert Hooks(w, x, j);
      }
    }
    if HookersListed(w) {
      forall j, x | 0 <= j < MAX_CLIENTS && r[j].Used? && Hooks(r, x, j)
        ensures x in r[j].core.attached
      {
        if x != i || h == w[i].core.hooked {
          assert Hooks(w, x, j);
        }
      }
    }
  }

  /** An operation of core `i`: the relation survives, the other cores keep everything but
      their lists, and `i` keeps its id and flags. */
  ghost predicate Keeps(w: World, r: World, i: nat) {
    && (Rel(w) ==> Rel(r) && (HookersListed(w) ==> HookersListed(r)))
    && OnlyOf(w, r, i)
  }

  ghost predicate OnlyOf(w: World, r: World, i: nat) {
    forall k: nat :: k < MAX_CLIENTS ==>
      && (w[k].Used? <==> r[k].Used?)
      && (w[k].Used? && k != i ==> r[k].core == w[k].core.(attached := r[k].core.attached))
      && (w[k].Used? && k == i ==> SameFlags(w[k].core, r[k].core))
  }

  predicate SameFlags(c: Core, d: Core) {
    d.id == c.id && d.solo == c.solo && d.super == c.super && d.hookHitDisabled == c.hookHitDisabled
  }

  lemma KeepsTransitive(w: World, v: World, r: World, i: nat)
    requires Keeps(w, v, i) && Keeps(v, r, i)
    ensures Keeps(w, r, i)
  {
    hide Rel, HookersListed;
  }

  lemma KeepsSame(w: World, i: nat)
    ensures Keeps(w, w, i)
  {
  }

  lemma SetHookedKeeps(w: World, i: nat, h: int)
    requires Present(w, i) && IsPlayer(h)
    ensures Keeps(w, SetHookedPlayer(w, i, h), i)
  {
    hide SetHookedPlayer, Rel, HookersListed, AttachedAfter;
    if Rel(w) {
      SetHookedKeepsRel(w, i, h);
    }
    forall k: nat | k < MAX_CLIENTS
      ensures w[k].Used? <==> SetHookedPlayer(w, i, h)[k].Used?
      ensures w[k].Used? ==> SetHookedPlayer(w, i, h)[k] ==
                             Used(w[k].core.(
                               attached := AttachedAfter(w, i, h, k), hooked := if k == i then h else w[k].core.hooked))
    {
      SetHookedAt(w, i, h, k);
    }
  }

  /** Changing own fields other than id, hooked player and list. */
  lemma OwnFieldsKeep(w: World, i: nat, c: Core)
    requires Present(w, i)
    requires SameFlags(w[i].core, c) && c.hooked == w[i].core.hooked && c.attached == w[i].core.attached
    ensures Keeps(w, w[i := Used(c)], i)
  {
    var r := w[i := Used(c)];
    assert forall x, j :: Hooks(w, x, j) <==> Hooks(r, x, j);
  }

  lemma SetStateKeeps(w: World, i: nat, state: int)
    requires Present(w, i)
    ensures Keeps(w, SetState(w, i, state), i)
  {
    OwnFieldsKeep(w, i, w[i].core.(hookState := state));
  }

  lemma SetTickKeeps(w: World, i: nat, tick: int)
    requires Present(w, i)
    ensures Keeps(w, SetTick(w, i, tick), i)
  {
    OwnFieldsKeep(w, i, w[i].core.(hookTick := tick));
  }

  lemma SetNewHookKeeps(w: World, i: nat, newHook: bool)
    requires Present(w, i)
    ensures Keeps(w, SetNewHook(w, i, newHook), i)
  {
    OwnFieldsKeep(w, i, w[i].core.(newHook := newHook));
  }

  lemma HandleInputKeeps(w: World, i: nat, inp: Input)
    requires Present(w, i)
    ensures Keeps(w, HandleInput(w, i, inp), i)
  {
    hide Keeps, SetHookedPlayer, SetState, SetTick;
    KeepsSame(w, i);
    var a := SetState(w, i, HOOK_FLYING);
    var b := SetHookedPlayer(a, i, -1);
    SetStateKeeps(w, i, HOOK_FLYING);
    SetHookedKeeps(a, i, -1);
    SetTickKeeps(b, i, inp.launchTick);
    KeepsTransitive(w, a, b, i);
    KeepsTransitive(w, b, SetTick(b, i, inp.launchTick), i);
    var d := SetHookedPlayer(w, i, -1);
    SetHookedKeeps(w, i, -1);
    SetStateKeeps(d, i, HOOK_IDLE);
    KeepsTransitive(w, d, SetState(d, i, HOOK_IDLE), i);
  }

  lemma ReleaseKeeps(w: World, i: nat)
    requires Present(w, i)
    ensures Keeps(w, Release(w, i), i)
  {
    hide Keeps, SetHookedPlayer, SetState;
    var a := SetHookedPlayer(w, i, -1);
    SetHookedKeeps(w, i, -1);
    SetStateKeeps(a, i, HOOK_RETRACTED);
    KeepsTransitive(w, a, Release(w, i), i);
  }

  lemma {:induction false} ScanToKeeps(w: World, i: nat, inp: Input, n: nat)
    requires Present(w, i) && ValidInput(inp) && n <= MAX_CLIENTS
    ensures Keeps(w, ScanTo(w, i, inp, n), i)
  {
    hide Keeps, SetHookedPlayer, SetState, Nearest;
    if n == 0 {
      KeepsSame(w, i);
    } else {
      var v := ScanTo(w, i, inp, n - 1);
      ScanToKeeps(w, i, inp, n - 1);
      var a := SetState(v, i, HOOK_GRABBED);
      SetStateKeeps(v, i, HOOK_GRABBED);
      SetHookedKeeps(a, i, n - 1);
      KeepsTransitive(v, a, SetHookedPlayer(a, i, n - 1), i);
      KeepsTransitive(w, v, SetHookedPlayer(a, i, n - 1), i);
    }
  }

  /** What the scan does to the core itself: it ends with the nearest candidate. */
  lemma {:induction false} ScanToOwn(w: World, i: nat, inp: Input, n: nat)
    requires Present(w, i) && ValidInput(inp) && n <= MAX_CLIENTS
    ensures
      var c, d, j := w[i].core, ScanTo(w, i, inp, n)[i].core, Nearest(w, i, inp, n);
      d == if c.hooked != -1 || j == -1 then c.(attached := d.attached)
           else c.(attached := d.attached, hooked := j, hookState := HOOK_GRABBED)
  {
    hide SetHookedPlayer;
    if n > 0 {
      ScanToOwn(w, i, inp, n - 1);
    }
  }

  lemma HookTwice(w: World, i: nat, j: int, n: int)
    requires Present(w, i) && Rel(w) && w[i].core.hooked == -1 && 0 <= j < MAX_CLIENTS && 0 <= n < MAX_CLIENTS && j != n
    ensures SetHookedPlayer(SetHookedPlayer(w, i, j), i, n) == SetHookedPlayer(w, i, n)
  {
    var b := SetHookedPlayer(w, i, j);
    assert w[j].Used? ==> (w[i].core.id in w[j].core.attached ==> Hooks(w, w[i].core.id, j));
    forall k: nat | k < MAX_CLIENTS
      ensures SetHookedPlayer(b, i, n)[k] == SetHookedPlayer(w, i, n)[k]
    {
      SetHookedAt(w, i, j, k);
      SetHookedAt(b, i, n, k);
      SetHookedAt(w, i, n, k);
    }
  }

  /** With the relation, the candidates taken on the way leave no trace: the whole world is
      as if only the nearest had been hooked. */
  lemma {:induction false} ScanTakesOne(w: World, i: nat, inp: Input, n: nat)
    requires Present(w, i) && ValidInput(inp) && n <= MAX_CLIENTS && Rel(w) && w[i].core.hooked == -1
    ensures
      var j := Nearest(w, i, inp, n);
      ScanTo(w, i, inp, n) == if j == -1 then w else SetHookedPlayer(SetState(w, i, HOOK_GRABBED), i, j)
  {
    hide SetHookedPlayer, Rel;
    if n > 0 {
      ScanTakesOne(w, i, inp, n - 1);
      var j, a := Nearest(w, i, inp, n - 1), SetState(w, i, HOOK_GRABBED);
      if j != -1 && Nearest(w, i, inp, n) == n - 1 {
        var b := SetHookedPlayer(a, i, j);
        assert SetState(b, i, HOOK_GRABBED) == b;
        SetStateKeeps(w, i, HOOK_GRABBED);
        HookTwice(a, i, j, n - 1);
      }
    }
  }

  lemma FlyKeeps(w: World, i: nat, inp: Input)
    requires Present(w, i) && ValidInput(inp)
    ensures Keeps(w, Fly(w, i, inp), i)
  {
    hide Keeps, SetHookedPlayer, SetState, SetNewHook, ScanTo;
    var c := w[i].core;
    var a := if inp.tooFar then SetState(w, i, HOOK_RETRACT_START) else w;
    KeepsSame(w, i);
    SetStateKeeps(w, i, HOOK_RETRACT_START);
    var b := if !c.hookHitDisabled && inp.playerHooking && (!inp.tooFar || !c.newHook) then Scan(a, i, inp) else a;
    KeepsSame(a, i);
    ScanToKeeps(a, i, inp, MAX_CLIENTS);
    KeepsTransitive(w, a, b, i);
    KeepsSame(b, i);
    SetStateKeeps(b, i, HOOK_GRABBED);
    SetStateKeeps(b, i, HOOK_RETRACT_START);
    var d := SetHookedPlayer(b, i, -1);
    SetHookedKeeps(b, i, -1);
    SetNewHookKeeps(d, i, true);
    KeepsTransitive(b, d, SetNewHook(d, i, true), i);
    KeepsTransitive(w, b, Fly(w, i, inp), i);
  }

  lemma HoldKeeps(w: World, i: nat, inp: Input)
    requires Present(w, i)
    ensures Keeps(w, Hold(w, i, inp), i)
  {
    hide Keeps, Release, SetTick;
    var c := w[i].core;
    var a := if c.hooked == -1 || (w[c.hooked].Used? && c.id != -1 && inp.canKeepHook) then w else Release(w, i);
    KeepsSame(w, i);
    ReleaseKeeps(w, i);
    var b := SetTick(a, i, c.hookTick + 1);
    SetTickKeeps(a, i, c.hookTick + 1);
    KeepsTransitive(w, a, b, i);
    KeepsSame(b, i);
    ReleaseKeeps(b, i);
    KeepsTransitive(w, b, Hold(w, i, inp), i);
  }

  lemma DoHookKeeps(w: World, i: nat, inp: Input)
    requires Present(w, i) && ValidInput(inp)
    ensures Keeps(w, DoHook(w, i, inp), i)
  {
    hide Keeps, SetHookedPlayer, SetState, Fly;
    KeepsSame(w, i);
    SetHookedKeeps(w, i, -1);
    SetStateKeeps(w, i, w[i].core.hookState + 1);
    SetStateKeeps(w, i, HOOK_RETRACTED);
    FlyKeeps(w, i, inp);
  }

  lemma TickKeeps(w: World, i: nat, inp: Input)
    requires Present(w, i) && ValidInput(inp)
    ensures Keeps(w, Tick(w, i, inp), i)
  {
    hide Keeps, HandleInput, DoHook, Hold, SetNewHook;
    KeepsSame(w, i);
    var a := HandleInput(w, i, inp);
    HandleInputKeeps(w, i, inp);
    var b := DoHook(a, i, inp);
    DoHookKeeps(a, i, inp);
    KeepsTransitive(w, a, b, i);
    var d := if b[i].core.hookState == HOOK_GRABBED then Hold(b, i, inp) else b;
    KeepsSame(b, i);
    HoldKeeps(b, i, inp);
    KeepsTransitive(w, b, d, i);
    KeepsSame(d, i);
    SetNewHookKeeps(d, i, false);
    KeepsTransitive(w, d, Deferred(d, i, inp), i);
  }

  lemma ReadKeeps(w: World, i: nat, snap: Snapshot)
    requires Present(w, i) && IsPlayer(snap.hooked)
    ensures Keeps(w, Read(w, i, snap), i)
  {
    hide Keeps, SetHookedPlayer, SetState, SetTick;
    var a := SetState(w, i, snap.hookState);
    var b := SetTick(a, i, snap.hookTick);
    SetStateKeeps(w, i, snap.hookState);
    SetTickKeeps(a, i, snap.hookTick);
    SetHookedKeeps(b, i, snap.hooked);
    KeepsTransitive(w, a, b, i);
    KeepsTransitive(w, b, Read(w, i, snap), i);
  }

  /** What is read is what a later write gives back, and reading back what was written
      changes nothing anywhere. */
  lemma WriteReadInverse(w: World, i: nat, snap: Snapshot)
    requires Present(w, i) && IsPlayer(snap.hooked)
    ensures Write(Read(w, i, snap)[i].core) == snap
    ensures Read(w, i, Write(w[i].core)) == w
  {
    assert w[i := w[i]] == w;
  }

  lemma ReadFlagsKeeps(w: World, i: nat, solo: bool, super: bool, hookHitDisabled: bool)
    requires Present(w, i) && Rel(w)
    ensures Rel(ReadFlags(w, i, solo, super, hookHitDisabled))
    ensures HookersListed(w) ==> HookersListed(ReadFlags(w, i, solo, super, hookHitDisabled))
  {
    var r := ReadFlags(w, i, solo, super, hookHitDisabled);
    assert forall x, j :: Hooks(w, x, j) <==> Hooks(r, x, j);
  }

  /** A reset keeps the relation one way. It keeps the other way exactly when no other core
      was hooking the one that is reset: its list is cleared, their hooks stay. */
  lemma ResetKeeps(w: World, i: nat)
    requires Present(w, i) && Rel(w)
    ensures Rel(Reset(w, i))
    ensures HookersListed(w) ==>
              (HookersListed(Reset(w, i)) <==> forall x :: x in w[i].core.attached ==> x == i)
  {
    var c := w[i].core.(newHook := false, hookTick := 0, hookState := HOOK_IDLE);
    var a := w[i := Used(c)];
    OwnFieldsKeep(w, i, c);
    var b := SetHookedPlayer(a, i, -1);
    SetHookedKeeps(a, i, -1);
    SetHookedAt(a, i, -1, i);
    ClearKeeps(b, i);
    assert i in w[i].core.attached ==> Hooks(w, i, i);
    assert forall x :: x in b[i].core.attached <==> x in w[i].core.attached && x != i;
  }

  lemma ClearKeeps(w: World, i: nat)
    requires Present(w, i) && Rel(w)
    ensures
      var r := w[i := Used(w[i].core.(attached := {}, solo := false, super := false, hookHitDisabled := false))];
      Rel(r) && (HookersListed(w) ==> (HookersListed(r) <==> forall x :: x !in w[i].core.attached))
  {
    var r := w[i := Used(w[i].core.(attached := {}, solo := false, super := false, hookHitDisabled := false))];
    assert forall x, j :: Hooks(w, x, j) <==> Hooks(r, x, j);
    if x :| x in w[i].core.attached {
      assert Hooks(r, x, i) && r[i].Used?;
    }
  }

  // ----- leaving and joining

  /** No other core lists `i`. */
  ghost predicate ListedNowhereElse(w: World, i: nat) {
    forall j :: 0 <= j < MAX_CLIENTS && j != i && w[j].Used? ==> i !in w[j].core.attached
  }

  /** A core with an id holds nobody but possibly itself, among those present. */
  predicate HoldsNobodyElse(w: World, i: nat)
    requires Present(w, i)
  {
    var c := w[i].core;
    c.id != i || c.hooked == -1 || c.hooked == i || w[c.hooked].Empty?
  }

  /** When a core leaves, the relation survives exactly if no list keeps it, and with exact
      lists that is exactly if it held nobody. */
  lemma LeaveKeeps(w: World, i: nat)
    requires Present(w, i) && Rel(w)
    ensures Rel(Leave(w, i)) <==> ListedNowhereElse(w, i)
    ensures HookersListed(w) ==> HookersListed(Leave(w, i))
    ensures HookersListed(w) ==> (Rel(Leave(w, i)) <==> HoldsNobodyElse(w, i))
  {
    var r := Leave(w, i);
    assert forall x, j :: x != i ==> (Hooks(w, x, j) <==> Hooks(r, x, j));
    assert forall j :: !Hooks(r, i, j);
    if !ListedNowhereElse(w, i) {
      var j :| 0 <= j < MAX_CLIENTS && j != i && w[j].Used? && i in w[j].core.attached;
      assert Hooks(w, i, j) && r[j].Used? && i in r[j].core.attached;
    }
    if HookersListed(w) && !HoldsNobodyElse(w, i) {
      assert Hooks(w, i, w[i].core.hooked);
    }
  }

  function LetGo(w: World, i: nat): (r: World)
    requires Present(w, i)
    ensures Present(r, i) && r[i].core.hooked == -1
  {
    if w[i].core.hooked != -1 then Release(w, i) else w
  }

  lemma LetGoKeeps(w: World, i: nat)
    requires Present(w, i)
    ensures Keeps(w, LetGo(w, i), i)
  {
    hide Keeps, Release;
    KeepsSame(w, i);
    ReleaseKeeps(w, i);
  }

  /** For the others a pause is letting go and leaving, in either order. */
  lemma PauseLetsGo(w: World, i: nat)
    requires Present(w, i)
    ensures Pause(w, i) == Leave(LetGo(w, i), i)
    ensures Paused(w[i].core) == LetGo(w, i)[i].core.(attached := w[i].core.attached)
  {
    hide SetHookedPlayer;
    var p, r := Pause(w, i), Leave(LetGo(w, i), i);
    SetHookedAt(w, i, -1, i);
    forall j: nat | j < MAX_CLIENTS
      ensures p[j] == r[j]
    {
      SetHookedAt(w, i, -1, j);
    }
  }

  /** A pause lets go, so it always keeps the relation. */
  lemma PauseKeeps(w: World, i: nat)
    requires Present(w, i) && Rel(w)
    ensures Rel(Pause(w, i))
    ensures HookersListed(w) ==> HookersListed(Pause(w, i))
  {
    hide LetGo, Leave, Pause, Rel, HookersListed;
    PauseLetsGo(w, i);
    LetGoKeeps(w, i);
    FreeIsListedNowhere(LetGo(w, i), i);
    LeaveKeeps(LetGo(w, i), i);
  }

  lemma FreeIsListedNowhere(w: World, i: nat)
    requires Present(w, i) && Rel(w) && w[i].core.hooked == -1
    ensures ListedNowhereElse(w, i)
  {
    forall j | 0 <= j < MAX_CLIENTS && j != i && w[j].Used?
      ensures i !in w[j].core.attached
    {
      assert i in w[j].core.attached ==> Hooks(w, i, j);
    }
  }

  /** The list that a core brings along tells only who hooks it. */
  ghost predicate BringsTrueList(w: World, i: nat, c: Core)
    requires i < MAX_CLIENTS && w[i].Empty? && IsPlayer(c.hooked)
  {
    forall x :: x in c.attached ==> Hooks(Join(w, i, c), x, i)
  }

  /** It tells all of them, and whom it holds itself lists it. */
  ghost predicate BringsFullList(w: World, i: nat, c: Core)
    requires i < MAX_CLIENTS && w[i].Empty? && IsPlayer(c.hooked)
  {
    var r := Join(w, i, c);
    && (forall x :: Hooks(r, x, i) ==> x in c.attached)
    && (c.id == i && c.hooked != -1 && r[c.hooked].Used? ==> i in r[c.hooked].core.attached)
  }

  /** When a core joins, each direction survives exactly if its own list is right. */
  lemma JoinKeeps(w: World, i: nat, c: Core)
    requires Possible(w, DoJoin(i, c)) && Rel(w)
    ensures Rel(Join(w, i, c)) <==> BringsTrueList(w, i, c)
    ensures HookersListed(w) ==> (HookersListed(Join(w, i, c)) <==> BringsFullList(w, i, c))
  {
    var r := Join(w, i, c);
    assert forall x, j :: x != i ==> (Hooks(w, x, j) <==> Hooks(r, x, j));
    assert forall j :: 0 <= j < MAX_CLIENTS && w[j].Used? ==> !Hooks(w, i, j) && i !in w[j].core.attached;
    assert c.id == i ==> Hooks(r, i, c.hooked);
    assert r[i].Used? && r[i].core == c;
  }

  /** A new character always keeps the relation, and keeps the lists full exactly if nobody
      still hooks its slot. */
  lemma SpawnKeeps(w: World, i: nat)
    requires i < MAX_CLIENTS && w[i].Empty? && Rel(w)
    ensures Rel(Join(w, i, Spawned(i)))
    ensures HookersListed(w) ==> (HookersListed(Join(w, i, Spawned(i))) <==> forall x :: !Hooks(w, x, i))
  {
    JoinKeeps(w, i, Spawned(i));
    var r := Join(w, i, Spawned(i));
    assert forall x :: Hooks(r, x, i) <==> Hooks(w, x, i);
  }

  /** A paused core keeps its list, and whoever held it lets go of an empty slot without
      striking itself from that list: so coming back with it breaks the relation. */
  lemma PausedListGoesStale(w: World, i: nat, j: nat, inp: Input)
    requires Rel(w) && HookersListed(w) && Present(w, i) && Present(w, j) && Hooks(w, j, i) && i != j
    requires GoodCore(w[j].core) && ValidInput(inp) && !inp.mounted
    ensures Present(Pause(w, i), j)
    ensures
      var v := Tick(Pause(w, i), j, inp);
      Rel(v) && v[i].Empty? && !Rel(Join(v, i, Paused(w[i].core)))
  {
    hide Tick, LetGo, Pause, HookersListed, AttachedHook;
    var c, p := Paused(w[i].core), Pause(w, i);
    PauseLetsGo(w, i);
    LetGoKeeps(w, i);
    PauseKeeps(w, i);
    ListedAt(w, j, i);
    TickReleases(p, j, i, inp);
    var v := Tick(p, j, inp);
    TickKeeps(p, j, inp);
    JoinKeeps(v, i, c);
    assert !Hooks(Join(v, i, c), j, i);
  }

  lemma ListedAt(w: World, x: int, j: nat)
    requires HookersListed(w) && j < MAX_CLIENTS && w[j].Used? && Hooks(w, x, j)
    ensures x in w[j].core.attached
  {
  }

  /** The hook of a player who is no longer there ends with the next tick. */
  lemma TickReleases(w: World, j: nat, i: nat, inp: Input)
    requires Present(w, j) && ValidInput(inp) && GoodCore(w[j].core) && !inp.mounted
    requires w[j].core.hooked == i < MAX_CLIENTS && w[i].Empty?
    ensures Tick(w, j, inp)[j].core.hooked == -1
  {
    TickHook(w, j, inp);
  }

  /** Core 1 holds core 0. */
  function HookedPair(): World {
    var empty: seq<Slot> := seq(MAX_CLIENTS, _ => Empty);
    empty[0 := Used(Spawned(0).(attached := {1}))]
         [1 := Used(Spawned(1).(hookState := HOOK_GRABBED, hookTick := 1, hooked := 0))]
  }

  lemma PairIsExact()
    ensures Rel(HookedPair()) && HookersListed(HookedPair())
  {
  }

  /** The reset of core 0 leaves a hook without an entry, and core 1 leaving an entry without
      a hook. */
  lemma PairShowsFailures()
    ensures !HookersListed(Reset(HookedPair(), 0))
    ensures !Rel(Leave(HookedPair(), 1))
  {
    hide Reset, Leave, Rel, HookersListed;
    PairIsExact();
    var w := HookedPair();
    assert 1 in w[0].core.attached && 1 != 0;
    ResetKeeps(w, 0);
    LeaveKeeps(w, 1);
  }

  // ----- the hook state of a core

  predicate StateRange(state: int) {
    HOOK_RETRACTED <= state <= HOOK_GRABBED
  }

  /** The state is one of the seven, and who holds a player has grabbed and is in time. */
  predicate GoodHook(state: int, hooked: int, tick: int) {
    StateRange(state) && (hooked != -1 ==> state == HOOK_GRABBED && tick <= HOOK_LIMIT)
  }

  predicate GoodCore(c: Core) {
    GoodHook(c.hookState, c.hooked, c.hookTick)
  }

  ghost predicate GoodWorld(w: World) {
    forall i: nat :: i < MAX_CLIENTS && w[i].Used? ==> GoodCore(w[i].core)
  }

  /** The core that the scan sees differs from the one before the tick in nothing that
      decides who can be hooked. */
  lemma {:induction false} NearestSame(w: World, v: World, i: nat, inp: Input, n: nat)
    requires Present(w, i) && Present(v, i) && ValidInput(inp) && n <= MAX_CLIENTS && OnlyOf(w, v, i)
    ensures Nearest(w, i, inp, n) == Nearest(v, i, inp, n)
  {
    if n > 0 {
      NearestSame(w, v, i, inp, n - 1);
      assert Candidate(w, i, inp, n - 1) <==> Candidate(v, i, inp, n - 1);
    }
  }

  /** The hook is on its way this tick, and the scan for players is made. */
  predicate Scans(c: Core, inp: Input) {
    && (c.hookState == HOOK_FLYING || (c.hookState == HOOK_IDLE && inp.useInput))
    && (inp.useInput ==> inp.hook)
    && !c.hookHitDisabled && inp.playerHooking && (!inp.tooFar || !c.newHook)
  }

  /** The tick counter of the hook when a player is grabbed this tick. */
  function GrabTick(c: Core, inp: Input): int {
    if c.hookState == HOOK_IDLE then inp.launchTick else c.hookTick
  }

  /** Whether a player hooked with the counter at `tick` is still held after `Hold`. */
  predicate Held(w: World, i: nat, inp: Input, h: int, tick: int)
    requires Present(w, i) && 0 <= h < MAX_CLIENTS
  {
    w[h].Used? && w[i].core.id != -1 && inp.canKeepHook && tick < HOOK_LIMIT
  }

  lemma HoldOwn(w: World, i: nat, inp: Input)
    requires Present(w, i) && w[i].core.hookState == HOOK_GRABBED
    ensures
      var c, d := w[i].core, Deferred(Hold(w, i, inp), i, inp)[i].core;
      && GoodCore(d)
      && d.hookTick == c.hookTick + 1
      && d.hooked == (if c.hooked != -1 && Held(w, i, inp, c.hooked, c.hookTick) then c.hooked else -1)
      && d.hookState == (if c.hooked != -1 && d.hooked == -1 then HOOK_RETRACTED else HOOK_GRABBED)
  {
    hide SetHookedPlayer;
  }

  lemma TickHolding(w: World, i: nat, inp: Input)
    requires Present(w, i) && ValidInput(inp) && GoodCore(w[i].core) && !inp.mounted
    requires w[i].core.hooked != -1
    ensures
      var c, d := w[i].core, Tick(w, i, inp)[i].core;
      && GoodCore(d)
      && d.hooked == (if (inp.useInput ==> inp.hook) && Held(w, i, inp, c.hooked, c.hookTick) then c.hooked else -1)
      && (d.hooked != -1 ==> d.hookTick == c.hookTick + 1)
      && d.hookState == (if inp.useInput && !inp.hook then HOOK_IDLE
                         else if d.hooked == -1 then HOOK_RETRACTED else HOOK_GRABBED)
  {
    if inp.useInput ==> inp.hook {
      HoldOwn(w, i, inp);
    } else {
      ReleasedTick(w, i, inp);
    }
  }

  /** Without the button there is no hook. */
  lemma ReleasedTick(w: World, i: nat, inp: Input)
    requires Present(w, i) && ValidInput(inp) && !inp.mounted && inp.useInput && !inp.hook
    ensures Tick(w, i, inp)[i].core.hookState == HOOK_IDLE && Tick(w, i, inp)[i].core.hooked == -1
  {
    hide SetHookedPlayer;
  }

  /** The state in which a hook in flight that takes no player goes on. */
  function StateAhead(inp: Input): int {
    if inp.tooFar then HOOK_RETRACT_START
    else
      match inp.ahead
      case Ground => HOOK_GRABBED
      case NoHook => HOOK_RETRACT_START
      case _ => HOOK_FLYING
  }

  /** The player a hook takes this tick, whether or not it can be kept. */
  function Taken(w: World, i: nat, inp: Input): int
    requires Present(w, i) && ValidInput(inp)
  {
    if Scans(w[i].core, inp) then Nearest(w, i, inp, MAX_CLIENTS) else -1
  }

  /** The state after a tick of a hook that holds nobody before it. */
  function FreeStateAfter(w: World, i: nat, inp: Input): int
    requires Present(w, i) && ValidInput(inp)
  {
    var c := w[i].core;
    if inp.useInput && !inp.hook then HOOK_IDLE
    else if c.hookState == HOOK_FLYING || (c.hookState == HOOK_IDLE && inp.useInput) then
      var j := Taken(w, i, inp);
      if j == -1 then StateAhead(inp)
      else if Held(w, i, inp, j, GrabTick(c, inp)) then HOOK_GRABBED else HOOK_RETRACTED
    else if HOOK_RETRACT_START <= c.hookState < HOOK_RETRACT_END then c.hookState + 1
    else if c.hookState == HOOK_RETRACT_END then HOOK_RETRACTED
    else c.hookState
  }

  /** Where a free hook in flight ends: with the nearest candidate, or without a player. */
  lemma FlyOwn(w: World, i: nat, inp: Input)
    requires Present(w, i) && ValidInput(inp)
    requires w[i].core.hookState == HOOK_FLYING && w[i].core.hooked == -1
    ensures
      var c, d, j := w[i].core, Fly(w, i, inp)[i].core, Nearest(w, i, inp, MAX_CLIENTS);
      && StateRange(d.hookState) && d.hookTick == c.hookTick && d.id == c.id
      && d.hooked == (if !c.hookHitDisabled && inp.playerHooking && (!inp.tooFar || !c.newHook) then j else -1)
      && d.hookState == (if d.hooked != -1 then HOOK_GRABBED else StateAhead(inp))
  {
    hide SetHookedPlayer, Nearest, ScanTo;
    var a := SetState(w, i, HOOK_RETRACT_START);
    SetStateKeeps(w, i, HOOK_RETRACT_START);
    ScanToOwn(w, i, inp, MAX_CLIENTS);
    ScanToOwn(a, i, inp, MAX_CLIENTS);
    NearestSame(w, a, i, inp, MAX_CLIENTS);
  }

  lemma TickFree(w: World, i: nat, inp: Input)
    requires Present(w, i) && ValidInput(inp) && GoodCore(w[i].core) && !inp.mounted
    requires w[i].core.hooked == -1
    ensures
      var c, d, j := w[i].core, Tick(w, i, inp)[i].core, Nearest(w, i, inp, MAX_CLIENTS);
      && GoodCore(d)
      && d.hooked == (if Scans(c, inp) && j != -1 && Held(w, i, inp, j, GrabTick(c, inp)) then j else -1)
      && d.hookState == FreeStateAfter(w, i, inp)
  {
    hide SetHookedPlayer, Nearest, HandleInput, Tick, Held, StateAhead;
    if inp.useInput && !inp.hook {
      ReleasedTick(w, i, inp);
    } else {
      var a := HandleInput(w, i, inp);
      LaunchOwn(w, i, inp);
      if a[i].core.hookState == HOOK_FLYING {
        FlyingTick(w, a, i, inp);
      } else {
        WaitingTick(w, a, i, inp);
      }
    }
  }

  /** The tick of a free hook that is not in flight once the input `a` is handled. */
  lemma WaitingTick(w: World, a: World, i: nat, inp: Input)
    requires Present(w, i) && ValidInput(inp) && !inp.mounted && a == HandleInput(w, i, inp)
    requires a[i].core.hooked == -1 && StateRange(a[i].core.hookState) && a[i].core.hookState != HOOK_FLYING
    ensures
      var s, d := a[i].core.hookState, Tick(w, i, inp)[i].core;
      && GoodCore(d) && d.hooked == -1
      && d.hookState == if HOOK_RETRACT_START <= s < HOOK_RETRACT_END then s + 1
                        else if s == HOOK_RETRACT_END then HOOK_RETRACTED else s
  {
    hide SetHookedPlayer, Hold, HandleInput;
    if a[i].core.hookState == HOOK_GRABBED {
      HoldOwn(a, i, inp);
    }
  }

  lemma LaunchOwn(w: World, i: nat, inp: Input)
    requires Present(w, i) && (inp.useInput ==> inp.hook) && w[i].core.hooked == -1
    ensures
      var c, r := w[i].core, HandleInput(w, i, inp);
      && OnlyOf(w, r, i) && r[i].core.hooked == -1 && r[i].core.newHook == c.newHook
      && r[i].core.hookState == (if c.hookState == HOOK_IDLE && inp.useInput then HOOK_FLYING else c.hookState)
      && (inp.useInput ==> r[i].core.hookTick == GrabTick(c, inp))
      && (c.hookState != HOOK_IDLE ==> r[i].core.hookTick == c.hookTick)
  {
    HandleInputKeeps(w, i, inp);
  }

  /** The tick of a free hook that is in flight once the input `a` is handled. */
  lemma FlyingTick(w: World, a: World, i: nat, inp: Input)
    requires Present(w, i) && ValidInput(inp) && !inp.mounted && a == HandleInput(w, i, inp) && OnlyOf(w, a, i)
    requires a[i].core.hookState == HOOK_FLYING && a[i].core.hooked == -1
    ensures
      var c, d, j := a[i].core, Tick(w, i, inp)[i].core, Nearest(w, i, inp, MAX_CLIENTS);
      && GoodCore(d)
      && var takes := !c.hookHitDisabled && inp.playerHooking && (!inp.tooFar || !c.newHook) && j != -1;
         && d.hooked == (if takes && Held(w, i, inp, j, c.hookTick) then j else -1)
         && d.hookState == (if !takes then StateAhead(inp)
                            else if Held(w, i, inp, j, c.hookTick) then HOOK_GRABBED else HOOK_RETRACTED)
  {
    hide SetHookedPlayer, Nearest, Fly, Hold, HandleInput;
    var b := Fly(a, i, inp);
    NearestSame(w, a, i, inp, MAX_CLIENTS);
    FlyOwn(a, i, inp);
    FlyKeeps(a, i, inp);
    if b[i].core.hookState == HOOK_GRABBED {
      HoldOwn(b, i, inp);
      var j := b[i].core.hooked;
      assert j != -1 ==> (Held(b, i, inp, j, b[i].core.hookTick) <==> Held(w, i, inp, j, a[i].core.hookTick));
    }
  }

  /** A tick keeps a good core good; a free hook takes exactly the nearest candidate, and
      only if it can be kept; a held player stays exactly as long as the button, the rules
      and the time allow, and the time runs. */
  lemma TickHook(w: World, i: nat, inp: Input)
    requires Present(w, i) && ValidInput(inp) && GoodCore(w[i].core) && !inp.mounted
    ensures
      var c, d, j := w[i].core, Tick(w, i, inp)[i].core, Nearest(w, i, inp, MAX_CLIENTS);
      && GoodCore(d)
      && (c.hooked == -1 ==>
            d.hooked == if Scans(c, inp) && j != -1 && Held(w, i, inp, j, GrabTick(c, inp)) then j else -1)
      && (c.hooked != -1 ==>
            d.hooked == if (inp.useInput ==> inp.hook) && Held(w, i, inp, c.hooked, c.hookTick) then c.hooked else -1)
      && (c.hooked != -1 && d.hooked != -1 ==> d.hookTick == c.hookTick + 1)
      && (c.hooked == -1 ==> d.hookState == FreeStateAfter(w, i, inp))
      && (c.hooked != -1 ==>
            d.hookState == if inp.useInput && !inp.hook then HOOK_IDLE
                           else if d.hooked == -1 then HOOK_RETRACTED else HOOK_GRABBED)
  {
    if w[i].core.hooked != -1 {
      TickHolding(w, i, inp);
    } else {
      TickFree(w, i, inp);
    }
  }

  // ----- over whole runs

  /** Through every run, as long as nobody listed leaves and who joins brings a true list,
      whoever is listed as attached to a core hooks it. */
  lemma {:induction false} AttachedHookOverRun(worlds: seq<World>, actions: seq<Action>, k: nat)
    requires Run(worlds, actions) && k < |worlds| && Rel(worlds[0])
    requires forall m :: 0 <= m < k ==> Safe(worlds[m], actions[m])
    ensures Rel(worlds[k])
  {
    hide Apply, Possible, Safe, Rel, HookersListed;
    if k > 0 {
      AttachedHookOverRun(worlds, actions, k - 1);
      ActionKeepsRel(worlds[k - 1], actions[k - 1]);
    }
  }

  /** An action keeps the relation exactly if it is safe for it; every tick, read, reset and
      pause is. */
  lemma ActionKeepsRel(w: World, a: Action)
    requires Rel(w) && Possible(w, a)
    ensures Rel(Apply(w, a)) <==> Safe(w, a)
    ensures HookersListed(w) ==> (HookersListed(Apply(w, a)) <==> ListSafe(w, a))
  {
    hide Tick, Read, Reset, ReadFlags, Release, Leave, Pause, Join, Rel, HookersListed;
    match a {
      case DoTick(i, inp) => TickKeeps(w, i, inp);
      case DoRead(i, snap) => ReadKeeps(w, i, snap);
      case DoReset(i) => ResetKeeps(w, i);
      case DoReadFlags(i, solo, super, hookHitDisabled) => ReadFlagsKeeps(w, i, solo, super, hookHitDisabled);
      case DoRelease(i) => ReleaseKeeps(w, i);
      case DoLeave(i) => LeaveKeeps(w, i);
      case DoPause(i) => PauseKeeps(w, i);
      case DoJoin(i, c) => JoinKeeps(w, i, c);
    }
  }

  /** Nobody listed leaves, and who joins brings a true list. */
  ghost predicate Safe(w: World, a: Action)
    requires Possible(w, a)
  {
    match a
    case DoLeave(i) => ListedNowhereElse(w, i)
    case DoJoin(i, c) => BringsTrueList(w, i, c)
    case _ => true
  }

  /** Nobody hooked by another core is reset, and who joins brings a full list. */
  ghost predicate ListSafe(w: World, a: Action)
    requires Possible(w, a)
  {
    match a
    case DoReset(i) => OnlySelfAttached(w, i)
    case DoJoin(i, c) => BringsFullList(w, i, c)
    case _ => true
  }

  /** No other core hooks `i`, as its list says. */
  ghost predicate OnlySelfAttached(w: World, i: nat)
    requires Present(w, i)
  {
    forall x :: x in w[i].core.attached ==> x == i
  }

  /** While moreover no core is reset that another one hooks, and who joins brings a full
      list, the lists are exactly the hooks. */
  lemma {:induction false} ExactInverseOverRun(worlds: seq<World>, actions: seq<Action>, k: nat)
    requires Run(worlds, actions) && k < |worlds| && Rel(worlds[0]) && HookersListed(worlds[0])
    requires forall m :: 0 <= m < k ==> Safe(worlds[m], actions[m]) && ListSafe(worlds[m], actions[m])
    ensures forall j, x :: 0 <= j < MAX_CLIENTS && worlds[k][j].Used? ==>
              (x in worlds[k][j].core.attached <==> Hooks(worlds[k], x, j))
  {
    ListedOverRun(worlds, actions, k);
    AttachedHookOverRun(worlds, actions, k);
  }

  lemma {:induction false} ListedOverRun(worlds: seq<World>, actions: seq<Action>, k: nat)
    requires Run(worlds, actions) && k < |worlds| && Rel(worlds[0]) && HookersListed(worlds[0])
    requires forall m :: 0 <= m < k ==> Safe(worlds[m], actions[m]) && ListSafe(worlds[m], actions[m])
    ensures HookersListed(worlds[k])
  {
    hide Apply, Possible, Safe, ListSafe, Rel, HookersListed;
    if k > 0 {
      ListedOverRun(worlds, actions, k - 1);
      AttachedHookOverRun(worlds, actions, k - 1);
      ActionKeepsRel(worlds[k - 1], actions[k - 1]);
    }
  }

  predicate GoodAction(a: Action) {
    && (a.DoRead? ==> GoodHook(a.snap.hookState, a.snap.hooked, a.snap.hookTick))
    && (a.DoJoin? ==> GoodCore(a.core))
  }

  /** In every run whose snapshots are those of good cores, the states stay in range, only a
      grabbing hook holds a player, and none longer than the limit. */
  lemma {:induction false} GoodOverRun(worlds: seq<World>, actions: seq<Action>, k: nat)
    requires Run(worlds, actions) && k < |worlds| && GoodWorld(worlds[0])
    requires forall m :: 0 <= m < |actions| ==> GoodAction(actions[m])
    ensures GoodWorld(worlds[k])
  {
    if k > 0 {
      GoodOverRun(worlds, actions, k - 1);
      ActionKeepsGood(worlds[k - 1], actions[k - 1]);
    }
  }

  /** What an action leaves of the other cores. */
  lemma ActionOnlyOf(w: World, a: Action, k: nat)
    requires Possible(w, a) && k < MAX_CLIENTS
    ensures
      var r := Apply(w, a);
      && (k != a.i || !(a.DoLeave? || a.DoPause? || a.DoJoin?) ==> (w[k].Used? <==> r[k].Used?))
      && (w[k].Used? && k != a.i ==> r[k].core == w[k].core.(attached := r[k].core.attached))
  {
    hide Tick, Read, Release, LetGo, Pause, SetHookedPlayer;
    match a {
      case DoTick(i, inp) => TickKeeps(w, i, inp);
      case DoRead(i, snap) => ReadKeeps(w, i, snap);
      case DoRelease(i) => ReleaseKeeps(w, i);
      case DoPause(i) =>
        PauseLetsGo(w, i);
        LetGoKeeps(w, i);
      case DoReset(i) =>
        SetHookedAt(w[i := Used(w[i].core.(newHook := false, hookTick := 0, hookState := HOOK_IDLE))], i, -1, k);
      case _ =>
    }
  }

  lemma ActionKeepsGood(w: World, a: Action)
    requires GoodWorld(w) && Possible(w, a) && GoodAction(a)
    ensures GoodWorld(Apply(w, a))
  {
    hide Tick, SetHookedPlayer;
    if a.DoTick? && !a.inp.mounted {
      TickHook(w, a.i, a.inp);
    }
    forall k: nat | k < MAX_CLIENTS && Apply(w, a)[k].Used?
      ensures GoodCore(Apply(w, a)[k].core)
    {
      ActionOnlyOf(w, a, k);
      if a.DoTick? && a.inp.mounted {
        assert Apply(w, a) == w by { MountedTick(w, a.i, a.inp); }
      }
    }
  }

  lemma MountedTick(w: World, i: nat, inp: Input)
    requires Present(w, i) && ValidInput(inp) && inp.mounted
    ensures Tick(w, i, inp) == w
  {
  }

  predicate TickOf(a: Action, i: nat) {
    a.DoTick? && a.i == i && !a.inp.mounted
  }

  /** The ticks of core `i` among the actions in which it is not mounted. */
  function TicksOf(actions: seq<Action>, i: nat): nat {
    if actions == [] then 0
    else
      var last := actions[|actions| - 1];
      TicksOf(actions[..|actions| - 1], i) + if TickOf(last, i) then 1 else 0
  }

  lemma HeldStep(w: World, a: Action, i: nat)
    requires Possible(w, a) && i < MAX_CLIENTS && w[i].Used? && GoodCore(w[i].core)
    requires w[i].core.hooked != -1 && Apply(w, a)[i].Used? && Apply(w, a)[i].core.hooked != -1
    requires a.i == i ==> !a.DoRead?
    ensures Apply(w, a)[i].core.hookTick == w[i].core.hookTick + if TickOf(a, i) then 1 else 0
  {
    hide Tick;
    ActionOnlyOf(w, a, i);
    if a.i == i && a.DoTick? {
      if a.inp.mounted {
        MountedTick(w, i, a.inp);
      } else {
        TickHook(w, i, a.inp);
      }
    }
  }

  /** While a core holds a player, whatever the other cores do, each of its ticks uses up one
      of the ticks that are left, so there are at most `HOOK_LIMIT - hookTick` of them. */
  lemma {:induction false} HeldTicksBounded(worlds: seq<World>, actions: seq<Action>, i: nat)
    requires Run(worlds, actions) && i < MAX_CLIENTS
    requires forall k :: 0 <= k < |worlds| ==>
               GoodWorld(worlds[k]) && worlds[k][i].Used? && worlds[k][i].core.hooked != -1
    requires forall k :: 0 <= k < |actions| && actions[k].i == i ==> !actions[k].DoRead?
    ensures worlds[|actions|][i].core.hookTick == worlds[0][i].core.hookTick + TicksOf(actions, i)
    ensures TicksOf(actions, i) <= HOOK_LIMIT - worlds[0][i].core.hookTick
    decreases |actions|
  {
    hide Apply;
    if actions != [] {
      var n := |actions| - 1;
      HeldTicksBounded(worlds[..n + 1], actions[..n], i);
      assert worlds[n + 1] == Apply(worlds[n], actions[n]);
      HeldStep(worlds[n], actions[n], i);
    }
    assert GoodCore(worlds[|actions|][i].core);
  }
}
