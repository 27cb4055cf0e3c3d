/**
 * The main process's module-level state and its event handlers: the panel
 * window (only whether it exists, is destroyed, is visible, and where it
 * is), the tray and shortcut handles, and `activeAnimations` with the
 * closures of the intervals that are still scheduled. Every Electron call
 * is reduced to its effect on that state.
 */
module PanelController {
  import opened Animation

  const PanelWidth: int := 280
  const PanelHeight: int := 500
  const Margin: int := 10

  datatype Geometry = Geometry(visibleX: int, hiddenX: int, yPos: int)

  /** The positions `createWindow` computes from the work-area width: the
      shown panel sits `Margin` from the right edge, the hidden one `Margin`
      past it. */
  function GeometryFor(screenWidth: int): (g: Geometry)
    ensures g.visibleX + PanelWidth + Margin == screenWidth
    ensures g.hiddenX == screenWidth + Margin
    ensures g.yPos == Margin
    ensures g.hiddenX - g.visibleX == PanelWidth + 2 * Margin == 300
  {
    Geometry(screenWidth - PanelWidth - Margin, screenWidth + Margin, Margin)
  }

  /** For the panel's two positions the step is exactly 15 pixels, so every
      position an animation writes is an exact integer. */
  lemma {:induction false} PanelStepIsFifteen(screenWidth: int, k: nat)
    requires k <= Steps
    ensures var g := GeometryFor(screenWidth);
            && StepSize(g.visibleX, g.hiddenX) == 15.0
            && StepSize(g.hiddenX, g.visibleX) == -15.0
            && Round(Pos(g.visibleX, g.hiddenX, k)) == g.visibleX + 15 * k
            && Round(Pos(g.hiddenX, g.visibleX, k)) == g.hiddenX - 15 * k
  {
    var g := GeometryFor(screenWidth);
    assert Pos(g.visibleX, g.hiddenX, k) == (g.visibleX + 15 * k) as real;
    assert Pos(g.hiddenX, g.visibleX, k) == (g.hiddenX - 15 * k) as real;
    RoundOfInteger(g.visibleX + 15 * k);
    RoundOfInteger(g.hiddenX - 15 * k);
  }

  /** `mainWindow`: null, a live window, or a destroyed one not yet released. */
  datatype Window = NoWindow | Alive(visible: bool, x: int, y: int) | Destroyed

  /** The `onComplete` callbacks the handlers pass: none, hide the window, or destroy it. */
  datatype Callback = NoCallback | HideCallback | DestroyCallback

  /** A scheduled interval: the closure state and its callback. */
  datatype Job = Job(anim: Anim, onComplete: Callback)

  /** `activeAnimations.filter(interval => interval !== id)`. */
  function Without(s: seq<nat>, id: nat): (r: seq<nat>)
    ensures |r| <= |s|
  {
    if s == [] then []
    else (if s[0] == id then [] else [s[0]]) + Without(s[1..], id)
  }

  predicate NoDuplicates(s: seq<nat>)
  {
    forall i, j | 0 <= i < j < |s| :: s[i] != s[j]
  }

  /** An id survives the filter exactly when it was listed and is not the one removed. */
  lemma {:induction false} WithoutMembership(s: seq<nat>, id: nat, x: nat)
    ensures x in Without(s, id) <==> x in s && x != id
  {
    if s != [] {
      WithoutMembership(s[1..], id, x);
      assert s == [s[0]] + s[1..];
    }
  }

  /** Filtering out an id that is not listed changes nothing. */
  lemma {:induction false} WithoutAbsent(s: seq<nat>, id: nat)
    requires id !in s
    ensures Without(s, id) == s
  {
    if s != [] {
      WithoutAbsent(s[1..], id);
    }
  }

  /** Filtering distributes over concatenation. */
  lemma {:induction false} WithoutConcat(a: seq<nat>, b: seq<nat>, id: nat)
    ensures Without(a + b, id) == Without(a, id) + Without(b, id)
  {
    if a == [] {
      assert a + b == b;
    } else {
      assert (a + b)[0] == a[0];
      assert (a + b)[1..] == a[1..] + b;
      WithoutConcat(a[1..], b, id);
    }
  }

  /** In a list without duplicates, removing the id at index `k` drops
      exactly that element; the others keep their order and stay distinct. */
  lemma WithoutRemovesOne(s: seq<nat>, k: nat)
    requires NoDuplicates(s) && k < |s|
    ensures Without(s, s[k]) == s[..k] + s[k + 1..]
  {
    UniqueAt(s, k);
    assert s == s[..k] + [s[k]] + s[k + 1..];
    WithoutSplit(s[..k], s[k], s[k + 1..]);
  }

  /** The element at `k` of a duplicate-free list occurs nowhere else. */
  lemma UniqueAt(s: seq<nat>, k: nat)
    requires NoDuplicates(s) && k < |s|
    ensures s[k] !in s[..k] && s[k] !in s[k + 1..]
  {
    forall i | 0 <= i < k ensures s[..k][i] != s[k] {
      assert s[..k][i] == s[i];
    }
    var post := s[k + 1..];
    forall i | 0 <= i < |post| ensures post[i] != s[k] {
      assert post[i] == s[k + 1 + i];
    }
  }

  lemma WithoutSplit(pre: seq<nat>, id: nat, post: seq<nat>)
    requires id !in pre && id !in post
    ensures Without(pre + [id] + post, id) == pre + post
  {
    var mid := pre + [id];
    WithoutConcat(mid, post, id);
    WithoutConcat(pre, [id], id);
    WithoutSingle(id);
    WithoutAbsent(pre, id);
    WithoutAbsent(post, id);
    assert Without(mid, id) == pre;
  }

  lemma WithoutSingle(id: nat)
    ensures Without([id], id) == []
  {
    assert [id][1..] == [];
  }

  /** Dropping one element keeps a list free of duplicates. */
  lemma DropKeepsDistinct(s: seq<nat>, k: nat)
    requires NoDuplicates(s) && k < |s|
    ensures NoDuplicates(s[..k] + s[k + 1..])
  {
    var r := s[..k] + s[k + 1..];
    forall i, j | 0 <= i < j < |r| ensures r[i] != r[j] {
      var i' := if i < k then i else i + 1;
      var j' := if j < k then j else j + 1;
      assert r[i] == s[i'] && r[j] == s[j'];
    }
  }

  /** The window after the `setPosition` calls of one tick (the last write wins). */
  function AfterWrites(w: Window, writes: seq<int>, y: int): (r: Window)
    ensures writes == [] || !w.Alive? ==> r == w
    ensures writes != [] && w.Alive? ==> r == Alive(w.visible, writes[|writes| - 1], y)
  {
    if w.Alive? && writes != [] then w.(x := writes[|writes| - 1], y := y) else w
  }

  /** The window after an `onComplete` callback: hiding hides a live window
      and keeps its position; destroying leaves any window reference
      destroyed; neither touches a missing window. */
  function AfterCallback(w: Window, cb: Callback): (r: Window)
    ensures cb.NoCallback? || w.NoWindow? ==> r == w
    ensures cb.HideCallback? ==> (w.Alive? ==> r == Alive(false, w.x, w.y)) && (!w.Alive? ==> r == w)
    ensures cb.DestroyCallback? && !w.NoWindow? ==> r == Destroyed
  {
    match cb
    case NoCallback => w
    case HideCallback => if w.Alive? then w.(visible := false) else w
    case DestroyCallback => if w.NoWindow? then w else Destroyed
  }

  /** Every scheduled interval is listed in `activeAnimations` exactly
      once, ids already handed out are below `nextId`, and no scheduled
      closure has seen its window gone (that tick clears it). */
  ghost predicate Tracked(active: seq<nat>, running: map<nat, Job>, nextId: nat)
  {
    && (forall id | id in running :: id in active && !running[id].anim.isDestroyed)
    && (forall i | 0 <= i < |active| :: active[i] in running && active[i] < nextId)
    && NoDuplicates(active)
  }

  /** Starting an interval under the next id keeps the bookkeeping consistent. */
  lemma TrackedAfterStart(active: seq<nat>, running: map<nat, Job>, nextId: nat, job: Job)
    requires Tracked(active, running, nextId) && !job.anim.isDestroyed
    ensures Tracked(active + [nextId], running[nextId := job], nextId + 1)
  {
    var a := active + [nextId];
    forall i, j | 0 <= i < j < |a| ensures a[i] != a[j] {
      if j == |active| {
        assert a[i] == active[i];
      } else {
        assert a[i] == active[i] && a[j] == active[j];
      }
    }
    forall i | 0 <= i < |a| ensures a[i] in running[nextId := job] && a[i] < nextId + 1 {
      if i < |active| {
        assert a[i] == active[i];
      }
    }
  }

  /** A tick that keeps the interval running keeps the bookkeeping consistent. */
  lemma TrackedAfterStep(active: seq<nat>, running: map<nat, Job>, nextId: nat, id: nat, job: Job)
    requires Tracked(active, running, nextId) && id in running && !job.anim.isDestroyed
    ensures Tracked(active, running[id := job], nextId)
  {
  }

  /** Clearing one interval and filtering its id out keeps the bookkeeping consistent. */
  lemma TrackedAfterClear(active: seq<nat>, running: map<nat, Job>, nextId: nat, id: nat)
    requires Tracked(active, running, nextId) && id in running
    ensures Tracked(Without(active, id), running - {id}, nextId)
  {
    var k :| 0 <= k < |active| && active[k] == id;
    WithoutRemovesOne(active, k);
    DropKeepsDistinct(active, k);
    var w := Without(active, id);
    forall x | x in running - {id} ensures x in w {
      WithoutMembership(active, id, x);
    }
    forall i | 0 <= i < |w| ensures w[i] in active && w[i] != id {
      WithoutMembership(active, id, w[i]);
    }
  }

  /** With the bookkeeping consistent, cancelling the listed intervals
      cancels every scheduled one: no interval outlives the teardown. */
  lemma ListedCoversRunning(active: seq<nat>, running: map<nat, Job>, nextId: nat)
    requires Tracked(active, running, nextId)
    ensures running - (set id | id in active) == map[]
  {
    var listed := set id | id in active;
    assert running.Keys <= listed;
    assert (running - listed).Keys == {};
  }

  class Panel {
    var window: Window
    /** visibleX, hiddenX and yPos; only meaningful once a window was created. */
    var geometry: Geometry
    var trayPresent: bool
    var shortcutsRegistered: bool
    var activeAnimations: seq<nat>
    /** The closures of the intervals still scheduled, by interval id. */
    var running: map<nat, Job>
    /** The next interval id the timer API will hand out. */
    var nextId: nat
    var exited: bool

    ghost predicate Valid()
      reads this
    {
      Tracked(activeAnimations, running, nextId)
    }

    /** The state when the main module is loaded. */
    constructor ()
      ensures Valid()
      ensures window == NoWindow && !trayPresent && !shortcutsRegistered && !exited
      ensures activeAnimations == [] && running == map[]
    {
      window := NoWindow;
      geometry := Geometry(0, 0, 0);
      trayPresent := false;
      shortcutsRegistered := false;
      activeAnimations := [];
      running := map[];
      nextId := 0;
      exited := false;
    }

    /** `createWindow`: compute the geometry and create the window hidden, off-screen. */
    method CreateWindow(screenWidth: int)
      requires Valid()
      modifies this
      ensures Valid()
      ensures geometry == GeometryFor(screenWidth)
      ensures window == Alive(false, geometry.hiddenX, geometry.yPos)
      ensures trayPresent == old(trayPresent) && shortcutsRegistered == old(shortcutsRegistered)
      ensures activeAnimations == old(activeAnimations) && running == old(running)
      ensures nextId == old(nextId) && exited == old(exited)
    {
      geometry := GeometryFor(screenWidth);
      window := Alive(false, geometry.hiddenX, geometry.yPos);
    }

    /** `app.whenReady()`: create the window and the tray, register the shortcuts. */
    method Startup(screenWidth: int)
      requires Valid() && !exited
      modifies this
      ensures Valid()
      ensures geometry == GeometryFor(screenWidth)
      ensures window == Alive(false, geometry.hiddenX, geometry.yPos)
      ensures trayPresent && shortcutsRegistered && !exited
      ensures activeAnimations == old(activeAnimations) && running == old(running) && nextId == old(nextId)
    {
      CreateWindow(screenWidth);
      trayPresent := true;
      shortcutsRegistered := true;
    }

    /** `animateWindow`: nothing when there is no window; otherwise schedule
        a new interval and append its id to `activeAnimations`. */
    method AnimateWindow(fromX: int, toX: int, cb: Callback) returns (started: bool)
      requires Valid()
      modifies this
      ensures Valid()
      ensures started <==> !old(window).NoWindow?
      ensures started ==> && activeAnimations == old(activeAnimations) + [old(nextId)]
                          && running == old(running)[old(nextId) := Job(Start(fromX, toX), cb)]
                          && nextId == old(nextId) + 1
      ensures !started ==> activeAnimations == old(activeAnimations) && running == old(running) && nextId == old(nextId)
      ensures window == old(window) && geometry == old(geometry) && exited == old(exited)
      ensures trayPresent == old(trayPresent) && shortcutsRegistered == old(shortcutsRegistered)
    {
      if window.NoWindow? {
        return false;
      }
      var id := nextId;
      TrackedAfterStart(activeAnimations, running, nextId, Job(Start(fromX, toX), cb));
      nextId := nextId + 1;
      running := running[id := Job(Start(fromX, toX), cb)];
      activeAnimations := activeAnimations + [id];
      started := true;
    }

    /** One firing of interval `id`: the pure tick decides the writes and
        the outcome; finishing, aborting or failing clears the interval and
        removes only its id; a finished animation runs its callback. */
    method Tick(id: nat, fault: Fault)
      requires Valid() && !exited && id in running
      modifies this
      ensures Valid()
      ensures var job := old(running[id]);
              var t := Animation.Tick(job.anim, Env(old(window).Alive?, fault));
              && (t.outcome.Running? ==>
                    && activeAnimations == old(activeAnimations)
                    && running == old(running)[id := job.(anim := t.next)])
              && (!t.outcome.Running? ==>
                    && activeAnimations == Without(old(activeAnimations), id)
                    && running == old(running) - {id})
              && window == AfterCallback(AfterWrites(old(window), t.writes, geometry.yPos),
                                         if t.outcome == Finished(true) then job.onComplete else NoCallback)
      ensures |activeAnimations| <= |old(activeAnimations)|
      ensures geometry == old(geometry) && nextId == old(nextId) && exited == old(exited)
      ensures trayPresent == old(trayPresent) && shortcutsRegistered == old(shortcutsRegistered)
    {
      var job := running[id];
      var t := Animation.Tick(job.anim, Env(window.Alive?, fault));
      window := AfterWrites(window, t.writes, geometry.yPos);
      if t.outcome.Running? {
        TrackedAfterStep(activeAnimations, running, nextId, id, job.(anim := t.next));
        running := running[id := job.(anim := t.next)];
      } else {
        TrackedAfterClear(activeAnimations, running, nextId, id);
        activeAnimations := Without(activeAnimations, id);
        running := running - {id};
        if t.outcome == Finished(true) {
          window := AfterCallback(window, job.onComplete);
        }
      }
    }

    /** The window's 'closed' event, after it was destroyed: release the reference. */
    method Closed()
      requires Valid() && !exited && window.Destroyed?
      modifies this
      ensures Valid()
      ensures window == NoWindow
      ensures activeAnimations == old(activeAnimations) && running == old(running) && nextId == old(nextId)
      ensures geometry == old(geometry) && exited == old(exited)
      ensures trayPresent == old(trayPresent) && shortcutsRegistered == old(shortcutsRegistered)
    {
      window := NoWindow;
    }

    /** 'ready-to-show': show the window and slide it in. */
    method ReadyToShow()
      requires Valid() && !exited
      modifies this
      ensures Valid()
      ensures old(window).Alive? ==> && window == old(window).(visible := true)
                                     && activeAnimations == old(activeAnimations) + [old(nextId)]
                                     && running == old(running)[old(nextId) := Job(Start(geometry.hiddenX, geometry.visibleX), NoCallback)]
      ensures !old(window).Alive? ==> window == old(window) && activeAnimations == old(activeAnimations) && running == old(running)
      ensures geometry == old(geometry) && exited == old(exited)
      ensures trayPresent == old(trayPresent) && shortcutsRegistered == old(shortcutsRegistered)
      ensures nextId == old(nextId) + (if old(window).Alive? then 1 else 0)
    {
      if window.Alive? {
        window := window.(visible := true);
        var _ := AnimateWindow(geometry.hiddenX, geometry.visibleX, NoCallback);
      }
    }

    /** The toggle shared by the tray click and the global shortcut: a
        visible window slides out and is hidden when the slide completes; a
        hidden one is shown and slides in. A missing or destroyed window is
        left alone (the tray handler returns early; the shortcut handler's
        `isVisible` call throws). */
    method Toggle()
      requires Valid() && !exited
      modifies this
      ensures Valid()
      ensures old(window).Alive? && old(window).visible ==>
                && window == old(window)
                && activeAnimations == old(activeAnimations) + [old(nextId)]
                && running == old(running)[old(nextId) := Job(Start(geometry.visibleX, geometry.hiddenX), HideCallback)]
      ensures old(window).Alive? && !old(window).visible ==>
                && window == old(window).(visible := true)
                && activeAnimations == old(activeAnimations) + [old(nextId)]
                && running == old(running)[old(nextId) := Job(Start(geometry.hiddenX, geometry.visibleX), NoCallback)]
      ensures !old(window).Alive? ==> window == old(window) && activeAnimations == old(activeAnimations) && running == old(running)
      ensures nextId == old(nextId) + (if old(window).Alive? then 1 else 0)
      ensures geometry == old(geometry) && exited == old(exited)
      ensures trayPresent == old(trayPresent) && shortcutsRegistered == old(shortcutsRegistered)
    {
      if !window.Alive? {
        return;
      }
      if window.visible {
        var _ := AnimateWindow(geometry.visibleX, geometry.hiddenX, HideCallback);
      } else {
        window := window.(visible := true);
        var _ := AnimateWindow(geometry.hiddenX, geometry.visibleX, NoCallback);
      }
    }

    /** A click on the tray icon. */
    method TrayClick()
      requires Valid() && !exited && trayPresent
      modifies this
      ensures Valid()
      ensures old(window).Alive? && old(window).visible ==>
                && window == old(window)
                && activeAnimations == old(activeAnimations) + [old(nextId)]
                && running == old(running)[old(nextId) := Job(Start(geometry.visibleX, geometry.hiddenX), HideCallback)]
      ensures old(window).Alive? && !old(window).visible ==>
                && window == old(window).(visible := true)
                && activeAnimations == old(activeAnimations) + [old(nextId)]
                && running == old(running)[old(nextId) := Job(Start(geometry.hiddenX, geometry.visibleX), NoCallback)]
      ensures !old(window).Alive? ==> window == old(window) && activeAnimations == old(activeAnimations) && running == old(running)
      ensures nextId == old(nextId) + (if old(window).Alive? then 1 else 0)
      ensures geometry == old(geometry) && exited == old(exited)
      ensures trayPresent == old(trayPresent) && shortcutsRegistered == old(shortcutsRegistered)
    {
      Toggle();
    }

    /** The global toggle shortcut. Its handler checks only that the window
        reference is set; on a destroyed window its `isVisible` call throws
        before anything changes, which leaves the state the tray handler's
        early return leaves. */
    method ToggleShortcut()
      requires Valid() && !exited && shortcutsRegistered
      modifies this
      ensures Valid()
      ensures old(window).Alive? && old(window).visible ==>
                && window == old(window)
                && activeAnimations == old(activeAnimations) + [old(nextId)]
                && running == old(running)[old(nextId) := Job(Start(geometry.visibleX, geometry.hiddenX), HideCallback)]
      ensures old(window).Alive? && !old(window).visible ==>
                && window == old(window).(visible := true)
                && activeAnimations == old(activeAnimations) + [old(nextId)]
                && running == old(running)[old(nextId) := Job(Start(geometry.hiddenX, geometry.visibleX), NoCallback)]
      ensures !old(window).Alive? ==> window == old(window) && activeAnimations == old(activeAnimations) && running == old(running)
      ensures nextId == old(nextId) + (if old(window).Alive? then 1 else 0)
      ensures geometry == old(geometry) && exited == old(exited)
      ensures trayPresent == old(trayPresent) && shortcutsRegistered == old(shortcutsRegistered)
    {
      Toggle();
    }

    /** The window's 'close' event: the close is prevented and becomes a
        slide out followed by a hide; the window is never destroyed here. */
    method CloseRequested()
      requires Valid() && !exited
      modifies this
      ensures Valid()
      ensures window == old(window)
      ensures old(window).Alive? ==> && activeAnimations == old(activeAnimations) + [old(nextId)]
                                     && running == old(running)[old(nextId) := Job(Start(geometry.visibleX, geometry.hiddenX), HideCallback)]
      ensures !old(window).Alive? ==> activeAnimations == old(activeAnimations) && running == old(running)
      ensures geometry == old(geometry) && exited == old(exited)
      ensures trayPresent == old(trayPresent) && shortcutsRegistered == old(shortcutsRegistered)
      ensures nextId == old(nextId) + (if old(window).Alive? then 1 else 0)
    {
      if window.Alive? {
        var _ := AnimateWindow(geometry.visibleX, geometry.hiddenX, HideCallback);
      }
    }

    /** The 'hide-window' (cb = hide) and 'close-window' (cb = destroy) requests
        from the renderer: slide out whenever there is a window reference. */
    method SlideOutRequest(destroy: bool)
      requires Valid() && !exited
      modifies this
      ensures Valid()
      ensures window == old(window)
      ensures !old(window).NoWindow? ==>
                && activeAnimations == old(activeAnimations) + [old(nextId)]
                && running == old(running)[old(nextId) :=
                     Job(Start(geometry.visibleX, geometry.hiddenX), if destroy then DestroyCallback else HideCallback)]
      ensures old(window).NoWindow? ==> activeAnimations == old(activeAnimations) && running == old(running)
      ensures geometry == old(geometry) && exited == old(exited)
      ensures trayPresent == old(trayPresent) && shortcutsRegistered == old(shortcutsRegistered)
      ensures nextId == old(nextId) + (if old(window).NoWindow? then 0 else 1)
    {
      if window.NoWindow? {
        return;
      }
      var _ := AnimateWindow(geometry.visibleX, geometry.hiddenX, if destroy then DestroyCallback else HideCallback);
    }

    /** The tray menu's "Show" item: acts only on a live window that is not visible. */
    method ShowMenuItem()
      requires Valid() && !exited && trayPresent
      modifies this
      ensures Valid()
      ensures old(window).Alive? && !old(window).visible ==>
                && window == old(window).(visible := true)
                && activeAnimations == old(activeAnimations) + [old(nextId)]
                && running == old(running)[old(nextId) := Job(Start(geometry.hiddenX, geometry.visibleX), NoCallback)]
      ensures !(old(window).Alive? && !old(window).visible) ==>
                window == old(window) && activeAnimations == old(activeAnimations) && running == old(running)
      ensures geometry == old(geometry) && exited == old(exited)
      ensures trayPresent == old(trayPresent) && shortcutsRegistered == old(shortcutsRegistered)
      ensures nextId == old(nextId) + (if old(window).Alive? && !old(window).visible then 1 else 0)
    {
      if window.Alive? && !window.visible {
        window := window.(visible := true);
        var _ := AnimateWindow(geometry.hiddenX, geometry.visibleX, NoCallback);
      }
    }

    /** The tray menu's "Hide" item: acts only on a live window that is visible. */
    method HideMenuItem()
      requires Valid() && !exited && trayPresent
      modifies this
      ensures Valid()
      ensures window == old(window)
      ensures old(window).Alive? && old(window).visible ==>
                && activeAnimations == old(activeAnimations) + [old(nextId)]
                && running == old(running)[old(nextId) := Job(Start(geometry.visibleX, geometry.hiddenX), HideCallback)]
      ensures !(old(window).Alive? && old(window).visible) ==>
                activeAnimations == old(activeAnimations) && running == old(running)
      ensures geometry == old(geometry) && exited == old(exited)
      ensures trayPresent == old(trayPresent) && shortcutsRegistered == old(shortcutsRegistered)
      ensures nextId == old(nextId) + (if old(window).Alive? && old(window).visible then 1 else 0)
    {
      if window.Alive? && window.visible {
        var _ := AnimateWindow(geometry.visibleX, geometry.hiddenX, HideCallback);
      }
    }

    /** `activeAnimations.forEach(clearInterval)` followed by
        `activeAnimations = []`: exactly the listed intervals are cancelled. */
    method ClearAnimations()
      modifies this
      ensures running == old(running) - (set id | id in old(activeAnimations))
      ensures activeAnimations == []
      ensures window == old(window) && geometry == old(geometry) && nextId == old(nextId) && exited == old(exited)
      ensures trayPresent == old(trayPresent) && shortcutsRegistered == old(shortcutsRegistered)
    {
      var i := 0;
      while i < |activeAnimations|
        invariant 0 <= i <= |activeAnimations|
        invariant activeAnimations == old(activeAnimations)
        invariant running == old(running) - (set id | id in activeAnimations[..i])
        invariant window == old(window) && geometry == old(geometry) && nextId == old(nextId) && exited == old(exited)
        invariant trayPresent == old(trayPresent) && shortcutsRegistered == old(shortcutsRegistered)
      {
        assert activeAnimations[..i + 1] == activeAnimations[..i] + [activeAnimations[i]];
        running := running - {activeAnimations[i]};
        i := i + 1;
      }
      assert activeAnimations[..i] == activeAnimations;
      activeAnimations := [];
    }

    /** The cleanup shared by the "Quit" menu item and 'will-quit': the
        window is destroyed and released, the listed intervals are cleared
        and the list emptied, the shortcuts unregistered and the tray
        destroyed. Because every scheduled interval is listed, none is left
        running. */
    method Teardown()
      requires Valid()
      modifies this
      ensures Valid()
      ensures window == NoWindow && activeAnimations == [] && running == map[]
      ensures !trayPresent && !shortcutsRegistered
      ensures geometry == old(geometry) && nextId == old(nextId) && exited == old(exited)
    {
      ListedCoversRunning(activeAnimations, running, nextId);
      ClearAnimations();
      window := NoWindow;
      shortcutsRegistered := false;
      trayPresent := false;
    }

    /** The tray menu's "Quit" item: full teardown, then process exit. */
    method QuitMenuItem()
      requires Valid() && !exited && trayPresent
      modifies this
      ensures Valid()
      ensures window == NoWindow && activeAnimations == [] && running == map[]
      ensures !trayPresent && !shortcutsRegistered && exited
    {
      Teardown();
      exited := true;
    }

    /** 'will-quit': the same teardown; the quit itself proceeds outside the model. */
    method WillQuit()
      requires Valid() && !exited
      modifies this
      ensures Valid()
      ensures window == NoWindow && activeAnimations == [] && running == map[]
      ensures !trayPresent && !shortcutsRegistered && !exited
    {
      Teardown();
    }

    /** The quit shortcut and the 'force-quit' request: `process.exit(0)`
        with no cleanup. */
    method ForceQuit()
      requires Valid() && !exited
      modifies this
      ensures Valid() && exited
      ensures window == old(window) && activeAnimations == old(activeAnimations) && running == old(running)
      ensures trayPresent == old(trayPresent) && shortcutsRegistered == old(shortcutsRegistered)
    {
      exited := true;
    }

    /** 'activate' (macOS): create a new window when none is open. */
    method Activate(screenWidth: int)
      requires Valid() && !exited
      modifies this
      ensures Valid()
      ensures !old(window).Alive? ==> geometry == GeometryFor(screenWidth) && window == Alive(false, geometry.hiddenX, geometry.yPos)
      ensures old(window).Alive? ==> window == old(window) && geometry == old(geometry)
      ensures activeAnimations == old(activeAnimations) && running == old(running) && exited == old(exited)
      ensures trayPresent == old(trayPresent) && shortcutsRegistered == old(shortcutsRegistered) && nextId == old(nextId)
    {
      if !window.Alive? {
        CreateWindow(screenWidth);
      }
    }

    /** 'window-all-closed': quit except on macOS. */
    method WindowAllClosed(isDarwin: bool)
      requires Valid() && !exited && !window.Alive?
      modifies this
      ensures Valid()
      ensures !isDarwin ==> window == NoWindow && activeAnimations == [] && running == map[] && exited
      ensures isDarwin ==> window == old(window) && activeAnimations == old(activeAnimations) && !exited
      ensures !isDarwin ==> !trayPresent && !shortcutsRegistered
      ensures isDarwin ==> && running == old(running) && geometry == old(geometry) && nextId == old(nextId)
                           && trayPresent == old(trayPresent) && shortcutsRegistered == old(shortcutsRegistered)
    {
      if !isDarwin {
        Teardown();
        exited := true;
      }
    }
  }
}
