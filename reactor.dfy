/**
 * The reactor of crates/swell/src/reactor.rs: the bookkeeping of the
 * applications, the window order and the known windows that
 * `Reactor::handle_event` keeps, and the recursive `calculate_layout` that
 * cuts the screen into one frame per window.
 */
module Reactors {
  import opened Types

  /** `WindowInfo`: what the reactor knows of a window. */
  datatype WindowInfo = WindowInfo(isStandard: bool, title: string, frame: Rect)

  /** `AppInfo`: what the reactor knows of an application. */
  datatype AppInfo = AppInfo(bundleId: Option<string>, localizedName: Option<string>)

  /** `Screen`: the frame of the main screen and the space it shows. */
  datatype Screen = Screen(frame: Rect, space: SpaceId)

  datatype Command = Hello | Shuffle

  /** `Event`, without the thread handle of a launched application. */
  datatype Event =
    | ApplicationLaunched(pid: Pid, info: AppInfo, windows: seq<(WindowId, WindowInfo)>)
    | ApplicationTerminated(pid: Pid)
    | ApplicationActivated(pid: Pid)
    | WindowCreated(wid: WindowId, window: WindowInfo)
    | WindowDestroyed(wid: WindowId)
    | WindowMoved(wid: WindowId, x: real, y: real)
    | WindowResized(wid: WindowId, width: real, height: real)
    | ScreenParametersChanged(frames: seq<Rect>, spaces: seq<SpaceId>)
    | SpaceChanged(spaces: seq<SpaceId>)
    | Command(command: Command)

  /** `retain`: the elements of `s` that `keep` accepts, in their order and with their multiplicity. */
  function Keep(s: seq<WindowId>, keep: WindowId -> bool): (r: seq<WindowId>)
    ensures |r| <= |s|
    ensures forall w | w in r :: w in s && keep(w)
  {
    if s == [] then []
    else
      assert s == [s[0]] + s[1..];
      (if keep(s[0]) then [s[0]] else []) + Keep(s[1..], keep)
  }

  /** Retaining keeps the order: the kept part of a concatenation is the concatenation of the kept parts. */
  lemma {:induction false} KeepAppend(a: seq<WindowId>, b: seq<WindowId>, keep: WindowId -> bool)
    ensures Keep(a + b, keep) == Keep(a, keep) + Keep(b, keep)
  {
    if a == [] {
      assert a + b == b;
    } else {
      var head := if keep(a[0]) then [a[0]] else [];
      assert (a + b)[0] == a[0] && (a + b)[1..] == a[1..] + b;
      assert Keep(a + b, keep) == head + Keep(a[1..] + b, keep);
      assert Keep(a, keep) == head + Keep(a[1..], keep);
      KeepAppend(a[1..], b, keep);
      assert head + (Keep(a[1..], keep) + Keep(b, keep)) == (head + Keep(a[1..], keep)) + Keep(b, keep);
    }
  }

  /** Retaining drops every element `keep` rejects and keeps every copy of each element it accepts. */
  lemma {:induction false} KeepCounts(s: seq<WindowId>, keep: WindowId -> bool)
    ensures forall w :: multiset(Keep(s, keep))[w] == if keep(w) then multiset(s)[w] else 0
  {
    if s != [] {
      assert s == [s[0]] + s[1..];
      KeepCounts(s[1..], keep);
    }
  }

  /** The ids of the standard windows of `ws`, in input order. */
  function Standard(ws: seq<(WindowId, WindowInfo)>): (r: seq<WindowId>)
    ensures |r| <= |ws|
    ensures forall w :: w in r <==> exists p | p in ws :: p.0 == w && p.1.isStandard
  {
    if ws == [] then []
    else
      assert forall p :: p in ws <==> p == ws[0] || p in ws[1..] by {
        assert ws == [ws[0]] + ws[1..];
      }
      (if ws[0].1.isStandard then [ws[0].0] else []) + Standard(ws[1..])
  }

  /** The filter keeps the order: the standard ids of a concatenation are those of each part in turn. */
  lemma {:induction false} StandardAppend(a: seq<(WindowId, WindowInfo)>, b: seq<(WindowId, WindowInfo)>)
    ensures Standard(a + b) == Standard(a) + Standard(b)
  {
    if a == [] {
      assert a + b == b;
    } else {
      var head := if a[0].1.isStandard then [a[0].0] else [];
      assert (a + b)[0] == a[0] && (a + b)[1..] == a[1..] + b;
      assert Standard(a + b) == head + Standard(a[1..] + b);
      StandardAppend(a[1..], b);
    }
  }

  /** `HashMap::extend`: each pair of `ws` is inserted in turn, so the last pair of a window wins. */
  function Extend(m: map<WindowId, WindowInfo>, ws: seq<(WindowId, WindowInfo)>): (r: map<WindowId, WindowInfo>)
    ensures forall w :: w in r <==> w in m || exists p | p in ws :: p.0 == w
    ensures forall w | w in m && forall i | 0 <= i < |ws| :: ws[i].0 != w :: r[w] == m[w]
    ensures forall i | 0 <= i < |ws| && (forall j | i < j < |ws| :: ws[j].0 != ws[i].0) :: r[ws[i].0] == ws[i].1
    decreases |ws|
  {
    if ws == [] then m
    else
      assert forall p :: p in ws <==> p == ws[0] || p in ws[1..] by {
        assert ws == [ws[0]] + ws[1..];
      }
      assert forall i | 1 <= i < |ws| :: ws[1..][i - 1] == ws[i];
      Extend(m[ws[0].0 := ws[0].1], ws[1..])
  }

  /** The id the screen shows, if there is a main screen. */
  function ScreenSpace(screen: Option<Screen>): (r: Option<SpaceId>)
    ensures r.Some? <==> screen.Some?
    ensures r.Some? ==> r.value == screen.value.space
  {
    if screen.Some? then Some(screen.value.space) else None
  }

  /** The first element of `s`, if any. */
  function First<T>(s: seq<T>): (r: Option<T>)
    ensures r.None? <==> s == []
    ensures r.Some? ==> r.value == s[0]
  {
    if s == [] then None else Some(s[0])
  }

  /** The main screen after a change of screen parameters: the first frame with the first space, if both exist. */
  function MainScreen(frames: seq<Rect>, spaces: seq<SpaceId>): (r: Option<Screen>)
    ensures r.None? <==> frames == [] || spaces == []
    ensures r.Some? ==> r.value == Screen(frames[0], spaces[0])
  {
    if frames != [] && spaces != [] then Some(Screen(frames[0], spaces[0])) else None
  }

  /** `Reactor`, without the thread handles of the applications. */
  class Reactor {
    var apps: map<Pid, AppInfo>
    var windowOrder: seq<WindowId>
    var windows: map<WindowId, WindowInfo>
    var mainScreen: Option<Screen>
    var space: Option<SpaceId>

    /** Every window of the order is a known window. */
    ghost predicate Valid()
      reads this
    {
      forall w | w in windowOrder :: w in windows
    }

    /** The reactor of `Reactor::spawn`, before any event. */
    constructor ()
      ensures Valid()
      ensures apps == map[] && windowOrder == [] && windows == map[] && mainScreen.None? && space.None?
    {
      apps, windowOrder, windows, mainScreen, space := map[], [], map[], None, None;
    }

    /**
     * `handle_event`: applies `event` to the bookkeeping and reports whether
     * `update_layout` runs afterwards, and with which new window. The unwrap
     * of a terminated application, of a destroyed, moved or resized window
     * and the expect on the spaces of a space change panic in the source;
     * here they are preconditions. `shuffled` is the order the random
     * shuffle of `Command(Shuffle)` produces: a permutation of the order.
     */
    method HandleEvent(event: Event, shuffled: seq<WindowId>) returns (relayout: bool, newWid: Option<WindowId>)
      requires Valid()
      requires event.ApplicationTerminated? ==> event.pid in apps
      requires event.WindowDestroyed? || event.WindowMoved? || event.WindowResized? ==> event.wid in windows
      requires event.SpaceChanged? && mainScreen.Some? ==> event.spaces != []
      requires event == Command(Shuffle) ==> multiset(shuffled) == multiset(windowOrder)
      modifies this
      ensures Valid()
      ensures relayout <==> !(event.ApplicationActivated? || event.WindowMoved? || event.WindowResized?)
      ensures newWid == if event.WindowCreated? then Some(event.wid) else None
      ensures event.ApplicationLaunched? ==>
                && apps == old(apps)[event.pid := event.info]
                && windowOrder == old(windowOrder) + Standard(event.windows)
                && windows == Extend(old(windows), event.windows)
                && mainScreen == old(mainScreen) && space == old(space)
      ensures event.ApplicationTerminated? ==>
                && apps == old(apps) - {event.pid}
                && windowOrder == Keep(old(windowOrder), (w: WindowId) => w.pid != event.pid)
                && windows == old(windows) && mainScreen == old(mainScreen) && space == old(space)
      ensures event.ApplicationActivated? || event == Command(Hello) ==> unchanged(this)
      ensures event.WindowCreated? ==>
                && windowOrder == old(windowOrder) + (if ScreenSpace(old(mainScreen)) == old(space) && event.window.isStandard
                                                       then [event.wid] else [])
                && windows == old(windows)[event.wid := event.window]
                && apps == old(apps) && mainScreen == old(mainScreen) && space == old(space)
      ensures event.WindowDestroyed? ==>
                && windowOrder == Keep(old(windowOrder), (w: WindowId) => w != event.wid)
                && windows == old(windows) - {event.wid}
                && apps == old(apps) && mainScreen == old(mainScreen) && space == old(space)
      ensures event.WindowMoved? ==>
                && windows == old(windows)[event.wid := old(windows[event.wid]).(frame := old(windows[event.wid].frame).(x := event.x, y := event.y))]
                && windowOrder == old(windowOrder) && apps == old(apps) && mainScreen == old(mainScreen) && space == old(space)
      ensures event.WindowResized? ==>
                && windows == old(windows)[event.wid := old(windows[event.wid]).(frame := old(windows[event.wid].frame).(w := event.width, h := event.height))]
                && windowOrder == old(windowOrder) && apps == old(apps) && mainScreen == old(mainScreen) && space == old(space)
      ensures event.ScreenParametersChanged? ==>
                && space == (if old(space).None? then First(event.spaces) else old(space))
                && mainScreen == MainScreen(event.frames, event.spaces)
                && windowOrder == old(windowOrder) && windows == old(windows) && apps == old(apps)
      ensures event.SpaceChanged? ==>
                && mainScreen == (if old(mainScreen).Some? then Some(old(mainScreen).value.(space := event.spaces[0])) else None)
                && windowOrder == old(windowOrder) && windows == old(windows) && apps == old(apps) && space == old(space)
      ensures event == Command(Shuffle) ==>
                && windowOrder == shuffled
                && windows == old(windows) && apps == old(apps) && mainScreen == old(mainScreen) && space == old(space)
    {
      newWid := None;
      match event {
        case ApplicationLaunched(pid, info, ws) =>
          apps := apps[pid := info];
          windowOrder := windowOrder + Standard(ws);
          windows := Extend(windows, ws);
        case ApplicationTerminated(pid) =>
          windowOrder := Keep(windowOrder, (w: WindowId) => w.pid != pid);
          apps := apps - {pid};
        case ApplicationActivated(_) =>
          return false, None;
        case WindowCreated(wid, window) =>
          if ScreenSpace(mainScreen) == space && window.isStandard {
            windowOrder := windowOrder + [wid];
          }
          windows := windows[wid := window];
          newWid := Some(wid);
        case WindowDestroyed(wid) =>
          windowOrder := Keep(windowOrder, (w: WindowId) => w != wid);
          windows := windows - {wid};
        case WindowMoved(wid, x, y) =>
          var info := windows[wid];
          windows := windows[wid := info.(frame := info.frame.(x := x, y := y))];
          return false, None;
        case WindowResized(wid, width, height) =>
          var info := windows[wid];
          windows := windows[wid := info.(frame := info.frame.(w := width, h := height))];
          return false, None;
        case ScreenParametersChanged(frames, spaces) =>
          if space.None? {
            space := First(spaces);
          }
          mainScreen := MainScreen(frames, spaces);
        case Command(Hello) =>
        case Command(Shuffle) =>
          assert forall w | w in shuffled :: w in multiset(windowOrder);
          windowOrder := shuffled;
        case SpaceChanged(spaces) =>
          if mainScreen.Some? {
            mainScreen := Some(mainScreen.value.(space := spaces[0]));
          }
      }
      relayout := true;
    }
  }

  /** The two orientations of reactor.rs's own `Orientation`. */
  datatype Orientation = Horizontal | Vertical

  /** `Layout`: equal slices, or binary space partition starting with a cut along the orientation. */
  datatype Split = Slice(orientation: Orientation) | Bsp(orientation: Orientation)

  /** The other orientation, which the remainder of a binary space partition is cut along. */
  function Turn(o: Orientation): (t: Orientation)
    ensures t != o
  {
    if o == Horizontal then Vertical else Horizontal
  }

  /** The part of `screen` before its middle along `o`. */
  function FirstHalf(screen: Rect, o: Orientation): Rect
  {
    if o == Horizontal then Rect(screen.x, screen.y, screen.w / 2.0, screen.h)
    else Rect(screen.x, screen.y, screen.w, screen.h / 2.0)
  }

  /** The part of `screen` after its middle along `o`. */
  function SecondHalf(screen: Rect, o: Orientation): Rect
  {
    if o == Horizontal then Rect(screen.x + screen.w / 2.0, screen.y, screen.w / 2.0, screen.h)
    else Rect(screen.x, screen.y + screen.h / 2.0, screen.w, screen.h / 2.0)
  }

  /** Column `i` of `n` equal columns of `screen`. */
  function Column(screen: Rect, n: nat, i: nat): Rect
    requires n > 0
  {
    var width := screen.w / (n as real);
    Rect(screen.x + (i as real) * width, screen.y, width, screen.h)
  }

  /**
   * `calculate_layout`: one frame per window. The window count must fit in
   * a `u32` and a vertical slice is not written (`todo!()`); both panic in
   * the source and are preconditions here.
   */
  function CalculateLayout<T>(screen: Rect, windows: seq<T>, layout: Split): (r: seq<Rect>)
    requires |windows| < 0x1_0000_0000
    requires |windows| >= 2 ==> layout != Slice(Vertical)
    ensures |r| == |windows|
    ensures |windows| == 1 ==> r == [screen]
    decreases |windows|
  {
    if |windows| == 0 then []
    else if |windows| == 1 then [screen]
    else
      match layout
      case Slice(_) =>
        seq(|windows|, i requires 0 <= i < |windows| => Column(screen, |windows|, i))
      case Bsp(o) =>
        [FirstHalf(screen, o)] + CalculateLayout(SecondHalf(screen, o), windows[1..], Bsp(Turn(o)))
  }

  /** `a` lies inside `b`. */
  predicate Within(a: Rect, b: Rect)
  {
    b.x <= a.x && a.x + a.w <= b.x + b.w && b.y <= a.y && a.y + a.h <= b.y + b.h
  }

  /** `a` and `b` do not overlap: one lies wholly on one side of the other. */
  predicate Apart(a: Rect, b: Rect)
  {
    a.x + a.w <= b.x || b.x + b.w <= a.x || a.y + a.h <= b.y || b.y + b.h <= a.y
  }

  function Area(r: Rect): real
  {
    r.w * r.h
  }

  function TotalArea(rs: seq<Rect>): real
  {
    if rs == [] then 0.0 else Area(rs[0]) + TotalArea(rs[1..])
  }

  /**
   * The two halves of a screen with no negative extent lie inside it, share
   * its area, and nothing inside the second half overlaps the first.
   */
  lemma HalvesTile(screen: Rect, o: Orientation)
    requires screen.w >= 0.0 && screen.h >= 0.0
    ensures var first, rem := FirstHalf(screen, o), SecondHalf(screen, o);
            && Within(first, screen) && Within(rem, screen)
            && rem.w >= 0.0 && rem.h >= 0.0
            && Area(first) + Area(rem) == Area(screen)
            && forall q | Within(q, rem) :: Apart(first, q)
  {
    var first, rem := FirstHalf(screen, o), SecondHalf(screen, o);
    if o == Horizontal {
      assert Area(first) + Area(rem) == (screen.w / 2.0) * screen.h + (screen.w / 2.0) * screen.h;
    } else {
      assert Area(first) + Area(rem) == screen.w * (screen.h / 2.0) + screen.w * (screen.h / 2.0);
    }
  }

  /**
   * The binary space partition of a screen with no negative extent tiles
   * it: every frame lies inside the screen, no two frames overlap, and
   * their areas add up to the screen's. The first frame is the half of the
   * screen before its middle along the orientation.
   */
  lemma {:induction false} BspTiles<T>(screen: Rect, windows: seq<T>, o: Orientation)
    requires 1 <= |windows| < 0x1_0000_0000 && screen.w >= 0.0 && screen.h >= 0.0
    ensures var r := CalculateLayout(screen, windows, Bsp(o));
            && (|windows| >= 2 ==> r[0] == FirstHalf(screen, o))
            && (forall i | 0 <= i < |r| :: Within(r[i], screen))
            && (forall i, j | 0 <= i < j < |r| :: Apart(r[i], r[j]))
            && TotalArea(r) == Area(screen)
    decreases |windows|
  {
    var r := CalculateLayout(screen, windows, Bsp(o));
    if |windows| == 1 {
      assert r == [screen];
      assert TotalArea(r) == Area(screen) + TotalArea([]);
    } else {
      var first, rem := FirstHalf(screen, o), SecondHalf(screen, o);
      var rest := CalculateLayout(rem, windows[1..], Bsp(Turn(o)));
      HalvesTile(screen, o);
      BspTiles(rem, windows[1..], Turn(o));
      assert r == [first] + rest;
      assert r[0] == first && r[1..] == rest;
      assert forall i | 1 <= i < |r| :: r[i] == rest[i - 1];
      assert TotalArea(r) == Area(first) + TotalArea(rest);
    }
  }

  /** Column `i` ends where column `i + 1` starts. */
  lemma ColumnStep(screen: Rect, n: nat, i: nat)
    requires n > 0
    ensures Column(screen, n, i).x + Column(screen, n, i).w == Column(screen, n, i + 1).x
  {
    var width := screen.w / (n as real);
    assert (i as real) * width + width == ((i as real) + 1.0) * width;
  }

  /** Column `n - 1` of `n` ends at the right edge of the screen. */
  lemma LastColumn(screen: Rect, n: nat)
    requires n > 0
    ensures Column(screen, n, n - 1).x + Column(screen, n, n - 1).w == screen.x + screen.w
  {
    var width := screen.w / (n as real);
    assert ((n - 1) as real) * width + width == (n as real) * width;
    assert (n as real) * width == screen.w;
  }

  /**
   * The slice layout of two or more windows cuts a screen into equal
   * columns side by side: each starts where the one before ends, all have
   * the screen's height, the first starts at the screen's left edge and the
   * last ends at its right edge.
   */
  lemma SliceColumns<T>(screen: Rect, windows: seq<T>)
    requires 2 <= |windows| < 0x1_0000_0000
    ensures var r := CalculateLayout(screen, windows, Slice(Horizontal));
            && r[0].x == screen.x
            && r[|r| - 1].x + r[|r| - 1].w == screen.x + screen.w
            && (forall i | 0 <= i < |r| :: r[i].y == screen.y && r[i].h == screen.h && r[i].w == screen.w / (|r| as real))
            && (forall i | 0 <= i < |r| - 1 :: r[i].x + r[i].w == r[i + 1].x)
  {
    var n := |windows|;
    var r := CalculateLayout(screen, windows, Slice(Horizontal));
    assert forall i | 0 <= i < n :: r[i] == Column(screen, n, i);
    LastColumn(screen, n);
    forall i | 0 <= i < n - 1
      ensures r[i].x + r[i].w == r[i + 1].x
    {
      ColumnStep(screen, n, i);
    }
  }
}
