/**
 * The applet's process-wide state and its callbacks (main.c), run in place.
 *
 * The globals current_toplevel, current_class, current_count and
 * window_hash are fields; so are the children of the panel's box and whether
 * the panel is shown.  Each callback is proved to leave the state that the
 * corresponding function of module Panel computes.
 */
module Applet {
  import opened XUtils
  import opened Panel

  class WindowTabs {
    /** The X window of the panel's own toplevel. */
    const panelWindow: Window

    var visible: bool
    var currentToplevel: Window
    var currentClass: Option<Text>
    var currentCount: nat
    var buttons: seq<Button>
    var windowHash: map<Window, nat>

    function State(): PanelState
      reads this
    {
      PanelState(visible, currentToplevel, currentClass, currentCount, buttons, windowHash)
    }

    predicate Valid()
      reads this
    {
      Consistent(State())
    }

    /** The globals as the process starts, with the panel created but not shown. */
    constructor (panelWindow: Window)
      ensures Valid()
      ensures State() == Initial && this.panelWindow == panelWindow
    {
      this.panelWindow := panelWindow;
      visible, currentToplevel, currentClass, currentCount := false, NoWindow, None, 0;
      buttons, windowHash := [], map[];
    }

    /**
     * `create_button`: adds a button for `window` to the box, on iff the
     * window is the toplevel, and records it in the table.
     */
    method CreateButton(d: Display, window: Window)
      modifies this
      ensures buttons == old(buttons) + [NewButton(d, window, currentToplevel)]
      ensures windowHash == old(windowHash)[window := |old(buttons)|]
      ensures visible == old(visible) && currentToplevel == old(currentToplevel)
      ensures currentClass == old(currentClass) && currentCount == old(currentCount)
    {
      var name := GetWindowName(d, window);
      windowHash := windowHash[window := |buttons|];
      buttons := buttons + [Button(window, name, window == currentToplevel)];
    }

    /**
     * The first loop of `populate_panel`: scans the first `winCount` entries
     * of `windows` and prepends each one whose class compares equal to `cls`.
     */
    static method CollectGroup(d: Display, windows: array?<Window>, winCount: nat, cls: Option<Text>)
      returns (group: seq<Window>)
      requires windows == null ==> winCount == 0
      requires windows != null ==> winCount <= windows.Length
      ensures group == Group(d, if windows == null then [] else windows[..winCount], cls)
    {
      ghost var ws := if windows == null then [] else windows[..winCount];
      group := [];
      var i := 0;
      while i < winCount
        invariant 0 <= i <= winCount
        invariant group == Group(d, ws[..i], cls)
      {
        assert ws[..i + 1][..i] == ws[..i] && ws[i] == windows[i];
        var thisClass := GetClass(d, windows[i]);
        if Compare(thisClass, cls) {
          group := [windows[i]] + group;
        }
        i := i + 1;
      }
      assert ws[..winCount] == ws;
    }

    /**
     * The second loop of `populate_panel`: adds a button per group member, in
     * group order, to an empty box and table.
     */
    method AddButtons(d: Display, group: seq<Window>)
      requires buttons == [] && windowHash == map[]
      modifies this
      ensures buttons == Buttons(d, group, currentToplevel) && windowHash == TableOf(group)
      ensures visible == old(visible) && currentToplevel == old(currentToplevel)
      ensures currentClass == old(currentClass) && currentCount == old(currentCount)
    {
      var k := 0;
      while k < |group|
        invariant 0 <= k <= |group|
        invariant buttons == Buttons(d, group[..k], currentToplevel) && windowHash == TableOf(group[..k])
        invariant visible == old(visible) && currentToplevel == old(currentToplevel)
        invariant currentClass == old(currentClass) && currentCount == old(currentCount)
      {
        assert group[..k + 1][..k] == group[..k] && group[..k + 1][k] == group[k];
        assert TableOf(group[..k + 1]) == TableOf(group[..k])[group[k] := k];
        CreateButton(d, group[k]);
        k := k + 1;
      }
      assert group[..|group|] == group;
    }

    /**
     * `populate_panel`: clears the box and the table, collects the group of
     * the current class, then hides the panel for a group of one or adds a
     * button per group member and shows it.
     */
    method PopulatePanel(d: Display, windows: array?<Window>, winCount: nat)
      requires windows == null ==> winCount == 0
      requires windows != null ==> winCount <= windows.Length
      modifies this
      ensures State() == Populate(d, old(State()), if windows == null then [] else windows[..winCount])
    {
      buttons, windowHash := [], map[];
      var group := CollectGroup(d, windows, winCount, currentClass);
      if |group| == 1 {
        visible := false;
        return;
      }

      AddButtons(d, group);
      visible := true;
    }

    /**
     * `update_panel`: reads the active window, its class and the stacking
     * list; hides on any failure, otherwise rebuilds or reselects.
     */
    method UpdatePanel(d: Display)
      requires Valid()
      modifies this
      ensures Valid()
      ensures State() == Update(d, old(State()))
    {
      ghost var s0 := State();
      var oldClass := currentClass;
      var oldCount := currentCount;

      var ok;
      ok, currentToplevel := GetWindowAtom(d, d.root, MbCurrentAppWindow);
      if !ok {
        visible := false;
        return;
      }
      if currentToplevel == NoWindow {
        visible := false;
        return;
      }

      currentClass := GetClass(d, currentToplevel);
      if currentClass.None? {
        visible := false;
        return;
      }

      var listOk, windows, len := GetWindowListAtom(d, d.root, MbAppWindowListStacking);
      currentCount := len;
      assert (if windows == null then [] else windows[..len]) == StackingList(d);
      assert State() == Queried(d, s0);
      UpdateDecides(d, s0);
      Reconcile(d, windows, oldClass, oldCount);
      UpdateConsistent(d, s0);
    }

    /**
     * The end of `update_panel`, once the active window, its class and the
     * stacking list (`windows`, `currentCount` long) are read: a rebuild when
     * the count or the class changed since the previous call, otherwise the
     * active window's button is switched on.
     */
    method Reconcile(d: Display, windows: array?<Window>, oldClass: Option<Text>, oldCount: nat)
      requires windows == null ==> currentCount == 0
      requires windows != null ==> currentCount <= windows.Length
      modifies this
      ensures var s := old(State());
        State() == if s.count != oldCount || !Compare(s.cls, oldClass)
                   then Populate(d, s, if windows == null then [] else windows[..s.count])
                   else Reselect(s)
    {
      if currentCount != oldCount || !Compare(currentClass, oldClass) {
        PopulatePanel(d, windows, currentCount);
      } else if currentToplevel in windowHash {
        buttons := SelectOnly(buttons, windowHash[currentToplevel]);
      }
    }

    /**
     * `window_filter_func`: a new WM_NAME or _NET_WM_NAME on a window in the
     * table relabels that window's button; nothing else changes.
     */
    method WindowFilter(d: Display, ev: XEvent) returns (ret: FilterReturn)
      requires Valid()
      modifies this
      ensures Valid() && ret == Continue
      ensures visible == old(visible) && currentToplevel == old(currentToplevel)
      ensures currentClass == old(currentClass) && currentCount == old(currentCount)
      ensures windowHash == old(windowHash)
      ensures TitleRefreshTarget(ev, windowHash).None? ==> buttons == old(buttons)
      ensures TitleRefreshTarget(ev, windowHash).Some? ==>
        var k := windowHash[ev.window];
        buttons == old(buttons)[k := old(buttons)[k].(title := GetWindowName(d, ev.window))]
    {
      if ev.PropertyNotify? && ev.state == NewValue && (ev.atom == XaWmName || ev.atom == NetWmName) {
        var window := ev.window;
        if window in windowHash {
          var k := windowHash[window];
          buttons := buttons[k := buttons[k].(title := GetWindowName(d, window))];
        }
      }
      ret := Continue;
    }

    /** `root_filter_func`: runs update_panel when _MB_CURRENT_APP_WINDOW changes. */
    method RootFilter(d: Display, ev: XEvent) returns (ret: FilterReturn)
      requires Valid()
      modifies this
      ensures Valid() && ret == Continue
      ensures TriggersUpdate(ev) ==> State() == Update(d, old(State()))
      ensures !TriggersUpdate(ev) ==> State() == old(State())
    {
      if ev.PropertyNotify? {
        if ev.atom == MbCurrentAppWindow {
          UpdatePanel(d);
        }
      }
      ret := Continue;
    }

    /**
     * `on_button_clicked` for the button at `index`, at event time `time`:
     * the request it sends, if any.
     */
    method OnButtonClicked(d: Display, index: nat, time: int) returns (sent: Option<SentEvent>)
      requires index < |buttons|
      ensures sent == ActivationRequest(buttons[index].active, buttons[index].window, panelWindow, d.root, time)
      ensures sent.Some? <==> buttons[index].active
    {
      var button := buttons[index];
      if !button.active {
        return None;
      }
      var xev := ClientMessage(0, true, button.window, NetActiveWindow, 32,
                               [SourcePager, time, panelWindow, 0, 0]);
      sent := Some(SentEvent(d.root, false, SubstructureRedirectMask, xev));
    }
  }
}
