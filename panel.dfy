/**
 * The reconciliation state machine of main.c as values and functions.
 *
 * `PanelState` gathers what main.c keeps in globals (current_toplevel,
 * current_class, current_count), the window -> button table (window_hash),
 * the buttons in the panel's box and whether the panel is shown.  `Update`
 * is update_panel, `Populate` is populate_panel; the class in applet.dfy
 * runs the same steps in place and is proved equal to these functions.
 */
module Panel {
  import opened XUtils

  /** A button of the panel: the window it stands for, its title, and whether it is toggled on. */
  datatype Button = Button(window: Window, title: Option<Text>, active: bool)

  /**
   * `table` maps a window to the position of its button in `buttons`, the
   * children of the panel's box in the order they were added.
   */
  datatype PanelState = PanelState(
    visible: bool,
    toplevel: Window,
    cls: Option<Text>,
    count: nat,
    buttons: seq<Button>,
    table: map<Window, nat>)

  /** The globals' initial values (main.c:8-12); the panel starts unshown and its box empty. */
  const Initial := PanelState(false, NoWindow, None, 0, [], map[])

  /** Every table entry names a button for that window, and every button is in the table. */
  predicate Consistent(s: PanelState)
  {
    && (forall w :: w in s.table ==> s.table[w] < |s.buttons| && s.buttons[s.table[w]].window == w)
    && (forall k :: 0 <= k < |s.buttons| ==> s.buttons[k].window in s.table)
  }

  predicate Distinct(ws: seq<Window>)
  {
    forall i, j :: 0 <= i < j < |ws| ==> ws[i] != ws[j]
  }

  function Reverse<T>(s: seq<T>): seq<T>
  {
    if s == [] then [] else Reverse(s[1..]) + [s[0]]
  }

  // ---------------------------------------------------------------------
  // The sibling group (populate_panel's first loop)
  // ---------------------------------------------------------------------

  /** `[w]` when w's class compares equal to `cls`, else nothing. */
  function Keep(d: Display, w: Window, cls: Option<Text>): seq<Window>
  {
    if Compare(GetClass(d, w), cls) then [w] else []
  }

  /**
   * The group populate_panel builds from `windows`: scanning front to back,
   * each window of class `cls` is prepended.
   */
  function Group(d: Display, windows: seq<Window>, cls: Option<Text>): (r: seq<Window>)
    ensures |r| <= |windows|
    decreases |windows|
  {
    if windows == [] then []
    else Keep(d, windows[|windows| - 1], cls) + Group(d, windows[..|windows| - 1], cls)
  }

  /** Reference definition: the windows of class `cls`, in list order. */
  function Matching(d: Display, windows: seq<Window>, cls: Option<Text>): seq<Window>
    decreases |windows|
  {
    if windows == [] then []
    else Keep(d, windows[0], cls) + Matching(d, windows[1..], cls)
  }

  lemma {:induction false} ReverseAppend<T>(a: seq<T>, b: seq<T>)
    ensures Reverse(a + b) == Reverse(b) + Reverse(a)
    decreases |a|
  {
    if a == [] {
      assert a + b == b;
    } else {
      assert (a + b)[1..] == a[1..] + b;
      ReverseAppend(a[1..], b);
    }
  }

  lemma {:induction false} MatchingSnoc(d: Display, windows: seq<Window>, w: Window, cls: Option<Text>)
    ensures Matching(d, windows + [w], cls) == Matching(d, windows, cls) + Keep(d, w, cls)
    decreases |windows|
  {
    if windows == [] {
      assert windows + [w] == [w];
      assert [w][1..] == [];
    } else {
      assert (windows + [w])[1..] == windows[1..] + [w];
      MatchingSnoc(d, windows[1..], w, cls);
    }
  }

  /** The group is exactly the matching windows, in reverse list order (main.c:123-130). */
  lemma {:induction false} GroupIsReversedMatching(d: Display, windows: seq<Window>, cls: Option<Text>)
    ensures Group(d, windows, cls) == Reverse(Matching(d, windows, cls))
    decreases |windows|
  {
    if windows != [] {
      var n := |windows| - 1;
      var w := windows[n];
      GroupIsReversedMatching(d, windows[..n], cls);
      assert windows[..n] + [w] == windows;
      MatchingSnoc(d, windows[..n], w, cls);
      ReverseAppend(Matching(d, windows[..n], cls), Keep(d, w, cls));
      assert Reverse(Keep(d, w, cls)) == Keep(d, w, cls) by {
        if Keep(d, w, cls) != [] {
          assert Reverse([w]) == Reverse([w][1..]) + [w];
          assert [w][1..] == [];
        }
      }
    }
  }

  /** A window is in the group iff it is listed and its class compares equal to `cls`. */
  lemma {:induction false} GroupMembers(d: Display, windows: seq<Window>, cls: Option<Text>, w: Window)
    ensures w in Group(d, windows, cls) <==> w in windows && Compare(GetClass(d, w), cls)
    decreases |windows|
  {
    if windows != [] {
      var n := |windows| - 1;
      GroupMembers(d, windows[..n], cls, w);
      assert windows == windows[..n] + [windows[n]];
    }
  }

  /** A list without repeated windows gives a group without repeated windows. */
  lemma {:induction false} GroupDistinct(d: Display, windows: seq<Window>, cls: Option<Text>)
    requires Distinct(windows)
    ensures Distinct(Group(d, windows, cls))
    decreases |windows|
  {
    if windows != [] {
      var n := |windows| - 1;
      var w := windows[n];
      var rest := Group(d, windows[..n], cls);
      GroupDistinct(d, windows[..n], cls);
      if Keep(d, w, cls) != [] {
        assert Distinct(windows[..n]);
        GroupMembers(d, windows[..n], cls, w);
        assert w !in windows[..n] by {
          forall i | 0 <= i < n ensures windows[..n][i] != w {
            assert windows[..n][i] == windows[i];
          }
        }
        var g := [w] + rest;
        assert Group(d, windows, cls) == g;
        forall i, j | 0 <= i < j < |g| ensures g[i] != g[j] {
          assert g[j] == rest[j - 1] && rest[j - 1] in rest;
          if i > 0 {
            assert g[i] == rest[i - 1];
          }
        }
      } else {
        assert Group(d, windows, cls) == rest;
      }
    }
  }

  // ---------------------------------------------------------------------
  // Building the buttons and the table (populate_panel's second loop)
  // ---------------------------------------------------------------------

  /** The button create_button makes: labelled with the window's name, on iff it is the toplevel. */
  function NewButton(d: Display, w: Window, toplevel: Window): (r: Button)
    ensures r.window == w && (r.active <==> w == toplevel)
    ensures Utf8Property(d, w, NetWmName).Some? ==> r.title == Utf8Property(d, w, NetWmName)
    ensures Utf8Property(d, w, NetWmName).None? ==> r.title == TextProperty(d, w, XaWmName)
  {
    Button(w, GetWindowName(d, w), w == toplevel)
  }

  /** The box's children after create_button has run for each window of `group` in turn. */
  function Buttons(d: Display, group: seq<Window>, toplevel: Window): (r: seq<Button>)
    ensures |r| == |group|
    decreases |group|
  {
    if group == [] then []
    else Buttons(d, group[..|group| - 1], toplevel) + [NewButton(d, group[|group| - 1], toplevel)]
  }

  /** One button per group member, in group order: titled with its name, on iff it is the toplevel. */
  lemma {:induction false} ButtonsAt(d: Display, group: seq<Window>, toplevel: Window)
    ensures |Buttons(d, group, toplevel)| == |group|
    ensures forall k :: 0 <= k < |group| ==> Buttons(d, group, toplevel)[k] == NewButton(d, group[k], toplevel)
    decreases |group|
  {
    if group != [] {
      ButtonsAt(d, group[..|group| - 1], toplevel);
    }
  }

  /**
   * window_hash after create_button has inserted each window of `group` in
   * turn with its button's position; a later insert for the same window
   * replaces an earlier one.
   */
  function TableOf(group: seq<Window>): (r: map<Window, nat>)
    ensures forall w :: w in r ==> r[w] < |group|
    decreases |group|
  {
    if group == [] then map[]
    else TableOf(group[..|group| - 1])[group[|group| - 1] := |group| - 1]
  }

  /**
   * The table's keys are exactly the group's windows, and each maps to the
   * last position holding that window.
   */
  lemma {:induction false} TableOfIndexes(group: seq<Window>)
    ensures forall w :: w in TableOf(group) <==> w in group
    ensures forall w :: w in TableOf(group) ==> TableOf(group)[w] < |group| && group[TableOf(group)[w]] == w
    ensures forall w, j :: w in TableOf(group) && TableOf(group)[w] < j < |group| ==> group[j] != w
    decreases |group|
  {
    if group != [] {
      var n := |group| - 1;
      TableOfIndexes(group[..n]);
      assert group == group[..n] + [group[n]];
    }
  }

  /**
   * `populate_panel` with the stacking list `windows`: the box and the table
   * are cleared; a group of one hides the panel; otherwise one button per
   * group member is added and the panel shown.
   */
  function Populate(d: Display, s: PanelState, windows: seq<Window>): (r: PanelState)
    ensures r.toplevel == s.toplevel && r.cls == s.cls && r.count == s.count
    ensures r.visible <==> |Group(d, windows, s.cls)| != 1
    ensures |r.buttons| <= |windows|
  {
    ShowGroup(d, s, Group(d, windows, s.cls))
  }

  /** What populate_panel does once the group is known. */
  function ShowGroup(d: Display, s: PanelState, group: seq<Window>): (r: PanelState)
    ensures r.toplevel == s.toplevel && r.cls == s.cls && r.count == s.count
    ensures r.visible <==> |group| != 1
    ensures |r.buttons| == (if |group| == 1 then 0 else |group|)
  {
    if |group| == 1 then s.(visible := false, buttons := [], table := map[])
    else s.(visible := true, buttons := Buttons(d, group, s.toplevel), table := TableOf(group))
  }

  /** With exactly one sibling the panel hides and nothing is left; with none it shows an empty box. */
  lemma PopulateCollapses(d: Display, s: PanelState, windows: seq<Window>)
    ensures var r := Populate(d, s, windows);
      |Group(d, windows, s.cls)| == 1 ==> !r.visible && r.buttons == [] && r.table == map[]
    ensures var r := Populate(d, s, windows);
      |Group(d, windows, s.cls)| == 0 ==> r.visible && r.buttons == [] && r.table == map[]
    ensures Populate(d, s, windows).visible <==> |Group(d, windows, s.cls)| != 1
  {
  }

  /**
   * A rebuild that does not collapse leaves a table that maps exactly the
   * siblings, each to a button for that window, and one button per sibling in
   * group order; only the toplevel's button is on.
   */
  lemma PopulateRebuilds(d: Display, s: PanelState, windows: seq<Window>)
    requires |Group(d, windows, s.cls)| != 1
    ensures var r := Populate(d, s, windows); var g := Group(d, windows, s.cls);
      && (forall w :: w in r.table <==> w in windows && Compare(GetClass(d, w), s.cls))
      && |r.buttons| == |g|
      && (forall k :: 0 <= k < |g| ==> r.buttons[k].window == g[k] && r.buttons[k].title == GetWindowName(d, g[k]))
      && (forall k :: 0 <= k < |g| ==> (r.buttons[k].active <==> g[k] == s.toplevel))
      && Consistent(r)
  {
    var g := Group(d, windows, s.cls);
    ButtonsAt(d, g, s.toplevel);
    TableOfIndexes(g);
    forall w ensures w in Populate(d, s, windows).table <==> w in windows && Compare(GetClass(d, w), s.cls) {
      GroupMembers(d, windows, s.cls, w);
    }
  }

  /** Every populate leaves the table and the box consistent, and keeps the tracked globals. */
  lemma PopulateConsistent(d: Display, s: PanelState, windows: seq<Window>)
    ensures Consistent(Populate(d, s, windows))
    ensures var r := Populate(d, s, windows); r.toplevel == s.toplevel && r.cls == s.cls && r.count == s.count
  {
    var g := Group(d, windows, s.cls);
    ButtonsAt(d, g, s.toplevel);
    TableOfIndexes(g);
  }

  // ---------------------------------------------------------------------
  // update_panel
  // ---------------------------------------------------------------------

  /** The buttons after `gtk_toggle_button_set_active (buttons[i], TRUE)` in one radio group. */
  function SelectOnly(buttons: seq<Button>, i: nat): (r: seq<Button>)
    ensures |r| == |buttons|
    ensures forall k :: 0 <= k < |r| ==> r[k].window == buttons[k].window && r[k].title == buttons[k].title
    ensures forall j, k :: 0 <= j < |r| && 0 <= k < |r| && r[j].active && r[k].active ==> j == k
    ensures i < |r| ==> r[i].active
  {
    seq(|buttons|, k requires 0 <= k < |buttons| => buttons[k].(active := k == i))
  }

  /** The reselect branch: the toplevel's button is switched on; with no such button nothing happens. */
  function Reselect(s: PanelState): (r: PanelState)
    ensures r.visible == s.visible && r.toplevel == s.toplevel && r.cls == s.cls && r.count == s.count
    ensures r.table == s.table && |r.buttons| == |s.buttons|
  {
    if s.toplevel in s.table then s.(buttons := SelectOnly(s.buttons, s.table[s.toplevel])) else s
  }

  /**
   * In a consistent state, a reselect keeps the state consistent, and the
   * only button left on is one for the toplevel: the one the table names.
   */
  lemma ReselectSelectsToplevel(s: PanelState)
    requires Consistent(s)
    ensures Consistent(Reselect(s))
    ensures s.toplevel !in s.table ==> Reselect(s) == s
    ensures var r := Reselect(s);
      s.toplevel in s.table ==>
        && r.buttons[s.table[s.toplevel]].active
        && (forall k :: 0 <= k < |r.buttons| && r.buttons[k].active ==> r.buttons[k].window == s.toplevel)
  {
  }

  /** The reply to the read of _MB_CURRENT_APP_WINDOW on the root window. */
  function ActiveReply(d: Display): PropertyReply<Window>
  {
    d.windowProp(d.root, MbCurrentAppWindow)
  }

  /** What get_window_atom leaves in current_toplevel. */
  function ActiveWindow(d: Display): Window
  {
    WindowAtomValue(d, d.root, MbCurrentAppWindow)
  }

  /** The stacking list get_window_list_atom yields; empty when the read fails. */
  function StackingList(d: Display): seq<Window>
  {
    WindowListValue(d, d.root, MbAppWindowListStacking)
  }

  /** The active window and its class could both be read: the panel will not simply hide. */
  predicate ActiveKnown(d: Display)
  {
    WindowReplyOk(ActiveReply(d)) && ActiveWindow(d) != NoWindow && GetClass(d, ActiveWindow(d)).Some?
  }

  /** The state after the queries, before the rebuild-or-reselect decision. */
  function Queried(d: Display, s: PanelState): PanelState
  {
    s.(toplevel := ActiveWindow(d), cls := GetClass(d, ActiveWindow(d)), count := |StackingList(d)|)
  }

  /** The rebuild condition: the list length changed, or the class did. */
  predicate NeedsRebuild(d: Display, s: PanelState)
  {
    |StackingList(d)| != s.count || !Compare(GetClass(d, ActiveWindow(d)), s.cls)
  }

  /** `update_panel`, run on the X state `d` from state `s`. */
  function Update(d: Display, s: PanelState): (r: PanelState)
    ensures r.toplevel == ActiveWindow(d)
    ensures r.visible ==> ActiveKnown(d)
  {
    if !WindowReplyOk(ActiveReply(d)) then s.(toplevel := NoWindow, visible := false)
    else if ActiveWindow(d) == NoWindow then s.(toplevel := NoWindow, visible := false)
    else if GetClass(d, ActiveWindow(d)).None? then s.(toplevel := ActiveWindow(d), cls := None, visible := false)
    else if NeedsRebuild(d, s) then Populate(d, Queried(d, s), StackingList(d))
    else Reselect(Queried(d, s))
  }

  /**
   * When the active window, its handle or its class cannot be read, the panel
   * hides and the count, the buttons and the table stay as they were.  A
   * failed read or a None handle also keeps the class; a class that cannot be
   * read becomes NULL.
   */
  lemma UpdateHides(d: Display, s: PanelState)
    requires !ActiveKnown(d)
    ensures var r := Update(d, s);
      && !r.visible && r.count == s.count && r.buttons == s.buttons && r.table == s.table
    ensures !WindowReplyOk(ActiveReply(d)) ==> Update(d, s).toplevel == NoWindow && Update(d, s).cls == s.cls
    ensures WindowReplyOk(ActiveReply(d)) && ActiveWindow(d) != NoWindow ==> Update(d, s).cls.None?
    ensures !WindowReplyOk(ActiveReply(d)) || ActiveWindow(d) == NoWindow ==>
      Update(d, s) == s.(toplevel := NoWindow, visible := false)
    ensures WindowReplyOk(ActiveReply(d)) && ActiveWindow(d) != NoWindow ==>
      Update(d, s) == s.(toplevel := ActiveWindow(d), cls := None, visible := false)
  {
  }

  /**
   * A readable active window leads to a rebuild iff the list length or the
   * class changed; otherwise only the toplevel's button is switched on and the
   * table, labels and visibility are unchanged.
   */
  lemma UpdateDecides(d: Display, s: PanelState)
    requires ActiveKnown(d)
    ensures NeedsRebuild(d, s) ==> Update(d, s) == Populate(d, Queried(d, s), StackingList(d))
    ensures !NeedsRebuild(d, s) ==> Update(d, s) == Reselect(Queried(d, s))
    ensures var r := Update(d, s);
      r.toplevel == ActiveWindow(d) && r.cls == GetClass(d, ActiveWindow(d)) && r.count == |StackingList(d)|
    ensures var r := Update(d, s);
      !NeedsRebuild(d, s) ==>
        && r.table == s.table && r.visible == s.visible && |r.buttons| == |s.buttons|
        && (forall k :: 0 <= k < |s.buttons| ==>
              r.buttons[k].window == s.buttons[k].window && r.buttons[k].title == s.buttons[k].title)
        && (ActiveWindow(d) in s.table ==>
              forall k :: 0 <= k < |s.buttons| ==> (r.buttons[k].active <==> k == s.table[ActiveWindow(d)]))
        && (ActiveWindow(d) !in s.table ==> r.buttons == s.buttons)
  {
  }

  /** update_panel keeps the table and the box consistent. */
  lemma UpdateConsistent(d: Display, s: PanelState)
    requires Consistent(s)
    ensures Consistent(Update(d, s))
  {
    if ActiveKnown(d) && NeedsRebuild(d, s) {
      PopulateConsistent(d, Queried(d, s), StackingList(d));
    }
  }

  /** Reselecting a second time changes nothing. */
  lemma ReselectTwice(s: PanelState)
    ensures Reselect(Reselect(s)) == Reselect(s)
  {
    if s.toplevel in s.table {
      var i := s.table[s.toplevel];
      assert SelectOnly(SelectOnly(s.buttons, i), i) == SelectOnly(s.buttons, i);
    }
  }

  /**
   * A rebuild from a list without repeats leaves exactly the toplevel's
   * button on, so reselecting right after it changes nothing.
   */
  lemma PopulateSelected(d: Display, s: PanelState, windows: seq<Window>)
    requires Distinct(windows)
    ensures Reselect(Populate(d, s, windows)) == Populate(d, s, windows)
  {
    var r := Populate(d, s, windows);
    var g := Group(d, windows, s.cls);
    if |g| != 1 && s.toplevel in r.table {
      GroupDistinct(d, windows, s.cls);
      ButtonsAt(d, g, s.toplevel);
      TableOfIndexes(g);
      var i := r.table[s.toplevel];
      assert SelectOnly(r.buttons, i) == r.buttons by {
        forall k | 0 <= k < |r.buttons|
          ensures SelectOnly(r.buttons, i)[k] == r.buttons[k]
        {
          assert r.buttons[k].active <==> g[k] == s.toplevel;
          assert g[i] == s.toplevel;
        }
      }
    }
  }

  /**
   * A second update against the same X state changes nothing: it is a
   * reselect, never a rebuild, and it finds the toplevel's button already on.
   * The stacking list must hold no window twice: a rebuild switches on every
   * button of the toplevel (main.c:94), whereas a reselect switches on only
   * the one the table names, its last.
   */
  lemma UpdateIdempotent(d: Display, s: PanelState)
    requires Distinct(StackingList(d))
    ensures ActiveKnown(d) ==> !NeedsRebuild(d, Update(d, s))
    ensures Update(d, Update(d, s)) == Update(d, s)
  {
    var s1 := Update(d, s);
    if ActiveKnown(d) {
      var q := Queried(d, s);
      UpdateDecides(d, s);
      assert Queried(d, s1) == s1;
      UpdateDecides(d, s1);
      if NeedsRebuild(d, s) {
        PopulateSelected(d, q, StackingList(d));
      } else {
        ReselectTwice(q);
      }
    }
  }

  /**
   * After a hide that kept the class and the count (the active window read
   * as None), an update that finds the same class and list length is a
   * reselect, and the panel stays hidden.
   */
  lemma HiddenPanelStaysHidden(d: Display, s: PanelState)
    requires !s.visible
    requires ActiveKnown(d) && !NeedsRebuild(d, s)
    ensures !Update(d, s).visible
  {
  }

  // ---------------------------------------------------------------------
  // Event filters and the activation message
  // ---------------------------------------------------------------------

  datatype PropertyState = NewValue | Deleted

  /** The X events the filters look at: a PropertyNotify, or anything else. */
  datatype XEvent = PropertyNotify(window: Window, atom: Atom, state: PropertyState) | OtherEvent

  /** GdkFilterReturn. */
  datatype FilterReturn = Continue | Translate | Remove

  /**
   * `window_filter_func`'s decision: the window whose title is to be read
   * again, if any.
   */
  function TitleRefreshTarget(ev: XEvent, table: map<Window, nat>): (r: Option<Window>)
    ensures r.Some? <==>
      && ev.PropertyNotify? && ev.state == NewValue
      && (ev.atom == XaWmName || ev.atom == NetWmName)
      && ev.window in table
    ensures r.Some? ==> r.value == ev.window
  {
    if ev.PropertyNotify? && ev.state == NewValue && (ev.atom == XaWmName || ev.atom == NetWmName)
       && ev.window in table
    then Some(ev.window)
    else None
  }

  /** `root_filter_func`'s decision: a change of _MB_CURRENT_APP_WINDOW runs update_panel. */
  function TriggersUpdate(ev: XEvent): (r: bool)
    ensures r <==> ev.PropertyNotify? && ev.atom == MbCurrentAppWindow
  {
    match ev
    case PropertyNotify(_, atom, _) => atom == MbCurrentAppWindow
    case OtherEvent => false
  }

  /** An XClientMessageEvent; `data` holds the five longs of data.l. */
  datatype ClientMessage = ClientMessage(
    serial: nat,
    sendEvent: bool,
    window: Window,
    messageType: Atom,
    format: nat,
    data: seq<int>)

  /** An XSendEvent call: destination, propagate flag, event mask and the event. */
  datatype SentEvent = SentEvent(destination: Window, propagate: bool, eventMask: nat, message: ClientMessage)

  const SubstructureRedirectMask: nat := 0x10_0000

  /** Source indication 2 of _NET_ACTIVE_WINDOW: the request comes from a pager. */
  const SourcePager: int := 2

  /**
   * `on_button_clicked`: a button toggled off sends nothing; a button toggled
   * on sends one _NET_ACTIVE_WINDOW request for its window to the root window.
   */
  function ActivationRequest(active: bool, window: Window, toplevel: Window, root: Window, time: int)
    : (r: Option<SentEvent>)
    ensures r.None? <==> !active
    ensures r.Some? ==>
      && r.value.destination == root && !r.value.propagate
      && r.value.eventMask == SubstructureRedirectMask
      && r.value.message.sendEvent && r.value.message.format == 32
      && r.value.message.window == window && r.value.message.messageType == NetActiveWindow
      && r.value.message.data == [SourcePager, time, toplevel, 0, 0]
  {
    if !active then None
    else
      Some(SentEvent(root, false, SubstructureRedirectMask,
        ClientMessage(0, true, window, NetActiveWindow, 32, [SourcePager, time, toplevel, 0, 0])))
  }

  /** A _NET_ACTIVE_WINDOW request as a window manager reads it. */
  datatype Activation = Activation(target: Window, source: int, timestamp: int, requestor: Window)

  /**
   * How a window manager following the Extended Window Manager Hints reads
   * a client message sent to the root window: a _NET_ACTIVE_WINDOW message
   * of format 32 with five longs names the window to activate, the source
   * indication, a timestamp and the requestor's active window.
   */
  function ReadActivation(ev: SentEvent, root: Window): (r: Option<Activation>)
    ensures r.Some? ==> r.value.target == ev.message.window
  {
    var m := ev.message;
    if ev.destination == root && ev.eventMask == SubstructureRedirectMask
       && m.messageType == NetActiveWindow && m.format == 32 && |m.data| == 5 && m.data[2] >= 0
    then Some(Activation(m.window, m.data[0], m.data[1], m.data[2]))
    else None
  }

  /**
   * The request a toggled-on button sends is read by the window manager as a
   * pager's request to activate that button's window.
   */
  lemma ActivationRoundTrip(window: Window, toplevel: Window, root: Window, time: int)
    ensures ActivationRequest(true, window, toplevel, root, time).Some?
    ensures ReadActivation(ActivationRequest(true, window, toplevel, root, time).value, root)
            == Some(Activation(window, SourcePager, time, toplevel))
  {
  }
  // ---------------------------------------------------------------------
  // A worked example: windows 10 and 11 of class "Term", 12 of class "Web"
  // ---------------------------------------------------------------------

  const Term: Text := [84, 101, 114, 109]
  const Web: Text := [87, 101, 98]

  /** An X server whose active window is `active` and whose stacking list is [10, 11, 12]. */
  function ExampleDisplay(active: Window): Display
  {
    Display(
      1,
      (w: Window, a: Atom) =>
        if a == MbCurrentAppWindow then PropertyReply(Success, Success, XaWindow, 32, [active])
        else if a == MbAppWindowListStacking then PropertyReply(Success, Success, XaWindow, 32, [10, 11, 12])
        else PropertyReply(Success, Success, NoAtom, 0, []),
      (w: Window, a: Atom) => PropertyReply(Success, Success, NoAtom, 0, []),
      (w: Window, a: Atom) => None,
      (w: Window) => ClassReply(true, Success, [], if w == 12 then Web else Term),
      (t: seq<byte>) => true,
      0)
  }

  lemma ExampleQueries(active: Window)
    requires active > 0
    ensures var d := ExampleDisplay(active);
      && ActiveWindow(d) == active && StackingList(d) == [10, 11, 12]
      && GetClass(d, 10) == Some(Term) && GetClass(d, 11) == Some(Term) && GetClass(d, 12) == Some(Web)
      && ActiveKnown(d)
  {
  }

  lemma ExampleGroup(active: Window)
    requires active > 0
    ensures Group(ExampleDisplay(active), [10, 11, 12], Some(Term)) == [11, 10]
  {
    var d := ExampleDisplay(active);
    ExampleQueries(active);
    assert Keep(d, 10, Some(Term)) == [10] && Keep(d, 11, Some(Term)) == [11];
    assert Keep(d, 12, Some(Term)) == [] by {
      assert Web[0] != Term[0];
    }
    assert [10][..0] == [];
    assert Group(d, [10], Some(Term)) == [10];
    assert [10, 11][..1] == [10];
    assert Group(d, [10, 11], Some(Term)) == [11, 10];
    assert [10, 11, 12][..2] == [10, 11];
  }

  lemma ExampleTable()
    ensures TableOf([11, 10]) == map[11 := 0, 10 := 1]
  {
    assert [11][..0] == [];
    assert [11, 10][..1] == [11];
  }

  lemma ExampleButtons()
    ensures var b := Buttons(ExampleDisplay(10), [11, 10], 10);
      |b| == 2 && b[0].window == 11 && !b[0].active && b[1].window == 10 && b[1].active
  {
    ButtonsAt(ExampleDisplay(10), [11, 10], 10);
  }

  /**
   * From the initial state, 10 active: the panel shows the two "Term"
   * windows, newest-listed first, with 10 on; 12 is left out.
   */
  lemma ExampleRebuild()
    ensures var r := Update(ExampleDisplay(10), Initial);
      && r.visible && r.count == 3 && r.cls == Some(Term)
      && |r.buttons| == 2 && r.buttons[0].window == 11 && r.buttons[1].window == 10
      && !r.buttons[0].active && r.buttons[1].active
      && r.table == map[11 := 0, 10 := 1]
  {
    var d := ExampleDisplay(10);
    ExampleQueries(10);
    ExampleGroup(10);
    ExampleTable();
    ExampleButtons();
    UpdateDecides(d, Initial);
    var q := Queried(d, Initial);
    assert q.cls == Some(Term) && q.toplevel == 10 && q.count == 3;
    assert Update(d, Initial) == ShowGroup(d, q, [11, 10]);
  }

  /** Then 11 becomes active with the same list: a reselect that switches on 11's button only. */
  lemma ExampleReselect()
    ensures var s := Update(ExampleDisplay(10), Initial); var r := Update(ExampleDisplay(11), s);
      && r.visible && r.table == s.table && |r.buttons| == 2
      && r.buttons[0].window == 11 && r.buttons[0].active
      && r.buttons[1].window == 10 && !r.buttons[1].active
  {
    ExampleRebuild();
    ExampleQueries(11);
    var s := Update(ExampleDisplay(10), Initial);
    var d := ExampleDisplay(11);
    assert !NeedsRebuild(d, s);
    assert Update(d, s) == Reselect(Queried(d, s));
  }
}
