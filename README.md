# window-tabs: the panel reconciliation engine in Dafny

window-tabs is a small X11 panel applet. It tracks the active application
window (`_MB_CURRENT_APP_WINDOW` on the root window). It shows one toggle
button for each window of the same WM_CLASS class in the window manager's
stacking list (`_MB_APP_WINDOW_LIST_STACKING`). Clicking a button asks the
window manager to activate that window with a `_NET_ACTIVE_WINDOW` client
message, as section "Root Window Properties (and Related Messages)" of the
Extended Window Manager Hints describes.

This project models the applet's core:

- `xutils.dfy`, module `XUtils`: the helpers of `xutils.c`. Every X round
  trip is an input. A `Display` value holds the replies of
  `XGetWindowProperty`, `XGetTextProperty` and `XGetClassHint`, the error
  trap's result, and the UTF-8 validity test. The helpers are modelled as
  the code shapes those replies. `get_window_atom` and
  `get_window_list_atom` write through out-parameters, so they are methods;
  the list is copied element by element into a new array, which stays NULL
  for an empty list.
- `panel.dfy`, module `Panel`: the state that `main.c` keeps in globals, as a
  value (`PanelState`). `Populate` is `populate_panel` and `Update` is
  `update_panel`, both as functions of the X state and the old state. The
  lemmas state what these promise.
- `applet.dfy`, module `Applet`: class `WindowTabs` holds the globals
  `current_toplevel`, `current_class`, `current_count` and `window_hash`.
  It also holds the panel box's buttons and whether the panel is shown. Its
  methods run the callbacks in place, with the source's loops, and each is
  proved to reach the state that the matching `Panel` function computes.

The window -> button table maps a window to the position of its button in
the box. A button is its window, its title and whether it is toggled on.

Behaviour kept exactly as the code has it, including where it may be
surprising:

- `current_count` is the length of the whole stacking list, not the number
  of siblings (main.c:179-183). A rebuild happens iff that length changed or
  the class does not `compare` equal to the previous one (`UpdateDecides`).
- Siblings are prepended, so buttons appear in reverse list order
  (`GroupIsReversedMatching`, `ExampleRebuild`).
- An empty sibling group is not a group of one, so the panel is shown with no
  buttons (`PopulateCollapses`).
- A failed read of the active window leaves `current_toplevel` at 0, because
  `get_window_atom` writes 0 before it reads. A class that cannot be read
  leaves `current_class` NULL. In all three early returns the table and the
  buttons are left as they were. The panel is only hidden (`UpdateHides`). So
  the table keeps its entries while the panel is hidden.
- The reselect branch never shows the panel. After a hide that kept the
  class and the count, the same application coming back leaves the panel
  hidden (`HiddenPanelStaysHidden`). One might expect a rebuild there; the code
  does not do one.
- When the active window has no button in the table, the reselect branch
  passes NULL to GTK, which refuses it. The model does nothing in that case.
- `get_window_atom` reads the first element even when the reply holds none
  (xutils.c:167). That read lies outside the reply's buffer. The model
  returns `Display.overreadWord` there and takes that word as an input.

## Model

| member | source | states |
|---|---|---|
| `XUtils.Compare` | xutils.c:286-296 | true iff both are NULL or both are equal strings; exactly one NULL gives false |
| `XUtils.TextPropertyToUtf8` | xutils.c:24-30 | NULL iff the conversion yields no string, otherwise the first string |
| `XUtils.Utf8Property` | xutils.c:64-88 | NULL exactly on a trap error, a failed call, a type other than UTF8_STRING, format not 8, no items, invalid UTF-8 or a NUL byte (which length-bounded validation rejects); otherwise exactly the property's bytes, none of them NUL |
| `XUtils.TextProperty` | xutils.c:91-119 | NULL when XGetTextProperty fails, otherwise the first-element rule over the converted strings |
| `XUtils.GetWindowName` | xutils.c:121-132 | the `_NET_WM_NAME` value when it can be read, otherwise the WM_NAME text result |
| `XUtils.GetWindowAtom` | xutils.c:134-172 | succeeds iff there is no error and the type is WINDOW; the value is 0 on failure and the first element on success, which is the value `WindowAtomValue` gives and `Panel.ActiveWindow` uses |
| `XUtils.GetWindowListAtom` | xutils.c:174-216 | succeeds iff there is no error and the type is WINDOW; on failure the outputs are (NULL, 0); on success the length is nitems; an empty property gives a NULL array (`g_new` of zero elements), otherwise the array holds the reply's items in order; the windows read are those `WindowListValue` gives, which `Panel.StackingList` uses |
| `XUtils.GetClass` | xutils.c:247-269 | NULL for window 0, a failed XGetClassHint or a trap error; otherwise the class part of WM_CLASS |
| `Panel.Group` | main.c:123-130 | the group built by prepending is never longer than the list it scans |
| `Panel.GroupIsReversedMatching` | main.c:123-130 | the sibling group is the list's windows of the current class, in reverse list order |
| `Panel.GroupMembers` | main.c:123-130 | a window is a sibling iff it is listed and its class compares equal to the current class |
| `Panel.GroupDistinct` | main.c:123-130 | a list without repeats gives a group without repeats |
| `Panel.NewButton` | main.c:92-94 | the button stands for its window, is on iff the window is the toplevel, and is titled with `_NET_WM_NAME` when that can be read, otherwise with the WM_NAME text |
| `Panel.Buttons` | main.c:140-143 | create_button run over the group adds exactly one button per group member |
| `Panel.ButtonsAt` | main.c:140-143 | one button per group member, in group order, titled with the window's name and on iff it is the toplevel |
| `Panel.TableOf` | main.c:108 | every window in the table maps to a position inside the group |
| `Panel.TableOfIndexes` | main.c:108 | the table's keys are exactly the group's windows; each maps to a position holding that window, the last one for a repeated window |
| `Panel.Populate` | main.c:112-148 | populate_panel keeps toplevel, class and count, shows the panel iff the group is not of size one, and adds no more buttons than the list has windows |
| `Panel.ShowGroup` | main.c:132-147 | keeps toplevel, class and count; a group of one leaves the panel hidden and the box empty, any other group shows one button per member |
| `Panel.PopulateCollapses` | main.c:132-147 | one sibling: panel hidden, no buttons, empty table; no sibling: panel shown with no buttons; shown iff the group is not of size one |
| `Panel.PopulateRebuilds` | main.c:119-147 | a rebuild that does not collapse empties the table first, then maps exactly the sibling windows to their buttons; only the toplevel's button starts on |
| `Panel.PopulateConsistent` | main.c:119-147 | populating always leaves the table and the box consistent and keeps toplevel, class and count |
| `Panel.SelectOnly` | main.c:190-191 | switching one radio button on keeps every button's window and title, leaves at most one button on, and that one is the chosen button |
| `Panel.Reselect` | main.c:187-192 | the reselect branch changes only the buttons, and keeps their number |
| `Panel.ReselectSelectsToplevel` | main.c:187-192 | in a consistent state a reselect keeps it consistent; with the toplevel in the table its button is on and every button that is on is the toplevel's; without it nothing changes |
| `Panel.ReselectTwice` | main.c:187-192 | a second reselect changes nothing |
| `Panel.Update` | main.c:150-196 | update_panel always leaves current_toplevel at what get_window_atom wrote, and the panel is shown only when the active window and its class were read |
| `Panel.UpdateHides` | main.c:158-177 | a failed read, a None handle or a NULL class hides the panel and leaves count, buttons and table untouched; a failed read or a None handle leaves the state otherwise unchanged with toplevel 0, so the class is kept; a class that cannot be read leaves toplevel at the active window and the class NULL |
| `Panel.UpdateDecides` | main.c:179-192 | with the active window and class read: rebuild iff the list length differs from the previous count or the class differs; otherwise only the toplevel's button is switched on and the table, titles and visibility are unchanged |
| `Panel.UpdateConsistent` | main.c:150-196 | every update keeps each table entry pointing at a button for that window, and every button in the table |
| `Panel.PopulateSelected` | main.c:186-192 | after a rebuild from a list without repeats, reselecting changes nothing |
| `Panel.UpdateIdempotent` | main.c:183-192 | a second update against the same X state (list without repeats) is never a rebuild when the active window is known, and changes nothing |
| `Panel.HiddenPanelStaysHidden` | main.c:166-192 | a hidden panel stays hidden when the update is a reselect |
| `Panel.TitleRefreshTarget` | main.c:60-71 | a title is re-read only on PropertyNotify with PropertyNewValue for WM_NAME or _NET_WM_NAME on a window in the table |
| `Panel.TriggersUpdate` | main.c:207-212 | update_panel runs iff the event is a PropertyNotify on _MB_CURRENT_APP_WINDOW |
| `Panel.ActivationRequest` | main.c:26-46 | a button toggled off sends nothing; one toggled on sends one _NET_ACTIVE_WINDOW message to the root window with the button's window, l[0]=2, l[1] the time, l[2] the panel's toplevel, l[3]=l[4]=0 |
| `Panel.ActivationRoundTrip` | main.c:32-46 | a window manager reads that message as a pager's request to activate the button's window |
| `Panel.ExampleRebuild` | main.c:150-196 | windows 10 and 11 of one class and 12 of another, 10 active: buttons for 11 then 10, only 10 on, 12 left out |
| `Panel.ExampleReselect` | main.c:187-192 | then 11 active with the same list: same table, and only 11's button on |
| `Applet.WindowTabs.constructor` | main.c:7-12 | the globals start at None, NULL, 0 and an empty table |
| `Applet.WindowTabs.CreateButton` | main.c:85-110 | appends the window's button to the box and inserts the window with that button into the table |
| `Applet.WindowTabs.CollectGroup` | main.c:123-130 | the first loop of populate_panel collects exactly `Panel.Group` of the listed windows |
| `Applet.WindowTabs.AddButtons` | main.c:140-143 | the second loop, from an empty box and table, leaves exactly the buttons of `Panel.Buttons` and the table of `Panel.TableOf`, and changes no other global |
| `Applet.WindowTabs.PopulatePanel` | main.c:112-148 | the in-place populate_panel reaches exactly `Panel.Populate` of the old state |
| `Applet.WindowTabs.Reconcile` | main.c:183-192 | the end of update_panel rebuilds through `Panel.Populate` when the count or class changed, otherwise reaches `Panel.Reselect` |
| `Applet.WindowTabs.UpdatePanel` | main.c:150-196 | the in-place update_panel reaches exactly `Panel.Update` of the old state and keeps the table consistent |
| `Applet.WindowTabs.WindowFilter` | main.c:53-72 | retitles only the tracked window's button, changes nothing else, and returns CONTINUE |
| `Applet.WindowTabs.RootFilter` | main.c:202-215 | runs the update exactly when triggered, otherwise changes nothing; returns CONTINUE |
| `Applet.WindowTabs.OnButtonClicked` | main.c:20-47 | sends the activation request of `Panel.ActivationRequest` for the clicked button's state and window |

## Left out

- GTK widget construction, layout, the dock type hint and `main` (main.c:217-251, the widget calls in main.c:92-97). Buttons are values, not widgets.
- GTK radio-group behaviour. In GTK the first button of a new group starts on. Setting a button on also fires "toggled" on its neighbours. The model takes a button's on state from main.c:94 at a rebuild, and from radio exclusion at a reselect. It does not model the signals that `gtk_toggle_button_set_active` emits, so it omits the activation request that a reselect sends through `on_button_clicked`.
- Per-window event subscriptions: adding the filter, the `remove_filter` destroy notify and the event-mask changes (main.c:74-83, 99-105, 229-233). They are foreign calls; the table stands in for the set of watched windows.
- The X round trips (`XGetWindowProperty`, `XGetTextProperty`, `XGetClassHint`, `XSendEvent`) and the error trap stack. They are inputs. So `get_class` leaving the trap pushed on failure (xutils.c:256-258) is not modelled.
- `gdk_text_property_to_utf8_list` and `g_utf8_validate` are library calls. They are inputs of `Display`.
- Memory management: `XFree`, `g_free`, and the leak of the old class on the NULL-class path (main.c:172-177).
- `init_atoms` (xutils.c:271-284) only interns names; atoms are a datatype. `get_group_leader` (xutils.c:218-245) is compiled out.
- The event timestamp from `gtk_get_current_event_time` is an opaque parameter. Event-loop dispatch is not modelled.
- The `g_warning` messages (main.c:161, xutils.c:79) are logging only and are left out.
- Panel.UpdateIdempotent: requires a stacking list without repeated windows. A rebuild here turns on every button of the toplevel (main.c:94), while GTK's radio group would leave only the last one on, which is the one a reselect picks; radio exclusion during a rebuild is not modelled (see the line on GTK radio-group behaviour).
- Integer widths: windows, counts and message longs are unbounded. The conversion of `nitems` to `int` in `get_window_list_atom` is not modelled.
- XUtils.GetWindowListAtom: does not state that the array it returns is newly allocated.
