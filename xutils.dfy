/**
 * Typed accessors over the X property protocol (xutils.c).
 *
 * Every X round trip (XGetWindowProperty, XGetTextProperty, XGetClassHint and
 * the error trap around them) is an input: a `Display` value answers each
 * query with the reply record the server would give.  What remains, and what
 * is modelled here, is how each helper turns such a reply into a value or a
 * failure.
 */
module XUtils {

  datatype Option<+T> = None | Some(value: T)

  type byte = b: int | 0 <= b < 256

  /** The bytes of a NUL-terminated C string, without the terminator: no byte is NUL. */
  type Text = s: seq<byte> | 0 !in s

  /** An X resource id; 0 is X's `None`. */
  type Window = nat

  const NoWindow: Window := 0

  /** X's `Success` status and "no error" trap result. */
  const Success: nat := 0

  /**
   * The atoms the applet uses: the predefined XA_WINDOW and XA_WM_NAME, the
   * five names interned at start-up (xutils.h), X's `None` (the type of a
   * missing property) and any other atom a reply may carry.
   */
  datatype Atom =
    | NoAtom
    | XaWindow
    | XaWmName
    | MbAppWindowListStacking
    | MbCurrentAppWindow
    | Utf8String
    | NetWmName
    | NetActiveWindow
    | OtherAtom(id: nat)

  /**
   * What XGetWindowProperty hands back, together with the error trap's
   * result: `trapError` is what gdk_error_trap_pop returned, `status` the
   * call's own return value; `items` has nitems elements.
   */
  datatype PropertyReply<T> = PropertyReply(
    trapError: nat,
    status: nat,
    actualType: Atom,
    format: nat,
    items: seq<T>)

  /**
   * What XGetClassHint hands back: `found` is its (non-zero) return value,
   * `trapError` the error trap's result read afterwards.
   */
  datatype ClassReply = ClassReply(found: bool, trapError: nat, resName: Text, resClass: Text)

  /**
   * The X server as the applet sees it.
   * - `windowProp`: replies to XGetWindowProperty with req_type XA_WINDOW;
   * - `utf8Prop`: replies to XGetWindowProperty with req_type UTF8_STRING;
   * - `textProp`: None when XGetTextProperty fails, otherwise the strings
   *   gdk_text_property_to_utf8_list converts the text property to;
   * - `classHint`: replies to XGetClassHint;
   * - `validUtf8`: g_utf8_validate's encoding check on the given bytes (its
   *   rejection of NUL bytes when given a length is written out where it is
   *   used);
   * - `overreadWord`: the word get_window_atom reads when a reply of type
   *   WINDOW holds no element (the read lies outside the reply's buffer).
   */
  datatype Display = Display(
    root: Window,
    windowProp: (Window, Atom) -> PropertyReply<Window>,
    utf8Prop: (Window, Atom) -> PropertyReply<byte>,
    textProp: (Window, Atom) -> Option<seq<Text>>,
    classHint: Window -> ClassReply,
    validUtf8: seq<byte> -> bool,
    overreadWord: Window)

  /** String equality where either side may be NULL (`compare`). */
  function Compare(s1: Option<Text>, s2: Option<Text>): (r: bool)
    ensures r <==> s1 == s2
    ensures s1.None? && s2.None? ==> r
    ensures s1.None? != s2.None? ==> !r
  {
    match (s1, s2)
    case (None, None) => true
    case (None, Some(_)) => false
    case (Some(_), None) => false
    case (Some(a), Some(b)) => a == b
  }

  /** `text_property_to_utf8`: no string converted gives NULL, otherwise the first one. */
  function TextPropertyToUtf8(list: seq<Text>): (r: Option<Text>)
    ensures r.None? <==> |list| == 0
    ensures r.Some? ==> r.value == list[0]
  {
    if |list| == 0 then None else Some(list[0])
  }

  /**
   * `_wnck_get_utf8_property`: the property's bytes, or NULL on any check that
   * fails.  Validation with an explicit length also fails on a NUL byte, so
   * g_strndup copies all nitems bytes of a value that passes.
   */
  function Utf8Property(d: Display, xwindow: Window, atom: Atom): (r: Option<Text>)
    ensures var p := d.utf8Prop(xwindow, atom);
      && (p.trapError != Success || p.status != Success ==> r.None?)
      && (p.actualType != Utf8String || p.format != 8 || |p.items| == 0 ==> r.None?)
      && (!d.validUtf8(p.items) || 0 in p.items ==> r.None?)
      && (r.Some? ==> r.value == p.items && |r.value| > 0 && 0 !in r.value)
    ensures var p := d.utf8Prop(xwindow, atom);
      r.None? ==> p.trapError != Success || p.status != Success || p.actualType != Utf8String
                  || p.format != 8 || |p.items| == 0 || !d.validUtf8(p.items) || 0 in p.items
  {
    var p := d.utf8Prop(xwindow, atom);
    if p.trapError != Success || p.status != Success then None
    else if p.actualType != Utf8String || p.format != 8 || |p.items| == 0 then None
    else if !d.validUtf8(p.items) || 0 in p.items then None
    else Some(p.items)
  }

  /** `_wnck_get_text_property`: the first converted string, or NULL when the read fails. */
  function TextProperty(d: Display, xwindow: Window, atom: Atom): (r: Option<Text>)
    ensures d.textProp(xwindow, atom).None? ==> r.None?
    ensures d.textProp(xwindow, atom).Some? ==> r == TextPropertyToUtf8(d.textProp(xwindow, atom).value)
  {
    match d.textProp(xwindow, atom)
    case None => None
    case Some(list) => TextPropertyToUtf8(list)
  }

  /** `get_window_name`: _NET_WM_NAME when it can be read, WM_NAME otherwise. */
  function GetWindowName(d: Display, xwindow: Window): (r: Option<Text>)
    ensures Utf8Property(d, xwindow, NetWmName).Some? ==> r == Utf8Property(d, xwindow, NetWmName)
    ensures Utf8Property(d, xwindow, NetWmName).None? ==> r == TextProperty(d, xwindow, XaWmName)
  {
    var name := Utf8Property(d, xwindow, NetWmName);
    if name.None? then TextProperty(d, xwindow, XaWmName) else name
  }

  /** The checks get_window_atom and get_window_list_atom share: no error, and type WINDOW. */
  predicate WindowReplyOk(p: PropertyReply<Window>)
  {
    p.trapError == Success && p.status == Success && p.actualType == XaWindow
  }

  /**
   * The window get_window_atom stores: 0 when the read fails, otherwise the
   * reply's first element (the word past the buffer when it has none).
   */
  function WindowAtomValue(d: Display, xwindow: Window, atom: Atom): Window
  {
    var p := d.windowProp(xwindow, atom);
    if !WindowReplyOk(p) then NoWindow else if |p.items| > 0 then p.items[0] else d.overreadWord
  }

  /** The windows get_window_list_atom yields: none when the read fails. */
  function WindowListValue(d: Display, xwindow: Window, atom: Atom): seq<Window>
  {
    var p := d.windowProp(xwindow, atom);
    if WindowReplyOk(p) then p.items else []
  }

  /** `get_window_atom`: reads a single-window property; `val` is 0 on failure. */
  method GetWindowAtom(d: Display, xwindow: Window, atom: Atom) returns (ok: bool, val: Window)
    ensures val == WindowAtomValue(d, xwindow, atom)
    ensures ok <==> WindowReplyOk(d.windowProp(xwindow, atom))
    ensures !ok ==> val == NoWindow
    ensures ok && |d.windowProp(xwindow, atom).items| > 0 ==> val == d.windowProp(xwindow, atom).items[0]
    ensures ok && |d.windowProp(xwindow, atom).items| == 0 ==> val == d.overreadWord
  {
    val := NoWindow;
    var p := d.windowProp(xwindow, atom);
    if p.trapError != Success || p.status != Success {
      return false, val;
    }
    if p.actualType != XaWindow {
      return false, val;
    }
    val := if |p.items| > 0 then p.items[0] else d.overreadWord;
    ok := true;
  }

  /**
   * `get_window_list_atom`: reads a list-of-windows property into a new array.
   * On failure the outputs stay reset to (NULL, 0).  A present but empty
   * property is a success of length 0 whose array is NULL, since g_new of
   * zero elements returns NULL.
   */
  method GetWindowListAtom(d: Display, xwindow: Window, atom: Atom)
    returns (ok: bool, windows: array?<Window>, len: nat)
    ensures ok <==> WindowReplyOk(d.windowProp(xwindow, atom))
    ensures !ok ==> windows == null && len == 0
    ensures ok ==> len == |d.windowProp(xwindow, atom).items|
    ensures ok && len == 0 ==> windows == null
    ensures ok && len > 0 ==> windows != null && windows.Length == len
    ensures ok && len > 0 ==> windows[..] == d.windowProp(xwindow, atom).items
    ensures (if windows == null then [] else windows[..len]) == WindowListValue(d, xwindow, atom)
  {
    windows, len := null, 0;
    var p := d.windowProp(xwindow, atom);
    if p.trapError != Success || p.status != Success {
      return false, windows, len;
    }
    if p.actualType != XaWindow {
      return false, windows, len;
    }
    var data := p.items;
    if |data| == 0 {
      return true, windows, len;
    }
    var copy := new Window[|data|];
    var i := 0;
    while i < |data|
      invariant 0 <= i <= |data|
      invariant copy[..i] == data[..i]
    {
      copy[i] := data[i];
      i := i + 1;
    }
    assert copy[..] == copy[..|data|];
    windows, len, ok := copy, |data|, true;
  }

  /** `get_class`: the window's WM_CLASS class part, or NULL for window 0 or a failed read. */
  function GetClass(d: Display, window: Window): (r: Option<Text>)
    ensures window == NoWindow ==> r.None?
    ensures window != NoWindow && !d.classHint(window).found ==> r.None?
    ensures window != NoWindow && d.classHint(window).trapError != Success ==> r.None?
    ensures window != NoWindow && d.classHint(window).found && d.classHint(window).trapError == Success
            ==> r == Some(d.classHint(window).resClass)
  {
    if window == NoWindow then None
    else
      var hints := d.classHint(window);
      if !hints.found then None
      else if hints.trapError != Success then None
      else Some(hints.resClass)
  }
}
