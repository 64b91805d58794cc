/** Resolution of a window to the process that hosts it
    (`_get_window_process`): a window object, or a string that names a window
    by hashcode or by title, is turned into a window, which is replaced by the
    window it is attached to, and that window's title is looked up among the
    running activities. The window and activity lists are inputs. */
module WindowProcess {
  import opened Outcomes
  import opened Lists

  /** A window as the window manager lists it. */
  datatype Window = Window(hashcode: string, title: string, attached: Option<Window>)

  /** A running activity and the process it belongs to. */
  datatype Activity = Activity(name: string, processName: string)

  /** The argument: a window object, or a string naming a window. */
  datatype WindowRef = ByWindow(window: Window) | ByText(text: string)

  /** No listed window carries the given hashcode or title. */
  datatype ResolveError = WindowNotFound(identifier: string)

  /** The identifier answered without consulting any list. */
  const StatusBar: string := "StatusBar"
  const SystemUiProcess: string := "com.android.systemui"

  /** `\w`, restricted to ASCII. */
  predicate IsWordChar(c: char) {
    'a' <= c <= 'z' || 'A' <= c <= 'Z' || '0' <= c <= '9' || c == '_'
  }

  predicate AllWordChars(s: string) {
    forall i :: 0 <= i < |s| ==> IsWordChar(s[i])
  }

  /** Length of the run of word characters at the start of `s`. */
  function WordRun(s: string): (n: nat)
    ensures n <= |s|
    ensures forall i :: 0 <= i < n ==> IsWordChar(s[i])
    ensures n == |s| || !IsWordChar(s[n])
  {
    if |s| > 0 && IsWordChar(s[0]) then 1 + WordRun(s[1..]) else 0
  }

  /** `re.compile(r'^\w{6,8}$').match(s) != None`, as a hand matcher: the
      greedy `\w{6,8}` must stop where `$` holds, at the end of the string or
      just before a final newline. */
  function LooksLikeHashcode(s: string): bool {
    var n := WordRun(s);
    6 <= n <= 8 && (n == |s| || (n + 1 == |s| && s[n] == '\n'))
  }

  /** The strings `^\w{6,8}$` accepts: six to eight word characters,
      optionally followed by one newline. */
  ghost predicate HashcodeShaped(s: string) {
    || (6 <= |s| <= 8 && AllWordChars(s))
    || (7 <= |s| <= 9 && s[|s| - 1] == '\n' && AllWordChars(s[..|s| - 1]))
  }

  lemma LooksLikeHashcodeExact(s: string)
    ensures LooksLikeHashcode(s) <==> HashcodeShaped(s)
  {
    var n := WordRun(s);
    if |s| > 0 {
      var w := s[..|s| - 1];
      assert forall i :: 0 <= i < |w| ==> w[i] == s[i];
    }
    if 7 <= |s| <= 9 && s[|s| - 1] == '\n' && AllWordChars(s[..|s| - 1]) {
      assert n == |s| - 1;
    }
    if 6 <= |s| <= 8 && AllWordChars(s) {
      assert n == |s|;
    }
  }

  /** A string argument picks a window by hashcode when it looks like one and
      by title otherwise; the other field is never compared. */
  predicate Selects(w: Window, text: string) {
    if LooksLikeHashcode(text) then w.hashcode == text else w.title == text
  }

  /** Position of the first listed window the string picks. */
  function FindWindow(windows: seq<Window>, text: string): (r: Option<nat>)
    ensures r.Some? ==> r.value < |windows| && Selects(windows[r.value], text)
    ensures r.Some? ==> forall j :: 0 <= j < r.value ==> !Selects(windows[j], text)
    ensures r.None? <==> forall j :: 0 <= j < |windows| ==> !Selects(windows[j], text)
  {
    FirstIndex(windows, (w: Window) => Selects(w, text))
  }

  /** The window that actually hosts `w`: the one it is attached to, if any.
      Exactly one hop is taken; the attached window's own attachment is not
      followed. */
  function Host(w: Window): Window {
    match w.attached
    case Some(a) => a
    case None => w
  }

  /** Process of the first activity whose name is `title`; `None` when no
      activity has that name. */
  function ProcessOf(activities: seq<Activity>, title: string): (r: Option<string>)
    ensures r.None? <==> forall k :: 0 <= k < |activities| ==> activities[k].name != title
    ensures r.Some? ==> exists k :: && 0 <= k < |activities|
                                    && activities[k].name == title
                                    && activities[k].processName == r.value
                                    && forall j :: 0 <= j < k ==> activities[j].name != title
  {
    match FirstIndex(activities, (a: Activity) => a.name == title)
    case None => None
    case Some(k) => Some(activities[k].processName)
  }

  /** `_get_window_process`. A missing window is an error; a window whose
      title no activity carries gives `Success(None)`, standing for the `None`
      that `_get_window_process` returns implicitly, which is distinct from
      that error. */
  function ResolveProcess(ref: WindowRef, windows: seq<Window>, activities: seq<Activity>)
    : (r: Result<Option<string>, ResolveError>)
    ensures ref == ByText(StatusBar) ==> r == Success(Some(SystemUiProcess))
    ensures ref.ByText? && ref.text != StatusBar ==>
              (r.Failure? <==> forall k :: 0 <= k < |windows| ==> !Selects(windows[k], ref.text))
    ensures r.Failure? ==> ref.ByText? && r.error == WindowNotFound(ref.text)
    ensures ref.ByWindow? ==> r.Success?
  {
    match ref
    case ByWindow(w) => Success(ProcessOf(activities, Host(w).title))
    case ByText(text) =>
      if text == StatusBar then Success(Some(SystemUiProcess))
      else
        match FindWindow(windows, text)
        case None => Failure(WindowNotFound(text))
        case Some(k) => Success(ProcessOf(activities, Host(windows[k]).title))
  }

  /** A string argument other than `StatusBar` resolves through the first
      window in list order that it picks, whatever later windows hold. */
  lemma ResolveUsesFirstSelectedWindow(text: string, windows: seq<Window>, activities: seq<Activity>, k: nat)
    requires text != StatusBar
    requires k < |windows| && Selects(windows[k], text)
    requires forall j :: 0 <= j < k ==> !Selects(windows[j], text)
    ensures ResolveProcess(ByText(text), windows, activities)
              == Success(ProcessOf(activities, Host(windows[k]).title))
  {
    FirstIndexIs(windows, (w: Window) => Selects(w, text), k);
  }

  /** A hashcode-shaped string is never matched against titles: with no
      window carrying it as hashcode, resolution fails even if titles equal it. */
  lemma HashcodeIgnoresTitles(text: string, windows: seq<Window>, activities: seq<Activity>)
    requires HashcodeShaped(text)
    requires forall k :: 0 <= k < |windows| ==> windows[k].hashcode != text
    ensures ResolveProcess(ByText(text), windows, activities) == Failure(WindowNotFound(text))
  {
    LooksLikeHashcodeExact(text);
    assert |text| <= 9;
  }

  /** Any other string is never matched against hashcodes. */
  lemma TitleIgnoresHashcodes(text: string, windows: seq<Window>, activities: seq<Activity>)
    requires !HashcodeShaped(text) && text != StatusBar
    requires forall k :: 0 <= k < |windows| ==> windows[k].title != text
    ensures ResolveProcess(ByText(text), windows, activities) == Failure(WindowNotFound(text))
  {
    LooksLikeHashcodeExact(text);
  }

  /** A window attached to `v` resolves by `v`'s title, whatever `v` is itself
      attached to. */
  lemma AttachedWindowDecides(w: Window, v: Window, windows: seq<Window>, activities: seq<Activity>)
    requires w.attached == Some(v)
    ensures ResolveProcess(ByWindow(w), windows, activities) == Success(ProcessOf(activities, v.title))
  {
  }

  /** A window with no attachment resolves by its own title. */
  lemma UnattachedWindowDecides(w: Window, windows: seq<Window>, activities: seq<Activity>)
    requires w.attached.None?
    ensures ResolveProcess(ByWindow(w), windows, activities) == Success(ProcessOf(activities, w.title))
  {
  }

  /** Looking a window up by string and passing the window itself agree:
      both resolve through the same host window. */
  lemma ByTextAgreesWithByWindow(text: string, windows: seq<Window>, activities: seq<Activity>)
    requires text != StatusBar
    requires FindWindow(windows, text).Some?
    ensures ResolveProcess(ByText(text), windows, activities)
              == ResolveProcess(ByWindow(windows[FindWindow(windows, text).value]), windows, activities)
  {
  }

  /** A hashcode lookup through an attached window: the popup `ab12cd`
      attached to the main window resolves by the main window's title. */
  lemma AttachedHashcodeExample()
    ensures ResolveProcess(ByText("ab12cd"),
                           [Window("ab12cd", "Popup", Some(Window("f00d42", "MainActivity", None)))],
                           [Activity("Popup", "com.example.popup"), Activity("MainActivity", "com.example.app")])
              == Success(Some("com.example.app"))
  {
    assert LooksLikeHashcode("ab12cd") by {
      LooksLikeHashcodeExact("ab12cd");
    }
  }
}
