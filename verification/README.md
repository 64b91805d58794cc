# Flutter control manager: a Dafny model

This project models the pure logic of the Flutter control manager of
AndroidUISpy (`manager/fluttercontrolmanager.py`). It covers four pieces:

- **Debugger discovery** (`_get_ws_address`). The device log is polled for
  the engine's `Observatory listening on <url>` announcement. The announced
  URL becomes the WebSocket address given to the Flutter driver, and its port
  is forwarded with adb.
- **Window-to-process resolution** (`_get_window_process`). A window object,
  or a string naming a window by hashcode or by title, is resolved to the
  process that hosts it. The lookup goes through the attached window and the
  running activities.
- **Control uniqueness** (`get_flutter_control`). The controls the driver
  locates must number exactly one.
- **FlutterView detection** (`find_flutter_view`). Whether any
  collected control type names the engine's root view.

Modules:

- `Outcomes`: `Option` and `Result`, which stand in for `None` and for the
  exceptions.
- `Lists`: first-match linear search.
- `Strings`: Python's `split`, `join` and `in`.
- `Numerals`: Python's `int()` and `str()` on numbers.
- `ObservatoryLog`: the log pattern, as a hand matcher proved equal to a
  declarative reading of the regular expression.
- `Discovery`: URL-to-address derivation and the polling loop.
- `WindowProcess`: window resolution.
- `FlutterControls`: the uniqueness check and FlutterView detection.

The deadline loop becomes recursion over a finite list of log snapshots, one
per poll that happens before the deadline. That list stands in for the clock.
The `adb forward(port, port)` call is recorded as the port pair of the
returned `Endpoint`. The window and activity lists of the two singleton
managers are plain input sequences.

On these points the model follows the code, which a reader might not expect:

- The address keeps the `//` that follows `http:`. So
  `http://127.0.0.1:9100/abcd123/` gives `ws://127.0.0.1:9100/abcd123/ws`, not
  `ws:127.0.0.1:9100/abcd123/ws`.
- A window whose title no activity carries yields an absent process name
  (`Success(None)`), not an error.
- FlutterView detection yields `None`, not `False`, when nothing matches.
- A URL matched through the `//` alternative of the pattern reaches the
  three-way unpacking. With a single colon it fails there, before any port
  is forwarded.

`int(port)` is modelled on Python 3. It strips surrounding whitespace, accepts a `+`
or `-` sign, and accepts digits grouped by single underscores. Like CPython 3.11
and later with their default settings, it refuses text of more than 4300
digits, counted without the underscores (`MaxStrDigits`). The address copies the
port text verbatim, and the forwarded pair carries its integer value.

## Model

| member | source | states |
|---|---|---|
| ObservatoryLog.RunLength | manager/fluttercontrolmanager.py:28 | the greedy `[...]+` of the pattern: the run it takes has only URL characters and ends at the end of the line or at a character outside the class |
| ObservatoryLog.MatchAtExact | manager/fluttercontrolmanager.py:28 | at every position, the hand matcher returns `g` exactly when the pattern matches there with group 1 equal to `g` (marker, `http` or `//`, then the longest run of URL characters) |
| ObservatoryLog.SearchFrom | manager/fluttercontrolmanager.py:62-64 | every group the search returns is a well-formed debugger URL: `http` or `//`, at least one more character, all in the class |
| ObservatoryLog.SearchFromExact | manager/fluttercontrolmanager.py:62-64 | `re.search` semantics from a start position: the result is the group at the leftmost matching position, and there is no result exactly when the pattern matches nowhere from there |
| ObservatoryLog.SearchFromNone | manager/fluttercontrolmanager.py:62-63 | the search from a position finds nothing exactly when the pattern matches at no later position |
| ObservatoryLog.SearchFromFirst | manager/fluttercontrolmanager.py:62-64 | a group found from a position comes from a matching position with no match between the start and it |
| ObservatoryLog.SearchExact | manager/fluttercontrolmanager.py:62-64 | `re.search(REG_EXP, item).group(1)` is the group of the leftmost match in the line, and `None` exactly when the line does not match |
| ObservatoryLog.SearchAnnouncement | manager/fluttercontrolmanager.py:28 | a line `Observatory listening on <url>` followed by a non-URL character or the end of the line yields exactly `<url>` |
| ObservatoryLog.UrlsExact | manager/fluttercontrolmanager.py:61-65 | one snapshot contributes at most one URL per line, each well formed, and none exactly when no line matches |
| ObservatoryLog.LastUrlFromLastMatchingLine | manager/fluttercontrolmanager.py:61-67 | the last URL of a snapshot is the group of its last matching line; no later line matches |
| Strings.IndexOf | manager/fluttercontrolmanager.py:68-70 | the position found holds the separator and no earlier position does; no position means no separator at all |
| Strings.Split | manager/fluttercontrolmanager.py:68-70 | `str.split(c)` gives at least one piece and no piece contains the separator |
| Strings.SplitCount | manager/fluttercontrolmanager.py:68 | `str.split(c)` gives one more piece than there are separators |
| Strings.JoinSplit | manager/fluttercontrolmanager.py:70 | `c.join(s.split(c)) == s` |
| Strings.SplitJoin | manager/fluttercontrolmanager.py:68-70 | `c.join(parts).split(c) == parts` when no piece holds the separator |
| Strings.Contains | manager/fluttercontrolmanager.py:119 | `sub in s` holds exactly when `sub` occurs at some position of `s` |
| Numerals.ParseIntAlphabet | manager/fluttercontrolmanager.py:71 | `int(port)` succeeds only on text made of whitespace, signs, digits and underscores that holds at least one digit |
| Numerals.ParseIntShow | manager/fluttercontrolmanager.py:71 | `int(str(n)) == n` and `int("-" + str(n)) == -n` for every natural `n` of at most 4300 digits; with more digits both raise |
| Discovery.ParseAddress | manager/fluttercontrolmanager.py:68-72 | the forwarded pair is always local = remote, and no parse error is ever the not-found error |
| Discovery.ParseAddressUnpack | manager/fluttercontrolmanager.py:68 | the three-way unpacking raises exactly when the URL does not hold exactly two colons |
| Discovery.SchemelessUrlRejected | manager/fluttercontrolmanager.py:68 | a `//host:port/path` URL with one colon, which the pattern accepts, raises at the unpacking |
| Discovery.SplitThreeParts | manager/fluttercontrolmanager.py:68 | a URL `scheme:host:tail` with no other colon unpacks into exactly those three parts |
| Discovery.SplitPortAndPath | manager/fluttercontrolmanager.py:69-70 | the port is the third part up to its first `/`, and the path is everything after that `/` |
| Discovery.ParseAddressWithPath | manager/fluttercontrolmanager.py:68-72 | `scheme:host:port/path` becomes `ws:host:port/pathws`, forwarding `int(port)` both ways, or raises when `int(port)` does |
| Discovery.ParseAddressWithoutPath | manager/fluttercontrolmanager.py:68-72 | `scheme:host:port` with no slash becomes `ws:host:port/ws`, or raises when `int(port)` does |
| Discovery.HttpUrlAddress | manager/fluttercontrolmanager.py:68-72 | `http:<host>:<n>/<path>` gives `ws:<host>:<n>/<path>ws` and forwards `n` both ways, for every host and path free of colons, when `n` has at most 4300 digits; with more, it raises as a port that is not an integer |
| Discovery.ExampleUrlAddress | manager/fluttercontrolmanager.py:68-72 | `http://127.0.0.1:9100/abcd123/` gives `ws://127.0.0.1:9100/abcd123/ws`, keeping the `//`, and forwards 9100 both ways |
| Discovery.DiscoverUsesFirstAnnouncingPoll | manager/fluttercontrolmanager.py:56-76 | the loop as written, with its never-cleared URL list, returns the parse of the last URL of the first snapshot that has one, and raises "Get flutter debugger url error." when no snapshot has one |
| Discovery.DiscoverNotFound | manager/fluttercontrolmanager.py:58-76 | discovery reports the not-found error exactly when no line of any polled snapshot matches the pattern |
| Discovery.DiscoverStopsAtFirstAnnouncement | manager/fluttercontrolmanager.py:66-73 | once a snapshot has announced, later polls do not change the outcome |
| ObservatoryLog.UrlsConcat | manager/fluttercontrolmanager.py:61-65 | the URLs of two consecutive runs of lines are those of the first run followed by those of the second |
| Discovery.LastAnnouncementWins | manager/fluttercontrolmanager.py:61-67 | when the first announcing snapshot, after any number of silent polls, ends with an announcement, that URL is used, whatever earlier lines of the snapshot announced |
| Discovery.DiscoverHttpAnnouncement | manager/fluttercontrolmanager.py:56-73 | after any number of silent polls, a snapshot made of the single line `Observatory listening on http:<host>:<n>/<path>` yields `ws:<host>:<n>/<path>ws` with `n` forwarded when `n` has at most 4300 digits, and fails on the port when it has more |
| Discovery.ExampleDiscovery | manager/fluttercontrolmanager.py:56-73 | a first poll whose log is the single line `Observatory listening on http://127.0.0.1:9100/abcd123/` yields `ws://127.0.0.1:9100/abcd123/ws` with 9100 forwarded |
| WindowProcess.LooksLikeHashcodeExact | manager/fluttercontrolmanager.py:87 | `^\w{6,8}$` accepts exactly six to eight word characters, optionally followed by one final newline |
| WindowProcess.FindWindow | manager/fluttercontrolmanager.py:96-104 | the window found is the first in list order that the string picks; none is found exactly when no window is picked |
| WindowProcess.ProcessOf | manager/fluttercontrolmanager.py:106-108 | the process is that of the first activity named like the window's title; it is absent exactly when no activity has that name |
| WindowProcess.ResolveProcess | manager/fluttercontrolmanager.py:82-108 | `StatusBar` gives `com.android.systemui` whatever the lists hold; any other string fails with `WindowNotFound` exactly when no window is picked; a window object never fails |
| WindowProcess.ResolveUsesFirstSelectedWindow | manager/fluttercontrolmanager.py:96-102 | a string resolves through the host of the first window it picks, whatever later windows hold |
| WindowProcess.HashcodeIgnoresTitles | manager/fluttercontrolmanager.py:93-97 | a hashcode-shaped string that no window carries as hashcode fails, even if some title equals it |
| WindowProcess.TitleIgnoresHashcodes | manager/fluttercontrolmanager.py:93-97 | any other string that no window carries as title fails, even if some hashcode equals it |
| WindowProcess.AttachedWindowDecides | manager/fluttercontrolmanager.py:88-91 | a window attached to `v` resolves by `v`'s title, one hop only |
| WindowProcess.UnattachedWindowDecides | manager/fluttercontrolmanager.py:88-91 | a window object with no attached window resolves by its own title |
| WindowProcess.ByTextAgreesWithByWindow | manager/fluttercontrolmanager.py:88-101 | looking a window up by string resolves the same as passing that window object |
| WindowProcess.AttachedHashcodeExample | manager/fluttercontrolmanager.py:96-108 | the hashcode `ab12cd` of a popup attached to `MainActivity` resolves to the main window's process, not the popup's |
| FlutterControls.UniqueControl | manager/fluttercontrolmanager.py:139-143 | no control raises "Get control failed.", several raise "Control is not unique.", and a success means the list is exactly that one control |
| FlutterControls.UniqueControlSingleton | manager/fluttercontrolmanager.py:139-143 | `get_flutter_control` returns `c` exactly when the located controls are `[c]` |
| FlutterControls.FindFlutterView | manager/fluttercontrolmanager.py:118-120 | the result is `True` exactly when some collected type contains `FlutterView`, and `None`, never `False`, otherwise |

## Left out

- The deadline arithmetic with `time.time` and `time.sleep` (lines 57-58, 74) is replaced by the finite list of snapshots polled before the deadline.
- `adb.get_log` (line 59) is not modelled; its snapshots are inputs. `adb.forward` (line 71) is recorded as the `Endpoint` port pair.
- UTF-8 decoding of log lines (line 60) is not modelled; lines are taken as already decoded text.
- `FlutterDriver` construction and calls (lines 43-49, 122-127, 136-138, 153-158) are not modelled; this is delegation to a foreign wire client.
- The QPath encoding and `_parsed_qpath` access (lines 133-135, 138) are not modelled; only the cardinality check on the returned list is.
- The `try`/`except RuntimeError` re-raise (lines 144-145) is not modelled; it changes nothing.
- `_get_control_type` (line 116) is not defined in this file; only the list of types it collects is an input.
- The stubs `get_control_type` and `get_flutterview_type` (lines 147-151, 179-180) and the `FlutterView` class (lines 162-177) are not modelled; they hold no logic.
- The singleton `ActivityManager` and `WindowManager` (lines 38-39) are not modelled; their lists are input sequences.
- WindowProcess.LooksLikeHashcode: the model reads `\w` as Python 2 does on a byte string (ASCII letters, digits and `_`) while it reads `int()` as Python 3 does. Under Python 3, `\w` on `str` also matches other Unicode letters and digits, so a title of six to eight such letters, such as `请选择一个选项`, counts as a hashcode there and can never be found by title; the model compares it against window titles instead.
- WindowProcess.LooksLikeHashcodeExact: states the ASCII reading of `\w`; under Python 3 a seven-letter title such as `请选择一个选项` would also be accepted.
- WindowProcess.TitleIgnoresHashcodes: under Python 3, six-to-eight-letter Unicode titles such as `请选择一个选项` are hashcode-shaped and never reach the title comparison; the model treats them as titles.
- Numerals.ParseInt: strips only ASCII whitespace and accepts only ASCII digits; Python's `int()` also accepts Unicode whitespace and digits. Port text taken from the log pattern is ASCII, so discovery is unaffected.
- WindowProcess.ResolveProcess: arguments that are neither a `Window` nor a string are not modelled; `_get_window_process` raises a `TypeError` from `pattern.match` on them.
- Numerals.ParseInt: the port is parsed as Python 3's `int()` does. The file does not settle its Python version: its coding line (line 1) and the `u'…'` literal (line 104) also fit Python 2. Under Python 2, `int()` rejects digits grouped with underscores, so a port such as `91_00` raises there, while this model accepts it as 9100.
- Numerals.ParseUnsigned: the 4300-digit bound is CPython's default from 3.11 on (and from 3.7.14, 3.8.14, 3.9.14 and 3.10.7); earlier Python 3 releases and Python 2 convert any number of digits, and the bound can be changed at run time with `sys.set_int_max_str_digits`, which the model does not follow.
