/** Recognition of the engine's debugger announcement in device log lines:
    `re.search(REG_EXP, line).group(1)` with
    REG_EXP = `Observatory listening on ((http|//)[a-zA-Z0-9:/=_\-.\[\]]+)`,
    written as a hand matcher and proved equal to a declarative reading of
    the pattern. */
module ObservatoryLog {
  import opened Outcomes
  import opened Strings
  import opened Lists

  /** Literal text in front of the debugger URL. */
  const Marker: string := "Observatory listening on "

  /** The bracket expression `[a-zA-Z0-9:/=_\-.\[\]]`. */
  predicate IsUrlChar(c: char) {
    || 'a' <= c <= 'z'
    || 'A' <= c <= 'Z'
    || '0' <= c <= '9'
    || c == ':' || c == '/' || c == '=' || c == '_' || c == '-' || c == '.' || c == '[' || c == ']'
  }

  predicate IsUrlText(s: string) {
    forall i :: 0 <= i < |s| ==> IsUrlChar(s[i])
  }

  /** The language of group 1 on its own, `(http|//)[...]+`. */
  predicate IsDebuggerUrl(g: string) {
    && IsUrlText(g)
    && ((|g| > 4 && g[..4] == "http") || (|g| > 2 && g[..2] == "//"))
  }

  /** The pattern matches at position `i` of `line` with group 1 equal to `g`.
      At a given position the two alternatives cannot both apply (`h` against
      `/`), and the greedy `+` takes the longest run it can, so `g` is the
      whole run of URL characters after the marker. */
  ghost predicate IsGroupAt(line: string, i: nat, g: string) {
    var j := i + |Marker|;
    && j + |g| <= |line|
    && line[i..j] == Marker
    && line[j..j + |g|] == g
    && IsDebuggerUrl(g)
    && (j + |g| == |line| || !IsUrlChar(line[j + |g|]))
  }

  /** The pattern matches at `k` and at no position from `i` up to `k`. */
  ghost predicate IsFirstGroupFrom(line: string, i: nat, k: nat, g: string) {
    && i <= k
    && IsGroupAt(line, k, g)
    && forall k': nat, g': string :: i <= k' < k ==> !IsGroupAt(line, k', g')
  }

  /** Length of the longest run of URL characters starting at `k`. */
  function RunLength(line: string, k: nat): (n: nat)
    requires k <= |line|
    ensures k + n <= |line|
    ensures forall j :: k <= j < k + n ==> IsUrlChar(line[j])
    ensures k + n == |line| || !IsUrlChar(line[k + n])
    decreases |line| - k
  {
    if k < |line| && IsUrlChar(line[k]) then 1 + RunLength(line, k + 1) else 0
  }

  /** A maximal run of URL characters has exactly the length `RunLength` finds. */
  lemma RunLengthUnique(line: string, k: nat, m: nat)
    requires k + m <= |line|
    requires forall j :: k <= j < k + m ==> IsUrlChar(line[j])
    requires k + m == |line| || !IsUrlChar(line[k + m])
    ensures RunLength(line, k) == m
  {
  }

  /** Group 1 of the pattern anchored at position `i`, if it matches there. */
  function MatchAt(line: string, i: nat): Option<string> {
    var j := i + |Marker|;
    if !OccursAt(Marker, line, i) then None
    else
      var p := if OccursAt("http", line, j) then 4 else if OccursAt("//", line, j) then 2 else 0;
      if p == 0 then None
      else
        var n := RunLength(line, j + p);
        if n == 0 then None else Some(line[j..j + p + n])
  }

  /** What the hand matcher returns satisfies the pattern. */
  lemma MatchAtSound(line: string, i: nat)
    requires MatchAt(line, i).Some?
    ensures IsGroupAt(line, i, MatchAt(line, i).value)
  {
    var j := i + |Marker|;
    var g := MatchAt(line, i).value;
    var p := if OccursAt("http", line, j) then 4 else 2;
    var n := RunLength(line, j + p);
    assert g == line[j..j + p + n];
    assert g[..p] == line[j..j + p];
    forall q | 0 <= q < |g|
      ensures IsUrlChar(g[q])
    {
      assert g[q] == line[j + q];
    }
  }

  /** Whatever satisfies the pattern, the hand matcher finds. */
  lemma MatchAtComplete(line: string, i: nat, g: string)
    requires IsGroupAt(line, i, g)
    ensures MatchAt(line, i) == Some(g)
  {
    var j := i + |Marker|;
    assert OccursAt(Marker, line, i);
    var p := if |g| > 4 && g[..4] == "http" then 4 else 2;
    assert p < |g|;
    assert line[j..j + p] == g[..p] by {
      assert line[j..j + |g|] == g;
      forall q | 0 <= q < p
        ensures line[j..j + p][q] == g[..p][q]
      {
        assert line[j + q] == line[j..j + |g|][q];
      }
    }
    if p == 4 {
      assert OccursAt("http", line, j);
    } else {
      assert g[..2] == "//";
      assert line[j] == line[j..j + p][0] == g[..p][0] == '/';
      assert !OccursAt("http", line, j);
      assert OccursAt("//", line, j);
    }
    forall q | j + p <= q < j + |g|
      ensures IsUrlChar(line[q])
    {
      assert line[q] == line[j..j + |g|][q - j];
    }
    RunLengthUnique(line, j + p, |g| - p);
    assert line[j..j + p + (|g| - p)] == g;
  }

  /** The hand matcher agrees with the pattern at every position. */
  lemma MatchAtExact(line: string, i: nat, g: string)
    ensures MatchAt(line, i) == Some(g) <==> IsGroupAt(line, i, g)
  {
    if MatchAt(line, i) == Some(g) {
      MatchAtSound(line, i);
    }
    if IsGroupAt(line, i, g) {
      MatchAtComplete(line, i, g);
    }
  }

  /** `re.search` from position `i` onwards: the group of the leftmost match. */
  function SearchFrom(line: string, i: nat): (r: Option<string>)
    ensures r.Some? ==> IsDebuggerUrl(r.value)
    decreases |line| - i
  {
    if i + |Marker| > |line| then None
    else
      match MatchAt(line, i)
      case Some(g) =>
        MatchAtSound(line, i);
        Some(g)
      case None => SearchFrom(line, i + 1)
  }

  /** The pattern matches at no position of `line` from `i` onwards. */
  ghost predicate NoGroupFrom(line: string, i: nat) {
    forall k: nat, g :: i <= k ==> !IsGroupAt(line, k, g)
  }

  /** Where the hand matcher fails, the pattern does not match either. */
  lemma NoGroupAt(line: string, i: nat)
    requires MatchAt(line, i).None?
    ensures forall g :: !IsGroupAt(line, i, g)
  {
    forall g
      ensures !IsGroupAt(line, i, g)
    {
      MatchAtExact(line, i, g);
    }
  }

  /** The search finds nothing exactly when the pattern matches nowhere from `i`. */
  lemma {:induction false} SearchFromNone(line: string, i: nat)
    ensures SearchFrom(line, i).None? <==> NoGroupFrom(line, i)
    decreases |line| - i
  {
    if i + |Marker| <= |line| {
      match MatchAt(line, i)
      case Some(g) =>
        MatchAtExact(line, i, g);
      case None =>
        NoGroupAt(line, i);
        SearchFromNone(line, i + 1);
        assert NoGroupFrom(line, i) <==> NoGroupFrom(line, i + 1) by {
          if NoGroupFrom(line, i + 1) {
            forall k: nat, g | i <= k
              ensures !IsGroupAt(line, k, g)
            {
              if k > i {
                assert i + 1 <= k;
              }
            }
          }
        }
    } else {
      forall k: nat, g | i <= k
        ensures !IsGroupAt(line, k, g)
      {
      }
    }
  }

  /** A result of the search is the group at the leftmost matching position. */
  lemma {:induction false} SearchFromFirst(line: string, i: nat)
    ensures SearchFrom(line, i).Some? ==> exists k: nat :: IsFirstGroupFrom(line, i, k, SearchFrom(line, i).value)
    decreases |line| - i
  {
    var r := SearchFrom(line, i);
    if i + |Marker| <= |line| {
      match MatchAt(line, i)
      case Some(g) =>
        MatchAtExact(line, i, g);
        assert IsFirstGroupFrom(line, i, i, g);
      case None =>
        NoGroupAt(line, i);
        SearchFromFirst(line, i + 1);
        if r.Some? {
          var k: nat :| IsFirstGroupFrom(line, i + 1, k, r.value);
          assert IsFirstGroupFrom(line, i, k, r.value);
        }
    }
  }

  /** The search returns the group of the leftmost position where the pattern
      matches, and nothing exactly when it matches nowhere. */
  lemma SearchFromExact(line: string, i: nat)
    ensures SearchFrom(line, i).Some? ==> exists k: nat :: IsFirstGroupFrom(line, i, k, SearchFrom(line, i).value)
    ensures SearchFrom(line, i).None? <==> forall k: nat, g :: i <= k ==> !IsGroupAt(line, k, g)
  {
    SearchFromFirst(line, i);
    SearchFromNone(line, i);
  }

  /** Group 1 of `re.search(REG_EXP, line)`, `None` when the line does not match. */
  function Search(line: string): (r: Option<string>)
    ensures r.Some? ==> IsDebuggerUrl(r.value)
  {
    SearchFrom(line, 0)
  }

  /** `Search` is `re.search`: leftmost match, and no result exactly when the
      pattern matches nowhere in the line. */
  lemma SearchExact(line: string)
    ensures Search(line).Some? ==> exists k: nat :: IsFirstGroupFrom(line, 0, k, Search(line).value)
    ensures Search(line).None? <==> forall k: nat, g :: !IsGroupAt(line, k, g)
  {
    SearchFromExact(line, 0);
  }

  /** A line holding the marker and a well-formed URL, ended by the end of the
      line or by a character outside the class, yields exactly that URL. */
  lemma SearchAnnouncement(url: string, rest: string)
    requires IsDebuggerUrl(url)
    requires |rest| == 0 || !IsUrlChar(rest[0])
    ensures Search(Marker + url + rest) == Some(url)
  {
    var line := Marker + url + rest;
    var j := |Marker|;
    assert line[0..j] == Marker;
    assert line[j..j + |url|] == url;
    if |rest| > 0 {
      assert line[j + |url|] == rest[0];
    }
    assert IsGroupAt(line, 0, url);
    MatchAtExact(line, 0, url);
  }

  /** The debugger URLs of one log snapshot: the group of every matching line,
      in line order. */
  function Urls(lines: seq<string>): seq<string> {
    if |lines| == 0 then []
    else
      match Search(lines[0])
      case Some(u) => [u] + Urls(lines[1..])
      case None => Urls(lines[1..])
  }

  /** Every collected URL is well formed, there is at most one per line, and
      there are none exactly when no line matches. */
  lemma {:induction false} UrlsExact(lines: seq<string>)
    ensures |Urls(lines)| <= |lines|
    ensures forall k :: 0 <= k < |Urls(lines)| ==> IsDebuggerUrl(Urls(lines)[k])
    ensures |Urls(lines)| == 0 <==> forall k :: 0 <= k < |lines| ==> Search(lines[k]).None?
  {
    if |lines| > 0 {
      UrlsExact(lines[1..]);
      assert forall k :: 1 <= k < |lines| ==> lines[k] == lines[1..][k - 1];
    }
  }

  /** The URLs of a snapshot: those of its first line, then those of the rest. */
  lemma UrlsStep(lines: seq<string>)
    requires |lines| > 0
    ensures Urls(lines) == (if Search(lines[0]).Some? then [Search(lines[0]).value] else []) + Urls(lines[1..])
  {
  }

  /** The URLs of two stretches of log, read one after the other, are those
      of the first followed by those of the second. */
  lemma {:induction false} UrlsConcat(a: seq<string>, b: seq<string>)
    ensures Urls(a + b) == Urls(a) + Urls(b)
    decreases |a|
  {
    if |a| == 0 {
      assert a + b == b;
    } else {
      var ab := a + b;
      var head := if Search(a[0]).Some? then [Search(a[0]).value] else [];
      assert ab[0] == a[0];
      assert ab[1..] == a[1..] + b;
      UrlsConcat(a[1..], b);
      calc {
        Urls(ab);
        head + Urls(a[1..] + b);
        head + (Urls(a[1..]) + Urls(b));
        (head + Urls(a[1..])) + Urls(b);
        Urls(a) + Urls(b);
      }
    }
  }

  /** The last URL of a snapshot comes from its last matching line. */
  lemma {:induction false} LastUrlFromLastMatchingLine(lines: seq<string>)
    requires |Urls(lines)| > 0
    ensures exists k :: 0 <= k < |lines| && Search(lines[k]) == Some(Last(Urls(lines)))
                        && forall j :: k < j < |lines| ==> Search(lines[j]).None?
  {
    var tail := lines[1..];
    var head := if Search(lines[0]).Some? then [Search(lines[0]).value] else [];
    UrlsStep(lines);
    if |Urls(tail)| > 0 {
      LastUrlFromLastMatchingLine(tail);
      var k :| 0 <= k < |tail| && Search(tail[k]) == Some(Last(Urls(tail)))
               && forall j :: k < j < |tail| ==> Search(tail[j]).None?;
      assert Last(head + Urls(tail)) == Last(Urls(tail));
      assert lines[k + 1] == tail[k];
      forall j | k + 1 < j < |lines|
        ensures Search(lines[j]).None?
      {
        assert lines[j] == tail[j - 1];
      }
      assert Search(lines[k + 1]) == Some(Last(Urls(lines)));
    } else {
      UrlsExact(tail);
      assert Urls(lines) == head;
      forall j | 0 < j < |lines|
        ensures Search(lines[j]).None?
      {
        assert lines[j] == tail[j - 1];
      }
      assert Search(lines[0]) == Some(Last(Urls(lines)));
    }
  }
}
