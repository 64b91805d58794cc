/** Discovery of the engine's debugger endpoint (`_get_ws_address`): polling
    device log snapshots for the announcement, then deriving the WebSocket
    address and the port to forward from the announced URL. The clock is
    replaced by the finite list of snapshots the polls would read before the
    deadline, one per poll. */
module Discovery {
  import opened Outcomes
  import opened Lists
  import opened Strings
  import opened Numerals
  import opened ObservatoryLog

  /** A discovered endpoint: the address handed to the driver and the port
      pair given to `adb forward(local, remote)`. */
  datatype Endpoint = Endpoint(address: string, localPort: int, remotePort: int)

  datatype DiscoveryError =
      /** No poll saw an announcement: `RuntimeError("Get flutter debugger url error.")`. */
    | DebuggerUrlNotFound
      /** `_, domain, port_info = url.split(":")` did not get exactly three parts. */
    | UnpackMismatch(url: string)
      /** `int(port)` rejected the port text. */
    | PortNotInteger(port: string)

  /** The endpoint derived from one announced URL. The host keeps whatever
      follows the first colon (for an `http://` URL, its leading `//`); the
      port text is copied verbatim into the address, while its integer value
      is what gets forwarded. */
  function ParseAddress(url: string): (r: Result<Endpoint, DiscoveryError>)
    ensures r.Success? ==> r.value.localPort == r.value.remotePort
    ensures r != Failure(DebuggerUrlNotFound)
  {
    var parts := Split(url, ':');
    if |parts| != 3 then Failure(UnpackMismatch(url))
    else
      var host := parts[1];
      var pieces := Split(parts[2], '/');
      var port := pieces[0];
      var path := Join(pieces[1..], '/');
      match ParseInt(port)
      case None => Failure(PortNotInteger(port))
      case Some(n) => Success(Endpoint("ws:" + host + ":" + port + "/" + path + "ws", n, n))
  }

  /** The three-way unpacking fails exactly when the URL does not hold
      exactly two colons. */
  lemma ParseAddressUnpack(url: string)
    ensures ParseAddress(url) == Failure(UnpackMismatch(url)) <==> Count(url, ':') != 2
  {
    SplitCount(url, ':');
  }

  /** A URL announced through the `//` alternative of the pattern, with a
      single colon between host and port, is rejected by the unpacking. */
  lemma SchemelessUrlRejected(host: string, port: string, path: string)
    requires ':' !in host && ':' !in port && ':' !in path
    ensures ParseAddress("//" + host + ":" + port + "/" + path)
              == Failure(UnpackMismatch("//" + host + ":" + port + "/" + path))
  {
    var url := "//" + host + ":" + port + "/" + path;
    assert multiset(url) == multiset("//" + host) + multiset{':'} + multiset(port + "/" + path) by {
      assert url == ("//" + host) + [':'] + (port + "/" + path);
    }
    assert multiset(port + "/" + path) == multiset(port) + multiset{'/'} + multiset(path) by {
      assert port + "/" + path == port + ['/'] + path;
    }
    assert multiset("//" + host)[':'] == 0;
    assert multiset(port)[':'] == 0 && multiset(path)[':'] == 0;
    ParseAddressUnpack(url);
  }

  /** The three colon-separated parts of `scheme:host:tail` are recovered by the split. */
  lemma SplitThreeParts(scheme: string, host: string, tail: string)
    requires ':' !in scheme && ':' !in host && ':' !in tail
    ensures Split(scheme + ":" + host + ":" + tail, ':') == [scheme, host, tail]
  {
    var parts := [scheme, host, tail];
    assert parts[1..] == [host, tail];
    assert [host, tail][1..] == [tail];
    assert Join([host, tail], ':') == host + [':'] + tail;
    assert Join(parts, ':') == scheme + [':'] + (host + [':'] + tail);
    assert scheme + ":" + host + ":" + tail == scheme + [':'] + (host + [':'] + tail);
    SplitJoin(parts, ':');
  }

  /** The part of `port/path` before its first slash is `port`, and the
      slash-joined rest is `path`. */
  lemma SplitPortAndPath(port: string, path: string)
    requires '/' !in port
    ensures Split(port + "/" + path, '/')[0] == port
    ensures Join(Split(port + "/" + path, '/')[1..], '/') == path
  {
    var tail := port + "/" + path;
    IndexOfAfter(port, '/', path);
    assert tail[..|port|] == port;
    assert tail[|port| + 1..] == path;
    assert Split(tail, '/') == [port] + Split(path, '/');
    assert Split(tail, '/')[1..] == Split(path, '/');
    JoinSplit(path, '/');
  }

  /** URL to address, for a URL with a path: `scheme:host:port/path` becomes
      `ws:host:port/pathws`, forwarding the value of `port` both ways. */
  lemma ParseAddressWithPath(scheme: string, host: string, port: string, path: string)
    requires ':' !in scheme && ':' !in host && ':' !in port && ':' !in path
    requires '/' !in port
    ensures ParseAddress(scheme + ":" + host + ":" + port + "/" + path) ==
              match ParseInt(port)
              case None => Failure(PortNotInteger(port))
              case Some(n) => Success(Endpoint("ws:" + host + ":" + port + "/" + path + "ws", n, n))
  {
    var tail := port + "/" + path;
    assert ':' !in tail by {
      forall q | 0 <= q < |tail|
        ensures tail[q] != ':'
      {
        if q < |port| { assert tail[q] == port[q]; }
        else if q > |port| { assert tail[q] == path[q - |port| - 1]; }
      }
    }
    assert scheme + ":" + host + ":" + port + "/" + path == scheme + ":" + host + ":" + tail;
    SplitThreeParts(scheme, host, tail);
    SplitPortAndPath(port, path);
  }

  /** URL to address, for a URL without a path: `scheme:host:port` becomes
      `ws:host:port/ws`. */
  lemma ParseAddressWithoutPath(scheme: string, host: string, port: string)
    requires ':' !in scheme && ':' !in host && ':' !in port
    requires '/' !in port
    ensures ParseAddress(scheme + ":" + host + ":" + port) ==
              match ParseInt(port)
              case None => Failure(PortNotInteger(port))
              case Some(n) => Success(Endpoint("ws:" + host + ":" + port + "/ws", n, n))
  {
    SplitThreeParts(scheme, host, port);
    SplitPortOnly(port);
    EmptyPathAddressText(host, port);
  }

  /** A port with no slash is its own single piece, and the path is empty. */
  lemma SplitPortOnly(port: string)
    requires '/' !in port
    ensures Split(port, '/') == [port]
    ensures Join(Split(port, '/')[1..], '/') == ""
  {
    var pieces := Split(port, '/');
    assert IndexOf(port, '/').None?;
    assert pieces[1..] == [];
  }

  /** The address of a URL without a path ends in `/ws`. */
  lemma EmptyPathAddressText(host: string, port: string)
    ensures "ws:" + host + ":" + port + "/" + "" + "ws" == "ws:" + host + ":" + port + "/ws"
  {
  }

  /** A snapshot announces the debugger when one of its lines matches. */
  predicate Announces(lines: seq<string>) {
    |Urls(lines)| > 0
  }

  /** The first poll whose snapshot announces the debugger. */
  function FirstAnnouncingPoll(snapshots: seq<seq<string>>): Option<nat> {
    FirstIndex(snapshots, Announces)
  }

  /** The polling loop as written: every URL seen is appended to `found`,
      which is never cleared; as soon as it is non-empty its last entry is
      parsed and the loop ends, whether or not the parse succeeds. */
  function PollAsWritten(snapshots: seq<seq<string>>, found: seq<string>): Result<Endpoint, DiscoveryError>
    decreases |snapshots|
  {
    if |snapshots| == 0 then Failure(DebuggerUrlNotFound)
    else
      var found' := found + Urls(snapshots[0]);
      if |found'| > 0 then ParseAddress(Last(found'))
      else PollAsWritten(snapshots[1..], found')
  }

  /** `_get_ws_address` over the snapshots read before the deadline. */
  function Discover(snapshots: seq<seq<string>>): Result<Endpoint, DiscoveryError> {
    PollAsWritten(snapshots, [])
  }

  /** One poll of the loop: a snapshot that announces ends discovery with
      its last URL; a silent one leaves the list empty and polls again. */
  lemma DiscoverStep(snapshots: seq<seq<string>>)
    requires |snapshots| > 0
    ensures Discover(snapshots) ==
              if Announces(snapshots[0]) then ParseAddress(Last(Urls(snapshots[0])))
              else Discover(snapshots[1..])
  {
    var empty: seq<string> := [];
    assert empty + Urls(snapshots[0]) == Urls(snapshots[0]);
  }

  /** The first announcing poll of a list, from that of its tail. */
  lemma FirstAnnouncingPollStep(snapshots: seq<seq<string>>)
    requires |snapshots| > 0
    ensures FirstAnnouncingPoll(snapshots) ==
              if Announces(snapshots[0]) then Some(0)
              else match FirstAnnouncingPoll(snapshots[1..])
                   case None => None
                   case Some(k) => Some(k + 1)
  {
    var rest := snapshots[1..];
    if Announces(snapshots[0]) {
      FirstIndexIs(snapshots, Announces, 0);
    } else {
      assert forall j :: 0 < j < |snapshots| ==> snapshots[j] == rest[j - 1];
      match FirstAnnouncingPoll(rest)
      case None =>
        assert forall j :: 0 <= j < |rest| ==> !Announces(rest[j]);
      case Some(k) =>
        assert snapshots[k + 1] == rest[k];
        FirstIndexIs(snapshots, Announces, k + 1);
    }
  }

  /** Discovery uses the last URL of the first announcing snapshot and fails
      only when no snapshot announces: the never-cleared list of the loop holds
      nothing but that snapshot's URLs when it is first consulted. */
  lemma {:induction false} DiscoverUsesFirstAnnouncingPoll(snapshots: seq<seq<string>>)
    ensures Discover(snapshots) ==
              match FirstAnnouncingPoll(snapshots)
              case None => Failure(DebuggerUrlNotFound)
              case Some(k) => ParseAddress(Last(Urls(snapshots[k])))
    decreases |snapshots|
  {
    if |snapshots| > 0 {
      DiscoverStep(snapshots);
      FirstAnnouncingPollStep(snapshots);
      if !Announces(snapshots[0]) {
        DiscoverUsesFirstAnnouncingPoll(snapshots[1..]);
        match FirstAnnouncingPoll(snapshots[1..])
        case None =>
        case Some(k) =>
          assert snapshots[1..][k] == snapshots[k + 1];
      }
    }
  }

  /** Discovery reports `DebuggerUrlNotFound` exactly when no line of any
      snapshot matches the announcement pattern. */
  lemma DiscoverNotFound(snapshots: seq<seq<string>>)
    ensures Discover(snapshots) == Failure(DebuggerUrlNotFound) <==>
              forall k, j :: 0 <= k < |snapshots| && 0 <= j < |snapshots[k]| ==>
                Search(snapshots[k][j]).None?
  {
    DiscoverUsesFirstAnnouncingPoll(snapshots);
    if FirstAnnouncingPoll(snapshots).Some? {
      var k := FirstAnnouncingPoll(snapshots).value;
      assert Announces(snapshots[k]);
      UrlsExact(snapshots[k]);
    } else {
      forall k | 0 <= k < |snapshots|
        ensures forall j :: 0 <= j < |snapshots[k]| ==> Search(snapshots[k][j]).None?
      {
        UrlsExact(snapshots[k]);
      }
    }
  }

  /** Polls after the first announcing one are never read. */
  lemma DiscoverStopsAtFirstAnnouncement(snapshots: seq<seq<string>>, later: seq<seq<string>>)
    requires exists k :: 0 <= k < |snapshots| && Announces(snapshots[k])
    ensures Discover(snapshots + later) == Discover(snapshots)
  {
    var all := snapshots + later;
    DiscoverUsesFirstAnnouncingPoll(snapshots);
    DiscoverUsesFirstAnnouncingPoll(all);
    var k := FirstAnnouncingPoll(snapshots).value;
    assert forall j :: 0 <= j <= k ==> all[j] == snapshots[j];
    FirstIndexIs(all, Announces, k);
  }

  /** A snapshot that ends with an announcement has that announcement as its
      last URL, whatever its earlier lines announced. */
  lemma LastUrlOfAnnouncingSnapshot(lines: seq<string>, url: string)
    requires IsDebuggerUrl(url)
    ensures Announces(lines + [Marker + url])
    ensures Last(Urls(lines + [Marker + url])) == url
  {
    SearchAnnouncement(url, "");
    assert Marker + url + "" == Marker + url;
    assert Urls([Marker + url]) == [url];
    UrlsConcat(lines, [Marker + url]);
  }

  /** When the first announcing snapshot, after any number of silent polls,
      ends with an announcement, that last announcement is the URL used,
      whatever the earlier lines of that snapshot announced. */
  lemma LastAnnouncementWins(silent: seq<seq<string>>, lines: seq<string>, url: string, later: seq<seq<string>>)
    requires forall k :: 0 <= k < |silent| ==> !Announces(silent[k])
    requires IsDebuggerUrl(url)
    ensures Discover(silent + [lines + [Marker + url]] + later) == ParseAddress(url)
  {
    var snapshot := lines + [Marker + url];
    var snapshots := silent + [snapshot] + later;
    LastUrlOfAnnouncingSnapshot(lines, url);
    assert snapshots[|silent|] == snapshot;
    assert forall k :: 0 <= k < |silent| ==> snapshots[k] == silent[k];
    FirstIndexIs(snapshots, Announces, |silent|);
    DiscoverUsesFirstAnnouncingPoll(snapshots);
  }

  /** An `http` URL whose port is a plain decimal number `n` yields the
      address with the same host, port text and path, and forwards `n`
      (`ExampleUrlAddress` is the instance with host `//127.0.0.1`); a port
      of more digits than `int()` converts is rejected as not an integer. */
  lemma HttpUrlAddress(host: string, n: nat, path: string)
    requires ':' !in host && ':' !in path
    ensures ParseAddress("http:" + host + ":" + Show(n) + "/" + path)
              == if |Show(n)| <= MaxStrDigits
                 then Success(Endpoint("ws:" + host + ":" + Show(n) + "/" + path + "ws", n, n))
                 else Failure(PortNotInteger(Show(n)))
  {
    var port := Show(n);
    assert ':' !in port && '/' !in port by {
      assert forall q :: 0 <= q < |port| ==> IsDigit(port[q]);
    }
    assert "http:" + host + ":" + port + "/" + path == "http" + ":" + host + ":" + port + "/" + path;
    ParseAddressWithPath("http", host, port, path);
    ParseIntShow(n);
  }

  /** Host and path made of URL characters, around a decimal port, form
      text the announcement pattern captures whole. */
  lemma HttpUrlMatchesPattern(host: string, n: nat, path: string)
    requires IsUrlText(host) && IsUrlText(path)
    ensures IsDebuggerUrl("http:" + host + ":" + Show(n) + "/" + path)
  {
    var url := "http:" + host + ":" + Show(n) + "/" + path;
    assert url[..4] == "http";
    forall q | 0 <= q < |url|
      ensures IsUrlChar(url[q])
    {
      var a := |"http:" + host|;
      var b := a + 1 + |Show(n)|;
      if q < 5 {
      } else if q < a {
        assert url[q] == host[q - 5];
      } else if q == a {
      } else if q < b {
        assert url[q] == Show(n)[q - a - 1];
        assert IsDigit(Show(n)[q - a - 1]);
      } else if q == b {
      } else {
        assert url[q] == path[q - b - 1];
      }
    }
  }

  /** A snapshot made of the single log line announcing
      `http:<host>:<n>/<path>`, after any number of silent polls, is
      discovered, whatever later polls would have read; when the port has
      more digits than `int()` converts, discovery fails on that port. */
  lemma DiscoverHttpAnnouncement(silent: seq<seq<string>>, host: string, n: nat, path: string, later: seq<seq<string>>)
    requires forall k :: 0 <= k < |silent| ==> !Announces(silent[k])
    requires IsUrlText(host) && IsUrlText(path)
    requires ':' !in host && ':' !in path
    ensures Discover(silent + [[Marker + ("http:" + host + ":" + Show(n) + "/" + path)]] + later)
              == if |Show(n)| <= MaxStrDigits
                 then Success(Endpoint("ws:" + host + ":" + Show(n) + "/" + path + "ws", n, n))
                 else Failure(PortNotInteger(Show(n)))
  {
    var url := "http:" + host + ":" + Show(n) + "/" + path;
    var line := Marker + url;
    var none: seq<string> := [];
    HttpUrlMatchesPattern(host, n, path);
    LastAnnouncementWins(silent, none, url, later);
    assert none + [line] == [line];
    HttpUrlAddress(host, n, path);
  }

  /** `str(9100) == "9100"`. */
  lemma ShowPort9100()
    ensures Show(9100) == "9100"
  {
    assert Show(9) == "9";
    assert Show(91) == "91";
    assert Show(910) == "910";
  }

  /** The example URL, assembled from host, port and path. */
  lemma ExampleUrlText(host: string, port: string, path: string)
    requires host == "//127.0.0.1" && port == "9100" && path == "abcd123/"
    ensures "http:" + host + ":" + port + "/" + path == "http://127.0.0.1:9100/abcd123/"
  {
  }

  /** The example address, assembled from host, port and path. */
  lemma ExampleAddressText(host: string, port: string, path: string)
    requires host == "//127.0.0.1" && port == "9100" && path == "abcd123/"
    ensures "ws:" + host + ":" + port + "/" + path + "ws" == "ws://127.0.0.1:9100/abcd123/ws"
  {
  }

  /** The example announcement line. */
  lemma ExampleLineText(url: string)
    requires url == "http://127.0.0.1:9100/abcd123/"
    ensures Marker + url == "Observatory listening on http://127.0.0.1:9100/abcd123/"
  {
  }

  /** The engine's usual announcement URL gives the address with the `//`
      kept, and forwards port 9100 both ways. */
  lemma ExampleUrlAddress()
    ensures ParseAddress("http://127.0.0.1:9100/abcd123/")
              == Success(Endpoint("ws://127.0.0.1:9100/abcd123/ws", 9100, 9100))
  {
    ShowPort9100();
    HttpUrlAddress("//127.0.0.1", 9100, "abcd123/");
    ExampleUrlText("//127.0.0.1", Show(9100), "abcd123/");
    ExampleAddressText("//127.0.0.1", Show(9100), "abcd123/");
  }

  /** A first poll whose log is that single announcement line is discovered. */
  lemma ExampleDiscovery()
    ensures Discover([["Observatory listening on http://127.0.0.1:9100/abcd123/"]])
              == Success(Endpoint("ws://127.0.0.1:9100/abcd123/ws", 9100, 9100))
  {
    var host := "//127.0.0.1";
    var path := "abcd123/";
    assert IsUrlText(host) by {
      forall q | 0 <= q < |host|
        ensures IsUrlChar(host[q])
      {
      }
    }
    assert IsUrlText(path) by {
      forall q | 0 <= q < |path|
        ensures IsUrlChar(path[q])
      {
      }
    }
    ShowPort9100();
    DiscoverHttpAnnouncement([], host, 9100, path, []);
    ExampleUrlText(host, Show(9100), path);
    ExampleAddressText(host, Show(9100), path);
    ExampleLineText("http:" + host + ":" + Show(9100) + "/" + path);
    var none: seq<seq<string>> := [];
    var snapshot := ["Observatory listening on http://127.0.0.1:9100/abcd123/"];
    assert none + [snapshot] + none == [snapshot];
  }
}
