/** The endpoint and HVML-URI helpers of the PurC utility library
    (Source/PurC/utils/helpers.c): token checkers, the endpoint-name
    extractors and assemblers for `@<host>/<app>/<runner>`, the
    application-name and identifier validators, and the `hvml://` URI
    assembler, splitter and query-value lookup.

    Output buffers are `array<char>` parameters; a routine writes the
    characters it produces followed by a NUL and leaves the rest of the
    buffer alone.  The length limits (`PURC_LEN_*`) are a `Limits`
    parameter. */
module PurcHelpers {
  import opened Wrappers
  import opened CText

  /** `buf` holds the C string `s`: its characters, then the terminator. */
  ghost predicate Holds(buf: array<char>, s: string)
    reads buf
  {
    |s| < buf.Length && buf[..|s|] == s && buf[|s|] == '\0'
  }

  // ---------------------------------------------------------------------
  // Tokens

  predicate TokenHead(c: char) { c == '_' || IsAlpha(c) }
  predicate TokenChar(c: char) { IsAlnum(c) || c == '_' }
  predicate LooseTokenChar(c: char) { TokenChar(c) || c == '-' }

  /** The length bound of the token checkers: a positive `maxLen` is
      compared with the index of each character after the first, so at
      most `maxLen + 1` characters pass. */
  predicate WithinBound(s: string, maxLen: int) { maxLen <= 0 || |s| <= maxLen + 1 }

  /** `[_A-Za-z][_A-Za-z0-9]*`, within the bound. */
  predicate ValidToken(s: string, maxLen: int)
  {
    |s| > 0 && TokenHead(s[0]) && (forall i :: 1 <= i < |s| ==> TokenChar(s[i]))
    && WithinBound(s, maxLen)
  }

  /** `[_A-Za-z][-_A-Za-z0-9]*`, within the bound. */
  predicate ValidLooseToken(s: string, maxLen: int)
  {
    |s| > 0 && TokenHead(s[0]) && (forall i :: 1 <= i < |s| ==> LooseTokenChar(s[i]))
    && WithinBound(s, maxLen)
  }

  /** `purc_is_valid_token`. */
  method IsValidToken(token: string, maxLen: int) returns (r: bool)
    requires IsCString(token)
    ensures r == ValidToken(token, maxLen)
  {
    if |token| == 0 || !TokenHead(token[0]) {
      return false;
    }
    var i := 1;
    while i < |token|
      invariant 1 <= i <= |token|
      invariant forall j :: 1 <= j < i ==> TokenChar(token[j])
      invariant maxLen <= 0 || i <= maxLen + 1
    {
      if maxLen > 0 && i > maxLen {
        return false;
      }
      if !TokenChar(token[i]) {
        return false;
      }
      i := i + 1;
    }
    return true;
  }

  /** `purc_is_valid_loose_token`: also admits `-` after the first character. */
  method IsValidLooseToken(token: string, maxLen: int) returns (r: bool)
    requires IsCString(token)
    ensures r == ValidLooseToken(token, maxLen)
  {
    if |token| == 0 || !TokenHead(token[0]) {
      return false;
    }
    var i := 1;
    while i < |token|
      invariant 1 <= i <= |token|
      invariant forall j :: 1 <= j < i ==> LooseTokenChar(token[j])
      invariant maxLen <= 0 || i <= maxLen + 1
    {
      if maxLen > 0 && i > maxLen {
        return false;
      }
      if !LooseTokenChar(token[i]) {
        return false;
      }
      i := i + 1;
    }
    return true;
  }

  /** Every strict token is a loose token, and neither contains a
      separator of endpoint names, application names or URIs. */
  lemma TokenIsLooseToken(s: string, maxLen: int)
    requires ValidToken(s, maxLen)
    ensures ValidLooseToken(s, maxLen)
    ensures '/' !in s && '.' !in s && '@' !in s && '-' !in s
  {
    forall i | 0 <= i < |s| ensures s[i] != '/' && s[i] != '.' && s[i] != '@' && s[i] != '-' {
      if i > 0 { assert TokenChar(s[i]); } else { assert TokenHead(s[0]); }
    }
  }

  // ---------------------------------------------------------------------
  // Endpoint names: @<host_name>/<app_name>/<runner_name>

  /** The endpoint name assembled from its three parts. */
  function Endpoint(host: string, app: string, runner: string): string
  {
    "@" + host + "/" + app + "/" + runner
  }

  /** What `purc_extract_host_name` extracts: the text between the leading
      `@` and the first `/`, non-empty and (as written) at most
      `PURC_LEN_APP_NAME` long. */
  function HostNameOf(ep: string, lim: Limits): (r: Option<string>)
    ensures r.Some? ==> 0 < |r.value| <= lim.appName && '/' !in r.value
    ensures r.Some? ==> |r.value| + 2 <= |ep| && ep[..|r.value| + 2] == "@" + r.value + "/"
  {
    if |ep| == 0 || ep[0] != '@' then None
    else match FirstIndexOf(ep, '/')
      case None => None
      case Some(slash) =>
        if slash <= 1 || slash - 1 > lim.appName then None
        else
          assert ep[..slash + 1] == "@" + ep[1..slash] + "/";
          Some(ep[1..slash])
  }

  /** What `purc_extract_app_name` extracts: the text between the first and
      the last `/`, which must be distinct, non-empty and at most
      `PURC_LEN_APP_NAME` long. */
  function AppNameOf(ep: string, lim: Limits): (r: Option<string>)
    ensures r.Some? ==> 0 < |r.value| <= lim.appName
  {
    if |ep| == 0 || ep[0] != '@' then None
    else match (FirstIndexOf(ep, '/'), LastIndexOf(ep, '/'))
      case (Some(first), Some(last)) =>
        if first == last || last - (first + 1) <= 0 || last - (first + 1) > lim.appName then None
        else Some(ep[first + 1..last])
      case _ => None
  }

  /** What `purc_extract_runner_name` extracts: everything after the last
      `/`, at most `PURC_LEN_RUNNER_NAME` long and possibly empty. */
  function RunnerNameOf(ep: string, lim: Limits): (r: Option<string>)
    ensures r.Some? ==> |r.value| <= lim.runnerName && '/' !in r.value
  {
    if |ep| == 0 || ep[0] != '@' then None
    else match LastIndexOf(ep, '/')
      case None => None
      case Some(last) =>
        if |ep| - (last + 1) > lim.runnerName then None else Some(ep[last + 1..])
  }

  /** Where the parts and separators of an assembled endpoint name are. */
  lemma EndpointLayout(host: string, app: string, runner: string)
    ensures var ep := Endpoint(host, app, runner);
      var first, last := |host| + 1, |host| + |app| + 2;
      && |ep| == last + 1 + |runner| && ep[0] == '@' && ep[first] == '/' && ep[last] == '/'
      && ep[..first] == "@" + host && ep[1..first] == host
      && ep[first + 1..last] == app && ep[last + 1..] == runner
  {
    var ep := Endpoint(host, app, runner);
    assert ep == "@" + host + "/" + app + "/" + runner;
  }

  /** The host part of a name laid out as `EndpointLayout` states. */
  lemma HostOfLayout(ep: string, host: string, lim: Limits)
    requires 0 < |host| <= lim.appName && '/' !in host
    requires |host| + 1 < |ep| && ep[0] == '@' && ep[|host| + 1] == '/'
    requires ep[..|host| + 1] == "@" + host && ep[1..|host| + 1] == host
    ensures HostNameOf(ep, lim) == Some(host)
  {
    FirstIndexAt(ep, '/', |host| + 1);
  }

  /** The application part of such a name. */
  lemma AppOfLayout(ep: string, host: string, app: string, runner: string, lim: Limits)
    requires '/' !in host && 0 < |app| <= lim.appName && '/' !in runner
    requires |ep| == |host| + |app| + 3 + |runner| && ep[0] == '@'
    requires ep[|host| + 1] == '/' && ep[|host| + |app| + 2] == '/'
    requires ep[..|host| + 1] == "@" + host && ep[|host| + 2..|host| + |app| + 2] == app
    requires ep[|host| + |app| + 3..] == runner
    ensures AppNameOf(ep, lim) == Some(app)
  {
    FirstIndexAt(ep, '/', |host| + 1);
    LastIndexAt(ep, '/', |host| + |app| + 2);
  }

  /** The runner part of such a name. */
  lemma RunnerOfLayout(ep: string, last: nat, runner: string, lim: Limits)
    requires |runner| <= lim.runnerName && '/' !in runner
    requires last < |ep| && ep[0] == '@' && ep[last] == '/' && ep[last + 1..] == runner
    ensures RunnerNameOf(ep, lim) == Some(runner)
  {
    LastIndexAt(ep, '/', last);
  }

  /** Extraction recovers the parts of an assembled name whose host and
      runner carry no `/` (the application part may) and which respect the
      limits the extractors apply. */
  lemma EndpointRoundTrip(host: string, app: string, runner: string, lim: Limits)
    requires 0 < |host| <= lim.appName && '/' !in host
    requires 0 < |app| <= lim.appName
    requires |runner| <= lim.runnerName && '/' !in runner
    ensures HostNameOf(Endpoint(host, app, runner), lim) == Some(host)
    ensures AppNameOf(Endpoint(host, app, runner), lim) == Some(app)
    ensures RunnerNameOf(Endpoint(host, app, runner), lim) == Some(runner)
  {
    var ep := Endpoint(host, app, runner);
    EndpointLayout(host, app, runner);
    HostOfLayout(ep, host, lim);
    AppOfLayout(ep, host, app, runner, lim);
    RunnerOfLayout(ep, |host| + |app| + 2, runner, lim);
  }

  /** Conversely, a name from which all three parts are extracted is the
      assembly of those parts. */
  lemma EndpointReassembles(ep: string, lim: Limits)
    requires HostNameOf(ep, lim).Some? && AppNameOf(ep, lim).Some? && RunnerNameOf(ep, lim).Some?
    ensures ep == Endpoint(HostNameOf(ep, lim).value, AppNameOf(ep, lim).value, RunnerNameOf(ep, lim).value)
  {
    var first := FirstIndexOf(ep, '/').value;
    var last := LastIndexOf(ep, '/').value;
    var h, a, r := ep[1..first], ep[first + 1..last], ep[last + 1..];
    assert HostNameOf(ep, lim).value == h;
    assert AppNameOf(ep, lim).value == a;
    assert RunnerNameOf(ep, lim).value == r;
    calc {
      ep;
      ep[..last] + [ep[last]] + r;
      ep[..first] + [ep[first]] + a + [ep[last]] + r;
      { assert ep[..first] == [ep[0]] + h; }
      "@" + h + "/" + a + "/" + r;
    }
  }

  /** `purc_extract_host_name`: returns the length written, 0 on failure. */
  method ExtractHostName(ep: string, buf: array<char>, lim: Limits) returns (len: int)
    requires IsCString(ep)
    requires HostNameOf(ep, lim).Some? ==> |HostNameOf(ep, lim).value| < buf.Length
    modifies buf
    ensures HostNameOf(ep, lim).None? ==> len == 0 && buf[..] == old(buf[..])
    ensures HostNameOf(ep, lim).Some? ==>
      var h := HostNameOf(ep, lim).value;
      len == |h| && Holds(buf, h) && (forall i :: |h| < i < buf.Length ==> buf[i] == old(buf[i]))
  {
    if |ep| == 0 || ep[0] != '@' {
      return 0;
    }
    var slash := FindFirst(ep, 0, '/');
    if slash.None? {
      return 0;
    }
    FirstIndexAt(ep, '/', slash.value);
    len := slash.value - 1;
    if len <= 0 || len > lim.appName {
      return 0;
    }
    WriteString(buf, 0, ep[1..slash.value]);
  }

  /** `purc_extract_app_name`: returns the length written, 0 on failure. */
  method ExtractAppName(ep: string, buf: array<char>, lim: Limits) returns (len: int)
    requires IsCString(ep)
    requires AppNameOf(ep, lim).Some? ==> |AppNameOf(ep, lim).value| < buf.Length
    modifies buf
    ensures AppNameOf(ep, lim).None? ==> len == 0 && buf[..] == old(buf[..])
    ensures AppNameOf(ep, lim).Some? ==>
      var a := AppNameOf(ep, lim).value;
      len == |a| && Holds(buf, a) && (forall i :: |a| < i < buf.Length ==> buf[i] == old(buf[i]))
  {
    if |ep| == 0 || ep[0] != '@' {
      return 0;
    }
    var first := FindFirst(ep, 0, '/');
    if first.None? {
      return 0;
    }
    FirstIndexAt(ep, '/', first.value);
    var second := FindLast(ep, '/');
    if second.None? || first == second {
      return 0;
    }
    len := second.value - (first.value + 1);
    if len <= 0 || len > lim.appName {
      return 0;
    }
    WriteString(buf, 0, ep[first.value + 1..second.value]);
  }

  /** `purc_extract_runner_name`: returns the length written, 0 on failure.
      An empty runner part is copied and reported as length 0, which
      callers read as failure. */
  method ExtractRunnerName(ep: string, buf: array<char>, lim: Limits) returns (len: int)
    requires IsCString(ep)
    requires RunnerNameOf(ep, lim).Some? ==> |RunnerNameOf(ep, lim).value| < buf.Length
    modifies buf
    ensures RunnerNameOf(ep, lim).None? ==> len == 0 && buf[..] == old(buf[..])
    ensures RunnerNameOf(ep, lim).Some? ==>
      var r := RunnerNameOf(ep, lim).value;
      len == |r| && Holds(buf, r) && (forall i :: |r| < i < buf.Length ==> buf[i] == old(buf[i]))
  {
    if |ep| == 0 || ep[0] != '@' {
      return 0;
    }
    var second := FindLast(ep, '/');
    if second.None? {
      return 0;
    }
    len := |ep| - (second.value + 1);
    if len > lim.runnerName {
      return 0;
    }
    WriteString(buf, 0, ep[second.value + 1..]);
  }

  /** The parts are within the limits the assemblers check. */
  predicate PartsWithinLimits(host: string, app: string, runner: string, lim: Limits)
  {
    |host| <= lim.hostName && |app| <= lim.appName && |runner| <= lim.runnerName
  }

  /** Writes `Endpoint(host, app, runner)`, the result of the `strcat`
      sequence of the assemblers. */
  method WriteEndpoint(host: string, app: string, runner: string, buf: array<char>)
    requires |Endpoint(host, app, runner)| < buf.Length
    modifies buf
    ensures Holds(buf, Endpoint(host, app, runner))
    ensures forall i :: |Endpoint(host, app, runner)| < i < buf.Length ==> buf[i] == old(buf[i])
  {
    WriteString(buf, 0, "@" + host + "/" + app + "/" + runner);
  }

  /** `purc_assemble_endpoint_name`: 0 when a part exceeds its limit,
      otherwise the length of the name written. */
  method AssembleEndpointName(host: string, app: string, runner: string,
                              buf: array<char>, lim: Limits) returns (len: int)
    requires IsCString(host) && IsCString(app) && IsCString(runner)
    requires PartsWithinLimits(host, app, runner, lim) ==> |Endpoint(host, app, runner)| < buf.Length
    modifies buf
    ensures !PartsWithinLimits(host, app, runner, lim) ==> len == 0 && buf[..] == old(buf[..])
    ensures PartsWithinLimits(host, app, runner, lim) ==>
      var ep := Endpoint(host, app, runner);
      len == |ep| && Holds(buf, ep) && (forall i :: |ep| < i < buf.Length ==> buf[i] == old(buf[i]))
  {
    if |host| > lim.hostName || |app| > lim.appName || |runner| > lim.runnerName {
      return 0;
    }
    WriteEndpoint(host, app, runner, buf);
    return |host| + |app| + |runner| + 3;
  }

  /** `purc_assemble_endpoint_name_ex`: like the plain assembler, but with
      the buffer size `sz`; when the name does not fit, nothing is written
      and the length it needs is returned. */
  method AssembleEndpointNameEx(host: string, app: string, runner: string,
                                buf: array<char>, sz: nat, lim: Limits) returns (len: int)
    requires IsCString(host) && IsCString(app) && IsCString(runner)
    requires sz <= buf.Length
    modifies buf
    ensures !PartsWithinLimits(host, app, runner, lim) ==> len == 0 && buf[..] == old(buf[..])
    ensures PartsWithinLimits(host, app, runner, lim) ==> len == |Endpoint(host, app, runner)|
    ensures PartsWithinLimits(host, app, runner, lim) && len >= sz ==> buf[..] == old(buf[..])
    ensures PartsWithinLimits(host, app, runner, lim) && len < sz ==>
      Holds(buf, Endpoint(host, app, runner)) && (forall i :: len < i < buf.Length ==> buf[i] == old(buf[i]))
  {
    if |host| > lim.hostName || |app| > lim.appName || |runner| > lim.runnerName {
      return 0;
    }
    len := 1 + |host| + 1 + |app| + 1 + |runner|;
    if len >= sz {
      return len;
    }
    WriteEndpoint(host, app, runner, buf);
  }

  // ---------------------------------------------------------------------
  // Host, application and runner names

  /** `purc_is_valid_host_name` accepts every host name. */
  predicate ValidHostName(host: string) { true }

  /** The dot-separated segments of an application name, as
      `purc_is_valid_app_name` walks them: every segment up to the last dot
      must be a non-empty token, and so must the text after the last dot
      unless it is empty (a trailing dot is accepted). */
  predicate AppSegmentsOk(s: string)
    decreases |s|
  {
    if |s| == 0 then true
    else match FirstIndexOf(s, '.')
      case None => ValidToken(s, 0)
      case Some(e) => e > 0 && ValidToken(s[..e], 0) && AppSegmentsOk(s[e + 1..])
  }

  predicate ValidAppName(s: string, lim: Limits)
  {
    |s| <= lim.appName && AppSegmentsOk(s)
  }

  /** One step of the segment walk, from position `start`, given where the
      next dot is and the segment before it. */
  lemma AppSegmentsUnfold(s: string, start: nat, e: Option<nat>, token: string)
    requires start < |s|
    requires e.Some? ==> start <= e.value < |s| && s[e.value] == '.' && '.' !in s[start..e.value]
    requires e.None? ==> '.' !in s[start..]
    requires token == if e.None? then s[start..] else s[start..e.value]
    ensures |token| == 0 ==> !AppSegmentsOk(s[start..])
    ensures |token| > 0 && e.None? ==> AppSegmentsOk(s[start..]) == ValidToken(token, 0)
    ensures |token| > 0 && e.Some? ==>
      AppSegmentsOk(s[start..]) == (ValidToken(token, 0) && AppSegmentsOk(s[e.value + 1..]))
  {
    var t := s[start..];
    if e.Some? {
      var k := e.value - start;
      assert t[..k] == token;
      assert t[k + 1..] == s[e.value + 1..];
      SegmentsAtDot(t, k);
    } else {
      SegmentsWithoutDot(t);
    }
  }

  /** The walk over a name whose first dot is at `k`. */
  lemma SegmentsAtDot(t: string, k: nat)
    requires k < |t| && t[k] == '.' && '.' !in t[..k]
    ensures AppSegmentsOk(t) == (k > 0 && ValidToken(t[..k], 0) && AppSegmentsOk(t[k + 1..]))
  {
    FirstIndexAt(t, '.', k);
  }

  /** The walk over a non-empty name without a dot. */
  lemma SegmentsWithoutDot(t: string)
    requires |t| > 0 && '.' !in t
    ensures AppSegmentsOk(t) == ValidToken(t, 0)
  {
  }

  /** One round of the loop of `purc_is_valid_app_name`: whether the
      segment at `start` is a non-empty token, and where the next segment
      starts if a dot follows it.  (The loop goes on exactly when a dot was
      found, because the characters left after a segment that ends at a dot
      include that dot.) */
  method NextSegment(s: string, start: nat) returns (ok: bool, next: Option<nat>)
    requires IsCString(s) && start < |s|
    ensures !ok ==> !AppSegmentsOk(s[start..])
    ensures ok && next.None? ==> AppSegmentsOk(s[start..])
    ensures ok && next.Some? ==>
      start < next.value <= |s| && AppSegmentsOk(s[start..]) == AppSegmentsOk(s[next.value..])
  {
    var end := FindFirst(s, start, '.');
    var token;
    if end.None? {
      token := s[start..];
      SliceIsCString(s, start, start);
    } else {
      token := s[start..end.value];
      SliceIsCString(s, start, end.value);
    }
    AppSegmentsUnfold(s, start, end, token);
    if |token| == 0 {
      return false, None;
    }
    ok := IsValidToken(token, 0);
    if ok && end.Some? {
      next := Some(end.value + 1);
    } else {
      next := None;
    }
  }

  /** `purc_is_valid_app_name`. */
  method IsValidAppName(s: string, lim: Limits) returns (r: bool)
    requires IsCString(s)
    ensures r == ValidAppName(s, lim)
  {
    if |s| > lim.appName {
      return false;
    }
    var start := 0;
    assert s[start..] == s;
    while start < |s|
      invariant 0 <= start <= |s|
      invariant AppSegmentsOk(s) == AppSegmentsOk(s[start..])
      decreases |s| - start
    {
      var ok, next := NextSegment(s, start);
      if !ok {
        return false;
      }
      if next.None? {
        break;
      }
      start := next.value;
    }
    return true;
  }

  /** The segments joined by dots. */
  function JoinDots(ts: seq<string>): string
    requires |ts| > 0
  {
    if |ts| == 1 then ts[0] else ts[0] + "." + JoinDots(ts[1..])
  }

  /** A leading token and its dot are one step of the segment walk. */
  lemma SegmentThen(t: string, rest: string)
    requires '.' !in t
    ensures AppSegmentsOk(t + "." + rest) == (|t| > 0 && ValidToken(t, 0) && AppSegmentsOk(rest))
  {
    var s := t + "." + rest;
    FirstIndexAt(s, '.', |t|);
    assert s[..|t|] == t;
    assert s[|t| + 1..] == rest;
  }

  /** A single token passes the segment check, with or without a dot. */
  lemma SingleSegment(t: string)
    requires ValidToken(t, 0)
    ensures AppSegmentsOk(t) && AppSegmentsOk(t + ".")
  {
    TokenIsLooseToken(t, 0);
    assert FirstIndexOf(t, '.') == None;
    SegmentThen(t, "");
    assert t + "." + "" == t + ".";
  }

  /** Any non-empty sequence of tokens joined by dots, with or without a
      trailing dot, passes the segment check. */
  lemma {:induction false} JoinedTokensAreAppName(ts: seq<string>)
    requires |ts| > 0 && forall i :: 0 <= i < |ts| ==> ValidToken(ts[i], 0)
    ensures AppSegmentsOk(JoinDots(ts))
    ensures AppSegmentsOk(JoinDots(ts) + ".")
    decreases |ts|
  {
    var t := ts[0];
    if |ts| == 1 {
      SingleSegment(t);
    } else {
      var rest := JoinDots(ts[1..]);
      JoinedTokensAreAppName(ts[1..]);
      TokenIsLooseToken(t, 0);
      SegmentThen(t, rest);
      SegmentThen(t, rest + ".");
      assert t + "." + rest + "." == t + "." + (rest + ".");
    }
  }

  /** A leading dot and two consecutive dots are rejected. */
  lemma EmptySegmentRejected(a: string, b: string)
    requires '.' !in a
    ensures !AppSegmentsOk("." + b)
    ensures !AppSegmentsOk(a + ".." + b)
  {
    FirstIndexAt("." + b, '.', 0);
    var s := a + ".." + b;
    FirstIndexAt(s, '.', |a|);
    if |a| > 0 {
      assert s[|a| + 1..] == "." + b;
    }
  }

  /** Runner names are tokens of at most `PURC_LEN_RUNNER_NAME + 1`
      characters. */
  predicate ValidRunnerName(s: string, lim: Limits) { ValidToken(s, lim.runnerName) }

  /** What `purc_is_valid_endpoint_name` accepts. */
  predicate ValidEndpointName(ep: string, lim: Limits)
  {
    && HostNameOf(ep, lim).Some? && AppNameOf(ep, lim).Some? && RunnerNameOf(ep, lim).Some?
    && |RunnerNameOf(ep, lim).value| > 0
    && ValidHostName(HostNameOf(ep, lim).value)
    && ValidAppName(AppNameOf(ep, lim).value, lim)
    && ValidRunnerName(RunnerNameOf(ep, lim).value, lim)
  }

  /** `purc_is_valid_endpoint_name`.  The host buffer has room for
      `PURC_LEN_HOST_NAME` characters while the extractor admits hosts of
      up to `PURC_LEN_APP_NAME`, so the routine is safe only when the
      application limit does not exceed the host limit. */
  method IsValidEndpointName(ep: string, lim: Limits) returns (r: bool)
    requires IsCString(ep)
    requires lim.appName <= lim.hostName
    ensures r == ValidEndpointName(ep, lim)
  {
    var hostBuf := new char[lim.hostName + 1];
    var appBuf := new char[lim.appName + 1];
    var runnerBuf := new char[lim.runnerName + 1];
    var n := ExtractHostName(ep, hostBuf, lim);
    if n <= 0 {
      return false;
    }
    n := ExtractAppName(ep, appBuf, lim);
    if n <= 0 {
      return false;
    }
    n := ExtractRunnerName(ep, runnerBuf, lim);
    if n <= 0 {
      return false;
    }
    var app := AppNameOf(ep, lim).value;
    var runner := RunnerNameOf(ep, lim).value;
    var okApp := IsValidAppName(appBuf[..|app|], lim);
    var okRunner := IsValidToken(runnerBuf[..|runner|], lim.runnerName);
    r := ValidHostName(hostBuf[..|HostNameOf(ep, lim).value|]) && okApp && okRunner;
  }

  // ---------------------------------------------------------------------
  // Identifiers

  /** `purc_is_valid_unique_id`: letters, digits and `-`; the index check
      `n > PURC_LEN_UNIQUE_ID` admits up to `PURC_LEN_UNIQUE_ID + 1`
      characters.  The empty string passes. */
  predicate ValidUniqueId(id: string, lim: Limits)
  {
    |id| <= lim.uniqueId + 1 && forall i :: 0 <= i < |id| ==> IsAlnum(id[i]) || id[i] == '-'
  }

  method IsValidUniqueId(id: string, lim: Limits) returns (r: bool)
    requires IsCString(id)
    ensures r == ValidUniqueId(id, lim)
  {
    var n := 0;
    while n < |id|
      invariant 0 <= n <= |id| && n <= lim.uniqueId + 1
      invariant forall i :: 0 <= i < n ==> IsAlnum(id[i]) || id[i] == '-'
    {
      if n > lim.uniqueId {
        return false;
      }
      if !IsAlnum(id[n]) && id[n] != '-' {
        return false;
      }
      n := n + 1;
    }
    return true;
  }

  /** `purc_is_valid_md5_id`: letters and digits only; the index check
      `n > (MD5_DIGEST_SIZE << 1)` admits up to twice the digest size plus
      one characters. */
  predicate ValidMd5Id(id: string, lim: Limits)
  {
    |id| <= 2 * lim.md5DigestSize + 1 && forall i :: 0 <= i < |id| ==> IsAlnum(id[i])
  }

  method IsValidMd5Id(id: string, lim: Limits) returns (r: bool)
    requires IsCString(id)
    ensures r == ValidMd5Id(id, lim)
  {
    var n := 0;
    while n < |id|
      invariant 0 <= n <= |id| && n <= 2 * lim.md5DigestSize + 1
      invariant forall i :: 0 <= i < n ==> IsAlnum(id[i])
    {
      if n > 2 * lim.md5DigestSize {
        return false;
      }
      if !IsAlnum(id[n]) {
        return false;
      }
      n := n + 1;
    }
    return true;
  }

  // ---------------------------------------------------------------------
  // HVML URIs: hvml://<host>/<app>/<runner>/[<group>/[<page>]]

  const HVML_SCHEMA := "hvml://"

  /** The URI `purc_hvml_uri_assemble` writes.  A page without a group is
      dropped. */
  function HvmlUri(host: string, app: string, runner: string,
                   group: Option<string>, page: Option<string>): string
  {
    HVML_SCHEMA + host + "/" + app + "/" + runner + "/"
      + (if group.Some? then group.value + "/" + (if page.Some? then page.value else "") else "")
  }

  /** `purc_hvml_uri_assemble`: returns the length written. */
  method HvmlUriAssemble(buf: array<char>, host: string, app: string, runner: string,
                         group: Option<string>, page: Option<string>) returns (n: nat)
    requires |HvmlUri(host, app, runner, group, page)| < buf.Length
    modifies buf
    ensures n == |HvmlUri(host, app, runner, group, page)|
    ensures Holds(buf, HvmlUri(host, app, runner, group, page))
    ensures forall i :: n < i < buf.Length ==> buf[i] == old(buf[i])
  {
    var u := HVML_SCHEMA + host + "/" + app + "/" + runner + "/";
    if group.Some? {
      u := u + group.value + "/";
      if page.Some? {
        u := u + page.value;
      }
    }
    WriteString(buf, 0, u);
    return |u|;
  }

  /** `get_path_comp_len`: characters up to the next `/`. */
  function CompLen(s: string, from: nat): nat
    requires from <= |s|
  {
    RunLength(s, from, {'/'})
  }

  /** `get_path_trail_len`: characters up to the next `?` or `#`. */
  function TrailLen(s: string, from: nat): nat
    requires from <= |s|
  {
    RunLength(s, from, {'?', '#'})
  }


  /** `get_value_len`: characters up to the next `&` or `#`. */
  function ValueLen(s: string, from: nat): nat
    requires from <= |s|
  {
    RunLength(s, from, {'&', '#'})
  }

  /** The loop the four length helpers share. */
  method ScanRun(s: string, from: nat, stops: set<char>) returns (n: nat)
    requires from <= |s|
    ensures n == RunLength(s, from, stops)
  {
    n := 0;
    while from + n < |s| && s[from + n] !in stops
      invariant from + n <= |s|
      invariant RunLength(s, from, stops) == n + RunLength(s, from + n, stops)
      decreases |s| - (from + n)
    {
      n := n + 1;
    }
  }

  /** The parts `purc_hvml_uri_split` copies out, in order; a part is
      `None` when the split stopped before reaching it. */
  datatype UriParts = UriParts(host: Option<string>, app: Option<string>, runner: Option<string>,
                               group: Option<string>, page: Option<string>)

  const NoParts := UriParts(None, None, None, None, None)

  /** The length of the path component at `p` when it is non-empty and
      followed by `/`. */
  function Component(uri: string, p: nat): (r: Option<nat>)
    requires p <= |uri|
    ensures r.Some? ==> 0 < r.value && p + r.value < |uri| && uri[p + r.value] == '/'
  {
    var len := CompLen(uri, p);
    if len == 0 || p + len == |uri| then None else Some(len)
  }

  /** The first half of `purc_hvml_uri_split`: the scheme and the host,
      application and runner components.  The result says whether all
      three were found, the parts copied so far, and where the text after
      the runner's `/` starts. */
  function SplitHead(uri: string): (r: (bool, UriParts, nat))
    ensures r.2 <= |uri|
  {
    if !CasePrefix(uri, HVML_SCHEMA) then (false, NoParts, 0)
    else
      var c0 := Component(uri, 7);
      if c0.None? then (false, NoParts, 0) else
      var l0 := c0.value;
      var one := NoParts.(host := Some(uri[7..7 + l0]));
      var c1 := Component(uri, 8 + l0);
      if c1.None? then (false, one, 0) else
      var l1 := c1.value;
      var two := one.(app := Some(uri[8 + l0..8 + l0 + l1]));
      var c2 := Component(uri, 9 + l0 + l1);
      if c2.None? then (false, two, 0) else
      var l2 := c2.value;
      (true, ThreeParts(uri, l0, l1, l2), 10 + l0 + l1 + l2)
  }

  /** The second half: the group component at `p` and the page after it,
      added to the parts `three` copied by the first half. */
  function SplitRest(uri: string, p: nat, three: UriParts): (bool, UriParts)
    requires p <= |uri|
  {
    var c := Component(uri, p);
    if c.None? then (false, three) else
    var lg := c.value;
    var four := three.(group := Some(uri[p..p + lg]));
    var q := p + lg + 1;
    var lp := TrailLen(uri, q);
    if lp == 0 || uri[q] == '/' then (false, four)
    else (true, four.(page := Some(uri[q..q + lp])))
  }

  /** What `purc_hvml_uri_split` decides and copies; `wantRest` is whether
      the caller passed a group or a page buffer.  On failure the parts
      are those copied before the split stopped. */
  function SplitUri(uri: string, wantRest: bool): (bool, UriParts)
  {
    var h := SplitHead(uri);
    if !h.0 || !wantRest then (h.0, h.1) else SplitRest(uri, h.2, h.1)
  }

  /** `get_path_comp_len`. */
  method GetPathCompLen(s: string, from: nat) returns (n: nat)
    requires from <= |s|
    ensures n == CompLen(s, from)
  {
    n := ScanRun(s, from, {'/'});
  }

  /** `get_path_trail_len`. */
  method GetPathTrailLen(s: string, from: nat) returns (n: nat)
    requires from <= |s|
    ensures n == TrailLen(s, from)
  {
    n := ScanRun(s, from, {'?', '#'});
  }

  /** One `get_path_comp_len` step of the splitter: the component at `p`
      must be non-empty and followed by `/`. */
  method NextComponent(uri: string, p: nat) returns (len: Option<nat>)
    requires p <= |uri|
    ensures len == Component(uri, p)
  {
    var n := GetPathCompLen(uri, p);
    if n == 0 || p + n >= |uri| || uri[p + n] != '/' {
      return None;
    }
    return Some(n);
  }

  /** The host, application and runner steps of `purc_hvml_uri_split`. */
  method SplitFirstThree(uri: string) returns (ok: bool, parts: UriParts, p: nat)
    ensures (ok, parts, p) == SplitHead(uri)
  {
    if !CasePrefix(uri, HVML_SCHEMA) {
      return false, NoParts, 0;
    }
    var c0 := NextComponent(uri, 7);
    if c0.None? {
      return false, NoParts, 0;
    }
    var l0 := c0.value;
    parts := NoParts.(host := Some(uri[7..7 + l0]));
    var c1 := NextComponent(uri, 8 + l0);
    if c1.None? {
      return false, parts, 0;
    }
    var l1 := c1.value;
    parts := parts.(app := Some(uri[8 + l0..8 + l0 + l1]));
    var c2 := NextComponent(uri, 9 + l0 + l1);
    if c2.None? {
      return false, parts, 0;
    }
    var l2 := c2.value;
    parts := parts.(runner := Some(uri[9 + l0 + l1..9 + l0 + l1 + l2]));
    assert parts == ThreeParts(uri, l0, l1, l2);
    SplitHeadAt(uri, l0, l1, l2);
    return true, parts, 10 + l0 + l1 + l2;
  }

  /** The group and page steps of `purc_hvml_uri_split`, from `p`. */
  method SplitGroupPage(uri: string, p: nat, three: UriParts) returns (ok: bool, parts: UriParts)
    requires p <= |uri|
    ensures (ok, parts) == SplitRest(uri, p, three)
  {
    var len := NextComponent(uri, p);
    if len.None? {
      return false, three;
    }
    parts := three.(group := Some(uri[p..p + len.value]));
    var q := p + len.value + 1;
    var n := GetPathTrailLen(uri, q);
    if n == 0 || uri[q] == '/' {
      return false, parts;
    }
    return true, parts.(page := Some(uri[q..q + n]));
  }

  /** `purc_hvml_uri_split`. */
  method HvmlUriSplit(uri: string, wantRest: bool) returns (ok: bool, parts: UriParts)
    requires IsCString(uri)
    ensures (ok, parts) == SplitUri(uri, wantRest)
  {
    var p;
    ok, parts, p := SplitFirstThree(uri);
    if ok && wantRest {
      ok, parts := SplitGroupPage(uri, p, parts);
    }
  }

  /** `purc_hvml_uri_split_alloc`: the same split into fresh copies; on
      failure the copies made so far are freed and nothing is returned. */
  method HvmlUriSplitAlloc(uri: string, wantRest: bool) returns (ok: bool, parts: UriParts)
    requires IsCString(uri)
    ensures ok == SplitUri(uri, wantRest).0
    ensures ok ==> parts == SplitUri(uri, wantRest).1
    ensures !ok ==> parts == NoParts
  {
    ok, parts := HvmlUriSplit(uri, wantRest);
    if !ok {
      parts := NoParts;
    }
  }

  /** A path component the splitter accepts: non-empty, without `/`. */
  predicate ValidComponent(c: string) { |c| > 0 && '/' !in c }

  /** A page the splitter accepts: non-empty, not starting with `/`, and
      without the query and fragment separators. */
  predicate ValidPage(pg: string) { |pg| > 0 && pg[0] != '/' && '?' !in pg && '#' !in pg }

  /** The component after `pre` in `pre + c + "/" + post` is `c`. */
  lemma ComponentAt(pre: string, c: string, post: string)
    requires ValidComponent(c)
    ensures Component(pre + c + "/" + post, |pre|) == Some(|c|)
    ensures (pre + c + "/" + post)[|pre|..|pre| + |c|] == c
  {
    var u := pre + c + "/" + post;
    forall i | |pre| <= i < |pre| + |c| ensures u[i] != '/' {
      assert u[i] == c[i - |pre|];
    }
    RunLengthIs(u, |pre|, {'/'}, |c|);
  }

  /** The page after `pre` in `pre + page + tail` is `page` when only a
      query or a fragment follows it. */
  lemma TrailAt(pre: string, page: string, tail: string)
    requires '?' !in page && '#' !in page
    requires tail == [] || tail[0] in {'?', '#'}
    ensures TrailLen(pre + page + tail, |pre|) == |page|
    ensures (pre + page + tail)[|pre|..|pre| + |page|] == page
  {
    var u := pre + page + tail;
    forall i | |pre| <= i < |pre| + |page| ensures u[i] !in {'?', '#'} {
      assert u[i] == page[i - |pre|];
    }
    RunLengthIs(u, |pre|, {'?', '#'}, |page|);
  }

  // The components of an assembled URI, one lemma each.

  lemma AssembledHost(host: string, app: string, runner: string, tail: string)
    requires ValidComponent(host)
    ensures var u := HvmlUri(host, app, runner, None, None) + tail;
      CasePrefix(u, HVML_SCHEMA) && Component(u, 7) == Some(|host|) && u[7..7 + |host|] == host
  {
    var u := HvmlUri(host, app, runner, None, None) + tail;
    assert u[..7] == HVML_SCHEMA;
    ExactIsCasePrefix(u, HVML_SCHEMA);
    assert u == HVML_SCHEMA + host + "/" + (app + "/" + runner + "/" + tail);
    ComponentAt(HVML_SCHEMA, host, app + "/" + runner + "/" + tail);
  }

  lemma AssembledApp(host: string, app: string, runner: string, tail: string)
    requires ValidComponent(app)
    ensures var u := HvmlUri(host, app, runner, None, None) + tail;
      var p := 8 + |host|;
      Component(u, p) == Some(|app|) && u[p..p + |app|] == app
  {
    var u := HvmlUri(host, app, runner, None, None) + tail;
    var pre := HVML_SCHEMA + host + "/";
    assert u == pre + app + "/" + (runner + "/" + tail);
    ComponentAt(pre, app, runner + "/" + tail);
  }

  lemma AssembledRunner(host: string, app: string, runner: string, tail: string)
    requires ValidComponent(runner)
    ensures var u := HvmlUri(host, app, runner, None, None) + tail;
      var p := 9 + |host| + |app|;
      Component(u, p) == Some(|runner|) && u[p..p + |runner|] == runner
  {
    var u := HvmlUri(host, app, runner, None, None) + tail;
    var pre := HVML_SCHEMA + host + "/" + app + "/";
    assert u == pre + runner + "/" + tail;
    ComponentAt(pre, runner, tail);
  }

  /** The group and page after the three components. */
  lemma AssembledGroup(pre: string, group: string, page: string, tail: string)
    requires ValidComponent(group)
    ensures var u := pre + (group + "/" + page + tail);
      Component(u, |pre|) == Some(|group|) && u[|pre|..|pre| + |group|] == group
  {
    var u := pre + (group + "/" + page + tail);
    assert u == pre + group + "/" + (page + tail);
    ComponentAt(pre, group, page + tail);
  }

  lemma AssembledPage(pre: string, group: string, page: string, tail: string)
    requires ValidPage(page)
    requires tail == [] || tail[0] in {'?', '#'}
    ensures var u := pre + (group + "/" + page + tail);
      var q := |pre| + |group| + 1;
      q < |u| && TrailLen(u, q) == |page| && u[q..q + |page|] == page && u[q] != '/'
  {
    var u := pre + (group + "/" + page + tail);
    var mid := pre + group + "/";
    assert u == mid + page + tail;
    TrailAt(mid, page, tail);
    assert u[|mid|] == page[0];
  }

  /** The three parts a successful split copies, from their lengths. */
  function ThreeParts(uri: string, l0: nat, l1: nat, l2: nat): UriParts
    requires 10 + l0 + l1 + l2 <= |uri|
  {
    UriParts(Some(uri[7..7 + l0]), Some(uri[8 + l0..8 + l0 + l1]),
             Some(uri[9 + l0 + l1..9 + l0 + l1 + l2]), None, None)
  }

  /** The first half of the split of a URI whose first three components
      have the given lengths. */
  lemma SplitHeadAt(uri: string, l0: nat, l1: nat, l2: nat)
    requires CasePrefix(uri, HVML_SCHEMA) && 7 <= |uri|
    requires Component(uri, 7) == Some(l0)
    requires Component(uri, 8 + l0) == Some(l1)
    requires Component(uri, 9 + l0 + l1) == Some(l2)
    ensures SplitHead(uri) == (true, ThreeParts(uri, l0, l1, l2), 10 + l0 + l1 + l2)
  {
  }

  /** A successful first half found the scheme and three components. */
  lemma SplitHeadShape(uri: string)
    requires SplitHead(uri).0
    ensures CasePrefix(uri, HVML_SCHEMA) && 7 <= |uri| && Component(uri, 7).Some?
    ensures var l0 := Component(uri, 7).value;
      && Component(uri, 8 + l0).Some?
      && Component(uri, 9 + l0 + Component(uri, 8 + l0).value).Some?
  {
  }

  /** The second half of the split when the group and the page have the
      given lengths. */
  lemma SplitRestAt(uri: string, p: nat, three: UriParts, lg: nat, lp: nat)
    requires p <= |uri| && Component(uri, p) == Some(lg)
    requires p + lg + 1 < |uri| && TrailLen(uri, p + lg + 1) == lp
    requires lp > 0 && uri[p + lg + 1] != '/'
    ensures SplitRest(uri, p, three)
         == (true, three.(group := Some(uri[p..p + lg]), page := Some(uri[p + lg + 1..p + lg + 1 + lp])))
  {
  }

  /** A successful second half found a group and a page. */
  lemma SplitRestShape(uri: string, p: nat, three: UriParts)
    requires p <= |uri| && SplitRest(uri, p, three).0
    ensures Component(uri, p).Some?
    ensures var q := p + Component(uri, p).value + 1;
      q < |uri| && TrailLen(uri, q) > 0 && uri[q] != '/'
  {
  }

  /** The split of a URI whose first three components have the given
      lengths. */
  lemma SplitAtThree(uri: string, l0: nat, l1: nat, l2: nat)
    requires CasePrefix(uri, HVML_SCHEMA) && 7 <= |uri|
    requires Component(uri, 7) == Some(l0)
    requires Component(uri, 8 + l0) == Some(l1)
    requires Component(uri, 9 + l0 + l1) == Some(l2)
    ensures SplitUri(uri, false) == (true, ThreeParts(uri, l0, l1, l2))
  {
    SplitHeadAt(uri, l0, l1, l2);
  }

  /** The first half of the split of any URI with the facts the
      `Assembled` lemmas state. */
  lemma HeadOfFacts(u: string, host: string, app: string, runner: string)
    requires CasePrefix(u, HVML_SCHEMA) && 7 <= |u|
    requires Component(u, 7) == Some(|host|) && u[7..7 + |host|] == host
    requires var p := 8 + |host|; Component(u, p) == Some(|app|) && u[p..p + |app|] == app
    requires var p := 9 + |host| + |app|; Component(u, p) == Some(|runner|) && u[p..p + |runner|] == runner
    ensures SplitHead(u) == (true, UriParts(Some(host), Some(app), Some(runner), None, None), 10 + |host| + |app| + |runner|)
  {
    SplitHeadAt(u, |host|, |app|, |runner|);
  }

  /** The first half of splitting an assembled URI, followed by anything,
      recovers the host, application and runner. */
  lemma HeadOfAssembled(host: string, app: string, runner: string, rest: string)
    requires ValidComponent(host) && ValidComponent(app) && ValidComponent(runner)
    ensures SplitHead(HvmlUri(host, app, runner, None, None) + rest)
         == (true, UriParts(Some(host), Some(app), Some(runner), None, None), 10 + |host| + |app| + |runner|)
  {
    AssembledHost(host, app, runner, rest);
    AssembledApp(host, app, runner, rest);
    AssembledRunner(host, app, runner, rest);
    HeadOfFacts(HvmlUri(host, app, runner, None, None) + rest, host, app, runner);
  }

  /** Splitting an assembled URI, followed by anything, recovers the host,
      application and runner. */
  lemma SplitOfAssembled(host: string, app: string, runner: string, tail: string)
    requires ValidComponent(host) && ValidComponent(app) && ValidComponent(runner)
    ensures SplitUri(HvmlUri(host, app, runner, None, None) + tail, false)
         == (true, UriParts(Some(host), Some(app), Some(runner), None, None))
  {
    HeadOfAssembled(host, app, runner, tail);
  }

  /** The second half of splitting a group and a page, followed by
      nothing, a query or a fragment, recovers both. */
  lemma RestOfAssembled(pre: string, group: string, page: string, tail: string, three: UriParts)
    requires ValidComponent(group) && ValidPage(page)
    requires tail == [] || tail[0] in {'?', '#'}
    ensures SplitRest(pre + (group + "/" + page + tail), |pre|, three)
         == (true, three.(group := Some(group), page := Some(page)))
  {
    AssembledGroup(pre, group, page, tail);
    AssembledPage(pre, group, page, tail);
    SplitRestAt(pre + (group + "/" + page + tail), |pre|, three, |group|, |page|);
  }

  /** The five parts a successful full split copies, from their lengths. */
  function FiveParts(uri: string, l0: nat, l1: nat, l2: nat, l3: nat, lp: nat): UriParts
    requires 10 + l0 + l1 + l2 + l3 + 1 + lp <= |uri|
  {
    var p := 10 + l0 + l1 + l2;
    ThreeParts(uri, l0, l1, l2).(group := Some(uri[p..p + l3]),
                                 page := Some(uri[p + l3 + 1..p + l3 + 1 + lp]))
  }

  /** The full split of a URI whose components and page have the given
      lengths. */
  lemma SplitAtFive(uri: string, l0: nat, l1: nat, l2: nat, l3: nat, lp: nat)
    requires CasePrefix(uri, HVML_SCHEMA) && 7 <= |uri|
    requires Component(uri, 7) == Some(l0)
    requires Component(uri, 8 + l0) == Some(l1)
    requires Component(uri, 9 + l0 + l1) == Some(l2)
    requires Component(uri, 10 + l0 + l1 + l2) == Some(l3)
    requires 10 + l0 + l1 + l2 + l3 + 1 < |uri| && TrailLen(uri, 10 + l0 + l1 + l2 + l3 + 1) == lp
    requires lp > 0 && uri[10 + l0 + l1 + l2 + l3 + 1] != '/'
    ensures SplitUri(uri, true) == (true, FiveParts(uri, l0, l1, l2, l3, lp))
  {
    SplitHeadAt(uri, l0, l1, l2);
    RestFiveAt(uri, l0, l1, l2, l3, lp);
    SplitJoin(uri, 10 + l0 + l1 + l2, ThreeParts(uri, l0, l1, l2), FiveParts(uri, l0, l1, l2, l3, lp));
  }

  /** The second half of the full split at the given lengths. */
  lemma RestFiveAt(uri: string, l0: nat, l1: nat, l2: nat, l3: nat, lp: nat)
    requires 10 + l0 + l1 + l2 <= |uri|
    requires Component(uri, 10 + l0 + l1 + l2) == Some(l3)
    requires 10 + l0 + l1 + l2 + l3 + 1 < |uri| && TrailLen(uri, 10 + l0 + l1 + l2 + l3 + 1) == lp
    requires lp > 0 && uri[10 + l0 + l1 + l2 + l3 + 1] != '/'
    ensures SplitRest(uri, 10 + l0 + l1 + l2, ThreeParts(uri, l0, l1, l2)) == (true, FiveParts(uri, l0, l1, l2, l3, lp))
  {
    SplitRestAt(uri, 10 + l0 + l1 + l2, ThreeParts(uri, l0, l1, l2), l3, lp);
  }

  /** A full split is its two halves. */
  lemma SplitJoin(u: string, p: nat, three: UriParts, five: UriParts)
    requires p <= |u| && SplitHead(u) == (true, three, p) && SplitRest(u, p, three) == (true, five)
    ensures SplitUri(u, true) == (true, five)
  {
  }

  /** An assembled URI with a group and a page is the URI without them,
      followed by the group, `/` and the page. */
  lemma HvmlUriWithGroup(host: string, app: string, runner: string, group: string, page: string, tail: string)
    ensures HvmlUri(host, app, runner, Some(group), Some(page)) + tail
         == HvmlUri(host, app, runner, None, None) + (group + "/" + page + tail)
    ensures |HvmlUri(host, app, runner, None, None)| == 10 + |host| + |app| + |runner|
  {
  }

  /** The first half of splitting an assembled URI with a group and a page. */
  lemma HeadOfAssembledFull(host: string, app: string, runner: string, group: string, page: string, tail: string)
    requires ValidComponent(host) && ValidComponent(app) && ValidComponent(runner)
    ensures SplitHead(HvmlUri(host, app, runner, Some(group), Some(page)) + tail)
         == (true, UriParts(Some(host), Some(app), Some(runner), None, None), 10 + |host| + |app| + |runner|)
  {
    HvmlUriWithGroup(host, app, runner, group, page, tail);
    HeadOfAssembled(host, app, runner, group + "/" + page + tail);
  }

  /** The second half of splitting an assembled URI with a group and a page. */
  lemma RestOfAssembledFull(host: string, app: string, runner: string, group: string, page: string, tail: string)
    requires ValidComponent(group) && ValidPage(page)
    requires tail == [] || tail[0] in {'?', '#'}
    ensures SplitRest(HvmlUri(host, app, runner, Some(group), Some(page)) + tail, 10 + |host| + |app| + |runner|,
                      UriParts(Some(host), Some(app), Some(runner), None, None))
         == (true, UriParts(Some(host), Some(app), Some(runner), Some(group), Some(page)))
  {
    HvmlUriWithGroup(host, app, runner, group, page, tail);
    RestOfAssembled(HvmlUri(host, app, runner, None, None), group, page, tail,
                    UriParts(Some(host), Some(app), Some(runner), None, None));
  }

  /** A full split is its two halves. */
  lemma SplitOfHalves(u: string, host: string, app: string, runner: string, group: string, page: string)
    requires SplitHead(u)
         == (true, UriParts(Some(host), Some(app), Some(runner), None, None), 10 + |host| + |app| + |runner|)
    requires SplitRest(u, 10 + |host| + |app| + |runner|, UriParts(Some(host), Some(app), Some(runner), None, None))
         == (true, UriParts(Some(host), Some(app), Some(runner), Some(group), Some(page)))
    ensures SplitUri(u, true) == (true, UriParts(Some(host), Some(app), Some(runner), Some(group), Some(page)))
  {
  }

  /** With a valid group and page, followed by nothing, a query or a
      fragment, splitting an assembled URI recovers all five parts. */
  lemma SplitOfAssembledFull(host: string, app: string, runner: string,
                             group: string, page: string, tail: string)
    requires ValidComponent(host) && ValidComponent(app) && ValidComponent(runner)
    requires ValidComponent(group) && ValidPage(page)
    requires tail == [] || tail[0] in {'?', '#'}
    ensures SplitUri(HvmlUri(host, app, runner, Some(group), Some(page)) + tail, true)
         == (true, UriParts(Some(host), Some(app), Some(runner), Some(group), Some(page)))
  {
    HeadOfAssembledFull(host, app, runner, group, page, tail);
    RestOfAssembledFull(host, app, runner, group, page, tail);
    SplitOfHalves(HvmlUri(host, app, runner, Some(group), Some(page)) + tail, host, app, runner, group, page);
  }

  /** What one accepted component contributes to the URI. */
  lemma ComponentText(uri: string, p: nat)
    requires p <= |uri| && Component(uri, p).Some?
    ensures ValidComponent(uri[p..p + Component(uri, p).value])
  {
    RunAvoidsStops(uri, p, {'/'});
  }

  /** A URI that begins with the scheme and has `/` after each of three
      components of the given lengths begins with their assembly. */
  lemma ThreePartPrefix(uri: string, l0: nat, l1: nat, l2: nat)
    requires CasePrefix(uri, HVML_SCHEMA)
    requires 10 + l0 + l1 + l2 <= |uri|
    requires uri[7 + l0] == '/' && uri[8 + l0 + l1] == '/' && uri[9 + l0 + l1 + l2] == '/'
    ensures var p := ThreeParts(uri, l0, l1, l2);
      CasePrefix(uri, HvmlUri(p.host.value, p.app.value, p.runner.value, None, None))
  {
    var k := 10 + l0 + l1 + l2;
    var h, a, r := uri[7..7 + l0], uri[8 + l0..8 + l0 + l1], uri[9 + l0 + l1..9 + l0 + l1 + l2];
    ThreeSlices(uri, l0, l1, l2);
    HvmlUriRegroupThree(h, a, r, uri[7..k]);
    PrefixUpTo(uri, k, HvmlUri(h, a, r, None, None));
  }

  /** The assembly of five parts, regrouped. */
  lemma HvmlUriRegroup(host: string, app: string, runner: string, group: string, page: string,
                       head: string, tail: string, text: string)
    requires head == host + "/" + app + "/" + runner + "/" && tail == group + "/" + page
    requires text == head + tail
    ensures HvmlUri(host, app, runner, Some(group), Some(page)) == HVML_SCHEMA + text
  {
  }

  /** The assembly of three parts, regrouped. */
  lemma HvmlUriRegroupThree(host: string, app: string, runner: string, text: string)
    requires text == host + "/" + app + "/" + runner + "/"
    ensures HvmlUri(host, app, runner, None, None) == HVML_SCHEMA + text
  {
  }

  /** The text of three components, each followed by `/`. */
  lemma ThreeSlices(uri: string, l0: nat, l1: nat, l2: nat)
    requires 10 + l0 + l1 + l2 <= |uri|
    requires uri[7 + l0] == '/' && uri[8 + l0 + l1] == '/' && uri[9 + l0 + l1 + l2] == '/'
    ensures uri[7..10 + l0 + l1 + l2]
         == uri[7..7 + l0] + "/" + uri[8 + l0..8 + l0 + l1] + "/" + uri[9 + l0 + l1..9 + l0 + l1 + l2] + "/"
  {
    var a, b, c := 7 + l0, 8 + l0 + l1, 9 + l0 + l1 + l2;
    var x, y, z := uri[7..a] + "/", uri[a + 1..b] + "/", uri[b + 1..c] + "/";
    assert x == uri[7..a + 1] && y == uri[a + 1..b + 1] && z == uri[b + 1..c + 1];
    SliceJoin(uri, 7, a + 1, b + 1);
    SliceJoin(uri, 7, b + 1, c + 1);
  }

  /** The text of a group, its `/` and a page. */
  lemma GroupPageSlice(uri: string, p: nat, l3: nat, lp: nat)
    requires p + l3 + 1 + lp <= |uri| && uri[p + l3] == '/'
    ensures uri[p..p + l3 + 1 + lp] == uri[p..p + l3] + "/" + uri[p + l3 + 1..p + l3 + 1 + lp]
  {
  }

  /** Adjacent slices join. */
  lemma SliceJoin(s: string, i: nat, j: nat, k: nat)
    requires i <= j <= k <= |s|
    ensures s[i..k] == s[i..j] + s[j..k]
  {
  }

  /** The scheme followed by the text up to `k` is a prefix of the URI,
      ignoring the case of the scheme. */
  lemma PrefixUpTo(uri: string, k: nat, full: string)
    requires CasePrefix(uri, HVML_SCHEMA) && 7 <= k <= |uri|
    requires full == HVML_SCHEMA + uri[7..k]
    ensures CasePrefix(uri, full) && |full| == k
  {
    CasePrefixJoin(uri, HVML_SCHEMA, uri[7..k]);
  }

  /** The text of five parts of the given lengths, and the separators. */
  lemma FiveSlices(uri: string, l0: nat, l1: nat, l2: nat, l3: nat, lp: nat)
    requires 10 + l0 + l1 + l2 + l3 + 1 + lp <= |uri|
    requires uri[7 + l0] == '/' && uri[8 + l0 + l1] == '/' && uri[9 + l0 + l1 + l2] == '/'
    requires uri[10 + l0 + l1 + l2 + l3] == '/'
    ensures var p := 10 + l0 + l1 + l2;
      HvmlUri(uri[7..7 + l0], uri[8 + l0..8 + l0 + l1], uri[9 + l0 + l1..9 + l0 + l1 + l2],
              Some(uri[p..p + l3]), Some(uri[p + l3 + 1..p + l3 + 1 + lp]))
        == HVML_SCHEMA + uri[7..10 + l0 + l1 + l2 + l3 + 1 + lp]
  {
    var p := 10 + l0 + l1 + l2;
    var k := p + l3 + 1 + lp;
    ThreeSlices(uri, l0, l1, l2);
    GroupPageSlice(uri, p, l3, lp);
    SliceJoin(uri, 7, p, k);
    HvmlUriRegroup(uri[7..7 + l0], uri[8 + l0..8 + l0 + l1], uri[9 + l0 + l1..9 + l0 + l1 + l2],
                   uri[p..p + l3], uri[p + l3 + 1..k], uri[7..p], uri[p..k], uri[7..k]);
  }

  /** All five parts are present, and the URI they assemble begins `uri`,
      followed by nothing, a query or a fragment. */
  predicate FullPrefixOf(uri: string, p: UriParts)
  {
    && p.host.Some? && p.app.Some? && p.runner.Some? && p.group.Some? && p.page.Some?
    && var full := HvmlUri(p.host.value, p.app.value, p.runner.value, p.group, p.page);
       CasePrefix(uri, full) && (|uri| == |full| || uri[|full|] in {'?', '#'})
  }

  /** Five components of the given lengths, the last one a page, assemble
      a prefix of the URI that only a query or a fragment follows. */
  lemma FivePartPrefix(uri: string, l0: nat, l1: nat, l2: nat, l3: nat, lp: nat)
    requires CasePrefix(uri, HVML_SCHEMA)
    requires 10 + l0 + l1 + l2 + l3 + 1 + lp <= |uri|
    requires uri[7 + l0] == '/' && uri[8 + l0 + l1] == '/' && uri[9 + l0 + l1 + l2] == '/'
    requires uri[10 + l0 + l1 + l2 + l3] == '/'
    requires TrailLen(uri, 10 + l0 + l1 + l2 + l3 + 1) == lp
    ensures FullPrefixOf(uri, FiveParts(uri, l0, l1, l2, l3, lp))
  {
    var f := FiveParts(uri, l0, l1, l2, l3, lp);
    FiveSlices(uri, l0, l1, l2, l3, lp);
    PrefixUpTo(uri, 10 + l0 + l1 + l2 + l3 + 1 + lp, HvmlUri(f.host.value, f.app.value, f.runner.value, f.group, f.page));
  }

  /** The parts three components of the given lengths contribute are
      ones the splitter accepts. */
  lemma ThreePartsValid(uri: string, l0: nat, l1: nat, l2: nat)
    requires 7 <= |uri|
    requires Component(uri, 7) == Some(l0)
    requires Component(uri, 8 + l0) == Some(l1)
    requires Component(uri, 9 + l0 + l1) == Some(l2)
    ensures var t := ThreeParts(uri, l0, l1, l2);
      ValidComponent(t.host.value) && ValidComponent(t.app.value) && ValidComponent(t.runner.value)
  {
    ComponentText(uri, 7);
    ComponentText(uri, 8 + l0);
    ComponentText(uri, 9 + l0 + l1);
  }

  /** The parts of a successful split of the first three components are
      ones the splitter accepts. */
  lemma SplitPartsValid(uri: string)
    requires SplitUri(uri, false).0
    ensures var p := SplitUri(uri, false).1;
      && p.host.Some? && p.app.Some? && p.runner.Some? && p.group.None? && p.page.None?
      && ValidComponent(p.host.value) && ValidComponent(p.app.value) && ValidComponent(p.runner.value)
  {
    SplitHeadShape(uri);
    var l0 := Component(uri, 7).value;
    var l1 := Component(uri, 8 + l0).value;
    var l2 := Component(uri, 9 + l0 + l1).value;
    SplitAtThree(uri, l0, l1, l2);
    ThreePartsValid(uri, l0, l1, l2);
  }

  /** A successful split of the first three components is a prefix of the
      URI, ignoring the case of the scheme. */
  lemma SplitIsPrefix(uri: string)
    requires SplitUri(uri, false).0
    ensures var p := SplitUri(uri, false).1;
      && p.host.Some? && p.app.Some? && p.runner.Some?
      && CasePrefix(uri, HvmlUri(p.host.value, p.app.value, p.runner.value, None, None))
  {
    SplitHeadShape(uri);
    var l0 := Component(uri, 7).value;
    var l1 := Component(uri, 8 + l0).value;
    var l2 := Component(uri, 9 + l0 + l1).value;
    SplitAtThree(uri, l0, l1, l2);
    ThreePartPrefix(uri, l0, l1, l2);
  }

  /** A successful split of the first three components describes the URI:
      the parts are valid and the URI begins with their assembly. */
  lemma SplitDescribesUri(uri: string)
    requires SplitUri(uri, false).0
    ensures var p := SplitUri(uri, false).1;
      && p.host.Some? && p.app.Some? && p.runner.Some? && p.group.None? && p.page.None?
      && ValidComponent(p.host.value) && ValidComponent(p.app.value) && ValidComponent(p.runner.value)
      && CasePrefix(uri, HvmlUri(p.host.value, p.app.value, p.runner.value, None, None))
  {
    SplitPartsValid(uri);
    SplitIsPrefix(uri);
  }

  /** The lengths of a successful full split, as `FiveParts` takes them. */
  lemma SplitFullAt(uri: string) returns (l0: nat, l1: nat, l2: nat, l3: nat, lp: nat)
    requires SplitUri(uri, true).0
    ensures CasePrefix(uri, HVML_SCHEMA) && 7 <= |uri|
    ensures Component(uri, 7) == Some(l0)
    ensures Component(uri, 8 + l0) == Some(l1)
    ensures Component(uri, 9 + l0 + l1) == Some(l2)
    ensures Component(uri, 10 + l0 + l1 + l2) == Some(l3)
    ensures 10 + l0 + l1 + l2 + l3 + 1 < |uri| && TrailLen(uri, 10 + l0 + l1 + l2 + l3 + 1) == lp
    ensures lp > 0 && uri[10 + l0 + l1 + l2 + l3 + 1] != '/'
    ensures 10 + l0 + l1 + l2 + l3 + 1 + lp <= |uri|
    ensures uri[7 + l0] == '/' && uri[8 + l0 + l1] == '/' && uri[9 + l0 + l1 + l2] == '/'
    ensures uri[10 + l0 + l1 + l2 + l3] == '/'
    ensures SplitUri(uri, true).1 == FiveParts(uri, l0, l1, l2, l3, lp)
  {
    SplitHalves(uri);
    l0, l1, l2 := HeadLengths(uri);
    l3, lp := RestLengths(uri, l0, l1, l2);
  }

  /** A successful full split is a successful first half followed by a
      successful second half. */
  lemma SplitHalves(uri: string)
    requires SplitUri(uri, true).0
    ensures SplitHead(uri).0 && SplitHead(uri).2 <= |uri|
    ensures SplitRest(uri, SplitHead(uri).2, SplitHead(uri).1) == SplitUri(uri, true)
  {
  }

  /** The lengths of the three components a successful first half found. */
  lemma HeadLengths(uri: string) returns (l0: nat, l1: nat, l2: nat)
    requires SplitHead(uri).0
    ensures CasePrefix(uri, HVML_SCHEMA) && 7 <= |uri|
    ensures Component(uri, 7) == Some(l0)
    ensures Component(uri, 8 + l0) == Some(l1)
    ensures Component(uri, 9 + l0 + l1) == Some(l2)
    ensures uri[7 + l0] == '/' && uri[8 + l0 + l1] == '/' && uri[9 + l0 + l1 + l2] == '/'
    ensures SplitHead(uri) == (true, ThreeParts(uri, l0, l1, l2), 10 + l0 + l1 + l2)
  {
    SplitHeadShape(uri);
    l0 := Component(uri, 7).value;
    l1 := Component(uri, 8 + l0).value;
    l2 := Component(uri, 9 + l0 + l1).value;
    SplitHeadAt(uri, l0, l1, l2);
  }

  /** The lengths of the group and the page a successful second half
      found after three components of the given lengths. */
  lemma RestLengths(uri: string, l0: nat, l1: nat, l2: nat) returns (l3: nat, lp: nat)
    requires 10 + l0 + l1 + l2 <= |uri|
    requires SplitRest(uri, 10 + l0 + l1 + l2, ThreeParts(uri, l0, l1, l2)).0
    ensures Component(uri, 10 + l0 + l1 + l2) == Some(l3) && uri[10 + l0 + l1 + l2 + l3] == '/'
    ensures 10 + l0 + l1 + l2 + l3 + 1 < |uri| && TrailLen(uri, 10 + l0 + l1 + l2 + l3 + 1) == lp
    ensures lp > 0 && uri[10 + l0 + l1 + l2 + l3 + 1] != '/' && 10 + l0 + l1 + l2 + l3 + 1 + lp <= |uri|
    ensures SplitRest(uri, 10 + l0 + l1 + l2, ThreeParts(uri, l0, l1, l2)) == (true, FiveParts(uri, l0, l1, l2, l3, lp))
  {
    var p := 10 + l0 + l1 + l2;
    SplitRestShape(uri, p, ThreeParts(uri, l0, l1, l2));
    l3 := Component(uri, p).value;
    lp := TrailLen(uri, p + l3 + 1);
    RestFiveAt(uri, l0, l1, l2, l3, lp);
  }

  /** The parts five components of the given lengths contribute are ones
      the splitter accepts. */
  lemma FivePartsValid(uri: string, l0: nat, l1: nat, l2: nat, l3: nat, lp: nat)
    requires 7 <= |uri|
    requires Component(uri, 7) == Some(l0)
    requires Component(uri, 8 + l0) == Some(l1)
    requires Component(uri, 9 + l0 + l1) == Some(l2)
    requires Component(uri, 10 + l0 + l1 + l2) == Some(l3)
    requires 10 + l0 + l1 + l2 + l3 + 1 < |uri| && TrailLen(uri, 10 + l0 + l1 + l2 + l3 + 1) == lp
    requires lp > 0 && uri[10 + l0 + l1 + l2 + l3 + 1] != '/'
    ensures var p := 10 + l0 + l1 + l2;
      && ValidComponent(uri[7..7 + l0]) && ValidComponent(uri[8 + l0..8 + l0 + l1])
      && ValidComponent(uri[9 + l0 + l1..9 + l0 + l1 + l2])
      && ValidComponent(uri[p..p + l3]) && ValidPage(uri[p + l3 + 1..p + l3 + 1 + lp])
  {
    ThreePartsValid(uri, l0, l1, l2);
    var p := 10 + l0 + l1 + l2;
    ComponentText(uri, p);
    PageText(uri, p + l3 + 1);
  }

  /** What an accepted page contributes to the URI. */
  lemma PageText(uri: string, q: nat)
    requires q < |uri| && TrailLen(uri, q) > 0 && uri[q] != '/'
    ensures ValidPage(uri[q..q + TrailLen(uri, q)])
  {
    RunAvoidsStops(uri, q, {'?', '#'});
  }

  /** The five parts of a successful full split are ones the splitter
      accepts. */
  lemma SplitPartsValidFull(uri: string)
    requires SplitUri(uri, true).0
    ensures var p := SplitUri(uri, true).1;
      && p.host.Some? && p.app.Some? && p.runner.Some? && p.group.Some? && p.page.Some?
      && ValidComponent(p.host.value) && ValidComponent(p.app.value) && ValidComponent(p.runner.value)
      && ValidComponent(p.group.value) && ValidPage(p.page.value)
  {
    var l0, l1, l2, l3, lp := SplitFullAt(uri);
    FivePartsValid(uri, l0, l1, l2, l3, lp);
  }

  /** A successful full split is a prefix of the URI, and only a query or
      a fragment follows it. */
  lemma SplitIsPrefixFull(uri: string)
    requires SplitUri(uri, true).0
    ensures FullPrefixOf(uri, SplitUri(uri, true).1)
  {
    var l0, l1, l2, l3, lp := SplitFullAt(uri);
    FivePartPrefix(uri, l0, l1, l2, l3, lp);
  }

  /** A successful split of all five parts describes the URI as well. */
  lemma SplitDescribesUriFull(uri: string)
    requires SplitUri(uri, true).0
    ensures var p := SplitUri(uri, true).1;
      && p.host.Some? && p.app.Some? && p.runner.Some? && p.group.Some? && p.page.Some?
      && ValidComponent(p.host.value) && ValidComponent(p.app.value) && ValidComponent(p.runner.value)
      && ValidComponent(p.group.value) && ValidPage(p.page.value)
      && FullPrefixOf(uri, p)
  {
    SplitPartsValidFull(uri);
    SplitIsPrefixFull(uri);
  }

  // ---------------------------------------------------------------------
  // Query values: ...?key1=value1&key2=value2#fragment

  /** The characters a key runs to.  `get_key_len` stops at `=` and `#`
      (`ampEndsKey` false); the corrected scan also stops at `&`, so that
      a bare flag does not run into the pair after it. */
  function KeyStops(ampEndsKey: bool): (r: set<char>)
    ensures '=' in r && '#' in r && ('&' in r <==> ampEndsKey)
    ensures r <= {'=', '#', '&'}
  {
    if ampEndsKey then {'=', '#', '&'} else {'=', '#'}
  }

  /** Where `locate_query_value` goes on after a pair at `left` that does
      not match: past the key (`get_key_len`), then past the value measured
      from the character that ended the key (`get_value_len`), then past
      one `&`.  It moves on unless it stands at a fragment. */
  function SkipPair(uri: string, left: nat, ampEndsKey: bool): (next: nat)
    requires left < |uri|
    ensures left <= next <= |uri|
    ensures next == left ==> uri[left] == '#'
  {
    var value := left + RunLength(uri, left, KeyStops(ampEndsKey));
    var stop := value + ValueLen(uri, value);
    if stop < |uri| && uri[stop] == '&' then stop + 1 else stop
  }

  /** The scan of `locate_query_value` over the pairs from `left`, looking
      for `myKey` (the key followed by `=`); a `#` ends it.  The result is
      the position just after the match. */
  function ScanPairs(uri: string, left: nat, myKey: string, ampEndsKey: bool): (r: Option<nat>)
    requires left <= |uri|
    ensures r.Some? ==> left + |myKey| <= r.value <= |uri|
    decreases |uri| - left
  {
    if left == |uri| then None
    else if CasePrefix(uri[left..], myKey) then Some(left + |myKey|)
    else
      var next := SkipPair(uri, left, ampEndsKey);
      if next < |uri| && uri[next] == '#' then None
      else ScanPairs(uri, next, myKey, ampEndsKey)
  }

  /** The scan reports a position only just after a case-insensitive
      match of `myKey`. */
  lemma {:induction false} ScanPairsSound(uri: string, left: nat, myKey: string, ampEndsKey: bool)
    requires left <= |uri| && ScanPairs(uri, left, myKey, ampEndsKey).Some?
    ensures var v := ScanPairs(uri, left, myKey, ampEndsKey).value;
      CasePrefix(uri[v - |myKey|..], myKey)
    decreases |uri| - left
  {
    if left < |uri| && !CasePrefix(uri[left..], myKey) {
      ScanPairsSound(uri, SkipPair(uri, left, ampEndsKey), myKey, ampEndsKey);
    }
  }

  /** `locate_query_value`: where the value of `key` starts, searching
      the pairs after the first `?`.  An empty key is never found. */
  function ValueStart(uri: string, key: string, ampEndsKey: bool): (r: Option<nat>)
    ensures r.Some? ==> |key| > 0 && '?' in uri && r.value <= |uri|
  {
    if |key| == 0 then None
    else match FirstIndexOf(uri, '?')
      case None => None
      case Some(q) => ScanPairs(uri, q + 1, key + "=", ampEndsKey)
  }

  /** What `purc_hvml_uri_get_query_value` copies out: the text from the
      start of the value to the next `&` or `#`, when it is not empty. */
  function QueryValue(uri: string, key: string, ampEndsKey: bool): (r: Option<string>)
    ensures r.Some? ==> |r.value| > 0 && '&' !in r.value && '#' !in r.value
    ensures r.Some? ==> ValueStart(uri, key, ampEndsKey).Some?
  {
    match ValueStart(uri, key, ampEndsKey)
    case None => None
    case Some(v) =>
      var n := ValueLen(uri, v);
      if n == 0 then None
      else
        RunAvoidsStops(uri, v, {'&', '#'});
        Some(uri[v..v + n])
  }

  /** A value starts just after the key and `=`, matched ignoring case,
      after the first `?`. */
  lemma ValueStartFollowsKey(uri: string, key: string, ampEndsKey: bool)
    requires ValueStart(uri, key, ampEndsKey).Some?
    ensures var v := ValueStart(uri, key, ampEndsKey).value;
      && FirstIndexOf(uri, '?').Some? && FirstIndexOf(uri, '?').value + 1 + |key| + 1 <= v
      && CasePrefix(uri[v - |key| - 1..], key + "=")
  {
    var q := FirstIndexOf(uri, '?').value;
    assert ValueStart(uri, key, ampEndsKey) == ScanPairs(uri, q + 1, key + "=", ampEndsKey);
    ScanPairsSound(uri, q + 1, key + "=", ampEndsKey);
  }

  /** So a found value is preceded by the key and `=`, and it is the text
      from there to the next `&` or `#`. */
  lemma QueryValueFollowsKey(uri: string, key: string, ampEndsKey: bool)
    requires QueryValue(uri, key, ampEndsKey).Some?
    ensures var v := ValueStart(uri, key, ampEndsKey).value;
      && FirstIndexOf(uri, '?').Some? && FirstIndexOf(uri, '?').value + 1 + |key| + 1 <= v
      && CasePrefix(uri[v - |key| - 1..], key + "=")
      && QueryValue(uri, key, ampEndsKey).value == uri[v..v + ValueLen(uri, v)]
  {
    ValueStartFollowsKey(uri, key, ampEndsKey);
  }

  /** A pair of a query as a caller writes it: `key=value`, or a bare
      `key` (a flag) when `value` is `None`. */
  datatype Pair = Pair(key: string, value: Option<string>)

  function PairText(p: Pair): string
  {
    match p.value
    case None => p.key
    case Some(v) => p.key + "=" + v
  }

  /** The pairs joined by `&`. */
  function QueryText(ps: seq<Pair>): string
    decreases |ps|
  {
    if |ps| == 0 then ""
    else if |ps| == 1 then PairText(ps[0])
    else PairText(ps[0]) + "&" + QueryText(ps[1..])
  }

  /** Text without the separators of a query. */
  predicate NoQueryMarks(s: string) { '=' !in s && '&' !in s && '#' !in s }

  /** A pair whose text the scan can take apart: a key without
      separators, and a value without `&` and `#`.  A bare flag is
      well-formed only for the scan whose keys end at `&`. */
  predicate PairOk(p: Pair, ampEndsKey: bool)
  {
    && NoQueryMarks(p.key)
    && match p.value
       case None => ampEndsKey
       case Some(v) => '&' !in v && '#' !in v
  }

  /** Keys compare ignoring case. */
  predicate KeyMatches(k: string, key: string) { |k| == |key| && CasePrefix(k, key) }

  /** The reference lookup: the value of the first pair with a value whose
      key matches. */
  function FirstMatch(ps: seq<Pair>, key: string): Option<string>
    decreases |ps|
  {
    if |ps| == 0 then None
    else if ps[0].value.Some? && KeyMatches(ps[0].key, key) then ps[0].value
    else FirstMatch(ps[1..], key)
  }

  /** A letter never matches a separator ignoring case. */
  lemma CaseEqMark(c: char, d: char)
    requires d in {'=', '&', '#'} && CaseEq(c, d)
    ensures c == d
  {
  }

  /** Whether a text made of `k` and then a separator (or nothing) starts
      with `key=`, ignoring case. */
  lemma KeyMatchIff(t: string, k: string, after: string, key: string)
    requires t == k + after && NoQueryMarks(k) && NoQueryMarks(key)
    requires |after| > 0 ==> after[0] in {'=', '&', '#'}
    ensures CasePrefix(t, key + "=") <==> KeyMatches(k, key) && |after| > 0 && after[0] == '='
  {
    var m := key + "=";
    if CasePrefix(t, m) {
      if |k| < |key| {
        assert CaseEq(t[|k|], m[|k|]);
        assert t[|k|] == after[0];
        CaseEqMark(m[|k|], after[0]);
      } else if |k| > |key| {
        assert CaseEq(t[|key|], m[|key|]);
        CaseEqMark(t[|key|], '=');
      } else {
        assert CaseEq(t[|k|], m[|k|]);
        CaseEqMark(t[|k|], '=');
        forall i | 0 <= i < |key| ensures CaseEq(k[i], key[i]) {
          assert CaseEq(t[i], m[i]);
        }
      }
    }
    if KeyMatches(k, key) && |after| > 0 && after[0] == '=' {
      forall i | 0 <= i < |m| ensures CaseEq(t[i], m[i]) {
        if i < |key| {
          assert CaseEq(k[i], key[i]);
        }
      }
    }
  }

  /** Where `x` ends in a text that continues with `y`. */
  lemma SuffixOf(s: string, from: nat, x: string, y: string)
    requires from <= |s| && s[from..] == x + y
    ensures from + |x| <= |s| && s[from..from + |x|] == x && s[from + |x|..] == y
  {
    assert s[from..from + |x|] == s[from..][..|x|];
    assert s[from + |x|..] == s[from..][|x|..];
  }

  /** Where the parts of a pair lie in a text that continues with
      `after`. */
  lemma PairLayout(uri: string, left: nat, p: Pair, after: string)
    requires left <= |uri| && uri[left..] == PairText(p) + after
    ensures left + |PairText(p)| <= |uri| && uri[left + |PairText(p)|..] == after
    ensures left + |p.key| <= |uri| && uri[left..left + |p.key|] == p.key
    ensures p.value.Some? ==>
      && |PairText(p)| == |p.key| + 1 + |p.value.value|
      && uri[left + |p.key|] == '=' && uri[left + |p.key| + 1..left + |PairText(p)|] == p.value.value
    ensures p.value.None? ==> |PairText(p)| == |p.key|
  {
    var t := uri[left..];
    SuffixOf(uri, left, PairText(p), after);
    if p.value.Some? {
      var k, v := p.key, p.value.value;
      assert PairText(p) + after == k + ("=" + (v + after));
      SuffixOf(uri, left, k, "=" + (v + after));
      SuffixOf(uri, left + |k|, "=", v + after);
      SuffixOf(uri, left + |k| + 1, v, after);
    } else {
      SuffixOf(uri, left, p.key, after);
    }
  }

  /** The run from `from` is `n` long when `n` characters outside `stops`
      are followed by a stop or the end. */
  lemma RunOverSlice(s: string, from: nat, n: nat, stops: set<char>)
    requires from + n <= |s|
    requires forall c :: c in s[from..from + n] ==> c !in stops
    requires from + n < |s| ==> s[from + n] in stops
    ensures RunLength(s, from, stops) == n
  {
    forall i | from <= i < from + n ensures s[i] !in stops {
      assert s[i] == s[from..from + n][i - from];
    }
    RunLengthIs(s, from, stops, n);
  }

  /** Whether the text at `left`, a key of length `n` followed by a
      separator or the end, starts with `key=`, ignoring case. */
  lemma KeyMatchAt(uri: string, left: nat, n: nat, key: string)
    requires left + n <= |uri| && NoQueryMarks(uri[left..left + n]) && NoQueryMarks(key)
    requires left + n < |uri| ==> uri[left + n] in {'=', '&', '#'}
    ensures CasePrefix(uri[left..], key + "=")
        <==> KeyMatches(uri[left..left + n], key) && left + n < |uri| && uri[left + n] == '='
  {
    var k := uri[left..left + n];
    var after := uri[left + n..];
    assert uri[left..] == k + after;
    KeyMatchIff(uri[left..], k, after, key);
  }

  /** The scan matches a pair at `left` that ends at `end` exactly when
      the pair has a value and its key matches; the value then runs to
      `end`. */
  lemma PairKeyMatch(uri: string, left: nat, p: Pair, end: nat, key: string, ampEndsKey: bool)
    requires PairOk(p, ampEndsKey) && NoQueryMarks(key)
    requires left + |p.key| <= end <= |uri| && uri[left..left + |p.key|] == p.key
    requires p.value.Some? ==>
      && end == left + |p.key| + 1 + |p.value.value|
      && uri[left + |p.key|] == '=' && uri[left + |p.key| + 1..end] == p.value.value
    requires p.value.None? ==> end == left + |p.key|
    requires end < |uri| ==> uri[end] in {'&', '#'}
    ensures CasePrefix(uri[left..], key + "=") <==> p.value.Some? && KeyMatches(p.key, key)
    ensures p.value.Some? && KeyMatches(p.key, key) ==> ValueLen(uri, left + |key| + 1) == |p.value.value|
  {
    KeyMatchAt(uri, left, |p.key|, key);
    if p.value.Some? {
      RunOverSlice(uri, left + |p.key| + 1, |p.value.value|, {'&', '#'});
    }
  }

  /** The key of a pair at `left` runs over the key itself. */
  lemma PairKeyRun(uri: string, left: nat, p: Pair, end: nat, ampEndsKey: bool)
    requires PairOk(p, ampEndsKey)
    requires left + |p.key| <= end <= |uri| && uri[left..left + |p.key|] == p.key
    requires p.value.Some? ==> left + |p.key| < end && uri[left + |p.key|] == '='
    requires p.value.None? ==> end == left + |p.key|
    requires end < |uri| ==> uri[end] in {'&', '#'}
    ensures RunLength(uri, left, KeyStops(ampEndsKey)) == |p.key|
  {
    RunOverSlice(uri, left, |p.key|, KeyStops(ampEndsKey));
  }

  /** What `get_value_len` measures from the character after the key of a
      pair at `left` that ends at `end`: the rest of the pair. */
  lemma PairValueRun(uri: string, left: nat, p: Pair, end: nat)
    requires '&' !in p.key && '#' !in p.key
    requires p.value.Some? ==> '&' !in p.value.value && '#' !in p.value.value
    requires left + |p.key| <= end <= |uri|
    requires p.value.Some? ==>
      && end == left + |p.key| + 1 + |p.value.value|
      && uri[left + |p.key|] == '=' && uri[left + |p.key| + 1..end] == p.value.value
    requires p.value.None? ==> end == left + |p.key|
    requires end < |uri| ==> uri[end] in {'&', '#'}
    ensures ValueLen(uri, left + |p.key|) == end - left - |p.key|
  {
    var k := p.key;
    if p.value.Some? {
      assert uri[left + |k|..end] == ['='] + uri[left + |k| + 1..end];
      RunOverSlice(uri, left + |k|, 1 + |p.value.value|, {'&', '#'});
    } else {
      RunOverSlice(uri, left + |k|, 0, {'&', '#'});
    }
  }

  /** So the scan skips a pair at `left` that ends at `end`, and one `&`
      after it. */
  lemma PairSkip(uri: string, left: nat, p: Pair, end: nat, ampEndsKey: bool)
    requires PairOk(p, ampEndsKey) && left < |uri|
    requires left + |p.key| <= end <= |uri| && uri[left..left + |p.key|] == p.key
    requires p.value.Some? ==>
      && end == left + |p.key| + 1 + |p.value.value|
      && uri[left + |p.key|] == '=' && uri[left + |p.key| + 1..end] == p.value.value
    requires p.value.None? ==> end == left + |p.key|
    requires end < |uri| ==> uri[end] in {'&', '#'}
    ensures SkipPair(uri, left, ampEndsKey) == if end < |uri| && uri[end] == '&' then end + 1 else end
  {
    PairKeyRun(uri, left, p, end, ampEndsKey);
    PairValueRun(uri, left, p, end);
  }

  /** One pair of the scan: the result at `left` is the pair's value when
      it matches, and otherwise what the scan after the pair finds. */
  lemma ScanPairStep(uri: string, left: nat, p: Pair, end: nat, key: string, ampEndsKey: bool,
                     m: Option<string>)
    requires PairOk(p, ampEndsKey) && |key| > 0 && NoQueryMarks(key)
    requires left + |p.key| <= end <= |uri| && uri[left..left + |p.key|] == p.key
    requires p.value.Some? ==>
      && end == left + |p.key| + 1 + |p.value.value|
      && uri[left + |p.key|] == '=' && uri[left + |p.key| + 1..end] == p.value.value
    requires p.value.None? ==> end == left + |p.key|
    requires end < |uri| ==> uri[end] in {'&', '#'}
    requires var next := if end < |uri| && uri[end] == '&' then end + 1 else end;
      ScanFinds(uri, if next < |uri| && uri[next] == '#' then None else ScanPairs(uri, next, key + "=", ampEndsKey), m)
    ensures ScanFinds(uri, ScanPairs(uri, left, key + "=", ampEndsKey),
                      if p.value.Some? && KeyMatches(p.key, key) then p.value else m)
  {
    PairKeyMatch(uri, left, p, end, key, ampEndsKey);
    if left < |uri| && !(p.value.Some? && KeyMatches(p.key, key)) {
      PairSkip(uri, left, p, end, ampEndsKey);
    }
  }

  /** The scan stops at a fragment. */
  lemma ScanAtHash(uri: string, left: nat, key: string, ampEndsKey: bool)
    requires left < |uri| && uri[left] == '#' && |key| > 0 && NoQueryMarks(key)
    ensures ScanPairs(uri, left, key + "=", ampEndsKey) == None
  {
    assert key[0] in key;
    if CasePrefix(uri[left..], key + "=") {
      assert CaseEq(uri[left..][0], (key + "=")[0]);
      CaseEqMark(key[0], '#');
    }
  }

  /** What the scan over pairs promises: nothing when no pair matches, and
      otherwise the position of the matching value, which `get_value_len`
      measures exactly. */
  predicate ScanFinds(uri: string, r: Option<nat>, m: Option<string>)
  {
    match r
    case None => m.None?
    case Some(at) =>
      m.Some? && at + |m.value| <= |uri| && uri[at..at + |m.value|] == m.value
      && ValueLen(uri, at) == |m.value|
  }

  /** The scan over the text of a list of pairs, followed by nothing or a
      fragment, finds the value of the first pair whose key matches. */
  lemma {:induction false} ScanQuery(uri: string, left: nat, ps: seq<Pair>, frag: string,
                                     key: string, ampEndsKey: bool)
    requires left <= |uri| && uri[left..] == QueryText(ps) + frag
    requires |frag| > 0 ==> frag[0] == '#'
    requires forall i :: 0 <= i < |ps| ==> PairOk(ps[i], ampEndsKey)
    requires |key| > 0 && NoQueryMarks(key)
    ensures ScanFinds(uri, ScanPairs(uri, left, key + "=", ampEndsKey), FirstMatch(ps, key))
    decreases |ps|, 1
  {
    if |ps| == 0 {
      assert uri[left..] == frag;
      if left < |uri| {
        ScanAtHash(uri, left, key, ampEndsKey);
      }
    } else {
      ScanQueryCons(uri, left, ps, frag, key, ampEndsKey);
    }
  }

  /** The scan over a non-empty list of pairs: the first pair, then the
      rest. */
  lemma {:induction false} ScanQueryCons(uri: string, left: nat, ps: seq<Pair>, frag: string,
                                         key: string, ampEndsKey: bool)
    requires left <= |uri| && uri[left..] == QueryText(ps) + frag && |ps| > 0
    requires |frag| > 0 ==> frag[0] == '#'
    requires forall i :: 0 <= i < |ps| ==> PairOk(ps[i], ampEndsKey)
    requires |key| > 0 && NoQueryMarks(key)
    ensures ScanFinds(uri, ScanPairs(uri, left, key + "=", ampEndsKey), FirstMatch(ps, key))
    decreases |ps|, 0
  {
    var p, rest := ps[0], ps[1..];
    var after := if |ps| == 1 then frag else "&" + (QueryText(rest) + frag);
    assert QueryText(ps) + frag == PairText(p) + after;
    assert PairOk(p, ampEndsKey);
    PairLayout(uri, left, p, after);
    var end := left + |PairText(p)|;
    ScanRest(uri, end, rest, frag, key, ampEndsKey);
    ScanPairStep(uri, left, p, end, key, ampEndsKey, FirstMatch(rest, key));
  }

  /** The scan after a pair that does not match. */
  lemma {:induction false} ScanRest(uri: string, end: nat, rest: seq<Pair>, frag: string,
                                    key: string, ampEndsKey: bool)
    requires end <= |uri|
    requires |rest| == 0 ==> uri[end..] == frag
    requires |rest| > 0 ==> uri[end..] == "&" + (QueryText(rest) + frag)
    requires |frag| > 0 ==> frag[0] == '#'
    requires forall i :: 0 <= i < |rest| ==> PairOk(rest[i], ampEndsKey)
    requires |key| > 0 && NoQueryMarks(key)
    ensures var next := if end < |uri| && uri[end] == '&' then end + 1 else end;
      var r := if next < |uri| && uri[next] == '#' then None else ScanPairs(uri, next, key + "=", ampEndsKey);
      ScanFinds(uri, r, FirstMatch(rest, key))
    decreases |rest|, 2
  {
    if |rest| == 0 {
      if end < |uri| {
        ScanAtHash(uri, end, key, ampEndsKey);
      }
    } else {
      SuffixOf(uri, end, "&", QueryText(rest) + frag);
      ScanQuery(uri, end + 1, rest, frag, key, ampEndsKey);
      if end + 1 < |uri| && uri[end + 1] == '#' {
        ScanAtHash(uri, end + 1, key, ampEndsKey);
      }
    }
  }

  /** Where the query of `pre?query#fragment` starts. */
  lemma QueryAfterMark(uri: string, pre: string, q: string, frag: string)
    requires uri == pre + "?" + q + frag && '?' !in pre
    ensures FirstIndexOf(uri, '?') == Some(|pre|) && uri[|pre| + 1..] == q + frag
  {
    assert uri[..|pre|] == pre;
    FirstIndexAt(uri, '?', |pre|);
  }

  /** The value `purc_hvml_uri_get_query_value` finds for `key` in a URI
      whose query is a list of pairs is the value of the first pair with a
      value whose key matches, ignoring case, unless that value is
      empty. */
  lemma QueryValueOfPairs(uri: string, pre: string, ps: seq<Pair>, frag: string,
                          key: string, ampEndsKey: bool)
    requires uri == pre + "?" + QueryText(ps) + frag && '?' !in pre
    requires |frag| > 0 ==> frag[0] == '#'
    requires forall i :: 0 <= i < |ps| ==> PairOk(ps[i], ampEndsKey)
    requires |key| > 0 && NoQueryMarks(key)
    ensures QueryValue(uri, key, ampEndsKey)
         == match FirstMatch(ps, key)
            case None => None
            case Some(v) => if |v| == 0 then None else Some(v)
  {
    QueryAfterMark(uri, pre, QueryText(ps), frag);
    ScanQuery(uri, |pre| + 1, ps, frag, key, ampEndsKey);
    QueryValueOfScan(uri, key, ampEndsKey, |pre|, FirstMatch(ps, key));
  }

  /** The value copied out when the scan after the first `?` finds `m`. */
  lemma QueryValueOfScan(uri: string, key: string, ampEndsKey: bool, q: nat, m: Option<string>)
    requires |key| > 0 && FirstIndexOf(uri, '?') == Some(q)
    requires ScanFinds(uri, ScanPairs(uri, q + 1, key + "=", ampEndsKey), m)
    ensures QueryValue(uri, key, ampEndsKey)
         == match m
            case None => None
            case Some(v) => if |v| == 0 then None else Some(v)
  {
    var r := ScanPairs(uri, q + 1, key + "=", ampEndsKey);
    ValueStartIsScan(uri, key, ampEndsKey, q);
    if r.None? {
      NoValueFound(uri, key, ampEndsKey, q);
    } else {
      QueryValueAt(uri, key, ampEndsKey, r.value, m.value);
    }
  }

  /** The start of the value is where the scan of the query stops. */
  lemma ValueStartIsScan(uri: string, key: string, ampEndsKey: bool, q: nat)
    requires |key| > 0 && FirstIndexOf(uri, '?') == Some(q)
    ensures ValueStart(uri, key, ampEndsKey) == ScanPairs(uri, q + 1, key + "=", ampEndsKey)
  {
  }

  /** The value `v` found at `at`, up to the next `&` or `#`, is the
      query value, and none when it is empty. */
  lemma QueryValueAt(uri: string, key: string, ampEndsKey: bool, at: nat, v: string)
    requires ValueStart(uri, key, ampEndsKey) == Some(at)
    requires at + |v| <= |uri| && uri[at..at + |v|] == v && ValueLen(uri, at) == |v|
    ensures |v| == 0 ==> QueryValue(uri, key, ampEndsKey) == None
    ensures |v| > 0 ==> QueryValue(uri, key, ampEndsKey) == Some(v)
  {
  }

  /** The as-written scan over `f&k=v` at `left`, up to the end of the
      URI, finds nothing. */
  lemma FlagScan(uri: string, left: nat)
    requires left + 5 == |uri|
    requires uri[left] == 'f' && uri[left + 1] == '&' && uri[left + 2] == 'k'
    requires uri[left + 3] == '=' && uri[left + 4] == 'v'
    ensures ScanPairs(uri, left, "k" + "=", false) == None
  {
    assert !CasePrefix(uri[left..], "k" + "=") by {
      assert !CaseEq(uri[left..][0], ("k" + "=")[0]);
    }
    assert uri[left..left + 3] == ['f', '&', 'k'];
    RunOverSlice(uri, left, 3, KeyStops(false));
    assert uri[left + 3..left + 5] == ['=', 'v'];
    RunOverSlice(uri, left + 3, 2, {'&', '#'});
    assert SkipPair(uri, left, false) == |uri|;
  }

  /** As written, a bare flag hides the pair after it: the key scan runs
      over the `&` to the `=` of the next pair, so in a URI whose query is
      `f&k=v` the key `k` is not found although its pair is there. */
  lemma FlagHidesNextKey(uri: string, pre: string)
    requires uri == pre + "?f&k=v" && '?' !in pre
    ensures var ps := [Pair("f", None), Pair("k", Some("v"))];
      && QueryText(ps) == "f&k=v" && FirstMatch(ps, "k") == Some("v")
      && QueryValue(uri, "k", false) == None
  {
    FlagPairs();
    FlagQueryText(pre);
    QueryAfterMark(uri, pre, "f&k=v", "");
    FlagLayout(uri, |pre| + 1);
    FlagScan(uri, |pre| + 1);
    NoValueFound(uri, "k", false, |pre|);
  }

  /** The URI of the finding, written as a prefix, the mark, the query
      and an empty fragment. */
  lemma FlagQueryText(pre: string)
    ensures pre + "?f&k=v" == pre + "?" + "f&k=v" + ""
  {
  }

  /** Where the characters of `f&k=v` lie. */
  lemma FlagLayout(uri: string, left: nat)
    requires left <= |uri| && uri[left..] == "f&k=v" + ""
    ensures left + 5 == |uri|
    ensures uri[left] == 'f' && uri[left + 1] == '&' && uri[left + 2] == 'k'
    ensures uri[left + 3] == '=' && uri[left + 4] == 'v'
  {
    assert uri[left..][0] == 'f' && uri[left..][1] == '&' && uri[left..][2] == 'k';
    assert uri[left..][3] == '=' && uri[left..][4] == 'v';
  }

  /** Nothing is copied out when the scan after the first `?` finds
      nothing. */
  lemma NoValueFound(uri: string, key: string, ampEndsKey: bool, q: nat)
    requires |key| > 0 && FirstIndexOf(uri, '?') == Some(q)
    requires ScanPairs(uri, q + 1, key + "=", ampEndsKey) == None
    ensures QueryValue(uri, key, ampEndsKey) == None
  {
    assert ValueStart(uri, key, ampEndsKey) == None;
  }

  /** The pairs of the query `f&k=v`. */
  lemma FlagPairs()
    ensures var ps := [Pair("f", None), Pair("k", Some("v"))];
      && QueryText(ps) == "f&k=v" && FirstMatch(ps, "k") == Some("v")
      && forall i :: 0 <= i < |ps| ==> PairOk(ps[i], true)
  {
    var ps := [Pair("f", None), Pair("k", Some("v"))];
    assert ps[1..] == [Pair("k", Some("v"))];
    assert QueryText(ps) == "f" + "&" + ("k" + "=" + "v");
    assert !KeyMatches("f", "k") by {
      assert !CaseEq("f"[0], "k"[0]);
    }
    assert KeyMatches("k", "k") by {
      assert CaseEq("k"[0], "k"[0]);
    }
  }

  /** With the corrected key scan the same query finds `v`. */
  lemma FlagEndsAtAmp(uri: string, pre: string)
    requires uri == pre + "?f&k=v" && '?' !in pre
    ensures QueryValue(uri, "k", true) == Some("v")
  {
    var ps := [Pair("f", None), Pair("k", Some("v"))];
    FlagPairs();
    assert uri == pre + "?" + QueryText(ps) + "";
    QueryValueOfPairs(uri, pre, ps, "", "k", true);
  }

  /** `locate_query_value`: find the first `?`, then walk the pairs. */
  method LocateQueryValue(uri: string, key: string) returns (r: Option<nat>)
    ensures r == ValueStart(uri, key, false)
  {
    if |key| == 0 {
      return None;
    }
    var mark := FindFirst(uri, 0, '?');
    if mark.None? {
      assert uri[0..] == uri;
      return None;
    }
    var q := mark.value;
    assert uri[0..q] == uri[..q];
    FirstIndexAt(uri, '?', q);
    r := ScanQueryPairs(uri, q + 1, key + "=");
  }

  /** The loop of `locate_query_value` over the pairs from `start`. */
  method ScanQueryPairs(uri: string, start: nat, myKey: string) returns (r: Option<nat>)
    requires start <= |uri|
    ensures r == ScanPairs(uri, start, myKey, false)
  {
    var left := start;
    while left < |uri|
      invariant start <= left <= |uri|
      invariant ScanPairs(uri, left, myKey, false) == ScanPairs(uri, start, myKey, false)
      decreases |uri| - left
    {
      if CasePrefix(uri[left..], myKey) {
        return Some(left + |myKey|);
      }
      left := NextPair(uri, left);
      if left < |uri| && uri[left] == '#' {
        return None;
      }
    }
    return None;
  }

  /** One skip of `locate_query_value` over a pair that does not match. */
  method NextPair(uri: string, left: nat) returns (next: nat)
    requires left < |uri|
    ensures next == SkipPair(uri, left, false)
  {
    var keyLen := ScanRun(uri, left, {'=', '#'});
    var value := left + keyLen;
    var valueLen := ScanRun(uri, value, {'&', '#'});
    next := value + valueLen;
    if next < |uri| && uri[next] == '&' {
      next := next + 1;
    }
  }

  /** `purc_hvml_uri_get_query_value`: copy the value of `key` into `buf`
      as a C string; false, with `buf` untouched, when the key is not
      found or its value is empty.  The caller provides room for the
      value. */
  method GetQueryValue(uri: string, key: string, buf: array<char>) returns (ok: bool)
    requires QueryValue(uri, key, false).Some? ==> |QueryValue(uri, key, false).value| < buf.Length
    modifies buf
    ensures ok == QueryValue(uri, key, false).Some?
    ensures ok ==> var v := QueryValue(uri, key, false).value;
      Holds(buf, v) && forall i :: |v| < i < buf.Length ==> buf[i] == old(buf[i])
    ensures !ok ==> buf[..] == old(buf[..])
  {
    var v := LocateQueryValue(uri, key);
    if v.None? {
      return false;
    }
    var n := ScanRun(uri, v.value, {'&', '#'});
    if n == 0 {
      return false;
    }
    WriteString(buf, 0, uri[v.value..v.value + n]);
    return true;
  }

  /** `purc_hvml_uri_get_query_value_alloc`: the same, returning a fresh
      copy of the value. */
  method GetQueryValueAlloc(uri: string, key: string) returns (r: Option<string>)
    ensures r == QueryValue(uri, key, false)
  {
    var v := LocateQueryValue(uri, key);
    if v.None? {
      return None;
    }
    var n := ScanRun(uri, v.value, {'&', '#'});
    if n == 0 {
      return None;
    }
    return Some(uri[v.value..v.value + n]);
  }
}
