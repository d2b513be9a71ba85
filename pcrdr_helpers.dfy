/** The helpers of the PurC renderer protocol (Source/PurC/pcrdr/helpers.c):
    the return-code message table and its binary search, the mapping from
    protocol error codes to return codes, and the protocol's own token,
    application-name and endpoint-name checks.

    The endpoint extractors and assemblers, and the unique-id and md5-id
    checks, of this file are the same code as those of the utility
    library; they are modelled once, in `PurcHelpers`, with a `Limits`
    value that holds the `PCRDR_LEN_*` constants. */
module PcrdrHelpers {
  import opened Wrappers
  import opened CText
  import opened PurcHelpers

  // ---------------------------------------------------------------------
  // Return codes and their messages

  const SC_IOERR := 1
  const SC_OK := 200
  const SC_CREATED := 201
  const SC_ACCEPTED := 202
  const SC_NO_CONTENT := 204
  const SC_RESET_CONTENT := 205
  const SC_PARTIAL_CONTENT := 206
  const SC_BAD_REQUEST := 400
  const SC_UNAUTHORIZED := 401
  const SC_FORBIDDEN := 403
  const SC_NOT_FOUND := 404
  const SC_METHOD_NOT_ALLOWED := 405
  const SC_NOT_ACCEPTABLE := 406
  const SC_CONFLICT := 409
  const SC_GONE := 410
  const SC_PRECONDITION_FAILED := 412
  const SC_PACKET_TOO_LARGE := 413
  const SC_EXPECTATION_FAILED := 417
  const SC_IM_A_TEAPOT := 418
  const SC_UNPROCESSABLE_PACKET := 422
  const SC_LOCKED := 423
  const SC_FAILED_DEPENDENCY := 424
  const SC_UPGRADE_REQUIRED := 426
  const SC_RETRY_WITH := 449
  const SC_UNAVAILABLE_FOR_LEGAL_REASONS := 451
  const SC_INTERNAL_SERVER_ERROR := 500
  const SC_NOT_IMPLEMENTED := 501
  const SC_BAD_CALLEE := 502
  const SC_SERVICE_UNAVAILABLE := 503
  const SC_CALLEE_TIMEOUT := 504
  const SC_INSUFFICIENT_STORAGE := 507

  const UNKNOWN_RET_CODE := "Unknown Return Code"

  datatype RetEntry = RetEntry(code: int, msg: string)

  /** `ret_code_2_messages`, in four runs of eight entries so that facts
      about it can be checked run by run.  The entry the table comments as
      425 uses the constant of 424, so 424 appears twice, with the same
      message. */
  const RetTable: seq<RetEntry> := RetTable0 + RetTable1 + RetTable2 + RetTable3

  const RetTable0: seq<RetEntry> := [
    RetEntry(SC_IOERR, "I/O Error"),
    RetEntry(SC_OK, "Ok"),
    RetEntry(SC_CREATED, "Created"),
    RetEntry(SC_ACCEPTED, "Accepted"),
    RetEntry(SC_NO_CONTENT, "No Content"),
    RetEntry(SC_RESET_CONTENT, "Reset Content"),
    RetEntry(SC_PARTIAL_CONTENT, "Partial Content"),
    RetEntry(SC_BAD_REQUEST, "Bad Request")
  ]

  const RetTable1: seq<RetEntry> := [
    RetEntry(SC_UNAUTHORIZED, "Unauthorized"),
    RetEntry(SC_FORBIDDEN, "Forbidden"),
    RetEntry(SC_NOT_FOUND, "Not Found"),
    RetEntry(SC_METHOD_NOT_ALLOWED, "Method Not Allowed"),
    RetEntry(SC_NOT_ACCEPTABLE, "Not Acceptable"),
    RetEntry(SC_CONFLICT, "Conflict"),
    RetEntry(SC_GONE, "Gone"),
    RetEntry(SC_PRECONDITION_FAILED, "Precondition Failed")
  ]

  const RetTable2: seq<RetEntry> := [
    RetEntry(SC_PACKET_TOO_LARGE, "Packet Too Large"),
    RetEntry(SC_EXPECTATION_FAILED, "Expectation Failed"),
    RetEntry(SC_IM_A_TEAPOT, "I'm a teapot"),
    RetEntry(SC_UNPROCESSABLE_PACKET, "Unprocessable Packet"),
    RetEntry(SC_LOCKED, "Locked"),
    RetEntry(SC_FAILED_DEPENDENCY, "Failed Dependency"),
    RetEntry(SC_FAILED_DEPENDENCY, "Failed Dependency"),
    RetEntry(SC_UPGRADE_REQUIRED, "Upgrade Required")
  ]

  const RetTable3: seq<RetEntry> := [
    RetEntry(SC_RETRY_WITH, "Retry With"),
    RetEntry(SC_UNAVAILABLE_FOR_LEGAL_REASONS, "Unavailable For Legal Reasons"),
    RetEntry(SC_INTERNAL_SERVER_ERROR, "Internal Server Error"),
    RetEntry(SC_NOT_IMPLEMENTED, "Not Implemented"),
    RetEntry(SC_BAD_CALLEE, "Bad Callee"),
    RetEntry(SC_SERVICE_UNAVAILABLE, "Service Unavailable"),
    RetEntry(SC_CALLEE_TIMEOUT, "Callee Timeout"),
    RetEntry(SC_INSUFFICIENT_STORAGE, "Insufficient Storage")
  ]

  /** Codes never decrease along the table. */
  predicate SortedCodes(t: seq<RetEntry>)
  {
    forall i, j :: 0 <= i < j < |t| ==> t[i].code <= t[j].code
  }

  /** Entries with the same code carry the same message. */
  predicate CodesDetermineMessages(t: seq<RetEntry>)
  {
    forall i, j :: 0 <= i < |t| && 0 <= j < |t| && t[i].code == t[j].code ==> t[i].msg == t[j].msg
  }

  /** The message of the first entry with the given code: the reference
      the binary search is measured against. */
  function Lookup(t: seq<RetEntry>, code: int): (r: Option<string>)
    ensures r.Some? <==> exists i :: 0 <= i < |t| && t[i].code == code
    ensures r.Some? ==> exists i :: 0 <= i < |t| && t[i].code == code && t[i].msg == r.value
  {
    if |t| == 0 then None
    else if t[0].code == code then
      assert t[0].code == code;
      Some(t[0].msg)
    else
      var r := Lookup(t[1..], code);
      assert forall i :: 1 <= i < |t| ==> t[i] == t[1..][i - 1];
      r
  }

  /** What `pcrdr_get_ret_message` promises: the message of the code, or
      "Unknown Return Code" when the table lacks it. */
  function MessageOf(code: int): string
  {
    TableMessage(RetTable, code)
  }

  /** In a table where equal codes carry equal messages, any entry with the
      code gives the message the reference finds. */
  lemma LookupAt(t: seq<RetEntry>, code: int, k: nat)
    requires CodesDetermineMessages(t)
    requires k < |t| && t[k].code == code
    ensures Lookup(t, code) == Some(t[k].msg)
  {
  }

  /** Adjacent entries are ordered, and equal adjacent codes carry equal
      messages. */
  predicate AdjacentOk(t: seq<RetEntry>)
  {
    forall i :: 0 <= i < |t| - 1 ==>
      t[i].code <= t[i + 1].code && (t[i].code == t[i + 1].code ==> t[i].msg == t[i + 1].msg)
  }

  /** Ordered neighbours make an ordered table whose equal codes carry equal
      messages. */
  lemma {:induction false} AdjacentOkSuffices(t: seq<RetEntry>)
    requires AdjacentOk(t)
    ensures SortedCodes(t) && CodesDetermineMessages(t)
    decreases |t|
  {
    if |t| > 1 {
      var u := t[1..];
      assert AdjacentOk(u) by {
        forall i | 0 <= i < |u| - 1
          ensures u[i].code <= u[i + 1].code && (u[i].code == u[i + 1].code ==> u[i].msg == u[i + 1].msg)
        {
          assert u[i] == t[i + 1] && u[i + 1] == t[i + 2];
        }
      }
      AdjacentOkSuffices(u);
      forall j | 1 <= j < |t| ensures t[0].code <= t[j].code && (t[0].code == t[j].code ==> t[0].msg == t[j].msg) {
        assert t[j] == u[j - 1] && t[1] == u[0];
        assert t[1].code <= t[j].code;
        if t[0].code == t[j].code {
          assert t[0].code == t[1].code;
          assert t[1].msg == t[j].msg;
        }
      }
      forall i, j | 1 <= i < |t| && 1 <= j < |t|
        ensures (i < j ==> t[i].code <= t[j].code) && (t[i].code == t[j].code ==> t[i].msg == t[j].msg)
      {
        assert t[i] == u[i - 1] && t[j] == u[j - 1];
      }
    }
  }

  /** Two tables whose own neighbours are in order, and whose meeting
      point is in order, join into one whose neighbours are in order. */
  lemma AdjacentOkJoin(t: seq<RetEntry>, u: seq<RetEntry>)
    requires AdjacentOk(t) && AdjacentOk(u)
    requires |t| > 0 && |u| > 0
    requires t[|t| - 1].code <= u[0].code
    requires t[|t| - 1].code == u[0].code ==> t[|t| - 1].msg == u[0].msg
    ensures AdjacentOk(t + u)
  {
    var w := t + u;
    forall i | 0 <= i < |w| - 1
      ensures w[i].code <= w[i + 1].code && (w[i].code == w[i + 1].code ==> w[i].msg == w[i + 1].msg)
    {
      if i < |t| - 1 {
        assert w[i] == t[i] && w[i + 1] == t[i + 1];
      } else if i == |t| - 1 {
        assert w[i] == t[i] && w[i + 1] == u[0];
      } else {
        assert w[i] == u[i - |t|] && w[i + 1] == u[i + 1 - |t|];
      }
    }
  }

  /** Each run of the table is in order on its own. */
  lemma RunsAdjacentOk()
    ensures AdjacentOk(RetTable0) && AdjacentOk(RetTable1)
    ensures AdjacentOk(RetTable2) && AdjacentOk(RetTable3)
  {
    RunAdjacentOk0();
    RunAdjacentOk1();
    RunAdjacentOk2();
    RunAdjacentOk3();
  }

  lemma RunAdjacentOk0() ensures AdjacentOk(RetTable0) { }
  lemma RunAdjacentOk1() ensures AdjacentOk(RetTable1) { }
  lemma RunAdjacentOk2() ensures AdjacentOk(RetTable2) { }
  lemma RunAdjacentOk3() ensures AdjacentOk(RetTable3) { }

  /** The table is sorted, as the binary search relies on, and its one
      repeated code carries the same message twice. */
  lemma RetTableSorted()
    ensures SortedCodes(RetTable) && CodesDetermineMessages(RetTable)
  {
    RunsAdjacentOk();
    AdjacentOkJoin(RetTable0, RetTable1);
    AdjacentOkJoin(RetTable0 + RetTable1, RetTable2);
    AdjacentOkJoin(RetTable0 + RetTable1 + RetTable2, RetTable3);
    AdjacentOkSuffices(RetTable);
  }

  /** No entry of the table carries the message for unknown codes. */
  lemma RetMessagesKnown()
    ensures forall i :: 0 <= i < |RetTable| ==> RetTable[i].msg != UNKNOWN_RET_CODE
  {
  }

  lemma RetTableWellFormed()
    ensures SortedCodes(RetTable) && CodesDetermineMessages(RetTable)
    ensures forall i :: 0 <= i < |RetTable| ==> RetTable[i].msg != UNKNOWN_RET_CODE
  {
    RetTableSorted();
    RetMessagesKnown();
  }

  /** A message other than "Unknown Return Code" comes back exactly for the
      codes of the table. */
  lemma MessageKnownIff(code: int)
    ensures MessageOf(code) != UNKNOWN_RET_CODE <==> exists i :: 0 <= i < |RetTable| && RetTable[i].code == code
  {
    RetTableWellFormed();
  }

  /** `unsigned int` arithmetic. */
  function Wrap32(x: int): (r: nat)
    ensures r < 0x1_0000_0000
    ensures 0 <= x < 0x1_0000_0000 ==> r == x
  {
    x % 0x1_0000_0000
  }

  /** The message a table gives a code: the reference the binary search
      is measured against. */
  function TableMessage(t: seq<RetEntry>, code: int): string
  {
    match Lookup(t, code)
    case None => UNKNOWN_RET_CODE
    case Some(m) => m
  }

  /** The binary search of `pcrdr_get_ret_message` over a table `t`, with
      `lower` and `upper` of type `unsigned int`.  `upper = mid - 1` would
      wrap around at `mid == 0`; the range check before the loop rules
      that out, so every index stays inside the table. */
  method SearchTable(t: seq<RetEntry>, code: int) returns (r: string)
    requires 0 < |t| < 0x8000_0000
    requires SortedCodes(t) && CodesDetermineMessages(t)
    ensures r == TableMessage(t, code)
  {
    var lower: nat := 0;
    var upper: nat := |t| - 1;
    var mid: nat := |t| / 2;
    if code < t[lower].code || code > t[upper].code {
      LookupOutside(t, code);
      return UNKNOWN_RET_CODE;
    }
    while true
      invariant lower <= mid <= upper < |t|
      invariant t[0].code <= code
      invariant forall i :: 0 <= i < lower ==> t[i].code < code
      invariant forall i :: upper < i < |t| ==> t[i].code > code
      decreases upper - lower
    {
      if code < t[mid].code {
        assert mid > 0;
        upper := Wrap32(mid - 1);
      } else if code > t[mid].code {
        lower := mid + 1;
      } else {
        LookupAt(t, code, mid);
        return t[mid].msg;
      }
      assert lower + upper < 0x1_0000_0000;
      mid := Wrap32(lower + upper) / 2;
      if !(lower <= upper) {
        break;
      }
    }
    LookupAbsent(t, code, lower, upper);
    return UNKNOWN_RET_CODE;
  }

  /** A code below the first or above the last code of a sorted table is
      not in it. */
  lemma LookupOutside(t: seq<RetEntry>, code: int)
    requires 0 < |t| && SortedCodes(t)
    requires code < t[0].code || code > t[|t| - 1].code
    ensures Lookup(t, code) == None
  {
    forall i | 0 <= i < |t| ensures t[i].code != code {
      assert t[0].code <= t[i].code <= t[|t| - 1].code;
    }
  }

  /** When the entries below `lower` are smaller and those above `upper`
      larger, and the two have crossed, the code is not in the table. */
  lemma LookupAbsent(t: seq<RetEntry>, code: int, lower: nat, upper: nat)
    requires upper < lower
    requires forall i :: 0 <= i < lower && i < |t| ==> t[i].code < code
    requires forall i :: upper < i < |t| ==> t[i].code > code
    ensures Lookup(t, code) == None
  {
  }

  /** `pcrdr_get_ret_message`: the search over `ret_code_2_messages`. */
  method GetRetMessage(code: int) returns (r: string)
    ensures r == MessageOf(code)
  {
    RetTableWellFormed();
    r := SearchTable(RetTable, code);
  }

  // ---------------------------------------------------------------------
  // Error codes

  /** The error codes `pcrdr_errcode_to_retcode` names, 0 for no error, and
      every other code. */
  datatype ErrCode =
    | NoError | Io | PeerClosed | NoMem | TooLarge | Protocol | NotImplemented
    | InvalidValue | Duplicated | TooSmallBuff | BadSystemCall | AuthFailed
    | ServerError | Timeout | UnknownEvent | UnknownRequest
    | Other(code: int)

  /** `pcrdr_errcode_to_retcode`: total; "no error" alone gives `OK`, and
      every result is a code of the message table. */
  function ErrcodeToRetcode(e: ErrCode): (r: int)
    ensures r == SC_OK <==> e == NoError
    ensures e.Other? ==> r == SC_INTERNAL_SERVER_ERROR
    ensures exists i :: 0 <= i < |RetTable| && RetTable[i].code == r
  {
    match e
    case NoError =>
      assert RetTable[1].code == SC_OK;
      SC_OK
    case Io =>
      assert RetTable[0].code == SC_IOERR;
      SC_IOERR
    case PeerClosed =>
      assert RetTable[29].code == SC_SERVICE_UNAVAILABLE;
      SC_SERVICE_UNAVAILABLE
    case NoMem =>
      assert RetTable[31].code == SC_INSUFFICIENT_STORAGE;
      SC_INSUFFICIENT_STORAGE
    case TooLarge =>
      assert RetTable[16].code == SC_PACKET_TOO_LARGE;
      SC_PACKET_TOO_LARGE
    case Protocol =>
      assert RetTable[19].code == SC_UNPROCESSABLE_PACKET;
      SC_UNPROCESSABLE_PACKET
    case NotImplemented =>
      assert RetTable[27].code == SC_NOT_IMPLEMENTED;
      SC_NOT_IMPLEMENTED
    case InvalidValue =>
      assert RetTable[7].code == SC_BAD_REQUEST;
      SC_BAD_REQUEST
    case Duplicated =>
      assert RetTable[13].code == SC_CONFLICT;
      SC_CONFLICT
    case TooSmallBuff =>
      assert RetTable[31].code == SC_INSUFFICIENT_STORAGE;
      SC_INSUFFICIENT_STORAGE
    case BadSystemCall =>
      assert RetTable[26].code == SC_INTERNAL_SERVER_ERROR;
      SC_INTERNAL_SERVER_ERROR
    case AuthFailed =>
      assert RetTable[8].code == SC_UNAUTHORIZED;
      SC_UNAUTHORIZED
    case ServerError =>
      assert RetTable[26].code == SC_INTERNAL_SERVER_ERROR;
      SC_INTERNAL_SERVER_ERROR
    case Timeout =>
      assert RetTable[30].code == SC_CALLEE_TIMEOUT;
      SC_CALLEE_TIMEOUT
    case UnknownEvent =>
      assert RetTable[10].code == SC_NOT_FOUND;
      SC_NOT_FOUND
    case UnknownRequest =>
      assert RetTable[10].code == SC_NOT_FOUND;
      SC_NOT_FOUND
    case Other(_) =>
      assert RetTable[26].code == SC_INTERNAL_SERVER_ERROR;
      SC_INTERNAL_SERVER_ERROR
  }

  /** Every return code an error maps to has a message of its own. */
  lemma ErrorsHaveMessages(e: ErrCode)
    ensures MessageOf(ErrcodeToRetcode(e)) != UNKNOWN_RET_CODE
  {
    MessageKnownIff(ErrcodeToRetcode(e));
  }

  /** The errors that share a return code: running out of memory and a
      buffer that is too small; an unknown event and an unknown request;
      a bad system call, a server error and any unnamed code. */
  lemma SharedRetcodes(e: ErrCode, f: ErrCode)
    requires e != f && !(e.Other? && f.Other?)
    ensures ErrcodeToRetcode(e) == ErrcodeToRetcode(f) <==>
      || {e, f} == {NoMem, TooSmallBuff}
      || {e, f} == {UnknownEvent, UnknownRequest}
      || (ErrcodeToRetcode(e) == SC_INTERNAL_SERVER_ERROR
          && (e == BadSystemCall || e == ServerError || e.Other?)
          && (f == BadSystemCall || f == ServerError || f.Other?))
  {
  }

  // ---------------------------------------------------------------------
  // Tokens

  /** What `pcrdr_is_valid_token` accepts: unlike the utility library's
      check, the first character must be a letter. */
  predicate PcrdrToken(s: string, maxLen: int)
  {
    |s| > 0 && IsAlpha(s[0]) && (forall i :: 1 <= i < |s| ==> TokenChar(s[i]))
    && WithinBound(s, maxLen)
  }

  /** The protocol's tokens are the utility library's tokens that do not
      start with `_`. */
  lemma PcrdrTokenIff(s: string, maxLen: int)
    ensures PcrdrToken(s, maxLen) <==> ValidToken(s, maxLen) && s[0] != '_'
  {
  }

  /** `pcrdr_is_valid_token`. */
  method IsValidToken(token: string, maxLen: int) returns (r: bool)
    requires IsCString(token)
    ensures r == PcrdrToken(token, maxLen)
  {
    if |token| == 0 || !IsAlpha(token[0]) {
      return false;
    }
    var i := 1;
    while i < |token|
      invariant 1 <= i <= |token|
      invariant forall j :: 1 <= j < i ==> TokenChar(token[j])
      invariant maxLen <= 0 || i <= maxLen + 1
    {
      if maxLen > 0 && i > maxLen {
        return false;
      }
      if !TokenChar(token[i]) {
        return false;
      }
      i := i + 1;
    }
    return true;
  }

  // ---------------------------------------------------------------------
  // Application names

  /** The walk of `pcrdr_is_valid_app_name` over the name `s` from `start`
      with the length budget `budget` (`max_len`): whether it accepts, and
      where it leaves a NUL in place of a dot when it rejects.  Each
      segment is checked as a token within the budget; the budget then
      drops by the token check's result (1) and by 1 for the dot, not by
      the length of the segment. */
  function AppWalk(s: string, start: nat, budget: int): (r: (bool, Option<nat>))
    requires start <= |s|
    ensures r.1.Some? ==> !r.0 && start <= r.1.value < |s| && s[r.1.value] == '.'
    decreases |s| - start
  {
    if start == |s| then (true, None)
    else
      var e := start + RunLength(s, start, {'.'});
      var dot := if e < |s| then Some(e) else None;
      if e == start then (false, dot)
      else if !PcrdrToken(s[start..e], budget) then (false, dot)
      else if e < |s| then AppWalk(s, e + 1, budget - 2)
      else (true, None)
  }

  /** The segment check alone: the walk with no length budget. */
  predicate SegmentsOk(s: string) { AppWalk(s, 0, 0).0 }

  /** A budget that is used up, or one that every remaining segment fits,
      changes nothing: the walk then accepts exactly when the segments are
      tokens. */
  lemma {:induction false} AppWalkWithinBudget(s: string, start: nat, budget: int)
    requires start <= |s|
    requires budget <= 0 || |s| - start <= budget + 1
    ensures AppWalk(s, start, budget).0 == AppWalk(s, start, 0).0
    decreases |s| - start
  {
    if start < |s| {
      var e := start + RunLength(s, start, {'.'});
      if e > start && e < |s| {
        AppWalkWithinBudget(s, e + 1, budget - 2);
        AppWalkWithinBudget(s, e + 1, -2);
      }
      WithinBudgetStep(s, start, budget, e);
    }
  }

  /** The round of `AppWalkWithinBudget` at `start`, given the claim for
      the rest of the name. */
  lemma WithinBudgetStep(s: string, start: nat, budget: int, e: nat)
    requires start < |s| && e == start + RunLength(s, start, {'.'})
    requires budget <= 0 || |s| - start <= budget + 1
    requires e > start && e < |s| ==> AppWalk(s, e + 1, budget - 2).0 == AppWalk(s, e + 1, 0).0
    requires e > start && e < |s| ==> AppWalk(s, e + 1, -2).0 == AppWalk(s, e + 1, 0).0
    ensures AppWalk(s, start, budget).0 == AppWalk(s, start, 0).0
  {
    AppWalkAt(s, start, budget, e);
    AppWalkAt(s, start, 0, e);
    if e > start {
      TokenWithinBudget(s[start..e], budget);
    }
  }

  /** One round of the walk, for the segment that ends at `e`. */
  lemma AppWalkAt(s: string, start: nat, budget: int, e: nat)
    requires start < |s| && e == start + RunLength(s, start, {'.'})
    ensures e <= |s|
    ensures e == start ==> AppWalk(s, start, budget) == (false, Some(e))
    ensures e > start && !PcrdrToken(s[start..e], budget) ==>
      AppWalk(s, start, budget) == (false, if e < |s| then Some(e) else None)
    ensures e > start && PcrdrToken(s[start..e], budget) && e < |s| ==>
      AppWalk(s, start, budget) == AppWalk(s, e + 1, budget - 2)
    ensures e > start && PcrdrToken(s[start..e], budget) && e == |s| ==>
      AppWalk(s, start, budget) == (true, None)
  {
  }

  /** A segment no longer than the budget allows passes the bounded token
      check exactly when it passes the unbounded one. */
  lemma TokenWithinBudget(t: string, budget: int)
    requires budget <= 0 || |t| <= budget + 1
    ensures PcrdrToken(t, budget) == PcrdrToken(t, 0)
  {
  }

  /** What the length budget evidently intends, as the utility library's
      `purc_is_valid_app_name` implements it: a name of at most
      `PCRDR_LEN_APP_NAME` characters whose segments are tokens. */
  predicate ValidAppName(s: string, lim: Limits)
  {
    |s| <= lim.appName && SegmentsOk(s)
  }

  /** Within the limit the walk as written agrees with the intended check. */
  lemma AppWalkWithinLimit(s: string, lim: Limits)
    requires |s| <= lim.appName
    ensures AppWalk(s, 0, lim.appName).0 == ValidAppName(s, lim)
  {
    AppWalkWithinBudget(s, 0, lim.appName);
  }

  /** As written, the budget does not bound the name: with a limit of 3 the
      five-character name "ab.cd" is accepted. */
  lemma LongAppNameAccepted()
    ensures AppWalk("ab.cd", 0, 3).0 && |"ab.cd"| > 3
    ensures !ValidAppName("ab.cd", Limits(0, 3, 0, 0, 0))
  {
    var s := "ab.cd";
    RunLengthIs(s, 0, {'.'}, 2);
    RunLengthIs(s, 3, {'.'}, 2);
    assert s[0..2] == "ab" && s[3..5] == "cd";
  }

  /** The contents of the buffer `a` after the walk: untouched, or with a
      NUL where the walk rejected at a dot. */
  function AfterWalk(a: seq<char>, nul: Option<nat>): seq<char>
  {
    match nul
    case None => a
    case Some(e) => if e < |a| then a[e := '\0'] else a
  }

  /** Like `ScanRun`, over the C string a buffer holds. */
  method BufferRun(a: array<char>, ghost s: string, from: nat, stops: set<char>) returns (n: nat)
    requires Holds(a, s) && IsCString(s) && from <= |s| && '\0' !in stops
    ensures n == RunLength(s, from, stops)
  {
    var i := from;
    while a[i] != '\0' && a[i] !in stops
      invariant from <= i <= |s|
      invariant RunLength(s, from, stops) == (i - from) + RunLength(s, i, stops)
      decreases |s| - i
    {
      assert a[i] == a[..|s|][i] == s[i];
      i := i + 1;
    }
    if i < |s| {
      assert a[i] == a[..|s|][i] == s[i];
    }
    return i - from;
  }

  /** One round of the loop of `pcrdr_is_valid_app_name` at `start`: the
      dot ending the segment, if any, is overwritten by a NUL while the
      segment is checked as a token, and put back when the check passes.
      `end` is where the segment ends and `dotted` says whether a dot
      ends it. */
  method WalkStep(a: array<char>, ghost s: string, start: nat, maxLen: int) returns (ok: bool, end: nat, dotted: bool)
    requires Holds(a, s) && IsCString(s) && start < |s|
    modifies a
    ensures end == start + RunLength(s, start, {'.'}) && end <= |s|
    ensures dotted <==> end < |s|
    ensures ok <==> end > start && PcrdrToken(s[start..end], maxLen)
    ensures !ok ==> a[..] == AfterWalk(old(a[..]), if dotted then Some(end) else None)
    ensures ok ==> a[..] == old(a[..])
  {
    var len := BufferRun(a, s, start, {'.'});
    end := start + len;
    if end < |s| {
      assert a[end] == a[..|s|][end] == s[end] == '.';
    }
    var saved: char;
    if a[end] == '\0' {
      saved := '\0';
    } else {
      saved := '.';
      a[end] := '\0';
    }
    dotted := saved != '\0';
    if end == start {
      return false, end, dotted;
    }
    var token := a[start..end];
    assert token == s[start..end] by {
      assert a[start..end] == a[..|s|][start..end];
      assert old(a[..])[..|s|] == s;
    }
    SliceIsCString(s, start, end);
    ok := IsValidToken(token, maxLen);
    if ok && dotted {
      a[end] := saved;
      assert a[..] == old(a[..]);
    }
  }

  /** `pcrdr_is_valid_app_name`: walks the name in place, writing a NUL
      over each dot while its segment is checked and putting the dot back
      afterwards, except on the paths that return false.  Each segment
      costs the budget the token check's result (1) and its dot (1). */
  method IsValidAppName(a: array<char>, ghost s: string, lim: Limits) returns (r: bool)
    requires Holds(a, s) && IsCString(s)
    modifies a
    ensures r == AppWalk(s, 0, lim.appName).0
    ensures a[..] == AfterWalk(old(a[..]), AppWalk(s, 0, lim.appName).1)
  {
    var start := 0;
    var maxLen: int := lim.appName;
    while a[start] != '\0'
      invariant start <= |s| && Holds(a, s) && a[..] == old(a[..])
      invariant AppWalk(s, 0, lim.appName) == AppWalk(s, start, maxLen)
      decreases |s| - start
    {
      var ok, end, dotted := WalkStep(a, s, start, maxLen);
      AppWalkAt(s, start, maxLen, end);
      if !ok {
        return false;
      }
      if !dotted {
        break;
      }
      start := end + 1;
      maxLen := maxLen - 2;
    }
    r := true;
  }

  /** The corrected check: the length test of the utility library before
      the walk. */
  method IsValidAppNameChecked(a: array<char>, ghost s: string, lim: Limits) returns (r: bool)
    requires Holds(a, s) && IsCString(s)
    modifies a
    ensures r == ValidAppName(s, lim)
  {
    var n := BufferRun(a, s, 0, {});
    RunLengthIs(s, 0, {}, |s|);
    if n > lim.appName {
      return false;
    }
    r := IsValidAppName(a, s, lim);
    AppWalkWithinLimit(s, lim);
  }

  // ---------------------------------------------------------------------
  // Endpoint names

  /** What `pcrdr_is_valid_endpoint_name` accepts.  The runner check
      `pcrdr_is_valid_runner_name` is not part of this model; it is taken
      to be the protocol's token check with `PCRDR_LEN_RUNNER_NAME`. */
  predicate ValidEndpointName(ep: string, lim: Limits)
  {
    && HostNameOf(ep, lim).Some? && AppNameOf(ep, lim).Some? && RunnerNameOf(ep, lim).Some?
    && |RunnerNameOf(ep, lim).value| > 0
    && ValidHostName(HostNameOf(ep, lim).value)
    && ValidAppName(AppNameOf(ep, lim).value, lim)
    && PcrdrToken(RunnerNameOf(ep, lim).value, lim.runnerName)
  }

  /** `pcrdr_is_valid_endpoint_name`.  As with the utility library, the
      host buffer has room for `PCRDR_LEN_HOST_NAME` characters while the
      extractor admits up to `PCRDR_LEN_APP_NAME`; the application name is
      checked in its own buffer, which the check may leave altered. */
  method IsValidEndpointName(ep: string, lim: Limits) returns (r: bool)
    requires IsCString(ep)
    requires lim.appName <= lim.hostName
    ensures r == ValidEndpointName(ep, lim)
  {
    var hostBuf := new char[lim.hostName + 1];
    var appBuf := new char[lim.appName + 1];
    var runnerBuf := new char[lim.runnerName + 1];
    var n := ExtractHostName(ep, hostBuf, lim);
    if n <= 0 {
      return false;
    }
    n := ExtractAppName(ep, appBuf, lim);
    if n <= 0 {
      return false;
    }
    n := ExtractRunnerName(ep, runnerBuf, lim);
    if n <= 0 {
      return false;
    }
    var app := AppNameOf(ep, lim).value;
    var runner := RunnerNameOf(ep, lim).value;
    SliceIsCString(ep, 0, |ep|);
    assert ep[0..|ep|] == ep;
    AppNameIsCString(ep, lim);
    var okApp := IsValidAppName(appBuf, app, lim);
    AppWalkWithinLimit(app, lim);
    var okRunner := IsValidToken(runnerBuf[..|runner|], lim.runnerName);
    r := ValidHostName(hostBuf[..|HostNameOf(ep, lim).value|]) && okApp && okRunner;
  }

  /** The extracted application name has no NUL. */
  lemma AppNameIsCString(ep: string, lim: Limits)
    requires IsCString(ep) && AppNameOf(ep, lim).Some?
    ensures IsCString(AppNameOf(ep, lim).value)
  {
    var first := FirstIndexOf(ep, '/').value;
    var last := LastIndexOf(ep, '/').value;
    SliceIsCString(ep, first + 1, last);
  }
}
