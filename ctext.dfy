/** C strings, ASCII character classes and the search primitives
    (`strchr`, `strrchr`) that the helper routines are built from.

    A C string is modelled as the `string` of its characters before the
    terminating NUL, so every string handed to a routine satisfies
    `IsCString`.  Character classes are those of the C locale. */
module CText {
  import opened Wrappers

  /** A C string carries no NUL before its terminator. */
  predicate IsCString(s: string) { '\0' !in s }

  /** A piece of a C string is a C string. */
  lemma SliceIsCString(s: string, i: nat, j: nat)
    requires IsCString(s) && i <= j <= |s|
    ensures IsCString(s[i..j]) && IsCString(s[i..])
  {
  }

  predicate IsUpper(c: char) { 'A' <= c <= 'Z' }
  predicate IsLower(c: char) { 'a' <= c <= 'z' }
  predicate IsAlpha(c: char) { IsUpper(c) || IsLower(c) }
  predicate IsDigit(c: char) { '0' <= c <= '9' }
  predicate IsAlnum(c: char) { IsAlpha(c) || IsDigit(c) }

  /** `tolower` of the C locale. */
  function ToLower(c: char): (r: char)
    ensures IsUpper(c) ==> IsLower(r)
    ensures !IsUpper(c) ==> r == c
  {
    if IsUpper(c) then (c as int - 'A' as int + 'a' as int) as char else c
  }

  /** Two characters compare equal under `strncasecmp`. */
  predicate CaseEq(a: char, b: char) { ToLower(a) == ToLower(b) }

  /** `strncasecmp(s, p, |p|) == 0`: `s` starts with `p`, ignoring case.
      A shorter `s` never matches, since its terminator differs from the
      character of `p` at that place. */
  predicate CasePrefix(s: string, p: string)
  {
    |p| <= |s| && forall i {:trigger CaseEq(s[i], p[i])} :: 0 <= i < |p| ==> CaseEq(s[i], p[i])
  }

  /** A case-insensitive prefix extended by text that matches exactly. */
  lemma CasePrefixJoin(s: string, x: string, y: string)
    requires CasePrefix(s, x) && |x| + |y| <= |s| && s[|x|..|x| + |y|] == y
    ensures CasePrefix(s, x + y)
  {
    forall i | 0 <= i < |x| + |y| ensures CaseEq(s[i], (x + y)[i]) {
      if i < |x| {
        assert CaseEq(s[i], x[i]);
      } else {
        assert s[i] == s[|x|..|x| + |y|][i - |x|];
      }
    }
  }

  /** Text that matches exactly matches ignoring case. */
  lemma ExactIsCasePrefix(s: string, p: string)
    requires |p| <= |s| && s[..|p|] == p
    ensures CasePrefix(s, p)
  {
    forall i | 0 <= i < |p| ensures CaseEq(s[i], p[i]) {
      assert s[i] == s[..|p|][i];
    }
  }

  /** The compile-time length limits of a protocol family: `PURC_LEN_*` or
      `PCRDR_LEN_*`, together with `MD5_DIGEST_SIZE`. */
  datatype Limits = Limits(hostName: nat, appName: nat, runnerName: nat,
                           uniqueId: nat, md5DigestSize: nat)

  /** The position of the first `c` in `s`, as `strchr` finds it. */
  function FirstIndexOf(s: string, c: char): (r: Option<nat>)
    ensures r.Some? ==> r.value < |s| && s[r.value] == c && c !in s[..r.value]
    ensures r.None? <==> c !in s
  {
    if |s| == 0 then None
    else if s[0] == c then Some(0)
    else match FirstIndexOf(s[1..], c)
      case None => None
      case Some(k) => Some(k + 1)
  }

  /** The position of the last `c` in `s`, as `strrchr` finds it. */
  function LastIndexOf(s: string, c: char): (r: Option<nat>)
    ensures r.Some? ==> r.value < |s| && s[r.value] == c && c !in s[r.value + 1..]
    ensures r.None? <==> c !in s
  {
    if |s| == 0 then None
    else if s[|s| - 1] == c then Some(|s| - 1)
    else LastIndexOf(s[..|s| - 1], c)
  }

  /** The first occurrence is determined by the properties `FirstIndexOf`
      promises. */
  lemma FirstIndexAt(s: string, c: char, k: nat)
    requires k < |s| && s[k] == c && c !in s[..k]
    ensures FirstIndexOf(s, c) == Some(k)
  {
  }

  /** The last occurrence is determined by the properties `LastIndexOf`
      promises. */
  lemma LastIndexAt(s: string, c: char, k: nat)
    requires k < |s| && s[k] == c && c !in s[k + 1..]
    ensures LastIndexOf(s, c) == Some(k)
  {
  }

  /** `strchr(s + from, c)`, as an index into `s`. */
  method FindFirst(s: string, from: nat, c: char) returns (r: Option<nat>)
    requires from <= |s|
    ensures r.Some? ==> from <= r.value < |s| && s[r.value] == c && c !in s[from..r.value]
    ensures r.None? ==> c !in s[from..]
  {
    var i := from;
    while i < |s| && s[i] != c
      invariant from <= i <= |s|
      invariant c !in s[from..i]
    {
      assert s[from..i + 1] == s[from..i] + [s[i]];
      i := i + 1;
    }
    if i == |s| {
      assert s[from..] == s[from..i];
      return None;
    }
    return Some(i);
  }

  /** `strrchr(s, c)`: walks the whole string and keeps the last match. */
  method FindLast(s: string, c: char) returns (r: Option<nat>)
    ensures r == LastIndexOf(s, c)
  {
    var i := 0;
    r := None;
    while i < |s|
      invariant 0 <= i <= |s|
      invariant r == LastIndexOf(s[..i], c)
    {
      if s[i] == c {
        LastIndexAt(s[..i + 1], c, i);
        r := Some(i);
      } else {
        assert s[..i + 1][..i] == s[..i];
      }
      i := i + 1;
    }
    assert s[..i] == s;
  }

  /** Length of the run of characters of `s` from `from` up to the first one
      in `stops` (or the end). */
  function RunLength(s: string, from: nat, stops: set<char>): (n: nat)
    requires from <= |s|
    ensures from + n <= |s|
    ensures from + n < |s| ==> s[from + n] in stops
    decreases |s| - from
  {
    if from == |s| || s[from] in stops then 0 else 1 + RunLength(s, from + 1, stops)
  }

  /** The run contains none of the stop characters. */
  lemma {:induction false} RunAvoidsStops(s: string, from: nat, stops: set<char>)
    requires from <= |s|
    ensures forall i :: from <= i < from + RunLength(s, from, stops) ==> s[i] !in stops
    ensures forall c :: c in stops ==> c !in s[from..from + RunLength(s, from, stops)]
    decreases |s| - from
  {
    if from < |s| && s[from] !in stops {
      RunAvoidsStops(s, from + 1, stops);
      assert s[from..from + RunLength(s, from, stops)]
          == [s[from]] + s[from + 1..from + 1 + RunLength(s, from + 1, stops)];
    }
  }

  /** The run length is the length of any run that the properties of
      `RunLength` describe. */
  lemma {:induction false} RunLengthIs(s: string, from: nat, stops: set<char>, k: nat)
    requires from + k <= |s|
    requires forall i :: from <= i < from + k ==> s[i] !in stops
    requires from + k < |s| ==> s[from + k] in stops
    ensures RunLength(s, from, stops) == k
    decreases k
  {
    if k > 0 {
      RunLengthIs(s, from + 1, stops, k - 1);
    }
  }

  /** The run from `from` covers `x` exactly when a stop, or the end,
      follows it. */
  lemma RunOver(s: string, from: nat, x: string, after: string, stops: set<char>)
    requires from <= |s| && s[from..] == x + after
    requires forall c :: c in x ==> c !in stops
    requires |after| > 0 ==> after[0] in stops
    ensures RunLength(s, from, stops) == |x|
  {
    forall i | from <= i < from + |x| ensures s[i] !in stops {
      assert s[i] == s[from..][i - from] == x[i - from];
    }
    if from + |x| < |s| {
      assert s[from + |x|] == s[from..][|x|] == after[0];
    }
    RunLengthIs(s, from, stops, |x|);
  }

  /** `strncpy(buf + at, s, |s|)` followed by a terminator, or `stpcpy`:
      the characters before `at` and after the terminator stay as they were. */
  method WriteString(buf: array<char>, at: nat, s: string)
    requires at + |s| < buf.Length
    modifies buf
    ensures buf[..at + |s|] == old(buf[..at]) + s
    ensures buf[at + |s|] == '\0'
    ensures buf[at + |s| + 1..] == old(buf[at + |s| + 1..])
    ensures forall i :: at + |s| < i < buf.Length ==> buf[i] == old(buf[i])
  {
    var k := 0;
    while k < |s|
      invariant 0 <= k <= |s|
      invariant buf[..at + k] == old(buf[..at]) + s[..k]
      invariant buf[at + k..] == old(buf[at + k..])
    {
      buf[at + k] := s[k];
      assert buf[..at + k + 1] == buf[..at + k] + [s[k]];
      assert s[..k + 1] == s[..k] + [s[k]];
      assert buf[at + k + 1..] == old(buf[at + k..])[1..];
      k := k + 1;
    }
    buf[at + |s|] := '\0';
    assert buf[..at + |s|] == old(buf[..at]) + s[..|s|];
    assert buf[at + |s| + 1..] == old(buf[at + |s|..])[1..];
  }

  /** Stores `c` at `at`, as `buf[at] = c` does. */
  method PutChar(buf: array<char>, at: nat, c: char)
    requires at < buf.Length
    modifies buf
    ensures buf[..at + 1] == old(buf[..at]) + [c]
    ensures buf[at + 1..] == old(buf[at + 1..])
    ensures forall i :: at < i < buf.Length ==> buf[i] == old(buf[i])
  {
    buf[at] := c;
    assert buf[..at + 1] == buf[..at] + [c];
  }
}
