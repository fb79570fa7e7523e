/** The few pieces of Python's `str` that the service relies on: the `in`
    operator on substrings, `str.find`, `str.split(sep)`, `str.strip()`,
    `str.startswith` and `str(n)` for a non-negative integer. */
module PyText {
  import opened Wrappers

  /** `p` occurs in `s` starting at index `i`. */
  predicate OccursAt(s: string, p: string, i: int)
  {
    0 <= i && i + |p| <= |s| && s[i..i + |p|] == p
  }

  /** Python's `p in s` for two strings. */
  predicate Contains(s: string, p: string)
  {
    exists i :: 0 <= i <= |s| - |p| && OccursAt(s, p, i)
  }

  /** `i` is the first index where `p` occurs in `s`. */
  predicate FirstOccurrence(s: string, p: string, i: int)
  {
    OccursAt(s, p, i) && forall j :: 0 <= j < i ==> !OccursAt(s, p, j)
  }

  /** `str.find`, with None standing for Python's -1. */
  function Find(s: string, p: string): (r: Option<nat>)
    ensures r.Some? ==> FirstOccurrence(s, p, r.value)
    ensures r.None? <==> !Contains(s, p)
    decreases |s|
  {
    if |s| < |p| then None
    else if s[..|p|] == p then
      assert OccursAt(s, p, 0);
      Some(0)
    else
      match Find(s[1..], p)
      case None =>
        assert forall i | 1 <= i :: !OccursAt(s, p, i) by {
          forall i | 1 <= i ensures !OccursAt(s, p, i) { OccursShift(s, p, i); }
        }
        None
      case Some(k) =>
        OccursShift(s, p, k + 1);
        assert forall j | 1 <= j < k + 1 :: !OccursAt(s, p, j) by {
          forall j | 1 <= j < k + 1 ensures !OccursAt(s, p, j) { OccursShift(s, p, j); }
        }
        Some(k + 1)
  }

  /** An occurrence past the first character is an occurrence in the tail. */
  lemma OccursShift(s: string, p: string, i: int)
    requires s != [] && i >= 1
    ensures OccursAt(s, p, i) <==> OccursAt(s[1..], p, i - 1)
  {
    if i + |p| <= |s| {
      var t := s[1..];
      forall k | i <= k < i + |p| ensures s[k] == t[k - 1] {}
      assert s[i..i + |p|] == t[i - 1..i - 1 + |p|];
    }
  }

  /** `str.find` returns the first occurrence, whichever way it is found. */
  lemma FindFirst(s: string, p: string, i: nat)
    requires FirstOccurrence(s, p, i)
    ensures Find(s, p) == Some(i)
  {
    assert Contains(s, p);
    var k := Find(s, p).value;
    assert !(k < i) && !(i < k);
  }

  /** `s.split(sep)`: the pieces between non-overlapping occurrences of `sep`,
      scanned from the left.  Python refuses an empty separator; the service
      only ever splits on non-empty literals. */
  function Split(s: string, sep: string): (r: seq<string>)
    requires |sep| > 0
    ensures |r| >= 1
    ensures |r| >= 2 <==> Contains(s, sep)
    decreases |s|
  {
    match Find(s, sep)
    case None => [s]
    case Some(i) => [s[..i]] + Split(s[i + |sep|..], sep)
  }

  /** `c` is what precedes the first `sep` in `s`, or all of `s` when there is
      none: an independent description of `s.split(sep)[0]`. */
  predicate UpToFirst(s: string, sep: string, c: string)
  {
    StopsAt(s, sep, c) && forall j :: 0 <= j < |c| ==> !OccursAt(s, sep, j)
  }

  /** `c` is a prefix of `s` that ends where `s` ends or where `sep` begins. */
  predicate StopsAt(s: string, sep: string, c: string)
  {
    c <= s && (c == s || OccursAt(s, sep, |c|))
  }

  lemma OccursAtPrefix(s: string, p: string, q: string, k: int)
    requires OccursAt(s, p + q, k)
    ensures OccursAt(s, p, k)
  {
    assert s[k..k + |p|] == (p + q)[..|p|];
  }

  lemma OccursInLonger(piece: string, s: string, p: string, k: int)
    requires piece <= s && OccursAt(piece, p, k)
    ensures OccursAt(s, p, k)
  {
    assert s[k..k + |p|] == piece[k..k + |p|];
  }

  lemma SplitHead(s: string, sep: string)
    requires |sep| > 0
    ensures UpToFirst(s, sep, Split(s, sep)[0])
    ensures !Contains(Split(s, sep)[0], sep)
  {
    var c := Split(s, sep)[0];
    match Find(s, sep)
    case None =>
    case Some(i) =>
      assert c == s[..i];
    forall j | OccursAt(c, sep, j) ensures false {
      assert OccursAt(s, sep, j) by { assert s[j..j + |sep|] == c[j..j + |sep|]; }
    }
  }

  /** The second piece of `s.split(sep)` is what lies between the first and
      the second occurrence of `sep`, or from the first one to the end. */
  lemma SplitSecond(s: string, sep: string, i: nat)
    requires |sep| > 0 && FirstOccurrence(s, sep, i)
    ensures |Split(s, sep)| >= 2
    ensures Split(s, sep)[1] == Split(s[i + |sep|..], sep)[0]
  {
    FindFirst(s, sep, i);
    var tail := Split(s[i + |sep|..], sep);
    assert Split(s, sep) == [s[..i]] + tail;
    assert ([s[..i]] + tail)[1] == tail[0];
  }

  /** A string that contains `p + q` contains `p`. */
  lemma ContainsPrefixOf(s: string, p: string, q: string)
    requires Contains(s, p + q)
    ensures Contains(s, p)
  {
    var i :| 0 <= i <= |s| - |p + q| && OccursAt(s, p + q, i);
    assert s[i..i + |p|] == (p + q)[..|p|];
    assert OccursAt(s, p, i);
  }

  /** A substring of a substring is a substring. */
  lemma ContainsTrans(s: string, t: string, u: string)
    requires Contains(s, t) && Contains(t, u)
    ensures Contains(s, u)
  {
    var i :| 0 <= i <= |s| - |t| && OccursAt(s, t, i);
    var j :| 0 <= j <= |t| - |u| && OccursAt(t, u, j);
    assert forall k :: 0 <= k < |u| ==> u[k] == t[j + k] == s[i + j + k];
    assert s[i + j..i + j + |u|] == u;
    assert OccursAt(s, u, i + j);
  }

  lemma ContainsSlice(s: string, i: nat, j: nat)
    requires i <= j <= |s|
    ensures Contains(s, s[i..j])
  {
    assert OccursAt(s, s[i..j], i);
  }

  // ---------------------------------------------------------------- strip

  /** The characters `str.strip()` removes that are in the ASCII and Latin-1
      range: space, \t, \n, \x0b, \x0c, \r, \x1c-\x1f, \x85 and \xa0. */
  predicate IsSpace(ch: char)
  {
    ch == ' ' || ('\t' <= ch <= '\r') || ('\U{1c}' <= ch <= '\U{1f}')
    || ch == '\U{85}' || ch == '\U{a0}'
  }

  function LStrip(s: string): (r: string)
    ensures |r| <= |s| && r == s[|s| - |r|..]
    ensures r == [] || !IsSpace(r[0])
    decreases |s|
  {
    if s != [] && IsSpace(s[0]) then LStrip(s[1..]) else s
  }

  function RStrip(s: string): (r: string)
    ensures |r| <= |s| && r == s[..|r|]
    ensures r == [] || !IsSpace(r[|r| - 1])
    decreases |s|
  {
    if s != [] && IsSpace(s[|s| - 1]) then RStrip(s[..|s| - 1]) else s
  }

  /** `s.strip()`: a piece of `s` that neither starts nor ends with whitespace;
      StripRemovesOnlySpace says that only whitespace was cut off. */
  function Strip(s: string): (r: string)
    ensures var lead := |s| - |LStrip(s)|;
      lead + |r| <= |s| && s[lead..lead + |r|] == r
    ensures r == [] || (!IsSpace(r[0]) && !IsSpace(r[|r| - 1]))
  {
    var l := LStrip(s);
    var r := RStrip(l);
    assert r != [] ==> r[0] == l[0];
    r
  }

  lemma {:induction false} LStripRemovesOnlySpace(s: string)
    ensures forall k :: 0 <= k < |s| - |LStrip(s)| ==> IsSpace(s[k])
    decreases |s|
  {
    if s != [] && IsSpace(s[0]) {
      var t := s[1..];
      LStripRemovesOnlySpace(t);
      forall k | 1 <= k < |s| - |LStrip(s)| ensures IsSpace(s[k]) {
        assert s[k] == t[k - 1];
      }
    }
  }

  lemma {:induction false} RStripRemovesOnlySpace(s: string)
    ensures forall k :: |RStrip(s)| <= k < |s| ==> IsSpace(s[k])
    decreases |s|
  {
    if s != [] && IsSpace(s[|s| - 1]) {
      var t := s[..|s| - 1];
      RStripRemovesOnlySpace(t);
      forall k | |RStrip(s)| <= k < |s| - 1 ensures IsSpace(s[k]) {
        assert s[k] == t[k];
      }
    }
  }

  /** What `strip()` cuts from either end of `s` is whitespace only. */
  lemma StripRemovesOnlySpace(s: string)
    ensures var lead := |s| - |LStrip(s)|;
      && (forall k :: 0 <= k < lead ==> IsSpace(s[k]))
      && (forall k :: lead + |Strip(s)| <= k < |s| ==> IsSpace(s[k]))
  {
    var l := LStrip(s);
    var r := RStrip(l);
    var lead := |s| - |l|;
    LStripRemovesOnlySpace(s);
    RStripRemovesOnlySpace(l);
    assert Strip(s) == r;
    forall k | lead + |r| <= k < |s| ensures IsSpace(s[k]) {
      assert s[k] == l[k - lead];
    }
  }

  lemma {:induction false} LStripNoLead(s: string)
    requires s == [] || !IsSpace(s[0])
    ensures LStrip(s) == s
  {
  }

  lemma {:induction false} RStripNoTrail(s: string)
    requires s == [] || !IsSpace(s[|s| - 1])
    ensures RStrip(s) == s
  {
  }

  /** Stripping twice is stripping once. */
  lemma StripIdempotent(s: string)
    ensures Strip(Strip(s)) == Strip(s)
  {
    var r := Strip(s);
    LStripNoLead(r);
    RStripNoTrail(r);
  }

  /** Stripping a line break from either end. */
  lemma StripNewlines(inner: string)
    requires inner != [] && !IsSpace(inner[0]) && !IsSpace(inner[|inner| - 1])
    ensures Strip("\n" + inner + "\n") == inner
  {
    var s := "\n" + inner + "\n";
    assert s[1..] == inner + "\n";
    assert LStrip(s) == LStrip(inner + "\n");
    LStripNoLead(inner + "\n");
    assert (inner + "\n")[..|inner|] == inner;
    assert RStrip(inner + "\n") == RStrip(inner);
    RStripNoTrail(inner);
  }

  // ---------------------------------------------------------------- str(n)

  function Digit(d: nat): (ch: char)
    requires d < 10
  {
    "0123456789"[d]
  }

  /** `str(n)` for a non-negative integer: its decimal digits, no leading zero. */
  function Decimal(n: nat): (r: string)
    ensures |r| >= 1
    ensures |r| == 1 <==> n < 10
    ensures r[|r| - 1] == Digit(n % 10)
    decreases n
  {
    if n < 10 then [Digit(n)] else Decimal(n / 10) + [Digit(n % 10)]
  }

  lemma DigitInjective(a: nat, b: nat)
    requires a < 10 && b < 10 && Digit(a) == Digit(b)
    ensures a == b
  {
  }

  /** Different numbers print differently. */
  lemma {:induction false} DecimalInjective(a: nat, b: nat)
    requires Decimal(a) == Decimal(b)
    ensures a == b
    decreases a
  {
    var s := Decimal(a);
    DigitInjective(a % 10, b % 10);
    if a >= 10 {
      assert b >= 10;
      assert Decimal(a / 10) == s[..|s| - 1] == Decimal(b / 10);
      DecimalInjective(a / 10, b / 10);
    }
  }

  function StartsWith(s: string, prefix: string): (b: bool)
  {
    prefix <= s
  }
}
