/*
 * The string helpers of the inih parser (lib/inih/ini.c): ini_lskip,
 * ini_find_chars_or_comment, ini_rstrip and ini_strncpy0.
 *
 * A C char buffer is a `seq<char>` (or an `array<char>` where the parser
 * writes into it); every char stands for one byte, and a C string starting
 * at index i runs up to the first NUL at or after i.
 */
module CString {

  const NUL: char := '\0'

  /** INI_INLINE_COMMENT_PREFIXES in the default configuration. */
  const InlineCommentPrefixes: seq<char> := [';']

  /** isspace() in the "C" locale: ' ', '\t', '\n', '\v', '\f' and '\r'. */
  predicate IsSpace(c: char) {
    c == ' ' || '\t' <= c <= '\r'
  }

  /** strchr(s, c) != NULL for a C string s: strchr also finds the terminator. */
  predicate StrChr(s: seq<char>, c: char) {
    c == NUL || c in s
  }

  predicate NoNul(s: seq<char>) {
    NUL !in s
  }

  /** b[i..] holds a C string: there is a terminator at or after i. */
  predicate Terminated(b: seq<char>, i: nat)
    decreases |b| - i
  {
    i < |b| && (b[i] == NUL || Terminated(b, i + 1))
  }

  /** A terminator at j ends the C string at every i up to j. */
  lemma {:induction false} NulAt(b: seq<char>, i: nat, j: nat)
    requires i <= j < |b| && b[j] == NUL
    ensures Terminated(b, i)
    decreases j - i
  {
    if i < j {
      NulAt(b, i + 1, j);
    }
  }

  function Min(a: nat, b: nat): nat {
    if a <= b then a else b
  }

  /** strlen(b + i). */
  function StrLen(b: seq<char>, i: nat): (n: nat)
    requires Terminated(b, i)
    ensures i + n < |b| && b[i + n] == NUL
    ensures forall k :: i <= k < i + n ==> b[k] != NUL
    decreases |b| - i
  {
    if b[i] == NUL then 0 else 1 + StrLen(b, i + 1)
  }

  /** The C string that starts at index i of b. */
  function CStrAt(b: seq<char>, i: nat): (s: seq<char>)
    requires Terminated(b, i)
    ensures NoNul(s) && i + |s| < |b| && b[i + |s|] == NUL && s == b[i..i + |s|]
  {
    b[i..i + StrLen(b, i)]
  }

  /** strlen of a char sequence as a C function sees it once a terminator
      follows it: the length of the part before its first NUL. */
  function CLen(s: seq<char>): (n: nat)
    ensures n <= |s| && NoNul(s[..n])
    ensures n < |s| ==> s[n] == NUL
  {
    assert Terminated(s + [NUL], 0) by { NulAt(s + [NUL], 0, |s|); }
    var n := StrLen(s + [NUL], 0);
    assert forall k :: 0 <= k < n ==> s[..n][k] == (s + [NUL])[k];
    n
  }

  /** The array a holds the C string s. */
  ghost predicate HoldsCStr(a: array<char>, s: seq<char>)
    reads a
  {
    |s| < a.Length && a[..|s|] == s && a[|s|] == NUL && NoNul(s)
  }

  /** ini_lskip: the index of the first char at or after i that is not
      whitespace; that char may be the terminator. */
  function LSkip(b: seq<char>, i: nat): (r: nat)
    requires Terminated(b, i)
    ensures i <= r < |b|
    ensures b[r] == NUL || !IsSpace(b[r])
    ensures forall k :: i <= k < r ==> b[k] != NUL && IsSpace(b[k])
    decreases |b| - i
  {
    if b[i] != NUL && IsSpace(b[i]) then LSkip(b, i + 1) else i
  }

  /** Whether the inline-comment scan that began at index i, with was_space
      initially ws, tells that the char before index k is whitespace. */
  predicate PrevSpace(b: seq<char>, i: nat, ws: bool, k: nat)
    requires i <= k <= |b|
  {
    if k == i then ws else IsSpace(b[k - 1])
  }

  /** Whether ini_find_chars_or_comment stops at index k: the terminator, one
      of chars, or an inline-comment prefix right after whitespace. */
  predicate StopsAt(b: seq<char>, chars: seq<char>, i: nat, ws: bool, k: nat)
    requires i <= k < |b|
  {
    b[k] == NUL || b[k] in chars || (PrevSpace(b, i, ws, k) && b[k] in InlineCommentPrefixes)
  }

  /** The loop of ini_find_chars_or_comment from index i with was_space = ws.
      The source's NULL `chars` is the empty sequence. */
  function FindFrom(b: seq<char>, i: nat, chars: seq<char>, ws: bool): (r: nat)
    requires Terminated(b, i)
    ensures i <= r < |b| && StopsAt(b, chars, i, ws, r)
    ensures forall k :: i <= k < r ==> !StopsAt(b, chars, i, ws, k)
    decreases |b| - i
  {
    if b[i] != NUL && b[i] !in chars && !(ws && b[i] in InlineCommentPrefixes) then
      var r := FindFrom(b, i + 1, chars, IsSpace(b[i]));
      assert forall k :: i + 1 <= k <= r ==>
        StopsAt(b, chars, i, ws, k) == StopsAt(b, chars, i + 1, IsSpace(b[i]), k);
      r
    else
      i
  }

  /** Index k holds an inline-comment prefix right after whitespace, for a
      scan that began at index i: a prefix at i itself is never a comment. */
  predicate InlineCommentAt(b: seq<char>, i: nat, k: nat)
    requires i <= k < |b|
  {
    k > i && IsSpace(b[k - 1]) && b[k] in InlineCommentPrefixes
  }

  /** ini_find_chars_or_comment(b + i, chars): the first index that holds one
      of chars, an inline-comment prefix preceded by whitespace, or the
      terminator. */
  function FindCharsOrComment(b: seq<char>, i: nat, chars: seq<char>): (r: nat)
    requires Terminated(b, i)
    ensures i <= r < |b|
    ensures b[r] == NUL || b[r] in chars || InlineCommentAt(b, i, r)
    ensures forall k :: i <= k < r ==> b[k] != NUL && b[k] !in chars
    ensures forall k {:trigger InlineCommentAt(b, i, k)} :: i <= k < r ==> !InlineCommentAt(b, i, k)
  {
    var r := FindFrom(b, i, chars, false);
    assert StopsAt(b, chars, i, false, r);
    assert PrevSpace(b, i, false, r) == (r > i && IsSpace(b[r - 1]));
    forall k | i <= k < r
      ensures b[k] != NUL && b[k] !in chars && !InlineCommentAt(b, i, k)
    {
      assert !StopsAt(b, chars, i, false, k);
    }
    r
  }

  /** Where ini_rstrip(b + s, b + end) leaves the end of the string: it backs
      over the whitespace that ends b[s..end]. */
  function RStripEnd(b: seq<char>, s: nat, end: nat): (r: nat)
    requires s <= end <= |b|
    ensures s <= r <= end
    ensures forall k :: r <= k < end ==> IsSpace(b[k])
    ensures r == s || !IsSpace(b[r - 1])
    decreases end
  {
    if end > s && IsSpace(b[end - 1]) then RStripEnd(b, s, end - 1) else end
  }

  /** ini_rstrip: overwrites the whitespace that ends a[s..end] with NULs, in
      place, and returns the new end of the string that starts at s. */
  method RStrip(a: array<char>, s: nat, end: nat) returns (e: nat)
    requires s <= end <= a.Length
    modifies a
    ensures e == RStripEnd(old(a[..]), s, end)
    ensures forall k :: 0 <= k < a.Length ==> a[k] == if e <= k < end then NUL else old(a[k])
  {
    e := end;
    while e > s && IsSpace(a[e - 1])
      invariant s <= e <= end
      invariant RStripEnd(old(a[..]), s, e) == RStripEnd(old(a[..]), s, end)
      invariant forall k :: 0 <= k < a.Length ==> a[k] == if e <= k < end then NUL else old(a[k])
    {
      e := e - 1;
      a[e] := NUL;
    }
  }

  /** ini_strncpy0: copies the C string at src[from..] into dest, at most
      size - 1 chars of it, and always terminates the copy. */
  method StrNCpy0(dest: array<char>, src: seq<char>, from: nat, size: nat) returns (n: nat)
    requires 1 <= size <= dest.Length
    requires Terminated(src, from)
    modifies dest
    ensures n == Min(size - 1, StrLen(src, from))
    ensures dest[..n] == src[from..from + n] && dest[n] == NUL
    ensures forall k :: n < k < dest.Length ==> dest[k] == old(dest[k])
    ensures HoldsCStr(dest, Truncate(CStrAt(src, from), size - 1))
  {
    n := 0;
    while n < size - 1 && src[from + n] != NUL
      invariant n <= size - 1 && n <= StrLen(src, from)
      invariant dest[..n] == src[from..from + n]
      invariant forall k :: n <= k < dest.Length ==> dest[k] == old(dest[k])
    {
      dest[n] := src[from + n];
      n := n + 1;
    }
    dest[n] := NUL;
    CopyHoldsTruncated(dest, src, from, size, n);
  }

  /** The C string a bounded copy keeps: its first cap chars. */
  function Truncate(s: seq<char>, cap: nat): (r: seq<char>)
    ensures |r| == Min(cap, |s|) && r == s[..|r|]
  {
    if |s| <= cap then s else s[..cap]
  }

  /** After StrNCpy0(dest, src, from, size), dest holds the source C string
      truncated to size - 1 chars. */
  lemma CopyHoldsTruncated(dest: array<char>, src: seq<char>, from: nat, size: nat, n: nat)
    requires 1 <= size <= dest.Length && Terminated(src, from)
    requires n == Min(size - 1, StrLen(src, from))
    requires dest[..n] == src[from..from + n] && dest[n] == NUL
    ensures HoldsCStr(dest, Truncate(CStrAt(src, from), size - 1))
  {
    var s := CStrAt(src, from);
    assert |s| == StrLen(src, from);
    assert Truncate(s, size - 1) == src[from..from + n];
  }

  /** Reference definitions of trimming, independent of the buffer scans. */
  function LTrim(s: seq<char>): seq<char> {
    if s != [] && IsSpace(s[0]) then LTrim(s[1..]) else s
  }

  function RTrim(s: seq<char>): seq<char> {
    if s != [] && IsSpace(s[|s| - 1]) then RTrim(s[..|s| - 1]) else s
  }

  function Trim(s: seq<char>): seq<char> {
    RTrim(LTrim(s))
  }

  /** LTrim removes a run of whitespace from the front and nothing else. */
  lemma {:induction false} LTrimSuffix(s: seq<char>)
    ensures var r := LTrim(s);
      |r| <= |s| && r == s[|s| - |r|..] && (r == [] || !IsSpace(r[0])) &&
      forall k :: 0 <= k < |s| - |r| ==> IsSpace(s[k])
    decreases |s|
  {
    if s != [] && IsSpace(s[0]) {
      LTrimSuffix(s[1..]);
      var r := LTrim(s);
      assert s[1..][|s| - 1 - |r|..] == s[|s| - |r|..];
      forall k | 0 < k < |s| - |r|
        ensures IsSpace(s[k])
      {
        assert s[k] == s[1..][k - 1];
      }
    }
  }

  /** RTrim removes a run of whitespace from the back and nothing else. */
  lemma {:induction false} RTrimPrefix(s: seq<char>)
    ensures var r := RTrim(s);
      |r| <= |s| && r == s[..|r|] && (r == [] || !IsSpace(r[|r| - 1])) &&
      forall k :: |r| <= k < |s| ==> IsSpace(s[k])
    decreases |s|
  {
    if s != [] && IsSpace(s[|s| - 1]) {
      RTrimPrefix(s[..|s| - 1]);
      var r := RTrim(s);
      assert s[..|s| - 1][..|r|] == s[..|r|];
      forall k | |r| <= k < |s| - 1
        ensures IsSpace(s[k])
      {
        assert s[k] == s[..|s| - 1][k];
      }
    }
  }

  /** ini_lskip over b[i..j], a stretch with no terminator in it that ends
      before a char that is not whitespace (or the terminator), skips exactly
      the whitespace LTrim removes. */
  lemma {:induction false} LSkipIsLTrim(b: seq<char>, i: nat, j: nat)
    requires Terminated(b, i)
    requires i <= j < |b| && NoNul(b[i..j]) && (b[j] == NUL || !IsSpace(b[j]))
    ensures LSkip(b, i) == j - |LTrim(b[i..j])|
    decreases j - i
  {
    if i < j {
      assert b[i] == b[i..j][0];
      assert b[i + 1..j] == b[i..j][1..];
      if IsSpace(b[i]) {
        LSkipIsLTrim(b, i + 1, j);
      }
    }
  }

  /** ini_rstrip keeps exactly the part RTrim keeps. */
  lemma {:induction false} RStripEndIsRTrim(b: seq<char>, s: nat, end: nat)
    requires s <= end <= |b|
    ensures RStripEnd(b, s, end) == s + |RTrim(b[s..end])|
    decreases end
  {
    if end > s && IsSpace(b[end - 1]) {
      assert b[s..end][..end - s - 1] == b[s..end - 1];
      RStripEndIsRTrim(b, s, end - 1);
    }
  }

  /* Frame lemmas: each scan reads only up to where it stops, so two buffers
     that agree that far give the same answer. */

  lemma {:induction false} StrLenFrame(a: seq<char>, b: seq<char>, i: nat, m: nat)
    requires i <= m < |a| && m < |b| && a[i..m + 1] == b[i..m + 1] && a[m] == NUL
    ensures Terminated(a, i) && Terminated(b, i) && StrLen(a, i) == StrLen(b, i)
    decreases m - i
  {
    assert a[m] == b[m];
    if a[i] != NUL {
      assert a[i] == b[i];
      StrLenFrame(a, b, i + 1, m);
    }
  }

  lemma {:induction false} CStrAtIs(b: seq<char>, i: nat, s: seq<char>)
    requires i + |s| < |b| && b[i..i + |s|] == s && NoNul(s) && b[i + |s|] == NUL
    ensures Terminated(b, i) && CStrAt(b, i) == s
    decreases |s|
  {
    assert b[i + |s|] == NUL;
    if s != [] {
      assert b[i] == s[0] && b[i + 1..i + |s|] == s[1..];
      CStrAtIs(b, i + 1, s[1..]);
    }
  }

  /** A C string survives any change to the buffer that leaves it and its
      terminator alone. */
  lemma CStrAtFrame(a: seq<char>, b: seq<char>, i: nat, m: nat)
    requires Terminated(a, i) && i + StrLen(a, i) < m <= |a| && m <= |b| && a[..m] == b[..m]
    ensures Terminated(b, i) && CStrAt(b, i) == CStrAt(a, i)
  {
    var s := CStrAt(a, i);
    forall k | 0 <= k < |s|
      ensures b[i..i + |s|][k] == s[k]
    {
      assert b[i + k] == b[..m][i + k] == a[..m][i + k] == a[i..i + |s|][k];
    }
    assert b[i..i + |s|] == s;
    assert b[i + |s|] == b[..m][i + |s|] == a[..m][i + |s|];
    CStrAtIs(b, i, s);
  }

  lemma {:induction false} LSkipFrame(a: seq<char>, b: seq<char>, i: nat, m: nat)
    requires i <= m < |a| && m < |b| && a[i..m] == b[i..m] && Terminated(b, i)
    requires a[m] == NUL && (b[m] == NUL || !IsSpace(b[m]))
    ensures Terminated(a, i) && LSkip(a, i) == LSkip(b, i)
    decreases m - i
  {
    NulAt(a, i, m);
    if i < m {
      assert a[i] == b[i];
      if a[i] != NUL && IsSpace(a[i]) {
        LSkipFrame(a, b, i + 1, m);
      }
    }
  }

  lemma {:induction false} FindFromFrame(a: seq<char>, b: seq<char>, i: nat, m: nat, chars: seq<char>, ws: bool)
    requires i <= m < |a| && m < |b| && a[i..m + 1] == b[i..m + 1] && a[m] == NUL
    ensures Terminated(a, i) && Terminated(b, i)
    ensures FindFrom(a, i, chars, ws) == FindFrom(b, i, chars, ws)
    decreases m - i
  {
    assert a[m] == b[m];
    assert a[i] == b[i];
    NulAt(a, i, m);
    NulAt(b, i, m);
    if a[i] != NUL && a[i] !in chars && !(ws && a[i] in InlineCommentPrefixes) {
      FindFromFrame(a, b, i + 1, m, chars, IsSpace(a[i]));
    }
  }

  lemma FindFrame(a: seq<char>, b: seq<char>, i: nat, m: nat, chars: seq<char>)
    requires i <= m < |a| && m < |b| && a[i..m + 1] == b[i..m + 1] && a[m] == NUL
    ensures Terminated(a, i) && Terminated(b, i)
    ensures FindCharsOrComment(a, i, chars) == FindCharsOrComment(b, i, chars)
  {
    FindFromFrame(a, b, i, m, chars, false);
  }

  lemma {:induction false} RStripEndFrame(a: seq<char>, b: seq<char>, s: nat, end: nat)
    requires s <= end <= |a| && end <= |b| && a[s..end] == b[s..end]
    ensures RStripEnd(a, s, end) == RStripEnd(b, s, end)
    decreases end
  {
    if end > s {
      assert a[end - 1] == a[s..end][end - 1 - s] == b[end - 1];
      assert a[s..end - 1] == a[s..end][..end - 1 - s] == b[s..end - 1];
      RStripEndFrame(a, b, s, end - 1);
    }
  }
}
