/*
 * Properties of the pure line scan of module Scanner: how the line count,
 * the returned error and the handler calls follow from the input.
 */
module ScannerProps {
  import opened CString
  import opened StringReader
  import opened Scanner

  /* ---- What a line means, in terms of its text alone ---- */

  /** The line without the byte-order mark the first line may carry. */
  function Body(t: seq<char>, lineno: nat): seq<char> {
    if lineno == 1 && HasBom(t) then t[3..] else t
  }

  /** The line with the mark and the surrounding whitespace removed. */
  function Content(t: seq<char>, lineno: nat): seq<char> {
    Trim(Body(t, lineno))
  }

  /** Whether the content starts after the beginning of the buffer, which is
      what makes a line a continuation (`start > line`). */
  predicate Indented(t: seq<char>, lineno: nat) {
    var b := Body(t, lineno);
    (lineno == 1 && HasBom(t)) || (b != [] && IsSpace(b[0]))
  }

  /** Index k of s ends a scan for chars: one of chars, or an inline-comment
      prefix right after whitespace. */
  predicate Stop(s: seq<char>, chars: seq<char>, k: nat)
    requires k < |s|
  {
    s[k] in chars || (k > 0 && IsSpace(s[k - 1]) && s[k] in InlineCommentPrefixes)
  }

  /** The least index at or after k where Stop holds, or |s|. */
  function StopFrom(s: seq<char>, chars: seq<char>, k: nat): (r: nat)
    requires k <= |s|
    ensures k <= r <= |s| && (r < |s| ==> Stop(s, chars, r))
    ensures forall j :: k <= j < r ==> !Stop(s, chars, j)
    decreases |s| - k
  {
    if k == |s| || Stop(s, chars, k) then k else StopFrom(s, chars, k + 1)
  }

  function FirstStop(s: seq<char>, chars: seq<char>): (r: nat)
    ensures r <= |s| && (r < |s| ==> Stop(s, chars, r))
    ensures forall j :: 0 <= j < r ==> !Stop(s, chars, j)
  {
    StopFrom(s, chars, 0)
  }

  /** Two indices that are both the first stop are the same. */
  lemma FirstStopUnique(s: seq<char>, chars: seq<char>, r: nat)
    requires r <= |s| && (r < |s| ==> Stop(s, chars, r))
    requires forall j :: 0 <= j < r ==> !Stop(s, chars, j)
    ensures r == FirstStop(s, chars)
  {
  }

  /** The branch a line takes and the strings it hands on, defined on the
      content u of the line, without buffers or terminators; cont says that
      a previous name exists and the line is indented. */
  function Meaning(u: seq<char>, cont: bool): LineKind {
    if u == [] || u[0] in StartCommentPrefixes then Comment
    else if cont then Continuation(RTrim(u[..FirstStop(u, [])]))
    else if u[0] == '[' then SectionMeaning(u[1..])
    else PairMeaning(u)
  }

  /** A line that opens a section, given what follows the '['. */
  function SectionMeaning(inner: seq<char>): LineKind {
    var p := FirstStop(inner, [']']);
    if p < |inner| && inner[p] == ']' then Section(inner[..p]) else UnclosedSection
  }

  /** Any other line: a pair split at its first separator, or an error. */
  function PairMeaning(u: seq<char>): LineKind {
    var p := FirstStop(u, ['=', ':']);
    if p < |u| && u[p] in ['=', ':'] then
      var rest := u[p + 1..];
      Pair(RTrim(u[..p]), Trim(rest[..FirstStop(rest, [])]))
    else MissingSeparator
  }

  /** ini_find_chars_or_comment over a buffer that holds s and a terminator
      stops at the first stop of s. */
  lemma FindIsFirstStop(c: seq<char>, i: nat, s: seq<char>, chars: seq<char>)
    requires i + |s| < |c| && c[i..i + |s|] == s && c[i + |s|] == NUL && NoNul(s)
    ensures Terminated(c, i) && FindCharsOrComment(c, i, chars) == i + FirstStop(s, chars)
  {
    assert Terminated(c, i) by { NulAt(c, i, i + |s|); }
    var r := FindCharsOrComment(c, i, chars);
    assert r <= i + |s|;
    forall j | 0 <= j < r - i
      ensures !Stop(s, chars, j)
    {
      assert c[i + j] == s[j] && !InlineCommentAt(c, i, i + j);
      if j > 0 {
        assert c[i + j - 1] == s[j - 1];
      }
    }
    if r < i + |s| {
      assert c[r] == s[r - i] && c[r] != NUL;
      if r > i {
        assert c[r - 1] == s[r - i - 1];
      }
      assert Stop(s, chars, r - i);
    }
    FirstStopUnique(s, chars, r - i);
  }

  /** ini_rstrip over the stretch c[s..e] keeps exactly RTrim of it. */
  lemma RStripSlice(c: seq<char>, s: nat, e: nat)
    requires s <= e <= |c|
    ensures c[s..RStripEnd(c, s, e)] == RTrim(c[s..e])
  {
    RStripEndIsRTrim(c, s, e);
    RTrimPrefix(c[s..e]);
    var r := RStripEnd(c, s, e);
    assert c[s..r] == c[s..e][..r - s];
  }

  /** The value of a pair: cut at an inline comment and trimmed. */
  lemma PairValueMeaning(c: seq<char>, v: nat, rest: seq<char>)
    requires v + |rest| < |c| && c[v..v + |rest|] == rest && c[v + |rest|] == NUL && NoNul(rest)
    requires c[|c| - 1] == NUL
    ensures PairValue(c, v) == Trim(rest[..FirstStop(rest, [])])
  {
    var f := FirstStop(rest, []);
    ValueCut(c, v, rest);
    TrimmedSlice(c, v, v + f, rest[..f]);
    PairValueUnfold(c, v, v + f);
  }

  /** Where the scan for an inline comment stops in the value rest, and
      what lies before that point. */
  lemma ValueCut(c: seq<char>, v: nat, rest: seq<char>)
    requires v + |rest| < |c| && c[v..v + |rest|] == rest && c[v + |rest|] == NUL && NoNul(rest)
    ensures var f := FirstStop(rest, []); var q := v + f;
      Terminated(c, v) && FindCharsOrComment(c, v, []) == q && q < |c| &&
      c[v..q] == rest[..f] && NoNul(rest[..f]) && (c[q] == NUL || !IsSpace(c[q]))
  {
    FindIsFirstStop(c, v, rest, []);
    var f := FirstStop(rest, []);
    var q := v + f;
    assert c[v..q] == rest[..f];
    if q < v + |rest| {
      assert c[q] == rest[f] && rest[f] in InlineCommentPrefixes;
    }
  }

  /** ini_lskip then ini_rstrip over a stretch w of the buffer that ends
      before a terminator or a char that is not whitespace keeps Trim(w). */
  lemma TrimmedSlice(c: seq<char>, v: nat, q: nat, w: seq<char>)
    requires Terminated(c, v) && v <= q < |c| && c[v..q] == w && NoNul(w)
    requires c[q] == NUL || !IsSpace(c[q])
    ensures LSkip(c, v) <= q && c[LSkip(c, v)..RStripEnd(c, LSkip(c, v), q)] == Trim(w)
  {
    LSkipIsLTrim(c, v, q);
    LTrimSuffix(w);
    var vs := LSkip(c, v);
    assert c[vs..q] == LTrim(w);
    RStripSlice(c, vs, q);
  }

  /** PairValue, once the end of the value is known. */
  lemma PairValueUnfold(c: seq<char>, v: nat, q: nat)
    requires v < |c| && c[|c| - 1] == NUL && Terminated(c, v) && q == FindCharsOrComment(c, v, [])
    ensures LSkip(c, v) <= q && PairValue(c, v) == c[LSkip(c, v)..RStripEnd(c, LSkip(c, v), q)]
  {
  }

  /** The buffer c holds u from ls on, followed by the terminator that ends
      c; stated index by index. */
  predicate Holds(c: seq<char>, ls: nat, u: seq<char>) {
    ls + |u| + 1 == |c| && c[|c| - 1] == NUL && forall k :: 0 <= k < |u| ==> c[ls + k] == u[k]
  }

  lemma HoldsTail(c: seq<char>, ls: nat, u: seq<char>)
    requires ls + |u| + 1 == |c| && c[ls..] == u + [NUL]
    ensures Holds(c, ls, u)
  {
    forall k | 0 <= k < |u|
      ensures c[ls + k] == u[k]
    {
      assert c[ls + k] == c[ls..][k] == (u + [NUL])[k];
    }
    assert c[|c| - 1] == c[ls..][|u|];
  }

  /** Reading a buffer c that holds u from ls on. */
  lemma HoldsSlice(c: seq<char>, ls: nat, u: seq<char>, i: nat, j: nat)
    requires Holds(c, ls, u) && i <= j <= |u|
    ensures c[ls + i..ls + j] == u[i..j] && c[ls + |u|] == NUL && c[|c| - 1] == NUL
    ensures j < |u| ==> c[ls + j] == u[j]
  {
    var x, y := c[ls + i..ls + j], u[i..j];
    forall k | 0 <= k < j - i
      ensures x[k] == y[k]
    {
      assert c[ls + (i + k)] == u[i + k];
    }
    assert x == y;
  }

  /** The scan for chars over a buffer holding u from ls on stops at the
      first stop of u. */
  lemma HeldFind(c: seq<char>, ls: nat, u: seq<char>, chars: seq<char>)
    requires Holds(c, ls, u) && NoNul(u)
    ensures Terminated(c, ls) && FindCharsOrComment(c, ls, chars) == ls + FirstStop(u, chars)
  {
    HoldsSlice(c, ls, u, 0, |u|);
    FindIsFirstStop(c, ls, u, chars);
  }

  /** ini_rstrip of the first q chars of u, in a buffer holding u from ls on. */
  lemma HeldRStrip(c: seq<char>, ls: nat, u: seq<char>, q: nat)
    requires Holds(c, ls, u) && q <= |u|
    ensures ls + q <= |c| && c[ls..RStripEnd(c, ls, ls + q)] == RTrim(u[..q])
  {
    HoldsSlice(c, ls, u, 0, q);
    RStripSlice(c, ls, ls + q);
  }

  lemma ContinuationLineMeaning(c: seq<char>, ls: nat, u: seq<char>)
    requires Holds(c, ls, u) && NoNul(u)
    ensures ContinuationLine(c, ls) == Continuation(RTrim(u[..FirstStop(u, [])]))
  {
    HeldFind(c, ls, u, []);
    HeldRStrip(c, ls, u, FirstStop(u, []));
  }

  lemma SectionLineMeaning(c: seq<char>, ls: nat, u: seq<char>)
    requires Holds(c, ls, u) && NoNul(u) && u != []
    ensures c[ls] != NUL && SectionLine(c, ls) == SectionMeaning(u[1..])
  {
    var p := FirstStop(u[1..], [']']);
    var e := ls + 1 + p;
    SectionScan(c, ls, u, p, e);
    SectionStop(c, ls, u, p, e);
    SectionName(c, ls, u, p, e);
    SectionLineUnfold(c, ls, e);
    if p < |u| - 1 && u[1 + p] == ']' {
      assert SectionMeaning(u[1..]).Section? && SectionMeaning(u[1..]).name == u[1..][..p];
    }
  }

  /** Where the scan for ']' after the opening '[' of a held line stops. */
  lemma SectionScan(c: seq<char>, ls: nat, u: seq<char>, p: nat, e: nat)
    requires Holds(c, ls, u) && NoNul(u) && u != []
    requires p == FirstStop(u[1..], [']']) && e == ls + 1 + p
    ensures ls < |c| && c[ls] != NUL && c[|c| - 1] == NUL
    ensures Terminated(c, ls + 1) && FindCharsOrComment(c, ls + 1, [']']) == e
  {
    HoldsSlice(c, ls, u, 0, 1);
    HoldsSlice(c, ls, u, 1, |u|);
    FindIsFirstStop(c, ls + 1, u[1..], [']']);
  }

  /** The character the scan for ']' stops at, and the name before it. */
  lemma SectionStop(c: seq<char>, ls: nat, u: seq<char>, p: nat, e: nat)
    requires Holds(c, ls, u) && u != []
    requires p <= |u| - 1 && e == ls + 1 + p
    ensures e < |c| && c[e] == if p < |u| - 1 then u[1 + p] else NUL
  {
    HoldsSlice(c, ls, u, 1 + p, 1 + p);
  }

  lemma SectionName(c: seq<char>, ls: nat, u: seq<char>, p: nat, e: nat)
    requires Holds(c, ls, u) && u != []
    requires p <= |u| - 1 && e == ls + 1 + p
    ensures e < |c| && c[ls + 1..e] == u[1..][..p]
  {
    HoldsSlice(c, ls, u, 1, 1 + p);
    assert u[1..1 + p] == u[1..][..p];
  }

  /** SectionLine, once the scan for ']' has stopped at p. */
  lemma SectionLineUnfold(c: seq<char>, ls: nat, p: nat)
    requires ls < |c| && c[|c| - 1] == NUL && c[ls] != NUL
    requires Terminated(c, ls + 1) && FindCharsOrComment(c, ls + 1, [']']) == p
    ensures if c[p] == ']' then SectionLine(c, ls).Section? && SectionLine(c, ls).name == c[ls + 1..p]
      else SectionLine(c, ls).UnclosedSection?
  {
  }

  lemma PairLineMeaning(c: seq<char>, ls: nat, u: seq<char>)
    requires Holds(c, ls, u) && NoNul(u)
    ensures PairLine(c, ls) == PairMeaning(u)
  {
    var p := FirstStop(u, ['=', ':']);
    if p < |u| && u[p] in ['=', ':'] {
      PairNameHeld(c, ls, u, p);
      PairValueHeld(c, ls, u, p);
    } else {
      PairSeparator(c, ls, u, p);
      assert c[ls + p] == if p < |u| then u[p] else NUL;
      PairLineNoSeparator(c, ls, ls + p);
      PairMeaningSplit(u, p);
    }
  }

  /** Where the scan for a separator stops in a buffer holding u, and what
      it finds there. */
  lemma PairSeparator(c: seq<char>, ls: nat, u: seq<char>, p: nat)
    requires Holds(c, ls, u) && NoNul(u) && p == FirstStop(u, ['=', ':'])
    ensures Terminated(c, ls) && FindCharsOrComment(c, ls, ['=', ':']) == ls + p
    ensures ls + p < |c| - 1 <==> p < |u|
    ensures ls + p < |c| && c[ls + p] == if p < |u| then u[p] else NUL
  {
    HeldFind(c, ls, u, ['=', ':']);
    HoldsSlice(c, ls, u, p, p);
  }

  /** The name of a pair, cut from the buffer and from the content alike. */
  lemma PairNameHeld(c: seq<char>, ls: nat, u: seq<char>, p: nat)
    requires Holds(c, ls, u) && NoNul(u) && p == FirstStop(u, ['=', ':']) && p < |u| && u[p] in ['=', ':']
    ensures PairLine(c, ls).Pair? && PairMeaning(u).Pair? && PairLine(c, ls).name == PairMeaning(u).name
  {
    assert PairLine(c, ls).Pair? && PairLine(c, ls).name == c[ls..RStripEnd(c, ls, ls + p)] by {
      PairSeparator(c, ls, u, p);
      assert c[ls + p] == u[p];
      PairLineUnfold(c, ls, ls + p);
    }
    assert c[ls..RStripEnd(c, ls, ls + p)] == RTrim(u[..p]) by {
      HeldRStrip(c, ls, u, p);
    }
    assert PairMeaning(u).Pair? && PairMeaning(u).name == RTrim(u[..p]) by {
      PairMeaningSplit(u, p);
    }
  }

  /** The value of a pair, cut from the buffer and from the content alike. */
  lemma PairValueHeld(c: seq<char>, ls: nat, u: seq<char>, p: nat)
    requires Holds(c, ls, u) && NoNul(u) && p == FirstStop(u, ['=', ':']) && p < |u| && u[p] in ['=', ':']
    ensures PairLine(c, ls).Pair? && PairMeaning(u).Pair? && PairLine(c, ls).value == PairMeaning(u).value
  {
    assert PairLine(c, ls).Pair? && PairLine(c, ls).value == PairValue(c, ls + p + 1) by {
      PairSeparator(c, ls, u, p);
      assert c[ls + p] == u[p];
      PairLineValue(c, ls, ls + p, ls + p + 1);
    }
    assert PairValue(c, ls + p + 1) == Trim(u[p + 1..][..FirstStop(u[p + 1..], [])]) by {
      HeldValue(c, ls, u, p);
    }
    assert PairMeaning(u).Pair? && PairMeaning(u).value == Trim(u[p + 1..][..FirstStop(u[p + 1..], [])]) by {
      PairMeaningSplit(u, p);
    }
  }

  /** PairLine, once the scan for a separator has stopped at a separator p;
      stated field by field, which is how the proofs below compare line kinds. */
  lemma PairLineUnfold(c: seq<char>, ls: nat, p: nat)
    requires p < |c| && c[|c| - 1] == NUL && Terminated(c, ls) && FindCharsOrComment(c, ls, ['=', ':']) == p
    requires c[p] == '=' || c[p] == ':'
    ensures p + 1 < |c|
    ensures PairLine(c, ls).Pair?
    ensures PairLine(c, ls).name == c[ls..RStripEnd(c, ls, p)]
  {
  }

  lemma PairLineValue(c: seq<char>, ls: nat, p: nat, v: nat)
    requires p < |c| && c[|c| - 1] == NUL && Terminated(c, ls) && FindCharsOrComment(c, ls, ['=', ':']) == p
    requires c[p] == '=' || c[p] == ':'
    requires v == p + 1
    ensures v < |c|
    ensures PairLine(c, ls).Pair?
    ensures PairLine(c, ls).value == PairValue(c, v)
  {
  }

  /** PairLine, once the scan for a separator has stopped elsewhere. */
  lemma PairLineNoSeparator(c: seq<char>, ls: nat, p: nat)
    requires p < |c| && c[|c| - 1] == NUL && Terminated(c, ls) && FindCharsOrComment(c, ls, ['=', ':']) == p
    requires c[p] != '=' && c[p] != ':'
    ensures PairLine(c, ls).MissingSeparator?
  {
  }

  lemma PairMeaningSplit(u: seq<char>, p: nat)
    requires p == FirstStop(u, ['=', ':'])
    ensures var m := PairMeaning(u);
      if p < |u| && u[p] in ['=', ':'] then
        var rest := u[p + 1..];
        m.Pair? && m.name == RTrim(u[..p]) && m.value == Trim(rest[..FirstStop(rest, [])])
      else m.MissingSeparator?
  {
  }

  /** The value of a pair whose separator is u[p], in a buffer holding u
      from ls on. */
  lemma HeldValue(c: seq<char>, ls: nat, u: seq<char>, p: nat)
    requires Holds(c, ls, u) && NoNul(u) && p < |u|
    ensures var rest := u[p + 1..]; PairValue(c, ls + p + 1) == Trim(rest[..FirstStop(rest, [])])
  {
    HoldsSlice(c, ls, u, p + 1, |u|);
    NoNulSlice(u, p + 1, |u|);
    PairValueMeaning(c, ls + p + 1, u[p + 1..]);
  }

  /** The branch ClassifyContent takes on a buffer holding u from ls on is
      the one Meaning gives u. */
  lemma ClassifyContentMeaning(c: seq<char>, ls: nat, h: bool, u: seq<char>)
    requires Holds(c, ls, u) && NoNul(u)
    ensures ClassifyContent(c, ls, h) == Meaning(u, h && ls > 0)
  {
    HoldsSlice(c, ls, u, 0, 0);
    if u == [] || u[0] in StartCommentPrefixes {
    } else if h && ls > 0 {
      ContinuationLineMeaning(c, ls, u);
    } else if u[0] == '[' {
      SectionLineMeaning(c, ls, u);
    } else {
      PairLineMeaning(c, ls, u);
    }
  }

  /** What BOM skipping, ini_lskip and ini_rstrip leave of a line: its
      content, starting after the beginning exactly when it is indented. */
  lemma StrippedLine(t: seq<char>, lineno: nat)
    requires NoNul(t)
    ensures var b := t + [NUL];
      var s0 := if lineno == 1 && HasBom(t) then 3 else 0;
      Terminated(b, s0) &&
      var ls := LSkip(b, s0);
      var e := RStripEnd(b, ls, |t|);
      ls <= e <= |t| &&
      (t[..e] + [NUL])[ls..] == Content(t, lineno) + [NUL] && NoNul(Content(t, lineno)) &&
      (ls > 0 <==> Indented(t, lineno))
  {
    var s0 := if lineno == 1 && HasBom(t) then 3 else 0;
    LeadSkip(t, lineno, s0);
    var ls := LSkip(t + [NUL], s0);
    TailStrip(t, ls, LTrim(Body(t, lineno)));
  }

  /** The BOM test and ini_lskip skip what LTrim removes from the body. */
  lemma LeadSkip(t: seq<char>, lineno: nat, s0: nat)
    requires NoNul(t) && s0 == if lineno == 1 && HasBom(t) then 3 else 0
    ensures Terminated(t + [NUL], s0)
    ensures var ls := LSkip(t + [NUL], s0);
      ls <= |t| && t[ls..] == LTrim(Body(t, lineno)) && (ls > 0 <==> Indented(t, lineno))
  {
    var b := t + [NUL];
    var body := Body(t, lineno);
    assert b[s0..|t|] == body && b[|t|] == NUL;
    assert Terminated(b, s0) by { NulAt(b, s0, |t|); }
    LSkipIsLTrim(b, s0, |t|);
    var lt := LTrim(body);
    LTrimSuffix(body);
    var ls := LSkip(b, s0);
    assert ls == |t| - |lt| && lt == body[|body| - |lt|..];
    assert t[ls..] == t[s0..][ls - s0..];
    if lineno == 1 && HasBom(t) {
      assert |lt| <= |t| - 3;
    } else {
      assert body == t;
      LTrimShorter(t);
    }
  }

  /** ini_rstrip to the end of the line, from where the content starts. */
  lemma TailStrip(t: seq<char>, ls: nat, lt: seq<char>)
    requires NoNul(t) && ls <= |t| && t[ls..] == lt
    ensures var e := RStripEnd(t + [NUL], ls, |t|);
      ls <= e <= |t| && (t[..e] + [NUL])[ls..] == RTrim(lt) + [NUL] && NoNul(RTrim(lt))
  {
    var b := t + [NUL];
    assert b[ls..|t|] == lt;
    RStripSlice(b, ls, |t|);
    var e := RStripEnd(b, ls, |t|);
    Terminate(t, ls, e);
    NoNulSlice(t, ls, e);
  }

  lemma NoNulSlice(s: seq<char>, i: nat, j: nat)
    requires NoNul(s) && i <= j <= |s|
    ensures NoNul(s[i..j])
  {
  }

  lemma LTrimShorter(s: seq<char>)
    ensures |LTrim(s)| < |s| <==> s != [] && IsSpace(s[0])
  {
    if s != [] && IsSpace(s[0]) {
      assert |LTrim(s)| <= |s[1..]|;
    }
  }

  /** Slicing a line with a terminator appended. */
  lemma Terminate(t: seq<char>, i: nat, j: nat)
    requires i <= j <= |t|
    ensures (t + [NUL])[i..j] == t[i..j] && (t[..j] + [NUL])[i..] == t[i..j] + [NUL]
  {
  }

  /** Classify, which scans the line buffer as the source does, agrees with
      Meaning on the trimmed content of the line. */
  lemma ClassifyMeaning(t: seq<char>, lineno: nat, h: bool)
    requires NoNul(t)
    ensures Classify(t, lineno, h) == Meaning(Content(t, lineno), h && Indented(t, lineno))
  {
    StrippedLine(t, lineno);
    var b := t + [NUL];
    var s0 := if lineno == 1 && HasBom(t) then 3 else 0;
    var ls := LSkip(b, s0);
    var e := RStripEnd(b, ls, |t|);
    HoldsTail(t[..e] + [NUL], ls, Content(t, lineno));
    ClassifyContentMeaning(t[..e] + [NUL], ls, h, Content(t, lineno));
  }

  /* ---- One line's effect on the parse state ---- */

  lemma StepMeaning(st: State, line: RawLine, accept: Event -> bool)
    requires NoNul(line.text)
    ensures var n := st.lineno + 1;
      Step(st, line, accept) ==
        Apply(Counted(st, line), Meaning(Content(line.text, n), st.prevName != [] && Indented(line.text, n)), accept)
  {
    var n := st.lineno + 1;
    var kind := Classify(line.text, n, st.prevName != []);
    assert Step(st, line, accept) == Apply(Counted(st, line), kind, accept);
    ClassifyMeaning(line.text, n, st.prevName != []);
  }

  /* In the lemmas below, u is the content of the line (Content) and cont
     says whether it is read as a continuation: a previous name exists and
     the line is indented. */

  /** A blank line, or one whose content starts with ';' or '#', makes no
      handler call and changes nothing but the line count (lines 183-185). */
  lemma CommentLine(st: State, line: RawLine, accept: Event -> bool, u: seq<char>)
    requires NoNul(line.text) && u == Content(line.text, st.lineno + 1)
    requires u == [] || u[0] in StartCommentPrefixes
    ensures Step(st, line, accept) == Counted(st, line)
  {
    assert Step(st, line, accept) == Apply(Counted(st, line), Comment, accept) by {
      StepMeaning(st, line, accept);
    }
  }

  /** An indented line after a pair: one handler call with the previous
      name and the line cut at an inline comment and right-trimmed; the
      section and the previous name stay (lines 187-197). */
  lemma ContinuationLineEffect(st: State, line: RawLine, accept: Event -> bool, u: seq<char>)
    requires NoNul(line.text) && u == Content(line.text, st.lineno + 1)
    requires u != [] && u[0] !in StartCommentPrefixes
    requires st.prevName != [] && Indented(line.text, st.lineno + 1)
    ensures var n := st.lineno + 1;
      var ev := Event(st.section, st.prevName, RTrim(u[..FirstStop(u, [])]));
      Step(st, line, accept) ==
        st.(lineno := n, error := Record(st.error, n, line.discarded || !accept(ev)), events := st.events + [ev])
  {
    var v := RTrim(u[..FirstStop(u, [])]);
    assert Step(st, line, accept) == Apply(Counted(st, line), Continuation(v), accept) by {
      StepMeaning(st, line, accept);
    }
    RecordTwice(st.error, st.lineno + 1, line.discarded, !accept(Event(st.section, st.prevName, v)));
  }

  /** A "[name]" line: the section becomes the text between the brackets,
      cut to MaxSection - 1 chars, the previous name is forgotten and no
      handler call is made (lines 199-212). */
  lemma SectionHeaderLine(st: State, line: RawLine, accept: Event -> bool, u: seq<char>, inner: seq<char>, p: nat)
    requires NoNul(line.text) && u == Content(line.text, st.lineno + 1)
    requires u != [] && u[0] == '[' && !(st.prevName != [] && Indented(line.text, st.lineno + 1))
    requires inner == u[1..] && p == FirstStop(inner, [']']) && p < |inner| && inner[p] == ']'
    ensures Step(st, line, accept) == Counted(st, line).(section := Truncate(inner[..p], MaxSection - 1), prevName := [])
  {
    assert Step(st, line, accept) == Apply(Counted(st, line), Section(inner[..p]), accept) by {
      SectionMeaningIs(u, st.prevName != [] && Indented(line.text, st.lineno + 1));
      StepMeaning(st, line, accept);
    }
  }

  /** A '[' line with no ']' before the end or an inline comment: an error,
      and the section stays (lines 213-216). */
  lemma UnclosedSectionLine(st: State, line: RawLine, accept: Event -> bool, u: seq<char>, inner: seq<char>, p: nat)
    requires NoNul(line.text) && u == Content(line.text, st.lineno + 1)
    requires u != [] && u[0] == '[' && !(st.prevName != [] && Indented(line.text, st.lineno + 1))
    requires inner == u[1..] && p == FirstStop(inner, [']']) && !(p < |inner| && inner[p] == ']')
    ensures Step(st, line, accept) == st.(lineno := st.lineno + 1, error := Record(st.error, st.lineno + 1, true))
  {
    assert Step(st, line, accept) == Apply(Counted(st, line), UnclosedSection, accept) by {
      SectionMeaningIs(u, st.prevName != [] && Indented(line.text, st.lineno + 1));
      StepMeaning(st, line, accept);
    }
    RecordTwice(st.error, st.lineno + 1, line.discarded, true);
  }

  /** A name[=:]value line: split at the first '=' or ':' before any inline
      comment, one handler call with the current section, the right-trimmed
      name and the trimmed value cut at an inline comment; the name, cut to
      MaxName - 1 chars, becomes the previous name (lines 218-238). */
  lemma PairLineEffect(st: State, line: RawLine, accept: Event -> bool, u: seq<char>, p: nat)
    requires NoNul(line.text) && u == Content(line.text, st.lineno + 1)
    requires u != [] && u[0] !in StartCommentPrefixes && u[0] != '['
    requires !(st.prevName != [] && Indented(line.text, st.lineno + 1))
    requires p == FirstStop(u, ['=', ':']) && p < |u| && u[p] in ['=', ':']
    ensures var n := st.lineno + 1;
      var rest := u[p + 1..];
      var name := RTrim(u[..p]);
      var ev := Event(st.section, name, Trim(rest[..FirstStop(rest, [])]));
      Step(st, line, accept) ==
        st.(lineno := n, prevName := Truncate(name, MaxName - 1),
            error := Record(st.error, n, line.discarded || !accept(ev)), events := st.events + [ev])
  {
    var rest := u[p + 1..];
    var name := RTrim(u[..p]);
    var value := Trim(rest[..FirstStop(rest, [])]);
    assert Step(st, line, accept) == Apply(Counted(st, line), Pair(name, value), accept) by {
      PairMeaningIs(u, st.prevName != [] && Indented(line.text, st.lineno + 1));
      StepMeaning(st, line, accept);
    }
    ApplyPair(st, line, accept, name, value);
  }

  lemma ApplyPair(st: State, line: RawLine, accept: Event -> bool, name: seq<char>, value: seq<char>)
    ensures var n := st.lineno + 1; var ev := Event(st.section, name, value);
      Apply(Counted(st, line), Pair(name, value), accept) ==
        st.(lineno := n, prevName := Truncate(name, MaxName - 1),
            error := Record(st.error, n, line.discarded || !accept(ev)), events := st.events + [ev])
  {
    RecordTwice(st.error, st.lineno + 1, line.discarded, !accept(Event(st.section, name, value)));
  }

  /** Any other non-blank line has no separator: an error and no handler
      call (lines 239-249). */
  lemma MissingSeparatorLine(st: State, line: RawLine, accept: Event -> bool, u: seq<char>, p: nat)
    requires NoNul(line.text) && u == Content(line.text, st.lineno + 1)
    requires u != [] && u[0] !in StartCommentPrefixes && u[0] != '['
    requires !(st.prevName != [] && Indented(line.text, st.lineno + 1))
    requires p == FirstStop(u, ['=', ':']) && !(p < |u| && u[p] in ['=', ':'])
    ensures Step(st, line, accept) == st.(lineno := st.lineno + 1, error := Record(st.error, st.lineno + 1, true))
  {
    assert Step(st, line, accept) == Apply(Counted(st, line), MissingSeparator, accept) by {
      PairMeaningIs(u, st.prevName != [] && Indented(line.text, st.lineno + 1));
      StepMeaning(st, line, accept);
    }
    RecordTwice(st.error, st.lineno + 1, line.discarded, true);
  }

  lemma SectionMeaningIs(u: seq<char>, cont: bool)
    requires u != [] && u[0] == '[' && !cont
    ensures Meaning(u, cont) == SectionMeaning(u[1..])
    ensures var inner := u[1..]; var p := FirstStop(inner, [']']);
      if p < |inner| && inner[p] == ']' then SectionMeaning(inner) == Section(inner[..p])
      else SectionMeaning(inner) == UnclosedSection
  {
  }

  lemma PairMeaningIs(u: seq<char>, cont: bool)
    requires u != [] && u[0] !in StartCommentPrefixes && u[0] != '[' && !cont
    ensures Meaning(u, cont) == PairMeaning(u)
    ensures var p := FirstStop(u, ['=', ':']);
      if p < |u| && u[p] in ['=', ':'] then
        var rest := u[p + 1..];
        PairMeaning(u) == Pair(RTrim(u[..p]), Trim(rest[..FirstStop(rest, [])]))
      else PairMeaning(u) == MissingSeparator
  {
  }

  lemma RecordTwice(error: nat, n: nat, a: bool, b: bool)
    ensures Record(Record(error, n, a), n, b) == Record(error, n, a || b)
  {
  }

  /* ---- The returned error ---- */

  /** Whether reading line in state st makes the source set `error`: a
      discarded tail, a failing handler call, an unclosed section or a
      missing separator. */
  predicate LineFails(st: State, line: RawLine, accept: Event -> bool) {
    line.discarded ||
    match Classify(line.text, st.lineno + 1, st.prevName != [])
    case Comment => false
    case Continuation(v) => !accept(Event(st.section, st.prevName, v))
    case Section(_) => false
    case UnclosedSection => true
    case Pair(name, v) => !accept(Event(st.section, name, v))
    case MissingSeparator => true
  }

  /** Every assignment to error is guarded by `!error`: one turn sets it to
      its line number when it fails and error was 0, and leaves it otherwise. */
  lemma StepError(st: State, line: RawLine, accept: Event -> bool)
    ensures Step(st, line, accept).error == Record(st.error, st.lineno + 1, LineFails(st, line, accept))
  {
    var n := st.lineno + 1;
    match Classify(line.text, n, st.prevName != [])
    case Comment =>
    case Continuation(v) =>
    case Section(_) =>
    case UnclosedSection =>
    case Pair(name, v) =>
    case MissingSeparator =>
  }

  /** The number of the first line in lines that fails, counting on from
      st.lineno, or 0 when none does. */
  function FirstFailing(lines: seq<RawLine>, st: State, accept: Event -> bool): (n: nat)
    ensures n == 0 || st.lineno < n <= st.lineno + |lines|
    decreases |lines|
  {
    if lines == [] then 0
    else if LineFails(st, lines[0], accept) then st.lineno + 1
    else
      FirstFailing(lines[1..], Step(st, lines[0], accept), accept)
  }

  /** From a clean state, the returned error is the number of the first line
      that fails, and 0 exactly when no line fails. */
  lemma {:induction false} FirstError(lines: seq<RawLine>, st: State, accept: Event -> bool)
    requires st.error == 0
    ensures RunLines(lines, st, accept).error == FirstFailing(lines, st, accept)
    decreases |lines|
  {
    if lines != [] {
      var st' := Step(st, lines[0], accept);
      StepError(st, lines[0], accept);
      if !LineFails(st, lines[0], accept) {
        FirstError(lines[1..], st', accept);
      }
    }
  }

  /** ini_parse_string_length returns the number of the first failing line,
      or 0, after counting every line of the input once. */
  lemma ParseResult(input: seq<char>, accept: Event -> bool)
    ensures Parse(input, accept).lineno == |Lines(input)|
    ensures Parse(input, accept).error == FirstFailing(Lines(input), Init(), accept)
  {
    FirstError(Lines(input), Init(), accept);
  }

  /* ---- The discard loop after an over-long line ---- */

  /** What follows the first newline of s; nothing when s has none. */
  function AfterNewline(s: seq<char>): (r: seq<char>)
    ensures |r| < |s| || r == []
    ensures r == s[|s| - |r|..]
  {
    if s == [] then [] else if s[0] == '\n' then s[1..] else AfterNewline(s[1..])
  }

  lemma {:induction false} AfterNewlineSkip(s: seq<char>, n: nat)
    requires n <= |s| && forall k :: 0 <= k < n ==> s[k] != '\n'
    ensures AfterNewline(s) == AfterNewline(s[n..])
    decreases n
  {
    if n > 0 {
      assert s[1..][n - 1..] == s[n..];
      AfterNewlineSkip(s[1..], n - 1);
    }
  }

  /** A chunk with no terminator in it ends the line exactly when its last
      char is a newline. */
  lemma EndsLineNoNul(chunk: seq<char>)
    requires NoNul(chunk)
    ensures CLen(chunk) == |chunk|
    ensures EndsLine(chunk) <==> chunk != [] && chunk[|chunk| - 1] == '\n'
  {
  }

  /** On input with no NUL byte, the discard loop throws away exactly the
      rest of the current line, newline included (lines 163-171). */
  lemma {:induction false} DiscardToEndOfLine(rest: seq<char>)
    requires NoNul(rest)
    ensures Discard(rest) == AfterNewline(rest)
    decreases |rest|
  {
    if rest != [] {
      var n := ChunkLen(rest, AbyssSize - 1);
      var chunk := rest[..n];
      NoNulSlice(rest, 0, n);
      assert chunk == rest[0..n];
      EndsLineNoNul(chunk);
      if EndsLine(chunk) {
        assert rest[n - 1] == '\n';
        AfterNewlineSkip(rest, n - 1);
        assert rest[n - 1..][1..] == rest[n..];
      } else {
        assert n == |rest| || rest[n - 1] != '\n';
        assert forall k :: 0 <= k < n ==> rest[k] != '\n';
        AfterNewlineSkip(rest, n);
        NoNulSlice(rest, n, |rest|);
        DiscardToEndOfLine(rest[n..]);
      }
    }
  }

  /* ---- The line cut against the newlines of the input ---- */

  /** The first line of s, newline included, is s[..m] where rest is
      AfterNewline(s) and m is |s| - |rest|: it ends at the first newline,
      or at the end of s when s has none. */
  lemma {:induction false} FirstLine(s: seq<char>, rest: seq<char>, m: nat)
    requires s != [] && rest == AfterNewline(s) && m == |s| - |rest|
    ensures 0 < m && (s[m - 1] == '\n' || rest == [])
    ensures forall k :: 0 <= k < m - 1 ==> s[k] != '\n'
    decreases |s|
  {
    if s[0] != '\n' && s[1..] != [] {
      FirstLine(s[1..], rest, m - 1);
      assert forall k :: 1 <= k < m - 1 ==> s[k] == s[1..][k - 1];
    }
  }

  /** A chunk of at most cap chars stops at the end of the first line. */
  lemma ChunkLenFirstLine(s: seq<char>, rest: seq<char>, m: nat, cap: nat)
    requires s != [] && rest == AfterNewline(s) && m == |s| - |rest|
    ensures ChunkLen(s, cap) == Min(cap, m)
  {
    FirstLine(s, rest, m);
  }

  /** The lines of s cut at each newline, as a reader with an unbounded
      buffer would return them; a line of MaxLine chars or more, newline
      included, is cut to its first MaxLine - 1 chars and marked
      discarded. */
  function NewlineLines(s: seq<char>): seq<RawLine>
    decreases |s|
  {
    if s == [] then []
    else
      var rest := AfterNewline(s);
      var m := |s| - |rest|;
      (if m < MaxLine then [RawLine(s[..m], false)] else [RawLine(s[..MaxLine - 1], true)])
        + NewlineLines(rest)
  }

  /** The first of the newline-cut lines, when it fits the buffer. */
  lemma ShortHead(s: seq<char>, rest: seq<char>, m: nat)
    requires s != [] && rest == AfterNewline(s) && m == |s| - |rest| < MaxLine
    ensures NewlineLines(s) == [RawLine(s[..m], false)] + NewlineLines(rest)
    ensures NewlineLines(rest) == [] <==> rest == []
  {
  }

  /** The first of the newline-cut lines, when it does not fit the buffer. */
  lemma LongHead(s: seq<char>, rest: seq<char>, m: nat)
    requires s != [] && rest == AfterNewline(s) && m == |s| - |rest| >= MaxLine
    ensures NewlineLines(s) == [RawLine(s[..MaxLine - 1], true)] + NewlineLines(rest)
  {
  }

  /** Where the first line of s ends. */
  lemma FirstLineEnd(s: seq<char>, rest: seq<char>, m: nat)
    requires s != [] && rest == AfterNewline(s) && m == |s| - |rest|
    ensures 0 < m && (s[m - 1] == '\n' || rest == [])
  {
    FirstLine(s, rest, m);
  }

  /** One turn of the reader: the first line and what the scan goes on
      with. */
  lemma LinesHead(rest: seq<char>)
    requires rest != []
    ensures var n := ChunkLen(rest, MaxLine - 1);
      var text := rest[..n][..CLen(rest[..n])];
      var overlong := |text| == MaxLine - 1 && text[MaxLine - 2] != '\n';
      Lines(rest) == [RawLine(text, overlong && rest[n..] != [])] +
        Lines(if overlong then Discard(rest[n..]) else rest[n..])
  {
  }

  /** On input with no NUL byte the chunk the reader returns is the line's
      text. */
  lemma ChunkIsText(s: seq<char>, n: nat)
    requires NoNul(s) && n <= |s|
    ensures s[..n][..CLen(s[..n])] == s[..n]
  {
    NoNulSlice(s, 0, n);
    assert s[..n] == s[0..n];
    EndsLineNoNul(s[..n]);
  }

  /** One turn of the reader on a chunk that is not over-long. */
  lemma LinesCutWhole(s: seq<char>, n: nat)
    requires NoNul(s) && s != [] && n == ChunkLen(s, MaxLine - 1)
    requires !(n == MaxLine - 1 && s[n - 1] != '\n')
    ensures Lines(s) == [RawLine(s[..n], false)] + Lines(s[n..])
  {
    ChunkIsText(s, n);
    LinesHead(s);
  }

  /** One turn of the reader on an over-long chunk: the rest goes to the
      discard loop. */
  lemma LinesCutOverlong(s: seq<char>, n: nat)
    requires NoNul(s) && s != [] && n == ChunkLen(s, MaxLine - 1)
    requires n == MaxLine - 1 && s[n - 1] != '\n'
    ensures Lines(s) == [RawLine(s[..n], n < |s|)] + Lines(Discard(s[n..]))
  {
    ChunkIsText(s, n);
    LinesHead(s);
  }

  /** The first line of s fits the buffer: it is read whole. */
  lemma ShortFirstLine(s: seq<char>, rest: seq<char>, m: nat)
    requires NoNul(s) && s != [] && rest == AfterNewline(s) && m == |s| - |rest| < MaxLine
    ensures Lines(s) == [RawLine(s[..m], false)] + Lines(rest)
  {
    FirstLineEnd(s, rest, m);
    ChunkLenFirstLine(s, rest, m, MaxLine - 1);
    if m == MaxLine - 1 && s[m - 1] != '\n' {
      LinesCutOverlong(s, m);
      assert rest == [] && s[m..] == [];
    } else {
      LinesCutWhole(s, m);
      assert s[m..] == rest;
    }
  }

  /** The first line of s does not fit the buffer: its first MaxLine - 1
      chars are read and the discard loop skips to after its newline. */
  lemma LongFirstLine(s: seq<char>, rest: seq<char>, m: nat)
    requires NoNul(s) && s != [] && rest == AfterNewline(s) && m == |s| - |rest| >= MaxLine
    ensures Lines(s) == [RawLine(s[..MaxLine - 1], true)] + Lines(rest)
  {
    var n := MaxLine - 1;
    FirstLine(s, rest, m);
    ChunkLenFirstLine(s, rest, m, n);
    LinesCutOverlong(s, n);
    NoNulSlice(s, n, |s|);
    DiscardToEndOfLine(s[n..]);
    AfterNewlineSkip(s, n);
  }

  /** On input with no NUL byte, the string reader and its discard loop
      cut the input exactly at its newlines (lines 141-171). */
  lemma {:induction false} LinesAtNewlines(s: seq<char>)
    requires NoNul(s)
    ensures Lines(s) == NewlineLines(s)
    decreases |s|
  {
    if s != [] {
      var rest := AfterNewline(s);
      var m := |s| - |rest|;
      NoNulSlice(s, m, |s|);
      assert rest == s[m..];
      LinesAtNewlines(rest);
      if m < MaxLine {
        ShortFirstLine(s, rest, m);
        ShortHead(s, rest, m);
      } else {
        LongFirstLine(s, rest, m);
        LongHead(s, rest, m);
      }
    }
  }

  /** A line of MaxLine - 1 chars or more with no newline among them keeps
      its first MaxLine - 1 chars; its rest is discarded exactly when more
      input follows, and the next line starts after its newline. */
  lemma OverlongLine(s: seq<char>)
    requires NoNul(s) && MaxLine - 1 <= |s|
    requires forall k :: 0 <= k < MaxLine - 1 ==> s[k] != '\n'
    ensures Lines(s)[0] == RawLine(s[..MaxLine - 1], |s| > MaxLine - 1)
    ensures Lines(s)[1..] == Lines(AfterNewline(s))
  {
    var rest := AfterNewline(s);
    var m := |s| - |rest|;
    FirstLine(s, rest, m);
    if m < MaxLine {
      ShortFirstLine(s, rest, m);
    } else {
      LongFirstLine(s, rest, m);
    }
  }

  /** Every line of s, newline included, fits in MaxLine - 1 chars. */
  predicate ShortLines(s: seq<char>)
    decreases |s|
  {
    s == [] || (|s| - |AfterNewline(s)| < MaxLine && ShortLines(AfterNewline(s)))
  }

  /** The texts of lines, one after the other. */
  function Joined(lines: seq<RawLine>): seq<char> {
    if lines == [] then [] else lines[0].text + Joined(lines[1..])
  }

  /** A line read whole: not discarded, not empty, with no newline before
      its last char, and ending in a newline unless it is the last. */
  predicate WholeLine(line: RawLine, last: bool) {
    !line.discarded && line.text != [] &&
    (forall k :: 0 <= k < |line.text| - 1 ==> line.text[k] != '\n') &&
    (!last ==> line.text[|line.text| - 1] == '\n')
  }

  lemma FirstLineWhole(s: seq<char>, rest: seq<char>, m: nat)
    requires s != [] && rest == AfterNewline(s) && m == |s| - |rest|
    ensures WholeLine(RawLine(s[..m], false), rest == [])
  {
    FirstLine(s, rest, m);
  }

  lemma Rejoin(s: seq<char>, m: nat)
    requires m <= |s|
    ensures s[..m] + s[m..] == s
  {
  }

  /** When every line is short, the texts put back together give the
      input. */
  lemma {:induction false} ShortLinesJoined(s: seq<char>)
    requires ShortLines(s)
    ensures Joined(NewlineLines(s)) == s
    decreases |s|
  {
    if s != [] {
      var rest := AfterNewline(s);
      var m := |s| - |rest|;
      var lines := NewlineLines(s);
      ShortHead(s, rest, m);
      assert lines[0].text == s[..m] && lines[1..] == NewlineLines(rest);
      ShortLinesJoined(rest);
      assert Joined(lines) == s[..m] + rest;
      assert rest == s[m..];
      Rejoin(s, m);
    }
  }

  /** A line read whole ahead of lines read whole. */
  lemma WholeCons(head: RawLine, tail: seq<RawLine>)
    requires WholeLine(head, tail == [])
    requires forall i :: 0 <= i < |tail| ==> WholeLine(tail[i], i == |tail| - 1)
    ensures var lines := [head] + tail;
      forall i :: 0 <= i < |lines| ==> WholeLine(lines[i], i == |lines| - 1)
  {
    var lines := [head] + tail;
    forall i | 0 <= i < |lines|
      ensures WholeLine(lines[i], i == |lines| - 1)
    {
      if i > 0 {
        assert lines[i] == tail[i - 1];
      }
    }
  }

  /** When every line is short, each line is read whole. */
  lemma {:induction false} ShortLinesWhole(s: seq<char>)
    requires ShortLines(s)
    ensures var lines := NewlineLines(s);
      forall i :: 0 <= i < |lines| ==> WholeLine(lines[i], i == |lines| - 1)
    decreases |s|
  {
    if s != [] {
      var rest := AfterNewline(s);
      var m := |s| - |rest|;
      ShortHead(s, rest, m);
      ShortLinesWhole(rest);
      FirstLineWhole(s, rest, m);
      WholeCons(RawLine(s[..m], false), NewlineLines(rest));
    }
  }

  /** When every line is short, the cut loses nothing: the texts put back
      together give the input, and each line is read whole. */
  lemma ShortLinesCut(s: seq<char>)
    requires NoNul(s) && ShortLines(s)
    ensures var lines := Lines(s);
      Joined(lines) == s && forall i :: 0 <= i < |lines| ==> WholeLine(lines[i], i == |lines| - 1)
  {
    LinesAtNewlines(s);
    ShortLinesJoined(s);
    ShortLinesWhole(s);
  }

  /* ---- Finding: the end-of-line test of the discard loop ---- */

  /** The index line 168 reads, abyss[strlen(abyss) - 1], after the reader
      put chunk into abyss; -1 when the chunk starts with a NUL byte. */
  function AbyssTestIndex(chunk: seq<char>): (k: int)
    ensures -1 <= k < |chunk|
    ensures k >= 0 ==> NoNul(chunk[..k + 1])
  {
    CLen(chunk) - 1
  }

  /** As written, the test reads inside abyss exactly when the chunk does not
      start with a NUL byte; where it does, the guarded EndsLine agrees. */
  lemma AbyssIndexAsWritten(chunk: seq<char>)
    requires 0 < |chunk| < AbyssSize
    ensures 0 <= AbyssTestIndex(chunk) <==> chunk[0] != NUL
    ensures 0 <= AbyssTestIndex(chunk) ==> (EndsLine(chunk) <==> chunk[AbyssTestIndex(chunk)] == '\n')
    ensures AbyssTestIndex(chunk) < 0 ==> !EndsLine(chunk)
  {
    if chunk[0] != NUL {
      assert CLen(chunk) != 0;
    }
  }

  /** A run of n copies of c. */
  function Repeat(c: char, n: nat): (s: seq<char>)
    ensures |s| == n && forall k :: 0 <= k < n ==> s[k] == c
  {
    if n == 0 then [] else [c] + Repeat(c, n - 1)
  }

  lemma {:induction false} ChunkLenNoNewline(s: seq<char>, cap: nat)
    requires cap <= |s| && forall k :: 0 <= k < cap ==> s[k] != '\n'
    ensures ChunkLen(s, cap) == cap
    decreases cap
  {
    if cap > 0 {
      assert forall k :: 0 <= k < cap - 1 ==> s[1..][k] == s[k + 1];
      ChunkLenNoNewline(s[1..], cap - 1);
    }
  }

  /** A counterexample input for ini_parse_string_length: 199 bytes with no
      newline, then a NUL byte. The first line fills the line buffer, so the
      discard loop runs; its first chunk starts with the NUL, strlen(abyss)
      is 0 and line 168 reads abyss[-1]. */
  lemma AbyssUnderflow()
    ensures var input := Repeat('a', MaxLine - 1) + [NUL, 'x', '\n'];
      var n := ChunkLen(input, MaxLine - 1);
      var after := input[n..];
      n == MaxLine - 1 && CLen(input[..n]) == n && input[n - 1] != '\n' &&
      after == [NUL, 'x', '\n'] && ChunkLen(after, AbyssSize - 1) == 3 &&
      AbyssTestIndex(after[..3]) == -1
  {
    var input := Repeat('a', MaxLine - 1) + [NUL, 'x', '\n'];
    assert forall k :: 0 <= k < MaxLine - 1 ==> input[k] == 'a';
    ChunkLenNoNewline(input, MaxLine - 1);
    var n := MaxLine - 1;
    assert input[..n] == Repeat('a', MaxLine - 1);
    EndsLineNoNul(input[..n]);
    var after := input[n..];
    assert after == [NUL, 'x', '\n'];
    assert after[1..] == ['x', '\n'] && after[1..][1..] == ['\n'];
    assert CLen(after[..3]) == 0 by { assert after[..3][0] == NUL; }
  }
}
