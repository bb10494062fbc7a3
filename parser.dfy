/*
 * ini_parse_stream with the string reader (lib/inih/ini.c:97-264, 313-327),
 * over the source's fixed buffers: line[INI_MAX_LINE], section[MAX_SECTION],
 * prev_name[MAX_NAME] and abyss[16]. The handler is the parameter `accept`,
 * which says whether a call succeeds; the calls made are returned as a trace.
 * Each method is proved against the pure scan of module Scanner.
 */
module Parser {
  import opened CString
  import opened StringReader
  import opened Scanner
  import opened ScannerProps

  /** The line buffer holds c: the C string c[..|c| - 1] and its terminator. */
  ghost predicate HoldsContent(line: array<char>, c: seq<char>)
    reads line
  {
    0 < |c| <= line.Length && line[..|c|] == c && c[|c| - 1] == NUL && NoNul(c[..|c| - 1])
  }

  /** The body of the scan loop after the over-long check (lines 173-251):
      skip a BOM and strip the line in place, then take one branch. */
  method HandleLine(line: array<char>, offset: nat, section: array<char>, prevName: array<char>,
                    accept: Event -> bool, lineno: nat, error: nat, events: seq<Event>,
                    ghost st: State, ghost raw: RawLine)
    returns (newError: nat, newEvents: seq<Event>)
    requires line != section && line != prevName && section != prevName
    requires line.Length == MaxLine && section.Length == MaxSection && prevName.Length == MaxName
    requires offset < MaxLine && line[..offset] == raw.text && line[offset] == NUL && NoNul(raw.text)
    requires HoldsCStr(section, st.section) && HoldsCStr(prevName, st.prevName)
    requires lineno == st.lineno + 1 && error == Record(st.error, lineno, raw.discarded) && events == st.events
    modifies line, section, prevName
    ensures var st' := Step(st, raw, accept);
      newError == st'.error && newEvents == st'.events &&
      HoldsCStr(section, st'.section) && HoldsCStr(prevName, st'.prevName)
  {
    ghost var st1 := st.(lineno := lineno, error := error);
    StepIs(st, raw, st1, accept);
    var start;
    ghost var c;
    start, c := StripLine(line, offset, lineno, raw.text);
    newError, newEvents := Dispatch(line, start, section, prevName, accept, lineno, error, events, st1, c);
  }

  /** Lines 173-181: skip a BOM on the first line, then ini_lskip and
      ini_rstrip in place. The buffer then holds the clean content c that
      Classify hands to ClassifyContent, and start is where it begins. */
  method StripLine(line: array<char>, offset: nat, lineno: nat, ghost text: seq<char>)
    returns (start: nat, ghost c: seq<char>)
    requires offset < line.Length && line[..offset] == text && line[offset] == NUL && NoNul(text)
    modifies line
    ensures HoldsContent(line, c) && start < |c|
    ensures var b := text + [NUL];
      var s0 := if lineno == 1 && HasBom(text) then 3 else 0;
      Terminated(b, s0) && start == LSkip(b, s0) &&
      start <= RStripEnd(b, start, |text|) <= |text| && c == text[..RStripEnd(b, start, |text|)] + [NUL]
  {
    ghost var b := text + [NUL];
    start := SkipStart(line, offset, lineno, text);
    assert line[start..offset] == b[start..offset];
    assert b[start..offset] == text[start..];
    ghost var l0 := line[..];
    assert l0[..start] == text[..start];
    var e := StripTo(line, start, offset, b);
    c := text[..e] + [NUL];
    ghost var l := line[..];
    assert l[..start] == l0[..start];
    assert l[start..e] == b[start..e] && l[e] == NUL;
    StripDone(l0, l, text, start, e);
    assert c[..|c| - 1] == text[..e];
  }

  /** The buffer rstrip leaves holds text cut at e and a terminator. */
  lemma StripDone(l0: seq<char>, l: seq<char>, text: seq<char>, start: nat, e: nat)
    requires start <= e <= |text| && e < |l| == |l0| && NoNul(text)
    requires l0[..start] == text[..start] && l[..start] == l0[..start]
    requires l[start..e] == (text + [NUL])[start..e] && l[e] == NUL
    ensures l[..e + 1] == text[..e] + [NUL] && NoNul(text[..e])
  {
    AppendedSlice(text, start, e);
    Spliced(l, text, start, e);
  }

  /** A slice of t is the same slice of t with a terminator after it. */
  lemma AppendedSlice(t: seq<char>, i: nat, j: nat)
    requires i <= j <= |t|
    ensures (t + [NUL])[i..j] == t[i..j]
  {
    forall k | 0 <= k < j - i
      ensures (t + [NUL])[i..j][k] == t[i..j][k]
    {
      assert (t + [NUL])[i + k] == t[i + k];
    }
  }

  /** A prefix of t followed by a terminator. */
  lemma Spliced(l: seq<char>, t: seq<char>, s: nat, e: nat)
    requires s <= e < |l| && e <= |t| && l[..s] == t[..s] && l[s..e] == t[s..e] && l[e] == NUL
    ensures l[..e + 1] == t[..e] + [NUL]
  {
    assert l[..e + 1] == l[..s] + l[s..e] + [l[e]];
  }

  /** Lines 173-181: the BOM test on the first line and ini_lskip. */
  method SkipStart(line: array<char>, offset: nat, lineno: nat, ghost text: seq<char>) returns (start: nat)
    requires offset < line.Length && line[..offset] == text && line[offset] == NUL && NoNul(text)
    ensures var s0 := if lineno == 1 && HasBom(text) then 3 else 0;
      Terminated(text + [NUL], s0) && start == LSkip(text + [NUL], s0) && start <= offset
  {
    ghost var b := text + [NUL];
    assert line[..offset + 1] == b;
    start := 0;
    if lineno == 1 && line[0] == '\U{EF}' && line[1] == '\U{BB}' && line[2] == '\U{BF}' {
      start := 3;
    }
    ghost var s0 := start;
    assert s0 == if lineno == 1 && HasBom(text) then 3 else 0 by {
      if line[0] == '\U{EF}' && line[1] == '\U{BB}' && line[2] == '\U{BF}' {
        assert offset != 0 && offset != 1 && offset != 2;
      }
    }
    NulAt(b, s0, offset);
    LSkipFrame(line[..], b, s0, offset);
    start := LSkip(line[..], start);
  }

  /** Lines 183-251: take the branch ClassifyContent names. */
  method Dispatch(line: array<char>, start: nat, section: array<char>, prevName: array<char>,
                  accept: Event -> bool, lineno: nat, error: nat, events: seq<Event>,
                  ghost st: State, ghost c: seq<char>)
    returns (newError: nat, newEvents: seq<Event>)
    requires line != section && line != prevName && section != prevName
    requires section.Length == MaxSection && prevName.Length == MaxName
    requires HoldsContent(line, c) && start < |c|
    requires HoldsCStr(section, st.section) && HoldsCStr(prevName, st.prevName)
    requires lineno == st.lineno && error == st.error && events == st.events
    modifies line, section, prevName
    ensures var st' := Apply(st, ClassifyContent(c, start, st.prevName != []), accept);
      newError == st'.error && newEvents == st'.events &&
      HoldsCStr(section, st'.section) && HoldsCStr(prevName, st'.prevName)
  {
    newError, newEvents := error, events;
    ghost var kind := ClassifyContent(c, start, st.prevName != []);
    assert line[start] == c[start];
    assert prevName[0] != NUL <==> st.prevName != [];
    if StrChr(StartCommentPrefixes, line[start]) {
      // Start-of-line comment (or a blank line)
      assert kind == Comment;
    } else if prevName[0] != NUL && start > 0 {
      assert kind == ContinuationLine(c, start);
      newError, newEvents := HandleContinuation(line, start, section, prevName, accept,
                                                lineno, error, events, st, c);
    } else if line[start] == '[' {
      assert kind == SectionLine(c, start);
      newError := HandleSection(line, start, section, prevName, lineno, error, st, c);
    } else {
      // `else if (*start)`: the terminator already took the comment branch
      assert kind == PairLine(c, start);
      newError, newEvents := HandlePair(line, start, section, prevName, accept,
                                        lineno, error, events, st, c);
    }
  }

  /** `*end = '\0'` has been done: ini_rstrip from s, which stops at end.
      The stripped string s..e is what the clean content c holds there. */
  method StripTo(line: array<char>, s: nat, end: nat, ghost c: seq<char>) returns (e: nat)
    requires s <= end < line.Length && end <= |c|
    requires line[s..end] == c[s..end] && line[end] == NUL && NoNul(c[s..end])
    modifies line
    ensures e == RStripEnd(c, s, end)
    ensures line[s..e] == c[s..e] && line[e] == NUL
    ensures Terminated(line[..], s) && CStrAt(line[..], s) == c[s..e]
    ensures line[..s] == old(line[..s]) && line[end + 1..] == old(line[end + 1..])
  {
    ghost var a := line[..];
    RStripEndFrame(a, c, s, end);
    e := RStrip(line, s, end);
    ghost var l := line[..];
    assert forall k :: 0 <= k < |l| ==> l[k] == if e <= k < end then NUL else a[k];
    StripResult(a, l, c, s, e, end);
  }

  /** The buffer l that ini_rstrip leaves when it blanks a[e..end]. */
  lemma StripResult(a: seq<char>, l: seq<char>, c: seq<char>, s: nat, e: nat, end: nat)
    requires s <= e <= end < |a| == |l| && end <= |c|
    requires a[s..end] == c[s..end] && a[end] == NUL && NoNul(c[s..end])
    requires forall k :: 0 <= k < |l| ==> l[k] == if e <= k < end then NUL else a[k]
    ensures l[s..e] == c[s..e] && l[e] == NUL
    ensures Terminated(l, s) && CStrAt(l, s) == c[s..e]
    ensures l[..s] == a[..s] && l[end + 1..] == a[end + 1..]
  {
    StripKeeps(a, l, c, s, e, end);
    assert NoNul(c[s..e]) by {
      assert c[s..e] == c[s..end][..e - s];
    }
    CStrAtIs(l, s, c[s..e]);
    StripLeaves(a, l, s, e, end);
  }

  /** What ini_rstrip keeps of the string: its part before e. */
  lemma StripKeeps(a: seq<char>, l: seq<char>, c: seq<char>, s: nat, e: nat, end: nat)
    requires s <= e <= end < |a| == |l| && end <= |c|
    requires a[s..end] == c[s..end] && a[end] == NUL
    requires forall k :: 0 <= k < |l| ==> l[k] == if e <= k < end then NUL else a[k]
    ensures l[s..e] == c[s..e] && l[e] == NUL
  {
    forall k | 0 <= k < e - s
      ensures l[s..e][k] == c[s..e][k]
    {
      assert l[s + k] == a[s + k] == a[s..end][k] == c[s..end][k];
    }
  }

  /** What ini_rstrip leaves alone: the buffer outside s..end. */
  lemma StripLeaves(a: seq<char>, l: seq<char>, s: nat, e: nat, end: nat)
    requires s <= e <= end < |a| == |l|
    requires forall k :: 0 <= k < |l| ==> l[k] == if e <= k < end then NUL else a[k]
    ensures l[..s] == a[..s] && l[end + 1..] == a[end + 1..]
  {
    assert forall k :: 0 <= k < s || end < k < |l| ==> l[k] == a[k];
  }

  /** A non-blank line with leading whitespace after a name=value line
      (lines 187-197): the handler is called again for the previous name. */
  method HandleContinuation(line: array<char>, start: nat, section: array<char>, prevName: array<char>,
                            accept: Event -> bool, lineno: nat, error: nat, events: seq<Event>,
                            ghost st: State, ghost c: seq<char>)
    returns (newError: nat, newEvents: seq<Event>)
    requires line != section && line != prevName
    requires HoldsContent(line, c) && start < |c|
    requires HoldsCStr(section, st.section) && HoldsCStr(prevName, st.prevName)
    requires lineno == st.lineno && error == st.error && events == st.events
    modifies line
    ensures var st' := Apply(st, ContinuationLine(c, start), accept);
      newError == st'.error && newEvents == st'.events
  {
    newError, newEvents := error, events;
    HeldCStr(section, st.section);
    HeldCStr(prevName, st.prevName);
    ghost var l0 := line[..];
    ContinuationScan(l0, c, start);
    var end := FindCharsOrComment(line[..], start, []);
    line[end] := NUL;
    assert line[..] == l0[end := NUL];
    var ve := StripTo(line, start, end, c);
    var ev := Event(CStrAt(section[..], 0), CStrAt(prevName[..], 0), CStrAt(line[..], start));
    var ok := accept(ev);
    newEvents := newEvents + [ev];
    if !ok && newError == 0 {
      newError := lineno;
    }
  }

  /** The C string an array holds, read back. */
  lemma HeldCStr(a: array<char>, s: seq<char>)
    requires HoldsCStr(a, s)
    ensures Terminated(a[..], 0) && CStrAt(a[..], 0) == s
  {
    assert a[..][0..|s|] == a[..|s|];
    CStrAtIs(a[..], 0, s);
  }

  /** What HandleContinuation's scan sees: the end of the value is found the
      same way in the buffer l0 as in c, and terminating it there leaves c's
      text before it in place. */
  lemma ContinuationScan(l0: seq<char>, c: seq<char>, start: nat)
    requires start < |c| <= |l0| && c[|c| - 1] == NUL && NoNul(c[..|c| - 1])
    requires l0[..|c|] == c
    ensures Terminated(l0, start) && Terminated(c, start)
    ensures var q := FindCharsOrComment(c, start, []);
      FindCharsOrComment(l0, start, []) == q && q < |c| &&
      l0[q := NUL][start..q] == c[start..q] && l0[q := NUL][q] == NUL && NoNul(c[start..q])
  {
    var m := |c| - 1;
    assert l0[start..m + 1] == c[start..m + 1] by {
      assert l0[start..m + 1] == l0[..|c|][start..m + 1];
    }
    FindFrame(l0, c, start, m, []);
    var q := FindCharsOrComment(c, start, []);
    CutCopy(l0, c, start, q);
    NoNulSlice(c[..m], start, q);
    assert c[..m][start..q] == c[start..q];
  }

  /** Terminating a copy of c at q keeps c[start..q] before it. */
  lemma CutCopy(l0: seq<char>, c: seq<char>, start: nat, q: nat)
    requires start <= q < |c| <= |l0| && l0[..|c|] == c
    ensures l0[q := NUL][start..q] == c[start..q] && l0[q := NUL][q] == NUL
  {
    forall k | start <= k < q
      ensures l0[q := NUL][k] == c[k]
    {
      assert l0[k] == l0[..|c|][k];
    }
  }

  /** A "[section]" line (lines 199-217): copy the name into section,
      truncated, and clear prev_name; or record an error when no ']' comes. */
  method HandleSection(line: array<char>, start: nat, section: array<char>, prevName: array<char>,
                       lineno: nat, error: nat, ghost st: State, ghost c: seq<char>)
    returns (newError: nat)
    requires line != section && line != prevName && section != prevName
    requires section.Length == MaxSection && 0 < prevName.Length
    requires HoldsContent(line, c) && start < |c| && c[start] != NUL
    requires HoldsCStr(section, st.section) && HoldsCStr(prevName, st.prevName)
    requires lineno == st.lineno && error == st.error
    modifies line, section, prevName
    ensures SectionLine(c, start).Section? ==>
      newError == error && HoldsCStr(section, Truncate(SectionLine(c, start).name, MaxSection - 1)) &&
      HoldsCStr(prevName, [])
    ensures SectionLine(c, start).UnclosedSection? ==>
      newError == Record(error, lineno, true) &&
      HoldsCStr(section, st.section) && HoldsCStr(prevName, st.prevName)
  {
    newError := error;
    FindFrame(line[..], c, start + 1, |c| - 1, [']']);
    var end := FindCharsOrComment(line[..], start + 1, [']']);
    SectionLineUnfold(c, start, end);
    if line[end] == ']' {
      CutSection(line, start, end, section, prevName, c);
    } else if newError == 0 {
      // No ']' found on section line
      newError := lineno;
    }
  }

  /** The ']' closing a section name is at end: terminate the name there,
      copy it into section, truncated, and clear prev_name. */
  method CutSection(line: array<char>, start: nat, end: nat, section: array<char>, prevName: array<char>,
                    ghost c: seq<char>)
    requires line != section && line != prevName && section != prevName
    requires section.Length == MaxSection && 0 < prevName.Length
    requires HoldsContent(line, c) && start < end < |c| && c[end] == ']'
    requires Terminated(c, start + 1) && end == FindCharsOrComment(c, start + 1, [']'])
    modifies line, section, prevName
    ensures HoldsCStr(section, Truncate(c[start + 1..end], MaxSection - 1)) && HoldsCStr(prevName, [])
  {
    line[end] := NUL;
    ghost var l := line[..];
    assert l[start + 1..end] == c[start + 1..end] by {
      assert l[start + 1..end] == old(line[..])[..|c|][start + 1..end];
    }
    assert NoNul(c[start + 1..end]) by {
      assert c[start + 1..end] == c[..|c| - 1][start + 1..end];
    }
    CStrAtIs(l, start + 1, c[start + 1..end]);
    var _ := StrNCpy0(section, line[..], start + 1, MaxSection);
    prevName[0] := NUL;
    assert prevName[..0] == [];
  }

  /** A name[=:]value line (lines 218-251): cut the name and the value out of
      the line buffer, remember the name in prev_name and call the handler;
      or record an error when there is no separator. */
  method HandlePair(line: array<char>, start: nat, section: array<char>, prevName: array<char>,
                    accept: Event -> bool, lineno: nat, error: nat, events: seq<Event>,
                    ghost st: State, ghost c: seq<char>)
    returns (newError: nat, newEvents: seq<Event>)
    requires line != section && line != prevName && section != prevName
    requires prevName.Length == MaxName
    requires HoldsContent(line, c) && start < |c|
    requires HoldsCStr(section, st.section) && HoldsCStr(prevName, st.prevName)
    requires lineno == st.lineno && error == st.error && events == st.events
    modifies line, prevName
    ensures var st' := Apply(st, PairLine(c, start), accept);
      newError == st'.error && newEvents == st'.events && HoldsCStr(prevName, st'.prevName)
  {
    newError, newEvents := error, events;
    FindFrame(line[..], c, start, |c| - 1, ['=', ':']);
    var end := FindCharsOrComment(line[..], start, ['=', ':']);
    if line[end] == '=' || line[end] == ':' {
      newError, newEvents := EmitPair(line, start, end, section, prevName, accept, lineno, error, events, st, c);
    } else if newError == 0 {
      // No '=' or ':' found on name[=:]value line
      newError := lineno;
    }
  }

  /** The separator of a name[=:]value line is at p: cut the line, store the
      name in prev_name and call the handler. */
  method EmitPair(line: array<char>, start: nat, p: nat, section: array<char>, prevName: array<char>,
                  accept: Event -> bool, lineno: nat, error: nat, events: seq<Event>,
                  ghost st: State, ghost c: seq<char>)
    returns (newError: nat, newEvents: seq<Event>)
    requires line != section && line != prevName && section != prevName
    requires prevName.Length == MaxName
    requires HoldsContent(line, c) && start <= p < |c| - 1
    requires Terminated(c, start) && p == FindCharsOrComment(c, start, ['=', ':'])
    requires c[p] == '=' || c[p] == ':'
    requires HoldsCStr(section, st.section)
    requires lineno == st.lineno && error == st.error && events == st.events
    modifies line, prevName
    ensures var st' := Apply(st, PairLine(c, start), accept);
      newError == st'.error && newEvents == st'.events && HoldsCStr(prevName, st'.prevName)
  {
    ghost var k := PairLine(c, start);
    HeldCStr(section, st.section);
    ghost var sec := section[..];
    var name, value := CutPair(line, start, p, c);
    ghost var l := line[..];
    assert k.Pair? && k.name == CStrAt(l, name) && k.value == CStrAt(l, value);
    var _ := StrNCpy0(prevName, line[..], name, MaxName);
    assert line[..] == l && section[..] == sec;
    var ev := Event(CStrAt(section[..], 0), CStrAt(line[..], name), CStrAt(line[..], value));
    assert ev.section == st.section && ev.name == k.name && ev.value == k.value;
    var ok := accept(ev);
    newEvents := events + [ev];
    newError := if !ok && error == 0 then lineno else error;
    PairApplied(st, k, accept, ev);
    ghost var st' := Apply(st, k, accept);
    assert newError == st'.error && newEvents == st'.events;
    assert HoldsCStr(prevName, st'.prevName);
  }

  /** The state a pair line leaves, through its handler event. */
  lemma PairApplied(st: State, k: LineKind, accept: Event -> bool, ev: Event)
    requires k.Pair? && ev.section == st.section && ev.name == k.name && ev.value == k.value
    ensures var st' := Apply(st, k, accept);
      st'.events == st.events + [ev] && st'.error == Record(st.error, st.lineno, !accept(ev)) &&
      st'.prevName == Truncate(ev.name, MaxName - 1)
  {
  }

  /** The in-place cutting of a name[=:]value line whose separator is at p:
      afterwards the buffer holds the name at start and the value at value,
      each a C string, as PairLine describes them. */
  method CutPair(line: array<char>, start: nat, p: nat, ghost c: seq<char>) returns (name: nat, value: nat)
    requires HoldsContent(line, c) && start <= p < |c| - 1
    requires Terminated(c, start) && p == FindCharsOrComment(c, start, ['=', ':'])
    requires c[p] == '=' || c[p] == ':'
    modifies line
    ensures name == start && Terminated(line[..], name) && Terminated(line[..], value)
    ensures var k := PairLine(c, start);
      k.Pair? && k.name == CStrAt(line[..], name) && k.value == CStrAt(line[..], value)
  {
    var ne := CutName(line, start, p, c);
    value := CutRest(line, start, p, ne, c);
    name := start;
  }

  /** CutValue once CutName has left the name in place. */
  method CutRest(line: array<char>, start: nat, p: nat, ne: nat, ghost c: seq<char>) returns (value: nat)
    requires start <= p < |c| - 1 && c[|c| - 1] == NUL && NoNul(c[..|c| - 1])
    requires Terminated(c, start) && p == FindCharsOrComment(c, start, ['=', ':'])
    requires c[p] == '=' || c[p] == ':'
    requires ne == RStripEnd(c, start, p)
    requires Terminated(line[..], start) && CStrAt(line[..], start) == c[start..ne]
    requires |c| <= line.Length && line[p + 1..|c|] == c[p + 1..]
    modifies line
    ensures var k := PairLine(c, start);
      Terminated(line[..], start) && Terminated(line[..], value) &&
      k.Pair? && k.name == CStrAt(line[..], start) && k.value == CStrAt(line[..], value)
  {
    ghost var l1 := line[..];
    value := CutValue(line, p + 1, c);
    ghost var l2 := line[..];
    assert l2[..p + 1] == l1[..p + 1];
    PairCut(c, start, p, ne, l1, l2, value);
  }

  /** The buffers CutName and CutValue leave, l1 and then l2, hold the name
      and the value PairLine gives. */
  lemma PairCut(c: seq<char>, start: nat, p: nat, ne: nat, l1: seq<char>, l2: seq<char>, value: nat)
    requires start <= p < |c| - 1 && c[|c| - 1] == NUL
    requires Terminated(c, start) && p == FindCharsOrComment(c, start, ['=', ':'])
    requires c[p] == '=' || c[p] == ':'
    requires ne == RStripEnd(c, start, p)
    requires Terminated(l1, start) && CStrAt(l1, start) == c[start..ne] && p + 1 <= |l1|
    requires |l2| == |l1| && l2[..p + 1] == l1[..p + 1]
    requires Terminated(l2, value) && CStrAt(l2, value) == PairValue(c, p + 1)
    ensures var k := PairLine(c, start);
      Terminated(l2, start) && k.Pair? && k.name == CStrAt(l2, start) && k.value == CStrAt(l2, value)
  {
    NameKept(c, start, ne, p, l1, l2);
    PairFields(c, start, p, ne, CStrAt(l2, start), CStrAt(l2, value));
  }

  /** Cutting the value after p leaves the name that ends before p intact. */
  lemma NameKept(c: seq<char>, start: nat, ne: nat, p: nat, l1: seq<char>, l2: seq<char>)
    requires start <= ne <= p && ne <= |c|
    requires Terminated(l1, start) && CStrAt(l1, start) == c[start..ne] && p + 1 <= |l1|
    requires |l2| == |l1| && l2[..p + 1] == l1[..p + 1]
    ensures Terminated(l2, start) && CStrAt(l2, start) == c[start..ne]
  {
    assert start + StrLen(l1, start) < p + 1 by {
      assert |CStrAt(l1, start)| == StrLen(l1, start);
    }
    CStrAtFrame(l1, l2, start, p + 1);
  }

  /** A name and a value equal to the slices PairLine cuts are its fields. */
  lemma PairFields(c: seq<char>, start: nat, p: nat, ne: nat, name: seq<char>, value: seq<char>)
    requires start <= p < |c| - 1 && c[|c| - 1] == NUL
    requires Terminated(c, start) && p == FindCharsOrComment(c, start, ['=', ':'])
    requires c[p] == '=' || c[p] == ':'
    requires ne == RStripEnd(c, start, p) && name == c[start..ne] && value == PairValue(c, p + 1)
    ensures PairLine(c, start).Pair? && PairLine(c, start).name == name && PairLine(c, start).value == value
  {
    PairLineUnfold(c, start, p);
    PairLineValue(c, start, p, p + 1);
  }

  /** Lines 220-223: the separator at p becomes a terminator and the name
      before it is right-stripped; what lies after p is left alone. */
  method CutName(line: array<char>, start: nat, p: nat, ghost c: seq<char>) returns (ne: nat)
    requires HoldsContent(line, c) && start <= p < |c| - 1
    requires Terminated(c, start) && p == FindCharsOrComment(c, start, ['=', ':'])
    modifies line
    ensures ne == RStripEnd(c, start, p)
    ensures Terminated(line[..], start) && CStrAt(line[..], start) == c[start..ne]
    ensures p + 1 < |c| <= line.Length && line[p + 1..|c|] == c[p + 1..]
  {
    ghost var m := |c| - 1;
    assert line[start..p] == line[..m + 1][start..p];
    assert forall k :: p < k < |c| ==> line[k] == line[..m + 1][k];
    line[p] := NUL;
    ghost var l0 := line[..];
    ne := StripTo(line, start, p, c);
    assert forall k :: p < k < |c| ==> line[k] == line[p + 1..][k - p - 1] == l0[k] == c[k];
  }

  /** Lines 224-230: the value after the separator at v - 1 is cut at an
      inline comment, then ini_lskip and ini_rstrip; what lies before v is
      left alone. */
  method CutValue(line: array<char>, v: nat, ghost c: seq<char>) returns (value: nat)
    requires 0 < v < |c| <= line.Length && c[|c| - 1] == NUL && NoNul(c[..|c| - 1])
    requires line[v..|c|] == c[v..]
    modifies line
    ensures Terminated(line[..], value) && CStrAt(line[..], value) == PairValue(c, v)
    ensures line[..v] == old(line[..v])
  {
    ghost var l0 := line[..];
    ValueScan(l0, c, v);
    var end := FindCharsOrComment(line[..], v, []);
    line[end] := NUL;
    ghost var l1 := line[..];
    assert l1 == l0[end := NUL];
    value := LSkip(line[..], v);
    PairValueUnfold(c, v, end);
    var ve := StripTo(line, value, end, c);
    ghost var l2 := line[..];
    assert CStrAt(l2, value) == c[value..ve] == PairValue(c, v);
    assert l2[..value] == l1[..value];
    PrefixShorter(l2, l1, v, value);
  }

  /** Buffers that agree on a prefix agree on any shorter one. */
  lemma PrefixShorter(a: seq<char>, b: seq<char>, i: nat, j: nat)
    requires i <= j <= |a| && j <= |b| && a[..j] == b[..j]
    ensures a[..i] == b[..i]
  {
    assert a[..i] == a[..j][..i];
  }

  /** What CutValue's scans see: the value's end q is found the same way in
      the buffer l0 as in c, and once l0[q] is a terminator ini_lskip stops
      where it does in c, before or at q, over non-NUL chars of c. */
  lemma ValueScan(l0: seq<char>, c: seq<char>, v: nat)
    requires 0 < v < |c| <= |l0| && c[|c| - 1] == NUL && NoNul(c[..|c| - 1])
    requires l0[v..|c|] == c[v..]
    ensures Terminated(l0, v) && Terminated(c, v)
    ensures var q := FindCharsOrComment(c, v, []);
      FindCharsOrComment(l0, v, []) == q && q < |c| &&
      Terminated(l0[q := NUL], v) && LSkip(l0[q := NUL], v) == LSkip(c, v) && LSkip(c, v) <= q &&
      l0[q := NUL][LSkip(c, v)..q] == c[LSkip(c, v)..q] && l0[q := NUL][q] == NUL &&
      NoNul(c[LSkip(c, v)..q]) && l0[q := NUL][..v] == l0[..v]
  {
    var m := |c| - 1;
    assert l0[v..m + 1] == c[v..m + 1];
    FindFrame(l0, c, v, m, []);
    var q := FindCharsOrComment(c, v, []);
    var l1 := l0[q := NUL];
    assert l1[v..q] == l0[v..m + 1][..q - v] == c[v..m + 1][..q - v] == c[v..q];
    LSkipFrame(l1, c, v, q);
    var vs := LSkip(c, v);
    assert l1[vs..q] == c[vs..q];
    assert c[vs..q] == c[..|c| - 1][vs..q];
  }

  /** A chunk the reader copied into a buffer, with its terminator: strlen
      of the buffer is CLen of the chunk, and the source's end-of-line test
      on the buffer is EndsLine. */
  lemma BufferedChunk(a: seq<char>, chunk: seq<char>)
    requires |chunk| < |a| && a[..|chunk|] == chunk && a[|chunk|] == NUL
    ensures Terminated(a, 0) && StrLen(a, 0) == CLen(chunk) && a[..StrLen(a, 0)] == chunk[..CLen(chunk)]
    ensures EndsLine(chunk) == (StrLen(a, 0) > 0 && a[StrLen(a, 0) - 1] == '\n')
  {
    assert a[..|chunk| + 1] == chunk + [NUL];
    StrLenFrame(a, chunk + [NUL], 0, |chunk|);
    var k := StrLen(a, 0);
    assert a[..k] == a[..|chunk|][..k];
    if k > 0 {
      assert a[k - 1] == a[..|chunk|][k - 1];
    }
  }

  /** One turn of the discard loop, on the pure side. */
  lemma DiscardHead(r: seq<char>)
    requires r != []
    ensures var m := ChunkLen(r, AbyssSize - 1);
      Discard(r) == if EndsLine(r[..m]) then r[m..] else Discard(r[m..])
  {
  }

  /** One turn of the scan loop, on the pure side. */
  lemma RunLinesCons(line: RawLine, lines: seq<RawLine>, st: State, accept: Event -> bool)
    ensures RunLines([line] + lines, st, accept) == RunLines(lines, Step(st, line, accept), accept)
  {
    assert ([line] + lines)[1..] == lines;
  }

  /** Step, with the line count and the error of a discarded tail already
      taken into the state. */
  lemma StepIs(st: State, line: RawLine, st1: State, accept: Event -> bool)
    requires st1 == Counted(st, line)
    ensures Step(st, line, accept) == Apply(st1, Classify(line.text, st1.lineno, st.prevName != []), accept)
  {
  }

  /** The physical line the scan loop reads next, on the pure side. */
  /** One call of the reader into abyss (line 165) and the test of line 168
      on what it read. */
  method ReadAbyss(reader: Reader, abyss: array<char>) returns (more: bool, endsLine: bool)
    requires reader.Valid() && abyss.Length == AbyssSize
    modifies reader, abyss
    ensures reader.Valid()
    ensures !more ==> old(reader.Rest()) == [] && reader.Rest() == []
    ensures more ==>
      var m := ChunkLen(old(reader.Rest()), AbyssSize - 1);
      old(reader.Rest()) != [] && reader.numLeft < old(reader.numLeft) &&
      reader.Rest() == old(reader.Rest())[m..] && endsLine == EndsLine(old(reader.Rest())[..m])
  {
    endsLine := false;
    ghost var r := reader.Rest();
    more := reader.Read(abyss, AbyssSize);
    if !more {
      return;
    }
    BufferedChunk(abyss[..], r[..ChunkLen(r, AbyssSize - 1)]);
    var k := StrLen(abyss[..], 0);
    endsLine := k > 0 && abyss[k - 1] == '\n';
  }

  /** The discard loop for an over-long line (lines 163-171): read 15-byte
      chunks into abyss until one ends the line or the input runs out, and
      record the error if anything was read. */
  method DiscardRest(reader: Reader, abyss: array<char>, lineno: nat, error: nat) returns (newError: nat)
    requires reader.Valid() && abyss.Length == AbyssSize
    modifies reader, abyss
    ensures reader.Valid() && reader.Rest() == Discard(old(reader.Rest()))
    ensures newError == Record(error, lineno, old(reader.Rest()) != [])
  {
    newError := error;
    ghost var after := reader.Rest();
    ghost var read := false;
    while true
      invariant reader.Valid()
      invariant Discard(reader.Rest()) == Discard(after)
      invariant !read ==> reader.Rest() == after
      invariant read ==> after != []
      invariant newError == Record(error, lineno, read)
      decreases reader.numLeft
    {
      ghost var r1 := reader.Rest();
      var more, endsLine := ReadAbyss(reader, abyss);
      if !more {
        assert Discard(reader.Rest()) == [];
        break;
      }
      DiscardHead(r1);
      read := true;
      if newError == 0 {
        newError := lineno;
      }
      if endsLine {
        assert reader.Rest() == Discard(r1);
        break;
      }
    }
  }

  /** The head of the scan loop (lines 139-171): read the next physical line
      into the line buffer, count it, and throw away the rest of it when it
      is over-long. */
  method NextLine(reader: Reader, line: array<char>, abyss: array<char>, lineno: nat, error: nat)
    returns (got: bool, offset: nat, newLineno: nat, newError: nat, ghost text: seq<char>, ghost discarded: bool)
    requires reader.Valid() && line.Length == MaxLine && abyss.Length == AbyssSize && line != abyss
    modifies reader, line, abyss
    ensures reader.Valid()
    ensures !got ==> old(reader.Rest()) == [] && reader.Rest() == [] && newLineno == lineno && newError == error
    ensures got ==>
      old(reader.Rest()) != [] && reader.numLeft < old(reader.numLeft) &&
      Lines(old(reader.Rest())) == [RawLine(text, discarded)] + Lines(reader.Rest()) &&
      offset < MaxLine && line[..offset] == text && line[offset] == NUL && NoNul(text) &&
      newLineno == lineno + 1 && newError == Record(error, newLineno, discarded)
  {
    newLineno, newError, offset := lineno, error, 0;
    text, discarded := [], false;
    ghost var rest := reader.Rest();
    ghost var chunk;
    got, offset, chunk := ReadLine(reader, line);
    if !got {
      return;
    }
    text := chunk[..offset];
    ghost var after := reader.Rest();
    LinesHead(rest);
    newLineno := lineno + 1;
    ghost var overlong := offset == MaxLine - 1 && text[offset - 1] != '\n';
    if offset == MaxLine - 1 && line[offset - 1] != '\n' {
      newError := DiscardRest(reader, abyss, newLineno, error);
    }
    discarded := overlong && after != [];
  }

  /** One call of the reader into the line buffer (line 139) and its strlen
      (line 140). */
  method ReadLine(reader: Reader, line: array<char>) returns (got: bool, offset: nat, ghost chunk: seq<char>)
    requires reader.Valid() && line.Length == MaxLine
    modifies reader, line
    ensures reader.Valid()
    ensures !got ==> old(reader.Rest()) == [] && reader.Rest() == []
    ensures got ==>
      old(reader.Rest()) != [] && chunk == old(reader.Rest())[..ChunkLen(old(reader.Rest()), MaxLine - 1)] &&
      reader.Rest() == old(reader.Rest())[|chunk|..] && reader.numLeft < old(reader.numLeft) &&
      offset == CLen(chunk) && offset < MaxLine && line[..offset] == chunk[..offset] && line[offset] == NUL
  {
    offset, chunk := 0, [];
    ghost var rest := reader.Rest();
    got := reader.Read(line, MaxLine);
    if !got {
      return;
    }
    chunk := rest[..ChunkLen(rest, MaxLine - 1)];
    BufferedChunk(line[..], chunk);
    offset := StrLen(line[..], 0);
  }

  /** One turn of the scan loop (lines 139-251): read, count and act on the
      next physical line. The state st' it leads to is Step of st on that
      line, and the pure scan of what is left continues from st'. */
  method ScanLine(reader: Reader, line: array<char>, section: array<char>, prevName: array<char>,
                  abyss: array<char>, accept: Event -> bool,
                  lineno: nat, error: nat, events: seq<Event>, ghost st: State)
    returns (got: bool, newLineno: nat, newError: nat, newEvents: seq<Event>, ghost st': State)
    requires reader.Valid()
    requires line != section && line != prevName && section != prevName && abyss != line
    requires abyss != section && abyss != prevName
    requires line.Length == MaxLine && section.Length == MaxSection && prevName.Length == MaxName
    requires abyss.Length == AbyssSize
    requires lineno == st.lineno && error == st.error && events == st.events
    requires HoldsCStr(section, st.section) && HoldsCStr(prevName, st.prevName)
    modifies reader, line, section, prevName, abyss
    ensures reader.Valid()
    ensures !got ==> reader.Rest() == [] && old(reader.Rest()) == [] && newError == error && newEvents == events
    ensures got ==>
      reader.numLeft < old(reader.numLeft) &&
      RunLines(Lines(old(reader.Rest())), st, accept) == RunLines(Lines(reader.Rest()), st', accept)
    ensures newLineno == st'.lineno && newError == st'.error && newEvents == st'.events
    ensures HoldsCStr(section, st'.section) && HoldsCStr(prevName, st'.prevName)
  {
    st' := st;
    newEvents := events;
    var offset;
    ghost var text, discarded;
    got, offset, newLineno, newError, text, discarded := NextLine(reader, line, abyss, lineno, error);
    if !got {
      return;
    }
    ghost var raw := RawLine(text, discarded);
    RunLinesCons(raw, Lines(reader.Rest()), st, accept);
    newError, newEvents := HandleLine(line, offset, section, prevName, accept, newLineno, newError, events, st, raw);
    st' := Step(st, raw, accept);
  }

  /** ini_parse_stream with ini_reader_string as its reader: the value it
      returns and the handler calls it makes are those of the pure scan of
      what the reader had left. */
  method ParseStream(reader: Reader, accept: Event -> bool) returns (error: nat, events: seq<Event>)
    requires reader.Valid()
    modifies reader
    ensures reader.Valid() && reader.Rest() == []
    ensures var st := RunLines(Lines(old(reader.Rest())), Init(), accept);
      error == st.error && events == st.events
  {
    ghost var input := reader.Rest();
    var line := new char[MaxLine];
    var section := new char[MaxSection];
    section[0] := NUL;
    var prevName := new char[MaxName];
    prevName[0] := NUL;
    var abyss := new char[AbyssSize];
    var lineno := 0;
    error, events := 0, [];
    ghost var st := Init();
    assert section[..0] == [] && prevName[..0] == [];
    assert reader.Rest() == input;
    ghost var goal := RunLines(Lines(input), st, accept);

    while true
      invariant reader.Valid()
      invariant RunLines(Lines(reader.Rest()), st, accept) == goal
      invariant lineno == st.lineno && error == st.error && events == st.events
      invariant HoldsCStr(section, st.section) && HoldsCStr(prevName, st.prevName)
      decreases reader.numLeft
    {
      var got;
      got, lineno, error, events, st := ScanLine(reader, line, section, prevName, abyss, accept,
                                                 lineno, error, events, st);
      if !got {
        assert Lines(reader.Rest()) == [];
        break;
      }
    }
  }

  /** ini_parse_string_length: only the first `length` bytes of data are
      scanned. */
  method ParseStringLength(data: seq<char>, length: nat, accept: Event -> bool)
    returns (error: nat, events: seq<Event>)
    requires length <= |data|
    ensures var st := Parse(data[..length], accept); error == st.error && events == st.events
  {
    var ctx := new Reader(data, length);
    error, events := ParseStream(ctx, accept);
  }

  /** ini_parse_string: the input runs up to its terminator. */
  method ParseString(data: seq<char>, accept: Event -> bool) returns (error: nat, events: seq<Event>)
    requires Terminated(data, 0)
    ensures var st := Parse(data[..StrLen(data, 0)], accept); error == st.error && events == st.events
  {
    error, events := ParseStringLength(data, StrLen(data, 0), accept);
  }
}
