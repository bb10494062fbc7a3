/*
 * The line scanner of ini_parse_stream (lib/inih/ini.c:97-264) as a pure
 * specification, in the default configuration of lib/inih/ini.h: multi-line
 * values, BOM skipping, start-of-line comments ";#", inline comments ";",
 * a 200-byte stack line buffer, parsing on after an error, no handler call
 * for a new section and no value-less names.
 *
 * The input is cut into physical lines the way the string reader and the
 * over-long-line discard loop cut it (Lines); each line is classified
 * (Classify) and folded into the parse state (Step, RunLines).
 */
module Scanner {
  import opened CString
  import opened StringReader

  const MaxLine: nat := 200        // INI_MAX_LINE
  const MaxSection: nat := 50      // MAX_SECTION
  const MaxName: nat := 50         // MAX_NAME
  const AbyssSize: nat := 16       // sizeof(abyss)

  /** INI_START_COMMENT_PREFIXES in the default configuration. */
  const StartCommentPrefixes: seq<char> := [';', '#']

  /** The UTF-8 byte-order mark, one char per byte. */
  predicate HasBom(t: seq<char>) {
    |t| >= 3 && t[0] == '\U{EF}' && t[1] == '\U{BB}' && t[2] == '\U{BF}'
  }

  /** One handler call: (section, name, value). */
  datatype Event = Event(section: seq<char>, name: seq<char>, value: seq<char>)

  /** A physical line as the scanner receives it: the C string in the line
      buffer, and whether the rest of an over-long line was thrown away. */
  datatype RawLine = RawLine(text: seq<char>, discarded: bool)

  /** The branch of ini_parse_stream a line takes. Blank lines take the
      comment branch, since strchr also matches the terminator. */
  datatype LineKind =
    | Comment
    | Continuation(value: seq<char>)
    | Section(name: seq<char>)
    | UnclosedSection
    | Pair(name: seq<char>, value: seq<char>)
    | MissingSeparator

  /** The locals of ini_parse_stream that outlive one line, and the handler
      calls made so far. */
  datatype State = State(
    section: seq<char>,
    prevName: seq<char>,
    lineno: nat,
    error: nat,
    events: seq<Event>)

  function Init(): State {
    State([], [], 0, 0, [])
  }

  /** `if (!error) error = lineno;` when failed. */
  function Record(error: nat, lineno: nat, failed: bool): (r: nat)
    ensures error != 0 ==> r == error
    ensures error == 0 ==> (r == if failed then lineno else 0)
  {
    if failed && error == 0 then lineno else error
  }

  /** Which branch line number lineno with text t takes, and the strings it
      hands on. The text is scanned as the source does it: with a terminator
      after it, skipping a BOM on line 1, then ini_lskip and ini_rstrip. */
  function Classify(t: seq<char>, lineno: nat, hasPrevName: bool): (k: LineKind)
    ensures k.Continuation? ==> hasPrevName
    ensures t == [] ==> k == Comment
  {
    var b := t + [NUL];
    var s0 := if lineno == 1 && HasBom(t) then 3 else 0;
    assert Terminated(b, s0) by { NulAt(b, s0, |t|); }
    var ls := LSkip(b, s0);
    var e := RStripEnd(b, ls, |t|);
    ClassifyContent(t[..e] + [NUL], ls, hasPrevName)
  }

  /** The classification proper. c is the line buffer after ini_rstrip, up to
      and including its terminator, and ls where ini_lskip left start. */
  function ClassifyContent(c: seq<char>, ls: nat, hasPrevName: bool): (k: LineKind)
    requires ls < |c| && c[|c| - 1] == NUL
    ensures k == Comment <==> StrChr(StartCommentPrefixes, c[ls])
    ensures k.Continuation? ==> hasPrevName && ls > 0
  {
    if StrChr(StartCommentPrefixes, c[ls]) then Comment
    else if hasPrevName && ls > 0 then ContinuationLine(c, ls)
    else if c[ls] == '[' then SectionLine(c, ls)
    else PairLine(c, ls)
  }

  /** A continuation: the text up to an inline comment, right-trimmed. */
  function ContinuationLine(c: seq<char>, ls: nat): (k: LineKind)
    requires ls < |c| && c[|c| - 1] == NUL
    ensures k.Continuation? && NoNul(k.value)
    ensures k.value == [] || !IsSpace(k.value[|k.value| - 1])
  {
    assert Terminated(c, ls) by { NulAt(c, ls, |c| - 1); }
    var p := FindCharsOrComment(c, ls, []);
    Continuation(c[ls..RStripEnd(c, ls, p)])
  }

  /** A "[section]" line: the text up to the first ']' (not trimmed), unless
      the terminator or an inline comment comes first. */
  function SectionLine(c: seq<char>, ls: nat): (k: LineKind)
    requires ls < |c| && c[|c| - 1] == NUL && c[ls] != NUL
    ensures k.Section? || k == UnclosedSection
    ensures k.Section? ==> NoNul(k.name) && ']' !in k.name
  {
    assert Terminated(c, ls + 1) by { NulAt(c, ls + 1, |c| - 1); }
    var p := FindCharsOrComment(c, ls + 1, [']']);
    if c[p] == ']' then Section(c[ls + 1..p]) else UnclosedSection
  }

  /** A name[=:]value line: split at the first '=' or ':' that comes before
      the terminator and any inline comment; the name is right-trimmed and
      the value is what PairValue cuts out after the separator. */
  function PairLine(c: seq<char>, ls: nat): (k: LineKind)
    requires ls < |c| && c[|c| - 1] == NUL
    ensures k.Pair? || k == MissingSeparator
    ensures k.Pair? ==> NoNul(k.name) && '=' !in k.name && ':' !in k.name && NoNul(k.value)
    ensures k.Pair? ==> k.name == [] || !IsSpace(k.name[|k.name| - 1])
  {
    assert Terminated(c, ls) by { NulAt(c, ls, |c| - 1); }
    var p := FindCharsOrComment(c, ls, ['=', ':']);
    if c[p] == '=' || c[p] == ':' then
      Pair(c[ls..RStripEnd(c, ls, p)], PairValue(c, p + 1))
    else
      MissingSeparator
  }

  /** The value that starts at v: cut at an inline comment, then trimmed on
      both sides. */
  function PairValue(c: seq<char>, v: nat): (r: seq<char>)
    requires v < |c| && c[|c| - 1] == NUL
    ensures NoNul(r)
    ensures r == [] || (!IsSpace(r[0]) && !IsSpace(r[|r| - 1]))
  {
    assert Terminated(c, v) by { NulAt(c, v, |c| - 1); }
    var q := FindCharsOrComment(c, v, []);
    var vs := LSkip(c, v);
    assert vs <= q;
    c[vs..RStripEnd(c, vs, q)]
  }

  /** The effect of a classified line on a state whose lineno is that line's. */
  function Apply(st: State, kind: LineKind, accept: Event -> bool): (r: State)
    ensures r.lineno == st.lineno
    ensures st.events <= r.events && |r.events| <= |st.events| + 1
    ensures r.error == st.error || (st.error == 0 && r.error == st.lineno)
  {
    match kind
    case Comment => st
    case Continuation(v) =>
      var ev := Event(st.section, st.prevName, v);
      st.(error := Record(st.error, st.lineno, !accept(ev)), events := st.events + [ev])
    case Section(name) =>
      st.(section := Truncate(name, MaxSection - 1), prevName := [])
    case UnclosedSection =>
      st.(error := Record(st.error, st.lineno, true))
    case Pair(name, v) =>
      var ev := Event(st.section, name, v);
      st.(prevName := Truncate(name, MaxName - 1),
          error := Record(st.error, st.lineno, !accept(ev)),
          events := st.events + [ev])
    case MissingSeparator =>
      st.(error := Record(st.error, st.lineno, true))
  }

  /** The state once the line is counted (line 161) and a discarded tail of
      it recorded (lines 164-171). */
  function Counted(st: State, line: RawLine): (r: State)
    ensures r.lineno == st.lineno + 1
    ensures r.section == st.section && r.prevName == st.prevName && r.events == st.events
    ensures r.error == Record(st.error, r.lineno, line.discarded)
  {
    st.(lineno := st.lineno + 1, error := Record(st.error, st.lineno + 1, line.discarded))
  }

  /** One turn of the scan loop: count the line, record the error of a
      discarded tail, then act on the line. */
  function Step(st: State, line: RawLine, accept: Event -> bool): (r: State)
    ensures r.lineno == st.lineno + 1
    ensures st.events <= r.events && |r.events| <= |st.events| + 1
    ensures r.error == st.error || (st.error == 0 && r.error == r.lineno)
  {
    Apply(Counted(st, line), Classify(line.text, st.lineno + 1, st.prevName != []), accept)
  }

  function RunLines(lines: seq<RawLine>, st: State, accept: Event -> bool): (r: State)
    ensures r.lineno == st.lineno + |lines|
    ensures st.events <= r.events && |r.events| <= |st.events| + |lines|
    ensures st.error != 0 ==> r.error == st.error
    ensures r.error == st.error || (st.error == 0 && st.lineno < r.error <= r.lineno)
    decreases |lines|
  {
    if lines == [] then st else RunLines(lines[1..], Step(st, lines[0], accept), accept)
  }

  /** Whether a chunk read into the abyss buffer ends the physical line. The
      source tests abyss[strlen(abyss) - 1]; this is that test guarded
      against strlen(abyss) == 0 (see AbyssIndexAsWritten). */
  predicate EndsLine(chunk: seq<char>) {
    var k := CLen(chunk);
    k > 0 && chunk[k - 1] == '\n'
  }

  /** What is left of the input after the discard loop that follows an
      over-long line: 15-byte chunks are read until one ends the line or the
      input runs out. */
  function Discard(rest: seq<char>): (r: seq<char>)
    ensures |r| <= |rest| && r == rest[|rest| - |r|..]
    decreases |rest|
  {
    if rest == [] then []
    else
      var n := ChunkLen(rest, AbyssSize - 1);
      if EndsLine(rest[..n]) then rest[n..] else Discard(rest[n..])
  }

  /** The physical lines the scan loop receives from the string reader with
      a MaxLine-byte buffer; the tail of an over-long line (MaxLine - 1 chars
      without a newline) is discarded. */
  function Lines(rest: seq<char>): (lines: seq<RawLine>)
    ensures forall i :: 0 <= i < |lines| ==> NoNul(lines[i].text) && |lines[i].text| < MaxLine
    decreases |rest|
  {
    if rest == [] then []
    else
      var n := ChunkLen(rest, MaxLine - 1);
      var chunk := rest[..n];
      var text := chunk[..CLen(chunk)];
      var after := rest[n..];
      var overlong := |text| == MaxLine - 1 && text[MaxLine - 2] != '\n';
      [RawLine(text, overlong && after != [])] + Lines(if overlong then Discard(after) else after)
  }

  /** The whole scan of an input: its final state holds the handler calls and
      the value ini_parse_stream returns (error). */
  function Parse(input: seq<char>, accept: Event -> bool): (r: State)
    ensures r.lineno == |Lines(input)| && r.error <= r.lineno
    ensures |r.events| <= |Lines(input)|
  {
    RunLines(Lines(input), Init(), accept)
  }
}
