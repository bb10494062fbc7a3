# inih string parser in Dafny

This project models the core of the inih INI parser vendored at
`lib/inih/ini.c`. The parser is built with the default options of
`lib/inih/ini.h`:

- multi-line values are on;
- a UTF-8 byte-order mark is skipped;
- start-of-line comments begin with `;` or `#`;
- inline comments begin with `;` after whitespace;
- a 200-byte stack line buffer is used;
- parsing goes on after an error;
- no handler call is made for a new section;
- a name without a value is an error.

`MAX_SECTION` and `MAX_NAME` are both 50.

The model has five modules.

- **CString** (`cstring.dfy`) holds the string helpers.
  - `ini_lskip` is `LSkip` and `ini_find_chars_or_comment` is `FindCharsOrComment`. Both are functions that return an index into a NUL-terminated buffer.
  - `ini_rstrip` is `RStrip` and `ini_strncpy0` is `StrNCpy0`. Both are methods that write into an `array<char>`.
  - `RStripEnd` gives the index where `RStrip` puts its terminator.
  - The reference definitions `LTrim`, `RTrim`, `Trim` and `Truncate` are tied to the helpers by lemmas.
- **StringReader** (`reader.dfy`) holds `ini_reader_string`.
  - The `ini_parse_string_ctx` record is the class `Reader`, with its fields `ptr` and `numLeft`.
  - The reader's loop is the method `Reader.Read`.
  - `Read` is specified by `ChunkLen`, the number of bytes one call copies.
- **Scanner** (`scanner.dfy`) is the pure specification of the scan loop of `ini_parse_stream`.
  - `Lines` cuts the input into physical lines the way the reader and the over-long-line discard loop cut it.
  - `Classify` names the branch a line takes.
  - `Apply` and `Step` fold a line into the parse `State`: the current section, `prev_name`, `lineno`, `error` and the handler calls made so far.
  - `Parse` runs a whole input.
  - The contracts of `Step` and `RunLines` give the line count, the growth of the handler trace and the rule that error is set once.
- **ScannerProps** (`scanner_props.dfy`) proves what the scan means.
  - Each line's branch is restated over its trimmed content (`Meaning`).
  - One lemma per branch states the effect of that line on the state.
  - The remaining lemmas cover the returned error line number and the discard loop.
  - `LinesAtNewlines` ties `Lines` to a plain cut of the input at its newlines (`NewlineLines`).
- **Parser** (`parser.dfy`) is the imperative `ini_parse_stream`.
  - It works over the same fixed buffers as the source: `line[200]`, `section[50]`, `prev_name[50]` and `abyss[16]`.
  - The reader is a `Reader` object, and the line loop and the discard loop are `while` loops.
  - Each method is proved against the Scanner functions. The ensures of `ParseStream` says that the returned error and the event trace are those of `RunLines(Lines(input), Init(), accept)`.

The handler is the parameter `accept: Event -> bool`, which says whether a call succeeds. The calls made are returned as a sequence of `Event(section, name, value)`.

## Model

| member | source | states |
|---|---|---|
| CString.LSkip | lib/inih/ini.c:57-62 | the index returned is the first position from i that holds NUL or a non-whitespace char; every char skipped is non-NUL whitespace |
| CString.LSkipIsLTrim | lib/inih/ini.c:57-62 | on a string that ends at j, ini_lskip stops exactly where the reference LTrim of b[i..j] begins |
| CString.LTrimSuffix | lib/inih/ini.c:57-62 | LTrim drops only a leading run of whitespace: the result is a suffix that does not start with whitespace, and everything dropped is whitespace |
| CString.RStripEnd | lib/inih/ini.c:49-54 | the new end r lies between s and end; everything from r to end is whitespace; r is s or the char before r is not whitespace |
| CString.RStripEndIsRTrim | lib/inih/ini.c:49-54 | the string ini_rstrip leaves is exactly the reference RTrim of b[s..end] |
| CString.RTrimPrefix | lib/inih/ini.c:49-54 | RTrim drops only a trailing run of whitespace: the result is a prefix that does not end in whitespace, and everything dropped is whitespace |
| CString.RStrip | lib/inih/ini.c:49-54 | writes NUL exactly at the stripped positions [e, end) and leaves every other position unchanged, in particular everything before s |
| CString.StrLen | lib/inih/ini.c:140 | strlen: the first NUL at or after i, with no NUL before it |
| CString.IsSpace | lib/inih/ini.c:51 | the set the source's isspace calls test, in the C locale: space, tab, newline, vertical tab, form feed and carriage return |
| CString.CLen | lib/inih/ini.c:140 | strlen of a chunk the reader copied: no NUL before it, and a NUL at it unless it is the whole chunk |
| CString.FindFrom | lib/inih/ini.c:71-75 | the loop from i with was_space = ws stops at the first index that holds NUL, one of chars, or a ';' right after whitespace, and at no earlier one |
| CString.FindCharsOrComment | lib/inih/ini.c:67-82 | the result holds NUL, one of chars, or a ';' right after whitespace; no earlier position is NUL, one of chars, or such a ';' |
| CString.Truncate | lib/inih/ini.c:86-94 | the result is the prefix of s of length min(cap, len s) |
| CString.StrNCpy0 | lib/inih/ini.c:86-94 | copies min(size-1, strlen(src)) chars, writes NUL right after them, leaves every later byte of dest unchanged, and so dest holds the source string truncated to size-1 |
| CString.CopyHoldsTruncated | lib/inih/ini.c:86-94 | a buffer holding the first min(size-1, strlen) chars and a NUL holds the truncated C string |
| StringReader.ChunkLen | lib/inih/ini.c:298-305 | a chunk is at most cap and at most the rest; no newline before its last char; it stops at cap, at the end of input, or right after a newline; it is non-empty when cap > 0 and input remains |
| StringReader.Reader.constructor | lib/inih/ini.c:319-324 | the context starts at the beginning of the buffer, and its unread rest is the first length bytes |
| StringReader.Reader.Read | lib/inih/ini.c:288-311 | returns NULL exactly when num_left == 0 or num < 2, and then changes nothing; otherwise copies the next ChunkLen(rest, num-1) bytes, writes NUL after them, leaves the rest of str alone, and advances ptr by exactly the amount num_left drops, so it never reads past length |
| Scanner.Discard | lib/inih/ini.c:163-171 | what the discard loop leaves is a suffix of the input |
| Scanner.Lines | lib/inih/ini.c:139-171 | every line the scan loop sees is NUL-free and shorter than INI_MAX_LINE; where the cuts fall is stated by ScannerProps.LinesAtNewlines |
| Scanner.Record | lib/inih/ini.c:166-167 | `if (!error) error = lineno`: a set error is kept, and from 0 it becomes lineno exactly when the line failed |
| Scanner.Counted | lib/inih/ini.c:161-167 | counting a line raises lineno by one and records a discarded tail, with section, prev_name and the trace unchanged |
| Scanner.Classify | lib/inih/ini.c:173-251 | only a line read while prev_name is set can be a continuation, and an empty line takes the comment branch |
| Scanner.ClassifyContent | lib/inih/ini.c:183-251 | the comment branch is taken exactly when strchr(";#", *start) holds, and a continuation needs prev_name set and start > line |
| Scanner.ContinuationLine | lib/inih/ini.c:186-197 | the continuation text is NUL-free and does not end in whitespace |
| Scanner.SectionLine | lib/inih/ini.c:199-217 | a '[' line is a section or an unclosed section, and a section name is NUL-free and holds no ']' |
| Scanner.PairLine | lib/inih/ini.c:218-251 | a line is a pair or a missing separator; a pair's name holds no '=', ':' or NUL and does not end in whitespace, and its value is NUL-free |
| Scanner.PairValue | lib/inih/ini.c:224-230 | the value is NUL-free and neither starts nor ends with whitespace |
| Scanner.Apply | lib/inih/ini.c:183-251 | a branch leaves lineno alone, makes at most one handler call, appended to the trace, and changes error only from 0 to lineno |
| Scanner.Step | lib/inih/ini.c:161-251 | one turn of the loop counts exactly one line, makes at most one handler call, appended to the trace, and changes error only from 0 to the line's number |
| Scanner.RunLines | lib/inih/ini.c:139-257 | after n lines, lineno has gone up by n and the trace by at most n calls, only at its end; an error once set never changes, and a newly set one is the number of a line scanned |
| Scanner.EndsLine | lib/inih/ini.c:168 | the end-of-line test of the discard loop, guarded against strlen(abyss) == 0; ScannerProps.EndsLineNoNul gives its NUL-free form |
| Scanner.Parse | lib/inih/ini.c:97-264 | a parse counts one line per physical line, returns 0 or the number of one of them, and makes at most one handler call per line |
| ScannerProps.FirstStop | lib/inih/ini.c:67-82 | the reference scan on a plain string: the first stop, with none before it |
| ScannerProps.FirstStopUnique | lib/inih/ini.c:67-82 | any index that is a stop and has no stop before it is FirstStop |
| ScannerProps.FindIsFirstStop | lib/inih/ini.c:67-82 | on a buffer that holds s and then NUL, ini_find_chars_or_comment returns i + FirstStop(s, chars) |
| ScannerProps.Meaning | lib/inih/ini.c:183-251 | the reference classification on a line's trimmed content, without buffers or terminators; ScannerProps.ClassifyMeaning ties Classify to it |
| ScannerProps.RStripSlice | lib/inih/ini.c:49-54 | the string rstrip leaves is the RTrim of the slice |
| ScannerProps.PairValueMeaning | lib/inih/ini.c:224-230 | the value is the text after the separator, cut at the first inline comment and then trimmed on both sides |
| ScannerProps.ValueCut | lib/inih/ini.c:226-227 | the inline-comment scan of the value stops at v + FirstStop, and that char is NUL or not whitespace |
| ScannerProps.TrimmedSlice | lib/inih/ini.c:229-230 | lskip followed by rstrip on a slice yields its Trim |
| ScannerProps.ContinuationLineMeaning | lib/inih/ini.c:186-197 | a continuation carries its content up to the first inline comment, right-trimmed |
| ScannerProps.SectionLineMeaning | lib/inih/ini.c:199-217 | a '[' line is a section named by the text up to the first ']' (not trimmed) when that ']' comes before the end and any inline comment, and is unclosed otherwise |
| ScannerProps.PairLineMeaning | lib/inih/ini.c:218-251 | an other line splits at its first '=' or ':' into the right-trimmed name and the cut, trimmed value, and is a missing-separator error when there is none |
| ScannerProps.PairNameHeld | lib/inih/ini.c:220-223 | the name the buffer scan gives is the right-trimmed text before the separator |
| ScannerProps.PairValueHeld | lib/inih/ini.c:224-230 | the value the buffer scan gives is the trimmed text after the separator, cut at an inline comment |
| ScannerProps.ClassifyContentMeaning | lib/inih/ini.c:183-251 | the branch taken on the stripped buffer is Meaning of its content |
| ScannerProps.StrippedLine | lib/inih/ini.c:173-181 | BOM skip, ini_lskip and ini_rstrip leave the trimmed line body (Content) and start > line exactly when the body was indented or had a BOM |
| ScannerProps.LeadSkip | lib/inih/ini.c:173-181 | ini_lskip after the BOM skip starts the LTrim of the body |
| ScannerProps.TailStrip | lib/inih/ini.c:181 | ini_rstrip of the rest of the line leaves its RTrim and a NUL |
| ScannerProps.ClassifyMeaning | lib/inih/ini.c:173-251 | each line falls into exactly one branch, the one Meaning gives for its trimmed content |
| ScannerProps.StepMeaning | lib/inih/ini.c:161-251 | one turn of the loop counts the line and applies Meaning of its content |
| ScannerProps.CommentLine | lib/inih/ini.c:183-185 | a blank line or a ';'/'#' line makes no handler call and changes nothing but the line count and a discarded-tail error |
| ScannerProps.ContinuationLineEffect | lib/inih/ini.c:186-197 | an indented non-blank line after a name calls the handler once with (section, prev_name, the cut and right-trimmed text) and records the error if the handler fails |
| ScannerProps.SectionHeaderLine | lib/inih/ini.c:199-212 | a "[name]" line sets section to the name truncated to 49 chars, clears prev_name and makes no handler call |
| ScannerProps.UnclosedSectionLine | lib/inih/ini.c:213-216 | a '[' line with no ']' before an inline comment leaves section alone and records the error |
| ScannerProps.PairLineEffect | lib/inih/ini.c:218-238 | a name=value or name:value line calls the handler once with (section, right-trimmed name, cut and trimmed value), sets prev_name to the name truncated to 49 chars, and records the error if the handler fails |
| ScannerProps.MissingSeparatorLine | lib/inih/ini.c:239-249 | a non-blank line without a separator records the error and makes no handler call |
| ScannerProps.StepError | lib/inih/ini.c:161-251 | one line sets error to its number exactly when it fails and error was 0, and leaves it otherwise |
| ScannerProps.FirstFailing | lib/inih/ini.c:263 | the number of the first failing line, or 0, lies within the lines scanned |
| ScannerProps.FirstError | lib/inih/ini.c:263 | starting from no error, the result is the line number of the first failing line, or 0 |
| ScannerProps.ParseResult | lib/inih/ini.c:97-264 | a parse counts every line the reader returns and returns the number of the first failing line, or 0 |
| ScannerProps.AfterNewline | lib/inih/ini.c:163-171 | what follows the first newline is a suffix |
| ScannerProps.AfterNewlineSkip | lib/inih/ini.c:163-171 | skipping chars that are not newlines does not move the end of the line |
| ScannerProps.EndsLineNoNul | lib/inih/ini.c:168 | on a NUL-free chunk the guarded end-of-line test is "the last char is a newline" |
| ScannerProps.DiscardToEndOfLine | lib/inih/ini.c:163-171 | on NUL-free input the discard loop throws away exactly the rest of the line, newline included |
| ScannerProps.FirstLine | lib/inih/ini.c:298-305 | the first line of the input ends at its first newline, or at the end of the input when it has none |
| ScannerProps.ChunkLenFirstLine | lib/inih/ini.c:298-305 | one read copies the smaller of its capacity and the length of the first line, newline included |
| ScannerProps.ShortFirstLine | lib/inih/ini.c:139-161 | a first line of at most 199 bytes, newline included, is read whole and not marked discarded |
| ScannerProps.LongFirstLine | lib/inih/ini.c:139-171 | a longer first line is read as its first 199 bytes, marked discarded, and the scan goes on after its newline |
| ScannerProps.LinesAtNewlines | lib/inih/ini.c:139-171 | on NUL-free input the lines the loop sees are the input cut after each newline, each line of 200 bytes or more cut to its first 199 and marked discarded (NewlineLines) |
| ScannerProps.OverlongLine | lib/inih/ini.c:164-171 | a line with no newline in its first 199 bytes keeps those bytes, is marked discarded exactly when more input follows, and the next line starts after its newline |
| ScannerProps.ShortLinesCut | lib/inih/ini.c:139-161 | when every line fits in 199 bytes, the line texts put back together are the input, none is discarded, and each runs up to its first newline, which ends it unless it is the last |
| ScannerProps.AbyssTestIndex | lib/inih/ini.c:168 | the index read as written, strlen(abyss) - 1, is -1 or a position before the first NUL |
| ScannerProps.AbyssIndexAsWritten | lib/inih/ini.c:168 | the index as written is in range exactly when the chunk does not start with NUL; where it is, the guarded test agrees with it |
| ScannerProps.ChunkLenNoNewline | lib/inih/ini.c:298-305 | with no newline in the first cap chars, the reader copies exactly cap |
| ScannerProps.AbyssUnderflow | lib/inih/ini.c:164-168 | on 199 'a's then NUL, 'x', newline, the discard loop runs and its first chunk makes line 168 read abyss[-1] |
| Parser.HandleLine | lib/inih/ini.c:173-251 | the body of one loop turn leaves error, the trace, section and prev_name as Step gives them |
| Parser.StripLine | lib/inih/ini.c:173-181 | after the BOM skip, ini_lskip and ini_rstrip, the buffer holds the stripped line, and start is where ini_lskip stopped |
| Parser.SkipStart | lib/inih/ini.c:173-180 | start is 3 past a BOM on line 1 and 0 otherwise, then moved by ini_lskip |
| Parser.StripTo | lib/inih/ini.c:181 | ini_rstrip in place: the buffer holds the stripped string at s, and nothing before s or past end changes |
| Parser.Dispatch | lib/inih/ini.c:183-251 | takes the branch ClassifyContent names and leaves error, trace, section and prev_name as Apply gives them |
| Parser.HandleContinuation | lib/inih/ini.c:186-197 | cuts the inline comment, right-strips, and calls the handler with (section, prev_name, text), recording its failure |
| Parser.ContinuationScan | lib/inih/ini.c:189-191 | the inline-comment scan over the live buffer stops where it does on the stripped content, and the text before it is kept |
| Parser.HandleSection | lib/inih/ini.c:199-217 | a closed header copies the name, truncated, into section and clears prev_name, with error unchanged; an unclosed one records the error and changes neither buffer |
| Parser.CutSection | lib/inih/ini.c:202-207 | terminates at ']', copies the name truncated to 49 chars into section and clears prev_name |
| Parser.HandlePair | lib/inih/ini.c:218-251 | leaves error, the trace and prev_name as Apply of PairLine gives them, on both the pair and the missing-separator path |
| Parser.EmitPair | lib/inih/ini.c:219-237 | cuts the pair in place, copies the name into prev_name, calls the handler once and records its failure |
| Parser.PairApplied | lib/inih/ini.c:232-237 | a pair appends its event, records a failed call, and sets prev_name to the truncated name |
| Parser.CutPair | lib/inih/ini.c:220-230 | after the in-place cutting, the buffer holds PairLine's name at start and its value at value, each as a C string |
| Parser.CutName | lib/inih/ini.c:220-223 | writes NUL over the separator and right-strips the name; everything after the separator is left alone |
| Parser.CutRest | lib/inih/ini.c:224-230 | cutting the value keeps the name in place, and both fields are PairLine's |
| Parser.PairCut | lib/inih/ini.c:220-230 | the two buffers left by the cuts hold PairLine's name and value |
| Parser.NameKept | lib/inih/ini.c:224-230 | cutting after the separator does not disturb the name before it |
| Parser.CutValue | lib/inih/ini.c:224-230 | cuts at the inline comment, skips leading and strips trailing whitespace; the buffer then holds PairValue at value, and nothing before v changes |
| Parser.ValueScan | lib/inih/ini.c:226-229 | the inline-comment scan and ini_lskip of the value give the same indices on the live buffer as on the content |
| Parser.BufferedChunk | lib/inih/ini.c:140 | strlen of the line buffer is CLen of the chunk read, and the end-of-line test on the buffer is EndsLine |
| Parser.ReadAbyss | lib/inih/ini.c:165 | one read into abyss: no more input, or the next chunk of at most 15 bytes and whether it ends the line |
| Parser.DiscardRest | lib/inih/ini.c:164-171 | the discard loop leaves the input as Discard gives it and records the error exactly when it read anything |
| Parser.ReadLine | lib/inih/ini.c:139-140 | reads the next chunk of at most 199 bytes into line, and offset is its strlen |
| Parser.NextLine | lib/inih/ini.c:139-171 | reads the next physical line, discards the tail of an over-long one, counts it, and records the error; the line is the head of Lines |
| Parser.ScanLine | lib/inih/ini.c:139-257 | one turn of the loop: the scan of the remaining lines from the old state equals the scan from the new one |
| Parser.ParseStream | lib/inih/ini.c:97-264 | reads the input to its end and returns the error and the handler trace of RunLines(Lines(input), Init(), accept) |
| Parser.ParseStringLength | lib/inih/ini.c:319-327 | the parse of the first length bytes: Parse(data[..length]) |
| Parser.ParseString | lib/inih/ini.c:314-316 | the parse of the input up to its first NUL |

## Left out

- `ini_parse` and `ini_parse_file` (`lib/inih/ini.c:267-284`) are left out. They wrap `fopen`, `fgets` and `fclose`, which is file I/O; only the string-reader path is modelled.
- The heap line buffer, its `realloc` growth and the `-2` allocation-failure return are left out. They are compiled out in the default configuration.
- The other compile-time options are left out: `INI_HANDLER_LINENO`, `INI_STOP_ON_FIRST_ERROR`, `INI_CALL_HANDLER_ON_NEW_SECTION`, `INI_ALLOW_NO_VALUE` and custom allocators. Only the default set is modelled.
- The `void* user` argument and the handler's own side effects are left out. The handler is a pure predicate `accept` over the event, so a handler whose answer depends on earlier calls is not modelled.
- `isspace` is fixed to the C-locale set: space, `\t`, `\n`, `\v`, `\f` and `\r`. Other locales are left out.
- Bytes are `char` values, one per byte, and the byte-order mark is the three chars U+00EF, U+00BB and U+00BF.
- `lineno` and `error` are unbounded: the overflow of C `int` after 2^31-1 lines is not modelled.
- ScannerProps.LinesAtNewlines: covers input without NUL bytes only. On a NUL byte `strlen` ends the line's text while the reader has already consumed past it; only `Scanner.Lines` describes that case.
- `src/main.c` is not part of this model. It is a raylib window and draw loop.
- Where the code and its documentation differ, the model follows the code:
  - A section name is the text between `[` and the first `]` exactly as it stands, so whitespace inside the brackets is kept: `[ a ]` names the section ` a `.
  - A blank line takes the comment branch, because `strchr` also matches the terminator. Its effect is the same as a comment's.
  - An over-long line at the very end of the input records no error, because the discard loop reads nothing there.
  - A continuation is any indented non-blank line while `prev_name` is set, not only a line that directly follows a pair.

## Findings

| source | as written | input that shows it | evidently intended | confidence | as-written member | corrected member |
|---|---|---|---|---|---|---|
| lib/inih/ini.c:168 | the discard loop tests `abyss[strlen(abyss) - 1]`, which reads `abyss[-1]`, outside the array, when the chunk just read starts with a NUL byte | through `ini_parse_string_length`: 199 bytes `a`, then the bytes NUL, `x`, newline | test the last char only when `strlen(abyss) > 0` (Scanner.EndsLine, used by Parser.DiscardRest); ScannerProps.DiscardToEndOfLine proves that on input without NUL bytes the loop then discards exactly the rest of the over-long line | not executed | ScannerProps.AbyssUnderflow | Scanner.Discard |
