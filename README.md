# LLWatch in Dafny

LLWatch is a Windows clone of `watch`. It runs a command again and again and
shows the captured output. Highlighting is on by default. In that mode each
capture goes through these steps:

1. It is filtered line by line through an optional `-g` regex, or rewritten
   through the `-r` replacement.
2. It is cut to its first `-t` or last `-b` lines.
3. It is printed as it is on the first run. On later runs it is coloured
   position by position against the previous run's buffer.

This project models that pipeline and the utilities it is built on:

- the `lstring` search helpers and the `Split` tokenizer;
- the C char-buffer routines;
- the `LLPool` bucket allocator;
- the `GetOpts` option scanner;
- the extension cache of `WinProcess`;
- the `Hnd` handle owner.

It proves what each of them computes.

Modules, one per source file or concern:

- `StdLib` models the C and C++ library behaviour the code relies on:
  - `size_t` wrap-around and `npos`;
  - `std::string::find`, `find_first_of`, `erase` and `resize`;
  - `isspace` in the "C" locale;
  - `strlen` / `c_str()` on NUL-terminated buffers.
- `LString` models `lstring::isSpace`, `count`, `findCnt` and `Split` (llstring.h).
- `CharBuffer` models `PadRight`, `PadLeft`, `TrimString` and `lstring::trim` (llstring.cpp).
  - Each works in place on a char `array`, as the C code does.
- `LLPool` is a class over an array of buckets, with ghost records of the regions handed out.
- `GetOpts` models the getopt state machine.
  - A pure `Step` function specifies it.
  - The `GetOpts` class updates its fields through it.
- `WinProcess` models `GetRunExtension` and `GetRunCommand`.
  - `SearchPath` is an oracle parameter.
  - The two cache fields are class fields.
- `Hnd` is a handle owner class. Every `CloseHandle` it makes goes into a ghost log.
- `LLWatch` models `showDiffFast`, `TrimTopBottom`, `RegexTrim`, the `--` command extraction and one pass of `main`'s loop.
  - Console output is a sequence of events.
  - The buffers are class fields.

Strings are `seq<char>`. A `std::string` is assumed shorter than `npos`
(`Fits`), since `max_size()` is smaller. Unsigned counters are modelled at
their width where it matters:

- the `uint` line count modulo 2^32;
- `size_t` search positions modulo 2^64;
- the `(int)` cast of `find`'s result.

## Model

| member | source | states |
|---|---|---|
| LString.IsSpace | LLWatch/llstring.h:61-68 | true iff every char is `isspace` whitespace; the empty string gives true |
| LString.Count | LLWatch/llstring.h:70-79 | the number of non-overlapping occurrences of `subStr` found by successive `find`s, modulo 2^32 |
| LString.OccurrencesFromFind | LLWatch/llstring.h:75-76 | counting from a start is counting from the first match `find` returns there, or zero when there is none |
| LString.OccurrencesBound | LLWatch/llstring.h:70-79 | the non-overlapping occurrences of a non-empty `subStr` fit in the string: count × length ≤ remaining length |
| LString.OccurrencesOfChar | LLWatch/llstring.h:70-79 | counting a one-char string is counting that char |
| LString.FindCnt | LLWatch/llstring.h:81-89 | the result is the `cnt`th non-overlapping match from `pos`, or `npos` when there are fewer; with `cnt == 0` it is `pos - subLen`, wrapped |
| LString.FindCntSpec | LLWatch/llstring.h:81-89 | for `cnt ≥ 1` the result is not `npos` iff at least `cnt` matches lie at or after `pos`; it is then a match at or after `pos` with exactly `cnt - 1` matches between |
| LString.NthCharIndex | LLWatch/llstring.h:81-89 | searching for a one-char string from 0 lands on the `k`th occurrence of that char: `k - 1` of them lie before it |
| LString.Split | LLWatch/llstring.h:105-119 | the tokens are `Tokens(str, delimList)` and also `Runs(str, delimList)`, the maximal delimiter-free runs a char-by-char scanner finds, in order |
| LString.TokensAreRuns | LLWatch/llstring.h:105-119 | for every string, the `find_first_of` recursion yields exactly the runs of the char-by-char scanner |
| LString.TokensCover | LLWatch/llstring.h:105-119 | the tokens laid end to end are the string with every delimiter char removed, so no char is lost or reordered |
| LString.TokensCountStarts | LLWatch/llstring.h:105-119 | there is one token per run start, a non-delimiter at the front or right after a delimiter, so no run is split or merged |
| LString.TokensWellFormed | LLWatch/llstring.h:112-118 | every token is non-empty and holds no delimiter |
| LString.TokensCount | LLWatch/llstring.h:105-119 | there are at most as many tokens as chars |
| LString.TokensOfTerminate | LLWatch/llstring.h:105-119 | splitting non-empty delimiter-free lines, each followed by a delimiter, gives back the lines |
| CharBuffer.PadRight | LLWatch/llstring.cpp:39-51 | the buffer becomes `PaddedRight(old, min(padLen, maxLen), padChr)`, computed in place by memset and a terminator |
| CharBuffer.PaddedRightString | LLWatch/llstring.cpp:39-51 | after padding, the C string is the original followed by `padLen - strlen` pad chars when `padLen` exceeds `strlen`, else unchanged; the buffer length is kept |
| CharBuffer.PadLeft | LLWatch/llstring.cpp:54-66 | the buffer becomes `PaddedLeft(old, min(padLen, maxLen), padChr)`, computed in place by memmove and memset |
| CharBuffer.PaddedLeftString | LLWatch/llstring.cpp:54-66 | after padding, the C string is `padLen - strlen` pad chars followed by the original when `padLen` exceeds `strlen`, else unchanged |
| CharBuffer.MemSet | LLWatch/llstring.cpp:47 | memset overwrites exactly the `len` chars from `start` with `c`, and leaves the rest of the buffer unchanged |
| CharBuffer.MemMove | LLWatch/llstring.cpp:62 | memmove copies the source range as if through a temporary, even when the ranges overlap |
| CharBuffer.TrimString | LLWatch/llstring.cpp:72-88 | the buffer is rewritten in place to `TrimmedBuffer(old)`, and the returned end is where the trimmed text ends |
| CharBuffer.TrimmedBufferString | LLWatch/llstring.cpp:72-88 | after TrimString the buffer's C string is the original with leading and trailing whitespace removed, and its length is kept |
| CharBuffer.TrimmedSpec | LLWatch/llstring.cpp:77-85 | the trimmed text is the slice after the leading whitespace; only whitespace lies before it and after it |
| CharBuffer.TrimmedEdges | LLWatch/llstring.cpp:77-85 | the trimmed text is empty iff the string is all whitespace; otherwise neither end is whitespace |
| CharBuffer.TrimmedIdempotent | LLWatch/llstring.cpp:77-85 | trimming twice is trimming once |
| CharBuffer.TrimStringIdempotent | LLWatch/llstring.cpp:77-85 | TrimString on a buffer whose C string is already trimmed leaves the whole buffer unchanged |
| CharBuffer.Trim | LLWatch/llstring.cpp:91-108 | `lstring::trim` as written: the new string is the trimmed text followed by one `'\0'` |
| CharBuffer.TrimResized | LLWatch/llstring.cpp:107 | resizing to `pDst - str + 1` keeps the terminator; resizing to `pDst - str` would give exactly the trimmed text |
| CharBuffer.TrimCorrected | LLWatch/llstring.cpp:91-108 | `trim` with `resize(pDst - str)`: the new string is exactly the trimmed text |
| LLPool.Pool.constructor | LLWatch/llstring.h:130 | a new pool has no buckets and has handed out no region |
| LLPool.Pool.Clear | LLWatch/llstring.h:133-142 | the bucket list and the record of regions handed out are empty |
| LLPool.Pool.Add | LLWatch/llstring.h:144-171 | a new bucket is opened exactly when there is none or when `nextPtr + len` would reach `endPtr`, and earlier buckets are kept; the used length of every earlier bucket is unchanged, and so is the old last one when a new bucket opens; the region returned is `len` chars at the old `nextPtr`, or at 0 in a new bucket, with `nextPtr + len < endPtr`; it is disjoint from every earlier region; earlier regions keep their contents; it holds `pObj` when one is given |
| LLPool.Pool.MakeRoom | LLWatch/llstring.h:148-160 | pushes a fresh empty bucket exactly when there is none or the current one would be reached by `len`; afterwards `next + len` is below the bucket size |
| GetOpts.Initial | LLWatch/GetOpts.h:43-52 | the constructor's state satisfies the scanner invariant for every `argv` |
| GetOpts.GetOpts.constructor | LLWatch/GetOpts.h:43-52 | the state is `m_optIdx == 1` with `m_argSeq == ""` and no error |
| GetOpts.FirstCall | LLWatch/GetOpts.h:43-52 | the first call after construction examines `argv[1]`, or ends when there is none |
| GetOpts.Step | LLWatch/GetOpts.cpp:37-110 | one call keeps the scanner invariant; `m_optIdx` never decreases and stays within `argc`; a true return implies no error |
| GetOpts.GetOpts.GetOpt | LLWatch/GetOpts.cpp:37-110 | the new fields and the result are exactly `Step` of the old fields |
| GetOpts.GetOpts.Load | LLWatch/GetOpts.cpp:41-57 | the first half of GetOpt: loads the next `argv` element when the cluster is used up, or ends scanning |
| GetOpts.GetOpts.Examine | LLWatch/GetOpts.cpp:59-109 | the second half of GetOpt: looks the letter up and takes its argument, as `Take` says |
| GetOpts.Take | LLWatch/GetOpts.cpp:59-109 | looking up a letter keeps the invariant, never moves `m_optIdx` back or past `argc`, and returns true only without error |
| GetOpts.Run | LLWatch/GetOpts.cpp:37-110 | any number of successive calls keeps the scanner invariant |
| GetOpts.RunMonotone | LLWatch/GetOpts.cpp:39-109 | over any number of calls `m_optIdx` only grows and stays within `argc` (at least 1) |
| GetOpts.StepEnds | LLWatch/GetOpts.cpp:41-48 | when `argv` is used up, or the next element does not start with `'-'`, the call returns false without error and leaves `m_optIdx` |
| GetOpts.StepDoubleDash | LLWatch/GetOpts.cpp:50-56 | an element starting with `"--"` ends scanning without error, and `m_optIdx` moves past it |
| GetOpts.StepFlag | LLWatch/GetOpts.cpp:60-83 | a letter listed without `':'` is returned with no argument; `m_optIdx` advances only when its cluster is used up |
| GetOpts.StepUnknown | LLWatch/GetOpts.cpp:61-76 | `':'` or an unlisted letter returns false; it is an error unless the letter is `'-'`, which leaves `m_optIdx` where it was |
| GetOpts.StepArgument | LLWatch/GetOpts.cpp:85-107 | a letter listed with `':'` takes the rest of its cluster, else the next element; with neither it is an error and `m_optIdx == argc` |
| GetOpts.Position | LLWatch/GetOpts.h:82-87 | the first index of `chr` in the C string, counting its terminator, and none exactly when `chr` is not NUL and absent |
| GetOpts.PositionOfTerminator | LLWatch/GetOpts.h:84-86 | looking for `'\0'` finds the terminator rather than failing |
| GetOpts.GetOpts.FindChr | LLWatch/GetOpts.h:82-87 | the pointer-advancing loop returns `Position(str, chr)` |
| GetOpts.GetOpts.Opt | LLWatch/GetOpts.h:68-69 | returns `m_optOpt` and changes nothing |
| GetOpts.GetOpts.Error | LLWatch/GetOpts.h:71-72 | returns `m_error` and changes nothing |
| GetOpts.GetOpts.OptArg | LLWatch/GetOpts.h:75-76 | returns `m_optArg` and changes nothing |
| GetOpts.GetOpts.NextIdx | LLWatch/GetOpts.h:79-80 | returns `m_optIdx` and changes nothing |
| WinProcess.WinProcess.constructor | LLWatch/WinProcess.h:42-53 | a new object has `m_extn == NULL`, an empty last name, and no probe made |
| WinProcess.WinProcess.GetRunExtension | LLWatch/WinProcess.cpp:80-107 | the new cache and the result are `Lookup` of the old cache; the probes made are `Probed`: none on a hit, else each extension in order up to the first found |
| WinProcess.FirstHit | LLWatch/WinProcess.cpp:97-104 | the first extension in probe order under which `SearchPath` finds the name, or none |
| WinProcess.LookupMiss | LLWatch/WinProcess.cpp:85-106 | on a miss the name is recorded; the result is the first extension found in order, or NULL when none is found |
| WinProcess.LookupRepeat | LLWatch/WinProcess.cpp:83-84 | asking again about the same name answers from the cache without probing |
| WinProcess.LookupStale | LLWatch/WinProcess.cpp:83-106 | when nothing is found the call returns NULL but leaves `".ps"` cached, so the next call with that name returns `".ps"` |
| WinProcess.LookupInitial | LLWatch/WinProcess.cpp:83-84 | from the initial state an empty name gives NULL with no probe |
| WinProcess.CharIndex | LLWatch/WinProcess.cpp:113-115 | `strchr` for a char, falling back to `strchr` for the terminator: the first index of the char, or the length |
| WinProcess.ExeNameRest | LLWatch/WinProcess.cpp:113-116 | the exe name, which holds no space, followed by the rest, which is empty or starts with a space, is the command |
| WinProcess.RunCommandSpec | LLWatch/WinProcess.cpp:119-134 | `.cmd`, `.bat` and `.ps` give `exeName + extn + rest`; any other extension or NULL leaves the command unchanged |
| WinProcess.WinProcess.GetRunCommand | LLWatch/WinProcess.cpp:110-135 | the out-parameter is `RunCommand(command, extn)` for the extension the cache lookup gives, and the result equals it |
| Hnd.Step | LLWatch/Hnd.h:44-88 | an operation closes the held handle exactly when it is valid and is not being reassigned to itself; Close and the destructor leave it invalid |
| Hnd.StepOwned | LLWatch/Hnd.h:47-88 | one operation closes what it takes off the object, and the object then holds what it got |
| Hnd.RunClosesOwned | LLWatch/Hnd.h:41-88 | over any sequence of operations the closes followed by the handle still held are exactly the handles owned, in order, so each acquired handle is closed at most once |
| Hnd.CloseTwice | LLWatch/Hnd.h:81-88 | a second Close closes nothing |
| Hnd.Hnd.IsValid | LLWatch/Hnd.h:78-79 | the object holds a handle exactly when it has closed fewer handles than it has owned |
| Hnd.Hnd.constructor | LLWatch/Hnd.h:41-42 | holds the given handle and has closed nothing |
| Hnd.Hnd.Default | LLWatch/Hnd.h:41-42 | a default-constructed object is invalid |
| Hnd.Hnd.Close | LLWatch/Hnd.h:81-88 | a valid handle is closed once and becomes invalid; an invalid one is left alone |
| Hnd.Hnd.Assign | LLWatch/Hnd.h:47-53 | a different handle closes the old one first; the same handle closes nothing |
| Hnd.Hnd.Destroy | LLWatch/Hnd.h:44-45 | the destructor closes a valid handle and leaves none held |
| LLWatch.ShowDiffFast | LLWatch/LLWatch.cpp:116-139 | the events satisfy `DiffOf`: the texts concatenate to `currBuffer`; on `[0, min)` a char is in MATCH colour iff it equals `prevBuffer` there; the tail is MATCH and emitted only when non-empty |
| LLWatch.Matching | LLWatch/LLWatch.cpp:123-124 | the inner loop stops at the first mismatch or the end, and all chars it passed match |
| LLWatch.Differing | LLWatch/LLWatch.cpp:128-129 | the inner loop stops at the first match or the end, and all chars it passed differ |
| LLWatch.NewlineAt | LLWatch/LLWatch.cpp:149-154 | `findCnt("\n", 0, k)` is the index of a newline with `k - 1` newlines before it |
| LLWatch.TopBottomBottom | LLWatch/LLWatch.cpp:146-151 | the bottom branch wins when both apply; it keeps a suffix starting with `'\n'` after `lineCnt - bottomLines - 1` newlines, so it holds `bottomLines + 1` newlines |
| LLWatch.TopBottomTop | LLWatch/LLWatch.cpp:152-156 | the top branch keeps the prefix through the `topLines`th newline; it ends with `'\n'` and holds exactly `topLines` newlines |
| LLWatch.TopBottomKeep | LLWatch/LLWatch.cpp:144-157 | with neither limit exceeded, or both 0, the buffer is unchanged |
| LLWatch.TrimTopBottom | LLWatch/LLWatch.cpp:142-157 | the new buffer is `TopBottom(buf, topLines, bottomLines)` |
| LLWatch.KeepBottom | LLWatch/LLWatch.cpp:148-150 | erase(0, findCnt(...)) gives the bottom branch of `TopBottom` |
| LLWatch.KeepTop | LLWatch/LLWatch.cpp:154-155 | resize(findCnt(...) + 1) gives the top branch of `TopBottom` |
| LLWatch.SurvivorsShape | LLWatch/LLWatch.cpp:177-178 | surviving lines are never empty or all whitespace, and there are no more of them than input lines |
| LLWatch.RegexTrim | LLWatch/LLWatch.cpp:160-190 | the new buffer is the surviving lines in order, each followed by `"\n"`; replace mode is used iff `replaceStr` is not empty |
| LLWatch.RegexTrimmedLines | LLWatch/LLWatch.cpp:183-189 | splitting the result into lines again gives exactly the surviving lines, when no replacement put a newline into one |
| LLWatch.RegexTrimmedEmpty | LLWatch/LLWatch.cpp:160-190 | empty input gives empty output |
| LLWatch.DropLines | LLWatch/LLWatch.cpp:168-181 | the backward loop leaves exactly the surviving lines, in order |
| LLWatch.Visit | LLWatch/LLWatch.cpp:170-180 | line `n - 1` is erased iff it fails the pattern or is whitespace after it; otherwise it is replaced by its rewritten text |
| LLWatch.Join | LLWatch/LLWatch.cpp:183-189 | the result is each line followed by a newline |
| LLWatch.Int32 | LLWatch/LLWatch.cpp:204 | the `(int)` cast keeps small indices and turns `npos` into -1 |
| LLWatch.AfterDashes | LLWatch/LLWatch.cpp:204-206 | with no `"--"` in the line the command is the whole line; otherwise it is what follows the first occurrence of `"--"` |
| LLWatch.CutDashes | LLWatch/LLWatch.cpp:204-206 | the erase through the first `"--"` leaves `AfterDashes(cmdLine)` |
| LLWatch.ExtractCommand | LLWatch/LLWatch.cpp:204-214 | as written: the command is the trimmed text plus `'\0'`, and the "Specify a command" error is never returned |
| LLWatch.BlankCommandAccepted | LLWatch/LLWatch.cpp:208-214 | a blank command is accepted as the one-char command `"\0"` |
| LLWatch.ExtractCommandCorrected | LLWatch/LLWatch.cpp:204-214 | with the corrected trim the error is returned iff only whitespace follows the `"--"`; otherwise the command has no whitespace at either end |
| LLWatch.Watch.constructor | LLWatch/LLWatch.cpp:290-291 | the loop starts with the given settings and empty `prevBuffer` and `currBuffer` |
| LLWatch.Watch.Iterate | LLWatch/LLWatch.cpp:309-327 | with highlighting off the capture is passed through and both buffers are unchanged; otherwise the processed buffer is written verbatim when `prevBuffer` is empty, and as events satisfying `DiffOf` against `prevBuffer` when it is not; afterwards `prevBuffer` holds this run's processed buffer and `currBuffer` the previous one |
| LLWatch.ShowsWritten | LLWatch/LLWatch.cpp:309-322 | a highlighted run writes exactly its processed buffer, either way it is shown, and is verbatim iff the previous buffer is empty; otherwise the capture passes through |
| LLWatch.ProcessedSlice | LLWatch/LLWatch.cpp:309-314 | the filter runs first, and the trim keeps a contiguous part of its output; with no filter and no limits the capture is shown whole |
| LLWatch.VerbatimRuns | LLWatch/LLWatch.cpp:316-322 | from a fresh start the first run is verbatim, and so is every run after one whose processed buffer was empty |
| LLWatch.Watch.Run | LLWatch/LLWatch.cpp:298-332 | runs `min(captures, m_maxRunCnt)` iterations; each output is what its run shows against the previous run's processed buffer |
| LLWatch.SessionGrows | LLWatch/LLWatch.cpp:298-332 | one more run's output extends a consistent session |

## Left out

- Process and pipe plumbing is not modelled: `CreateChildProcess`, `ReadFromPipe`, `CloseProcess`, `WriteToPipe` and `ErrorExit`.
  - Each run's capture is an input.
  - `ReadFromPipe` clearing the buffer and appending is an assignment.
- Console output through Colorize is not modelled: colour escapes, `"!BF"` parsing, and re-parsing `'!'` in captured text. Output is a sequence of `SetColor`/`Text` events, one per `Colorize::write` call.
- `regFind` and `regReplace` are uninterpreted functions (`Finder`, `Replacer`). The `std::regex` engine is not modelled.
- These are left out as libc or OS calls: option parsing beyond `GetOpt`; `strtoul` for `-b`, `-n` and `-t`; `GetCommandLine` and the `argv[0]` erase; `WinCursor`, `Sleep`, the verbose banners, and `MessageBox`.
  - The settings the options produce are a `Settings` value.
  - `ExtractCommand` takes the command line after `argv[0]` was erased.
- `operator<<` overloads and the static `LLString` pool wrapper are stream output only, and are not modelled.
- `LLPool`: freeing the buckets in Clear and by the destructor is left to the garbage collector. Returned pointers are `(bucket, offset)` pairs rather than raw addresses.
- By-reference `std::string` parameters are modelled as values returned by the method:
  - `currBuffer` in `TrimTopBottom` and `RegexTrim`;
  - `fullCommand` in `GetRunCommand`.
- `std::string` values are `seq<char>` values, so aliasing between them is not modelled. The char-buffer routines of llstring.cpp do work in place on an array.
- WinProcess.WinProcess.GetRunExtension: instead of a `SearchPath` call there is an oracle `Probe`. The full path it writes is not modelled, and neither is `MAX_PATH`.
- LLWatch.ShowDiffFast: requires `|currBuffer| < 2^32`. The source keeps its indices in 32-bit `unsigned` and would wrap on longer buffers. `Bounded` carries the same bound into `LLWatch.Watch.Iterate`.
- LLWatch.RegexTrim: the append loop's 32-bit `unsigned idx` is modelled as unbounded (`LLWatch.Join`). With 2^32 or more surviving lines the source never reaches `lines.size()` and does not terminate, while the model does. `Bounded` keeps the survivors below 2^32 in `LLWatch.Watch.Iterate`.
- Hnd: its implicit copy constructor and copy assignment, and writes through `operator HANDLE&` or the public `m_handle`, are not modelled. They could duplicate a handle or bypass `Close`, but nothing in the core uses them.
- LString.IsSpace: its 32-bit `unsigned` index is modelled as unbounded, which is the same for strings shorter than 2^32.
- LString.Count: requires a non-empty `subStr` unless the string is empty. With an empty `subStr` the source never advances its search position and does not terminate.
- LLWatch.ExtractCommand: requires the command line to be shorter than 2^31 - 2 chars. Then `(int)find("--")` and `off + 2` cannot overflow an `int`. Windows limits command lines to 32767 chars.
- LLWatch.Watch.Run: runs over a finite sequence of captures, so it makes `min(|captures|, 2^32 - 1)` iterations rather than always `m_maxRunCnt`.
- The DWORD length cast in `WriteFile` is not modelled: a verbatim output carries the processed buffer itself.
- The `TrimTopBottom` bottom branch keeps the newline that ends the line before the kept lines. The result starts with `'\n'` and holds `bottomLines + 1` newlines. The model follows the code here, rather than the plain reading of "keep the last N lines".

## Findings

| source | as written | input that shows it | evidently intended | confidence | as-written member | corrected member |
|---|---|---|---|---|---|---|
| LLWatch/llstring.cpp:107, LLWatch/LLWatch.cpp:208-214 | `trim` resizes to `pDst - str + 1`, which keeps the terminating `'\0'` inside the string, so `cmdLine.length()` is never 0 after `trim()` | `llwatch --   ` (a blank command after `--`): the line trims to `"\0"`, length 1, and is run instead of giving "Specify a command to execute" | `resize(pDst - str)`, so a blank command is reported | not executed | CharBuffer.Trim, LLWatch.ExtractCommand, LLWatch.BlankCommandAccepted | CharBuffer.TrimCorrected, LLWatch.ExtractCommandCorrected |
