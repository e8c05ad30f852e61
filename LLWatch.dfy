/** The watch pipeline of LLWatch: each run's captured output is filtered
    by a line pattern, cut to its top or bottom lines, and shown either as
    it is or coloured by where it differs from the previous run. Console
    output is modelled as a sequence of events. */
module LLWatch {
  import opened StdLib
  import opened LString
  import opened CharBuffer

  /** The two colour codes written before each segment. */
  datatype Color = MatchColor | DiffColor

  /** One Colorize::write call: a colour escape, or a run of text. */
  datatype Event = SetColor(color: Color) | Text(text: seq<char>)

  /** All text written, in order. */
  function Texts(events: seq<Event>): seq<char>
  {
    if events == [] then []
    else
      var e := events[|events| - 1];
      Texts(events[..|events| - 1]) + (if e.Text? then e.text else [])
  }

  /** The colour last set, MATCH_COLOR before any. */
  function Current(events: seq<Event>): Color
  {
    if events == [] then MatchColor
    else if events[|events| - 1].SetColor? then events[|events| - 1].color
    else Current(events[..|events| - 1])
  }

  /** The colour each written char appears in. */
  function Paint(events: seq<Event>): (r: seq<Color>)
  {
    if events == [] then []
    else
      var e := events[|events| - 1];
      var before := events[..|events| - 1];
      Paint(before) + (if e.Text? then Repeat(Current(before), |e.text|) else [])
  }

  /** Setting a colour and writing text in it. */
  lemma Write(events: seq<Event>, c: Color, t: seq<char>)
    ensures Texts(events + [SetColor(c), Text(t)]) == Texts(events) + t
    ensures Paint(events + [SetColor(c), Text(t)]) == Paint(events) + Repeat(c, |t|)
    ensures Current(events + [SetColor(c), Text(t)]) == c
  {
    var e1 := events + [SetColor(c)];
    var e2 := e1 + [Text(t)];
    assert events + [SetColor(c), Text(t)] == e2;
    assert e2[..|e2| - 1] == e1 && e2[|e2| - 1] == Text(t);
    assert e1[..|e1| - 1] == events && e1[|e1| - 1] == SetColor(c);
    assert Texts(e1) == Texts(events) + [];
    AppendEmpty(Texts(events));
    assert Paint(e1) == Paint(events) + [];
    AppendEmpty(Paint(events));
    assert Current(e1) == c;
  }

  /** What showDiffFast promises about the events it writes for `curr`
      against `prev`: together they write `curr`; up to the shorter
      length a char is in MATCH_COLOR exactly when it equals the char of
      `prev` at the same index; the rest is in MATCH_COLOR; and the last
      events are MATCH_COLOR then that rest, when there is any. */
  ghost predicate DiffOf(events: seq<Event>, curr: seq<char>, prev: seq<char>)
  {
    var n := Min(|curr|, |prev|);
    Texts(events) == curr && |Paint(events)| == |curr| &&
    (forall i :: 0 <= i < n ==> (Paint(events)[i] == MatchColor <==> curr[i] == prev[i])) &&
    (forall i :: n <= i < |curr| ==> Paint(events)[i] == MatchColor) &&
    |events| >= 1 &&
    (if n < |curr| then |events| >= 2 && events[|events| - 2..] == [SetColor(MatchColor), Text(curr[n..])]
     else events[|events| - 1] == SetColor(MatchColor))
  }

  /** showDiffFast: alternates runs of equal chars (MATCH_COLOR) and of
      differing chars (DIFF_COLOR) over the common length, then writes
      what `curr` has beyond it in MATCH_COLOR. */
  method ShowDiffFast(curr: seq<char>, prev: seq<char>) returns (events: seq<Event>)
    requires |curr| < UINT_MOD
    ensures DiffOf(events, curr, prev)
  {
    events := [];
    var endIdx := Min(|curr|, |prev|);
    var startIdx := 0;
    var idx := 0;
    while idx != endIdx
      invariant startIdx == idx <= endIdx
      invariant Texts(events) == curr[..idx] && |Paint(events)| == idx
      invariant forall i :: 0 <= i < idx ==> (Paint(events)[i] == MatchColor <==> curr[i] == prev[i])
      decreases endIdx - idx
    {
      events, idx := Segments(curr, prev, events, idx, endIdx);
      startIdx := idx;
    }
    events := Finish(curr, prev, events, startIdx);
  }

  /** One pass of the outer loop: a MATCH_COLOR run and a DIFF_COLOR run,
      of which at least one is not empty. */
  method Segments(curr: seq<char>, prev: seq<char>, events: seq<Event>, startIdx: nat, endIdx: nat)
    returns (events': seq<Event>, idx: nat)
    requires startIdx < endIdx == Min(|curr|, |prev|)
    requires Texts(events) == curr[..startIdx] && |Paint(events)| == startIdx
    requires forall i :: 0 <= i < startIdx ==> (Paint(events)[i] == MatchColor <==> curr[i] == prev[i])
    ensures startIdx < idx <= endIdx
    ensures Texts(events') == curr[..idx] && |Paint(events')| == idx
    ensures forall i :: 0 <= i < idx ==> (Paint(events')[i] == MatchColor <==> curr[i] == prev[i])
  {
    var mid := Matching(curr, prev, startIdx, endIdx);
    Write(events, MatchColor, curr[startIdx..mid]);
    var matched := events + [SetColor(MatchColor), Text(curr[startIdx..mid])];
    Grow(curr, prev, events, matched, startIdx, mid, MatchColor);
    idx := Differing(curr, prev, mid, endIdx);
    Write(matched, DiffColor, curr[mid..idx]);
    events' := matched + [SetColor(DiffColor), Text(curr[mid..idx])];
    Grow(curr, prev, matched, events', mid, idx, DiffColor);
  }

  /** After the loop: MATCH_COLOR, then what `curr` has beyond `prev`. */
  method Finish(curr: seq<char>, prev: seq<char>, events: seq<Event>, startIdx: nat) returns (events': seq<Event>)
    requires |curr| < UINT_MOD && startIdx == Min(|curr|, |prev|)
    requires Texts(events) == curr[..startIdx] && |Paint(events)| == startIdx
    requires forall i :: 0 <= i < startIdx ==> (Paint(events)[i] == MatchColor <==> curr[i] == prev[i])
    ensures DiffOf(events', curr, prev)
  {
    events' := events + [SetColor(MatchColor)];
    var idx := |curr|;
    if idx > startIdx {
      Write(events, MatchColor, curr[startIdx..idx]);
      events' := events' + [Text(curr[startIdx..idx])];
      assert curr[startIdx..idx] == curr[startIdx..];
    }
    Tail(curr, prev, events, events', startIdx);
  }

  /** The first inner loop: passes over chars equal to those of `prev`. */
  method Matching(curr: seq<char>, prev: seq<char>, from: nat, endIdx: nat) returns (idx: nat)
    requires from <= endIdx <= |curr| && endIdx <= |prev|
    ensures from <= idx <= endIdx
    ensures forall i :: from <= i < idx ==> curr[i] == prev[i]
    ensures idx < endIdx ==> curr[idx] != prev[idx]
  {
    idx := from;
    while idx != endIdx && curr[idx] == prev[idx]
      invariant from <= idx <= endIdx
      invariant forall i :: from <= i < idx ==> curr[i] == prev[i]
    {
      idx := idx + 1;
    }
  }

  /** The second inner loop: passes over chars that differ from those of
      `prev`; it always moves when the first loop stopped on one. */
  method Differing(curr: seq<char>, prev: seq<char>, from: nat, endIdx: nat) returns (idx: nat)
    requires from <= endIdx <= |curr| && endIdx <= |prev|
    ensures from <= idx <= endIdx
    ensures forall i :: from <= i < idx ==> curr[i] != prev[i]
    ensures from < endIdx && curr[from] != prev[from] ==> from < idx
  {
    idx := from;
    while idx != endIdx && curr[idx] != prev[idx]
      invariant from <= idx <= endIdx
      invariant forall i :: from <= i < idx ==> curr[i] != prev[i]
    {
      idx := idx + 1;
    }
  }

  /** Writing a run of `curr` in the colour that matches its chars keeps
      the loop's account of what is on screen. */
  lemma Grow(curr: seq<char>, prev: seq<char>, before: seq<Event>, after: seq<Event>, from: nat, to: nat, c: Color)
    requires from <= to <= |curr| && to <= |prev|
    requires Texts(before) == curr[..from] && |Paint(before)| == from
    requires forall i :: 0 <= i < from ==> (Paint(before)[i] == MatchColor <==> curr[i] == prev[i])
    requires forall i :: from <= i < to ==> (curr[i] == prev[i] <==> c == MatchColor)
    requires Texts(after) == Texts(before) + curr[from..to]
    requires Paint(after) == Paint(before) + Repeat(c, to - from)
    ensures Texts(after) == curr[..to] && |Paint(after)| == to
    ensures forall i :: 0 <= i < to ==> (Paint(after)[i] == MatchColor <==> curr[i] == prev[i])
  {
    assert curr[..from] + curr[from..to] == curr[..to];
  }

  /** The closing MATCH_COLOR and the tail beyond the common length. */
  lemma Tail(curr: seq<char>, prev: seq<char>, front: seq<Event>, events: seq<Event>, startIdx: nat)
    requires startIdx == Min(|curr|, |prev|)
    requires Texts(front) == curr[..startIdx] && |Paint(front)| == startIdx
    requires forall i :: 0 <= i < startIdx ==> (Paint(front)[i] == MatchColor <==> curr[i] == prev[i])
    requires startIdx < |curr| ==> events == front + [SetColor(MatchColor), Text(curr[startIdx..])]
    requires startIdx < |curr| ==>
      Texts(events) == Texts(front) + curr[startIdx..] &&
      Paint(events) == Paint(front) + Repeat(MatchColor, |curr| - startIdx)
    requires startIdx == |curr| ==> events == front + [SetColor(MatchColor)]
    ensures DiffOf(events, curr, prev)
  {
    if startIdx < |curr| {
      assert curr[..startIdx] + curr[startIdx..] == curr;
      assert events[|events| - 2..] == [SetColor(MatchColor), Text(curr[startIdx..])];
    } else {
      assert curr[..startIdx] == curr;
      assert events[..|events| - 1] == front;
      assert Texts(events) == Texts(front) + [];
      AppendEmpty(Texts(front));
      assert Paint(events) == Paint(front) + [];
      AppendEmpty(Paint(front));
    }
  }

  // ---------------------------------------------------------------------------
  // TrimTopBottom

  /** lstring::count of "\n", as the uint it is kept in. */
  function LineCount(buf: seq<char>): UInt
  {
    Tally(buf, '\n') % UINT_MOD
  }

  /** Where findCnt("\n", 0, k) lands: the index of the `k`th newline. */
  function NewlineAt(buf: seq<char>, k: nat): (r: nat)
    requires Fits(buf) && 1 <= k <= Tally(buf, '\n')
    ensures r < |buf| && buf[r] == '\n'
    ensures Tally(buf[..r], '\n') == k - 1 && Tally(buf[r..], '\n') == Tally(buf, '\n') - k + 1
  {
    NthCharIndex(buf, '\n', k);
    FindCntFrom(buf, "\n", Wrap(0 - 1), k)
  }

  /** The buffer TrimTopBottom leaves: from the newline that starts the
      last `bottomLines` lines, or else through the newline that ends the
      first `topLines` lines, or else all of it. */
  function TopBottom(buf: seq<char>, topLines: UInt, bottomLines: UInt): seq<char>
    requires Fits(buf)
  {
    var n := LineCount(buf);
    if n > bottomLines && bottomLines != 0 then buf[NewlineAt(buf, n - bottomLines)..]
    else if n > topLines && topLines != 0 then buf[..NewlineAt(buf, topLines) + 1]
    else buf
  }

  /** The bottom limit wins when both apply. What it keeps is the suffix
      starting at a newline before which exactly lineCnt - bottomLines - 1
      newlines lie, so it holds bottomLines + 1 newlines (when the count
      did not wrap around). */
  lemma TopBottomBottom(buf: seq<char>, topLines: UInt, bottomLines: UInt)
    requires Fits(buf) && LineCount(buf) > bottomLines && bottomLines != 0
    ensures var r := TopBottom(buf, topLines, bottomLines); var cut := |buf| - |r|;
      |r| > 0 && r == buf[cut..] && r[0] == '\n' &&
      Tally(buf[..cut], '\n') == LineCount(buf) - bottomLines - 1 &&
      (Tally(buf, '\n') < UINT_MOD ==> Tally(r, '\n') == bottomLines + 1)
  {
  }

  /** Otherwise the top limit keeps the prefix through the topLines-th
      newline, which holds exactly topLines newlines and ends with one;
      text after it, terminated or not, is dropped. */
  lemma TopBottomTop(buf: seq<char>, topLines: UInt, bottomLines: UInt)
    requires Fits(buf) && !(LineCount(buf) > bottomLines && bottomLines != 0)
    requires LineCount(buf) > topLines && topLines != 0
    ensures var r := TopBottom(buf, topLines, bottomLines);
      |r| > 0 && r == buf[..|r|] && r[|r| - 1] == '\n' && Tally(r, '\n') == topLines
  {
    var p := NewlineAt(buf, topLines);
    TallySplitAt(buf[..p + 1], p, '\n');
    assert buf[..p + 1][..p] == buf[..p];
    assert buf[..p + 1][p + 1..] == [];
  }

  /** With neither limit reached, or both 0, the buffer is kept. */
  lemma TopBottomKeep(buf: seq<char>, topLines: UInt, bottomLines: UInt)
    requires Fits(buf)
    requires bottomLines == 0 || LineCount(buf) <= bottomLines
    requires topLines == 0 || LineCount(buf) <= topLines
    ensures TopBottom(buf, topLines, bottomLines) == buf
  {
  }

  /** TrimTopBottom: counts the lines, then erases up to the newline
      findCnt finds, or resizes to just past it. */
  method TrimTopBottom(currBuffer: seq<char>, topLines: UInt, bottomLines: UInt) returns (r: seq<char>)
    requires Fits(currBuffer)
    ensures r == TopBottom(currBuffer, topLines, bottomLines)
  {
    var lineCnt := Count(currBuffer, "\n");
    OccurrencesOfChar(currBuffer, '\n', 0);
    assert currBuffer[0..] == currBuffer;
    if lineCnt > bottomLines && bottomLines != 0 {
      r := KeepBottom(currBuffer, topLines, bottomLines, lineCnt);
    } else if lineCnt > topLines && topLines != 0 {
      r := KeepTop(currBuffer, topLines, bottomLines, lineCnt);
    } else {
      TopBottomKeep(currBuffer, topLines, bottomLines);
      r := currBuffer;
    }
  }

  /** The bottom branch: erases everything before the newline findCnt
      finds after skipping lineCnt - bottomLines - 1 of them. */
  method KeepBottom(currBuffer: seq<char>, topLines: UInt, bottomLines: UInt, lineCnt: UInt) returns (r: seq<char>)
    requires Fits(currBuffer) && lineCnt == LineCount(currBuffer)
    requires lineCnt > bottomLines && bottomLines != 0
    ensures r == TopBottom(currBuffer, topLines, bottomLines)
  {
    var skipLines := lineCnt - bottomLines;
    var offset := FindCnt(currBuffer, "\n", 0, skipLines);
    assert offset == NewlineAt(currBuffer, skipLines);
    r := EraseFront(currBuffer, offset);
  }

  /** The top branch: resizes to just past the topLines-th newline. */
  method KeepTop(currBuffer: seq<char>, topLines: UInt, bottomLines: UInt, lineCnt: UInt) returns (r: seq<char>)
    requires Fits(currBuffer) && lineCnt == LineCount(currBuffer)
    requires !(lineCnt > bottomLines && bottomLines != 0) && lineCnt > topLines && topLines != 0
    ensures r == TopBottom(currBuffer, topLines, bottomLines)
  {
    var eol := "\n";
    var offset := FindCnt(currBuffer, eol, 0, topLines);
    assert offset == NewlineAt(currBuffer, topLines);
    r := Resize(currBuffer, Wrap(offset + |eol|));
  }

  // ---------------------------------------------------------------------------
  // RegexTrim

  /** lstring::regFind with the -g pattern: does the line match? */
  type Finder = seq<char> -> bool

  /** lstring::regReplace with the -g pattern and the -r text: whether the
      line matched, and the line after replacing. */
  type Replacer = seq<char> -> (bool, seq<char>)

  /** What becomes of one line: it is kept, replaced when replace mode is
      on, unless it did not match or is all whitespace. */
  function Survivor(line: seq<char>, doReplace: bool, find: Finder, replace: Replacer): Option<seq<char>>
  {
    var (keep, str) := if doReplace then replace(line) else (find(line), line);
    if !keep || AllSpace(str) then None else Some(str)
  }

  /** The lines that survive, in order. */
  function Survivors(lines: seq<seq<char>>, doReplace: bool, find: Finder, replace: Replacer): seq<seq<char>>
  {
    if lines == [] then []
    else
      var s := Survivor(lines[0], doReplace, find, replace);
      (if s.Some? then [s.value] else []) + Survivors(lines[1..], doReplace, find, replace)
  }

  /** Survivors are never empty, and without replace mode they are lines
      of the input. */
  lemma {:induction false} SurvivorsShape(lines: seq<seq<char>>, doReplace: bool, find: Finder, replace: Replacer)
    ensures |Survivors(lines, doReplace, find, replace)| <= |lines|
    ensures forall l :: l in Survivors(lines, doReplace, find, replace) ==> |l| > 0 && !AllSpace(l)
    ensures !doReplace ==> forall l :: l in Survivors(lines, doReplace, find, replace) ==> l in lines && find(l)
    decreases |lines|
  {
    if lines != [] {
      SurvivorsShape(lines[1..], doReplace, find, replace);
      var s := Survivor(lines[0], doReplace, find, replace);
      assert forall l :: l in lines[1..] ==> l in lines;
    }
  }

  /** The buffer RegexTrim leaves. */
  function RegexTrimmed(buf: seq<char>, replaceStr: seq<char>, find: Finder, replace: Replacer): seq<char>
    requires Fits(buf)
  {
    Terminate(Survivors(Tokens(buf, "\n"), replaceStr != [], find, replace), '\n')
  }

  /** No line holds a newline. */
  predicate SingleLines(ls: seq<seq<char>>)
  {
    forall l :: l in ls ==> '\n' !in l
  }

  /** Splitting the result into lines again gives back the surviving lines
      when no replacement put a newline into one. */
  lemma RegexTrimmedLines(buf: seq<char>, replaceStr: seq<char>, find: Finder, replace: Replacer)
    requires Fits(buf)
    requires SingleLines(Survivors(Tokens(buf, "\n"), replaceStr != [], find, replace))
    requires Fits(RegexTrimmed(buf, replaceStr, find, replace))
    ensures Tokens(RegexTrimmed(buf, replaceStr, find, replace), "\n") ==
      Survivors(Tokens(buf, "\n"), replaceStr != [], find, replace)
  {
    var ls := Survivors(Tokens(buf, "\n"), replaceStr != [], find, replace);
    SurvivorsShape(Tokens(buf, "\n"), replaceStr != [], find, replace);
    forall l | l in ls
      ensures |l| > 0 && forall i :: 0 <= i < |l| ==> l[i] !in "\n"
    {
      assert '\n' !in l;
    }
    TokensOfTerminate(ls, "\n", '\n');
  }

  /** Empty input gives empty output. */
  lemma RegexTrimmedEmpty(replaceStr: seq<char>, find: Finder, replace: Replacer)
    ensures RegexTrimmed([], replaceStr, find, replace) == []
  {
  }

  /** RegexTrim: splits into lines, drops lines from the last to the first,
      then joins what is left with a newline after each. */
  method RegexTrim(currBuffer: seq<char>, replaceStr: seq<char>, find: Finder, replace: Replacer)
    returns (r: seq<char>)
    requires Fits(currBuffer)
    ensures r == RegexTrimmed(currBuffer, replaceStr, find, replace)
  {
    var lines := Split(currBuffer, "\n");
    TokensCount(currBuffer, "\n");
    var doReplace := replaceStr != [];
    lines := DropLines(lines, doReplace, find, replace);
    r := Join(lines);
  }

  /** The backward loop of RegexTrim: idx runs from size()-1 down and stops
      when it wraps around past 0. */
  method DropLines(lines: seq<seq<char>>, doReplace: bool, find: Finder, replace: Replacer)
    returns (kept: seq<seq<char>>)
    requires |lines| < NPOS
    ensures kept == Survivors(lines, doReplace, find, replace)
  {
    kept := lines;
    var idx: SizeT := Wrap(|kept| - 1);
    var n: nat := |lines|;
    SurvivorsShape([], doReplace, find, replace);
    while idx < |kept|
      invariant n <= |lines| && idx == Wrap(n - 1)
      invariant kept == lines[..n] + Survivors(lines[n..], doReplace, find, replace)
      invariant |kept| <= |lines|
      decreases n
    {
      kept := Visit(lines, kept, n, doReplace, find, replace);
      n := n - 1;
      idx := Wrap(idx - 1);
    }
    assert lines[0..] == lines;
  }

  /** One pass of the backward loop, on line n - 1: it is run through the
      pattern and erased unless it survives. */
  method Visit(lines: seq<seq<char>>, kept: seq<seq<char>>, n: nat, doReplace: bool, find: Finder, replace: Replacer)
    returns (kept': seq<seq<char>>)
    requires 1 <= n <= |lines|
    requires kept == lines[..n] + Survivors(lines[n..], doReplace, find, replace)
    ensures kept' == lines[..n - 1] + Survivors(lines[n - 1..], doReplace, find, replace)
    ensures |kept'| <= |lines|
  {
    var idx := n - 1;
    assert kept[idx] == lines[idx];
    var str := kept[idx];
    var keep;
    if doReplace {
      keep, str := replace(str).0, replace(str).1;
    } else {
      keep := find(str);
    }
    var space := IsSpace(str);
    ghost var s := if !keep || space then None else Some(str);
    assert s == Survivor(lines[n - 1], doReplace, find, replace);
    VisitStep(lines, kept, n, doReplace, find, replace, s);
    if !keep || space {
      kept' := kept[..idx] + kept[idx + 1..];
    } else {
      kept' := kept[idx := str];
    }
  }

  /** What Visit leaves, for each way line n - 1 can come out of the
      pattern. */
  lemma VisitStep(lines: seq<seq<char>>, kept: seq<seq<char>>, n: nat, doReplace: bool, find: Finder,
                  replace: Replacer, s: Option<seq<char>>)
    requires 1 <= n <= |lines|
    requires kept == lines[..n] + Survivors(lines[n..], doReplace, find, replace)
    requires s == Survivor(lines[n - 1], doReplace, find, replace)
    ensures s.None? ==> kept[..n - 1] + kept[n..] == lines[..n - 1] + Survivors(lines[n - 1..], doReplace, find, replace)
    ensures s.Some? ==> kept[n - 1 := s.value] == lines[..n - 1] + Survivors(lines[n - 1..], doReplace, find, replace)
    ensures |lines[..n - 1] + Survivors(lines[n - 1..], doReplace, find, replace)| <= |lines|
  {
    var rest := Survivors(lines[n..], doReplace, find, replace);
    SurvivorsShape(lines[n - 1..], doReplace, find, replace);
    DropStep(lines, n, doReplace, find, replace);
    assert lines[..n][..n - 1] == lines[..n - 1];
    if s.None? {
      Erased(kept, lines[..n], rest, n - 1);
      assert Survivors(lines[n - 1..], doReplace, find, replace) == [] + rest;
    } else {
      Updated(kept, lines[..n], rest, n - 1, s.value);
      assert Survivors(lines[n - 1..], doReplace, find, replace) == [s.value] + rest;
    }
  }

  /** Erasing the last of `prefix` from `k == prefix + rest`. */
  lemma Erased<T>(k: seq<T>, prefix: seq<T>, rest: seq<T>, i: nat)
    requires k == prefix + rest && i + 1 == |prefix|
    ensures k[..i] + k[i + 1..] == prefix[..i] + rest
  {
    assert k[..i] == prefix[..i];
    assert k[i + 1..] == rest;
  }

  /** Overwriting the last of `prefix` in `k == prefix + rest`. */
  lemma Updated<T>(k: seq<T>, prefix: seq<T>, rest: seq<T>, i: nat, x: T)
    requires k == prefix + rest && i + 1 == |prefix|
    ensures k[i := x] == prefix[..i] + ([x] + rest)
  {
  }

  lemma DropStep(lines: seq<seq<char>>, n: nat, doReplace: bool, find: Finder, replace: Replacer)
    requires 1 <= n <= |lines|
    ensures var s := Survivor(lines[n - 1], doReplace, find, replace);
      Survivors(lines[n - 1..], doReplace, find, replace) ==
      (if s.Some? then [s.value] else []) + Survivors(lines[n..], doReplace, find, replace)
  {
    assert lines[n - 1..][1..] == lines[n..];
  }

  /** The forward loop of RegexTrim: each kept line and a newline. */
  method Join(lines: seq<seq<char>>) returns (result: seq<char>)
    ensures result == Terminate(lines, '\n')
  {
    result := [];
    var idx := 0;
    while idx != |lines|
      invariant idx <= |lines| && result == Terminate(lines[..idx], '\n')
    {
      assert lines[..idx + 1][..idx] == lines[..idx];
      result := result + (lines[idx] + "\n");
      idx := idx + 1;
    }
    assert lines[..idx] == lines;
  }

  // ---------------------------------------------------------------------------
  // The "--" command extraction

  /** The conversion of a size_t to a 32-bit int: its low 32 bits, read as
      two's complement. */
  function Int32(x: int): (r: int)
    ensures -0x8000_0000 <= r < 0x8000_0000
    ensures 0 <= x < 0x8000_0000 ==> r == x
    ensures x == NPOS ==> r == -1
  {
    var m := x % UINT_MOD;
    if m >= 0x8000_0000 then m - UINT_MOD else m
  }

  /** The command after the first "--", or the whole line when it has none. */
  function AfterDashes(cmdLine: seq<char>): (r: seq<char>)
    requires Fits(cmdLine)
    ensures r == cmdLine || exists off :: OccursAt(cmdLine, "--", off) && r == cmdLine[off + 2..]
    ensures (forall k :: !OccursAt(cmdLine, "--", k)) ==> r == cmdLine
    ensures (exists k :: OccursAt(cmdLine, "--", k)) ==>
      exists off :: OccursAt(cmdLine, "--", off) && (forall k :: 0 <= k < off ==> !OccursAt(cmdLine, "--", k)) &&
        r == cmdLine[off + 2..]
  {
    FindIsFirst(cmdLine, "--", 0);
    var off := Find(cmdLine, "--", 0);
    if off == NPOS then cmdLine else cmdLine[off + 2..]
  }

  /** The command to execute, as main extracts it: erases through the first
      "--", then trims the line. The "Specify a command" error for an empty
      result is never taken, because trim leaves its NUL behind. */
  method ExtractCommand(cmdLine: seq<char>) returns (r: Option<seq<char>>)
    requires |cmdLine| < 0x7FFF_FFFE
    ensures r == Some(Trimmed(CView(AfterDashes(cmdLine))) + ['\0'])
  {
    var line := CutDashes(cmdLine);
    line := Trim(line);
    r := if |line| == 0 then None else Some(line);
  }

  /** `int off = (int)cmdLine.find("--")`, then erase(0, off + 2) when found. */
  method CutDashes(cmdLine: seq<char>) returns (line: seq<char>)
    requires |cmdLine| < 0x7FFF_FFFE
    ensures line == AfterDashes(cmdLine)
  {
    line := cmdLine;
    var off := Int32(Find(line, "--", 0));
    if off != -1 {
      line := EraseFront(line, Wrap(off + 2));
    }
  }

  /** A line that is blank after its "--" is accepted as the command "\0". */
  lemma BlankCommandAccepted(cmdLine: seq<char>)
    requires Fits(cmdLine) && AllSpace(CView(AfterDashes(cmdLine)))
    ensures Trimmed(CView(AfterDashes(cmdLine))) + ['\0'] == ['\0']
  {
    TrimmedEdges(CView(AfterDashes(cmdLine)));
  }

  /** The extraction with the trimmed length checked: the error is reported
      exactly when nothing but whitespace follows the "--", and otherwise
      the command has no whitespace at either end. */
  method ExtractCommandCorrected(cmdLine: seq<char>) returns (r: Option<seq<char>>)
    requires |cmdLine| < 0x7FFF_FFFE
    ensures r.None? <==> AllSpace(CView(AfterDashes(cmdLine)))
    ensures r.Some? ==> r.value == Trimmed(CView(AfterDashes(cmdLine)))
    ensures r.Some? ==> |r.value| > 0 && !IsSpaceChar(r.value[0]) && !IsSpaceChar(r.value[|r.value| - 1])
  {
    var line := CutDashes(cmdLine);
    line := TrimCorrected(line);
    TrimmedEdges(CView(AfterDashes(cmdLine)));
    r := if |line| == 0 then None else Some(line);
  }

  // ---------------------------------------------------------------------------
  // The watch loop

  /** The settings the options leave: -d, -g, -r, -t and -b. */
  datatype Settings = Settings(highlightDelta: bool, isGrepLinePat: bool, replaceStr: seq<char>,
    find: Finder, replace: Replacer, topLines: UInt, bottomLines: UInt)

  /** m_maxRunCnt: -1 as a uint. */
  const MAX_RUN_CNT: nat := UINT_MOD - 1

  /** What one run writes to the console: the processed buffer as it is,
      the processed buffer coloured against the previous one, or, with
      highlighting off, the capture passed straight through. */
  datatype Output = Verbatim(text: seq<char>) | Diff(events: seq<Event>) | Passthrough(text: seq<char>)

  /** The capture after the line filter, when one is set. */
  function Filtered(s: Settings, capture: seq<char>): seq<char>
    requires Fits(capture)
  {
    if s.isGrepLinePat then RegexTrimmed(capture, s.replaceStr, s.find, s.replace) else capture
  }

  /** The filtered capture is short enough for showDiffFast's unsigned indices. */
  predicate Bounded(s: Settings, capture: seq<char>)
  {
    Fits(capture) && |Filtered(s, capture)| < UINT_MOD
  }

  /** The capture filtered, then cut to its top or bottom lines. */
  function Processed(s: Settings, capture: seq<char>): seq<char>
    requires Bounded(s, capture)
  {
    TopBottom(Filtered(s, capture), s.topLines, s.bottomLines)
  }

  /** `out` is what a run shows for `capture` after one that left `prev`. */
  ghost predicate Shows(out: Output, s: Settings, prev: seq<char>, capture: seq<char>)
    requires Bounded(s, capture)
  {
    if !s.highlightDelta then out == Passthrough(capture)
    else if prev == [] then out == Verbatim(Processed(s, capture))
    else out.Diff? && DiffOf(out.events, Processed(s, capture), prev)
  }

  /** All text an output writes. */
  function Written(out: Output): seq<char>
  {
    match out
    case Verbatim(t) => t
    case Diff(es) => Texts(es)
    case Passthrough(t) => t
  }

  /** Whether shown verbatim or as a diff, a highlighted run writes exactly
      its processed buffer; otherwise it writes the raw capture. */
  lemma ShowsWritten(out: Output, s: Settings, prev: seq<char>, capture: seq<char>)
    requires Bounded(s, capture) && Shows(out, s, prev, capture)
    ensures Written(out) == if s.highlightDelta then Processed(s, capture) else capture
    ensures s.highlightDelta ==> (out.Verbatim? <==> prev == [])
  {
  }

  /** The filter runs first and the trim keeps a contiguous part of what it
      left; with neither a filter nor a limit the capture is shown whole. */
  lemma ProcessedSlice(s: Settings, capture: seq<char>)
    requires Bounded(s, capture)
    ensures exists lo, hi ::
      0 <= lo <= hi <= |Filtered(s, capture)| && Processed(s, capture) == Filtered(s, capture)[lo..hi]
    ensures !s.isGrepLinePat && s.topLines == 0 && s.bottomLines == 0 ==> Processed(s, capture) == capture
  {
    var f := Filtered(s, capture);
    var r := Processed(s, capture);
    var n := LineCount(f);
    if n > s.bottomLines && s.bottomLines != 0 {
      TopBottomBottom(f, s.topLines, s.bottomLines);
      assert r == f[|f| - |r|..|f|];
    } else if n > s.topLines && s.topLines != 0 {
      TopBottomTop(f, s.topLines, s.bottomLines);
      assert r == f[0..|r|];
    } else {
      assert r == f[0..|f|];
    }
  }

  /** The buffer being compared against before run `i` of `captures`: the
      processed buffer of run i - 1, or what there was before the first. */
  function PrevBefore(s: Settings, prev: seq<char>, captures: seq<seq<char>>, i: nat): seq<char>
    requires i <= |captures| && forall j :: 0 <= j < |captures| ==> Bounded(s, captures[j])
  {
    if s.highlightDelta && i > 0 then Processed(s, captures[i - 1]) else prev
  }

  /** From a fresh start the first run is shown verbatim, and so is every
      run after one whose processed buffer came out empty. */
  lemma VerbatimRuns(s: Settings, captures: seq<seq<char>>, i: nat, out: Output)
    requires i < |captures| && forall j :: 0 <= j < |captures| ==> Bounded(s, captures[j])
    requires s.highlightDelta && Shows(out, s, PrevBefore(s, [], captures, i), captures[i])
    ensures out.Verbatim? <==> i == 0 || Processed(s, captures[i - 1]) == []
    ensures out.Verbatim? ==> out.text == Processed(s, captures[i])
  {
  }

  class Watch {
    const settings: Settings
    var prevBuffer: seq<char>
    var currBuffer: seq<char>

    constructor (settings: Settings)
      ensures this.settings == settings && prevBuffer == [] && currBuffer == []
    {
      this.settings := settings;
      prevBuffer := [];
      currBuffer := [];
    }

    /** One pass of main's loop on the child's output `capture`. */
    method Iterate(capture: seq<char>) returns (out: Output)
      requires Bounded(settings, capture)
      modifies this
      ensures Shows(out, settings, old(prevBuffer), capture)
      ensures settings.highlightDelta ==>
        prevBuffer == Processed(settings, capture) && currBuffer == old(prevBuffer)
      ensures !settings.highlightDelta ==>
        prevBuffer == old(prevBuffer) && currBuffer == old(currBuffer)
    {
      if settings.highlightDelta {
        // ReadFromPipe clears the buffer, then appends what the child wrote.
        currBuffer := capture;
        if settings.isGrepLinePat {
          currBuffer := RegexTrim(currBuffer, settings.replaceStr, settings.find, settings.replace);
        }
        currBuffer := TrimTopBottom(currBuffer, settings.topLines, settings.bottomLines);
        if prevBuffer == [] {
          out := Verbatim(currBuffer);
        } else {
          var events := ShowDiffFast(currBuffer, prevBuffer);
          out := Diff(events);
        }
        prevBuffer, currBuffer := currBuffer, prevBuffer;
      } else {
        out := Passthrough(capture);
      }
    }

    /** main's loop over the successive captures, for at most m_maxRunCnt
        runs. */
    method Run(captures: seq<seq<char>>) returns (outs: seq<Output>)
      requires forall j :: 0 <= j < |captures| ==> Bounded(settings, captures[j])
      modifies this
      ensures |outs| == Min(|captures|, MAX_RUN_CNT)
      ensures Session(settings, old(prevBuffer), captures, outs)
      ensures prevBuffer == PrevBefore(settings, old(prevBuffer), captures, |outs|)
    {
      outs := [];
      var runCnt: UInt := 0;
      while runCnt < MAX_RUN_CNT && runCnt < |captures|
        invariant runCnt <= Min(|captures|, MAX_RUN_CNT) && |outs| == runCnt
        invariant Session(settings, old(prevBuffer), captures, outs)
        invariant prevBuffer == PrevBefore(settings, old(prevBuffer), captures, runCnt)
      {
        var out := Iterate(captures[runCnt]);
        SessionGrows(settings, old(prevBuffer), captures, outs, out);
        outs := outs + [out];
        runCnt := runCnt + 1;
      }
    }
  }

  /** Each of `outs` is what its run shows for its capture, compared
      against the run before it. */
  ghost predicate Session(s: Settings, prev: seq<char>, captures: seq<seq<char>>, outs: seq<Output>)
    requires forall j :: 0 <= j < |captures| ==> Bounded(s, captures[j])
    decreases |outs|
  {
    |outs| <= |captures| &&
    (outs != [] ==>
      var i := |outs| - 1;
      Session(s, prev, captures, outs[..i]) && Shows(outs[i], s, PrevBefore(s, prev, captures, i), captures[i]))
  }

  /** A session grows by what the next run shows. */
  lemma SessionGrows(s: Settings, prev: seq<char>, captures: seq<seq<char>>, outs: seq<Output>, out: Output)
    requires forall j :: 0 <= j < |captures| ==> Bounded(s, captures[j])
    requires |outs| < |captures| && Session(s, prev, captures, outs)
    requires Shows(out, s, PrevBefore(s, prev, captures, |outs|), captures[|outs|])
    ensures Session(s, prev, captures, outs + [out])
  {
    assert (outs + [out])[..|outs|] == outs;
  }

  /** In a session, run `i` shows its capture against the run before. */
  lemma {:induction false} SessionAt(s: Settings, prev: seq<char>, captures: seq<seq<char>>, outs: seq<Output>, i: nat)
    requires forall j :: 0 <= j < |captures| ==> Bounded(s, captures[j])
    requires Session(s, prev, captures, outs) && i < |outs|
    ensures Shows(outs[i], s, PrevBefore(s, prev, captures, i), captures[i])
    decreases |outs|
  {
    var last := |outs| - 1;
    var before := outs[..last];
    assert Session(s, prev, captures, before);
    if i < last {
      SessionAt(s, prev, captures, before, i);
      assert before[i] == outs[i];
    }
  }
}
