/** The search and split members of lstring (llstring.h): isSpace, count,
    findCnt and the Split tokenizer. */
module LString {
  import opened StdLib

  // ---------------------------------------------------------------------------
  // isSpace

  /** lstring::isSpace: true iff every char is whitespace (so true on ""). */
  method IsSpace(s: seq<char>) returns (space: bool)
    ensures space <==> AllSpace(s)
  {
    space := true;
    var idx := 0;
    while space && idx != |s|
      invariant 0 <= idx <= |s|
      invariant forall i :: 0 <= i < idx - 1 ==> IsSpaceChar(s[i])
      invariant space ==> forall i :: 0 <= i < idx ==> IsSpaceChar(s[i])
      invariant !space ==> 0 < idx && !IsSpaceChar(s[idx - 1])
    {
      space := IsSpaceChar(s[idx]);
      idx := idx + 1;
    }
  }

  // ---------------------------------------------------------------------------
  // count

  /** The non-overlapping occurrences of `sub` found by scanning from `from`
      with std::string::find and resuming just past each match. */
  function Occurrences(s: seq<char>, sub: seq<char>, from: SizeT): nat
    requires Fits(s) && Fits(sub)
    requires |sub| > 0 || |s| == 0
    decreases |s| - from
  {
    var p := Find(s, sub, from);
    if p < |s| then 1 + Occurrences(s, sub, p + |sub|) else 0
  }

  /** lstring::count: the number of non-overlapping occurrences of `subStr`,
      as a 32-bit unsigned counter. With an empty `subStr` and a non-empty
      string the source never leaves its loop, hence the second requires. */
  method Count(s: seq<char>, subStr: seq<char>) returns (cnt: UInt)
    requires Fits(s) && Fits(subStr)
    requires |subStr| > 0 || |s| == 0
    ensures cnt == Occurrences(s, subStr, 0) % UINT_MOD
  {
    cnt := 0;
    var subLen := |subStr|;
    var pos: SizeT := Wrap(0 - subLen);
    WrapBack(0, subLen);
    ghost var from: SizeT := Wrap(pos + subLen);
    pos := Find(s, subStr, Wrap(pos + subLen));
    ghost var k := 0;
    while pos < |s|
      invariant pos == Find(s, subStr, from)
      invariant k + Occurrences(s, subStr, from) == Occurrences(s, subStr, 0)
      invariant cnt == k % UINT_MOD
      decreases |s| - pos
    {
      OccurrencesFromFind(s, subStr, from);
      OccurrencesAtMatch(s, subStr, pos);
      ModIncrement(k, cnt);
      cnt := if cnt + 1 == UINT_MOD then 0 else cnt + 1;
      k := k + 1;
      from := Wrap(pos + subLen);
      pos := Find(s, subStr, Wrap(pos + subLen));
    }
    OccurrencesFromFind(s, subStr, from);
  }

  /** A 32-bit counter that wraps stays the true count modulo 2^32. */
  lemma ModIncrement(k: nat, c: UInt)
    requires c == k % UINT_MOD
    ensures (if c + 1 == UINT_MOD then 0 else c + 1) == (k + 1) % UINT_MOD
  {
  }

  /** Counting from a search start is counting from the first match there. */
  lemma OccurrencesFromFind(s: seq<char>, sub: seq<char>, from: SizeT)
    requires Fits(s) && Fits(sub) && (|sub| > 0 || |s| == 0)
    ensures var p := Find(s, sub, from);
            Occurrences(s, sub, from) == if p < |s| then Occurrences(s, sub, p) else 0
  {
    var p := Find(s, sub, from);
    if p < |s| {
      OccurrencesAtMatch(s, sub, p);
    }
  }

  /** Counting from a match counts that match and resumes past it. */
  lemma OccurrencesAtMatch(s: seq<char>, sub: seq<char>, p: SizeT)
    requires Fits(s) && Fits(sub) && |sub| > 0 && p < |s| && OccursAt(s, sub, p)
    ensures Occurrences(s, sub, p) == 1 + Occurrences(s, sub, p + |sub|)
  {
    var r := Find(s, sub, p);
    assert r == p;
  }

  /** Each occurrence takes `|sub|` chars of its own: the occurrences never
      overlap. */
  lemma {:induction false} OccurrencesBound(s: seq<char>, sub: seq<char>, from: SizeT)
    requires Fits(s) && Fits(sub) && |sub| > 0 && from <= |s|
    ensures Occurrences(s, sub, from) * |sub| <= |s| - from
    decreases |s| - from
  {
    var p := Find(s, sub, from);
    if p < |s| {
      var rest := Occurrences(s, sub, p + |sub|);
      assert Occurrences(s, sub, from) == 1 + rest;
      OccurrencesBound(s, sub, p + |sub|);
      assert (1 + rest) * |sub| == |sub| + rest * |sub|;
    } else {
      assert Occurrences(s, sub, from) == 0;
    }
  }

  /** For a one-char pattern the occurrences are simply the chars equal to it;
      this is how TrimTopBottom's line count reads. */
  lemma {:induction false} OccurrencesOfChar(s: seq<char>, c: char, from: SizeT)
    requires Fits(s) && from <= |s|
    ensures Occurrences(s, [c], from) == Tally(s[from..], c)
    decreases |s| - from
  {
    var p := Find(s, [c], from);
    FindIsFirst(s, [c], from);
    var t := s[from..];
    if p < |s| {
      CharOccursAt(s, c, p);
      forall j | from <= j < p ensures s[j] != c {
        CharOccursAt(s, c, j);
      }
      OccurrencesOfChar(s, c, p + 1);
      TallySplitAt(t, p - from, c);
      assert t[p - from + 1..] == s[p + 1..];
      TallyAbsent(t[..p - from], c);
    } else {
      forall j | from <= j < |s| ensures s[j] != c {
        CharOccursAt(s, c, j);
      }
      TallyAbsent(t, c);
    }
  }

  /** A one-char pattern occurs exactly where that char is. */
  lemma CharOccursAt(s: seq<char>, c: char, j: int)
    ensures OccursAt(s, [c], j) <==> 0 <= j < |s| && s[j] == c
  {
    if 0 <= j < |s| {
      assert s[j + 0] == s[j] && [c][0] == c;
    }
  }

  // ---------------------------------------------------------------------------
  // findCnt

  /** The findCnt loop once `pos` holds the last match found (or the start
      offset moved back by `|sub|`) and `cnt` matches are still wanted. */
  function FindCntFrom(s: seq<char>, sub: seq<char>, last: SizeT, cnt: nat): SizeT
    requires Fits(s) && Fits(sub)
    decreases cnt
  {
    if cnt == 0 then last
    else
      var p := Find(s, sub, Wrap(last + |sub|));
      if p < |s| then FindCntFrom(s, sub, p, cnt - 1) else NPOS
  }

  /** lstring::findCnt: the index of the `cnt`th non-overlapping occurrence
      of `subStr` at or after `pos`, or npos when there are fewer. With
      `cnt == 0` it returns `pos - |subStr|`, wrapped as size_t. */
  method FindCnt(s: seq<char>, subStr: seq<char>, pos: SizeT, cnt: UInt) returns (r: SizeT)
    requires Fits(s) && Fits(subStr)
    ensures r == FindCntFrom(s, subStr, Wrap(pos - |subStr|), cnt)
    ensures cnt == 0 ==> r == Wrap(pos - |subStr|)
  {
    var subLen := |subStr|;
    var p: SizeT := Wrap(pos - subLen);
    var n := cnt;
    while n != 0
      invariant FindCntFrom(s, subStr, p, n) == FindCntFrom(s, subStr, Wrap(pos - subLen), cnt)
    {
      p := Find(s, subStr, Wrap(p + subLen));
      if !(p < |s|) {
        break;
      }
      n := n - 1;
    }
    r := if n == 0 then p else NPOS;
  }

  /** Moving the start back by `|sub|` and forward again, both modulo 2^64,
      gives the start back. */
  lemma WrapBack(pos: SizeT, n: nat)
    requires n < NPOS
    ensures Wrap(Wrap(pos - n) + n) == pos
  {
    if pos < n {
      assert Wrap(pos - n) == pos - n + SIZE_MOD;
    }
  }

  /** The `cnt`th occurrence (`cnt >= 1`) found by scanning from search
      start `st`, or npos. */
  function NthFrom(s: seq<char>, sub: seq<char>, st: SizeT, cnt: nat): SizeT
    requires Fits(s) && Fits(sub) && |sub| > 0 && cnt >= 1
    decreases cnt
  {
    var p := Find(s, sub, st);
    if p >= |s| then NPOS else if cnt == 1 then p else NthFrom(s, sub, p + |sub|, cnt - 1)
  }

  lemma {:induction false} FindCntFromNth(s: seq<char>, sub: seq<char>, last: SizeT, cnt: nat)
    requires Fits(s) && Fits(sub) && |sub| > 0 && cnt >= 1
    ensures FindCntFrom(s, sub, last, cnt) == NthFrom(s, sub, Wrap(last + |sub|), cnt)
    decreases cnt
  {
    var p := Find(s, sub, Wrap(last + |sub|));
    if p < |s| && cnt > 1 {
      assert Wrap(p + |sub|) == p + |sub|;
      FindCntFromNth(s, sub, p, cnt - 1);
    }
  }

  /** The scan from search start `st` succeeds iff at least `cnt`
      occurrences lie there, and then it stops on an occurrence with exactly
      `cnt` of them up to and including it. */
  lemma {:induction false} NthFromCounts(s: seq<char>, sub: seq<char>, st: SizeT, cnt: nat)
    requires Fits(s) && Fits(sub) && |sub| > 0 && cnt >= 1
    ensures NthFrom(s, sub, st, cnt) != NPOS <==> cnt <= Occurrences(s, sub, st)
    ensures NthFrom(s, sub, st, cnt) != NPOS ==>
              st <= NthFrom(s, sub, st, cnt) && OccursAt(s, sub, NthFrom(s, sub, st, cnt)) &&
              Occurrences(s, sub, st) == cnt + Occurrences(s, sub, NthFrom(s, sub, st, cnt) + |sub|)
    decreases cnt
  {
    var p := Find(s, sub, st);
    var r := NthFrom(s, sub, st, cnt);
    NthFromFirst(s, sub, st, cnt);
    if p < |s| && cnt > 1 {
      var next := p + |sub|;
      NthFromCounts(s, sub, next, cnt - 1);
      if r != NPOS {
        var after := Occurrences(s, sub, r + |sub|);
        assert Occurrences(s, sub, next) == cnt - 1 + after;
      }
    }
  }

  /** The first step of the scan: no match means npos and no occurrences;
      a match either ends the scan or moves it past the match. */
  lemma NthFromFirst(s: seq<char>, sub: seq<char>, st: SizeT, cnt: nat)
    requires Fits(s) && Fits(sub) && |sub| > 0 && cnt >= 1
    ensures var p := Find(s, sub, st);
            if p < |s| then
              st <= p && OccursAt(s, sub, p) &&
              Occurrences(s, sub, st) == 1 + Occurrences(s, sub, p + |sub|) &&
              NthFrom(s, sub, st, cnt) == (if cnt == 1 then p else NthFrom(s, sub, p + |sub|, cnt - 1))
            else
              NthFrom(s, sub, st, cnt) == NPOS && Occurrences(s, sub, st) == 0
  {
    var p := Find(s, sub, st);
    OccurrencesFromFind(s, sub, st);
    if p < |s| {
      OccurrencesAtMatch(s, sub, p);
    }
  }

  /** lstring::findCnt from the user's point of view: for `cnt >= 1` it
      finds the `cnt`th non-overlapping occurrence at or after `pos`, or
      npos iff there are fewer than `cnt`. */
  lemma FindCntSpec(s: seq<char>, sub: seq<char>, pos: SizeT, cnt: nat)
    requires Fits(s) && Fits(sub) && |sub| > 0 && cnt >= 1
    ensures var r := FindCntFrom(s, sub, Wrap(pos - |sub|), cnt);
            (r != NPOS <==> cnt <= Occurrences(s, sub, pos)) &&
            (r != NPOS ==> pos <= r && OccursAt(s, sub, r) &&
                           Occurrences(s, sub, pos) == cnt + Occurrences(s, sub, r + |sub|))
  {
    WrapBack(pos, |sub|);
    FindCntFromNth(s, sub, Wrap(pos - |sub|), cnt);
    NthFromCounts(s, sub, pos, cnt);
  }

  /** For a one-char pattern searched from index 0: the `k`th occurrence of
      `c`, for `1 <= k <= Tally(s, c)`, is an index holding `c` with exactly
      `k - 1` copies of `c` before it. */
  lemma NthCharIndex(s: seq<char>, c: char, k: nat)
    requires Fits(s) && 1 <= k <= Tally(s, c)
    ensures var r := FindCntFrom(s, [c], Wrap(0 - 1), k);
            r < |s| && s[r] == c && Tally(s[..r], c) == k - 1 && Tally(s[r..], c) == Tally(s, c) - k + 1
  {
    var r := FindCntFrom(s, [c], Wrap(0 - 1), k);
    assert s[0..] == s;
    OccurrencesOfChar(s, c, 0);
    FindCntSpec(s, [c], 0, k);
    CharOccursAt(s, c, r);
    OccurrencesOfChar(s, c, r + 1);
    TallySplitAt(s, r, c);
    TallySplitAt(s[r..], 0, c);
    assert s[r..][1..] == s[r + 1..];
  }

  // ---------------------------------------------------------------------------
  // Split

  /** The tokens Split produces: the runs of `s` between chars of `delims`,
      empty runs skipped, in order. */
  function Tokens(s: seq<char>, delims: seq<char>): seq<seq<char>>
    requires Fits(s)
    decreases |s|
  {
    var p := FindFirstOf(s, delims, 0);
    if p == NPOS then (if 0 < |s| then [s] else [])
    else (if p != 0 then [s[..p]] else []) + Tokens(s[p + 1..], delims)
  }

  /** find_first_of over a suffix is find_first_of over the whole, shifted. */
  lemma FindFirstOfShift(s: seq<char>, delims: seq<char>, lastPos: nat)
    requires Fits(s) && lastPos <= |s|
    ensures var r := FindFirstOf(s, delims, lastPos);
            FindFirstOf(s[lastPos..], delims, 0) == if r == NPOS then NPOS else r - lastPos
  {
    var r := FindFirstOf(s, delims, lastPos);
    var t := s[lastPos..];
    var q := FindFirstOf(t, delims, 0);
    FindFirstOfIsFirst(s, delims, lastPos);
    FindFirstOfIsFirst(t, delims, 0);
    if r != NPOS {
      assert t[r - lastPos] == s[r];
    }
  }

  lemma TokensUnfold(t: seq<char>, delims: seq<char>, q: nat)
    requires Fits(t) && q < |t| && FindFirstOf(t, delims, 0) == q
    ensures Tokens(t, delims) == (if q != 0 then [t[..q]] else []) + Tokens(t[q + 1..], delims)
  {
  }

  lemma SuffixSlices(s: seq<char>, lastPos: nat, pos: nat)
    requires lastPos <= pos < |s|
    ensures s[lastPos..][pos - lastPos + 1..] == s[pos + 1..]
    ensures s[lastPos..][..pos - lastPos] == s[lastPos..pos]
  {
  }

  /** One delimiter step: the tokens of a suffix are the run before its first
      delimiter (when non-empty) followed by the tokens after it. */
  lemma TokensStep(s: seq<char>, delims: seq<char>, lastPos: nat, pos: nat)
    requires Fits(s) && lastPos <= pos < |s|
    requires FindFirstOf(s, delims, lastPos) == pos
    ensures Tokens(s[lastPos..], delims) ==
              (if pos != lastPos then [s[lastPos..pos]] else []) + Tokens(s[pos + 1..], delims)
  {
    FindFirstOfShift(s, delims, lastPos);
    TokensUnfold(s[lastPos..], delims, pos - lastPos);
    SuffixSlices(s, lastPos, pos);
  }

  /** The last step: with no delimiter left, the suffix is one token unless
      it is empty. */
  lemma TokensEnd(s: seq<char>, delims: seq<char>, lastPos: nat)
    requires Fits(s) && lastPos <= |s|
    requires FindFirstOf(s, delims, lastPos) == NPOS
    ensures Tokens(s[lastPos..], delims) == if lastPos < |s| then [s[lastPos..]] else []
  {
    FindFirstOfShift(s, delims, lastPos);
  }

  /** Split::Split(str, delimList): the constructor's loop, pushing each
      non-empty run between delimiters. */
  method Split(str: seq<char>, delimList: seq<char>) returns (tokens: seq<seq<char>>)
    requires Fits(str)
    ensures tokens == Tokens(str, delimList)
    ensures tokens == Runs(str, delimList)
  {
    TokensAreRuns(str, delimList);
    tokens := [];
    var lastPos := 0;
    var pos := FindFirstOf(str, delimList, 0);
    assert str[0..] == str;
    while pos != NPOS
      invariant lastPos <= |str|
      invariant pos == FindFirstOf(str, delimList, lastPos)
      invariant tokens + Tokens(str[lastPos..], delimList) == Tokens(str, delimList)
      decreases |str| - lastPos
    {
      TokensStep(str, delimList, lastPos, pos);
      if pos != lastPos {
        AppendAssoc(tokens, [str[lastPos..pos]], Tokens(str[pos + 1..], delimList));
        tokens := tokens + [str[lastPos..pos]];
      } else {
        EmptyAppend(Tokens(str[pos + 1..], delimList));
      }
      lastPos := pos + 1;
      pos := FindFirstOf(str, delimList, lastPos);
    }
    TokensEnd(str, delimList, lastPos);
    if lastPos < |str| {
      tokens := tokens + [str[lastPos..]];
    } else {
      AppendEmpty(tokens);
    }
  }

  /** Every token is non-empty and holds no delimiter char. */
  lemma {:induction false} TokensWellFormed(s: seq<char>, delims: seq<char>)
    requires Fits(s)
    ensures forall t :: t in Tokens(s, delims) ==> |t| > 0 && forall i :: 0 <= i < |t| ==> t[i] !in delims
    decreases |s|
  {
    var p := FindFirstOf(s, delims, 0);
    FindFirstOfIsFirst(s, delims, 0);
    if p != NPOS {
      TokensWellFormed(s[p + 1..], delims);
    }
  }

  /** There are never more tokens than chars. */
  lemma {:induction false} TokensCount(s: seq<char>, delims: seq<char>)
    requires Fits(s)
    ensures |Tokens(s, delims)| <= |s|
    decreases |s|
  {
    var p := FindFirstOf(s, delims, 0);
    if p != NPOS {
      TokensCount(s[p + 1..], delims);
    }
  }

  // ---------------------------------------------------------------------------
  // What the tokens are, independently of find_first_of

  /** A run not yet emitted, emitted when it is non-empty. */
  function Flush(cur: seq<char>): seq<seq<char>>
  {
    if cur == [] then [] else [cur]
  }

  /** A char-by-char scanner: `cur` is the run read so far; each delimiter
      ends it, and so does the end of the string. */
  function RunsFrom(s: seq<char>, delims: seq<char>, cur: seq<char>): seq<seq<char>>
    decreases |s|
  {
    if s == [] then Flush(cur)
    else if s[0] in delims then Flush(cur) + RunsFrom(s[1..], delims, [])
    else RunsFrom(s[1..], delims, cur + [s[0]])
  }

  /** The maximal delimiter-free runs of `s`, in order. */
  function Runs(s: seq<char>, delims: seq<char>): seq<seq<char>>
  {
    RunsFrom(s, delims, [])
  }

  /** The scanner reads a delimiter-free prefix into the current run. */
  lemma {:induction false} RunsSkip(s: seq<char>, delims: seq<char>, cur: seq<char>, k: nat)
    requires k <= |s| && forall j :: 0 <= j < k ==> s[j] !in delims
    ensures RunsFrom(s, delims, cur) == RunsFrom(s[k..], delims, cur + s[..k])
    decreases k
  {
    if k == 0 {
      assert s[0..] == s;
      AppendEmpty(cur);
    } else {
      var t := s[1..];
      RunsSkip(t, delims, cur + [s[0]], k - 1);
      assert t[k - 1..] == s[k..];
      assert (cur + [s[0]]) + t[..k - 1] == cur + s[..k];
    }
  }

  /** The tokens Split produces are exactly the maximal delimiter-free
      runs of the scanner, in order. */
  lemma {:induction false} TokensAreRuns(s: seq<char>, delims: seq<char>)
    requires Fits(s)
    ensures Tokens(s, delims) == Runs(s, delims)
    decreases |s|
  {
    var p := FindFirstOf(s, delims, 0);
    FindFirstOfIsFirst(s, delims, 0);
    if p == NPOS {
      RunsSkip(s, delims, [], |s|);
      assert s[|s|..] == [] && [] + s[..|s|] == s;
    } else {
      RunsSkip(s, delims, [], p);
      assert [] + s[..p] == s[..p];
      assert s[p..][0] == s[p] && s[p..][1..] == s[p + 1..];
      TokensAreRuns(s[p + 1..], delims);
    }
  }

  /** The tokens laid end to end. */
  function Concat(ts: seq<seq<char>>): seq<char>
    decreases |ts|
  {
    if ts == [] then [] else ts[0] + Concat(ts[1..])
  }

  /** `s` with every delimiter char removed. */
  function Strip(s: seq<char>, delims: seq<char>): seq<char>
    decreases |s|
  {
    if s == [] then [] else (if s[0] in delims then [] else [s[0]]) + Strip(s[1..], delims)
  }

  lemma {:induction false} StripAppend(a: seq<char>, b: seq<char>, delims: seq<char>)
    ensures Strip(a + b, delims) == Strip(a, delims) + Strip(b, delims)
    decreases |a|
  {
    if a == [] {
      assert a + b == b;
    } else {
      assert (a + b)[0] == a[0] && (a + b)[1..] == a[1..] + b;
      StripAppend(a[1..], b, delims);
      AppendAssoc(if a[0] in delims then [] else [a[0]], Strip(a[1..], delims), Strip(b, delims));
    }
  }

  lemma {:induction false} StripPlain(a: seq<char>, delims: seq<char>)
    requires forall j :: 0 <= j < |a| ==> a[j] !in delims
    ensures Strip(a, delims) == a
    decreases |a|
  {
    if a != [] {
      StripPlain(a[1..], delims);
      assert a == [a[0]] + a[1..];
    }
  }

  lemma ConcatCons(x: seq<char>, ts: seq<seq<char>>)
    ensures Concat([x] + ts) == x + Concat(ts)
  {
    assert ([x] + ts)[0] == x && ([x] + ts)[1..] == ts;
  }

  /** Stripping around the first delimiter at `p`. */
  lemma StripAt(s: seq<char>, delims: seq<char>, p: nat)
    requires p < |s| && s[p] in delims && forall j :: 0 <= j < p ==> s[j] !in delims
    ensures Strip(s, delims) == s[..p] + Strip(s[p + 1..], delims)
  {
    var rest := s[p + 1..];
    assert s == s[..p] + ([s[p]] + rest);
    StripAppend(s[..p], [s[p]] + rest, delims);
    StripAppend([s[p]], rest, delims);
    assert [s[p]][1..] == [];
    StripPlain(s[..p], delims);
  }

  /** No char is lost or reordered: the tokens laid end to end are the
      string with its delimiters removed. */
  lemma {:induction false} TokensCover(s: seq<char>, delims: seq<char>)
    requires Fits(s)
    ensures Concat(Tokens(s, delims)) == Strip(s, delims)
    decreases |s|
  {
    var p := FindFirstOf(s, delims, 0);
    FindFirstOfIsFirst(s, delims, 0);
    if p == NPOS {
      StripPlain(s, delims);
      if s != [] {
        ConcatCons(s, []);
      }
    } else {
      var rest := s[p + 1..];
      TokensCover(rest, delims);
      StripAt(s, delims, p);
      if p != 0 {
        ConcatCons(s[..p], Tokens(rest, delims));
      } else {
        EmptyAppend(Tokens(rest, delims));
      }
    }
  }

  /** A run of `s` starts at `i`: a non-delimiter at the front or right
      after a delimiter. */
  predicate RunStart(s: seq<char>, delims: seq<char>, i: nat)
    requires i < |s|
  {
    s[i] !in delims && (i == 0 || s[i - 1] in delims)
  }

  /** The number of run starts among the first `n` chars of `s`. */
  function Starts(s: seq<char>, delims: seq<char>, n: nat): nat
    requires n <= |s|
  {
    if n == 0 then 0 else Starts(s, delims, n - 1) + (if RunStart(s, delims, n - 1) then 1 else 0)
  }

  /** Starts counted past a delimiter split into those before and those
      in the suffix after it. */
  lemma {:induction false} StartsShift(s: seq<char>, delims: seq<char>, m: nat, n: nat)
    requires m <= n <= |s| && (m > 0 ==> s[m - 1] in delims)
    ensures Starts(s, delims, n) == Starts(s, delims, m) + Starts(s[m..], delims, n - m)
    decreases n
  {
    if n > m {
      StartsShift(s, delims, m, n - 1);
      var t := s[m..];
      assert t[n - 1 - m] == s[n - 1];
      if n - 1 > m {
        assert t[n - 2 - m] == s[n - 2];
      }
      assert RunStart(t, delims, n - 1 - m) == RunStart(s, delims, n - 1);
    }
  }

  /** A delimiter-free prefix holds one run start, unless it is empty. */
  lemma {:induction false} StartsPrefix(s: seq<char>, delims: seq<char>, k: nat)
    requires k <= |s| && forall j :: 0 <= j < k ==> s[j] !in delims
    ensures Starts(s, delims, k) == if k > 0 then 1 else 0
    decreases k
  {
    if k > 0 {
      StartsPrefix(s, delims, k - 1);
    }
  }

  /** No run is split or merged: there is one token per run start. */
  lemma {:induction false} TokensCountStarts(s: seq<char>, delims: seq<char>)
    requires Fits(s)
    ensures |Tokens(s, delims)| == Starts(s, delims, |s|)
    decreases |s|
  {
    var p := FindFirstOf(s, delims, 0);
    FindFirstOfIsFirst(s, delims, 0);
    if p == NPOS {
      StartsPrefix(s, delims, |s|);
    } else {
      TokensCountStarts(s[p + 1..], delims);
      StartsShift(s, delims, p + 1, |s|);
      StartsPrefix(s, delims, p);
    }
  }

  /** Each line followed by the terminator `d`. */
  function Terminate(lines: seq<seq<char>>, d: char): seq<char>
  {
    if lines == [] then [] else Terminate(lines[..|lines| - 1], d) + lines[|lines| - 1] + [d]
  }

  lemma {:induction false} TerminateCons(l: seq<char>, lines: seq<seq<char>>, d: char)
    ensures Terminate([l] + lines, d) == l + [d] + Terminate(lines, d)
    decreases |lines|
  {
    if lines != [] {
      var init := lines[..|lines| - 1];
      assert ([l] + lines)[..|lines|] == [l] + init;
      TerminateCons(l, init, d);
    } else {
      assert [l][..0] == [];
    }
  }

  /** Split undoes Terminate: lines that are non-empty and hold no
      delimiter, each terminated by a delimiter, split back into themselves. */
  lemma {:induction false} TokensOfTerminate(lines: seq<seq<char>>, delims: seq<char>, d: char)
    requires d in delims
    requires forall l :: l in lines ==> |l| > 0 && forall i :: 0 <= i < |l| ==> l[i] !in delims
    requires Fits(Terminate(lines, d))
    ensures Tokens(Terminate(lines, d), delims) == lines
    decreases |lines|
  {
    var s := Terminate(lines, d);
    if lines == [] {
    } else {
      var l := lines[0];
      var rest := lines[1..];
      assert lines == [l] + rest;
      TerminateCons(l, rest, d);
      assert s == l + [d] + Terminate(rest, d);
      assert s[|l|] == d;
      var p := FindFirstOf(s, delims, 0);
      FindFirstOfIsFirst(s, delims, 0);
      assert forall j :: 0 <= j < |l| ==> s[j] == l[j];
      assert p == |l|;
      assert s[..p] == l;
      assert s[p + 1..] == Terminate(rest, d);
      TokensOfTerminate(rest, delims, d);
    }
  }
}
