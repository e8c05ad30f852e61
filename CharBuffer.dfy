/** The in-place char-buffer routines of llstring.cpp: PadRight, PadLeft,
    TrimString, and lstring::trim, which runs TrimString's loops over a
    std::string's own buffer. A `char*` argument is an array holding a C
    string; the routines return the pointer they were given, which the model
    leaves implicit. */
module CharBuffer {
  import opened StdLib

  // ---------------------------------------------------------------------------
  // memset and memmove

  /** memset(a + start, c, len). */
  method MemSet(a: array<char>, start: nat, c: char, len: nat)
    requires start + len <= a.Length
    modifies a
    ensures a[..] == old(a[..start]) + Repeat(c, len) + old(a[start + len..])
  {
    var i := 0;
    while i < len
      invariant 0 <= i <= len
      invariant a[..start] == old(a[..start])
      invariant forall k :: start <= k < start + i ==> a[k] == c
      invariant a[start + i..] == old(a[start + i..])
    {
      a[start + i] := c;
      i := i + 1;
    }
    assert a[start..start + len] == Repeat(c, len);
    assert a[..] == a[..start] + a[start..start + len] + a[start + len..];
  }

  /** memmove(a + dst, a + src, len): the chars are copied as if through a
      temporary buffer, so the ranges may overlap. */
  method MemMove(a: array<char>, dst: nat, src: nat, len: nat)
    requires src + len <= a.Length && dst + len <= a.Length
    modifies a
    ensures a[..] == old(a[..dst]) + old(a[src..src + len]) + old(a[dst + len..])
  {
    var tmp := a[src..src + len];
    var i := 0;
    while i < len
      invariant 0 <= i <= len
      invariant a[..dst] == old(a[..dst])
      invariant forall k :: dst <= k < dst + i ==> a[k] == tmp[k - dst]
      invariant a[dst + i..] == old(a[dst + i..])
    {
      a[dst + i] := tmp[i];
      i := i + 1;
    }
    assert a[dst..dst + len] == tmp;
    assert a[..] == a[..dst] + a[dst..dst + len] + a[dst + len..];
  }

  // ---------------------------------------------------------------------------
  // PadRight and PadLeft

  /** The buffer after PadRight with the pad length already clamped to `n`:
      when the string is shorter than `n`, pad chars follow it up to index
      `n`, where a new terminator goes; otherwise nothing changes. */
  function PaddedRight(buf: seq<char>, n: nat, c: char): seq<char>
    requires Terminated(buf) && (n <= StrLen(buf) || n < |buf|)
  {
    var w := StrLen(buf);
    if n > w then buf[..w] + Repeat(c, n - w) + ['\0'] + buf[n + 1..] else buf
  }

  /** lstring::PadRight(str, maxLen, padLen, padChr). The buffer must hold
      the padded string and its terminator whenever padding happens. */
  method PadRight(str: array<char>, maxLen: SizeT, padLen: SizeT, padChr: char)
    requires Terminated(str[..])
    requires Min(padLen, maxLen) <= StrLen(str[..]) || Min(padLen, maxLen) < str.Length
    modifies str
    ensures str[..] == PaddedRight(old(str[..]), Min(padLen, maxLen), padChr)
  {
    ghost var buf := str[..];
    var n := padLen;
    if n > maxLen {
      n := maxLen;
    }
    assert n == Min(padLen, maxLen);
    var wlen := StrLen(str[..]);
    if n > wlen {
      FillAndTerminate(str, wlen, n, padChr);
    }
  }

  /** The padding step of PadRight: the memset after the string, then the
      new terminator. */
  method FillAndTerminate(str: array<char>, wlen: nat, n: nat, padChr: char)
    requires wlen < n < str.Length
    modifies str
    ensures str[..] == old(str[..wlen]) + Repeat(padChr, n - wlen) + ['\0'] + old(str[n + 1..])
  {
    ghost var buf := str[..];
    MemSet(str, wlen, padChr, n - wlen);
    ghost var filled := str[..];
    str[n] := '\0';
    PadRightSteps(buf, wlen, n, padChr, filled, str[..]);
  }

  lemma PadRightSteps(buf: seq<char>, w: nat, n: nat, c: char, filled: seq<char>, r: seq<char>)
    requires w < n < |buf|
    requires filled == buf[..w] + Repeat(c, n - w) + buf[n..]
    requires r == filled[n := '\0']
    ensures r == buf[..w] + Repeat(c, n - w) + ['\0'] + buf[n + 1..]
  {
    var want := buf[..w] + Repeat(c, n - w) + ['\0'] + buf[n + 1..];
    assert |r| == |want|;
    forall i | 0 <= i < |r| ensures r[i] == want[i] {
      if i < n {
        assert r[i] == filled[i];
      } else if i > n {
        assert r[i] == filled[i] == buf[i];
      }
    }
  }

  /** With a pad char that is not NUL, PadRight leaves the string's own chars
      in place and extends it with pad chars to the clamped length. */
  lemma PaddedRightString(buf: seq<char>, n: nat, c: char)
    requires Terminated(buf) && (n <= StrLen(buf) || n < |buf|) && c != '\0'
    ensures var r := PaddedRight(buf, n, c);
            |r| == |buf| && Terminated(r) &&
            CStr(r) == CStr(buf) + Repeat(c, if n > StrLen(buf) then n - StrLen(buf) else 0)
  {
    var w := StrLen(buf);
    var r := PaddedRight(buf, n, c);
    if n > w {
      var pad := Repeat(c, n - w);
      AppendAssoc(buf[..w] + pad, ['\0'], buf[n + 1..]);
      NulAfter(buf[..w] + pad, buf[n + 1..]);
    } else {
      AppendEmpty(CStr(buf));
    }
  }

  /** A NUL-free head followed by a NUL: the C string is the head. */
  lemma NulAfter(head: seq<char>, rest: seq<char>)
    requires '\0' !in head
    ensures Terminated(head + (['\0'] + rest)) && CStr(head + (['\0'] + rest)) == head
  {
    var s := head + (['\0'] + rest);
    assert s[|head|] == '\0';
    forall i | 0 <= i < |head| ensures s[i] != '\0' {
      assert s[i] == head[i];
    }
    CStrAt(s, |head|);
    assert s[..|head|] == head;
  }

  /** The buffer after PadLeft with the pad length already clamped to `n`:
      when the string is shorter than `n`, it moves right, terminator
      included, and pad chars fill the gap in front. */
  function PaddedLeft(buf: seq<char>, n: nat, c: char): seq<char>
    requires Terminated(buf) && (n <= StrLen(buf) || n < |buf|)
  {
    var w := StrLen(buf);
    if n > w then Repeat(c, n - w) + buf[..w] + ['\0'] + buf[n + 1..] else buf
  }

  /** lstring::PadLeft(str, maxLen, padLen, padChr). */
  method PadLeft(str: array<char>, maxLen: SizeT, padLen: SizeT, padChr: char)
    requires Terminated(str[..])
    requires Min(padLen, maxLen) <= StrLen(str[..]) || Min(padLen, maxLen) < str.Length
    modifies str
    ensures str[..] == PaddedLeft(old(str[..]), Min(padLen, maxLen), padChr)
  {
    ghost var buf := str[..];
    var n := padLen;
    if n > maxLen {
      n := maxLen;
    }
    assert n == Min(padLen, maxLen);
    var wlen := StrLen(str[..]);
    if n > wlen {
      ShiftAndFill(str, wlen, n, padChr);
    }
  }

  /** The padding step of PadLeft: the memmove of the string and its
      terminator, then the memset of the gap. */
  method ShiftAndFill(str: array<char>, wlen: nat, n: nat, padChr: char)
    requires wlen < n < str.Length && str[wlen] == '\0'
    modifies str
    ensures str[..] == Repeat(padChr, n - wlen) + old(str[..wlen]) + ['\0'] + old(str[n + 1..])
  {
    ghost var buf := str[..];
    MemMove(str, n - wlen, 0, wlen + 1);
    ghost var moved := str[..];
    MemSet(str, 0, padChr, n - wlen);
    PadLeftSteps(buf, wlen, n, padChr, moved, str[..]);
  }

  lemma PadLeftSteps(buf: seq<char>, w: nat, n: nat, c: char, moved: seq<char>, r: seq<char>)
    requires w < n < |buf| && buf[w] == '\0'
    requires moved == buf[..n - w] + buf[0..w + 1] + buf[n - w + (w + 1)..]
    requires r == moved[..0] + Repeat(c, n - w) + moved[0 + (n - w)..]
    ensures r == Repeat(c, n - w) + buf[..w] + ['\0'] + buf[n + 1..]
  {
    var want := Repeat(c, n - w) + buf[..w] + ['\0'] + buf[n + 1..];
    assert |r| == |want|;
    forall i | 0 <= i < |r| ensures r[i] == want[i] {
      if n - w <= i {
        assert r[i] == moved[i];
        if i <= n {
          assert moved[i] == buf[i - (n - w)];
        }
      }
    }
  }

  /** With a pad char that is not NUL, PadLeft puts pad chars in front of
      the string up to the clamped length. */
  lemma PaddedLeftString(buf: seq<char>, n: nat, c: char)
    requires Terminated(buf) && (n <= StrLen(buf) || n < |buf|) && c != '\0'
    ensures var r := PaddedLeft(buf, n, c);
            |r| == |buf| && Terminated(r) &&
            CStr(r) == Repeat(c, if n > StrLen(buf) then n - StrLen(buf) else 0) + CStr(buf)
  {
    var w := StrLen(buf);
    var r := PaddedLeft(buf, n, c);
    if n > w {
      var pad := Repeat(c, n - w);
      AppendAssoc(pad + buf[..w], ['\0'], buf[n + 1..]);
      NulAfter(pad + buf[..w], buf[n + 1..]);
    } else {
      EmptyAppend(CStr(buf));
    }
  }

  /** A NUL at `n` with none before it ends the C string there. */
  lemma CStrAt(s: seq<char>, n: nat)
    requires n < |s| && s[n] == '\0' && forall i :: 0 <= i < n ==> s[i] != '\0'
    ensures Terminated(s) && StrLen(s) == n && CStr(s) == s[..n]
  {
  }

  // ---------------------------------------------------------------------------
  // Trimming

  /** Number of leading isspace chars. */
  function LeadCount(s: seq<char>): (r: nat)
    ensures r <= |s|
  {
    if s != [] && IsSpaceChar(s[0]) then 1 + LeadCount(s[1..]) else 0
  }

  /** Number of trailing isspace chars. */
  function TrailCount(s: seq<char>): (r: nat)
    ensures r <= |s|
  {
    if s != [] && IsSpaceChar(s[|s| - 1]) then 1 + TrailCount(s[..|s| - 1]) else 0
  }

  /** `s` with its leading whitespace, then its trailing whitespace, removed. */
  function Trimmed(s: seq<char>): seq<char>
  {
    var m := s[LeadCount(s)..];
    m[..|m| - TrailCount(m)]
  }

  /** LeadCount counts exactly the whitespace run at the front. */
  lemma {:induction false} LeadCountSpec(s: seq<char>)
    ensures forall i :: 0 <= i < LeadCount(s) ==> IsSpaceChar(s[i])
    ensures LeadCount(s) == |s| || !IsSpaceChar(s[LeadCount(s)])
    decreases |s|
  {
    if s != [] && IsSpaceChar(s[0]) {
      var tail := s[1..];
      LeadCountSpec(tail);
      forall i | 1 <= i < LeadCount(s) ensures IsSpaceChar(s[i]) {
        assert s[i] == tail[i - 1];
      }
      if LeadCount(s) < |s| {
        assert s[LeadCount(s)] == tail[LeadCount(tail)];
      }
    }
  }

  /** TrailCount counts exactly the whitespace run at the back. */
  lemma {:induction false} TrailCountSpec(s: seq<char>)
    ensures forall i :: |s| - TrailCount(s) <= i < |s| ==> IsSpaceChar(s[i])
    ensures TrailCount(s) == |s| || !IsSpaceChar(s[|s| - TrailCount(s) - 1])
    decreases |s|
  {
    if s != [] && IsSpaceChar(s[|s| - 1]) {
      var init := s[..|s| - 1];
      TrailCountSpec(init);
      forall i | |s| - TrailCount(s) <= i < |s| - 1 ensures IsSpaceChar(s[i]) {
        assert s[i] == init[i];
      }
      if TrailCount(s) < |s| {
        assert s[|s| - TrailCount(s) - 1] == init[|init| - TrailCount(init) - 1];
      }
    }
  }

  /** Trimmed(s) is `s` minus a run of whitespace at each end. */
  lemma TrimmedSpec(s: seq<char>)
    ensures LeadCount(s) + |Trimmed(s)| <= |s|
    ensures s[LeadCount(s)..LeadCount(s) + |Trimmed(s)|] == Trimmed(s)
    ensures forall i :: 0 <= i < LeadCount(s) ==> IsSpaceChar(s[i])
    ensures forall i :: LeadCount(s) + |Trimmed(s)| <= i < |s| ==> IsSpaceChar(s[i])
  {
    var lead := LeadCount(s);
    var m := s[lead..];
    LeadCountSpec(s);
    TrailCountSpec(m);
    forall i | lead + |Trimmed(s)| <= i < |s| ensures IsSpaceChar(s[i]) {
      assert s[i] == m[i - lead];
    }
  }

  /** Trimmed(s) neither starts nor ends with whitespace, and it is empty
      exactly when `s` is all whitespace. */
  lemma TrimmedEdges(s: seq<char>)
    ensures var t := Trimmed(s);
            (|t| == 0 <==> AllSpace(s)) &&
            (|t| > 0 ==> !IsSpaceChar(t[0]) && !IsSpaceChar(t[|t| - 1]))
  {
    var lead := LeadCount(s);
    var m := s[lead..];
    var t := Trimmed(s);
    LeadCountSpec(s);
    TrailCountSpec(m);
    if |t| == 0 {
      assert |m| == 0;
      TrimmedSpec(s);
    } else {
      assert t[0] == m[0] == s[lead];
      assert t[|t| - 1] == m[|m| - TrailCount(m) - 1];
    }
  }

  /** Trimming twice trims no further. */
  lemma TrimmedIdempotent(s: seq<char>)
    ensures Trimmed(Trimmed(s)) == Trimmed(s)
  {
    var t := Trimmed(s);
    TrimmedEdges(s);
    if |t| > 0 {
      assert LeadCount(t) == 0;
      assert t[0..] == t;
      assert TrailCount(t) == 0;
      assert t[..|t|] == t;
    }
  }

  /** A buffer after TrimString: the trimmed string, NULs over the chars it
      gave up (the last of them the copied terminator), and the rest of the
      buffer as it was. */
  function TrimmedBuffer(buf: seq<char>): (r: seq<char>)
    requires Terminated(buf)
  {
    var w := StrLen(buf);
    var m := buf[LeadCount(buf[..w])..w];
    var t := m[..|m| - TrailCount(m)];
    t + Repeat('\0', |m| + 1 - |t|) + buf[|m| + 1..]
  }

  /** lstring::TrimString(str): skips the leading whitespace, copies the
      rest of the string down to the front (terminator included), then
      overwrites trailing whitespace with NULs. `end` is the final value of
      `pDst - str`, the trimmed length, which lstring::trim goes on to use. */
  method TrimString(str: array<char>) returns (end: nat)
    requires Terminated(str[..])
    modifies str
    ensures end < str.Length
    ensures str[..] == TrimmedBuffer(old(str[..]))
    ensures Trimmed(CStr(old(str[..]))) == str[..end]
  {
    ghost var buf := str[..];
    var src := SkipLeader(str);
    var dst := CopyDown(str, src);
    ghost var copied := str[..];
    end := ClearTrailer(str, dst);
    TrimStringSteps(buf, src, dst, copied, str[..], end);
  }

  /** The three loops of TrimString put together. */
  lemma TrimStringSteps(buf: seq<char>, lead: nat, dst: nat, copied: seq<char>, r: seq<char>, end: nat)
    requires Terminated(buf) && lead == LeadCount(CStr(buf)) && lead <= StrLen(buf)
    requires dst == StrLen(buf) - lead
    requires copied == buf[lead..StrLen(buf)] + ['\0'] + buf[dst + 1..]
    requires end == dst - TrailCount(copied[..dst])
    requires r == copied[..end] + Repeat('\0', dst - end) + copied[dst..]
    ensures r == TrimmedBuffer(buf) && Trimmed(CStr(buf)) == r[..end]
  {
    var m := buf[lead..StrLen(buf)];
    CopiedParts(m, buf[dst + 1..], copied);
    var t := m[..end];
    TrailerParts(t, dst - end, buf[dst + 1..], r);
    assert CStr(buf)[lead..] == m;
  }

  lemma CopiedParts(m: seq<char>, rest: seq<char>, copied: seq<char>)
    requires copied == m + ['\0'] + rest
    ensures copied[..|m|] == m && copied[|m|..] == ['\0'] + rest
  {
    assert copied == m + (['\0'] + rest);
  }

  lemma TrailerParts(t: seq<char>, k: nat, rest: seq<char>, r: seq<char>)
    requires r == t + Repeat('\0', k) + (['\0'] + rest)
    ensures r == t + Repeat('\0', k + 1) + rest && r[..|t|] == t
  {
    Regroup(t, Repeat('\0', k), ['\0'], rest);
    RepeatSnoc('\0', k);
  }

  /** The leader loop: the index of the first char that is the terminator
      or not whitespace. */
  method SkipLeader(str: array<char>) returns (src: nat)
    requires Terminated(str[..])
    ensures src == LeadCount(CStr(str[..]))
  {
    ghost var line := CStr(str[..]);
    ghost var w := StrLen(str[..]);
    src := 0;
    while str[src] != '\0' && IsSpaceChar(str[src])
      invariant 0 <= src <= w
      invariant LeadCount(line) == src + LeadCount(line[src..])
      decreases w - src
    {
      assert line[src..][1..] == line[src + 1..];
      src := src + 1;
    }
    assert src < w ==> line[src..][0] == str[src];
  }

  /** The copy loop `while (*pDst++ = *pSrc++)`, followed by `pDst--`: the
      string from `src` on, terminator included, moves to the front, and
      the result is the index of the copied terminator. */
  method CopyDown(str: array<char>, src: nat) returns (dst: nat)
    requires Terminated(str[..]) && src <= StrLen(str[..])
    modifies str
    ensures dst == StrLen(old(str[..])) - src
    ensures str[..] == old(str[src..StrLen(str[..])]) + ['\0'] + old(str[dst + 1..])
  {
    ghost var buf := str[..];
    ghost var w := StrLen(buf);
    var s := src;
    var d := 0;
    while true
      invariant s == d + src && s <= w
      invariant forall k :: 0 <= k < d ==> str[k] == buf[k + src]
      invariant forall k :: d <= k < str.Length ==> str[k] == buf[k]
      decreases w - s
    {
      var c := str[s];
      str[d] := c;
      d := d + 1;
      s := s + 1;
      if c == '\0' {
        break;
      }
    }
    dst := d - 1;
    CopyDownResult(buf, src, w, str[..]);
  }

  lemma CopyDownResult(buf: seq<char>, src: nat, w: nat, r: seq<char>)
    requires src <= w < |buf| && |r| == |buf| && buf[w] == '\0'
    requires forall k :: 0 <= k <= w - src ==> r[k] == buf[k + src]
    requires forall k :: w - src < k < |r| ==> r[k] == buf[k]
    ensures r == buf[src..w] + ['\0'] + buf[w - src + 1..]
  {
    var want := buf[src..w] + ['\0'] + buf[w - src + 1..];
    forall k | 0 <= k < |r| ensures r[k] == want[k] {
      if k < w - src {
        assert want[k] == buf[k + src];
      }
    }
  }

  /** The trailer loop: walking back from the terminator at `dst`, each
      whitespace char before it becomes a NUL. The result is where the walk
      stops, the trimmed length of the chars before `dst`. */
  method ClearTrailer(str: array<char>, dst: nat) returns (end: nat)
    requires dst < str.Length
    modifies str
    ensures end == dst - TrailCount(old(str[..dst]))
    ensures str[..] == old(str[..end]) + Repeat('\0', dst - end) + old(str[dst..])
  {
    ghost var buf := str[..];
    ghost var m := buf[..dst];
    var d := dst;
    assert m[..d] == m;
    while d != 0 && IsSpaceChar(str[d - 1])
      invariant 0 <= d <= dst
      invariant forall k :: 0 <= k < d ==> str[k] == buf[k]
      invariant forall k :: d <= k < dst ==> str[k] == '\0'
      invariant forall k :: dst <= k < str.Length ==> str[k] == buf[k]
      invariant TrailCount(m) == dst - d + TrailCount(m[..d])
    {
      assert m[..d][..d - 1] == m[..d - 1];
      d := d - 1;
      str[d] := '\0';
    }
    assert d > 0 ==> m[..d][d - 1] == str[d - 1];
    end := d;
    ghost var r := buf[..end] + Repeat('\0', dst - end) + buf[dst..];
    assert forall k :: 0 <= k < str.Length ==> str[k] == r[k];
    assert str[..] == r;
  }

  lemma RepeatSnoc(c: char, n: nat)
    ensures Repeat(c, n) + [c] == Repeat(c, n + 1)
  {
  }

  /** What TrimString leaves as the C string is the trimmed C string. */
  lemma TrimmedBufferString(buf: seq<char>)
    requires Terminated(buf)
    ensures var r := TrimmedBuffer(buf);
            |r| == |buf| && Terminated(r) && CStr(r) == Trimmed(CStr(buf))
  {
    var r := TrimmedBuffer(buf);
    var w := StrLen(buf);
    var m := buf[LeadCount(buf[..w])..w];
    var t := m[..|m| - TrailCount(m)];
    assert buf[..w][LeadCount(buf[..w])..] == m;
    assert r[|t|] == '\0';
    forall i | 0 <= i < |t| ensures r[i] != '\0' {
      assert r[i] == m[i] == buf[LeadCount(buf[..w]) + i];
    }
    CStrAt(r, |t|);
    assert r[..|t|] == t;
  }

  /** TrimString is idempotent: on a buffer whose string is already trimmed
      it changes nothing. */
  lemma TrimStringIdempotent(buf: seq<char>)
    requires Terminated(buf) && Trimmed(CStr(buf)) == CStr(buf)
    ensures TrimmedBuffer(buf) == buf
  {
    var w := StrLen(buf);
    var line := buf[..w];
    TrimmedFixed(line);
    assert buf[0..w] == line;
    assert line[..|line|] == line;
    assert buf == line + Repeat('\0', 1) + buf[w + 1..];
  }

  /** A string that trims to itself has no whitespace at either end. */
  lemma TrimmedFixed(s: seq<char>)
    requires Trimmed(s) == s
    ensures LeadCount(s) == 0 && TrailCount(s) == 0
  {
    TrimmedSpec(s);
    assert s[0..] == s;
  }

  // ---------------------------------------------------------------------------
  // lstring::trim

  /** lstring::trim: TrimString's loops run over the string's own buffer, as
      c_str() exposes it, then `resize(pDst - str + 1)`. The content is the
      trimmed C-string view followed by one NUL that stays inside the string. */
  method Trim(s: seq<char>) returns (r: seq<char>)
    ensures r == Trimmed(CView(s)) + ['\0']
  {
    var buf := new char[|s| + 1](i => if 0 <= i < |s| then s[i] else '\0');
    assert buf[..] == s + ['\0'];
    var end := TrimString(buf);
    TrimResized(s + ['\0'], |s|, end);
    r := Resize(buf[..|s|], end + 1);
  }

  /** The string trimmed and resized as lstring::trim intends: the NUL-free
      trimmed view. */
  method TrimCorrected(s: seq<char>) returns (r: seq<char>)
    ensures r == Trimmed(CView(s))
  {
    var buf := new char[|s| + 1](i => if 0 <= i < |s| then s[i] else '\0');
    assert buf[..] == s + ['\0'];
    var end := TrimString(buf);
    TrimResized(s + ['\0'], |s|, end);
    r := Resize(buf[..|s|], end);
  }

  /** The first `len` chars of a trimmed buffer, resized to the trimmed
      length plus one, or to the trimmed length. */
  lemma TrimResized(buf: seq<char>, len: nat, end: nat)
    requires len < |buf| && buf[len] == '\0'
    requires end == |Trimmed(CStr(buf))|
    ensures var r := TrimmedBuffer(buf);
            Resize(r[..len], end + 1) == Trimmed(CStr(buf)) + ['\0'] &&
            Resize(r[..len], end) == Trimmed(CStr(buf))
  {
    var r := TrimmedBuffer(buf);
    var w := StrLen(buf);
    var m := buf[LeadCount(buf[..w])..w];
    var t := m[..|m| - TrailCount(m)];
    assert buf[..w][LeadCount(buf[..w])..] == m;
    assert Trimmed(CStr(buf)) == t;
    assert w <= len;
    assert r[..end] == t;
    if end + 1 <= len {
      assert r[..len][..end + 1] == t + ['\0'];
    } else {
      assert r[..len] == t;
      assert Repeat('\0', 1) == ['\0'];
    }
  }
}
