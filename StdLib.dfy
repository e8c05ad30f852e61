/** Models of the C and C++ library facilities that the LLWatch core calls:
    size_t arithmetic, std::string::find and find_first_of, resize and erase,
    C strings held in char buffers, and isspace in the "C" locale. */
module StdLib {

  datatype Option<T> = None | Some(value: T)

  /** Number of values of a 64-bit size_t. */
  const SIZE_MOD: int := 0x1_0000_0000_0000_0000

  /** std::string::npos, that is (size_t)-1. */
  const NPOS: int := SIZE_MOD - 1

  /** Number of values of a 32-bit unsigned int (uint, unsigned, DWORD). */
  const UINT_MOD: int := 0x1_0000_0000

  type SizeT = x: int | 0 <= x < SIZE_MOD
  type UInt = x: int | 0 <= x < UINT_MOD

  /** size_t arithmetic wraps around modulo 2^64; the sum or difference of
      two size_t values is at most one period away. */
  function Wrap(x: int): (r: SizeT)
    requires -SIZE_MOD <= x < 2 * SIZE_MOD
  {
    if x < 0 then x + SIZE_MOD else if x >= SIZE_MOD then x - SIZE_MOD else x
  }

  /** A std::string never reaches npos characters (its max_size is smaller). */
  predicate Fits(s: seq<char>)
  {
    |s| < NPOS
  }

  /** isspace in the "C" locale: space, \t, \n, \v, \f and \r. */
  predicate IsSpaceChar(c: char)
  {
    c == ' ' || c == '\t' || c == '\n' || c == '\U{0B}' || c == '\U{0C}' || c == '\r'
  }

  predicate AllSpace(s: seq<char>)
  {
    forall i :: 0 <= i < |s| ==> IsSpaceChar(s[i])
  }

  /** `n` copies of `c`. */
  function Repeat<T>(c: T, n: nat): (r: seq<T>)
    ensures |r| == n && forall i :: 0 <= i < n ==> r[i] == c
  {
    seq(n, _ => c)
  }

  function Min(a: int, b: int): int
  {
    if a < b then a else b
  }

  /** Does `sub` occur in `s` starting at index `i`? */
  predicate OccursAt(s: seq<char>, sub: seq<char>, i: int)
  {
    0 <= i && i + |sub| <= |s| && forall k :: 0 <= k < |sub| ==> s[i + k] == sub[k]
  }

  /** std::string::find(sub, pos): the first index at or after `pos` where
      `sub` occurs, or npos. An empty `sub` is found at `pos` when
      `pos <= |s|`. */
  function Find(s: seq<char>, sub: seq<char>, pos: SizeT): (r: SizeT)
    requires Fits(s)
    ensures r == NPOS || (pos <= r && OccursAt(s, sub, r))
    decreases |s| - pos
  {
    if pos + |sub| > |s| then NPOS
    else if OccursAt(s, sub, pos) then pos
    else Find(s, sub, pos + 1)
  }

  /** No occurrence lies between the search start and what Find returns. */
  lemma {:induction false} FindIsFirst(s: seq<char>, sub: seq<char>, pos: SizeT)
    requires Fits(s)
    ensures forall j :: pos <= j < Find(s, sub, pos) ==> !OccursAt(s, sub, j)
    decreases |s| - pos
  {
    if pos + |sub| <= |s| && !OccursAt(s, sub, pos) {
      FindIsFirst(s, sub, pos + 1);
    }
  }

  /** std::string::find_first_of(delims, pos): the first index at or after
      `pos` whose char is one of `delims`, or npos. */
  function FindFirstOf(s: seq<char>, delims: seq<char>, pos: SizeT): (r: SizeT)
    requires Fits(s)
    ensures r == NPOS || (pos <= r < |s| && s[r] in delims)
    decreases |s| - pos
  {
    if pos >= |s| then NPOS
    else if s[pos] in delims then pos
    else FindFirstOf(s, delims, pos + 1)
  }

  /** No char of `delims` lies between the search start and what
      FindFirstOf returns (or the end, when it returns npos). */
  lemma {:induction false} FindFirstOfIsFirst(s: seq<char>, delims: seq<char>, pos: SizeT)
    requires Fits(s)
    ensures forall j :: pos <= j < |s| && j < FindFirstOf(s, delims, pos) ==> s[j] !in delims
    decreases |s| - pos
  {
    if pos < |s| && s[pos] !in delims {
      FindFirstOfIsFirst(s, delims, pos + 1);
    }
  }

  lemma AppendAssoc<T>(a: seq<T>, b: seq<T>, c: seq<T>)
    ensures a + (b + c) == (a + b) + c
  {
  }

  lemma EmptyAppend<T>(a: seq<T>)
    ensures [] + a == a
  {
  }

  lemma AppendEmpty<T>(a: seq<T>)
    ensures a + [] == a
  {
  }

  /** Regrouping a four-part concatenation. */
  lemma Regroup<T>(a: seq<T>, b: seq<T>, c: seq<T>, d: seq<T>)
    ensures (a + b) + (c + d) == (a + (b + c)) + d
  {
  }

  /** std::string::resize(n): truncates, or pads with '\0'. */
  function Resize(s: seq<char>, n: nat): seq<char>
  {
    if n <= |s| then s[..n] else s + Repeat('\0', n - |s|)
  }

  /** std::string::erase(0, n): drops the first `n` chars, or all of them. */
  function EraseFront(s: seq<char>, n: nat): seq<char>
  {
    s[Min(n, |s|)..]
  }

  /** Number of occurrences of the char `c` in `s`. */
  function Tally(s: seq<char>, c: char): nat
  {
    if s == [] then 0 else Tally(s[..|s| - 1], c) + (if s[|s| - 1] == c then 1 else 0)
  }

  lemma {:induction false} TallyAppend(a: seq<char>, b: seq<char>, c: char)
    ensures Tally(a + b, c) == Tally(a, c) + Tally(b, c)
    decreases |b|
  {
    if b == [] {
      assert a + b == a;
    } else {
      assert (a + b)[..|a + b| - 1] == a + b[..|b| - 1];
      TallyAppend(a, b[..|b| - 1], c);
    }
  }

  /** Splitting a string at one index splits its tally there. */
  lemma TallySplitAt(s: seq<char>, i: nat, c: char)
    requires i < |s|
    ensures Tally(s, c) == Tally(s[..i], c) + (if s[i] == c then 1 else 0) + Tally(s[i + 1..], c)
  {
    assert s == s[..i] + ([s[i]] + s[i + 1..]);
    TallyAppend(s[..i], [s[i]] + s[i + 1..], c);
    TallyAppend([s[i]], s[i + 1..], c);
    assert [s[i]][..0] == [];
  }

  lemma {:induction false} TallyAbsent(s: seq<char>, c: char)
    requires forall i :: 0 <= i < |s| ==> s[i] != c
    ensures Tally(s, c) == 0
    decreases |s|
  {
    if s != [] {
      TallyAbsent(s[..|s| - 1], c);
    }
  }

  lemma {:induction false} TallyBound(s: seq<char>, c: char)
    ensures Tally(s, c) <= |s|
    decreases |s|
  {
    if s != [] {
      TallyBound(s[..|s| - 1], c);
    }
  }

  /** A buffer that holds a C string: it contains a terminating '\0'. */
  predicate Terminated(s: seq<char>)
  {
    '\0' in s
  }

  /** strlen: the index of the first '\0'. */
  function StrLen(s: seq<char>): (n: nat)
    requires Terminated(s)
    ensures n < |s| && s[n] == '\0'
    ensures forall i :: 0 <= i < n ==> s[i] != '\0'
  {
    if s[0] == '\0' then 0 else 1 + StrLen(s[1..])
  }

  /** The C string a buffer holds: its chars before the first '\0'. */
  function CStr(s: seq<char>): (r: seq<char>)
    requires Terminated(s)
    ensures '\0' !in r
  {
    s[..StrLen(s)]
  }

  /** The C-string view of a std::string (what c_str() shows to strchr and
      friends): its chars before the first embedded '\0', if any. */
  function CView(s: seq<char>): (r: seq<char>)
    ensures '\0' !in r
    ensures |r| <= |s| && r == s[..|r|]
  {
    CStr(s + ['\0'])
  }

  lemma CViewOfPlain(s: seq<char>)
    requires '\0' !in s
    ensures CView(s) == s
  {
  }
}
