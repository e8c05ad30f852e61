/** GetOpts<char>: unix-style option parsing over argv. Each argv element is
    a C string, kept here as its chars before the terminator; pointers into
    argv are kept as (element, offset) pairs. */
module GetOpts {
  import opened StdLib

  /** Where m_argSeq points: null, the "" literal the constructor stores,
      or offset `off` of argv[arg]. */
  datatype Cursor = Null | Empty | At(arg: nat, off: nat)

  /** The fields GetOpt reads and writes. */
  datatype Opts = Opts(optIdx: int, argSeq: Cursor, optOpt: char, optArg: Option<seq<char>>, error: bool)

  /** Every argv element is a C string. */
  predicate CStrings(argv: seq<seq<char>>)
  {
    forall a :: 0 <= a < |argv| ==> '\0' !in argv[a]
  }

  /** The char at index `i` of a C string whose chars are `s`: past the
      end, the terminator. */
  function CharAt(s: seq<char>, i: nat): char
  {
    if i < |s| then s[i] else '\0'
  }

  /** The cursor points at a char of argv (or its terminator). */
  predicate Points(argv: seq<seq<char>>, c: Cursor)
  {
    c.At? ==> c.arg < |argv| && c.off <= |argv[c.arg]|
  }

  /** *m_argSeq. */
  function Peek(argv: seq<seq<char>>, c: Cursor): char
    requires Points(argv, c) && !c.Null?
  {
    if c.Empty? then '\0' else CharAt(argv[c.arg], c.off)
  }

  /** What GetOpt relies on between calls: m_optIdx starts at 1 and never
      passes argc (unless argc is 0), and a cursor with chars left points
      into argv[m_optIdx]. */
  predicate Inv(argv: seq<seq<char>>, s: Opts)
  {
    1 <= s.optIdx <= Max1(|argv|) && Points(argv, s.argSeq) &&
    (s.argSeq.At? && s.argSeq.off < |argv[s.argSeq.arg]| ==> s.argSeq.arg == s.optIdx && 1 <= s.argSeq.off)
  }

  function Max1(n: int): int
  {
    if n < 1 then 1 else n
  }

  /** The state the constructor leaves. */
  function Initial(): (s: Opts)
    ensures forall argv :: Inv(argv, s)
  {
    Opts(1, Empty, '\0', None, false)
  }

  /** FindChr's result: the index of the first `chr` in the C string
      `str`, counting its terminator, or none. */
  function Position(str: seq<char>, chr: char, from: nat := 0): (r: Option<nat>)
    requires from <= |str|
    ensures r.Some? ==> from <= r.value <= |str| && CharAt(str, r.value) == chr
    ensures r.Some? ==> forall j :: from <= j < r.value ==> str[j] != chr
    ensures r.None? <==> chr != '\0' && forall j :: from <= j < |str| ==> str[j] != chr
    decreases |str| - from
  {
    if from == |str| then (if chr == '\0' then Some(from) else None)
    else if str[from] == chr then Some(from)
    else Position(str, chr, from + 1)
  }

  /** FindChr looking for the terminator finds it rather than failing. */
  lemma PositionOfTerminator(str: seq<char>)
    requires '\0' !in str
    ensures Position(str, '\0') == Some(|str|)
  {
  }

  /** Where the next GetOpt call reads its option letter, if anywhere. */
  datatype Scanned = Done(optIdx: int) | Letter(arg: nat, off: nat)

  /** The first half of GetOpt: continue the current cluster, or move to
      argv[m_optIdx], which must start with '-' and not with "--". */
  function Scan(argv: seq<seq<char>>, s: Opts): (r: Scanned)
    requires Inv(argv, s)
  {
    if !s.argSeq.Null? && Peek(argv, s.argSeq) != '\0' then Letter(s.argSeq.arg, s.argSeq.off)
    else if s.optIdx >= |argv| || CharAt(argv[s.optIdx], 0) != '-' then Done(s.optIdx)
    else if CharAt(argv[s.optIdx], 1) == '-' then Done(s.optIdx + 1)
    else Letter(s.optIdx, if CharAt(argv[s.optIdx], 1) == '\0' then 0 else 1)
  }

  /** The letter Scan found is a char of that argv element, in argv[m_optIdx]. */
  lemma ScanLetter(argv: seq<seq<char>>, s: Opts)
    requires Inv(argv, s) && Scan(argv, s).Letter?
    ensures Scan(argv, s).arg == s.optIdx < |argv|
    ensures Scan(argv, s).off < |argv[s.optIdx]|
  {
  }

  /** One GetOpt call: the new fields and what it returns. */
  function Step(argv: seq<seq<char>>, optStr: seq<char>, s: Opts): (r: (Opts, bool))
    requires Inv(argv, s)
    ensures Inv(argv, r.0)
    ensures s.optIdx <= r.0.optIdx
    ensures r.1 ==> !r.0.error
  {
    match Scan(argv, s)
    case Done(i) => (s.(optIdx := i, argSeq := Null, error := false), false)
    case Letter(a, o) =>
      ScanLetter(argv, s);
      Take(argv, optStr, s.optIdx, s.optArg, o)
  }

  /** The second half of GetOpt: letter `o` of argv[optIdx] is looked up
      in optStr and, when it wants one, its argument is taken. */
  function Take(argv: seq<seq<char>>, optStr: seq<char>, optIdx: nat, optArg: Option<seq<char>>, o: nat): (r: (Opts, bool))
    requires 1 <= optIdx < |argv| && o < |argv[optIdx]|
    ensures Inv(argv, r.0)
    ensures optIdx <= r.0.optIdx <= |argv|
    ensures r.1 ==> !r.0.error
  {
    var arg := argv[optIdx];
    var c := arg[o];
    var last := o + 1 == |arg|;
    var bump := if last then optIdx + 1 else optIdx;
    var t := Opts(optIdx, At(optIdx, o + 1), c, optArg, false);
    var p := Position(optStr, c);
    if c == ':' || p.None? then
      if c == '-' then (t, false) else (t.(optIdx := bump, error := true), false)
    else if CharAt(optStr, p.value + 1) != ':' then (t.(optArg := None, optIdx := bump), true)
    else if !last then (t.(optArg := Some(arg[o + 1..]), argSeq := Null, optIdx := optIdx + 1), true)
    else if optIdx + 1 >= |argv| then (t.(argSeq := Null, optIdx := optIdx + 1, error := true), false)
    else (t.(optArg := Some(argv[optIdx + 1]), argSeq := Null, optIdx := optIdx + 2), true)
  }

  /** `n` successive GetOpt calls. */
  function Run(argv: seq<seq<char>>, optStr: seq<char>, s: Opts, n: nat): (r: Opts)
    requires Inv(argv, s)
    ensures Inv(argv, r)
    decreases n
  {
    if n == 0 then s else Run(argv, optStr, Step(argv, optStr, s).0, n - 1)
  }

  /** However many calls are made, m_optIdx only grows. */
  lemma {:induction false} RunMonotone(argv: seq<seq<char>>, optStr: seq<char>, s: Opts, n: nat)
    requires Inv(argv, s)
    ensures s.optIdx <= Run(argv, optStr, s, n).optIdx <= Max1(|argv|)
    decreases n
  {
    if n > 0 {
      RunMonotone(argv, optStr, Step(argv, optStr, s).0, n - 1);
    }
  }

  /** Scanning stops, without error, when argv is used up or the next
      element is not an option. */
  lemma StepEnds(argv: seq<seq<char>>, optStr: seq<char>, s: Opts)
    requires Inv(argv, s) && (s.argSeq.Null? || Peek(argv, s.argSeq) == '\0')
    requires s.optIdx >= |argv| || CharAt(argv[s.optIdx], 0) != '-'
    ensures Step(argv, optStr, s) == (s.(argSeq := Null, error := false), false)
  {
  }

  /** An element starting with "--" ends scanning and is passed over. */
  lemma StepDoubleDash(argv: seq<seq<char>>, optStr: seq<char>, s: Opts)
    requires Inv(argv, s) && (s.argSeq.Null? || Peek(argv, s.argSeq) == '\0')
    requires s.optIdx < |argv| && |argv[s.optIdx]| >= 2 && argv[s.optIdx][..2] == "--"
    ensures Step(argv, optStr, s) == (s.(optIdx := s.optIdx + 1, argSeq := Null, error := false), false)
  {
    assert argv[s.optIdx][1] == argv[s.optIdx][..2][1];
  }

  /** The letter GetOpt examines and the argv element it belongs to. */
  function Current(argv: seq<seq<char>>, s: Opts): (r: (nat, nat))
    requires Inv(argv, s) && Scan(argv, s).Letter?
    ensures r.0 == s.optIdx < |argv| && r.1 < |argv[r.0]|
  {
    ScanLetter(argv, s);
    (Scan(argv, s).arg, Scan(argv, s).off)
  }

  /** A letter that optStr lists without ':' is returned on its own;
      m_optIdx moves on only once its cluster is used up. */
  lemma StepFlag(argv: seq<seq<char>>, optStr: seq<char>, s: Opts)
    requires Inv(argv, s) && Scan(argv, s).Letter?
    requires var (a, o) := Current(argv, s); var p := Position(optStr, argv[a][o]);
      argv[a][o] != ':' && p.Some? && CharAt(optStr, p.value + 1) != ':'
    ensures var (a, o) := Current(argv, s); var r := Step(argv, optStr, s);
      r.1 && r.0.optOpt == argv[a][o] && r.0.optArg.None? && !r.0.error &&
      r.0.argSeq == At(a, o + 1) &&
      r.0.optIdx == if o + 1 == |argv[a]| then s.optIdx + 1 else s.optIdx
  {
  }

  /** ':' or a letter optStr does not list is an error, except '-', which
      just stops. */
  lemma StepUnknown(argv: seq<seq<char>>, optStr: seq<char>, s: Opts)
    requires Inv(argv, s) && Scan(argv, s).Letter?
    requires var (a, o) := Current(argv, s); argv[a][o] == ':' || argv[a][o] !in optStr
    ensures var (a, o) := Current(argv, s); var r := Step(argv, optStr, s);
      !r.1 && r.0.optOpt == argv[a][o] && (r.0.error <==> argv[a][o] != '-') &&
      (argv[a][o] == '-' ==> r.0.optIdx == s.optIdx)
  {
  }

  /** A letter followed by ':' in optStr takes the rest of its cluster, or
      else the next argv element; when there is none, that is an error and
      m_optIdx ends at argc. */
  lemma StepArgument(argv: seq<seq<char>>, optStr: seq<char>, s: Opts)
    requires Inv(argv, s) && Scan(argv, s).Letter?
    requires var (a, o) := Current(argv, s); var p := Position(optStr, argv[a][o]);
      argv[a][o] != ':' && p.Some? && CharAt(optStr, p.value + 1) == ':'
    ensures var (a, o) := Current(argv, s); var r := Step(argv, optStr, s);
      r.0.optOpt == argv[a][o] && r.0.argSeq == Null &&
      (o + 1 < |argv[a]| ==> r.1 && r.0.optArg == Some(argv[a][o + 1..]) && r.0.optIdx == s.optIdx + 1) &&
      (o + 1 == |argv[a]| && s.optIdx + 1 < |argv| ==>
        r.1 && r.0.optArg == Some(argv[s.optIdx + 1]) && r.0.optIdx == s.optIdx + 2) &&
      (o + 1 == |argv[a]| && s.optIdx + 1 >= |argv| ==> !r.1 && r.0.error && r.0.optIdx == |argv|)
  {
  }

  /** The first call after construction looks at argv[1]. */
  lemma FirstCall(argv: seq<seq<char>>, optStr: seq<char>)
    ensures Scan(argv, Initial()) ==
      if |argv| <= 1 || CharAt(argv[1], 0) != '-' then Done(1)
      else if CharAt(argv[1], 1) == '-' then Done(2)
      else Letter(1, if CharAt(argv[1], 1) == '\0' then 0 else 1)
  {
  }

  class GetOpts {
    /** m_argv, of m_argc elements. */
    const argv: seq<seq<char>>
    const optStr: seq<char>
    var optArg: Option<seq<char>>
    var optIdx: int
    var optOpt: char
    var argSeq: Cursor
    var error: bool

    function State(): Opts
      reads this
    {
      Opts(optIdx, argSeq, optOpt, optArg, error)
    }

    ghost predicate Valid()
      reads this
    {
      CStrings(argv) && '\0' !in optStr && Inv(argv, State())
    }

    constructor (argv: seq<seq<char>>, optStr: seq<char>)
      requires CStrings(argv) && '\0' !in optStr
      ensures Valid() && this.argv == argv && this.optStr == optStr && State() == Initial()
    {
      this.argv := argv;
      this.optStr := optStr;
      optArg := None;
      optIdx := 1;
      optOpt := '\0';
      argSeq := Empty;
      error := false;
    }

    /** Returns true when an option letter was found; see Step. */
    method GetOpt() returns (found: bool)
      requires Valid()
      modifies this
      ensures Valid()
      ensures (State(), found) == Step(argv, optStr, old(State()))
    {
      error := false;
      var more := Load();
      if !more {
        return false;
      }
      found := Examine();
    }

    /** Lines 41-57 of GetOpt: keeps the cursor if it has chars left, or
        else moves it onto argv[m_optIdx] past its '-'; stops when there
        is no option to read. */
    method Load() returns (more: bool)
      requires Valid() && !error
      modifies this
      ensures !more ==> Valid() && (State(), false) == Step(argv, optStr, old(State()))
      ensures more ==> argSeq.At? && State() == old(State()).(argSeq := argSeq)
      ensures more ==> Scan(argv, old(State())) == Letter(argSeq.arg, argSeq.off)
    {
      if argSeq.Null? || Peek(argv, argSeq) == '\0' {
        if optIdx >= |argv| {
          argSeq := Null;
          return false;
        }
        argSeq := At(optIdx, 0);
        if Peek(argv, argSeq) != '-' {
          argSeq := Null;
          return false;
        }
        if Peek(argv, At(optIdx, 1)) != '\0' {
          argSeq := At(optIdx, 1);
          if Peek(argv, argSeq) == '-' {
            optIdx := optIdx + 1;
            argSeq := Null;
            return false;
          }
        }
      }
      more := true;
    }

    /** Lines 59-109 of GetOpt: reads the letter under the cursor, looks it
        up in optStr and takes its argument. */
    method Examine() returns (found: bool)
      requires CStrings(argv) && '\0' !in optStr && 1 <= optIdx < |argv|
      requires argSeq.At? && argSeq.arg == optIdx && argSeq.off < |argv[optIdx]| && !error
      modifies this
      ensures Valid()
      ensures (State(), found) == Take(argv, optStr, old(optIdx), old(optArg), old(argSeq.off))
    {
      var a := argSeq.arg;
      var o := argSeq.off;
      optOpt := Peek(argv, argSeq);
      argSeq := At(a, o + 1);
      var letter: Option<nat> := None;
      if optOpt != ':' {
        letter := FindChr(optStr, optOpt);
      }
      if letter.None? {
        if optOpt == '-' {
          return false;
        }
        if Peek(argv, argSeq) == '\0' {
          optIdx := optIdx + 1;
        }
        error := true;
        return false;
      }
      if CharAt(optStr, letter.value + 1) != ':' {
        optArg := None;
        if Peek(argv, argSeq) == '\0' {
          optIdx := optIdx + 1;
        }
      } else {
        if Peek(argv, argSeq) != '\0' {
          optArg := Some(argv[a][o + 1..]);
        } else {
          optIdx := optIdx + 1;
          if |argv| <= optIdx {
            argSeq := Null;
            error := true;
            return false;
          }
          optArg := Some(argv[optIdx]);
        }
        argSeq := Null;
        optIdx := optIdx + 1;
      }
      return true;
    }

    /** Advances through `str` to the first `chr` or the terminator. */
    static method FindChr(str: seq<char>, chr: char) returns (r: Option<nat>)
      ensures r == Position(str, chr)
    {
      var i := 0;
      while i < |str| && str[i] != chr
        invariant i <= |str| && Position(str, chr) == Position(str, chr, i)
      {
        i := i + 1;
      }
      r := if CharAt(str, i) == chr then Some(i) else None;
    }

    method Opt() returns (c: char)
      ensures c == optOpt
    {
      c := optOpt;
    }

    method Error() returns (e: bool)
      ensures e == error
    {
      e := error;
    }

    method OptArg() returns (arg: Option<seq<char>>)
      ensures arg == optArg
    {
      arg := optArg;
    }

    method NextIdx() returns (idx: int)
      ensures idx == optIdx
    {
      idx := optIdx;
    }
  }
}
