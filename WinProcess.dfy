/** The part of WinProcess that picks how to run a command: which file
    extension the executable has on PATH (remembered for the last name
    asked about), and the command line rewritten for scripts. SearchPath
    is an oracle given as a parameter. */
module WinProcess {
  import opened StdLib

  /** SearchPath(NULL, name, extn, ...) != 0: is `name` with `extn`
      (or as it is, for none) found on PATH? */
  type Probe = (seq<char>, Option<seq<char>>) -> bool

  /** The extensions GetRunExtension tries, in order. */
  const EXTNS: seq<Option<seq<char>>> := [None, Some(".exe"), Some(".com"), Some(".cmd"), Some(".bat"), Some(".ps")]

  /** The extensions GetRunCommand appends to a script's name. */
  const SCRIPT_EXTNS: seq<seq<char>> := [".cmd", ".bat", ".ps"]

  /** The index of the first extension at or after `i` that finds `name`,
      or |EXTNS| when none does. */
  function FirstHit(name: seq<char>, search: Probe, i: nat): (h: nat)
    requires i <= |EXTNS|
    ensures i <= h <= |EXTNS|
    ensures h < |EXTNS| ==> search(name, EXTNS[h])
    ensures forall j :: i <= j < h ==> !search(name, EXTNS[j])
    decreases |EXTNS| - i
  {
    if i == |EXTNS| then i
    else if search(name, EXTNS[i]) then i
    else FirstHit(name, search, i + 1)
  }

  /** The probes made trying the first `n` extensions on `name`. */
  function ProbeLog(name: seq<char>, n: nat): (log: seq<(seq<char>, Option<seq<char>>)>)
    requires n <= |EXTNS|
    ensures |log| == n && forall j :: 0 <= j < n ==> log[j] == (name, EXTNS[j])
  {
    if n == 0 then [] else ProbeLog(name, n - 1) + [(name, EXTNS[n - 1])]
  }

  /** The cache fields m_lastExeName and m_extn. */
  datatype Cache = Cache(lastExeName: seq<char>, extn: Option<seq<char>>)

  /** GetRunExtension on the cache `c`: the new cache and the extension
      returned. */
  function Lookup(c: Cache, name: seq<char>, search: Probe): (Cache, Option<seq<char>>)
  {
    if c.lastExeName == name then (c, c.extn)
    else
      var h := FirstHit(name, search, 0);
      if h < |EXTNS| then (Cache(name, EXTNS[h]), EXTNS[h])
      else (Cache(name, EXTNS[|EXTNS| - 1]), None)
  }

  /** The probes Lookup makes: none on a cache hit, else each extension up
      to and including the first that is found. */
  function Probed(c: Cache, name: seq<char>, search: Probe): seq<(seq<char>, Option<seq<char>>)>
  {
    if c.lastExeName == name then []
    else ProbeLog(name, Min(FirstHit(name, search, 0) + 1, |EXTNS|))
  }

  /** A miss returns the first extension, in probe order, under which
      SearchPath finds the name, or null when none does. */
  lemma LookupMiss(c: Cache, name: seq<char>, search: Probe)
    requires c.lastExeName != name
    ensures Lookup(c, name, search).0.lastExeName == name
    ensures (exists j :: 0 <= j < |EXTNS| && search(name, EXTNS[j])) ==>
      exists h :: 0 <= h < |EXTNS| && Lookup(c, name, search).1 == EXTNS[h] && search(name, EXTNS[h]) &&
        forall j :: 0 <= j < h ==> !search(name, EXTNS[j])
    ensures (forall j :: 0 <= j < |EXTNS| ==> !search(name, EXTNS[j])) ==>
      Lookup(c, name, search).1.None?
  {
    var h := FirstHit(name, search, 0);
    if h < |EXTNS| {
      assert Lookup(c, name, search).1 == EXTNS[h];
    }
  }

  /** Asking again about the same name answers from the cache, without a
      probe, with whatever the first call left in m_extn. */
  lemma LookupRepeat(c: Cache, name: seq<char>, search: Probe, search': Probe)
    ensures var (c', r) := Lookup(c, name, search);
      Lookup(c', name, search') == (c', c'.extn) && Probed(c', name, search') == []
  {
  }

  /** When no extension finds the name, the first call returns null but
      leaves ".ps" cached, so the next call with the same name returns
      ".ps". */
  lemma LookupStale(c: Cache, name: seq<char>, search: Probe, search': Probe)
    requires c.lastExeName != name
    requires forall j :: 0 <= j < |EXTNS| ==> !search(name, EXTNS[j])
    ensures Lookup(c, name, search).1 == None
    ensures Lookup(Lookup(c, name, search).0, name, search').1 == Some(".ps")
  {
    assert FirstHit(name, search, 0) == |EXTNS|;
  }

  /** The initial cache answers an empty name with null and no probe. */
  lemma LookupInitial(search: Probe)
    ensures Lookup(Cache("", None), "", search) == (Cache("", None), None)
    ensures Probed(Cache("", None), "", search) == []
  {
  }

  /** strchr(s, c) for c's index in the C string `s`, or, when `c` is
      absent, the index of its terminator. */
  function CharIndex(s: seq<char>, c: char): (n: nat)
    ensures n <= |s| && (n < |s| ==> s[n] == c)
    ensures forall j :: 0 <= j < n ==> s[j] != c
  {
    if s == [] || s[0] == c then 0 else 1 + CharIndex(s[1..], c)
  }

  /** The executable name of a command line: the C string up to its first
      space. */
  function ExeName(command: seq<char>): seq<char>
  {
    CView(command)[..CharIndex(CView(command), ' ')]
  }

  /** What follows the executable name: empty, or starting with a space. */
  function Rest(command: seq<char>): seq<char>
  {
    CView(command)[CharIndex(CView(command), ' ')..]
  }

  /** The command splits into its executable name, which has no space, and
      the rest, which is empty or starts with one. */
  lemma ExeNameRest(command: seq<char>)
    ensures ExeName(command) + Rest(command) == CView(command)
    ensures ' ' !in ExeName(command)
    ensures Rest(command) == [] || Rest(command)[0] == ' '
    ensures '\0' !in command ==> ExeName(command) + Rest(command) == command
  {
    if '\0' !in command {
      CViewOfPlain(command);
    }
    var n := CharIndex(CView(command), ' ');
    assert forall j :: 0 <= j < n ==> ExeName(command)[j] == CView(command)[j];
  }

  /** The command GetRunCommand builds: for a script extension, the
      executable name with that extension, then the rest of the line. */
  function RunCommand(command: seq<char>, extn: Option<seq<char>>): seq<char>
  {
    if extn.Some? && extn.value in SCRIPT_EXTNS then ExeName(command) + extn.value + Rest(command)
    else command
  }

  /** Only the script extensions rewrite the command, and the rewrite puts
      the extension right after the executable name. */
  lemma RunCommandSpec(command: seq<char>, extn: Option<seq<char>>)
    requires '\0' !in command
    ensures extn == Some(".exe") || extn == Some(".com") || extn.None? ==> RunCommand(command, extn) == command
    ensures extn == Some(".cmd") || extn == Some(".bat") || extn == Some(".ps") ==>
      var n := CharIndex(command, ' ');
      RunCommand(command, extn) == command[..n] + extn.value + command[n..]
  {
    CViewOfPlain(command);
  }

  class WinProcess {
    /** m_extn: null, or the extension last tried. */
    var extn: Option<seq<char>>
    var lastExeName: seq<char>
    /** Every SearchPath call made, in order. */
    ghost var probes: seq<(seq<char>, Option<seq<char>>)>

    function CacheState(): Cache
      reads this
    {
      Cache(lastExeName, extn)
    }

    constructor ()
      ensures CacheState() == Cache("", None) && probes == []
    {
      extn := None;
      lastExeName := "";
      probes := [];
    }

    method GetRunExtension(exeName: seq<char>, search: Probe) returns (r: Option<seq<char>>)
      modifies this
      ensures (CacheState(), r) == Lookup(old(CacheState()), exeName, search)
      ensures probes == old(probes) + Probed(old(CacheState()), exeName, search)
    {
      if lastExeName == exeName {
        return extn;
      }
      lastExeName := exeName;
      var idx := 0;
      while idx != |EXTNS|
        invariant 0 <= idx <= |EXTNS| && lastExeName == exeName
        invariant FirstHit(exeName, search, idx) == FirstHit(exeName, search, 0)
        invariant probes == old(probes) + ProbeLog(exeName, idx)
        invariant idx > 0 ==> extn == EXTNS[idx - 1]
      {
        extn := EXTNS[idx];
        AppendAssoc(old(probes), ProbeLog(exeName, idx), [(exeName, extn)]);
        probes := probes + [(exeName, extn)];
        if search(exeName, extn) {
          return extn;
        }
        idx := idx + 1;
      }
      return None;
    }

    /** Returns the command to run, which it also stores in `fullCommand`. */
    method GetRunCommand(command: seq<char>, search: Probe) returns (fullCommand: seq<char>, r: seq<char>)
      modifies this
      ensures var (c, extn) := Lookup(old(CacheState()), ExeName(command), search);
        CacheState() == c && fullCommand == RunCommand(command, extn) && r == fullCommand
      ensures probes == old(probes) + Probed(old(CacheState()), ExeName(command), search)
    {
      fullCommand := command;
      var view := CView(command);
      var endExe := CharIndex(view, ' ');
      var exeName := view[..endExe];
      var exeExtn := GetRunExtension(exeName, search);
      if exeExtn.Some? {
        var idx := 0;
        while idx != |SCRIPT_EXTNS|
          invariant 0 <= idx <= |SCRIPT_EXTNS| && fullCommand == command
          invariant exeExtn.value !in SCRIPT_EXTNS[..idx]
        {
          var extn := SCRIPT_EXTNS[idx];
          if exeExtn.value == extn {
            fullCommand := exeName + extn + view[endExe..];
            break;
          }
          idx := idx + 1;
        }
      }
      r := fullCommand;
    }
  }
}
