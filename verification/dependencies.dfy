/** `ensureDependencies()` (py_modules/sunshine.py:205-230) and the checks and
    installers it is meant to call (233-273). The host is a parameter: whether
    the private bwrap copy exists, what `flatpak list --system` printed, and
    the exit codes of `cp` and `flatpak install`. */
module Dependencies {
  import opened Basics
  import Utf8
  import opened Controller

  /** The host as the dependency checks see it. `None` stands for a launch
      that raised; such exceptions are caught and read as failure. */
  datatype Host = Host(
    bwrapFile: bool,
    flatpakList: Option<seq<byte>>,
    copyExit: Option<int>,
    installExit: Option<int>)

  // ---------------------------------------------------------------------------
  // Substrings and lines

  /** `pat` occurs in `s` starting at position `i`. */
  predicate OccursAt(s: string, pat: string, i: nat) {
    i + |pat| <= |s| && s[i..i + |pat|] == pat
  }

  /** Python's `pat in s` on strings. */
  predicate Contains(s: string, pat: string) {
    exists i: nat :: i <= |s| && OccursAt(s, pat, i)
  }

  /** `s.split("\n")`: the pieces between line feeds, empty ones included. */
  function SplitLines(s: string): (lines: seq<string>)
    ensures |lines| > 0
    ensures forall j :: 0 <= j < |lines| ==> '\n' !in lines[j]
    decreases |s|
  {
    if '\n' in s then
      var k := Find(s, '\n');
      [s[..k]] + SplitLines(s[k + 1..])
    else
      [s]
  }

  /** The loop of `_isSunshineInstalled`: some line contains `pat`. */
  function AnyLineContains(lines: seq<string>, pat: string): (r: bool)
    ensures r <==> exists j :: 0 <= j < |lines| && Contains(lines[j], pat)
  {
    lines != [] && (Contains(lines[0], pat) || AnyLineContains(lines[1..], pat))
  }

  lemma OccurrenceChars(s: string, pat: string, i: nat)
    requires OccursAt(s, pat, i)
    ensures forall k :: i <= k < i + |pat| ==> s[k] in pat
  {
    forall k | i <= k < i + |pat|
      ensures s[k] in pat
    {
      assert s[k] == s[i..i + |pat|][k - i];
    }
  }

  /** A pattern without a line feed occurs across a line feed exactly when it
      occurs on one side of it. */
  lemma ContainsAround(a: string, rest: string, pat: string)
    requires '\n' !in pat
    ensures Contains(a + "\n" + rest, pat) <==> Contains(a, pat) || Contains(rest, pat)
  {
    var s := a + "\n" + rest;
    if Contains(s, pat) {
      var i: nat :| i <= |s| && OccursAt(s, pat, i);
      if i + |pat| <= |a| {
        assert a[i..i + |pat|] == s[i..i + |pat|];
        assert OccursAt(a, pat, i);
      } else {
        // the occurrence cannot cover the line feed at position |a|
        OccurrenceChars(s, pat, i);
        assert s[|a|] == '\n';
        assert i > |a|;
        var j: nat := i - |a| - 1;
        assert rest[j..j + |pat|] == s[i..i + |pat|];
        assert OccursAt(rest, pat, j);
      }
    }
    if Contains(a, pat) {
      var i: nat :| i <= |a| && OccursAt(a, pat, i);
      OccursShifted(a, s, pat, i, 0);
    }
    if Contains(rest, pat) {
      var j: nat :| j <= |rest| && OccursAt(rest, pat, j);
      OccursShifted(rest, s, pat, j, |a| + 1);
    }
  }

  /** An occurrence in a piece of `s` is an occurrence in `s`. */
  lemma OccursShifted(piece: string, s: string, pat: string, j: nat, offset: nat)
    requires offset + |piece| <= |s| && s[offset..offset + |piece|] == piece
    requires OccursAt(piece, pat, j)
    ensures OccursAt(s, pat, offset + j) && offset + j <= |s|
  {
    var i := offset + j;
    forall k | 0 <= k < |pat|
      ensures s[i + k] == pat[k]
    {
      assert s[i + k] == s[offset..offset + |piece|][j + k];
      assert pat[k] == piece[j..j + |pat|][k];
    }
    assert s[i..i + |pat|] == pat;
  }

  /** Searching line by line finds a pattern without a line feed exactly when
      it occurs anywhere in the text. */
  lemma {:induction false} AnyLineContainsText(s: string, pat: string)
    requires '\n' !in pat
    ensures AnyLineContains(SplitLines(s), pat) <==> Contains(s, pat)
    decreases |s|
  {
    var lines := SplitLines(s);
    if '\n' in s {
      var k := Find(s, '\n');
      assert lines[0] == s[..k] && lines[1..] == SplitLines(s[k + 1..]);
      AnyLineContainsText(s[k + 1..], pat);
      assert s == s[..k] + "\n" + s[k + 1..];
      ContainsAround(s[..k], s[k + 1..], pat);
    } else {
      assert lines == [s];
      assert lines[1..] == [];
    }
  }

  // ---------------------------------------------------------------------------
  // The checks and installers

  /** `_isSunshineInstalled()`: some line of the UTF-8 listing mentions
      Sunshine; a failed launch or an undecodable listing reads as no. */
  function IsSunshineInstalled(h: Host): (r: bool)
    ensures r <==> h.flatpakList.Some? && Utf8.Decode(h.flatpakList.value).Some?
                   && Contains(Utf8.Decode(h.flatpakList.value).value, "Sunshine")
  {
    match h.flatpakList
    case None => false
    case Some(output) =>
      match Utf8.Decode(output)
      case None => false
      case Some(text) =>
        AnyLineContainsText(text, "Sunshine");
        AnyLineContains(SplitLines(text), "Sunshine")
  }

  /** An installer reports success when its process ran and exited with 0. */
  predicate ExitedCleanly(exit: Option<int>) {
    exit == Some(0)
  }

  /** The branch structure of `ensureDependencies`, given what its two
      conditions evaluate to. */
  function Branches(c: State, h: Host, bwrapPresent: bool, sunshinePresent: bool): (r: Run<bool>)
    ensures r.outcome.Done?
    ensures r.state.authHeader == c.authHeader && r.state.shellHandle == c.shellHandle
    ensures var bwrapReady := bwrapPresent || ExitedCleanly(h.copyExit);
      && (r.outcome.value <==> bwrapReady && (sunshinePresent || ExitedCleanly(h.installExit)))
      && (Spawn(CopyBwrap) in r.effects <==> !bwrapPresent)
      && (Spawn(InstallSunshine) in r.effects <==> bwrapReady && !sunshinePresent)
      && (r.state.isFreshInstallation <==>
            c.isFreshInstallation || (Spawn(InstallSunshine) in r.effects && ExitedCleanly(h.installExit)))
    ensures r.effects == (if bwrapPresent then [] else [Spawn(CopyBwrap)])
                       + (if (bwrapPresent || ExitedCleanly(h.copyExit)) && !sunshinePresent
                          then [Spawn(InstallSunshine)] else [])
  {
    var copy := if bwrapPresent then [] else [Spawn(CopyBwrap)];
    if !bwrapPresent && !ExitedCleanly(h.copyExit) then
      Run(c, copy, Done(false))
    else if sunshinePresent then
      Run(c, copy, Done(true))
    else if !ExitedCleanly(h.installExit) then
      Run(c, copy + [Spawn(InstallSunshine)], Done(false))
    else
      Run(c.(isFreshInstallation := true), copy + [Spawn(InstallSunshine)], Done(true))
  }

  /** `ensureDependencies()` as written: its conditions name the methods
      `_isBwrapInstalled` and `_isSunshineInstalled` without calling them, and
      a bound method is always true, so nothing is checked or installed. */
  function EnsureDependenciesAsWritten(c: State, h: Host): (r: Run<bool>)
    ensures r == Run(c, [], Done(true))
  {
    var boundMethodIsTrue := true;
    Branches(c, h, boundMethodIsTrue, boundMethodIsTrue)
  }

  /** `ensureDependencies()` with the two checks called, as evidently intended:
      obtain bwrap if missing, stop if that fails, then install Sunshine if
      missing and remember that this installation is fresh. */
  function EnsureDependencies(c: State, h: Host): (r: Run<bool>)
    ensures r.outcome.Done?
    ensures r.state.authHeader == c.authHeader && r.state.shellHandle == c.shellHandle
    ensures !h.bwrapFile && !ExitedCleanly(h.copyExit) ==> r == Run(c, [Spawn(CopyBwrap)], Done(false))
    ensures r.outcome.value <==>
      (h.bwrapFile || ExitedCleanly(h.copyExit)) && (IsSunshineInstalled(h) || ExitedCleanly(h.installExit))
    ensures Spawn(InstallSunshine) in r.effects <==>
      (h.bwrapFile || ExitedCleanly(h.copyExit)) && !IsSunshineInstalled(h)
    ensures r.state.isFreshInstallation <==>
      c.isFreshInstallation || (Spawn(InstallSunshine) in r.effects && ExitedCleanly(h.installExit))
    ensures r.effects == (if h.bwrapFile then [] else [Spawn(CopyBwrap)])
                       + (if (h.bwrapFile || ExitedCleanly(h.copyExit)) && !IsSunshineInstalled(h)
                          then [Spawn(InstallSunshine)] else [])
  {
    Branches(c, h, h.bwrapFile, IsSunshineInstalled(h))
  }

  /** On a host where everything is present the two versions agree. */
  lemma EnsureDependenciesAgreeWhenInstalled(c: State, h: Host)
    requires h.bwrapFile && IsSunshineInstalled(h)
    ensures EnsureDependencies(c, h) == EnsureDependenciesAsWritten(c, h)
  {
  }

  /** On a bare host the two versions part: the code as written reports
      success without obtaining bwrap or installing Sunshine. */
  lemma EnsureDependenciesAsWrittenSkipsInstall(c: State)
    ensures var h := Host(false, Some([]), Some(0), Some(0));
      && EnsureDependenciesAsWritten(c, h) == Run(c, [], Done(true))
      && EnsureDependencies(c, h) == Run(c.(isFreshInstallation := true),
                                         [Spawn(CopyBwrap), Spawn(InstallSunshine)], Done(true))
  {
    var h := Host(false, Some([]), Some(0), Some(0));
    assert Utf8.Decode([]) == Some([]);
    assert !Contains([], "Sunshine");
  }

  /** A fresh installation is never forgotten by a later call. */
  lemma EnsureDependenciesKeepsFreshFlag(c: State, h: Host)
    requires c.isFreshInstallation
    ensures EnsureDependencies(c, h).state.isFreshInstallation
  {
  }
}
