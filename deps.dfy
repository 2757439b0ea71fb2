/**
  Dependency installation: each package manager probes a fixed package list
  one package at a time, collects the packages whose probe failed, and, when
  any are missing, issues one `sudo` install command for them.  `depinstall`
  picks the manager from the ID field of /etc/os-release.

  Commands are not run: a probe's result is an oracle `probeOk` (one entry per
  position of the list, so a package listed twice is probed twice), the
  install command's result is the oracle `sudoResult`, and every command the
  code would issue is recorded, as its argument vector, in `issued`.
*/
module Deps {
  import opened Outcomes

  datatype Manager = Pacman | Dnf | Apt

  const PackageListDebian: seq<string> := [
    "bison", "git", "golang", "build-essential", "curl", "gnat",
    "flex", "gnat", "libncurses-dev", "libssl-dev", "zlib1g-dev", "pkgconf"]

  const PackageListArch: seq<string> := [
    "base-devel", "curl", "git", "gcc-ada", "ncurses", "zlib"]

  const PackageListRedhat: seq<string> := [
    "git", "make", "gcc-gnat", "flex", "bison", "xz", "bzip2",
    "gcc", "g++", "ncurses-devel", "wget", "zlib-devel", "patch"]

  function Packages(m: Manager): seq<string>
  {
    match m
    case Pacman => PackageListArch
    case Dnf => PackageListRedhat
    case Apt => PackageListDebian
  }

  /** The command that asks whether `pkg` is installed. */
  function ProbeArgv(m: Manager, pkg: string): seq<string>
  {
    match m
    case Pacman => ["pacman", "-Ql", pkg]
    case Dnf => ["dnf", "info", pkg]
    case Apt => ["dpkg", "-s", pkg]
  }

  /** The arguments given to `sudo` before the missing packages. */
  function InstallPrefix(m: Manager): seq<string>
  {
    match m
    case Pacman => ["pacman", "-S", "--noconfirm"]
    case Dnf => ["dnf", "-y", "install"]
    case Apt => ["apt-get", "-y", "install"]
  }

  /** The os-release IDs each manager serves. */
  function SupportedIDs(m: Manager): set<string>
  {
    match m
    case Dnf => {"fedora", "rhel"}
    case Apt => {"debian", "ubuntu"}
    case Pacman => {"arch"}
  }

  /** The installer `depinstall` selects for an os-release ID, if any. */
  function Dispatch(osID: string): (r: Option<Manager>)
    ensures r.Some? ==> osID in SupportedIDs(r.value)
    ensures r.None? <==> forall m: Manager :: osID !in SupportedIDs(m)
  {
    if osID == "fedora" || osID == "rhel" then Some(Dnf)
    else if osID == "debian" || osID == "ubuntu" then Some(Apt)
    else if osID == "arch" then Some(Pacman)
    else None
  }

  /** The positions whose probe failed. */
  function FailedProbes(probeOk: seq<bool>): seq<nat>
  {
    if probeOk == [] then []
    else
      var n := |probeOk| - 1;
      FailedProbes(probeOk[..n]) + (if probeOk[n] then [] else [n])
  }

  /** The failed positions, each once, in increasing order. */
  lemma {:induction false} FailedProbesInOrder(probeOk: seq<bool>)
    ensures forall a, b :: 0 <= a < b < |FailedProbes(probeOk)| ==> FailedProbes(probeOk)[a] < FailedProbes(probeOk)[b]
    ensures forall k :: k in FailedProbes(probeOk) <==> 0 <= k < |probeOk| && !probeOk[k]
  {
    if probeOk != [] {
      var n := |probeOk| - 1;
      FailedProbesInOrder(probeOk[..n]);
      var front := FailedProbes(probeOk[..n]);
      forall a | 0 <= a < |front|
        ensures front[a] < n
      {
        assert front[a] in front;
      }
    }
  }

  /** The packages whose probe failed, built by appending in list order. */
  function MissingPackages(pkgs: seq<string>, probeOk: seq<bool>): seq<string>
    requires |probeOk| == |pkgs|
  {
    if pkgs == [] then []
    else
      var n := |pkgs| - 1;
      MissingPackages(pkgs[..n], probeOk[..n]) + (if probeOk[n] then [] else [pkgs[n]])
  }

  /**
    The missing list is the package list read at exactly the failed positions,
    in order: a subsequence that keeps duplicates.
  */
  lemma {:induction false} MissingAtFailedProbes(pkgs: seq<string>, probeOk: seq<bool>)
    requires |probeOk| == |pkgs|
    ensures |MissingPackages(pkgs, probeOk)| == |FailedProbes(probeOk)|
    ensures forall k :: 0 <= k < |FailedProbes(probeOk)| ==>
              FailedProbes(probeOk)[k] < |pkgs| && MissingPackages(pkgs, probeOk)[k] == pkgs[FailedProbes(probeOk)[k]]
  {
    FailedProbesInOrder(probeOk);
    if pkgs != [] {
      var n := |pkgs| - 1;
      MissingAtFailedProbes(pkgs[..n], probeOk[..n]);
      FailedProbesInOrder(probeOk[..n]);
      var front := FailedProbes(probeOk[..n]);
      forall k | 0 <= k < |front|
        ensures front[k] < n
      {
        assert front[k] in front;
      }
    }
  }

  /** Nothing is missing exactly when every probe succeeded. */
  lemma NothingMissingIff(pkgs: seq<string>, probeOk: seq<bool>)
    requires |probeOk| == |pkgs|
    ensures MissingPackages(pkgs, probeOk) == [] <==> forall i :: 0 <= i < |probeOk| ==> probeOk[i]
  {
    MissingAtFailedProbes(pkgs, probeOk);
    FailedProbesInOrder(probeOk);
    if FailedProbes(probeOk) != [] {
      assert FailedProbes(probeOk)[0] in FailedProbes(probeOk);
    }
  }

  /** When every probe fails the whole list is missing, repeated entries included. */
  lemma {:induction false} AllProbesFailed(pkgs: seq<string>, probeOk: seq<bool>)
    requires |probeOk| == |pkgs| && forall i :: 0 <= i < |probeOk| ==> !probeOk[i]
    ensures MissingPackages(pkgs, probeOk) == pkgs
  {
    if pkgs != [] {
      var n := |pkgs| - 1;
      AllProbesFailed(pkgs[..n], probeOk[..n]);
      assert pkgs[..n] + [pkgs[n]] == pkgs;
    }
  }

  /** On a Debian system with nothing installed, "gnat" is requested twice. */
  lemma DebianKeepsDuplicateGnat(probeOk: seq<bool>)
    requires |probeOk| == |PackageListDebian| && forall i :: 0 <= i < |probeOk| ==> !probeOk[i]
    ensures var missing := MissingPackages(PackageListDebian, probeOk);
      |missing| == 12 && missing[5] == "gnat" && missing[7] == "gnat"
  {
    AllProbesFailed(PackageListDebian, probeOk);
  }

  /**
    The commands an installer issues: one probe per list position, in order,
    then, only if something is missing, `sudo` with the manager's install
    arguments followed by the missing packages.
  */
  predicate Issues(m: Manager, pkgs: seq<string>, probeOk: seq<bool>, issued: seq<seq<string>>)
    requires |probeOk| == |pkgs|
  {
    var missing := MissingPackages(pkgs, probeOk);
    |issued| == |pkgs| + (if missing == [] then 0 else 1) &&
    (forall i :: 0 <= i < |pkgs| ==> issued[i] == ProbeArgv(m, pkgs[i])) &&
    (missing != [] ==> issued[|pkgs|] == ["sudo"] + InstallPrefix(m) + missing)
  }

  /** The probing loop: one probe per position, collecting the packages whose probe failed. */
  method ProbeAll(m: Manager, pkgs: seq<string>, probeOk: seq<bool>)
    returns (issued: seq<seq<string>>, missing: seq<string>)
    requires |probeOk| == |pkgs|
    ensures |issued| == |pkgs| && forall i :: 0 <= i < |pkgs| ==> issued[i] == ProbeArgv(m, pkgs[i])
    ensures missing == MissingPackages(pkgs, probeOk)
  {
    missing := [];
    issued := [];
    for i := 0 to |pkgs|
      invariant |issued| == i
      invariant forall j :: 0 <= j < i ==> issued[j] == ProbeArgv(m, pkgs[j])
      invariant missing == MissingPackages(pkgs[..i], probeOk[..i])
    {
      issued := issued + [ProbeArgv(m, pkgs[i])];
      if !probeOk[i] {
        missing := missing + [pkgs[i]];
      }
      assert pkgs[..i + 1][..i] == pkgs[..i];
      assert probeOk[..i + 1][..i] == probeOk[..i];
    }
    assert pkgs[..|pkgs|] == pkgs && probeOk[..|pkgs|] == probeOk;
  }

  /**
    `pacmaninstall`, `dnfinstall` and `aptget`: probe, collect the missing
    packages, and return nil when none is missing, else the result of the
    install command.  `pkgs` is the manager's global package list
    (`Packages(m)` when called from `DepInstall`).
  */
  method InstallMissing(m: Manager, pkgs: seq<string>, probeOk: seq<bool>, sudoResult: Outcome)
    returns (issued: seq<seq<string>>, r: Outcome)
    requires |probeOk| == |pkgs|
    ensures Issues(m, pkgs, probeOk, issued)
    ensures r == if MissingPackages(pkgs, probeOk) == [] then Ok else sudoResult
  {
    var missing;
    issued, missing := ProbeAll(m, pkgs, probeOk);
    if |missing| == 0 {
      r := Ok;
      return;
    }
    var get := InstallPrefix(m) + missing;
    issued := issued + [["sudo"] + get];
    r := sudoResult;
  }

  /** What `depinstall` does: return normally, or end the process through `log.Fatal`. */
  datatype DepResult = Exited | Returned(outcome: Outcome)

  /**
    `depinstall`: `osRelease` is the ID read from /etc/os-release, or None when
    the file cannot be loaded.  A supported ID runs its installer and returns
    nil whatever the installer returned; anything else ends the process.
  */
  method DepInstall(osRelease: Option<string>, probeOk: seq<bool>, sudoResult: Outcome)
    returns (issued: seq<seq<string>>, r: DepResult)
    requires osRelease.Some? && Dispatch(osRelease.value).Some? ==>
               |probeOk| == |Packages(Dispatch(osRelease.value).value)|
    ensures r.Exited? <==> osRelease.None? || Dispatch(osRelease.value).None?
    ensures r.Exited? ==> issued == []
    ensures r.Returned? ==>
              r.outcome == Ok && osRelease.Some? && Dispatch(osRelease.value).Some? &&
              Issues(Dispatch(osRelease.value).value, Packages(Dispatch(osRelease.value).value), probeOk, issued)
  {
    if osRelease.None? {
      issued, r := [], Exited;
      return;
    }
    var installer := Dispatch(osRelease.value);
    if installer.None? {
      issued, r := [], Exited;
      return;
    }
    var ignored;
    issued, ignored := InstallMissing(installer.value, Packages(installer.value), probeOk, sudoResult);
    r := Returned(Ok);
  }
}
