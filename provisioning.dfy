/** The root CA (lib/add_ca.py `ensure_root_ca`) and the system trust store
    (lib/add_ca.py `add_root_ca_to_system_trust`, lib/clean.py `remove_trusted_ca`), as a
    machine whose existing directories and files change only through commands, each of
    which its trace records. */
module Provisioning {
  import opened Shell

  const CaName := "local-root-ca"
  const CaCertFilename := "rootCA.pem"
  const CaKeyFilename := "rootCA.key"
  const RootSubject := "/C=CN/ST=Local/L=Local/O=Local Dev/OU=Local CA/CN=Local Root CA"

  const DebianDir := "/usr/local/share/ca-certificates"
  const P11KitDir := "/etc/ca-certificates/trust-source/anchors"

  /** The anchor the Debian convention installs and removes. */
  const DebianAnchor := Path(DebianDir, CaName + ".crt")
  /** The names probed in the p11-kit directory on removal, in probing order. */
  const P11KitNames := [CaCertFilename, CaName + ".crt", "rootCA.crt"]

  function P11KitPaths(names: seq<string>): set<Path> {
    set n | n in names :: Path(P11KitDir, n)
  }

  /** Every file removal deletes. */
  function Anchors(): set<Path> {
    {DebianAnchor} + P11KitPaths(P11KitNames)
  }

  // ---------------------------------------------------------------- root CA

  /** The commands `ensure_root_ca` runs: none when key and certificate both exist,
      otherwise key generation, self-signing and the two `chmod`s, all checked. */
  function RootCaSteps(files: set<Path>, workspace: string): (r: seq<Step>)
    ensures r == [] <==> Path(workspace, CaKeyFilename) in files && Path(workspace, CaCertFilename) in files
    ensures forall i :: 0 <= i < |r| ==> r[i].check
  {
    var key := Path(workspace, CaKeyFilename);
    var crt := Path(workspace, CaCertFilename);
    if key in files && crt in files then []
    else [Step(GenRsa(key, 4096), true),
          Step(SelfSign(key, crt, 3650, RootSubject), true),
          Step(Chmod("600", key), true),
          Step(Chmod("644", crt), true)]
  }

  /** When the process survives `ensure_root_ca`, key and certificate exist and nothing else
      was created or removed. */
  lemma RootCaCreates(t: Trace, workspace: string, failing: set<Cmd>)
    requires t.alive
    ensures var r := Run(t, RootCaSteps(t.files, workspace), failing);
      r.alive ==> r.files == t.files + {Path(workspace, CaKeyFilename), Path(workspace, CaCertFilename)}
  {
    var key := Path(workspace, CaKeyFilename);
    var crt := Path(workspace, CaCertFilename);
    var steps := RootCaSteps(t.files, workspace);
    if steps != [] {
      RunConcat(t, steps[..1], steps[1..], failing);
      RunOne(t, steps[0], failing);
      var t1 := RunStep(t, steps[0], failing);
      assert [steps[0]] == steps[..1];
      RunConcat(t1, steps[1..2], steps[2..], failing);
      RunOne(t1, steps[1], failing);
      assert [steps[1]] == steps[1..2];
      var t2 := RunStep(t1, steps[1], failing);
      RunConcat(t2, steps[2..3], steps[3..], failing);
      RunOne(t2, steps[2], failing);
      assert [steps[2]] == steps[2..3];
      var t3 := RunStep(t2, steps[2], failing);
      RunOne(t3, steps[3], failing);
      assert [steps[3]] == steps[3..];
      var r := RunStep(t3, steps[3], failing);
      if r.alive {
        assert t1.alive && t2.alive && t3.alive;
        assert t1.files == t.files + {key};
        assert t2.files == t.files + {key, crt};
      }
    }
  }

  /** A second `ensure_root_ca` after a surviving first one runs no command. */
  lemma RootCaSecondCallReuses(t: Trace, workspace: string, failing: set<Cmd>)
    requires t.alive
    ensures var r := Run(t, RootCaSteps(t.files, workspace), failing);
      r.alive ==> RootCaSteps(r.files, workspace) == []
  {
    RootCaCreates(t, workspace, failing);
  }

  // ---------------------------------------------------------------- trust store

  /** Which trust-store convention the host follows, by directory existence. */
  datatype Convention = Debian | P11Kit | Unsupported

  function ConventionOf(dirs: set<string>): (c: Convention)
    ensures c == Debian <==> DebianDir in dirs
    ensures c == P11Kit <==> DebianDir !in dirs && P11KitDir in dirs
  {
    if DebianDir in dirs then Debian
    else if P11KitDir in dirs then P11Kit
    else Unsupported
  }

  /** The anchor file install writes under a convention. */
  function InstalledAnchor(c: Convention, caCrt: Path): Path
    requires c != Unsupported
  {
    if c == Debian then DebianAnchor else Path(P11KitDir, caCrt.name)
  }

  /** The commands `add_root_ca_to_system_trust` runs: the Debian copy and refresh, both
      checked; or the p11-kit copy, checked, and the two refreshes, unchecked; or none. */
  function InstallSteps(c: Convention, caCrt: Path): (r: seq<Step>)
    ensures r == [] <==> c == Unsupported
    ensures r != [] ==> r[0].check && r[0].cmd.Copy?
  {
    match c
    case Debian => [Step(Copy(caCrt, DebianAnchor), true), Step(UpdateCaCertificates, true)]
    case P11Kit => [Step(Copy(caCrt, Path(P11KitDir, caCrt.name)), true),
                    Step(TrustExtractCompat, false), Step(UpdateCaTrust, false)]
    case Unsupported => []
  }

  /** What install does: on an unsupported host nothing at all; otherwise, if the process
      survives, exactly the convention's anchor is added; and on a p11-kit host the process
      survives whenever the copy succeeds, whatever the refresh commands do. */
  lemma {:induction false} InstallEffect(t: Trace, dirs: set<string>, caCrt: Path, failing: set<Cmd>)
    requires t.alive
    ensures var c := ConventionOf(dirs);
      var r := Run(t, InstallSteps(c, caCrt), failing);
      && (c == Unsupported ==> r == t)
      && (c != Unsupported && r.alive ==> r.files == t.files + {InstalledAnchor(c, caCrt)})
      && (c == P11Kit && Succeeds(t.files, Copy(caCrt, Path(P11KitDir, caCrt.name)), failing) ==> r.alive)
  {
    var c := ConventionOf(dirs);
    var steps := InstallSteps(c, caCrt);
    if c != Unsupported {
      RunConcat(t, [steps[0]], steps[1..], failing);
      assert [steps[0]] + steps[1..] == steps;
      RunOne(t, steps[0], failing);
      var t1 := RunStep(t, steps[0], failing);
      if t1.alive {
        assert t1.files == t.files + {InstalledAnchor(c, caCrt)};
        RefreshKeepsFiles(t1, steps[1..], failing);
        if c == P11Kit {
          RefreshSurvives(t1, steps[1..], failing);
        }
      } else {
        RunAfterExit(t1, steps[1..], failing);
      }
    }
  }

  /** Unchecked commands never end the process. */
  lemma {:induction false} RefreshSurvives(t: Trace, steps: seq<Step>, failing: set<Cmd>)
    requires t.alive
    requires forall i :: 0 <= i < |steps| ==> !steps[i].check
    ensures Run(t, steps, failing).alive
    decreases |steps|
  {
    if steps != [] {
      RefreshSurvives(RunStep(t, steps[0], failing), steps[1..], failing);
    }
  }

  /** Installing twice leaves the same files as installing once: the copy overwrites one target. */
  lemma InstallTwice(t: Trace, dirs: set<string>, caCrt: Path, failing: set<Cmd>)
    requires t.alive
    ensures var steps := InstallSteps(ConventionOf(dirs), caCrt);
      var once := Run(t, steps, failing);
      var twice := Run(once, steps, failing);
      twice.alive ==> twice.files == once.files
  {
    var steps := InstallSteps(ConventionOf(dirs), caCrt);
    var once := Run(t, steps, failing);
    InstallEffect(t, dirs, caCrt, failing);
    if once.alive {
      InstallEffect(once, dirs, caCrt, failing);
    } else {
      RunAfterExit(once, steps, failing);
    }
  }

  /** The commands removal runs for one existing anchor. */
  function DebianRemoveSteps(files: set<Path>): seq<Step> {
    if DebianAnchor in files then [Step(Delete(DebianAnchor), true), Step(UpdateCaCertificates, true)] else []
  }

  /** The commands one probed p11-kit name costs: deletion, checked, and the two refreshes,
      unchecked, when the file exists; nothing otherwise. */
  function P11KitGroup(files: set<Path>, name: string): seq<Step> {
    var f := Path(P11KitDir, name);
    if f in files then [Step(Delete(f), true)] + P11KitRefresh() else []
  }

  function P11KitRefresh(): seq<Step> {
    [Step(TrustExtractCompat, false), Step(UpdateCaTrust, false)]
  }

  function P11KitRemoveSteps(files: set<Path>, names: seq<string>): seq<Step> {
    if names == [] then []
    else P11KitRemoveSteps(files, names[..|names| - 1]) + P11KitGroup(files, names[|names| - 1])
  }

  /** The commands `remove_trusted_ca` runs, decided by which anchors exist beforehand. */
  function RemoveSteps(files: set<Path>): seq<Step> {
    DebianRemoveSteps(files) + P11KitRemoveSteps(files, P11KitNames)
  }

  lemma {:induction false} P11KitRemoveConcat(files: set<Path>, a: seq<string>, b: seq<string>)
    ensures P11KitRemoveSteps(files, a + b) == P11KitRemoveSteps(files, a) + P11KitRemoveSteps(files, b)
  {
    if b == [] {
      assert a + b == a;
    } else {
      var b' := b[..|b| - 1];
      assert (a + b)[..|a + b| - 1] == a + b';
      assert (a + b)[|a + b| - 1] == b[|b| - 1];
      P11KitRemoveConcat(files, a, b');
    }
  }

  /** The p11-kit part of removal deletes each probed name, if the process survives. */
  lemma {:induction false} P11KitRemoveClears(t: Trace, files: set<Path>, names: seq<string>, failing: set<Cmd>)
    requires forall n | n in names :: Path(P11KitDir, n) in files <==> Path(P11KitDir, n) in t.files
    ensures var r := Run(t, P11KitRemoveSteps(files, names), failing);
      r.alive ==> r.files == t.files - P11KitPaths(names)
  {
    if names != [] {
      var init := names[..|names| - 1];
      var f := Path(P11KitDir, names[|names| - 1]);
      var group := P11KitGroup(files, names[|names| - 1]);
      assert forall n | n in init :: n in names;
      P11KitRemoveClears(t, files, init, failing);
      var mid := Run(t, P11KitRemoveSteps(files, init), failing);
      RunConcat(t, P11KitRemoveSteps(files, init), group, failing);
      assert names == init + [names[|names| - 1]];
      assert P11KitPaths(names) == P11KitPaths(init) + {f};
      if f in files {
        DeleteThenRefresh(mid, f, P11KitRefresh(), failing);
      }
    }
  }

  /** Removal, if the process survives it, leaves none of the four anchors and nothing else
      changed. */
  lemma RemoveClears(t: Trace, failing: set<Cmd>)
    ensures var r := Run(t, RemoveSteps(t.files), failing);
      r.alive ==> r.files == t.files - Anchors()
  {
    var deb := DebianRemoveSteps(t.files);
    RunConcat(t, deb, P11KitRemoveSteps(t.files, P11KitNames), failing);
    var mid := Run(t, deb, failing);
    if DebianAnchor in t.files {
      DeleteThenRefresh(t, DebianAnchor, [Step(UpdateCaCertificates, true)], failing);
      assert deb == [Step(Delete(DebianAnchor), true)] + [Step(UpdateCaCertificates, true)];
    }
    if mid.alive {
      assert mid.files == t.files - {DebianAnchor};
      P11KitRemoveClears(mid, t.files, P11KitNames, failing);
    } else {
      RunAfterExit(mid, P11KitRemoveSteps(t.files, P11KitNames), failing);
    }
  }

  /** A second removal after a surviving one runs no command. */
  lemma RemoveAgainFindsNothing(t: Trace, failing: set<Cmd>)
    ensures var r := Run(t, RemoveSteps(t.files), failing);
      r.alive ==> RemoveSteps(r.files) == []
  {
    RemoveClears(t, failing);
    var r := Run(t, RemoveSteps(t.files), failing);
    if r.alive {
      NoAnchorNoSteps(r.files, P11KitNames);
    }
  }

  lemma {:induction false} NoAnchorNoSteps(files: set<Path>, names: seq<string>)
    requires forall n | n in names :: Path(P11KitDir, n) !in files
    ensures P11KitRemoveSteps(files, names) == []
  {
    if names != [] {
      assert forall n | n in names[..|names| - 1] :: n in names;
      NoAnchorNoSteps(files, names[..|names| - 1]);
    }
  }

  /** Install followed by removal restores the files present before install, minus any
      anchor that was already there, when the certificate's name is one removal probes. */
  lemma InstallThenRemove(t: Trace, dirs: set<string>, caCrt: Path, failing: set<Cmd>)
    requires t.alive
    requires caCrt.name in P11KitNames
    ensures var i := Run(t, InstallSteps(ConventionOf(dirs), caCrt), failing);
      var r := Run(i, RemoveSteps(i.files), failing);
      r.alive ==> r.files == t.files - Anchors()
  {
    var i := Run(t, InstallSteps(ConventionOf(dirs), caCrt), failing);
    InstallEffect(t, dirs, caCrt, failing);
    RemoveClears(i, failing);
    var r := Run(i, RemoveSteps(i.files), failing);
    if r.alive && i.alive && ConventionOf(dirs) != Unsupported {
      assert InstalledAnchor(ConventionOf(dirs), caCrt) in Anchors();
    } else if r.alive && !i.alive {
      RunAfterExit(i, RemoveSteps(i.files), failing);
      assert false;
    }
  }

  // ---------------------------------------------------------------- the machine

  /** A host: its directories, its files, the commands run on it so far, and the commands
      that fail on it (standing in for whatever makes a real command fail).  Each method models
      one call on a running process: `ok == false` means the process has exited, and nothing
      is to run after it. */
  class Host {
    var dirs: set<string>
    var files: set<Path>
    var log: seq<Cmd>
    const failing: set<Cmd>

    function State(): Trace
      reads this
    {
      Trace(files, log, true)
    }

    constructor (dirs: set<string>, files: set<Path>, failing: set<Cmd>)
      ensures this.dirs == dirs && this.files == files && this.log == [] && this.failing == failing
    {
      this.dirs := dirs;
      this.files := files;
      this.log := [];
      this.failing := failing;
    }

    /** `run_command`: `ok` is false when the process exits. */
    method RunCommand(cmd: Cmd, check: bool) returns (ok: bool)
      modifies this
      ensures Trace(files, log, ok) == RunStep(old(State()), Step(cmd, check), failing)
      ensures dirs == old(dirs)
    {
      log := log + [cmd];
      var succeeded := Succeeds(files, cmd, failing);
      if succeeded {
        files := Effect(files, cmd);
      }
      ok := succeeded || !check;
    }

    /** `run_command` calls in order, stopping at the first that ends the process. */
    method RunCommands(steps: seq<Step>) returns (ok: bool)
      modifies this
      ensures Trace(files, log, ok) == Run(old(State()), steps, failing)
      ensures dirs == old(dirs)
    {
      ok := true;
      for i := 0 to |steps|
        invariant State() == Run(old(State()), steps[..i], failing)
        invariant dirs == old(dirs)
      {
        var before := State();
        ok := RunCommand(steps[i].cmd, steps[i].check);
        RunConcat(old(State()), steps[..i], [steps[i]], failing);
        RunOne(before, steps[i], failing);
        assert steps[..i + 1] == steps[..i] + [steps[i]];
        if !ok {
          RunConcat(old(State()), steps[..i + 1], steps[i + 1..], failing);
          RunAfterExit(Trace(files, log, ok), steps[i + 1..], failing);
          SplitSteps(steps, i + 1);
          return;
        }
      }
      assert steps[..|steps|] == steps;
    }

    /** `ensure_root_ca`: returns the key and certificate paths in `workspace`, creating both
        unless both exist. */
    method EnsureRootCa(workspace: string) returns (key: Path, crt: Path, ok: bool)
      modifies this
      ensures key == Path(workspace, CaKeyFilename) && crt == Path(workspace, CaCertFilename)
      ensures Trace(files, log, ok) == Run(old(State()), RootCaSteps(old(files), workspace), failing)
      ensures old(key in files && crt in files) ==> files == old(files) && log == old(log) && ok
      ensures ok ==> files == old(files) + {key, crt}
      ensures dirs == old(dirs)
    {
      key := Path(workspace, CaKeyFilename);
      crt := Path(workspace, CaCertFilename);
      RootCaCreates(State(), workspace, failing);
      if key in files && crt in files {
        ok := true;
        return;
      }
      ok := RunCommands(RootCaSteps(files, workspace));
    }

    /** `add_root_ca_to_system_trust`; `c` is the convention whose branch ran. */
    method AddRootCaToSystemTrust(caCrt: Path) returns (c: Convention, ok: bool)
      modifies this
      ensures c == ConventionOf(old(dirs))
      ensures Trace(files, log, ok) == Run(old(State()), InstallSteps(c, caCrt), failing)
      ensures c == Unsupported ==> files == old(files) && log == old(log) && ok
      ensures c != Unsupported && ok ==> files == old(files) + {InstalledAnchor(c, caCrt)}
      ensures dirs == old(dirs)
    {
      InstallEffect(State(), dirs, caCrt, failing);
      if DebianDir in dirs {
        c := Debian;
      } else if P11KitDir in dirs {
        c := P11Kit;
      } else {
        c := Unsupported;
        ok := true;
        return;
      }
      ok := RunCommands(InstallSteps(c, caCrt));
    }

    /** The Debian probe of `remove_trusted_ca`. */
    method RemoveDebianAnchor() returns (found: bool, ok: bool)
      modifies this
      ensures found <==> DebianAnchor in old(files)
      ensures Trace(files, log, ok) == Run(old(State()), DebianRemoveSteps(old(files)), failing)
      ensures ok ==> files == old(files) - {DebianAnchor}
      ensures dirs == old(dirs)
    {
      found := DebianAnchor in files;
      if found {
        DeleteThenRefresh(State(), DebianAnchor, [Step(UpdateCaCertificates, true)], failing);
        assert DebianRemoveSteps(files) == [Step(Delete(DebianAnchor), true)] + [Step(UpdateCaCertificates, true)];
        ok := RunCommands(DebianRemoveSteps(files));
      } else {
        ok := true;
      }
    }

    /** One pass of the p11-kit probing loop in `remove_trusted_ca`. */
    method RemoveP11KitAnchor(name: string) returns (found: bool, ok: bool)
      modifies this
      ensures found <==> Path(P11KitDir, name) in old(files)
      ensures Trace(files, log, ok) == Run(old(State()), P11KitGroup(old(files), name), failing)
      ensures ok ==> files == old(files) - {Path(P11KitDir, name)}
      ensures dirs == old(dirs)
    {
      var f := Path(P11KitDir, name);
      found := f in files;
      if found {
        DeleteThenRefresh(State(), f, P11KitRefresh(), failing);
        ok := RunCommands([Step(Delete(f), true)] + P11KitRefresh());
      } else {
        ok := true;
      }
    }

    /** `remove_trusted_ca`: deletes whichever of the four anchors exist, refreshing the
        store after each; `removed` tells whether any existed. */
    method RemoveTrustedCa() returns (removed: bool, ok: bool)
      modifies this
      ensures Trace(files, log, ok) == Run(old(State()), RemoveSteps(old(files)), failing)
      ensures ok ==> files == old(files) - Anchors()
      ensures ok ==> (removed <==> old(files) * Anchors() != {})
      ensures dirs == old(dirs)
    {
      ghost var t0 := State();
      ghost var f0 := files;
      RemoveClears(t0, failing);
      AnchorsMet(f0);
      RemovePrefixEnds(f0);
      removed, ok := RemoveDebianAnchor();
      if !ok {
        RemoveExitsEarly(t0, f0, 0, failing);
        return;
      }
      for i := 0 to |P11KitNames|
        invariant ok
        invariant State() == Run(t0, RemovePrefix(f0, i), failing)
        invariant forall j | i <= j < |P11KitNames| :: Path(P11KitDir, P11KitNames[j]) in files <==> Path(P11KitDir, P11KitNames[j]) in f0
        invariant removed <==> DebianAnchor in f0 || exists j :: 0 <= j < i && Path(P11KitDir, P11KitNames[j]) in f0
        invariant dirs == old(dirs)
      {
        RemovePrefixGrows(t0, f0, i, failing);
        var found;
        found, ok := RemoveP11KitAnchor(P11KitNames[i]);
        if !ok {
          RemoveExitsEarly(t0, f0, i + 1, failing);
          return;
        }
        removed := removed || found;
      }
    }
  }

  lemma SplitSteps(steps: seq<Step>, n: nat)
    requires n <= |steps|
    ensures steps[..n] + steps[n..] == steps
  {
  }

  /** The commands removal has run once the Debian probe and the first `i` p11-kit probes are done. */
  function RemovePrefix(files: set<Path>, i: nat): seq<Step>
    requires i <= |P11KitNames|
  {
    DebianRemoveSteps(files) + P11KitRemoveSteps(files, P11KitNames[..i])
  }

  lemma RemovePrefixGrows(t0: Trace, f0: set<Path>, i: nat, failing: set<Cmd>)
    requires i < |P11KitNames|
    ensures Run(t0, RemovePrefix(f0, i + 1), failing)
      == Run(Run(t0, RemovePrefix(f0, i), failing), P11KitGroup(f0, P11KitNames[i]), failing)
  {
    assert P11KitNames[..i + 1][..i] == P11KitNames[..i];
    assert RemovePrefix(f0, i + 1) == RemovePrefix(f0, i) + P11KitGroup(f0, P11KitNames[i]);
    RunConcat(t0, RemovePrefix(f0, i), P11KitGroup(f0, P11KitNames[i]), failing);
  }

  /** If the process has exited after a prefix of removal, the whole removal ends there. */
  lemma RemoveExitsEarly(t0: Trace, f0: set<Path>, i: nat, failing: set<Cmd>)
    requires i <= |P11KitNames|
    requires !Run(t0, RemovePrefix(f0, i), failing).alive
    ensures Run(t0, RemoveSteps(f0), failing) == Run(t0, RemovePrefix(f0, i), failing)
  {
    var rest := P11KitRemoveSteps(f0, P11KitNames[i..]);
    RemoveSplit(f0, i);
    RunConcat(t0, RemovePrefix(f0, i), rest, failing);
    RunAfterExit(Run(t0, RemovePrefix(f0, i), failing), rest, failing);
  }

  lemma RemoveSplit(f0: set<Path>, i: nat)
    requires i <= |P11KitNames|
    ensures RemoveSteps(f0) == RemovePrefix(f0, i) + P11KitRemoveSteps(f0, P11KitNames[i..])
  {
    var names := P11KitNames;
    RemoveSplitOf(f0, names, i);
  }

  lemma RemoveSplitOf(f0: set<Path>, names: seq<string>, i: nat)
    requires i <= |names|
    ensures DebianRemoveSteps(f0) + P11KitRemoveSteps(f0, names) ==
      (DebianRemoveSteps(f0) + P11KitRemoveSteps(f0, names[..i])) + P11KitRemoveSteps(f0, names[i..])
  {
    P11KitRemoveConcat(f0, names[..i], names[i..]);
    assert names[..i] + names[i..] == names;
  }

  lemma RemovePrefixEnds(f0: set<Path>)
    ensures RemovePrefix(f0, 0) == DebianRemoveSteps(f0)
    ensures RemovePrefix(f0, |P11KitNames|) == RemoveSteps(f0)
  {
    assert P11KitNames[..0] == [];
    assert P11KitNames[..|P11KitNames|] == P11KitNames;
  }

  /** A set of files meets the anchors exactly when one of the four probed files is in it. */
  lemma AnchorsMet(files: set<Path>)
    ensures files * Anchors() != {} <==>
      DebianAnchor in files || exists j :: 0 <= j < |P11KitNames| && Path(P11KitDir, P11KitNames[j]) in files
  {
    if files * Anchors() != {} {
      var a :| a in files * Anchors();
      if a != DebianAnchor {
        var n :| n in P11KitNames && a == Path(P11KitDir, n);
        var j :| 0 <= j < |P11KitNames| && P11KitNames[j] == n;
        assert Path(P11KitDir, P11KitNames[j]) in files;
      }
    }
    if DebianAnchor in files {
      assert DebianAnchor in files * Anchors();
    }
    if exists j :: 0 <= j < |P11KitNames| && Path(P11KitDir, P11KitNames[j]) in files {
      var j :| 0 <= j < |P11KitNames| && Path(P11KitDir, P11KitNames[j]) in files;
      assert P11KitNames[j] in P11KitNames;
      assert Path(P11KitDir, P11KitNames[j]) in files * Anchors();
    }
  }
}
