/** What `run_command` (lib/utils.py) does to the machine, as far as the provisioning
    and cleanup steps depend on it: a command either succeeds, with its effect on the set
    of existing files, or fails; a failing command run with `check=True` ends the process
    (`sys.exit(1)`), one run with `check=False` is ignored.  The trace records every command
    run. */
module Shell {

  /** A file `dir/name`. */
  datatype Path = Path(dir: string, name: string)

  datatype Cmd =
    | GenRsa(out: Path, bits: nat)                                  // openssl genrsa -out <out> <bits>
    | SelfSign(key: Path, out: Path, days: nat, subject: string)    // openssl req -x509 -new ...
    | Chmod(mode: string, path: Path)
    | Copy(src: Path, dst: Path)                                    // sudo cp <src> <dst>
    | Delete(path: Path)                                            // sudo rm -f <path>
    | UpdateCaCertificates                                          // sudo update-ca-certificates
    | TrustExtractCompat                                            // sudo trust extract-compat
    | UpdateCaTrust                                                 // sudo update-ca-trust

  /** One `run_command(cmd, check=...)` call. */
  datatype Step = Step(cmd: Cmd, check: bool)

  /** The existing files, the commands run so far, and whether the process is still running. */
  datatype Trace = Trace(files: set<Path>, log: seq<Cmd>, alive: bool)

  /** Whether `cmd` succeeds on a machine where exactly the commands in `failing` fail and
      `files` exist: a copy needs its source, signing needs the key, `chmod` needs its file. */
  predicate Succeeds(files: set<Path>, cmd: Cmd, failing: set<Cmd>) {
    && cmd !in failing
    && match cmd
       case Copy(src, _) => src in files
       case SelfSign(key, _, _, _) => key in files
       case Chmod(_, path) => path in files
       case _ => true
  }

  /** The files after `cmd` succeeded. */
  function Effect(files: set<Path>, cmd: Cmd): set<Path> {
    match cmd
    case GenRsa(out, _) => files + {out}
    case SelfSign(_, out, _, _) => files + {out}
    case Copy(_, dst) => files + {dst}
    case Delete(path) => files - {path}
    case _ => files
  }

  /** One `run_command` call on a running process; nothing happens once it has exited. */
  function RunStep(t: Trace, step: Step, failing: set<Cmd>): (r: Trace)
    ensures !t.alive ==> r == t
    ensures t.alive ==> r.log == t.log + [step.cmd]
    ensures t.alive ==> (r.alive <==> Succeeds(t.files, step.cmd, failing) || !step.check)
    ensures r.alive ==> r.files == if Succeeds(t.files, step.cmd, failing) then Effect(t.files, step.cmd) else t.files
    ensures !r.alive ==> r.files == t.files
  {
    if !t.alive then t
    else
      var ok := Succeeds(t.files, step.cmd, failing);
      Trace(if ok then Effect(t.files, step.cmd) else t.files, t.log + [step.cmd], ok || !step.check)
  }

  /** `run_command` calls one after the other. */
  function Run(t: Trace, steps: seq<Step>, failing: set<Cmd>): Trace
    decreases |steps|
  {
    if steps == [] then t else Run(RunStep(t, steps[0], failing), steps[1..], failing)
  }

  lemma {:induction false} RunConcat(t: Trace, a: seq<Step>, b: seq<Step>, failing: set<Cmd>)
    ensures Run(t, a + b, failing) == Run(Run(t, a, failing), b, failing)
    decreases |a|
  {
    if a != [] {
      assert (a + b)[0] == a[0];
      assert (a + b)[1..] == a[1..] + b;
      RunConcat(RunStep(t, a[0], failing), a[1..], b, failing);
    } else {
      assert a + b == b;
    }
  }

  /** Once the process has exited, no later command runs. */
  lemma {:induction false} RunAfterExit(t: Trace, steps: seq<Step>, failing: set<Cmd>)
    requires !t.alive
    ensures Run(t, steps, failing) == t
    decreases |steps|
  {
    if steps != [] {
      RunAfterExit(RunStep(t, steps[0], failing), steps[1..], failing);
    }
  }

  lemma RunOne(t: Trace, step: Step, failing: set<Cmd>)
    ensures Run(t, [step], failing) == RunStep(t, step, failing)
  {
    assert [step][1..] == [];
  }

  /** A `rm -f` followed by refresh commands leaves the files as they were minus `f`, unless
      the process exited. */
  lemma DeleteThenRefresh(t: Trace, f: Path, refresh: seq<Step>, failing: set<Cmd>)
    requires forall i :: 0 <= i < |refresh| ==> refresh[i].cmd in {UpdateCaCertificates, TrustExtractCompat, UpdateCaTrust}
    ensures Run(t, [Step(Delete(f), true)] + refresh, failing).alive ==>
      Run(t, [Step(Delete(f), true)] + refresh, failing).files == t.files - {f}
    ensures !t.alive ==> Run(t, [Step(Delete(f), true)] + refresh, failing) == t
  {
    RunConcat(t, [Step(Delete(f), true)], refresh, failing);
    RunOne(t, Step(Delete(f), true), failing);
    var t' := RunStep(t, Step(Delete(f), true), failing);
    if t'.alive {
      RefreshKeepsFiles(t', refresh, failing);
    } else {
      RunAfterExit(t', refresh, failing);
    }
  }

  lemma {:induction false} RefreshKeepsFiles(t: Trace, refresh: seq<Step>, failing: set<Cmd>)
    requires forall i :: 0 <= i < |refresh| ==> refresh[i].cmd in {UpdateCaCertificates, TrustExtractCompat, UpdateCaTrust}
    ensures Run(t, refresh, failing).files == t.files
    decreases |refresh|
  {
    if refresh != [] {
      RefreshKeepsFiles(RunStep(t, refresh[0], failing), refresh[1..], failing);
    }
  }
}
