/** The per-repository pipeline of autopr/repo.py: bringing a clone up to date, preparing the work
    branch, running the update command, committing and pushing, and deciding whether a pull request
    is reused or created. Every git command, directory change and forge request goes through the
    environment of module Environment, so the model states which calls are made, in which order,
    and how their replies steer what follows. */
module Repo {
  import opened Wrappers
  import opened Config
  import opened Database
  import opened Environment
  import opened Workdir
  import Github

  // ---------------------------------------------------------------------------------------
  // Git commands

  /** The ssh command that makes git use only the configured key. */
  function SshCommand(sshKeyFile: string): string { "ssh -i " + sshKeyFile + " -o IdentitiesOnly=yes" }

  /** The extra environment of the commands that talk to the remote. */
  function SshEnv(sshKeyFile: string): map<string, string> { map["GIT_SSH_COMMAND" := SshCommand(sshKeyFile)] }

  /** A git command run in directory `d` with the inherited environment. */
  function GitIn(d: string, args: seq<string>): Call { Run(["git", "-C", d] + args, map[]) }

  function CheckoutCall(d: string, branch: string): Call { GitIn(d, ["checkout", branch]) }
  function BranchResetCall(d: string, branch: string): Call { GitIn(d, ["checkout", "-B", branch]) }
  function ResetHardCall(d: string): Call { GitIn(d, ["reset", "--hard"]) }
  function PullCall(d: string): Call { GitIn(d, ["pull", "--depth", "1"]) }
  function ConfigCall(d: string, key: string, value: string): Call { GitIn(d, ["config", key, value]) }
  function AddAllCall(d: string): Call { GitIn(d, ["add", "--all"]) }
  function CommitCall(d: string, message: string): Call { GitIn(d, ["commit", "-m", message]) }
  function StagedDiffCall(d: string): Call { Run(["git", "-c", "color.ui=always", "-C", d, "diff", "--staged"], map[]) }

  /** What a shallow clone fetches and where it puts it. */
  datatype CloneTarget = CloneTarget(url: string, dir: string, branch: string)

  /** The argument list of a shallow single-branch clone. */
  function CloneArgv(c: CloneTarget): seq<string> {
    ["git", "clone", "--depth", "1", c.url, c.dir, "--branch", c.branch]
  }

  /** Reads a clone command back; `None` for anything that is not one. */
  function ParseClone(argv: seq<string>): Option<CloneTarget> {
    if |argv| == 8 && argv[0] == "git" && argv[1] == "clone" && argv[2] == "--depth" && argv[3] == "1" &&
       argv[6] == "--branch"
    then Some(CloneTarget(argv[4], argv[5], argv[7]))
    else None
  }

  /** A clone command is read back as what it clones. */
  lemma CloneRoundTrip(c: CloneTarget)
    ensures ParseClone(CloneArgv(c)) == Some(c)
  {
  }

  /** Everything read back as a clone command is exactly that command. */
  lemma {:induction false} ParseCloneExact(argv: seq<string>)
    ensures ParseClone(argv).Some? ==> CloneArgv(ParseClone(argv).value) == argv
  {
    if ParseClone(argv).Some? {
      var c := ParseClone(argv).value;
      assert forall i :: 0 <= i < 8 ==> CloneArgv(c)[i] == argv[i];
    }
  }

  function CloneCall(sshKeyFile: string, d: string, url: string, branch: string): Call {
    Run(CloneArgv(CloneTarget(url, d, branch)), SshEnv(sshKeyFile))
  }

  /** The argument list of a push of `branch` to origin, setting the upstream. */
  function PushArgv(d: string, branch: string, force: bool): seq<string> {
    ["git", "-C", d, "push", "-u", "origin", branch] + (if force then ["--force"] else [])
  }

  /** `--force` is appended exactly when forcing; the command is otherwise the same. */
  lemma PushForceFlag(d: string, branch: string, force: bool)
    ensures PushArgv(d, branch, true) == PushArgv(d, branch, false) + ["--force"]
    ensures |PushArgv(d, branch, force)| == if force then 8 else 7
    ensures branch != "--force" ==> (PushArgv(d, branch, force)[|PushArgv(d, branch, force)| - 1] == "--force" <==> force)
  {
  }

  function PushCall(sshKeyFile: string, d: string, branch: string, force: bool): Call {
    Run(PushArgv(d, branch, force), SshEnv(sshKeyFile))
  }

  /** `_git_push`. */
  method GitPush(env: Env, sshKeyFile: string, d: string, branch: string, force: bool) returns (o: Outcome)
    modifies env
    ensures env.trace == old(env.trace) + [PushCall(sshKeyFile, d, branch, force)]
    ensures o == OutcomeOf(env.local(old(env.trace), PushCall(sshKeyFile, d, branch, force)))
  {
    var gitSshCommand := SshCommand(sshKeyFile);
    var cmd := ["git", "-C", d, "push", "-u", "origin", branch];
    if force {
      cmd := cmd + ["--force"];
    }
    assert cmd == PushArgv(d, branch, force);
    var r := env.Perform(Run(cmd, map["GIT_SSH_COMMAND" := gitSshCommand]));
    o := OutcomeOf(r);
  }

  // ---------------------------------------------------------------------------------------
  // Bringing the clone up to date

  /** Where the clone of a repository lives. */
  function RepoDir(reposDir: string, repository: Repository): string { JoinPath(reposDir, repository.name) }

  function ConfigureUser(d: string, user: GitUser): seq<Call> {
    [ConfigCall(d, "user.name", user.name), ConfigCall(d, "user.email", user.email)]
  }

  function FreshClone(sshKeyFile: string, d: string, repository: Repository, user: GitUser): seq<Call> {
    [CloneCall(sshKeyFile, d, repository.sshUrl, repository.defaultBranch)] + ConfigureUser(d, user)
  }

  /** What `pull_repository` does, from history `t`: a clone that exists is left alone unless an
      update is asked for; an existing clone is checked out on its default branch and pulled; a
      failed pull is swallowed and the clone deleted and made afresh; a missing clone is made;
      and unless left alone the clone gets the user's name and email. Any other failure stops it. */
  function PullEffect(local: LocalReplies, probe: Probes, t: seq<Call>, user: GitUser, sshKeyFile: string,
                      reposDir: string, repository: Repository, update: bool): (seq<Call>, Outcome)
  {
    var d := RepoDir(reposDir, repository);
    var t1 := t + [PathExists(d)];
    var repoExists := probe(t, d);
    if !update && repoExists then (t1, Pass)
    else if !repoExists then Script(local, t1, FreshClone(sshKeyFile, d, repository, user))
    else
      var checkout := CheckoutCall(d, repository.defaultBranch);
      if local(t1, checkout).Failure? then (t1 + [checkout], Fail(local(t1, checkout).error))
      else
        var t2 := t1 + [checkout, PullCall(d)];
        if local(t1 + [checkout], PullCall(d)).Success? then Script(local, t2, ConfigureUser(d, user))
        else Script(local, t2, [RemoveTree(d)] + FreshClone(sshKeyFile, d, repository, user))
  }

  /** `pull_repository`. */
  method PullRepository(env: Env, user: GitUser, sshKeyFile: string, reposDir: string, repository: Repository,
                        updateRepoIfExists: bool) returns (o: Outcome)
    modifies env
    ensures (env.trace, o) ==
      PullEffect(env.local, env.probe, old(env.trace), user, sshKeyFile, reposDir, repository, updateRepoIfExists)
  {
    var repoDir := JoinPath(reposDir, repository.name);
    var repoExists := env.Exists(repoDir);
    if !updateRepoIfExists && repoExists {
      return Pass;
    }
    ghost var t1 := env.trace;
    var pullFailed := false;
    if repoExists {
      var r := env.Perform(CheckoutCall(repoDir, repository.defaultBranch));
      if r.Failure? {
        return Fail(r.error);
      }
      r := env.Perform(PullCall(repoDir));
      pullFailed := r.Failure?;
      assert env.trace == t1 + [CheckoutCall(repoDir, repository.defaultBranch), PullCall(repoDir)];
    }
    ghost var t2 := env.trace;
    ghost var plan := (if pullFailed then [RemoveTree(repoDir)] else []) +
                      (if !repoExists || pullFailed then [CloneCall(sshKeyFile, repoDir, repository.sshUrl, repository.defaultBranch)] else []) +
                      ConfigureUser(repoDir, user);
    assert plan == if pullFailed then [RemoveTree(repoDir)] + FreshClone(sshKeyFile, repoDir, repository, user)
                   else if !repoExists then FreshClone(sshKeyFile, repoDir, repository, user)
                   else ConfigureUser(repoDir, user);
    assert PullEffect(env.local, env.probe, old(env.trace), user, sshKeyFile, reposDir, repository, updateRepoIfExists) ==
           Script(env.local, t2, plan);
    if pullFailed {
      var r := env.Perform(RemoveTree(repoDir));
      ScriptStep(env.local, t2, RemoveTree(repoDir), plan[1..]);
      assert plan == [RemoveTree(repoDir)] + plan[1..];
      if r.Failure? {
        return Fail(r.error);
      }
      plan := plan[1..];
    }
    if !repoExists || pullFailed {
      var clone := CloneCall(sshKeyFile, repoDir, repository.sshUrl, repository.defaultBranch);
      ghost var t3 := env.trace;
      var r := env.Perform(clone);
      ScriptStep(env.local, t3, clone, plan[1..]);
      assert plan == [clone] + plan[1..];
      if r.Failure? {
        return Fail(r.error);
      }
      plan := plan[1..];
    }
    assert plan == ConfigureUser(repoDir, user);
    ghost var t4 := env.trace;
    var r := env.Perform(ConfigCall(repoDir, "user.name", user.name));
    ScriptStep(env.local, t4, plan[0], plan[1..]);
    if r.Failure? {
      return Fail(r.error);
    }
    ghost var t5 := env.trace;
    r := env.Perform(ConfigCall(repoDir, "user.email", user.email));
    ScriptStep(env.local, t5, plan[1], []);
    o := OutcomeOf(r);
  }

  /** A clone that exists and is not to be updated is left alone: only the existence probe. */
  lemma PullLeavesExistingAlone(local: LocalReplies, probe: Probes, t: seq<Call>, user: GitUser, sshKeyFile: string,
                                reposDir: string, repository: Repository)
    requires probe(t, RepoDir(reposDir, repository))
    ensures PullEffect(local, probe, t, user, sshKeyFile, reposDir, repository, false) ==
      (t + [PathExists(RepoDir(reposDir, repository))], Pass)
  {
  }

  /** The calls of a pull that succeeds: after the probe, an existing clone is checked out on the
      default branch and pulled, then deleted and cloned afresh if the pull failed, a missing
      clone is only cloned; every path but the one that leaves the clone alone ends by setting
      the user's name and then email. */
  lemma PullPassTrace(local: LocalReplies, probe: Probes, t: seq<Call>, user: GitUser, sshKeyFile: string,
                      reposDir: string, repository: Repository, update: bool)
    requires PullEffect(local, probe, t, user, sshKeyFile, reposDir, repository, update).1.Pass?
    ensures var d := RepoDir(reposDir, repository);
      var t1 := t + [PathExists(d)];
      var clone := CloneCall(sshKeyFile, d, repository.sshUrl, repository.defaultBranch);
      var checkout := CheckoutCall(d, repository.defaultBranch);
      PullEffect(local, probe, t, user, sshKeyFile, reposDir, repository, update).0 ==
        if !update && probe(t, d) then t1
        else if !probe(t, d) then t1 + [clone] + ConfigureUser(d, user)
        else if local(t1 + [checkout], PullCall(d)).Success? then t1 + [checkout, PullCall(d)] + ConfigureUser(d, user)
        else t1 + [checkout, PullCall(d), RemoveTree(d), clone] + ConfigureUser(d, user)
  {
    var d := RepoDir(reposDir, repository);
    var t1 := t + [PathExists(d)];
    var clone := CloneCall(sshKeyFile, d, repository.sshUrl, repository.defaultBranch);
    var checkout := CheckoutCall(d, repository.defaultBranch);
    var plan0 := FreshClone(sshKeyFile, d, repository, user);
    if !update && probe(t, d) {
    } else if !probe(t, d) {
      ScriptPassTrace(local, t1, plan0);
    } else if local(t1 + [checkout], PullCall(d)).Success? {
      ScriptPassTrace(local, t1 + [checkout, PullCall(d)], ConfigureUser(d, user));
    } else {
      ScriptPassTrace(local, t1 + [checkout, PullCall(d)], [RemoveTree(d)] + plan0);
    }
  }

  /** A call that is not a `git pull`. */
  predicate NotPull(c: Call) { !c.Run? || |c.argv| < 4 || c.argv[3] != "pull" }

  /** A pull that fails stops at the call that failed, with that call's error; a failed pull of
      an existing clone is never that call, since it is recovered from. */
  lemma PullFailsAtLastCall(local: LocalReplies, probe: Probes, t: seq<Call>, user: GitUser, sshKeyFile: string,
                            reposDir: string, repository: Repository, update: bool)
    requires PullEffect(local, probe, t, user, sshKeyFile, reposDir, repository, update).1.Fail?
    ensures var r := PullEffect(local, probe, t, user, sshKeyFile, reposDir, repository, update);
      |r.0| > |t| + 1 && r.0[..|t|] == t &&
      r.0[|r.0| - 1] != PullCall(RepoDir(reposDir, repository)) &&
      local(r.0[..|r.0| - 1], r.0[|r.0| - 1]) == Failure(r.1.error)
  {
    var d := RepoDir(reposDir, repository);
    var t1 := t + [PathExists(d)];
    var checkout := CheckoutCall(d, repository.defaultBranch);
    var plan0 := FreshClone(sshKeyFile, d, repository, user);
    assert !NotPull(PullCall(d));
    assert forall i :: 0 <= i < |plan0| ==> NotPull(plan0[i]);
    if !probe(t, d) {
      ScriptFailsAtNonPull(local, t1, plan0);
    } else if local(t1, checkout).Failure? {
      assert (t1 + [checkout])[..|t1|] == t1;
    } else {
      var t2 := t1 + [checkout, PullCall(d)];
      var plan := if local(t1 + [checkout], PullCall(d)).Success? then ConfigureUser(d, user) else [RemoveTree(d)] + plan0;
      assert forall i :: 0 <= i < |plan| ==> NotPull(plan[i]);
      ScriptFailsAtNonPull(local, t2, plan);
    }
  }

  /** A failing script of calls that are not pulls fails at its last call, which is no pull. */
  lemma ScriptFailsAtNonPull(local: LocalReplies, t: seq<Call>, plan: seq<Call>)
    requires Script(local, t, plan).1.Fail?
    requires forall i :: 0 <= i < |plan| ==> NotPull(plan[i])
    ensures var r := Script(local, t, plan);
      |r.0| > |t| && r.0[..|t|] == t && NotPull(r.0[|r.0| - 1]) &&
      local(r.0[..|r.0| - 1], r.0[|r.0| - 1]) == Failure(r.1.error)
  {
    var k := ScriptFails(local, t, plan);
    assert (t + plan[..k + 1])[..|t + plan[..k + 1]| - 1] == t + plan[..k];
    assert (t + plan[..k + 1])[..|t|] == t;
  }

  /** A missing clone is cloned: no checkout, pull or deletion happens before or after. */
  lemma PullOfMissingCloneOnlyClones(local: LocalReplies, probe: Probes, t: seq<Call>, user: GitUser, sshKeyFile: string,
                                     reposDir: string, repository: Repository, update: bool)
    requires !probe(t, RepoDir(reposDir, repository))
    ensures var d := RepoDir(reposDir, repository);
      var r := PullEffect(local, probe, t, user, sshKeyFile, reposDir, repository, update);
      |r.0| > |t| && r.0[..|t| + 1] == t + [PathExists(d)] &&
      forall c :: c in r.0[|t| + 1..] ==> c in FreshClone(sshKeyFile, d, repository, user)
  {
    var d := RepoDir(reposDir, repository);
    var t1 := t + [PathExists(d)];
    var plan0 := FreshClone(sshKeyFile, d, repository, user);
    var k := ScriptMakesPrefix(local, t1, plan0);
    assert (t1 + plan0[..k])[|t| + 1..] == plan0[..k];
  }

  // ---------------------------------------------------------------------------------------
  // Preparing the work branch and running the update command

  /** Discard local changes, go to the default branch, then (re)create the work branch there. */
  function PreparePlan(d: string, defaultBranch: string, branch: string): seq<Call> {
    [ResetHardCall(d), CheckoutCall(d, defaultBranch), BranchResetCall(d, branch)]
  }

  /** `prepare_repository`. */
  method PrepareRepository(env: Env, reposDir: string, repository: Repository, branch: string) returns (o: Outcome)
    modifies env
    ensures (env.trace, o) ==
      Script(env.local, old(env.trace), PreparePlan(RepoDir(reposDir, repository), repository.defaultBranch, branch))
  {
    var repoDir := JoinPath(reposDir, repository.name);
    ghost var plan := PreparePlan(repoDir, repository.defaultBranch, branch);
    ghost var t0 := env.trace;
    var r := env.Perform(ResetHardCall(repoDir));
    ScriptStep(env.local, t0, plan[0], plan[1..]);
    assert plan == [plan[0]] + plan[1..];
    if r.Failure? {
      return Fail(r.error);
    }
    ghost var t1 := env.trace;
    r := env.Perform(CheckoutCall(repoDir, repository.defaultBranch));
    ScriptStep(env.local, t1, plan[1], plan[2..]);
    assert plan[1..] == [plan[1]] + plan[2..];
    if r.Failure? {
      return Fail(r.error);
    }
    ghost var t2 := env.trace;
    r := env.Perform(BranchResetCall(repoDir, branch));
    ScriptStep(env.local, t2, plan[2], []);
    assert plan[2..] == [plan[2]] + [];
    o := OutcomeOf(r);
  }

  /** Preparing succeeds exactly when the three commands do, and then it made them in order. */
  lemma PrepareInOrder(local: LocalReplies, t: seq<Call>, d: string, defaultBranch: string, branch: string)
    ensures var plan := PreparePlan(d, defaultBranch, branch);
      Script(local, t, plan).1.Pass? <==>
        local(t, ResetHardCall(d)).Success? &&
        local(t + [ResetHardCall(d)], CheckoutCall(d, defaultBranch)).Success? &&
        local(t + [ResetHardCall(d), CheckoutCall(d, defaultBranch)], BranchResetCall(d, branch)).Success?
    ensures Script(local, t, PreparePlan(d, defaultBranch, branch)).1.Pass? ==>
      Script(local, t, PreparePlan(d, defaultBranch, branch)).0 ==
        t + [ResetHardCall(d), CheckoutCall(d, defaultBranch), BranchResetCall(d, branch)]
  {
    var plan := PreparePlan(d, defaultBranch, branch);
    ScriptPasses(local, t, plan);
    assert t + plan[..0] == t;
    assert t + plan[..1] == t + [ResetHardCall(d)];
    assert t + plan[..2] == t + [ResetHardCall(d), CheckoutCall(d, defaultBranch)];
    assert (forall k :: 0 <= k < |plan| ==> local(t + plan[..k], plan[k]).Success?) <==>
      local(t + plan[..0], plan[0]).Success? && local(t + plan[..1], plan[1]).Success? &&
      local(t + plan[..2], plan[2]).Success?;
    if Script(local, t, plan).1.Pass? {
      ScriptPassTrace(local, t, plan);
    }
  }

  /** Enter the clone, run the command, go back to `cwd`, stage everything. */
  function UpdatePlan(d: string, command: seq<string>, cwd: string): seq<Call> {
    [ChangeDir(d), Run(command, map[]), ChangeDir(cwd), AddAllCall(d)]
  }

  /** What `run_update_command` does: read the current directory, then the update plan. */
  function UpdateEffect(local: LocalReplies, t: seq<Call>, d: string, command: seq<string>): (seq<Call>, Outcome) {
    match local(t, GetCwd)
    case Failure(e) => (t + [GetCwd], Fail(e))
    case Success(cwd) => Script(local, t + [GetCwd], UpdatePlan(d, command, cwd))
  }

  /** `run_update_command`. */
  method RunUpdateCommand(env: Env, reposDir: string, repository: Repository, command: seq<string>) returns (o: Outcome)
    modifies env
    ensures (env.trace, o) == UpdateEffect(env.local, old(env.trace), RepoDir(reposDir, repository), command)
  {
    var repoDir := JoinPath(reposDir, repository.name);
    var cwd := env.Perform(GetCwd);
    if cwd.Failure? {
      return Fail(cwd.error);
    }
    ghost var plan := UpdatePlan(repoDir, command, cwd.value);
    ghost var t0 := env.trace;
    var r := env.Perform(ChangeDir(repoDir));
    ScriptStep(env.local, t0, plan[0], plan[1..]);
    assert plan == [plan[0]] + plan[1..];
    if r.Failure? {
      return Fail(r.error);
    }
    ghost var t1 := env.trace;
    r := env.Perform(Run(command, map[]));
    ScriptStep(env.local, t1, plan[1], plan[2..]);
    assert plan[1..] == [plan[1]] + plan[2..];
    if r.Failure? {
      return Fail(r.error);
    }
    ghost var t2 := env.trace;
    r := env.Perform(ChangeDir(cwd.value));
    ScriptStep(env.local, t2, plan[2], plan[3..]);
    assert plan[2..] == [plan[2]] + plan[3..];
    if r.Failure? {
      return Fail(r.error);
    }
    ghost var t3 := env.trace;
    r := env.Perform(AddAllCall(repoDir));
    ScriptStep(env.local, t3, plan[3], []);
    assert plan[3..] == [plan[3]] + [];
    o := OutcomeOf(r);
  }

  /** A successful update returns to the directory it started from before staging; a failing
      update command leaves the process inside the clone, since nothing restores the directory. */
  lemma UpdateDirectories(local: LocalReplies, t: seq<Call>, d: string, command: seq<string>)
    ensures var r := UpdateEffect(local, t, d, command);
      r.1.Pass? ==>
        local(t, GetCwd).Success? &&
        r.0 == t + [GetCwd, ChangeDir(d), Run(command, map[]), ChangeDir(local(t, GetCwd).value), AddAllCall(d)]
    ensures var r := UpdateEffect(local, t, d, command);
      local(t, GetCwd).Success? && local(t + [GetCwd], ChangeDir(d)).Success? &&
      local(t + [GetCwd, ChangeDir(d)], Run(command, map[])).Failure? ==>
        r == (t + [GetCwd, ChangeDir(d), Run(command, map[])], Fail(local(t + [GetCwd, ChangeDir(d)], Run(command, map[])).error))
  {
    if local(t, GetCwd).Success? {
      var t1 := t + [GetCwd];
      var plan := UpdatePlan(d, command, local(t, GetCwd).value);
      if UpdateEffect(local, t, d, command).1.Pass? {
        ScriptPassTrace(local, t1, plan);
      }
      ScriptStep(local, t1, plan[0], plan[1..]);
      assert plan == [plan[0]] + plan[1..];
      ScriptStep(local, t1 + [plan[0]], plan[1], plan[2..]);
      assert plan[1..] == [plan[1]] + plan[2..];
      assert t1 + [plan[0]] == t + [GetCwd, ChangeDir(d)];
      assert t1 + [plan[0]] + [plan[1]] == t + [GetCwd, ChangeDir(d), Run(command, map[])];
    }
  }

  // ---------------------------------------------------------------------------------------
  // Committing and pushing

  /** What `commit_and_push_changes` does: an empty staged diff ends it with `false`; otherwise
      it commits, pushes (forcing when a pull request number is recorded) and yields `true`. A
      failing command ends it with that command's error. */
  function CommitPushEffect(local: LocalReplies, t: seq<Call>, sshKeyFile: string, d: string, branch: string,
                            message: string, existingPr: Option<int>): (seq<Call>, Result<bool>)
  {
    var diff := StagedDiffCall(d);
    var t1 := t + [diff];
    if local(t, diff).Failure? then (t1, Failure(local(t, diff).error))
    else if local(t, diff).value == "" then (t1, Success(false))
    else
      var commit := CommitCall(d, message);
      var t2 := t1 + [commit];
      if local(t1, commit).Failure? then (t2, Failure(local(t1, commit).error))
      else
        var push := PushCall(sshKeyFile, d, branch, existingPr.Some?);
        (t2 + [push], if local(t2, push).Success? then Success(true) else Failure(local(t2, push).error))
  }

  /** `commit_and_push_changes`. */
  method CommitAndPushChanges(env: Env, sshKeyFile: string, reposDir: string, repository: Repository,
                              branch: string, message: string) returns (r: Result<bool>)
    modifies env
    ensures (env.trace, r) ==
      CommitPushEffect(env.local, old(env.trace), sshKeyFile, RepoDir(reposDir, repository), branch, message,
                       repository.existingPr)
  {
    var repoDir := JoinPath(reposDir, repository.name);
    var diff := env.Perform(StagedDiffCall(repoDir));
    if diff.Failure? {
      return Failure(diff.error);
    }
    if diff.value == "" {
      return Success(false);
    }
    var committed := env.Perform(CommitCall(repoDir, message));
    if committed.Failure? {
      return Failure(committed.error);
    }
    var forcePush := repository.existingPr.Some?;
    var pushed := GitPush(env, sshKeyFile, repoDir, branch, forcePush);
    if pushed.Fail? {
      return Failure(pushed.error);
    }
    return Success(true);
  }

  /** Nothing is committed or pushed exactly when the staged diff is empty; a `true` result means
      the commit came first and the push after it, forced exactly when a pull request number is
      recorded (whatever that number is). */
  lemma CommitPushOutcomes(local: LocalReplies, t: seq<Call>, sshKeyFile: string, d: string, branch: string,
                           message: string, existingPr: Option<int>)
    ensures var r := CommitPushEffect(local, t, sshKeyFile, d, branch, message, existingPr);
      r.1 == Success(false) <==> local(t, StagedDiffCall(d)) == Success("")
    ensures var r := CommitPushEffect(local, t, sshKeyFile, d, branch, message, existingPr);
      r.1 == Success(false) ==> r.0 == t + [StagedDiffCall(d)]
    ensures var r := CommitPushEffect(local, t, sshKeyFile, d, branch, message, existingPr);
      r.1 == Success(true) <==>
        local(t, StagedDiffCall(d)).Success? && local(t, StagedDiffCall(d)).value != "" &&
        r.0 == t + [StagedDiffCall(d), CommitCall(d, message), PushCall(sshKeyFile, d, branch, existingPr != None)] &&
        local(t + [StagedDiffCall(d), CommitCall(d, message)], PushCall(sshKeyFile, d, branch, existingPr != None)).Success?
  {
    var r := CommitPushEffect(local, t, sshKeyFile, d, branch, message, existingPr);
    var diff, commit, push := StagedDiffCall(d), CommitCall(d, message), PushCall(sshKeyFile, d, branch, existingPr != None);
    assert t + [diff] + [commit] + [push] == t + [diff, commit, push];
    assert t + [diff] + [commit] == t + [diff, commit];
    if local(t, diff).Success? && local(t, diff).value != "" && local(t + [diff], commit).Failure? {
      assert |r.0| == |t| + 2;
    }
  }

  // ---------------------------------------------------------------------------------------
  // Reusing or creating the pull request

  /** How `push_changes` ended, before the checkpoint is written. */
  datatype PushVerdict = Unchanged | Reused | Created(number: int)

  /** Python truthiness of the recorded pull request number: absent and 0 are both false. */
  predicate Truthy(existingPr: Option<int>) { existingPr.Some? && existingPr.value != 0 }

  /** A pull request that can still receive the pushed branch. */
  predicate StillOpen(pr: PullRequest) { !pr.merged && pr.state != Github.PullRequestState.Closed.Value() }

  function CreateCall(repository: Repository, pr: PrTemplate): Call {
    CreatePullRequest(repository.FullName(), repository.defaultBranch, pr.branch, pr.title, pr.body)
  }

  /** The decisions of `push_changes`, with the recorded number `existingPr` it started from:
      nothing pushed means nothing else; a recorded, still-open pull request is reused; otherwise
      a new one is created. */
  function PushEffect(local: LocalReplies, forge: ForgeReplies, t: seq<Call>, sshKeyFile: string, reposDir: string,
                      repository: Repository, existingPr: Option<int>, pr: PrTemplate): (seq<Call>, Result<PushVerdict>)
  {
    var cp := CommitPushEffect(local, t, sshKeyFile, RepoDir(reposDir, repository), pr.branch, pr.message, existingPr);
    if cp.1.Failure? then (cp.0, Failure(cp.1.error))
    else if !cp.1.value then (cp.0, Success(Unchanged))
    else
      var t1 := cp.0;
      var get := GetPullRequest(repository.FullName(), if existingPr.Some? then existingPr.value else 0);
      if Truthy(existingPr) && forge(t1, get).Failure? then (t1 + [get], Failure(forge(t1, get).error))
      else if Truthy(existingPr) && StillOpen(forge(t1, get).value) then (t1 + [get], Success(Reused))
      else
        var t2 := if Truthy(existingPr) then t1 + [get] else t1;
        var create := CreateCall(repository, pr);
        match forge(t2, create)
        case Failure(e) => (t2 + [create], Failure(e))
        case Success(p) => (t2 + [create], Success(Created(p.number)))
  }

  /** A pull request is created only after a push, and only when no number is recorded (or it is
      0) or the recorded one is merged or closed; without a push the forge is not asked anything;
      a recorded pull request that is still open is reused without creating one. */
  lemma PushDecisions(local: LocalReplies, forge: ForgeReplies, t: seq<Call>, sshKeyFile: string, reposDir: string,
                      repository: Repository, existingPr: Option<int>, pr: PrTemplate)
    ensures var cp := CommitPushEffect(local, t, sshKeyFile, RepoDir(reposDir, repository), pr.branch, pr.message, existingPr);
      var e := PushEffect(local, forge, t, sshKeyFile, reposDir, repository, existingPr, pr);
      e.1.Success? && e.1.value.Created? ==>
        cp.1 == Success(true) &&
        e.0[|e.0| - 1] == CreateCall(repository, pr) &&
        forge(e.0[..|e.0| - 1], CreateCall(repository, pr)).Success? &&
        forge(e.0[..|e.0| - 1], CreateCall(repository, pr)).value.number == e.1.value.number &&
        (Truthy(existingPr) ==>
           forge(cp.0, GetPullRequest(repository.FullName(), existingPr.value)).Success? &&
           !StillOpen(forge(cp.0, GetPullRequest(repository.FullName(), existingPr.value)).value))
    ensures var cp := CommitPushEffect(local, t, sshKeyFile, RepoDir(reposDir, repository), pr.branch, pr.message, existingPr);
      var e := PushEffect(local, forge, t, sshKeyFile, reposDir, repository, existingPr, pr);
      cp.1 == Success(false) ==> e == (cp.0, Success(Unchanged))
    ensures var cp := CommitPushEffect(local, t, sshKeyFile, RepoDir(reposDir, repository), pr.branch, pr.message, existingPr);
      var e := PushEffect(local, forge, t, sshKeyFile, reposDir, repository, existingPr, pr);
      cp.1 == Success(true) && Truthy(existingPr) &&
      forge(cp.0, GetPullRequest(repository.FullName(), existingPr.value)).Success? &&
      StillOpen(forge(cp.0, GetPullRequest(repository.FullName(), existingPr.value)).value) ==>
        e == (cp.0 + [GetPullRequest(repository.FullName(), existingPr.value)], Success(Reused))
  {
  }

  /** With number 0 recorded the existing pull request is not looked at, yet the push is forced. */
  lemma ZeroNumberIsNotLookedUp(local: LocalReplies, forge: ForgeReplies, t: seq<Call>, sshKeyFile: string,
                                reposDir: string, repository: Repository, pr: PrTemplate)
    requires CommitPushEffect(local, t, sshKeyFile, RepoDir(reposDir, repository), pr.branch, pr.message, Some(0)).1 == Success(true)
    ensures var cp := CommitPushEffect(local, t, sshKeyFile, RepoDir(reposDir, repository), pr.branch, pr.message, Some(0));
      var e := PushEffect(local, forge, t, sshKeyFile, reposDir, repository, Some(0), pr);
      cp.0[|cp.0| - 1] == PushCall(sshKeyFile, RepoDir(reposDir, repository), pr.branch, true) &&
      e.0 == cp.0 + [CreateCall(repository, pr)]
  {
  }

  /** `_mark_repository_as_done`: set `done`, then write the whole table as it now is. */
  method MarkRepositoryAsDone(env: Env, repository: Repository, db: Database, workdir: WorkDir) returns (o: Outcome)
    modifies repository, env
    ensures repository.done
    ensures repository.existingPr == old(repository.existingPr) && repository.removed == old(repository.removed)
    ensures env.trace == old(env.trace) + [WriteDatabase(DatabaseFile(workdir), db.Record())]
    ensures o == OutcomeOf(env.local(old(env.trace), WriteDatabase(DatabaseFile(workdir), db.Record())))
  {
    repository.done := true;
    ghost var content := db.Record();
    var written := env.Perform(WriteDatabase(DatabaseFile(workdir), db.Record()));
    assert db.Record() == content;
    o := OutcomeOf(written);
  }

  /** `push_changes`. Every outcome without an exception marks the repository done and writes the
      table; a created pull request's number is recorded before that. */
  method PushChanges(env: Env, repository: Repository, db: Database, cfg: Config, workdir: WorkDir) returns (r: Result<bool>)
    modifies repository, env
    ensures var e := PushEffect(env.local, env.forge, old(env.trace), cfg.credentials.sshKeyFile, ReposDir(workdir),
                                repository, old(repository.existingPr), cfg.pr);
      e.1.Failure? ==>
        env.trace == e.0 && r == Failure(e.1.error) &&
        repository.done == old(repository.done) && repository.existingPr == old(repository.existingPr)
    ensures var e := PushEffect(env.local, env.forge, old(env.trace), cfg.credentials.sshKeyFile, ReposDir(workdir),
                                repository, old(repository.existingPr), cfg.pr);
      var write := WriteDatabase(DatabaseFile(workdir), db.Record());
      e.1.Success? ==>
        repository.done &&
        repository.existingPr == (if e.1.value.Created? then Some(e.1.value.number) else old(repository.existingPr)) &&
        env.trace == e.0 + [write] &&
        r == (if env.local(e.0, write).Success? then Success(e.1.value.Created?) else Failure(env.local(e.0, write).error))
    ensures repository.removed == old(repository.removed)
  {
    var updated := CommitAndPushChanges(env, cfg.credentials.sshKeyFile, ReposDir(workdir), repository, cfg.pr.branch, cfg.pr.message);
    if updated.Failure? {
      return Failure(updated.error);
    }
    if !updated.value {
      var o := MarkRepositoryAsDone(env, repository, db, workdir);
      return if o.Pass? then Success(false) else Failure(o.error);
    }
    if repository.existingPr.Some? && repository.existingPr.value != 0 {
      var pullRequest := env.Ask(GetPullRequest(repository.FullName(), repository.existingPr.value));
      if pullRequest.Failure? {
        return Failure(pullRequest.error);
      }
      if !pullRequest.value.merged && pullRequest.value.state != Github.PullRequestState.Closed.Value() {
        var o := MarkRepositoryAsDone(env, repository, db, workdir);
        return if o.Pass? then Success(false) else Failure(o.error);
      }
    }
    var created := env.Ask(CreateCall(repository, cfg.pr));
    if created.Failure? {
      return Failure(created.error);
    }
    repository.existingPr := Some(created.value.number);
    var o := MarkRepositoryAsDone(env, repository, db, workdir);
    return if o.Pass? then Success(true) else Failure(o.error);
  }

  // ---------------------------------------------------------------------------------------
  // One run of the update over a repository

  const UserMissing := "db.user is None - please report at github.com/getyourguide/auto-pr"

  /** What `reset_and_run_script` does: refuse without a user; otherwise optionally bring the
      clone up to date, then prepare the work branch and run the update command, stopping at the
      first failure. */
  function ResetRunEffect(local: LocalReplies, probe: Probes, t: seq<Call>, user: Option<GitUser>, cfg: Config,
                          workdir: WorkDir, repository: Repository, pullRepo: bool): (seq<Call>, Outcome)
  {
    if user.None? then (t, Fail(UserMissing))
    else
      var d := RepoDir(ReposDir(workdir), repository);
      var pulled :=
        if pullRepo then PullEffect(local, probe, t, user.value, cfg.credentials.sshKeyFile, ReposDir(workdir), repository, true)
        else (t, Pass);
      if pulled.1.Fail? then pulled
      else
        var prepared := Script(local, pulled.0, PreparePlan(d, repository.defaultBranch, cfg.pr.branch));
        if prepared.1.Fail? then prepared
        else UpdateEffect(local, prepared.0, d, cfg.updateCommand)
  }

  /** `reset_and_run_script`. */
  method ResetAndRunScript(env: Env, repository: Repository, db: Database, cfg: Config, workdir: WorkDir, pullRepo: bool)
    returns (o: Outcome)
    modifies env
    ensures (env.trace, o) ==
      ResetRunEffect(env.local, env.probe, old(env.trace), db.user, cfg, workdir, repository, pullRepo)
  {
    if db.user == None {
      return Fail(UserMissing);
    }
    if pullRepo {
      o := PullRepository(env, db.user.value, cfg.credentials.sshKeyFile, ReposDir(workdir), repository, true);
      if o.Fail? {
        return;
      }
    }
    o := PrepareRepository(env, ReposDir(workdir), repository, cfg.pr.branch);
    if o.Fail? {
      return;
    }
    o := RunUpdateCommand(env, ReposDir(workdir), repository, cfg.updateCommand);
  }

  /** Without a user nothing is run; a run that succeeds has prepared the work branch and then
      run the update, ending by staging all changes in the clone. */
  lemma ResetRunOrder(local: LocalReplies, probe: Probes, t: seq<Call>, user: Option<GitUser>, cfg: Config,
                      workdir: WorkDir, repository: Repository, pullRepo: bool)
    ensures user.None? ==> ResetRunEffect(local, probe, t, user, cfg, workdir, repository, pullRepo) == (t, Fail(UserMissing))
    ensures var r := ResetRunEffect(local, probe, t, user, cfg, workdir, repository, pullRepo);
      var d := RepoDir(ReposDir(workdir), repository);
      r.1.Pass? ==>
        |r.0| >= |t| + 8 &&
        r.0[|r.0| - 8..|r.0| - 5] == PreparePlan(d, repository.defaultBranch, cfg.pr.branch) &&
        r.0[|r.0| - 5] == GetCwd && r.0[|r.0| - 4] == ChangeDir(d) && r.0[|r.0| - 3] == Run(cfg.updateCommand, map[]) &&
        r.0[|r.0| - 1] == AddAllCall(d)
  {
    if user.Some? {
      var d := RepoDir(ReposDir(workdir), repository);
      var pulled :=
        if pullRepo then PullEffect(local, probe, t, user.value, cfg.credentials.sshKeyFile, ReposDir(workdir), repository, true)
        else (t, Pass);
      var r := ResetRunEffect(local, probe, t, user, cfg, workdir, repository, pullRepo);
      if r.1.Pass? {
        if pullRepo {
          PullPassTrace(local, probe, t, user.value, cfg.credentials.sshKeyFile, ReposDir(workdir), repository, true);
        }
        assert |pulled.0| >= |t|;
        var plan := PreparePlan(d, repository.defaultBranch, cfg.pr.branch);
        ScriptPassTrace(local, pulled.0, plan);
        var t2 := pulled.0 + plan;
        UpdateDirectories(local, t2, d, cfg.updateCommand);
        assert r.0 == t2 + [GetCwd, ChangeDir(d), Run(cfg.updateCommand, map[]), ChangeDir(local(t2, GetCwd).value), AddAllCall(d)];
      }
    }
  }
}
