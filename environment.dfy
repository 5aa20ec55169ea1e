/** The boundary between the pipeline's decisions and the outside world: git and other local
    commands, the filesystem, the working directory, the code forge and the checkpoint file. Every
    operation is a `Call` appended to a trace, and its reply is whatever the environment answers
    for that call after that history. Nothing of the outside world is modelled beyond the replies. */
module Environment {
  import opened Wrappers
  import opened Database

  /** What the forge reports about a pull request. */
  datatype PullRequest = PullRequest(number: int, merged: bool, state: string, htmlUrl: string)

  datatype Call =
    | Run(argv: seq<string>, extraEnv: map<string, string>)
    | PathExists(path: string)
    | RemoveTree(path: string)
    | GetCwd
    | ChangeDir(path: string)
    | GetPullRequest(fullName: string, number: int)
    | CreatePullRequest(fullName: string, base: string, head: string, title: string, body: string)
    | EditPullRequest(fullName: string, number: int, state: string)
    | WriteDatabase(file: string, content: DatabaseRecord)

  /** Replies of local operations: the output of a command (or the current directory), or the
      error an exception would carry. */
  type LocalReplies = (seq<Call>, Call) -> Result<string>
  /** Replies of existence probes. */
  type Probes = (seq<Call>, string) -> bool
  /** Replies of forge calls. */
  type ForgeReplies = (seq<Call>, Call) -> Result<PullRequest>

  /** `a / b` for paths. */
  function JoinPath(a: string, b: string): string { a + "/" + b }

  class Env {
    var trace: seq<Call>
    const local: LocalReplies
    const probe: Probes
    const forge: ForgeReplies

    constructor (local: LocalReplies, probe: Probes, forge: ForgeReplies)
      ensures trace == [] && this.local == local && this.probe == probe && this.forge == forge
    {
      trace := [];
      this.local := local;
      this.probe := probe;
      this.forge := forge;
    }

    /** Runs a local operation. */
    method Perform(c: Call) returns (r: Result<string>)
      modifies this
      ensures trace == old(trace) + [c] && r == local(old(trace), c)
    {
      r := local(trace, c);
      trace := trace + [c];
    }

    /** Asks whether a path exists. */
    method Exists(path: string) returns (b: bool)
      modifies this
      ensures trace == old(trace) + [PathExists(path)] && b == probe(old(trace), path)
    {
      b := probe(trace, path);
      trace := trace + [PathExists(path)];
    }

    /** Calls the forge. */
    method Ask(c: Call) returns (r: Result<PullRequest>)
      modifies this
      ensures trace == old(trace) + [c] && r == forge(old(trace), c)
    {
      r := forge(trace, c);
      trace := trace + [c];
    }
  }

  /** The outcome of a local operation whose output is not used. */
  function OutcomeOf(r: Result<string>): (o: Outcome)
    ensures o.Pass? <==> r.Success?
    ensures r.Failure? ==> o.error == r.error
  {
    if r.Success? then Pass else Fail(r.error)
  }

  /** Runs the local operations of `plan` one after the other from history `t`, stopping at the
      first that fails, as an exception would; yields the history afterwards and the outcome. */
  function Script(local: LocalReplies, t: seq<Call>, plan: seq<Call>): (seq<Call>, Outcome)
    decreases |plan|
  {
    if plan == [] then (t, Pass)
    else
      match local(t, plan[0])
      case Failure(e) => (t + [plan[0]], Fail(e))
      case Success(_) => Script(local, t + [plan[0]], plan[1..])
  }

  /** A script is its first step followed by the rest. */
  lemma ScriptStep(local: LocalReplies, t: seq<Call>, c: Call, rest: seq<Call>)
    ensures Script(local, t, [c] + rest) ==
      if local(t, c).Failure? then (t + [c], Fail(local(t, c).error))
      else Script(local, t + [c], rest)
  {
    assert ([c] + rest)[1..] == rest;
  }

  /** Running `a + b` is running `a`, then `b` if `a` passed. */
  lemma {:induction false} ScriptAppend(local: LocalReplies, t: seq<Call>, a: seq<Call>, b: seq<Call>)
    ensures Script(local, t, a + b) ==
      var first := Script(local, t, a);
      if first.1.Fail? then first else Script(local, first.0, b)
    decreases |a|
  {
    if a == [] {
      assert a + b == b;
    } else {
      ScriptStep(local, t, a[0], a[1..] + b);
      assert a + b == [a[0]] + (a[1..] + b);
      ScriptStep(local, t, a[0], a[1..]);
      assert a == [a[0]] + a[1..];
      ScriptAppend(local, t + [a[0]], a[1..], b);
    }
  }

  /** A script that passes has made every call of the plan, in order. */
  lemma {:induction false} ScriptPassTrace(local: LocalReplies, t: seq<Call>, plan: seq<Call>)
    requires Script(local, t, plan).1.Pass?
    ensures Script(local, t, plan).0 == t + plan
    decreases |plan|
  {
    if plan != [] {
      var c, rest := plan[0], plan[1..];
      assert plan == [c] + rest;
      ScriptStep(local, t, c, rest);
      ScriptPassTrace(local, t + [c], rest);
      assert (t + [c]) + rest == t + plan;
    }
  }

  /** A script passes exactly when every step succeeds. */
  lemma {:induction false} ScriptPasses(local: LocalReplies, t: seq<Call>, plan: seq<Call>)
    ensures Script(local, t, plan).1.Pass? <==>
      forall k :: 0 <= k < |plan| ==> local(t + plan[..k], plan[k]).Success?
    decreases |plan|
  {
    if plan != [] {
      var c, rest := plan[0], plan[1..];
      assert plan == [c] + rest;
      ScriptStep(local, t, c, rest);
      assert t + plan[..0] == t;
      if local(t, c).Success? {
        ScriptPasses(local, t + [c], rest);
        PlanShift(t, c, rest);
      }
    }
  }

  /** Histories along `[c] + rest` from `t` are those along `rest` from `t + [c]`, shifted. */
  lemma PlanShift(t: seq<Call>, c: Call, rest: seq<Call>)
    ensures forall k :: 0 <= k < |rest| ==>
      t + ([c] + rest)[..k + 1] == (t + [c]) + rest[..k] && ([c] + rest)[k + 1] == rest[k]
  {
    forall k | 0 <= k < |rest|
      ensures t + ([c] + rest)[..k + 1] == (t + [c]) + rest[..k]
    {
      assert ([c] + rest)[..k + 1] == [c] + rest[..k];
    }
  }

  /** The history after `j + 1` calls of `[c] + rest` is that after `j` calls of `rest` from
      `t + [c]`. */
  lemma ShiftAt(t: seq<Call>, c: Call, rest: seq<Call>, j: nat)
    requires j <= |rest|
    ensures t + ([c] + rest)[..j + 1] == (t + [c]) + rest[..j]
    ensures j < |rest| ==> ([c] + rest)[j + 1] == rest[j]
  {
    assert ([c] + rest)[..j + 1] == [c] + rest[..j];
  }

  /** A script that fails has made the calls of the plan up to and including the first failing
      one, number `k`, whose error it reports; every earlier call succeeded. */
  lemma {:induction false} ScriptFails(local: LocalReplies, t: seq<Call>, plan: seq<Call>) returns (k: nat)
    requires Script(local, t, plan).1.Fail?
    ensures k < |plan|
    ensures Script(local, t, plan).0 == t + plan[..k + 1]
    ensures local(t + plan[..k], plan[k]) == Failure(Script(local, t, plan).1.error)
    ensures forall j :: 0 <= j < k ==> local(t + plan[..j], plan[j]).Success?
    decreases |plan|
  {
    var c, rest := plan[0], plan[1..];
    assert plan == [c] + rest;
    ScriptStep(local, t, c, rest);
    assert plan[..0] == [] && plan[..1] == [c];
    if local(t, c).Failure? {
      k := 0;
      assert t + plan[..0] == t;
      assert t + plan[..1] == t + [c];
    } else {
      var k' := ScriptFails(local, t + [c], rest);
      k := k' + 1;
      ShiftAt(t, c, rest, k' + 1);
      ShiftAt(t, c, rest, k');
      forall j | 0 <= j < k ensures local(t + plan[..j], plan[j]).Success? {
        if j > 0 {
          ShiftAt(t, c, rest, j - 1);
        } else {
          assert t + plan[..j] == t;
        }
      }
    }
  }

  /** Whatever the replies, a script makes a prefix of its plan's calls. */
  lemma ScriptMakesPrefix(local: LocalReplies, t: seq<Call>, plan: seq<Call>) returns (k: nat)
    ensures k <= |plan| && Script(local, t, plan).0 == t + plan[..k]
  {
    if Script(local, t, plan).1.Pass? {
      ScriptPassTrace(local, t, plan);
      k := |plan|;
      assert plan[..k] == plan;
    } else {
      var j := ScriptFails(local, t, plan);
      k := j + 1;
    }
  }
}
