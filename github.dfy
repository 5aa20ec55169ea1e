/** Repository selection of autopr/github.py: the rule predicate, the ordered application of
    add/remove rules to the candidate repositories, code-search deduplication, grouping by owner
    and the generation of rules that select a given list of repositories. Regular-expression
    matching and escaping are parameters: `fm(pattern, text)` stands for a full match and `esc` for
    escaping a literal. */
module Github {
  import opened Wrappers
  import opened Config
  import opened Database
  import opened Environment

  /** What a rule is matched against. */
  datatype FilterInfo = FilterInfo(owner: string, name: string, public: bool, archived: bool)

  datatype PullRequestState = Open | Closed {
    /** The state string the forge uses. */
    function Value(): string {
      match this
      case Open => "open"
      case Closed => "closed"
    }
  }

  /** `fm(pattern, text)`: `pattern` matches the whole of `text`. */
  type FullMatch = (string, string) -> bool
  /** A pattern that matches exactly its argument. */
  type Escape = string -> string

  // ---------------------------------------------------------------------------------------
  // The rule predicate

  /** No pattern of the list fully matches `text`. */
  function NoPatternMatches(patterns: seq<string>, text: string, fm: FullMatch): (r: bool)
    ensures r <==> forall i :: 0 <= i < |patterns| ==> !fm(patterns[i], text)
  {
    if patterns == [] then true
    else !fm(patterns[0], text) && NoPatternMatches(patterns[1..], text, fm)
  }

  /** Whether a rule matches a repository: every field the rule sets must agree, unset fields
      match anything, and a name list matches when one of its patterns does. */
  function FilterMatches(f: Filter, info: FilterInfo, fm: FullMatch): (r: bool)
    ensures r <==>
      (f.public.None? || info.public == f.public.value) &&
      (f.archived.None? || info.archived == f.archived.value) &&
      (f.matchName.None? || exists i :: 0 <= i < |f.matchName.value| && fm(f.matchName.value[i], info.name)) &&
      (f.matchOwner.None? || fm(f.matchOwner.value, info.owner))
    ensures f.matchName == Some([]) ==> !r
    ensures f.public.None? && f.archived.None? && f.matchName.None? && f.matchOwner.None? ==> r
  {
    if f.public.Some? && info.public != f.public.value then false
    else if f.archived.Some? && info.archived != f.archived.value then false
    else if f.matchName.Some? && NoPatternMatches(f.matchName.value, info.name, fm) then false
    else if f.matchOwner.Some? && !fm(f.matchOwner.value, info.owner) then false
    else true
  }

  // ---------------------------------------------------------------------------------------
  // The selection, an insertion-ordered dictionary keyed by (owner, name)

  /** A candidate repository together with what rules are matched against. */
  datatype Candidate = Candidate(info: FilterInfo, repository: Repository)

  function CKey(c: Candidate): Key { c.repository.Key() }

  function KeySet(d: seq<Candidate>): set<Key> { set c | c in d :: CKey(c) }

  ghost predicate UniqueKeys(d: seq<Candidate>) {
    forall i, j :: 0 <= i < j < |d| ==> CKey(d[i]) != CKey(d[j])
  }

  /** The position of key `k`, if present. */
  function FindKey(d: seq<Candidate>, k: Key): (r: Option<nat>)
    ensures r.Some? ==> r.value < |d| && CKey(d[r.value]) == k
    ensures r.None? <==> k !in KeySet(d)
  {
    if d == [] then None
    else if CKey(d[0]) == k then Some(0)
    else
      match FindKey(d[1..], k)
      case None =>
        assert forall c :: c in d ==> c == d[0] || c in d[1..];
        None
      case Some(i) => Some(i + 1)
  }

  /** `d[key(c)] = c`: an existing key keeps its position and takes the new value, a new key is
      appended. */
  function Put(d: seq<Candidate>, c: Candidate): seq<Candidate>
  {
    match FindKey(d, CKey(c))
    case None => d + [c]
    case Some(i) => d[i := c]
  }

  /** Putting adds the key and keeps keys unique; only `c` is new; a known key keeps its position
      and takes the new value while every other entry stays where it was; a new key is appended. */
  lemma PutProperties(d: seq<Candidate>, c: Candidate)
    ensures KeySet(Put(d, c)) == KeySet(d) + {CKey(c)}
    ensures UniqueKeys(d) ==> UniqueKeys(Put(d, c))
    ensures c in Put(d, c) && forall e :: e in Put(d, c) ==> e in d || e == c
    ensures CKey(c) in KeySet(d) ==> |Put(d, c)| == |d|
    ensures CKey(c) in KeySet(d) && UniqueKeys(d) ==> forall j :: 0 <= j < |d| ==>
      Put(d, c)[j] == if CKey(d[j]) == CKey(c) then c else d[j]
    ensures CKey(c) !in KeySet(d) ==> Put(d, c) == d + [c]
  {
    match FindKey(d, CKey(c))
    case None =>
    case Some(i) => PutReplaces(d, i, c);
  }

  lemma PutReplaces(d: seq<Candidate>, i: nat, c: Candidate)
    requires i < |d| && CKey(d[i]) == CKey(c)
    ensures KeySet(d[i := c]) == KeySet(d)
    ensures UniqueKeys(d) ==> UniqueKeys(d[i := c])
    ensures c in d[i := c] && forall e :: e in d[i := c] ==> e in d || e == c
  {
    var r := d[i := c];
    assert r[i] == c;
    forall e | e in r ensures e in d || e == c {
      var j :| 0 <= j < |r| && r[j] == e;
      if j != i {
        assert d[j] == e;
      }
    }
    forall k | k in KeySet(d) ensures k in KeySet(r) {
      var e :| e in d && CKey(e) == k;
      var j :| 0 <= j < |d| && d[j] == e;
      if j == i {
        assert CKey(r[i]) == k;
      } else {
        assert r[j] == e;
      }
    }
  }

  /** `{key(c): c for c in cands if matches}`. */
  function Added(cands: seq<Candidate>, f: Filter, fm: FullMatch): seq<Candidate>
    decreases |cands|
  {
    if cands == [] then []
    else
      var prev := Added(cands[..|cands| - 1], f, fm);
      var last := cands[|cands| - 1];
      if FilterMatches(f, last.info, fm) then Put(prev, last) else prev
  }

  /** What an add rule adds: unique keys, only candidates it matches, and the key of every
      candidate it matches. */
  lemma {:induction false} AddedProperties(cands: seq<Candidate>, f: Filter, fm: FullMatch)
    ensures UniqueKeys(Added(cands, f, fm))
    ensures forall e :: e in Added(cands, f, fm) ==> e in cands && FilterMatches(f, e.info, fm)
    ensures forall c :: c in cands && FilterMatches(f, c.info, fm) ==> CKey(c) in KeySet(Added(cands, f, fm))
    decreases |cands|
  {
    if cands != [] {
      var prefix := cands[..|cands| - 1];
      var last := cands[|cands| - 1];
      assert cands == prefix + [last];
      AddedProperties(prefix, f, fm);
      PutProperties(Added(prefix, f, fm), last);
    }
  }

  /** `d.update(a)`: the entries of `a` put into `d` in order. */
  function Update(d: seq<Candidate>, a: seq<Candidate>): seq<Candidate>
    decreases |a|
  {
    if a == [] then d
    else Put(Update(d, a[..|a| - 1]), a[|a| - 1])
  }

  /** Updating keeps keys unique, unites the key sets, and takes entries from either side. */
  lemma {:induction false} UpdateProperties(d: seq<Candidate>, a: seq<Candidate>)
    ensures UniqueKeys(d) ==> UniqueKeys(Update(d, a))
    ensures KeySet(Update(d, a)) == KeySet(d) + KeySet(a)
    ensures forall e :: e in Update(d, a) ==> e in d || e in a
    decreases |a|
  {
    if a != [] {
      var prefix := a[..|a| - 1];
      var last := a[|a| - 1];
      assert a == prefix + [last];
      assert KeySet(a) == KeySet(prefix) + {CKey(last)};
      UpdateProperties(d, prefix);
      PutProperties(Update(d, prefix), last);
    }
  }

  /** The entries of `d`, in order, that the rule does not match. */
  function Kept(d: seq<Candidate>, f: Filter, fm: FullMatch): seq<Candidate>
    decreases |d|
  {
    if d == [] then []
    else
      var prev := Kept(d[..|d| - 1], f, fm);
      var last := d[|d| - 1];
      if FilterMatches(f, last.info, fm) then prev else prev + [last]
  }

  /** An entry is kept exactly when the rule does not match it. */
  lemma {:induction false} KeptProperties(d: seq<Candidate>, f: Filter, fm: FullMatch)
    ensures forall e :: e in Kept(d, f, fm) ==> e in d
    ensures forall e :: e in d ==> (e in Kept(d, f, fm) <==> !FilterMatches(f, e.info, fm))
    decreases |d|
  {
    if d != [] {
      var prefix := d[..|d| - 1];
      var last := d[|d| - 1];
      assert d == prefix + [last];
      KeptProperties(prefix, f, fm);
    }
  }

  /** `{key(c): c for c in d.values() if not matches}`. */
  function Remaining(d: seq<Candidate>, f: Filter, fm: FullMatch): seq<Candidate>
  {
    Update([], Kept(d, f, fm))
  }

  /** A remove rule keeps unique keys, only entries it does not match, and the keys of those. */
  lemma RemainingProperties(d: seq<Candidate>, f: Filter, fm: FullMatch)
    ensures UniqueKeys(Remaining(d, f, fm))
    ensures forall e :: e in Remaining(d, f, fm) ==> e in d && !FilterMatches(f, e.info, fm)
    ensures KeySet(Remaining(d, f, fm)) == KeySet(Kept(d, f, fm))
  {
    KeptProperties(d, f, fm);
    UpdateProperties([], Kept(d, f, fm));
  }

  function UnsupportedMode(mode: string): string { "Unsupported filter.mode passed: " + mode }

  predicate ValidMode(f: Filter) { f.mode == FilterModeAdd || f.mode == FilterModeRemove }

  /** One rule applied to the selection `d`. */
  function Step(d: seq<Candidate>, cands: seq<Candidate>, f: Filter, fm: FullMatch): (r: Result<seq<Candidate>>)
    ensures r.Failure? <==> !ValidMode(f)
    ensures r.Failure? ==> r.error == UnsupportedMode(f.mode)
  {
    if f.mode == FilterModeAdd then Success(Update(d, Added(cands, f, fm)))
    else if f.mode == FilterModeRemove then Success(Remaining(d, f, fm))
    else Failure(UnsupportedMode(f.mode))
  }

  /** An add rule only grows the selection, with candidates, and gains the key of every candidate
      it matches; a remove rule drops exactly the entries it matches; keys stay unique either
      way. */
  lemma StepProperties(d: seq<Candidate>, cands: seq<Candidate>, f: Filter, fm: FullMatch)
    ensures var r := Step(d, cands, f, fm);
      r.Success? && f.mode == FilterModeAdd ==>
        KeySet(d) <= KeySet(r.value) && forall e :: e in r.value ==> e in d || e in cands
    ensures var r := Step(d, cands, f, fm);
      r.Success? && f.mode == FilterModeAdd ==>
        forall c :: c in cands && FilterMatches(f, c.info, fm) ==> CKey(c) in KeySet(r.value)
    ensures var r := Step(d, cands, f, fm);
      r.Success? && f.mode == FilterModeRemove ==>
        forall e :: e in r.value ==> e in d && !FilterMatches(f, e.info, fm)
    ensures var r := Step(d, cands, f, fm);
      r.Success? && f.mode == FilterModeRemove && UniqueKeys(d) ==>
        forall e :: e in d && !FilterMatches(f, e.info, fm) ==> e in r.value
    ensures var r := Step(d, cands, f, fm);
      r.Success? && UniqueKeys(d) ==> UniqueKeys(r.value)
  {
    AddedProperties(cands, f, fm);
    UpdateProperties(d, Added(cands, f, fm));
    RemainingProperties(d, f, fm);
    KeptProperties(d, f, fm);
    if f.mode == FilterModeRemove && UniqueKeys(d) {
      var r := Remaining(d, f, fm);
      forall e | e in d && !FilterMatches(f, e.info, fm) ensures e in r {
        assert CKey(e) in KeySet(Kept(d, f, fm));
        var e' :| e' in r && CKey(e') == CKey(e);
        SameKeySameEntry(d, e, e');
      }
    }
  }

  /** In a selection with unique keys, an entry is determined by its key. */
  lemma SameKeySameEntry(d: seq<Candidate>, e: Candidate, e': Candidate)
    requires UniqueKeys(d) && e in d && e' in d && CKey(e) == CKey(e')
    ensures e == e'
  {
    var i :| 0 <= i < |d| && d[i] == e;
    var j :| 0 <= j < |d| && d[j] == e';
    assert !(i < j) && !(j < i);
  }

  /** The rules applied in order to the selection `d`, stopping at the first unsupported mode. */
  function RunFrom(d: seq<Candidate>, cands: seq<Candidate>, fs: seq<Filter>, fm: FullMatch): Result<seq<Candidate>>
    decreases |fs|
  {
    if fs == [] then Success(d)
    else
      match RunFrom(d, cands, fs[..|fs| - 1], fm)
      case Failure(e) => Failure(e)
      case Success(s) => Step(s, cands, fs[|fs| - 1], fm)
  }

  /** The repository objects of a selection, in order. */
  function Repositories(d: seq<Candidate>): seq<Repository>
  {
    seq(|d|, i requires 0 <= i < |d| => d[i].repository)
  }

  /** The repositories the rules select: every candidate when there is no rule. */
  function Select(cands: seq<Candidate>, fs: seq<Filter>, fm: FullMatch): Result<seq<Repository>>
  {
    if |fs| == 0 then Success(Repositories(cands))
    else
      match RunFrom([], cands, fs, fm)
      case Failure(e) => Failure(e)
      case Success(s) => Success(Repositories(s))
  }

  /** `_apply_filters`. */
  method ApplyFilters(allRepositories: seq<Candidate>, filters: seq<Filter>, fm: FullMatch)
    returns (r: Result<seq<Repository>>)
    ensures r == Select(allRepositories, filters, fm)
  {
    var selected: seq<Candidate> := [];
    if |filters| == 0 {
      return Success(Repositories(allRepositories));
    }
    for i := 0 to |filters|
      invariant RunFrom([], allRepositories, filters[..i], fm) == Success(selected)
    {
      assert filters[..i + 1][..i] == filters[..i];
      var filter := filters[i];
      if filter.mode == FilterModeAdd {
        var added := Added(allRepositories, filter, fm);
        selected := Update(selected, added);
      } else if filter.mode == FilterModeRemove {
        selected := Remaining(selected, filter, fm);
      } else {
        RunFailureSticks([], allRepositories, filters, i + 1, fm);
        return Failure(UnsupportedMode(filter.mode));
      }
    }
    assert filters[..|filters|] == filters;
    return Success(Repositories(selected));
  }

  /** Once a rule has failed, the whole run fails with the same error. */
  lemma {:induction false} RunFailureSticks(d: seq<Candidate>, cands: seq<Candidate>, fs: seq<Filter>, n: nat, fm: FullMatch)
    requires n <= |fs| && RunFrom(d, cands, fs[..n], fm).Failure?
    ensures RunFrom(d, cands, fs, fm) == RunFrom(d, cands, fs[..n], fm)
    decreases |fs| - n
  {
    if n < |fs| {
      assert fs[..n + 1][..n] == fs[..n];
      RunFailureSticks(d, cands, fs, n + 1, fm);
    } else {
      assert fs[..n] == fs;
    }
  }

  // ---------------------------------------------------------------------------------------
  // Properties of rule application

  /** The run succeeds exactly when every rule has a supported mode. */
  lemma {:induction false} RunSucceedsOnValidModes(d: seq<Candidate>, cands: seq<Candidate>, fs: seq<Filter>, fm: FullMatch)
    ensures RunFrom(d, cands, fs, fm).Success? <==> forall i :: 0 <= i < |fs| ==> ValidMode(fs[i])
    decreases |fs|
  {
    if fs != [] {
      var prefix, f := fs[..|fs| - 1], fs[|fs| - 1];
      RunSucceedsOnValidModes(d, cands, prefix, fm);
      assert (forall i :: 0 <= i < |fs| ==> ValidMode(fs[i])) <==>
             (forall i :: 0 <= i < |prefix| ==> ValidMode(prefix[i])) && ValidMode(f) by {
        assert forall i :: 0 <= i < |prefix| ==> prefix[i] == fs[i];
      }
      var before := RunFrom(d, cands, prefix, fm);
      if before.Success? {
        assert RunFrom(d, cands, fs, fm) == Step(before.value, cands, f, fm);
      } else {
        assert RunFrom(d, cands, fs, fm) == before;
      }
    }
  }

  /** A failing run reports rule `i`, the first with an unsupported mode. */
  lemma {:induction false} RunFailsAtFirstBadMode(d: seq<Candidate>, cands: seq<Candidate>, fs: seq<Filter>, fm: FullMatch)
    returns (i: nat)
    requires RunFrom(d, cands, fs, fm).Failure?
    ensures i < |fs| && !ValidMode(fs[i]) && forall j :: 0 <= j < i ==> ValidMode(fs[j])
    ensures RunFrom(d, cands, fs, fm).error == UnsupportedMode(fs[i].mode)
    decreases |fs|
  {
    var prefix := fs[..|fs| - 1];
    var before := RunFrom(d, cands, prefix, fm);
    if before.Failure? {
      assert RunFrom(d, cands, fs, fm) == before;
      i := RunFailsAtFirstBadMode(d, cands, prefix, fm);
      assert prefix[i] == fs[i];
      assert forall j :: 0 <= j < i ==> prefix[j] == fs[j];
    } else {
      i := |fs| - 1;
      assert RunFrom(d, cands, fs, fm) == Step(before.value, cands, fs[i], fm);
      RunSucceedsOnValidModes(d, cands, prefix, fm);
      assert forall j :: 0 <= j < i ==> prefix[j] == fs[j];
    }
  }

  /** Keys in the selection stay unique and every entry is a candidate. */
  lemma {:induction false} RunKeepsCandidates(d: seq<Candidate>, cands: seq<Candidate>, fs: seq<Filter>, fm: FullMatch)
    requires UniqueKeys(d)
    requires RunFrom(d, cands, fs, fm).Success?
    ensures UniqueKeys(RunFrom(d, cands, fs, fm).value)
    ensures forall e :: e in RunFrom(d, cands, fs, fm).value ==> e in d || e in cands
    decreases |fs|
  {
    if fs != [] {
      RunKeepsCandidates(d, cands, fs[..|fs| - 1], fm);
      StepProperties(RunFrom(d, cands, fs[..|fs| - 1], fm).value, cands, fs[|fs| - 1], fm);
    }
  }

  /** Running `a + b` is running `a`, then `b` on its selection. */
  lemma {:induction false} RunAppend(d: seq<Candidate>, cands: seq<Candidate>, a: seq<Filter>, b: seq<Filter>, fm: FullMatch)
    ensures RunFrom(d, cands, a + b, fm) ==
      match RunFrom(d, cands, a, fm)
      case Failure(e) => Failure(e)
      case Success(s) => RunFrom(s, cands, b, fm)
    decreases |b|
  {
    if b == [] {
      assert a + b == a;
    } else {
      assert (a + b)[..|a + b| - 1] == a + b[..|b| - 1];
      RunAppend(d, cands, a, b[..|b| - 1], fm);
    }
  }

  /** Remove rules that come before any add rule change nothing. */
  lemma {:induction false} LeadingRemovesAreNoops(cands: seq<Candidate>, removes: seq<Filter>, rest: seq<Filter>, fm: FullMatch)
    requires forall i :: 0 <= i < |removes| ==> removes[i].mode == FilterModeRemove
    ensures RunFrom([], cands, removes + rest, fm) == RunFrom([], cands, rest, fm)
  {
    RemovesFromEmpty(cands, removes, fm);
    RunAppend([], cands, removes, rest, fm);
  }

  lemma {:induction false} RemovesFromEmpty(cands: seq<Candidate>, removes: seq<Filter>, fm: FullMatch)
    requires forall i :: 0 <= i < |removes| ==> removes[i].mode == FilterModeRemove
    ensures RunFrom([], cands, removes, fm) == Success([])
    decreases |removes|
  {
    if removes != [] {
      RemovesFromEmpty(cands, removes[..|removes| - 1], fm);
    }
  }

  /** Whether the last rule that matches `info` is an add rule (false when none matches). */
  function LastMatchIsAdd(fs: seq<Filter>, info: FilterInfo, fm: FullMatch): bool
    decreases |fs|
  {
    if fs == [] then false
    else if FilterMatches(fs[|fs| - 1], info, fm) then fs[|fs| - 1].mode == FilterModeAdd
    else LastMatchIsAdd(fs[..|fs| - 1], info, fm)
  }

  /** `LastMatchIsAdd` holds exactly when some add rule matches `info` and no later rule does. */
  lemma {:induction false} LastMatchIsAddMeans(fs: seq<Filter>, info: FilterInfo, fm: FullMatch)
    ensures LastMatchIsAdd(fs, info, fm) <==>
      exists i :: 0 <= i < |fs| && FilterMatches(fs[i], info, fm) && fs[i].mode == FilterModeAdd &&
        forall j :: i < j < |fs| ==> !FilterMatches(fs[j], info, fm)
    decreases |fs|
  {
    if fs != [] {
      var n := |fs| - 1;
      var prefix := fs[..n];
      if FilterMatches(fs[n], info, fm) {
        if LastMatchIsAdd(fs, info, fm) {
          assert FilterMatches(fs[n], info, fm) && fs[n].mode == FilterModeAdd;
        } else {
          forall i | 0 <= i < |fs| && FilterMatches(fs[i], info, fm) && fs[i].mode == FilterModeAdd
            ensures exists j :: i < j < |fs| && FilterMatches(fs[j], info, fm)
          {
            assert i != n;
            assert i < n && FilterMatches(fs[n], info, fm);
          }
        }
      } else {
        LastMatchIsAddMeans(prefix, info, fm);
        if LastMatchIsAdd(fs, info, fm) {
          var i :| 0 <= i < |prefix| && FilterMatches(prefix[i], info, fm) && prefix[i].mode == FilterModeAdd &&
            forall j :: i < j < |prefix| ==> !FilterMatches(prefix[j], info, fm);
          assert fs[i] == prefix[i];
          forall j | i < j < |fs| ensures !FilterMatches(fs[j], info, fm) {
            if j < n {
              assert fs[j] == prefix[j];
            }
          }
        } else {
          forall i | 0 <= i < |fs| && FilterMatches(fs[i], info, fm) && fs[i].mode == FilterModeAdd
            ensures exists j :: i < j < |fs| && FilterMatches(fs[j], info, fm)
          {
            assert i < n && fs[i] == prefix[i];
            var j :| i < j < |prefix| && FilterMatches(prefix[j], info, fm);
            assert fs[j] == prefix[j];
          }
        }
      }
    }
  }

  /** With candidates of distinct keys, a candidate ends up selected exactly when the last rule
      matching it is an add rule. */
  lemma {:induction false} LastMatchingRuleDecides(cands: seq<Candidate>, fs: seq<Filter>, c: Candidate, fm: FullMatch)
    requires UniqueKeys(cands) && c in cands
    requires RunFrom([], cands, fs, fm).Success?
    ensures CKey(c) in KeySet(RunFrom([], cands, fs, fm).value) <==> LastMatchIsAdd(fs, c.info, fm)
    decreases |fs|
  {
    if fs != [] {
      var prefix, f := fs[..|fs| - 1], fs[|fs| - 1];
      LastMatchingRuleDecides(cands, prefix, c, fm);
      RunKeepsCandidates([], cands, prefix, fm);
      var before := RunFrom([], cands, prefix, fm).value;
      var after := RunFrom([], cands, fs, fm).value;
      // the only candidate with c's key is c itself
      forall e | e in cands && CKey(e) == CKey(c) ensures e == c {
        var i :| 0 <= i < |cands| && cands[i] == e;
        var j :| 0 <= j < |cands| && cands[j] == c;
        assert i == j;
      }
      if f.mode == FilterModeAdd {
        var added := Added(cands, f, fm);
        AddedProperties(cands, f, fm);
        UpdateProperties(before, added);
        if FilterMatches(f, c.info, fm) {
          assert CKey(c) in KeySet(added);
        }
      } else {
        var kept := Kept(before, f, fm);
        KeptProperties(before, f, fm);
        RemainingProperties(before, f, fm);
        if CKey(c) in KeySet(before) && !FilterMatches(f, c.info, fm) {
          var e :| e in before && CKey(e) == CKey(c);
          assert e == c && c in kept;
        }
        if CKey(c) in KeySet(kept) {
          var e :| e in kept && CKey(e) == CKey(c);
          assert e == c;
        }
      }
    }
  }

  /** `Select` with no rule is every candidate, in order; otherwise it succeeds exactly when every
      mode is supported, and then its repositories have distinct keys and are candidates. */
  lemma SelectProperties(cands: seq<Candidate>, fs: seq<Filter>, fm: FullMatch)
    ensures fs == [] ==> Select(cands, fs, fm) == Success(Repositories(cands))
    ensures fs != [] ==> (Select(cands, fs, fm).Success? <==> forall i :: 0 <= i < |fs| ==> ValidMode(fs[i]))
    ensures fs != [] && Select(cands, fs, fm).Success? ==>
      var r := Select(cands, fs, fm).value;
      (forall i, j :: 0 <= i < j < |r| ==> r[i].Key() != r[j].Key()) &&
      (forall o :: o in r ==> o in Repositories(cands))
  {
    if fs != [] {
      RunSucceedsOnValidModes([], cands, fs, fm);
      if RunFrom([], cands, fs, fm).Success? {
        RunKeepsCandidates([], cands, fs, fm);
        var s := RunFrom([], cands, fs, fm).value;
        forall o | o in Repositories(s) ensures o in Repositories(cands) {
          var i :| 0 <= i < |s| && Repositories(s)[i] == o;
          assert s[i] in s;
          var j :| 0 <= j < |cands| && cands[j] == s[i];
          assert Repositories(cands)[j] == o;
        }
      }
    }
  }

  // ---------------------------------------------------------------------------------------
  // Code search: unique repositories from a list of hits

  /** The repository of one code-search hit. */
  datatype CodeHit = CodeHit(owner: string, name: string, private: bool, archived: bool, sshUrl: string, defaultBranch: string)

  function HitKey(h: CodeHit): Key { (h.owner, h.name) }

  function HitKeys(hs: seq<CodeHit>): set<Key> { set h | h in hs :: HitKey(h) }

  /** The visibility and archived filters of a search, unset meaning no filter. */
  predicate PassesSearchFilters(h: CodeHit, publicFilter: Option<bool>, archivedFilter: Option<bool>) {
    (publicFilter.None? || !h.private == publicFilter.value) &&
    (archivedFilter.None? || h.archived == archivedFilter.value)
  }

  /** The hits, in order, that pass the filters and whose key no earlier accepted hit has. */
  function Accepted(hits: seq<CodeHit>, publicFilter: Option<bool>, archivedFilter: Option<bool>): (r: seq<CodeHit>)
    ensures |r| <= |hits|
    decreases |hits|
  {
    if hits == [] then []
    else
      AcceptOne(Accepted(hits[..|hits| - 1], publicFilter, archivedFilter), hits[|hits| - 1], publicFilter, archivedFilter)
  }

  /** One more hit considered: it is kept when it passes the filters and its key is new. */
  function AcceptOne(prev: seq<CodeHit>, h: CodeHit, publicFilter: Option<bool>, archivedFilter: Option<bool>): seq<CodeHit>
  {
    if HitKey(h) !in HitKeys(prev) && PassesSearchFilters(h, publicFilter, archivedFilter) then prev + [h] else prev
  }

  /** The accepted hits have distinct keys, are hits that pass the filters, and cover the key of
      every hit that passes. */
  lemma {:induction false} AcceptedProperties(hits: seq<CodeHit>, publicFilter: Option<bool>, archivedFilter: Option<bool>)
    ensures var r := Accepted(hits, publicFilter, archivedFilter);
      (forall i, j :: 0 <= i < j < |r| ==> HitKey(r[i]) != HitKey(r[j])) &&
      (forall h :: h in r ==> h in hits && PassesSearchFilters(h, publicFilter, archivedFilter)) &&
      (forall h :: h in hits && PassesSearchFilters(h, publicFilter, archivedFilter) ==> HitKey(h) in HitKeys(r))
    decreases |hits|
  {
    if hits != [] {
      var prefix := hits[..|hits| - 1];
      var last := hits[|hits| - 1];
      assert hits == prefix + [last];
      AcceptedProperties(prefix, publicFilter, archivedFilter);
      var prev := Accepted(prefix, publicFilter, archivedFilter);
      HitKeysAppend(prev, last);
      assert forall h :: h in prev ==> HitKey(h) in HitKeys(prev);
    }
  }

  /** The number of repositories a search stops at: the check runs after an append, so at least
      one repository is returned whenever one is accepted. */
  function SearchLimit(maxRepos: int): nat { if maxRepos < 1 then 1 else maxRepos }

  /** The repositories a search returns. */
  function SearchResult(hits: seq<CodeHit>, maxRepos: int, publicFilter: Option<bool>, archivedFilter: Option<bool>): (r: seq<CodeHit>)
    ensures |r| <= SearchLimit(maxRepos)
  {
    var a := Accepted(hits, publicFilter, archivedFilter);
    var limit := SearchLimit(maxRepos);
    if |a| <= limit then a else a[..limit]
  }

  /** Search results have distinct keys and pass the filters, there are at most `maxRepos` of
      them when that is positive, and a search that stops short of its limit found every hit
      passing the filters. */
  lemma SearchResultProperties(hits: seq<CodeHit>, maxRepos: int, publicFilter: Option<bool>, archivedFilter: Option<bool>)
    ensures var r := SearchResult(hits, maxRepos, publicFilter, archivedFilter);
      (forall i, j :: 0 <= i < j < |r| ==> HitKey(r[i]) != HitKey(r[j])) &&
      (forall h :: h in r ==> h in hits && PassesSearchFilters(h, publicFilter, archivedFilter)) &&
      (maxRepos >= 1 ==> |r| <= maxRepos) &&
      (|r| < SearchLimit(maxRepos) ==>
         forall h :: h in hits && PassesSearchFilters(h, publicFilter, archivedFilter) ==> HitKey(h) in HitKeys(r))
  {
    AcceptedProperties(hits, publicFilter, archivedFilter);
    var a := Accepted(hits, publicFilter, archivedFilter);
    if |a| > SearchLimit(maxRepos) {
      assert forall h :: h in a[..SearchLimit(maxRepos)] ==> h in a;
    }
  }

  /** Accepting along a longer prefix of the hits only appends. */
  lemma {:induction false} AcceptedGrows(hits: seq<CodeHit>, i: nat, j: nat, publicFilter: Option<bool>, archivedFilter: Option<bool>)
    requires i <= j <= |hits|
    ensures var a, b := Accepted(hits[..i], publicFilter, archivedFilter), Accepted(hits[..j], publicFilter, archivedFilter);
      |a| <= |b| && a == b[..|a|]
    decreases j - i
  {
    if i < j {
      AcceptedGrows(hits, i, j - 1, publicFilter, archivedFilter);
      assert hits[..j][..j - 1] == hits[..j - 1];
    }
  }

  /** One more hit: it is accepted exactly when it passes and its key is new. */
  lemma AcceptedStep(hits: seq<CodeHit>, i: nat, publicFilter: Option<bool>, archivedFilter: Option<bool>)
    requires i < |hits|
    ensures Accepted(hits[..i + 1], publicFilter, archivedFilter) ==
      AcceptOne(Accepted(hits[..i], publicFilter, archivedFilter), hits[i], publicFilter, archivedFilter)
  {
    assert hits[..i + 1][..i] == hits[..i];
  }

  lemma HitKeysAppend(hs: seq<CodeHit>, h: CodeHit)
    ensures HitKeys(hs + [h]) == HitKeys(hs) + {HitKey(h)}
  {
    assert forall x :: x in hs + [h] <==> x in hs || x == h;
  }

  /** Once `limit` repositories are accepted, the search result is what has been accepted. */
  lemma SearchStopsAtLimit(hits: seq<CodeHit>, i: nat, maxRepos: int, publicFilter: Option<bool>, archivedFilter: Option<bool>)
    requires i <= |hits|
    requires |Accepted(hits[..i], publicFilter, archivedFilter)| == SearchLimit(maxRepos)
    ensures SearchResult(hits, maxRepos, publicFilter, archivedFilter) == Accepted(hits[..i], publicFilter, archivedFilter)
  {
    AcceptedGrows(hits, i, |hits|, publicFilter, archivedFilter);
    assert hits[..|hits|] == hits;
  }

  /** Short of the limit, the search result is everything accepted. */
  lemma SearchBelowLimit(hits: seq<CodeHit>, maxRepos: int, publicFilter: Option<bool>, archivedFilter: Option<bool>)
    requires |Accepted(hits[..|hits|], publicFilter, archivedFilter)| < SearchLimit(maxRepos)
    ensures SearchResult(hits, maxRepos, publicFilter, archivedFilter) == Accepted(hits[..|hits|], publicFilter, archivedFilter)
  {
    assert hits[..|hits|] == hits;
  }

  /** A search ends with the result once the hits are exhausted or the limit is reached. */
  lemma SearchEnds(hits: seq<CodeHit>, i: nat, maxRepos: int, publicFilter: Option<bool>, archivedFilter: Option<bool>)
    requires i <= |hits|
    requires |Accepted(hits[..i], publicFilter, archivedFilter)| <= SearchLimit(maxRepos)
    requires i == |hits| || |Accepted(hits[..i], publicFilter, archivedFilter)| == SearchLimit(maxRepos)
    ensures SearchResult(hits, maxRepos, publicFilter, archivedFilter) == Accepted(hits[..i], publicFilter, archivedFilter)
  {
    if |Accepted(hits[..i], publicFilter, archivedFilter)| == SearchLimit(maxRepos) {
      SearchStopsAtLimit(hits, i, maxRepos, publicFilter, archivedFilter);
    } else {
      SearchBelowLimit(hits, maxRepos, publicFilter, archivedFilter);
    }
  }

  /** A repository object carrying a hit's data and fresh flags. */
  predicate Describes(r: Repository, h: CodeHit)
    reads r
  {
    r.owner == h.owner && r.name == h.name && r.sshUrl == h.sshUrl && r.defaultBranch == h.defaultBranch &&
    r.existingPr == None && !r.removed && !r.done
  }

  /** Each object describes the hit at its position. */
  predicate DescribesAll(rs: seq<Repository>, hs: seq<CodeHit>)
    reads rs
  {
    |rs| == |hs| && forall k :: 0 <= k < |rs| ==> Describes(rs[k], hs[k])
  }

  lemma DescribesAllAppend(rs: seq<Repository>, hs: seq<CodeHit>, r: Repository, h: CodeHit)
    requires DescribesAll(rs, hs) && Describes(r, h)
    ensures DescribesAll(rs + [r], hs + [h])
  {
  }

  /** One hit of the search: one whose key has not been seen and that passes the filters becomes
      a new repository object at the end of the result. */
  method TakeHit(repo: CodeHit, seenRepos: set<Key>, repositories: seq<Repository>, ghost accepted: seq<CodeHit>,
                 publicFilter: Option<bool>, archivedFilter: Option<bool>)
    returns (seenAfter: set<Key>, repositoriesAfter: seq<Repository>, taken: bool, ghost acceptedAfter: seq<CodeHit>)
    requires seenRepos == HitKeys(accepted) && DescribesAll(repositories, accepted)
    ensures taken <==> HitKey(repo) !in HitKeys(accepted) && PassesSearchFilters(repo, publicFilter, archivedFilter)
    ensures acceptedAfter == AcceptOne(accepted, repo, publicFilter, archivedFilter)
    ensures seenAfter == HitKeys(acceptedAfter) && DescribesAll(repositoriesAfter, acceptedAfter)
    ensures !taken ==> seenAfter == seenRepos && repositoriesAfter == repositories
    ensures taken ==>
      |repositoriesAfter| == |repositories| + 1 && repositoriesAfter[..|repositories|] == repositories &&
      fresh(repositoriesAfter[|repositories|])
    ensures forall r :: r in repositoriesAfter ==> r in repositories || fresh(r)
  {
    var repoKey := (repo.owner, repo.name);
    seenAfter, repositoriesAfter, taken, acceptedAfter := seenRepos, repositories, false, accepted;
    if repoKey !in seenRepos && PassesSearchFilters(repo, publicFilter, archivedFilter) {
      var repository := new Repository(repo.owner, repo.name, repo.sshUrl, repo.defaultBranch);
      DescribesAllAppend(repositories, accepted, repository, repo);
      HitKeysAppend(accepted, repo);
      seenAfter, repositoriesAfter, taken, acceptedAfter :=
        seenRepos + {repoKey}, repositories + [repository], true, accepted + [repo];
    }
  }

  /** `search_code_for_repositories` over the hits the forge returned. */
  method SearchCodeForRepositories(hits: seq<CodeHit>, maxRepos: int, publicFilter: Option<bool>, archivedFilter: Option<bool>)
    returns (repositories: seq<Repository>)
    ensures forall r :: r in repositories ==> fresh(r)
    ensures DescribesAll(repositories, SearchResult(hits, maxRepos, publicFilter, archivedFilter))
  {
    var seenRepos: set<Key> := {};
    repositories := [];
    ghost var accepted: seq<CodeHit> := [];
    var i := 0;
    while i < |hits|
      invariant 0 <= i <= |hits|
      invariant accepted == Accepted(hits[..i], publicFilter, archivedFilter)
      invariant seenRepos == HitKeys(accepted)
      invariant |accepted| < SearchLimit(maxRepos)
      invariant |repositories| == |accepted|
      invariant forall r :: r in repositories ==> fresh(r)
      invariant DescribesAll(repositories, accepted)
    {
      var repo := hits[i];
      AcceptedStep(hits, i, publicFilter, archivedFilter);
      i := i + 1;
      var taken;
      seenRepos, repositories, taken, accepted := TakeHit(repo, seenRepos, repositories, accepted, publicFilter, archivedFilter);
      if taken && |repositories| >= maxRepos {
        break;
      }
    }
    SearchEnds(hits, i, maxRepos, publicFilter, archivedFilter);
  }

  // ---------------------------------------------------------------------------------------
  // Grouping by owner and generating rules

  /** The repositories of one owner, in input order. */
  datatype OwnerGroup = OwnerGroup(owner: string, repositories: seq<Repository>)

  /** The distinct owners, in order of first appearance. */
  function Owners(repos: seq<Repository>): seq<string>
    decreases |repos|
  {
    if repos == [] then []
    else
      var prev := Owners(repos[..|repos| - 1]);
      var last := repos[|repos| - 1];
      if last.owner in prev then prev else prev + [last.owner]
  }

  /** Each owner is listed once, every repository's owner is listed, and only those. */
  lemma {:induction false} OwnersProperties(repos: seq<Repository>)
    ensures forall i, j :: 0 <= i < j < |Owners(repos)| ==> Owners(repos)[i] != Owners(repos)[j]
    ensures forall k :: 0 <= k < |repos| ==> repos[k].owner in Owners(repos)
    ensures forall o :: o in Owners(repos) ==> exists k :: 0 <= k < |repos| && repos[k].owner == o
    decreases |repos|
  {
    if repos != [] {
      var prefix := repos[..|repos| - 1];
      OwnersProperties(prefix);
      assert forall k :: 0 <= k < |prefix| ==> prefix[k] == repos[k];
    }
  }

  /** The owner of each repository, in input order. */
  function OwnerList(repos: seq<Repository>): seq<string>
  {
    seq(|repos|, k requires 0 <= k < |repos| => repos[k].owner)
  }

  /** The grouping dict's keys are the owners in order of first appearance, each once: they are
      `Distinct` of the owner list, so `DistinctFirstOrder` gives their order. */
  lemma {:induction false} OwnersInFirstAppearanceOrder(repos: seq<Repository>)
    ensures Owners(repos) == Distinct(OwnerList(repos))
    ensures var r := Owners(repos); var xs := OwnerList(repos);
      forall i, j, k :: 0 <= i < j < |r| && 0 <= k < |xs| && xs[k] == r[j] ==> r[i] in xs[..k]
    decreases |repos|
  {
    if repos != [] {
      var prefix := repos[..|repos| - 1];
      OwnersInFirstAppearanceOrder(prefix);
      assert OwnerList(repos)[..|repos| - 1] == OwnerList(prefix);
    }
    DistinctFirstOrder(OwnerList(repos));
  }

  /** The repositories of owner `o`, in order. */
  function OfOwner(repos: seq<Repository>, o: string): seq<Repository>
    decreases |repos|
  {
    if repos == [] then []
    else
      var prev := OfOwner(repos[..|repos| - 1], o);
      var last := repos[|repos| - 1];
      if last.owner == o then prev + [last] else prev
  }

  /** An owner's repositories are exactly the input's repositories with that owner. */
  lemma {:induction false} OfOwnerProperties(repos: seq<Repository>, o: string)
    ensures forall x :: x in OfOwner(repos, o) ==> x in repos && x.owner == o
    ensures forall k :: 0 <= k < |repos| && repos[k].owner == o ==> repos[k] in OfOwner(repos, o)
    decreases |repos|
  {
    if repos != [] {
      var prefix := repos[..|repos| - 1];
      OfOwnerProperties(prefix, o);
      assert repos == prefix + [repos[|repos| - 1]];
      assert forall k :: 0 <= k < |prefix| ==> prefix[k] == repos[k];
    }
  }

  /** An owner's repositories keep their input order. */
  lemma {:induction false} OfOwnerInOrder(repos: seq<Repository>, o: string)
    ensures IsSubsequence(OfOwner(repos, o), repos)
    decreases |repos|
  {
    if repos != [] {
      var prefix := repos[..|repos| - 1];
      OfOwnerInOrder(prefix, o);
      if repos[|repos| - 1].owner != o {
        SubsequenceOfPrefix(OfOwner(prefix, o), repos);
      }
    }
  }

  /** What grouping yields: one group per owner in order of first appearance, holding that
      owner's repositories in input order. */
  function Grouping(repos: seq<Repository>): (r: seq<OwnerGroup>)
    ensures |r| == |Owners(repos)|
    ensures forall j :: 0 <= j < |r| ==> r[j] == OwnerGroup(Owners(repos)[j], OfOwner(repos, Owners(repos)[j]))
  {
    var owners := Owners(repos);
    seq(|owners|, j requires 0 <= j < |owners| => OwnerGroup(owners[j], OfOwner(repos, owners[j])))
  }

  /** Where the group of `o` is, if there is one. */
  function GroupIndex(groups: seq<OwnerGroup>, o: string): (r: Option<nat>)
    ensures r.Some? ==> r.value < |groups| && groups[r.value].owner == o
    ensures r.None? ==> forall j :: 0 <= j < |groups| ==> groups[j].owner != o
  {
    if groups == [] then None
    else if groups[0].owner == o then Some(0)
    else
      match GroupIndex(groups[1..], o)
      case None => None
      case Some(i) => Some(i + 1)
  }

  lemma {:induction false} OfOwnerNone(repos: seq<Repository>, o: string)
    requires forall k :: 0 <= k < |repos| ==> repos[k].owner != o
    ensures OfOwner(repos, o) == []
    decreases |repos|
  {
    if repos != [] {
      OfOwnerNone(repos[..|repos| - 1], o);
    }
  }

  lemma OwnersAppend(repos: seq<Repository>, x: Repository)
    ensures Owners(repos + [x]) == if x.owner in Owners(repos) then Owners(repos) else Owners(repos) + [x.owner]
  {
    assert (repos + [x])[..|repos|] == repos;
  }

  lemma OfOwnerAppend(repos: seq<Repository>, x: Repository, o: string)
    ensures OfOwner(repos + [x], o) == OfOwner(repos, o) + if x.owner == o then [x] else []
  {
    assert (repos + [x])[..|repos|] == repos;
  }

  /** A repository of a new owner opens a group at the end. */
  lemma GroupingNewOwner(repos: seq<Repository>, x: Repository)
    requires x.owner !in Owners(repos)
    ensures Grouping(repos + [x]) == Grouping(repos) + [OwnerGroup(x.owner, [x])]
  {
    var g, g' := Grouping(repos), Grouping(repos + [x]);
    OwnersAppend(repos, x);
    OfOwnerAppend(repos, x, x.owner);
    OwnersProperties(repos);
    OfOwnerNone(repos, x.owner);
    forall j | 0 <= j < |g| ensures g'[j] == g[j] {
      OfOwnerAppend(repos, x, Owners(repos)[j]);
    }
  }

  /** A repository of a known owner joins that owner's group. */
  lemma GroupingKnownOwner(repos: seq<Repository>, x: Repository, j: nat)
    requires j < |Owners(repos)| && Owners(repos)[j] == x.owner
    ensures Grouping(repos + [x]) == Grouping(repos)[j := OwnerGroup(x.owner, Grouping(repos)[j].repositories + [x])]
  {
    var g, g' := Grouping(repos), Grouping(repos + [x]);
    OwnersAppend(repos, x);
    OwnersProperties(repos);
    forall i | 0 <= i < |g| ensures g'[i] == g[j := OwnerGroup(x.owner, g[j].repositories + [x])][i] {
      OfOwnerAppend(repos, x, Owners(repos)[i]);
    }
  }

  /** The groups after `x` joins its owner's group, or opens a new group at the end. */
  function Place(groups: seq<OwnerGroup>, x: Repository): seq<OwnerGroup> {
    match GroupIndex(groups, x.owner)
    case None => groups + [OwnerGroup(x.owner, [x])]
    case Some(j) => groups[j := OwnerGroup(x.owner, groups[j].repositories + [x])]
  }

  /** One more repository joins its owner's group, or opens a new group at the end. */
  lemma GroupingStep(repos: seq<Repository>, x: Repository)
    ensures Grouping(repos + [x]) == Place(Grouping(repos), x)
  {
    var g := Grouping(repos);
    match GroupIndex(g, x.owner)
    case None =>
      assert x.owner !in Owners(repos) by {
        forall j | 0 <= j < |Owners(repos)| ensures Owners(repos)[j] != x.owner {
          assert g[j].owner == Owners(repos)[j];
        }
      }
      GroupingNewOwner(repos, x);
    case Some(j) =>
      GroupingKnownOwner(repos, x, j);
  }

  /** `group_repositories_by_owner`. */
  method GroupByOwner(repositories: seq<Repository>) returns (grouped: seq<OwnerGroup>)
    ensures grouped == Grouping(repositories)
  {
    grouped := [];
    for i := 0 to |repositories|
      invariant grouped == Grouping(repositories[..i])
    {
      var repo := repositories[i];
      assert repositories[..i + 1] == repositories[..i] + [repo];
      GroupingStep(repositories[..i], repo);
      ghost var placed := Place(grouped, repo);
      var j := GroupIndex(grouped, repo.owner);
      if j.None? {
        grouped := grouped + [OwnerGroup(repo.owner, [])];
        assert grouped[|grouped| - 1].repositories + [repo] == [repo];
        j := Some(|grouped| - 1);
      }
      grouped := grouped[j.value := OwnerGroup(repo.owner, grouped[j.value].repositories + [repo])];
      assert grouped == placed;
    }
    assert repositories[..|repositories|] == repositories;
  }

  /** The total number of repositories in the groups. */
  function GroupedCount(groups: seq<OwnerGroup>): nat
    decreases |groups|
  {
    if groups == [] then 0 else GroupedCount(groups[..|groups| - 1]) + |groups[|groups| - 1].repositories|
  }

  lemma {:induction false} GroupedCountUpdate(groups: seq<OwnerGroup>, j: nat, g: OwnerGroup)
    requires j < |groups|
    ensures GroupedCount(groups[j := g]) == GroupedCount(groups) - |groups[j].repositories| + |g.repositories|
    decreases |groups|
  {
    var n := |groups| - 1;
    assert groups[j := g][..n] == if j < n then groups[..n][j := g] else groups[..n];
    if j < n {
      GroupedCountUpdate(groups[..n], j, g);
    }
  }

  lemma {:induction false} GroupedCountAppend(groups: seq<OwnerGroup>, g: OwnerGroup)
    ensures GroupedCount(groups + [g]) == GroupedCount(groups) + |g.repositories|
  {
    assert (groups + [g])[..|groups|] == groups;
  }

  /** The groups together hold as many repositories as the input. */
  lemma {:induction false} GroupingCount(repos: seq<Repository>)
    ensures GroupedCount(Grouping(repos)) == |repos|
    decreases |repos|
  {
    if repos != [] {
      var prefix, x := repos[..|repos| - 1], repos[|repos| - 1];
      assert repos == prefix + [x];
      GroupingCount(prefix);
      GroupingStep(prefix, x);
      match GroupIndex(Grouping(prefix), x.owner)
      case None =>
        GroupedCountAppend(Grouping(prefix), OwnerGroup(x.owner, [x]));
      case Some(j) =>
        GroupedCountUpdate(Grouping(prefix), j, OwnerGroup(x.owner, Grouping(prefix)[j].repositories + [x]));
    }
  }

  /** Every repository is in the group of its own owner, and owners have one group each. */
  lemma GroupingPlacement(repos: seq<Repository>, k: nat)
    requires k < |repos|
    ensures exists j ::
              0 <= j < |Grouping(repos)| && Grouping(repos)[j].owner == repos[k].owner &&
              repos[k] in Grouping(repos)[j].repositories
    ensures forall i, j :: 0 <= i < j < |Grouping(repos)| ==> Grouping(repos)[i].owner != Grouping(repos)[j].owner
  {
    var o := repos[k].owner;
    OwnersProperties(repos);
    OfOwnerProperties(repos, o);
    assert o in Owners(repos);
    var j :| 0 <= j < |Owners(repos)| && Owners(repos)[j] == o;
    assert repos[k] in OfOwner(repos, o);
    assert Grouping(repos)[j].owner == o;
  }

  /** The escaped names of a group's repositories, in order. */
  function EscapedNames(repos: seq<Repository>, esc: Escape): seq<string>
  {
    seq(|repos|, i requires 0 <= i < |repos| => esc(repos[i].name))
  }

  /** The add rule that selects exactly one group. */
  function GroupFilter(g: OwnerGroup, publicFilter: Option<bool>, archivedFilter: Option<bool>, esc: Escape): Filter
  {
    Filter(FilterModeAdd, publicFilter, archivedFilter, Some(EscapedNames(g.repositories, esc)), Some(esc(g.owner)))
  }

  /** One add rule per group, in group order. */
  function GroupFilters(groups: seq<OwnerGroup>, publicFilter: Option<bool>, archivedFilter: Option<bool>, esc: Escape): seq<Filter>
  {
    seq(|groups|, j requires 0 <= j < |groups| => GroupFilter(groups[j], publicFilter, archivedFilter, esc))
  }

  /** Decimal digits of a count. */
  function NatToString(n: nat): (r: string)
    ensures |r| >= 1 && forall i :: 0 <= i < |r| ==> '0' <= r[i] <= '9'
    ensures DigitsValue(r) == n
    decreases n
  {
    var d := ['0' + (n % 10) as char];
    if n < 10 then d
    else
      var r := NatToString(n / 10) + d;
      assert r[..|r| - 1] == NatToString(n / 10);
      r
  }

  /** The number a string of decimal digits denotes. */
  function DigitsValue(s: string): nat
    requires forall i :: 0 <= i < |s| ==> '0' <= s[i] <= '9'
    decreases |s|
  {
    if s == [] then 0 else DigitsValue(s[..|s| - 1]) * 10 + (s[|s| - 1] - '0') as nat
  }

  /** The comment written above generated rules. */
  function GeneratedComment(description: Option<string>, today: string, count: nat): string
  {
    (if description.Some? && description.value != "" then
       "Added by auto-pr search: " + description.value + " (" + today + ")"
     else
       "Added by auto-pr search (" + today + ")")
    + "\nFound " + NatToString(count) + " repositories"
  }

  /** `generate_filters_from_repositories`, with the date it stamps passed in as `today`. */
  method GenerateFilters(repositories: seq<Repository>, publicFilter: Option<bool>, archivedFilter: Option<bool>,
                         description: Option<string>, today: string, esc: Escape)
    returns (filters: seq<Filter>, comment: string)
    ensures repositories == [] ==> filters == [] && comment == ""
    ensures repositories != [] ==>
      filters == GroupFilters(Grouping(repositories), publicFilter, archivedFilter, esc) &&
      comment == GeneratedComment(description, today, |repositories|)
  {
    if |repositories| == 0 {
      return [], "";
    }
    var grouped := GroupByOwner(repositories);
    filters := [];
    for j := 0 to |grouped|
      invariant filters == GroupFilters(grouped[..j], publicFilter, archivedFilter, esc)
    {
      var repoNames := EscapedNames(grouped[j].repositories, esc);
      var filter := Filter(FilterModeAdd, publicFilter, archivedFilter, Some(repoNames), Some(esc(grouped[j].owner)));
      filters := filters + [filter];
    }
    assert grouped[..|grouped|] == grouped;
    comment := GeneratedComment(description, today, |repositories|);
  }

  /** A generated rule matches only a listed repository with the searched visibility. */
  lemma GeneratedFilterSound(repos: seq<Repository>, publicFilter: Option<bool>, archivedFilter: Option<bool>,
                             esc: Escape, fm: FullMatch, info: FilterInfo, j: nat)
    requires forall s, t :: fm(esc(s), t) <==> s == t
    requires j < |Grouping(repos)|
    requires FilterMatches(GroupFilter(Grouping(repos)[j], publicFilter, archivedFilter, esc), info, fm)
    ensures publicFilter.None? || info.public == publicFilter.value
    ensures archivedFilter.None? || info.archived == archivedFilter.value
    ensures exists k :: 0 <= k < |repos| && repos[k].owner == info.owner && repos[k].name == info.name
  {
    var g := Grouping(repos)[j];
    var names := EscapedNames(g.repositories, esc);
    var i :| 0 <= i < |names| && fm(names[i], info.name);
    var x := g.repositories[i];
    OfOwnerProperties(repos, g.owner);
    assert x in OfOwner(repos, g.owner);
    assert x.name == info.name;
    var k :| 0 <= k < |repos| && repos[k] == x;
  }

  /** A listed repository with the searched visibility is matched by its owner's rule. */
  lemma GeneratedFilterComplete(repos: seq<Repository>, publicFilter: Option<bool>, archivedFilter: Option<bool>,
                                esc: Escape, fm: FullMatch, info: FilterInfo, k: nat) returns (j: nat)
    requires forall s, t :: fm(esc(s), t) <==> s == t
    requires publicFilter.None? || info.public == publicFilter.value
    requires archivedFilter.None? || info.archived == archivedFilter.value
    requires k < |repos| && repos[k].owner == info.owner && repos[k].name == info.name
    ensures j < |Grouping(repos)| && Grouping(repos)[j].owner == info.owner
    ensures FilterMatches(GroupFilter(Grouping(repos)[j], publicFilter, archivedFilter, esc), info, fm)
  {
    var x := repos[k];
    OwnersProperties(repos);
    OfOwnerProperties(repos, x.owner);
    assert x.owner in Owners(repos);
    j :| 0 <= j < |Owners(repos)| && Owners(repos)[j] == x.owner;
    var members := OfOwner(repos, x.owner);
    assert x in members;
    var i :| 0 <= i < |members| && members[i] == x;
    assert Grouping(repos)[j].repositories == members;
    assert EscapedNames(members, esc)[i] == esc(x.name);
  }

  /** With an escape whose result fully matches exactly its argument, the generated rules match a
      repository exactly when it has the searched visibility and some listed repository has its
      owner and name. */
  lemma GeneratedFiltersMatchListed(repos: seq<Repository>, publicFilter: Option<bool>, archivedFilter: Option<bool>,
                                    esc: Escape, fm: FullMatch, info: FilterInfo)
    requires forall s, t :: fm(esc(s), t) <==> s == t
    ensures (exists j :: 0 <= j < |Grouping(repos)| &&
               FilterMatches(GroupFilters(Grouping(repos), publicFilter, archivedFilter, esc)[j], info, fm)) <==>
            (publicFilter.None? || info.public == publicFilter.value) &&
            (archivedFilter.None? || info.archived == archivedFilter.value) &&
            exists k :: 0 <= k < |repos| && repos[k].owner == info.owner && repos[k].name == info.name
  {
    var fs := GroupFilters(Grouping(repos), publicFilter, archivedFilter, esc);
    if exists j :: 0 <= j < |Grouping(repos)| && FilterMatches(fs[j], info, fm) {
      var j :| 0 <= j < |Grouping(repos)| && FilterMatches(fs[j], info, fm);
      GeneratedFilterSound(repos, publicFilter, archivedFilter, esc, fm, info, j);
    }
    if (publicFilter.None? || info.public == publicFilter.value) &&
       (archivedFilter.None? || info.archived == archivedFilter.value) &&
       exists k :: 0 <= k < |repos| && repos[k].owner == info.owner && repos[k].name == info.name
    {
      var k :| 0 <= k < |repos| && repos[k].owner == info.owner && repos[k].name == info.name;
      var j := GeneratedFilterComplete(repos, publicFilter, archivedFilter, esc, fm, info, k);
      assert FilterMatches(fs[j], info, fm);
    }
  }

  // ---------------------------------------------------------------------------------------
  // Closing or reopening an existing pull request

  /** What `set_pull_request_state` does: refuses without a recorded pull request, refuses a
      merged one, and otherwise edits its state. */
  function SetStateEffect(forge: ForgeReplies, t: seq<Call>, name: string, fullName: string,
                          existingPr: Option<int>, state: PullRequestState): (seq<Call>, Outcome)
  {
    if existingPr.None? then (t, Fail("No existing pull request for " + name))
    else
      var get := GetPullRequest(fullName, existingPr.value);
      match forge(t, get)
      case Failure(e) => (t + [get], Fail(e))
      case Success(pr) =>
        if pr.merged then (t + [get], Fail("Pull request already merged for " + name + " (" + pr.htmlUrl + ")"))
        else
          var edit := EditPullRequest(fullName, existingPr.value, state.Value());
          (t + [get, edit], if forge(t + [get], edit).Success? then Pass else Fail(forge(t + [get], edit).error))
  }

  /** A merged pull request is never edited, and nothing is asked without a recorded one. */
  lemma SetStateGuards(forge: ForgeReplies, t: seq<Call>, name: string, fullName: string,
                       existingPr: Option<int>, state: PullRequestState)
    ensures existingPr.None? ==> SetStateEffect(forge, t, name, fullName, existingPr, state).0 == t
    ensures var r := SetStateEffect(forge, t, name, fullName, existingPr, state);
      (exists n, s :: EditPullRequest(fullName, n, s) in r.0[|t|..]) ==>
        existingPr.Some? && forge(t, GetPullRequest(fullName, existingPr.value)).Success? &&
        !forge(t, GetPullRequest(fullName, existingPr.value)).value.merged
  {
  }

  method SetPullRequestState(env: Env, repository: Repository, state: PullRequestState) returns (o: Outcome)
    modifies env
    ensures (env.trace, o) ==
      SetStateEffect(env.forge, old(env.trace), repository.name, repository.FullName(), repository.existingPr, state)
  {
    if repository.existingPr.None? {
      return Fail("No existing pull request for " + repository.name);
    }
    var pullRequest := env.Ask(GetPullRequest(repository.FullName(), repository.existingPr.value));
    if pullRequest.Failure? {
      return Fail(pullRequest.error);
    }
    if pullRequest.value.merged {
      return Fail("Pull request already merged for " + repository.name + " (" + pullRequest.value.htmlUrl + ")");
    }
    ghost var asked := env.trace;
    var edit := EditPullRequest(repository.FullName(), repository.existingPr.value, state.Value());
    var edited := env.Ask(edit);
    o := if edited.Success? then Pass else Fail(edited.error);
    assert env.trace == old(env.trace) + [GetPullRequest(repository.FullName(), repository.existingPr.value), edit];
  }
}
