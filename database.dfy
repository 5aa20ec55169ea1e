/** The persisted repository table of autopr/database.py: one Repository object per known
    repository, whose progress flags the pipeline flips in place, and the Database that owns the
    ordered list of them together with the resolved git user. */
module Database {
  import opened Wrappers

  /** The git identity commits are attributed to. */
  datatype GitUser = GitUser(name: string, email: string)

  /** The identity of a repository: (owner, name). */
  type Key = (string, string)

  /** The `owner/name` spelling used for forge calls and for selecting repositories to reset. */
  function FullNameOf(owner: string, name: string): string
  {
    owner + "/" + name
  }

  /** The full name is the owner, a slash and the name, in that order. */
  lemma FullNameParts(owner: string, name: string)
    ensures var s := FullNameOf(owner, name);
      |s| == |owner| + 1 + |name| && s[..|owner|] == owner && s[|owner|] == '/' && s[|owner| + 1..] == name
  {
  }

  /** Owner names never contain a slash, so the full name determines owner and name. */
  lemma FullNameInjective(owner1: string, name1: string, owner2: string, name2: string)
    requires '/' !in owner1 && '/' !in owner2
    ensures FullNameOf(owner1, name1) == FullNameOf(owner2, name2) <==> owner1 == owner2 && name1 == name2
  {
    var s1, s2 := FullNameOf(owner1, name1), FullNameOf(owner2, name2);
    FullNameParts(owner1, name1);
    FullNameParts(owner2, name2);
    if s1 == s2 {
      if |owner1| != |owner2| {
        assert false;
      }
      assert owner1 == s1[..|owner1|] == owner2;
      assert name1 == s1[|owner1| + 1..] == name2;
    }
  }

  /** The value of one repository entry as a checkpoint writes it. */
  datatype RepositoryRecord = RepositoryRecord(
    owner: string,
    name: string,
    sshUrl: string,
    defaultBranch: string,
    existingPr: Option<int>,
    removed: bool,
    done: bool)

  /** The value of the whole table as a checkpoint writes it. */
  datatype DatabaseRecord = DatabaseRecord(user: Option<GitUser>, repositories: seq<RepositoryRecord>)

  function RecordKey(r: RepositoryRecord): Key { (r.owner, r.name) }

  function RecordKeys(xs: seq<RepositoryRecord>): set<Key> { set x | x in xs :: RecordKey(x) }

  ghost predicate UniqueRecordKeys(xs: seq<RepositoryRecord>) {
    forall i, j :: 0 <= i < j < |xs| ==> RecordKey(xs[i]) != RecordKey(xs[j])
  }

  /** A known repository. Identity and clone coordinates never change after creation; the pull
      request link and the two progress flags are updated in place by the pipeline. */
  class Repository {
    const owner: string
    const name: string
    const sshUrl: string
    const defaultBranch: string
    var existingPr: Option<int>
    /** set once discovery no longer reports the repository */
    var removed: bool
    /** set once the current cycle reached a terminal outcome for the repository */
    var done: bool

    constructor (owner: string, name: string, sshUrl: string, defaultBranch: string)
      ensures this.owner == owner && this.name == name
      ensures this.sshUrl == sshUrl && this.defaultBranch == defaultBranch
      ensures existingPr == None && !removed && !done
    {
      this.owner := owner;
      this.name := name;
      this.sshUrl := sshUrl;
      this.defaultBranch := defaultBranch;
      existingPr := None;
      removed := false;
      done := false;
    }

    function Key(): Key { (owner, name) }

    function FullName(): (r: string)
      ensures r == FullNameOf(owner, name)
    {
      FullNameOf(owner, name)
    }

    function Record(): (r: RepositoryRecord)
      reads this
      ensures RecordKey(r) == Key()
    {
      RepositoryRecord(owner, name, sshUrl, defaultBranch, existingPr, removed, done)
    }
  }

  /** The current values of a list of repository objects. */
  function Records(rs: seq<Repository>): (r: seq<RepositoryRecord>)
    reads rs
    ensures |r| == |rs| && forall i :: 0 <= i < |rs| ==> RecordKey(r[i]) == rs[i].Key()
  {
    seq(|rs|, i requires 0 <= i < |rs| reads rs => rs[i].Record())
  }

  function KeysOf(rs: seq<Repository>): set<Key> { set r | r in rs :: r.Key() }

  function FullNames(rs: seq<Repository>): set<string> { set r | r in rs :: r.FullName() }

  lemma RecordKeysOfRecords(rs: seq<Repository>)
    ensures RecordKeys(Records(rs)) == KeysOf(rs)
  {
    var recs := Records(rs);
    forall k | k in KeysOf(rs) ensures k in RecordKeys(recs) {
      var r :| r in rs && r.Key() == k;
      var i :| 0 <= i < |rs| && rs[i] == r;
      assert RecordKey(recs[i]) == k;
    }
  }

  // ---------------------------------------------------------------------------------------
  // The merge of a fresh discovery into the table, on values

  /** The repositories of `incoming`, in order, whose key is not in `known`. */
  function NewRecords(incoming: seq<RepositoryRecord>, known: set<Key>): seq<RepositoryRecord>
    decreases |incoming|
  {
    if incoming == [] then []
    else
      var prev := NewRecords(incoming[..|incoming| - 1], known);
      var last := incoming[|incoming| - 1];
      if RecordKey(last) !in known then prev + [last] else prev
  }

  /** The new records are exactly the incoming ones with an unknown key, and unique keys stay
      unique. */
  lemma {:induction false} NewRecordsProperties(incoming: seq<RepositoryRecord>, known: set<Key>)
    ensures forall x :: x in NewRecords(incoming, known) <==> x in incoming && RecordKey(x) !in known
    ensures UniqueRecordKeys(incoming) ==> UniqueRecordKeys(NewRecords(incoming, known))
    decreases |incoming|
  {
    if incoming != [] {
      var prefix := incoming[..|incoming| - 1];
      var last := incoming[|incoming| - 1];
      assert incoming == prefix + [last];
      NewRecordsProperties(prefix, known);
      var prev := NewRecords(prefix, known);
      assert forall x :: x in prev ==> x in prefix;
    }
  }

  /** The new records keep incoming order, and each one is appended as often as it is
      incoming: a discovery that repeats an unknown record appends it each time. */
  lemma {:induction false} NewRecordsInOrder(incoming: seq<RepositoryRecord>, known: set<Key>)
    ensures IsSubsequence(NewRecords(incoming, known), incoming)
    ensures forall x ::
      multiset(NewRecords(incoming, known))[x] == if RecordKey(x) !in known then multiset(incoming)[x] else 0
  {
    NewRecordsSubsequence(incoming, known);
    forall x ensures multiset(NewRecords(incoming, known))[x] == if RecordKey(x) !in known then multiset(incoming)[x] else 0 {
      NewRecordsCount(incoming, known, x);
    }
  }

  lemma {:induction false} NewRecordsSubsequence(incoming: seq<RepositoryRecord>, known: set<Key>)
    ensures IsSubsequence(NewRecords(incoming, known), incoming)
    decreases |incoming|
  {
    if incoming != [] {
      var prefix := incoming[..|incoming| - 1];
      var last := incoming[|incoming| - 1];
      var prev := NewRecords(prefix, known);
      NewRecordsSubsequence(prefix, known);
      if RecordKey(last) in known {
        SubsequenceOfPrefix(prev, incoming);
      } else {
        assert (prev + [last])[..|prev|] == prev;
      }
    }
  }

  lemma {:induction false} NewRecordsCount(incoming: seq<RepositoryRecord>, known: set<Key>, x: RepositoryRecord)
    ensures multiset(NewRecords(incoming, known))[x] == if RecordKey(x) !in known then multiset(incoming)[x] else 0
    decreases |incoming|
  {
    if incoming != [] {
      var prefix := incoming[..|incoming| - 1];
      var last := incoming[|incoming| - 1];
      assert incoming == prefix + [last];
      NewRecordsCount(prefix, known, x);
      assert multiset(incoming) == multiset(prefix) + multiset{last};
    }
  }

  /** Two lists with the same key at every position have the same key set. */
  lemma SameKeysPointwise(xs: seq<RepositoryRecord>, ys: seq<RepositoryRecord>)
    requires |xs| == |ys| && forall i :: 0 <= i < |xs| ==> RecordKey(xs[i]) == RecordKey(ys[i])
    ensures RecordKeys(xs) == RecordKeys(ys)
  {
    forall k | k in RecordKeys(xs) ensures k in RecordKeys(ys) {
      var x :| x in xs && RecordKey(x) == k;
      var i :| 0 <= i < |xs| && xs[i] == x;
      assert RecordKey(ys[i]) == k;
    }
    forall k | k in RecordKeys(ys) ensures k in RecordKeys(xs) {
      var y :| y in ys && RecordKey(y) == k;
      var i :| 0 <= i < |ys| && ys[i] == y;
      assert RecordKey(xs[i]) == k;
    }
  }

  /** Every repository whose key is not in `present` gets `removed` set; nothing else changes. */
  function MarkGone(xs: seq<RepositoryRecord>, present: set<Key>): (r: seq<RepositoryRecord>)
    ensures |r| == |xs|
    ensures forall i :: 0 <= i < |xs| ==> r[i].(removed := xs[i].removed) == xs[i]
    ensures forall i :: 0 <= i < |xs| ==> xs[i].removed ==> r[i].removed
    ensures forall i :: 0 <= i < |xs| ==> (r[i].removed != xs[i].removed <==> !xs[i].removed && RecordKey(xs[i]) !in present)
    ensures RecordKeys(r) == RecordKeys(xs)
  {
    var r := seq(|xs|, i requires 0 <= i < |xs| =>
      if RecordKey(xs[i]) in present then xs[i] else xs[i].(removed := true));
    SameKeysPointwise(r, xs);
    r
  }

  /** The table after merging the discovery `discovered` into `current`: unknown repositories are
      appended, then every repository the discovery did not report is marked removed. */
  function Merge(current: seq<RepositoryRecord>, discovered: seq<RepositoryRecord>): (r: seq<RepositoryRecord>)
    ensures |r| >= |current|
    ensures forall i :: 0 <= i < |current| ==>
      r[i] == current[i].(removed := current[i].removed || RecordKey(current[i]) !in RecordKeys(discovered))
    ensures r[|current|..] == NewRecords(discovered, RecordKeys(current))
  {
    var appended := NewRecords(discovered, RecordKeys(current));
    var r := MarkGone(current + appended, RecordKeys(discovered));
    NewRecordsProperties(discovered, RecordKeys(current));
    assert forall k :: 0 <= k < |appended| ==> appended[k] in discovered;
    assert r[|current|..] == appended;
    r
  }

  lemma MergeFromParts(current: seq<RepositoryRecord>, discovered: seq<RepositoryRecord>, appended: seq<RepositoryRecord>)
    requires appended == NewRecords(discovered, RecordKeys(current))
    ensures Merge(current, discovered) == MarkGone(current + appended, RecordKeys(discovered))
  {
  }

  /** Keys stay unique when both sides have unique keys. */
  lemma MergeKeepsKeysUnique(current: seq<RepositoryRecord>, discovered: seq<RepositoryRecord>)
    requires UniqueRecordKeys(current) && UniqueRecordKeys(discovered)
    ensures UniqueRecordKeys(Merge(current, discovered))
  {
    var r := Merge(current, discovered);
    var appended := NewRecords(discovered, RecordKeys(current));
    NewRecordsProperties(discovered, RecordKeys(current));
    forall i, j | 0 <= i < j < |r| ensures RecordKey(r[i]) != RecordKey(r[j]) {
      if j < |current| {
        assert RecordKey(r[i]) == RecordKey(current[i]) && RecordKey(r[j]) == RecordKey(current[j]);
      } else if i < |current| {
        assert r[j] == appended[j - |current|];
        assert r[j] in appended;
        assert RecordKey(r[i]) == RecordKey(current[i]) && current[i] in current;
      } else {
        assert r[i] == appended[i - |current|] && r[j] == appended[j - |current|];
      }
    }
  }

  /** Without unique keys in the discovery the merge can duplicate a key: the set of known keys
      is computed once, before the loop that appends. */
  lemma DuplicateDiscoveryIsAppendedTwice(x: RepositoryRecord)
    ensures Merge([], [x, x]) == [x, x]
    ensures !UniqueRecordKeys(Merge([], [x, x]))
  {
    var two := [x, x];
    var none := RecordKeys([]);
    assert none == {};
    assert two[..1] == [x];
    assert NewRecords([x], none) == [x] by {
      assert [x][..0] == [];
    }
    assert NewRecords(two, none) == [x, x];
    assert Merge([], two)[0..] == [x, x];
  }

  /** Nothing is appended when every incoming key is already known. */
  lemma {:induction false} NewRecordsOfKnown(incoming: seq<RepositoryRecord>, known: set<Key>)
    requires forall x :: x in incoming ==> RecordKey(x) in known
    ensures NewRecords(incoming, known) == []
    decreases |incoming|
  {
    if incoming != [] {
      var prefix := incoming[..|incoming| - 1];
      assert incoming == prefix + [incoming[|incoming| - 1]];
      NewRecordsOfKnown(prefix, known);
    }
  }

  /** Merging the same discovery twice changes nothing more. */
  lemma MergeIdempotent(current: seq<RepositoryRecord>, discovered: seq<RepositoryRecord>)
    ensures Merge(Merge(current, discovered), discovered) == Merge(current, discovered)
  {
    var m := Merge(current, discovered);
    var m2 := Merge(m, discovered);
    var again := NewRecords(discovered, RecordKeys(m));
    forall x | x in discovered ensures RecordKey(x) in RecordKeys(m) {
      if RecordKey(x) in RecordKeys(current) {
        var y :| y in current && RecordKey(y) == RecordKey(x);
        var i :| 0 <= i < |current| && current[i] == y;
        assert RecordKey(m[i]) == RecordKey(x);
      } else {
        var appended := NewRecords(discovered, RecordKeys(current));
        NewRecordsProperties(discovered, RecordKeys(current));
        assert x in appended;
        var k :| 0 <= k < |appended| && appended[k] == x;
        assert m[|current| + k] == x;
      }
    }
    NewRecordsOfKnown(discovered, RecordKeys(m));
    assert m2[|m|..] == [];
  }

  /** `removed` is never cleared by a merge (the record of a repository that is discovered again
      keeps it). */
  lemma RemovedIsSticky(current: seq<RepositoryRecord>, discovered: seq<RepositoryRecord>, i: nat)
    requires i < |current| && current[i].removed
    ensures Merge(current, discovered)[i].removed
  {
  }

  /** The keys after a merge are those of both sides. */
  lemma MergeKeys(current: seq<RepositoryRecord>, discovered: seq<RepositoryRecord>)
    ensures RecordKeys(Merge(current, discovered)) == RecordKeys(current) + RecordKeys(discovered)
  {
    MergeKeysWithin(current, discovered);
    MergeKeysCover(current, discovered);
  }

  lemma MergeKeysWithin(current: seq<RepositoryRecord>, discovered: seq<RepositoryRecord>)
    ensures RecordKeys(Merge(current, discovered)) <= RecordKeys(current) + RecordKeys(discovered)
  {
    var m := Merge(current, discovered);
    var appended := NewRecords(discovered, RecordKeys(current));
    NewRecordsProperties(discovered, RecordKeys(current));
    forall k | k in RecordKeys(m) ensures k in RecordKeys(current) + RecordKeys(discovered) {
      var x :| x in m && RecordKey(x) == k;
      var i :| 0 <= i < |m| && m[i] == x;
      if i < |current| {
        assert RecordKey(current[i]) == k;
      } else {
        assert m[i] == appended[i - |current|];
        assert x in appended;
      }
    }
  }

  lemma MergeKeysCover(current: seq<RepositoryRecord>, discovered: seq<RepositoryRecord>)
    ensures RecordKeys(current) + RecordKeys(discovered) <= RecordKeys(Merge(current, discovered))
  {
    var m := Merge(current, discovered);
    var appended := NewRecords(discovered, RecordKeys(current));
    NewRecordsProperties(discovered, RecordKeys(current));
    forall k | k in RecordKeys(current) + RecordKeys(discovered) ensures k in RecordKeys(m) {
      if k in RecordKeys(current) {
        var x :| x in current && RecordKey(x) == k;
        var i :| 0 <= i < |current| && current[i] == x;
        assert RecordKey(m[i]) == k;
      } else {
        var x :| x in discovered && RecordKey(x) == k;
        assert x in appended;
        var j :| 0 <= j < |appended| && appended[j] == x;
        assert m[|current| + j] == x;
      }
    }
  }

  // ---------------------------------------------------------------------------------------
  // Resetting the done flags, on values

  /** `done` cleared on exactly the repositories whose full name is in `names`. */
  function ResetSelected(xs: seq<RepositoryRecord>, names: set<string>): (r: seq<RepositoryRecord>)
    ensures |r| == |xs|
    ensures forall i :: 0 <= i < |xs| ==> r[i].(done := xs[i].done) == xs[i]
    ensures forall i :: 0 <= i < |xs| ==> r[i].done ==> xs[i].done
    ensures forall i :: 0 <= i < |xs| ==> (r[i].done != xs[i].done <==> xs[i].done && FullNameOf(xs[i].owner, xs[i].name) in names)
    ensures RecordKeys(r) == RecordKeys(xs)
  {
    var r := seq(|xs|, i requires 0 <= i < |xs| =>
      if FullNameOf(xs[i].owner, xs[i].name) in names then xs[i].(done := false) else xs[i]);
    SameKeysPointwise(r, xs);
    r
  }

  /** `done` cleared everywhere. */
  function ResetEverything(xs: seq<RepositoryRecord>): (r: seq<RepositoryRecord>)
    ensures |r| == |xs|
    ensures forall i :: 0 <= i < |xs| ==> r[i].(done := xs[i].done) == xs[i]
    ensures forall x :: x in r ==> !x.done
    ensures RecordKeys(r) == RecordKeys(xs)
  {
    var r := seq(|xs|, i requires 0 <= i < |xs| => xs[i].(done := false));
    SameKeysPointwise(r, xs);
    r
  }

  /** The names, in order, that are not in `known`. */
  function Unmatched(names: seq<string>, known: set<string>): (r: seq<string>)
    ensures forall n :: n in r <==> n in names && n !in known
    ensures IsSubsequence(r, names)
    decreases |names|
  {
    if names == [] then []
    else
      var prefix := names[..|names| - 1];
      var last := names[|names| - 1];
      assert names == prefix + [last];
      var prev := Unmatched(prefix, known);
      if last in known then SubsequenceOfPrefix(prev, names); prev else prev + [last]
  }

  /** `Unmatched` keeps the elements of a duplicate-free list apart. */
  lemma {:induction false} UnmatchedDistinct(names: seq<string>, known: set<string>)
    requires forall i, j :: 0 <= i < j < |names| ==> names[i] != names[j]
    ensures forall i, j :: 0 <= i < j < |Unmatched(names, known)| ==> Unmatched(names, known)[i] != Unmatched(names, known)[j]
    decreases |names|
  {
    if names != [] {
      var prefix := names[..|names| - 1];
      var last := names[|names| - 1];
      assert names == prefix + [last];
      UnmatchedDistinct(prefix, known);
      var prev := Unmatched(prefix, known);
      assert last !in prefix;
      if last !in known {
        var r := prev + [last];
        forall i, j | 0 <= i < j < |r| ensures r[i] != r[j] {
          if j == |prev| {
            assert r[i] == prev[i] && prev[i] in prev;
          } else {
            assert r[i] == prev[i] && r[j] == prev[j];
          }
        }
      }
    }
  }

  // ---------------------------------------------------------------------------------------
  // The table object

  /** The repositories, in order, that are neither removed nor done. */
  function PendingOf(rs: seq<Repository>): (r: seq<Repository>)
    reads rs
    ensures forall o :: o in r ==> o in rs
    ensures forall o :: o in rs ==> (o in r <==> !o.removed && !o.done)
    ensures forall o :: o in rs ==> multiset(r)[o] == if !o.removed && !o.done then multiset(rs)[o] else 0
    ensures IsSubsequence(r, rs)
    decreases |rs|
  {
    if rs == [] then []
    else
      var prefix := rs[..|rs| - 1];
      var last := rs[|rs| - 1];
      assert rs == prefix + [last];
      var prev := PendingOf(prefix);
      if !last.removed && !last.done then prev + [last]
      else SubsequenceOfPrefix(prev, rs); prev
  }

  /** The repositories appended by a merge: those of `incoming`, in order, whose key is not in
      `known`. The appended entries are the discovered objects themselves. */
  function NewRepositories(incoming: seq<Repository>, known: set<Key>): (r: seq<Repository>)
    ensures forall o :: o in r ==> o in incoming
    ensures forall o :: o in incoming ==> (o in r <==> o.Key() !in known)
    ensures (forall o :: o in incoming ==> o.Key() in known) ==> r == []
    decreases |incoming|
  {
    if incoming == [] then []
    else
      var prefix := incoming[..|incoming| - 1];
      var last := incoming[|incoming| - 1];
      assert incoming == prefix + [last];
      var prev := NewRepositories(prefix, known);
      if last.Key() !in known then prev + [last] else prev
  }

  /** The appended objects keep discovery order, and each one is appended as often as the
      discovery lists it. */
  lemma {:induction false} NewRepositoriesInOrder(incoming: seq<Repository>, known: set<Key>)
    ensures IsSubsequence(NewRepositories(incoming, known), incoming)
    ensures forall o :: o in incoming ==>
      multiset(NewRepositories(incoming, known))[o] == if o.Key() !in known then multiset(incoming)[o] else 0
    decreases |incoming|
  {
    if incoming != [] {
      var prefix := incoming[..|incoming| - 1];
      var last := incoming[|incoming| - 1];
      assert incoming == prefix + [last];
      var prev := NewRepositories(prefix, known);
      NewRepositoriesInOrder(prefix, known);
      assert multiset(incoming) == multiset(prefix) + multiset{last};
      if last.Key() in known {
        assert NewRepositories(incoming, known) == prev;
        SubsequenceOfPrefix(prev, incoming);
      } else {
        assert NewRepositories(incoming, known) == prev + [last];
        assert multiset(prev + [last]) == multiset(prev) + multiset{last};
        assert (prev + [last])[..|prev|] == prev;
      }
    }
  }

  /** One more incoming repository is appended exactly when its key is unknown. */
  lemma NewRepositoriesStep(incoming: seq<Repository>, i: nat, known: set<Key>)
    requires i < |incoming|
    ensures NewRepositories(incoming[..i + 1], known) ==
      NewRepositories(incoming[..i], known) + if incoming[i].Key() !in known then [incoming[i]] else []
  {
    assert incoming[..i + 1][..i] == incoming[..i];
  }

  lemma {:induction false} NewRepositoriesRecords(incoming: seq<Repository>, known: set<Key>)
    ensures Records(NewRepositories(incoming, known)) == NewRecords(Records(incoming), known)
    decreases |incoming|
  {
    if incoming != [] {
      var prefix := incoming[..|incoming| - 1];
      var last := incoming[|incoming| - 1];
      NewRepositoriesRecords(prefix, known);
      var recs := Records(incoming);
      assert recs[..|recs| - 1] == Records(prefix);
      assert recs[|recs| - 1] == last.Record();
      var prev := NewRepositories(prefix, known);
      if last.Key() !in known {
        assert Records(prev + [last]) == Records(prev) + [last.Record()];
      }
    }
  }

  lemma RecordsAppend(xs: seq<Repository>, ys: seq<Repository>)
    ensures Records(xs + ys) == Records(xs) + Records(ys)
  {
  }

  class Database {
    var user: Option<GitUser>
    var repositories: seq<Repository>

    constructor (user: Option<GitUser>, repositories: seq<Repository>)
      ensures this.user == user && this.repositories == repositories
    {
      this.user := user;
      this.repositories := repositories;
    }

    /** What a checkpoint of this table contains. */
    function Record(): DatabaseRecord
      reads this, repositories
    {
      DatabaseRecord(user, Records(repositories))
    }

    /** The repositories still to publish: not removed and not done, in table order. */
    function RepositoriesToProcess(): (r: seq<Repository>)
      reads this, repositories
      ensures forall o :: o in r ==> o in repositories
      ensures forall o :: o in repositories ==> (o in r <==> !o.removed && !o.done)
      ensures forall o :: o in repositories ==> multiset(r)[o] == if !o.removed && !o.done then multiset(repositories)[o] else 0
      ensures IsSubsequence(r, repositories)
    {
      PendingOf(repositories)
    }

    /** No git user has been resolved yet, i.e. discovery has never run. */
    function NeedsPulling(): (r: bool)
      reads this
      ensures r <==> user == None
    {
      user.None?
    }

    /** Merges a fresh discovery `from` into this table: takes its user, appends the repository
        objects whose key is new and marks every repository it does not report as removed. The
        discovery is a table object of its own. */
    method MergeInto(from: Database)
      requires from != this
      modifies this, repositories
      ensures user == old(from.user)
      ensures repositories == old(repositories) + NewRepositories(old(from.repositories), old(KeysOf(repositories)))
      ensures Records(repositories) == Merge(old(Records(repositories)), old(Records(from.repositories)))
      ensures forall o :: o in old(repositories) ==>
        o.done == old(o.done) && o.existingPr == old(o.existingPr) &&
        o.removed == (old(o.removed) || o.Key() !in old(KeysOf(from.repositories)))
    {
      ghost var before := repositories;
      ghost var current := Records(repositories);
      ghost var discovered := Records(from.repositories);
      RecordKeysOfRecords(repositories);
      RecordKeysOfRecords(from.repositories);
      NewRepositoriesRecords(from.repositories, KeysOf(repositories));
      ghost var appendedRecords := Records(NewRepositories(from.repositories, KeysOf(repositories)));

      user := from.user;

      // first append the discovered objects whose key the table lacks
      var existingRepos := KeysOf(repositories);
      var incoming := from.repositories;
      ghost var appended := NewRepositories(incoming, existingRepos);
      AppendUnknown(incoming, existingRepos);
      assert repositories == before + appended;
      RecordsAppend(before, appended);
      assert Records(before) == current;
      assert Records(appended) == appendedRecords;
      assert forall o :: o in repositories && o.Key() !in KeysOf(incoming) ==> o in before;

      // then flag every entry the discovery no longer reports
      var newRepos := KeysOf(from.repositories);
      MarkMissing(newRepos);
      MergeFromParts(current, discovered, appendedRecords);
    }

    /** The first half of a merge: the objects of `incoming` whose key is not `known`, appended in
        order. */
    method AppendUnknown(incoming: seq<Repository>, known: set<Key>)
      modifies this
      ensures user == old(user)
      ensures repositories == old(repositories) + NewRepositories(incoming, known)
    {
      for i := 0 to |incoming|
        invariant user == old(user)
        invariant repositories == old(repositories) + NewRepositories(incoming[..i], known)
      {
        NewRepositoriesStep(incoming, i, known);
        if incoming[i].Key() !in known {
          repositories := repositories + [incoming[i]];
        }
      }
      assert incoming[..|incoming|] == incoming;
    }

    /** The second half of a merge: every repository whose key is not in `present` is marked
        removed. */
    method MarkMissing(present: set<Key>)
      modifies set o | o in repositories && o.Key() !in present
      ensures forall o :: o in repositories ==>
        o.done == old(o.done) && o.existingPr == old(o.existingPr) &&
        o.removed == (old(o.removed) || o.Key() !in present)
      ensures Records(repositories) == MarkGone(old(Records(repositories)), present)
    {
      for j := 0 to |repositories|
        invariant forall o :: o in repositories ==>
          o.done == old(o.done) && o.existingPr == old(o.existingPr) &&
          o.removed == (old(o.removed) || (o.Key() !in present && o in repositories[..j]))
      {
        var repository := repositories[j];
        assert repositories[..j + 1] == repositories[..j] + [repository];
        if repository.Key() !in present {
          repository.removed := true;
        }
      }
      assert repositories[..|repositories|] == repositories;
    }

    /** Clears `done` on the repositories whose `owner/name` is selected, and returns the selected
        names no repository has, in first-selection order. */
    method ResetFrom(selected: seq<string>) returns (missing: seq<string>)
      modifies repositories
      ensures forall o :: o in repositories ==>
        o.done == (old(o.done) && o.FullName() !in selected) &&
        o.removed == old(o.removed) && o.existingPr == old(o.existingPr)
      ensures Records(repositories) == ResetSelected(old(Records(repositories)), set n | n in selected)
      ensures missing == Unmatched(Distinct(selected), FullNames(repositories))
      ensures forall n :: n in missing <==> n in selected && n !in FullNames(repositories)
      ensures forall i, j :: 0 <= i < j < |missing| ==> missing[i] != missing[j]
    {
      var names := Distinct(selected);
      var resets: map<string, bool> := map n | n in names :: false;
      assert forall n :: n in resets <==> n in selected;
      assert forall n :: n in resets ==> !resets[n];
      resets := ClearSelected(resets);
      ghost var known := FullNames(repositories);
      missing := Unclaimed(names, resets, known);
      UnmatchedDistinct(names, known);
      assert resets.Keys == set n | n in selected;
    }

    /** The first loop of a reset: clears `done` on every repository whose full name is a key of
        `resets`, and flags each key that some repository has. */
    method ClearSelected(resets: map<string, bool>) returns (found: map<string, bool>)
      modifies repositories
      ensures found.Keys == resets.Keys
      ensures forall n :: n in found ==> (found[n] <==> resets[n] || n in FullNames(repositories))
      ensures forall o :: o in repositories ==>
        o.done == (old(o.done) && o.FullName() !in resets) &&
        o.removed == old(o.removed) && o.existingPr == old(o.existingPr)
      ensures Records(repositories) == ResetSelected(old(Records(repositories)), resets.Keys)
    {
      found := resets;
      for j := 0 to |repositories|
        invariant found.Keys == resets.Keys
        invariant forall n :: n in found ==> (found[n] <==> resets[n] || n in FullNames(repositories[..j]))
        invariant forall o :: o in repositories ==>
          o.done == (old(o.done) && !(o in repositories[..j] && o.FullName() in resets)) &&
          o.removed == old(o.removed) && o.existingPr == old(o.existingPr)
      {
        var repository := repositories[j];
        assert repositories[..j + 1] == repositories[..j] + [repository];
        assert FullNames(repositories[..j + 1]) == FullNames(repositories[..j]) + {repository.FullName()};
        var repoId := FullNameOf(repository.owner, repository.name);
        if repoId in found {
          found := found[repoId := true];
          repository.done := false;
        }
      }
      assert repositories[..|repositories|] == repositories;
      forall k | 0 <= k < |repositories|
        ensures Records(repositories)[k] == ResetSelected(old(Records(repositories)), resets.Keys)[k]
      {
        assert repositories[k] in repositories;
      }
    }

    /** The second loop of a reset: the names, in order, whose flag stayed false. */
    method Unclaimed(names: seq<string>, found: map<string, bool>, ghost known: set<string>) returns (missing: seq<string>)
      requires forall n :: n in names ==> n in found && (found[n] <==> n in known)
      ensures missing == Unmatched(names, known)
    {
      missing := [];
      for k := 0 to |names|
        invariant missing == Unmatched(names[..k], known)
      {
        assert names[..k + 1][..k] == names[..k];
        if !found[names[k]] {
          missing := missing + [names[k]];
        }
      }
      assert names[..|names|] == names;
    }

    /** Clears `done` on every repository. */
    method ResetAll()
      modifies repositories
      ensures forall o :: o in repositories ==>
        !o.done && o.removed == old(o.removed) && o.existingPr == old(o.existingPr)
      ensures Records(repositories) == ResetEverything(old(Records(repositories)))
    {
      for i := 0 to |repositories|
        invariant forall o :: o in repositories ==>
          o.done == (old(o.done) && o !in repositories[..i]) &&
          o.removed == old(o.removed) && o.existingPr == old(o.existingPr)
      {
        assert repositories[..i + 1] == repositories[..i] + [repositories[i]];
        repositories[i].done := false;
      }
      assert repositories[..|repositories|] == repositories;
    }
  }
}
