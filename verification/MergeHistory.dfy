/** The recursive walk over guest merge history that finds every id a person's analytics were written under. */
module MergeHistory {

  /** One row of the merge history. */
  datatype Merge = Merge(source: string, target: string)

  /** A row of the recursive query: where the walk stands and where it has been. */
  datatype Visit = Visit(userId: string, visited: seq<string>)

  /** `path` runs backwards along merges from `root`: each next id was merged into the one before. */
  ghost predicate Backwards(history: seq<Merge>, root: string, path: seq<string>) {
    && path != [] && path[0] == root
    && forall j, k | 0 <= j < |path| && 0 <= k < |path| && k == j + 1 :: Merge(path[k], path[j]) in history
  }

  /** Some chain of merges leads from `id` to `root`. */
  ghost predicate LeadsTo(history: seq<Merge>, id: string, root: string) {
    exists path :: Backwards(history, root, path) && path[|path| - 1] == id
  }

  predicate Distinct(path: seq<string>) {
    forall i, j | 0 <= i < j < |path| :: path[i] != path[j]
  }

  ghost predicate Simple(history: seq<Merge>, root: string, path: seq<string>) {
    Backwards(history, root, path) && Distinct(path)
  }

  function VisitOf(path: seq<string>): Visit
    requires path != []
  {
    Visit(path[|path| - 1], path)
  }

  /** The recursive term of the query for one row: its unvisited predecessors. */
  function Expand(history: seq<Merge>, v: Visit): seq<Visit> {
    if history == [] then []
    else
      var before, last := Expand(history[..|history| - 1], v), history[|history| - 1];
      if last.target == v.userId && last.source !in v.visited
      then before + [Visit(last.source, v.visited + [last.source])]
      else before
  }

  function ExpandAll(history: seq<Merge>, work: seq<Visit>): seq<Visit> {
    if work == [] then [] else ExpandAll(history, work[..|work| - 1]) + Expand(history, work[|work| - 1])
  }

  lemma {:induction false} ExpandMeans(history: seq<Merge>, v: Visit, w: Visit)
    ensures w in Expand(history, v) <==>
            Merge(w.userId, v.userId) in history && w.userId !in v.visited && w.visited == v.visited + [w.userId]
  {
    if history != [] {
      var n := |history| - 1;
      ExpandMeans(history[..n], v, w);
      assert history == history[..n] + [history[n]];
    }
  }

  lemma {:induction false} ExpandAllMeans(history: seq<Merge>, work: seq<Visit>, w: Visit)
    ensures w in ExpandAll(history, work) <==> exists v :: v in work && w in Expand(history, v)
  {
    if work != [] {
      var n := |work| - 1;
      ExpandAllMeans(history, work[..n], w);
      assert work == work[..n] + [work[n]];
      if w in ExpandAll(history, work[..n]) {
        var v :| v in work[..n] && w in Expand(history, v);
        assert v in work;
      }
      assert work[n] in work;
    }
  }

  lemma PathExtends(history: seq<Merge>, root: string, path: seq<string>, next: string)
    requires path != []
    ensures Simple(history, root, path + [next]) <==>
            Simple(history, root, path) && Merge(next, path[|path| - 1]) in history && next !in path
  {
    var longer := path + [next];
    assert forall k | 0 <= k < |path| :: longer[k] == path[k];
    assert longer[|path|] == next;
    if Simple(history, root, longer) {
      assert Merge(longer[|path|], longer[|path| - 1]) in history;
    }
  }

  /** The rows of one round stand for the simple paths of one length. */
  ghost predicate Round(history: seq<Merge>, root: string, work: seq<Visit>, n: nat) {
    && (forall v | v in work :: |v.visited| == n && Simple(history, root, v.visited) && v == VisitOf(v.visited))
    && (forall path | |path| == n && Simple(history, root, path) :: VisitOf(path) in work)
  }

  lemma NextRound(history: seq<Merge>, root: string, work: seq<Visit>, n: nat)
    requires n > 0 && Round(history, root, work, n)
    ensures Round(history, root, ExpandAll(history, work), n + 1)
  {
    hide Simple, ExpandAll, Expand;
    var next := ExpandAll(history, work);
    forall w | w in next
      ensures |w.visited| == n + 1 && Simple(history, root, w.visited) && w == VisitOf(w.visited)
    {
      ExpandAllMeans(history, work, w);
      var v :| v in work && w in Expand(history, v);
      ExpandMeans(history, v, w);
      PathExtends(history, root, v.visited, w.userId);
    }
    forall path | |path| == n + 1 && Simple(history, root, path) ensures VisitOf(path) in next {
      var shorter, last := path[..n], path[n];
      assert path == shorter + [last];
      PathExtends(history, root, shorter, last);
      ExpandMeans(history, VisitOf(shorter), VisitOf(path));
      ExpandAllMeans(history, work, VisitOf(path));
    }
  }

  function Ids(history: seq<Merge>, root: string): set<string> {
    {root} + set m | m in history :: m.source
  }

  lemma {:induction false} DistinctFits(path: seq<string>, ids: set<string>)
    requires Distinct(path) && forall k | 0 <= k < |path| :: path[k] in ids
    ensures |path| <= |ids|
  {
    if path != [] {
      var n := |path| - 1;
      DistinctFits(path[..n], ids - {path[n]});
    }
  }

  /** Simple paths are no longer than the number of ids, so the walk ends even on cyclic histories. */
  lemma SimplePathFits(history: seq<Merge>, root: string, path: seq<string>)
    requires Simple(history, root, path)
    ensures |path| <= |Ids(history, root)|
  {
    forall k | 0 <= k < |path| ensures path[k] in Ids(history, root) {
      if k > 0 {
        var j := k - 1;
        assert Merge(path[k], path[j]) in history;
      }
    }
    DistinctFits(path, Ids(history, root));
  }

  /** Cutting the loop between two visits of one id. */
  lemma CutLoop(history: seq<Merge>, root: string, path: seq<string>, i: nat, j: nat)
    requires Backwards(history, root, path) && i < j < |path| && path[i] == path[j]
    ensures var cut := path[..i] + path[j..];
            Backwards(history, root, cut) && cut[|cut| - 1] == path[|path| - 1] && |cut| < |path|
  {
    var cut := path[..i] + path[j..];
    forall a, b | 0 <= a < |cut| && 0 <= b < |cut| && b == a + 1 ensures Merge(cut[b], cut[a]) in history {
      if b < i {
        assert Merge(path[b], path[a]) in history;
      } else if b == i {
        assert cut[b] == path[j] == path[i];
        assert Merge(path[i], path[a]) in history;
      } else {
        assert Merge(path[b - i + j], path[a - i + j]) in history;
      }
    }
  }

  /** Every chain can be walked without visiting an id twice. */
  lemma {:induction false} Shorten(history: seq<Merge>, root: string, path: seq<string>) returns (simple: seq<string>)
    requires Backwards(history, root, path)
    ensures Simple(history, root, simple) && simple[|simple| - 1] == path[|path| - 1]
    decreases |path|
  {
    if Distinct(path) {
      simple := path;
    } else {
      var i, j :| 0 <= i < j < |path| && path[i] == path[j];
      CutLoop(history, root, path, i, j);
      simple := Shorten(history, root, path[..i] + path[j..]);
    }
  }

  /** If no simple path has n ids, none has more. */
  lemma NoLongerPath(history: seq<Merge>, root: string, n: nat, path: seq<string>)
    requires n > 0 && (forall p | |p| == n :: !Simple(history, root, p))
    requires |path| >= n
    ensures !Simple(history, root, path)
  {
    if Simple(history, root, path) {
      var p := path[..n];
      forall j, k | 0 <= j < |p| && 0 <= k < |p| && k == j + 1 ensures Merge(p[k], p[j]) in history {
        assert Merge(path[k], path[j]) in history;
      }
      assert Simple(history, root, p);
    }
  }

  /** The query's evaluation, round by round; it terminates on every history and returns exactly the ids
      from which some merge chain leads to the account. */
  method LoadAnalyticsUserIdsForPerson(history: seq<Merge>, appUserId: string) returns (userIds: set<string>)
    ensures forall id :: id in userIds <==> LeadsTo(history, id, appUserId)
  {
    userIds := {appUserId};
    var work := [Visit(appUserId, [appUserId])];
    ghost var n := 1;
    FirstRound(history, appUserId);
    while work != []
      invariant n > 0 && Round(history, appUserId, work, n)
      invariant appUserId in userIds
      invariant forall path | Simple(history, appUserId, path) && |path| < n :: path[|path| - 1] in userIds
      invariant forall id | id in userIds :: LeadsTo(history, id, appUserId)
      decreases |Ids(history, appUserId)| + 1 - n
    {
      SimplePathFits(history, appUserId, work[0].visited);
      var found := set v | v in work :: v.userId;
      forall v | v in work ensures LeadsTo(history, v.userId, appUserId) {
        assert Backwards(history, appUserId, v.visited);
      }
      forall path | Simple(history, appUserId, path) && |path| < n + 1 ensures path[|path| - 1] in userIds + found {
        if |path| == n {
          assert VisitOf(path) in work;
        }
      }
      userIds := userIds + found;
      NextRound(history, appUserId, work, n);
      work := ExpandAll(history, work);
      n := n + 1;
    }
    forall id | LeadsTo(history, id, appUserId) ensures id in userIds {
      var path :| Backwards(history, appUserId, path) && path[|path| - 1] == id;
      var simple := Shorten(history, appUserId, path);
      if |simple| >= n {
        forall p | |p| == n ensures !Simple(history, appUserId, p) {
          assert VisitOf(p) !in work;
        }
        NoLongerPath(history, appUserId, n, simple);
      }
    }
  }

  lemma FirstRound(history: seq<Merge>, root: string)
    ensures Round(history, root, [Visit(root, [root])], 1)
    ensures LeadsTo(history, root, root)
  {
    assert Backwards(history, root, [root]);
    forall path | |path| == 1 && Simple(history, root, path) ensures VisitOf(path) in [Visit(root, [root])] {
      assert path == [root];
    }
  }
}
