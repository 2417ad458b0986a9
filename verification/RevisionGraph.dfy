/** The graph of migration revisions that `migration_head` builds, and what its report means.

    A graph maps every scanned revision to the set of its parents. Parents need not be scanned
    themselves. */
module RevisionGraph {
  import opened Sequences
  import opened Order

  type Graph = map<string, set<string>>

  /** The `revision` value of a file: one identifier or a tuple of them. */
  datatype RevisionValue = OneRevision(id: string) | ManyRevisions(ids: seq<string>)

  /** The `down_revision` value of a file. */
  datatype DownValue = NoDown | OneDown(id: string) | ManyDowns(ids: seq<string>)

  /** What the scan reads from one file. A file that cannot be parsed, or that assigns no
      revision, is skipped. */
  datatype ScannedFile = Skipped | Scanned(revision: RevisionValue, down: DownValue)

  datatype Report = Report(heads: seq<string>, count: nat, singleHead: bool, head: string)

  function Ids(f: ScannedFile): seq<string> {
    match f
    case Skipped => []
    case Scanned(OneRevision(id), _) => [id]
    case Scanned(ManyRevisions(ids), _) => ids
  }

  /** The parents a file names; an empty string counts as no parent. */
  function Parents(f: ScannedFile): set<string> {
    match f
    case Skipped => {}
    case Scanned(_, NoDown) => {}
    case Scanned(_, OneDown(id)) => if id == "" then {} else {id}
    case Scanned(_, ManyDowns(ids)) => Elements(ids)
  }

  /** The graph of the files read so far; a later file overwrites an earlier one. */
  function GraphOf(files: seq<ScannedFile>): Graph {
    if files == [] then map[]
    else
      var last := files[|files| - 1];
      Assign(GraphOf(files[..|files| - 1]), Ids(last), Parents(last))
  }

  function Assign(g: Graph, ids: seq<string>, downs: set<string>): Graph {
    g + map r | r in ids :: downs
  }

  lemma {:induction false} AssignSnoc(g: Graph, ids: seq<string>, id: string, downs: set<string>)
    ensures Assign(g, ids + [id], downs) == Assign(g, ids, downs)[id := downs]
  {
  }

  /** The scanned revisions that no scanned revision names as a parent. */
  function Heads(g: Graph): set<string> {
    set r | r in g && forall c :: c in g ==> r !in g[c]
  }

  function ReportOf(g: Graph): Report {
    var heads := SortedStrings(Heads(g));
    Report(heads, |g|, |heads| == 1, if |heads| == 1 then heads[0] else "")
  }

  // ---------------------------------------------------------------- the scan

  /** The revisions in `done` that name `d` as a parent. */
  function ChildrenIn(g: Graph, done: set<string>, d: string): set<string>
    requires done <= g.Keys
  {
    set c | c in done && d in g[c]
  }

  /** `children` is the inverse of the parent relation, as far as the revisions in `done` go:
      its keys are the named parents, and each lists every revision that names it, once. */
  ghost predicate InverseOf(children: map<string, seq<string>>, g: Graph, done: set<string>)
    requires done <= g.Keys
  {
    forall d ::
      && (d in children <==> ChildrenIn(g, done, d) != {})
      && (d in children ==> Distinct(children[d]) && Elements(children[d]) == ChildrenIn(g, done, d))
  }

  lemma {:induction false} NextFile(files: seq<ScannedFile>, i: nat)
    requires i < |files|
    ensures GraphOf(files[..i + 1]) == Assign(GraphOf(files[..i]), Ids(files[i]), Parents(files[i]))
  {
    assert files[..i + 1][..i] == files[..i] && files[..i + 1][i] == files[i];
  }

  lemma {:induction false} AppendThree(base: Graph, files: seq<ScannedFile>, f: ScannedFile, g: ScannedFile,
                                       h: ScannedFile, i: string, di: set<string>, j: string, dj: set<string>,
                                       k: string, dk: set<string>)
    requires GraphOf(files) == base && Ids(f) == [i] && Ids(g) == [j] && Ids(h) == [k]
    requires Parents(f) == di && Parents(g) == dj && Parents(h) == dk
    ensures GraphOf(files + [f] + [g] + [h]) == base[i := di][j := dj][k := dk]
  {
    AppendOne(files, f, i);
    AppendOne(files + [f], g, j);
    AppendOne(files + [f] + [g], h, k);
  }

  /** A file with one identifier sets that revision. */
  lemma {:induction false} AppendOne(files: seq<ScannedFile>, f: ScannedFile, id: string)
    requires Ids(f) == [id]
    ensures GraphOf(files + [f]) == GraphOf(files)[id := Parents(f)]
  {
  }

  /** What one more file does to the graph, for every kind of file: a skipped one nothing; any
      other sets each revision it lists, and no other, to the parents it names. */
  lemma {:induction false} OneMoreFile(files: seq<ScannedFile>, id: string, ids: seq<string>, down: string,
                                       downs: seq<string>, r: string)
    ensures GraphOf(files + [Skipped]) == GraphOf(files)
    ensures GraphOf(files + [Scanned(OneRevision(id), NoDown)]) == GraphOf(files)[id := {}]
    ensures GraphOf(files + [Scanned(OneRevision(id), OneDown(down))]) ==
            GraphOf(files)[id := if down == "" then {} else {down}]
    ensures GraphOf(files + [Scanned(OneRevision(id), ManyDowns(downs))]) == GraphOf(files)[id := set d | d in downs]
    ensures var g := GraphOf(files + [Scanned(ManyRevisions(ids), ManyDowns(downs))]);
            && (r in g <==> r in ids || r in GraphOf(files))
            && (r in g ==> g[r] == if r in ids then set d | d in downs else GraphOf(files)[r])
    ensures var g := GraphOf(files + [Scanned(ManyRevisions(ids), OneDown(down))]);
            && (r in g <==> r in ids || r in GraphOf(files))
            && (r in g ==> g[r] == if r in ids then (if down == "" then {} else {down}) else GraphOf(files)[r])
  {
    AppendOne(files, Scanned(OneRevision(id), NoDown), id);
    AppendOne(files, Scanned(OneRevision(id), OneDown(down)), id);
    AppendOne(files, Scanned(OneRevision(id), ManyDowns(downs)), id);
    AppendMany(files, Scanned(ManyRevisions(ids), ManyDowns(downs)), ids);
    AppendMany(files, Scanned(ManyRevisions(ids), OneDown(down)), ids);
    AppendMany(files, Skipped, []);
    assert GraphOf(files) + map[] == GraphOf(files);
  }

  lemma {:induction false} AppendMany(files: seq<ScannedFile>, f: ScannedFile, ids: seq<string>)
    requires Ids(f) == ids
    ensures GraphOf(files + [f]) == GraphOf(files) + map r | r in ids :: Parents(f)
  {
    var more := files + [f];
    assert more[..|more| - 1] == files && more[|more| - 1] == f;
  }

  method ScanVersions(files: seq<ScannedFile>) returns (versions: Graph)
    ensures versions == GraphOf(files)
  {
    versions := map[];
    for i := 0 to |files|
      invariant versions == GraphOf(files[..i])
    {
      NextFile(files, i);
      var ids, downs := Ids(files[i]), Parents(files[i]);
      ghost var before := versions;
      for k := 0 to |ids|
        invariant versions == Assign(before, ids[..k], downs)
      {
        AssignSnoc(before, ids[..k], ids[k], downs);
        assert ids[..k + 1] == ids[..k] + [ids[k]];
        versions := versions[ids[k] := downs];
      }
      assert ids[..|ids|] == ids;
      assert versions == Assign(before, ids, downs);
    }
    assert files[..|files|] == files;
  }

  /** The nested loop over the revisions and their parents, in any order. */
  method BuildChildren(g: Graph) returns (children: map<string, seq<string>>)
    ensures InverseOf(children, g, g.Keys)
  {
    children := map[];
    var left := g.Keys;
    while left != {}
      invariant left <= g.Keys
      invariant InverseOf(children, g, g.Keys - left)
    {
      var revision :| revision in left;
      var downs := g[revision];
      ghost var before := children;
      ghost var done := g.Keys - left;
      while downs != {}
        invariant downs <= g[revision]
        invariant forall d :: d in g[revision] - downs ==>
                    d in children && children[d] == (if d in before then before[d] else []) + [revision]
        invariant forall d :: d !in g[revision] - downs ==>
                    (d in children <==> d in before) && (d in before ==> children[d] == before[d])
      {
        var down :| down in downs;
        children := children[down := (if down in children then children[down] else []) + [revision]];
        downs := downs - {down};
      }
      OneMoreRevision(before, children, g, done, revision);
      left := left - {revision};
      assert g.Keys - left == done + {revision};
    }
    assert g.Keys - left == g.Keys;
  }

  lemma {:induction false} OneMoreRevision(before: map<string, seq<string>>, after: map<string, seq<string>>,
                                           g: Graph, done: set<string>, r: string)
    requires done <= g.Keys && r in g && r !in done && InverseOf(before, g, done)
    requires forall d :: d in g[r] ==> d in after && after[d] == (if d in before then before[d] else []) + [r]
    requires forall d :: d !in g[r] ==> (d in after <==> d in before) && (d in before ==> after[d] == before[d])
    ensures InverseOf(after, g, done + {r})
  {
    forall d
      ensures d in after <==> ChildrenIn(g, done + {r}, d) != {}
      ensures d in after ==> Distinct(after[d]) && Elements(after[d]) == ChildrenIn(g, done + {r}, d)
    {
      assert d in before <==> ChildrenIn(g, done, d) != {};
      if d in g[r] {
        assert ChildrenIn(g, done + {r}, d) == ChildrenIn(g, done, d) + {r};
        var earlier := if d in before then before[d] else [];
        assert Elements(earlier) == ChildrenIn(g, done, d) && r !in Elements(earlier);
        assert Elements(earlier + [r]) == Elements(earlier) + {r};
      } else {
        assert ChildrenIn(g, done + {r}, d) == ChildrenIn(g, done, d);
      }
    }
  }

  lemma {:induction false} HeadsHaveNoChildren(children: map<string, seq<string>>, g: Graph)
    requires InverseOf(children, g, g.Keys)
    ensures Heads(g) == set r | r in g && !(r in children && children[r] != [])
  {
    forall r | r in g
      ensures r in Heads(g) <==> !(r in children && children[r] != [])
    {
      assert r in children <==> ChildrenIn(g, g.Keys, r) != {};
      if r in children {
        assert Elements(children[r]) != {};
      }
      assert forall c :: c in g ==> (c in ChildrenIn(g, g.Keys, r) <==> r in g[c]);
    }
  }

  /** `migration_head`: the report is a function of the graph alone, and lists the heads in
      ascending order, each once. */
  method MigrationHead(files: seq<ScannedFile>) returns (report: Report)
    ensures report == ReportOf(GraphOf(files))
    ensures Ascending(report.heads, StringLess) && Elements(report.heads) == Heads(GraphOf(files))
  {
    var versions := ScanVersions(files);
    var children := BuildChildren(versions);
    var heads := SortedStrings(set r | r in versions && !(r in children && children[r] != []));
    HeadsHaveNoChildren(children, versions);
    report := Report(heads, |versions|, |heads| == 1, if |heads| == 1 then heads[0] else "");
  }

  // ---------------------------------------------------------------- reachability

  /** Each node of the path is a scanned revision and names the one before it as a parent. */
  ghost predicate IsPath(g: Graph, p: seq<string>) {
    && p != []
    && (forall i :: 0 <= i < |p| ==> p[i] in g)
    && (forall i :: 0 <= i < |p| - 1 ==> p[i] in g[p[i + 1]])
  }

  ghost predicate Joins(g: Graph, p: seq<string>, a: string, b: string) {
    IsPath(g, p) && p[0] == a && p[|p| - 1] == b
  }

  /** `a` is `b` or an ancestor of `b`. */
  ghost predicate Reaches(g: Graph, a: string, b: string) {
    exists p :: Joins(g, p, a, b)
  }

  ghost predicate OnCycle(g: Graph, r: string) {
    exists p :: Joins(g, p, r, r) && |p| > 1
  }

  ghost predicate Acyclic(g: Graph) {
    forall r :: r in g ==> !OnCycle(g, r)
  }

  ghost predicate ReachesHead(g: Graph, r: string) {
    exists h :: h in Heads(g) && Reaches(g, r, h)
  }

  lemma {:induction false} ReachesTransitive(g: Graph, a: string, b: string, c: string)
    requires Reaches(g, a, b) && Reaches(g, b, c)
    ensures Reaches(g, a, c)
  {
    var p :| Joins(g, p, a, b);
    var q :| Joins(g, q, b, c);
    var joined := p + q[1..];
    forall i | 0 <= i < |joined| - 1
      ensures joined[i] in g[joined[i + 1]]
    {
      if i >= |p| - 1 {
        assert joined[i] == q[i - |p| + 1] && joined[i + 1] == q[i - |p| + 2];
      }
    }
    assert Joins(g, joined, a, c);
  }

  lemma {:induction false} Pigeonhole(s: seq<string>, holes: set<string>)
    requires Elements(s) <= holes && |s| > |holes|
    ensures !Distinct(s)
    decreases |s|
  {
    var last := s[|s| - 1];
    var init := s[..|s| - 1];
    assert last in Elements(s);
    if last in init {
      var i :| 0 <= i < |init| && init[i] == last;
      assert s[i] == s[|s| - 1];
    } else {
      forall x | x in Elements(init)
        ensures x in holes - {last}
      {
        assert x in Elements(s);
      }
      Pigeonhole(init, holes - {last});
      assert forall i :: 0 <= i < |init| ==> s[i] == init[i];
    }
  }

  lemma {:induction false} PartOfPath(g: Graph, p: seq<string>, i: nat, j: nat)
    requires IsPath(g, p) && i <= j < |p|
    ensures Joins(g, p[i..j + 1], p[i], p[j]) && p[i] in g
  {
    var part := p[i..j + 1];
    assert forall k :: 0 <= k < |part| ==> part[k] == p[i + k];
    forall k | 0 <= k < |part| - 1
      ensures part[k] in g[part[k + 1]]
    {
      assert p[i + k] in g[p[i + k + 1]];
    }
  }

  /** Following children from any revision ends at a head or runs into a cycle. */
  lemma {:induction false} HeadOrCycle(g: Graph, r: string)
    requires r in g
    ensures ReachesHead(g, r) || exists c :: c in g && Reaches(g, r, c) && OnCycle(g, c)
  {
    var p := [r];
    while p[|p| - 1] !in Heads(g) && |p| <= |g|
      invariant IsPath(g, p) && p[0] == r
      decreases |g| + 1 - |p|
    {
      var child :| child in g && p[|p| - 1] in g[child];
      p := p + [child];
    }
    if p[|p| - 1] in Heads(g) {
      assert Joins(g, p, r, p[|p| - 1]);
    } else {
      assert |g.Keys| == |g|;
      Pigeonhole(p, g.Keys);
      var i, j :| 0 <= i < j < |p| && p[i] == p[j];
      PartOfPath(g, p, 0, i);
      PartOfPath(g, p, i, j);
    }
  }

  /** No cycle is a trap: from every revision on a cycle, some descendant does not lead back. */
  ghost predicate NoTrap(g: Graph) {
    forall c :: c in g && OnCycle(g, c) ==> CanLeave(g, c)
  }

  ghost predicate CanLeave(g: Graph, c: string) {
    exists d :: Reaches(g, c, d) && !Reaches(g, d, c)
  }

  /** The revision and its descendants. */
  ghost function Descendants(g: Graph, r: string): set<string> {
    set x | x in g && Reaches(g, r, x)
  }

  lemma {:induction false} LeavingMeansNotHead(g: Graph, p: seq<string>, a: string, b: string)
    requires Joins(g, p, a, b) && |p| > 1
    ensures a !in Heads(g)
  {
    assert p[1] in g && p[0] in g[p[1]];
  }

  /** Leaving cycles for good shrinks the set of descendants until a head is reached. */
  lemma {:induction false} NoTrapReachesHead(g: Graph, r: string)
    requires NoTrap(g) && r in g
    ensures ReachesHead(g, r)
    decreases |Descendants(g, r)|
  {
    HeadOrCycle(g, r);
    if !ReachesHead(g, r) {
      var c :| c in g && Reaches(g, r, c) && OnCycle(g, c);
      assert CanLeave(g, c);
      var d :| Reaches(g, c, d) && !Reaches(g, d, c);
      ReachesTransitive(g, r, c, d);
      FewerDescendants(g, r, c, d);
      NoTrapReachesHead(g, d);
      var h :| h in Heads(g) && Reaches(g, d, h);
      ReachesTransitive(g, r, d, h);
    }
  }

  lemma {:induction false} FewerDescendants(g: Graph, r: string, c: string, d: string)
    requires Reaches(g, r, c) && Reaches(g, r, d) && !Reaches(g, d, c)
    ensures d in g && |Descendants(g, d)| < |Descendants(g, r)|
  {
    var p :| Joins(g, p, r, c);
    var q :| Joins(g, q, r, d);
    assert p[|p| - 1] in g && q[|q| - 1] in g;
    forall x | x in Descendants(g, d)
      ensures x in Descendants(g, r) - {c}
    {
      ReachesTransitive(g, r, d, x);
    }
    SubsetIsSmaller(Descendants(g, d), Descendants(g, r) - {c});
  }

  lemma {:induction false} HeadIsLast(g: Graph, h: string, c: string)
    requires h in Heads(g) && Reaches(g, h, c)
    ensures h == c
  {
    var p :| Joins(g, p, h, c);
    if |p| > 1 {
      LeavingMeansNotHead(g, p, h, c);
    }
  }

  lemma {:induction false} CyclesThatReachHeads(g: Graph, c: string)
    requires OnCycle(g, c) && ReachesHead(g, c)
    ensures CanLeave(g, c)
  {
    var cycle :| Joins(g, cycle, c, c) && |cycle| > 1;
    LeavingMeansNotHead(g, cycle, c, c);
    var h :| h in Heads(g) && Reaches(g, c, h);
    if Reaches(g, h, c) {
      HeadIsLast(g, h, c);
    }
  }

  /** Every scanned revision reaches some head if and only if no cycle is a trap. */
  lemma {:induction false} AllReachHeadIff(g: Graph)
    ensures (forall r :: r in g ==> ReachesHead(g, r)) <==> NoTrap(g)
  {
    if NoTrap(g) {
      forall r | r in g
        ensures ReachesHead(g, r)
      {
        NoTrapReachesHead(g, r);
      }
    }
    if forall r :: r in g ==> ReachesHead(g, r) {
      forall c | c in g && OnCycle(g, c)
        ensures CanLeave(g, c)
      {
        CyclesThatReachHeads(g, c);
      }
    }
  }

  /** In an acyclic graph every revision reaches a head, so a nonempty acyclic graph has one. */
  lemma {:induction false} AcyclicReachesHead(g: Graph)
    requires Acyclic(g)
    ensures forall r :: r in g ==> ReachesHead(g, r)
    ensures g.Keys != {} ==> Heads(g) != {}
  {
    AllReachHeadIff(g);
    if r :| r in g.Keys {
      assert ReachesHead(g, r);
    }
  }

  /** No head on a nonempty scan proves that there is a cycle. */
  lemma {:induction false} NoHeadMeansCycle(g: Graph)
    requires g.Keys != {} && Heads(g) == {}
    ensures exists c :: c in g && OnCycle(g, c)
  {
    if Acyclic(g) {
      AcyclicReachesHead(g);
    }
  }

  lemma {:induction false} SingleHeadMeans(g: Graph)
    ensures ReportOf(g).singleHead <==> exists h :: Heads(g) == {h}
    ensures ReportOf(g).singleHead ==> Heads(g) == {ReportOf(g).head}
  {
  }

  /** What a single head promises: every scanned revision is the head or one of its ancestors if
      and only if no cycle is a trap, so on every acyclic graph. */
  lemma {:induction false} SingleHeadIff(g: Graph)
    requires ReportOf(g).singleHead
    ensures (forall r :: r in g ==> Reaches(g, r, ReportOf(g).head)) <==> NoTrap(g)
    ensures Acyclic(g) ==> forall r :: r in g ==> Reaches(g, r, ReportOf(g).head)
  {
    SingleHeadMeans(g);
    AllReachHeadIff(g);
    var head := ReportOf(g).head;
    forall r
      ensures ReachesHead(g, r) <==> Reaches(g, r, head)
    {
      assert head in Heads(g);
    }
  }

  /** A revision that another one reaches has parents. */
  lemma {:induction false} ReachedHasParents(g: Graph, a: string, b: string)
    requires Reaches(g, a, b) && a != b
    ensures b in g && g[b] != {}
  {
    var p :| Joins(g, p, a, b);
    assert p[|p| - 2] in g[p[|p| - 1]];
  }

  /** A single head alone is not enough: of these three files, "a" is the only head, and "b" and
      "c", which name each other as parents, do not reach it. */
  lemma {:induction false} SingleHeadWithStrayCycle(a: string, b: string, c: string)
    requires a != b && b != c && c != a && b != "" && c != ""
    ensures var files := [Scanned(OneRevision(a), NoDown), Scanned(OneRevision(b), OneDown(c)),
                          Scanned(OneRevision(c), OneDown(b))];
            var g := GraphOf(files);
            && ReportOf(g) == Report([a], 3, true, a)
            && !Reaches(g, b, a) && !Reaches(g, c, a)
  {
    var f1, f2, f3 :=
      Scanned(OneRevision(a), NoDown), Scanned(OneRevision(b), OneDown(c)), Scanned(OneRevision(c), OneDown(b));
    AppendThree(map[], [], f1, f2, f3, a, {}, b, {c}, c, {b});
    var g := GraphOf([f1, f2, f3]);
    assert [] + [f1] + [f2] + [f3] == [f1, f2, f3];
    assert g == map[a := {}, b := {c}, c := {b}];
    HeadOfThree(g, a, b, c);
    if Reaches(g, b, a) {
      ReachedHasParents(g, b, a);
    }
    if Reaches(g, c, a) {
      ReachedHasParents(g, c, a);
    }
  }

  lemma {:induction false} HeadOfThree(g: Graph, a: string, b: string, c: string)
    requires a != b && b != c && c != a && g == map[a := {}, b := {c}, c := {b}]
    ensures ReportOf(g) == Report([a], 3, true, a)
  {
    assert g.Keys == {a, b, c} && |g.Keys| == |g|;
    assert b in g[c] && c in g[b];
    assert Heads(g) == {a};
    OneSorted(a);
  }

  lemma {:induction false} OneSorted(a: string)
    ensures SortedStrings({a}) == [a]
  {
    assert SortedStrings({a})[0] in Elements(SortedStrings({a}));
  }

  // ---------------------------------------------------------------- growing the graph

  /** `r` is new to the graph: neither scanned nor named as a parent. */
  ghost predicate Fresh(g: Graph, r: string) {
    r !in g && forall c :: c in g ==> r !in g[c]
  }

  /** A new revision replaces its parents among the heads, and closes no cycle. */
  lemma {:induction false} AddRevision(g: Graph, r: string, downs: set<string>)
    requires Fresh(g, r) && r !in downs
    ensures Heads(g[r := downs]) == (Heads(g) - downs) + {r}
    ensures Acyclic(g) ==> Acyclic(g[r := downs])
  {
    var grown := g[r := downs];
    forall x
      ensures x in Heads(grown) <==> x in (Heads(g) - downs) + {r}
    {
      if x in g {
        assert (forall c :: c in grown ==> x !in grown[c]) <==> (forall c :: c in g ==> x !in g[c]) && x !in downs by {
          assert grown[r] == downs && forall c :: c in g ==> grown[c] == g[c];
        }
      }
    }
    if Acyclic(g) {
      forall x | x in grown
        ensures !OnCycle(grown, x)
      {
        if p :| Joins(grown, p, x, x) && |p| > 1 {
          OldCycle(g, r, downs, p, x);
        }
      }
    }
  }

  /** A cycle of the grown graph avoids the new revision. */
  lemma {:induction false} OldCycle(g: Graph, r: string, downs: set<string>, p: seq<string>, x: string)
    requires Fresh(g, r) && r !in downs && Joins(g[r := downs], p, x, x) && |p| > 1
    ensures x in g && OnCycle(g, x)
  {
    var grown := g[r := downs];
    forall i | 0 <= i < |p|
      ensures p[i] != r
    {
      assert p[0] in grown[p[1]];
      if i < |p| - 1 {
        assert p[i] in grown[p[i + 1]];
      }
    }
    assert Joins(g, p, x, x);
  }

  /** The graph in which each revision names the one before it. */
  function Line(ids: seq<string>): Graph {
    if ids == [] then map[]
    else
      var init := ids[..|ids| - 1];
      Line(init)[ids[|ids| - 1] := if init == [] then {} else {init[|init| - 1]}]
  }

  lemma {:induction false} LineIsFresh(ids: seq<string>, r: string)
    requires r !in ids
    ensures Fresh(Line(ids), r)
  {
    if ids != [] {
      LineIsFresh(ids[..|ids| - 1], r);
    }
  }

  /** A linear history of any length has its last revision as its only head, and no cycle. */
  lemma {:induction false} LineHasOneHead(ids: seq<string>)
    requires ids != [] && Distinct(ids)
    ensures Heads(Line(ids)) == {ids[|ids| - 1]} && Acyclic(Line(ids))
  {
    var init, last := ids[..|ids| - 1], ids[|ids| - 1];
    LineIsFresh(init, last);
    if init == [] {
      assert Line(init) == map[] && Heads(map[]) == {};
      AddRevision(map[], last, {});
    } else {
      LineHasOneHead(init);
      AddRevision(Line(init), last, {init[|init| - 1]});
    }
  }

  /** A merge revision that names every head as a parent leaves itself as the only head. */
  lemma {:induction false} MergeRestoresOneHead(g: Graph, r: string, downs: set<string>)
    requires Fresh(g, r) && r !in downs && Heads(g) <= downs
    ensures Heads(g[r := downs]) == {r}
    ensures ReportOf(g[r := downs]).singleHead && ReportOf(g[r := downs]).head == r
  {
    AddRevision(g, r, downs);
    SingleHeadMeans(g[r := downs]);
  }

  /** When every parent's identifier sorts before its child's, there is no cycle. */
  lemma {:induction false} AscendingNamesAcyclic(g: Graph)
    requires forall c, d :: c in g && d in g[c] ==> StringLess(d, c)
    ensures Acyclic(g)
  {
    forall r | r in g
      ensures !OnCycle(g, r)
    {
      if p :| Joins(g, p, r, r) && |p| > 1 {
        AscendingAlongPath(g, p);
        StringLessTotal(r, r);
      }
    }
  }

  lemma {:induction false} AscendingAlongPath(g: Graph, p: seq<string>)
    requires forall c, d :: c in g && d in g[c] ==> StringLess(d, c)
    requires IsPath(g, p) && |p| > 1
    ensures StringLess(p[0], p[|p| - 1])
  {
    var init := p[..|p| - 1];
    assert StringLess(init[|init| - 1], p[|p| - 1]);
    if |init| > 1 {
      assert IsPath(g, init);
      AscendingAlongPath(g, init);
      StringLessTransitive(p[0], init[|init| - 1], p[|p| - 1]);
    }
  }

  // ---------------------------------------------------------------- the order of the files

  /** Files that list the same revision give it the same parents. */
  ghost predicate Agree(files: seq<ScannedFile>) {
    forall f, g, r :: f in files && g in files && r in Ids(f) && r in Ids(g) ==> Parents(f) == Parents(g)
  }

  /** The file at `k` is the last one that lists the revision. */
  ghost predicate LastListing(files: seq<ScannedFile>, r: string, k: nat) {
    k < |files| && r in Ids(files[k]) && forall j :: k < j < |files| ==> r !in Ids(files[j])
  }

  lemma {:induction false} GraphSnoc(files: seq<ScannedFile>, last: ScannedFile, c: string)
    ensures c in GraphOf(files + [last]) <==> c in Ids(last) || c in GraphOf(files)
    ensures c in GraphOf(files + [last]) ==>
              GraphOf(files + [last])[c] == if c in Ids(last) then Parents(last) else GraphOf(files)[c]
  {
    var more := files + [last];
    assert more[..|more| - 1] == files && more[|more| - 1] == last;
  }

  lemma {:induction false} ScannedIff(files: seq<ScannedFile>, r: string)
    ensures r in GraphOf(files) <==> exists f :: f in files && r in Ids(f)
  {
    if files != [] {
      var init, last := files[..|files| - 1], files[|files| - 1];
      assert files == init + [last];
      ScannedIff(init, r);
      GraphSnoc(init, last, r);
    }
  }

  lemma {:induction false} LastListingGives(files: seq<ScannedFile>, r: string, k: nat)
    requires LastListing(files, r, k)
    ensures r in GraphOf(files) && GraphOf(files)[r] == Parents(files[k])
  {
    var init, last := files[..|files| - 1], files[|files| - 1];
    assert files == init + [last];
    GraphSnoc(init, last, r);
    if k < |init| {
      assert LastListing(init, r, k);
      LastListingGives(init, r, k);
    }
  }

  /** A revision is in the graph when some file lists it; the last such file gives its parents. */
  lemma {:induction false} GraphLookup(files: seq<ScannedFile>, r: string)
    ensures r in GraphOf(files) <==> exists f :: f in files && r in Ids(f)
    ensures forall k: nat :: LastListing(files, r, k) ==> r in GraphOf(files) && GraphOf(files)[r] == Parents(files[k])
  {
    ScannedIff(files, r);
    forall k: nat | LastListing(files, r, k)
      ensures r in GraphOf(files) && GraphOf(files)[r] == Parents(files[k])
    {
      LastListingGives(files, r, k);
    }
  }

  lemma {:induction false} AgreedLookup(files: seq<ScannedFile>, f: ScannedFile, r: string)
    requires Agree(files) && f in files && r in Ids(f)
    ensures r in GraphOf(files) && GraphOf(files)[r] == Parents(f)
  {
    var init, last := files[..|files| - 1], files[|files| - 1];
    assert files == init + [last];
    if r !in Ids(last) {
      assert Agree(init) && f in init;
      AgreedLookup(init, f, r);
    } else {
      assert Parents(last) == Parents(f);
    }
  }

  lemma {:induction false} SameFilesSameGraph(files: seq<ScannedFile>, other: seq<ScannedFile>)
    requires Agree(files) && Elements(files) == Elements(other)
    ensures GraphOf(files) == GraphOf(other)
  {
    assert forall f :: f in files <==> f in Elements(files);
    assert forall f :: f in other <==> f in Elements(other);
    forall r
      ensures r in GraphOf(files) <==> r in GraphOf(other)
      ensures r in GraphOf(files) ==> GraphOf(files)[r] == GraphOf(other)[r]
    {
      GraphLookup(files, r);
      GraphLookup(other, r);
      if f :| f in files && r in Ids(f) {
        AgreedLookup(files, f, r);
        AgreedLookup(other, f, r);
      }
    }
  }

  /** The same files with the one at `k` moved to the end. */
  function MovedLast(files: seq<ScannedFile>, k: nat): (moved: seq<ScannedFile>)
    requires k < |files|
    ensures multiset(moved) == multiset(files)
  {
    assert files == files[..k] + [files[k]] + files[k + 1..];
    files[..k] + files[k + 1..] + [files[k]]
  }

  lemma {:induction false} MovedLastWins(files: seq<ScannedFile>, k: nat, r: string)
    requires k < |files| && r in Ids(files[k])
    ensures r in GraphOf(MovedLast(files, k)) && GraphOf(MovedLast(files, k))[r] == Parents(files[k])
  {
  }

  /** The order in which the files are globbed never matters to the graph if and only if files that
      list the same revision agree on its parents; distinct identifiers are a special case. */
  lemma {:induction false} GraphOrderIrrelevantIff(files: seq<ScannedFile>)
    ensures (forall other :: multiset(other) == multiset(files) ==> GraphOf(other) == GraphOf(files)) <==>
            Agree(files)
  {
    if Agree(files) {
      forall other | multiset(other) == multiset(files)
        ensures GraphOf(other) == GraphOf(files)
      {
        SameElements(other, files);
        SameFilesSameGraph(files, other);
      }
    } else {
      var f, g, r :| f in files && g in files && r in Ids(f) && r in Ids(g) && Parents(f) != Parents(g);
      var i :| 0 <= i < |files| && files[i] == f;
      var j :| 0 <= j < |files| && files[j] == g;
      MovedLastWins(files, i, r);
      MovedLastWins(files, j, r);
      assert GraphOf(MovedLast(files, i)) != GraphOf(MovedLast(files, j));
    }
  }

  lemma {:induction false} SameElements(other: seq<ScannedFile>, files: seq<ScannedFile>)
    requires multiset(other) == multiset(files)
    ensures forall f :: f in other <==> f in files
    ensures Elements(other) == Elements(files)
  {
    assert forall f :: f in other <==> f in multiset(other);
    assert forall f :: f in files <==> f in multiset(files);
  }

  // ---------------------------------------------------------------- the order and the report

  /** Some file that lists a revision names `r` as a parent. */
  ghost predicate MayBeNamed(files: set<ScannedFile>, r: string) {
    exists f :: f in files && Ids(f) != [] && r in Parents(f)
  }

  /** Every file that lists `c` names `r` as a parent, and some file lists it. */
  ghost predicate AlwaysNames(files: set<ScannedFile>, c: string, r: string) {
    Listed(files, c) && forall f :: f in files && c in Ids(f) ==> r in Parents(f)
  }

  ghost predicate Listed(files: set<ScannedFile>, c: string) {
    exists f :: f in files && c in Ids(f)
  }

  /** Some revision has `r` as a parent whichever of its files wins. */
  ghost predicate MustBeNamed(files: set<ScannedFile>, r: string) {
    exists c :: AlwaysNames(files, c, r)
  }

  /** Every scanned revision that some file names is named whichever files win. */
  ghost predicate NamingIsFixed(files: set<ScannedFile>) {
    forall r :: Listed(files, r) && MayBeNamed(files, r) ==> MustBeNamed(files, r)
  }

  /** Each revision of the graph has the parents that some file listing it names. */
  lemma {:induction false} SomeFileWins(files: seq<ScannedFile>, c: string)
    requires c in GraphOf(files)
    ensures exists f :: f in files && c in Ids(f) && GraphOf(files)[c] == Parents(f)
  {
    var init, last := files[..|files| - 1], files[|files| - 1];
    assert files == init + [last];
    if c in Ids(last) {
      assert last in files && GraphOf(files)[c] == Parents(last);
    } else {
      SomeFileWins(init, c);
      var f :| f in init && c in Ids(f) && GraphOf(init)[c] == Parents(f);
      assert f in files && GraphOf(files)[c] == Parents(f);
    }
  }

  /** With fixed naming, the heads are the listed revisions that no listing file names. */
  lemma {:induction false} HeadsWhenFixed(files: seq<ScannedFile>, r: string)
    requires NamingIsFixed(Elements(files))
    ensures r in GraphOf(files) <==> Listed(Elements(files), r)
    ensures r in Heads(GraphOf(files)) <==> Listed(Elements(files), r) && !MayBeNamed(Elements(files), r)
  {
    var g := GraphOf(files);
    GraphLookup(files, r);
    if r in g {
      if c :| c in g && r in g[c] {
        SomeFileWins(files, c);
      }
      if MayBeNamed(Elements(files), r) {
        var c :| AlwaysNames(Elements(files), c, r);
        GraphLookup(files, c);
        SomeFileWins(files, c);
        assert r in g[c];
      }
    }
  }

  lemma {:induction false} SameReport(files: seq<ScannedFile>, other: seq<ScannedFile>)
    requires multiset(other) == multiset(files) && NamingIsFixed(Elements(files))
    ensures ReportOf(GraphOf(other)) == ReportOf(GraphOf(files))
  {
    SameElements(other, files);
    var g, h := GraphOf(files), GraphOf(other);
    forall r
      ensures r in g <==> r in h
      ensures r in Heads(g) <==> r in Heads(h)
    {
      HeadsWhenFixed(files, r);
      HeadsWhenFixed(other, r);
    }
    assert g.Keys == h.Keys && Heads(g) == Heads(h);
    assert |g| == |g.Keys| && |h| == |h.Keys|;
  }

  /** The files that do or do not name `r`, in order. */
  function Naming(files: seq<ScannedFile>, r: string, names: bool): (s: seq<ScannedFile>)
    ensures forall f :: f in s <==> f in files && (r in Parents(f)) == names
  {
    if files == [] then []
    else
      var rest := Naming(files[1..], r, names);
      assert files == [files[0]] + files[1..];
      if (r in Parents(files[0])) == names then [files[0]] + rest else rest
  }

  lemma {:induction false} NamingSplits(files: seq<ScannedFile>, r: string)
    ensures multiset(Naming(files, r, true) + Naming(files, r, false)) == multiset(files)
  {
    if files != [] {
      NamingSplits(files[1..], r);
      assert files == [files[0]] + files[1..];
    }
  }

  /** When the files that do not name `r` come last, `r` stays a head unless it must be named. */
  lemma {:induction false} HeadWhenNamedFirst(files: seq<ScannedFile>, r: string)
    requires Listed(Elements(files), r) && !MustBeNamed(Elements(files), r)
    ensures r in Heads(GraphOf(Naming(files, r, true) + Naming(files, r, false)))
  {
    var naming, others := Naming(files, r, true), Naming(files, r, false);
    NamingSplits(files, r);
    SameElements(naming + others, files);
    var g := GraphOf(naming + others);
    GraphLookup(naming + others, r);
    forall c | c in g
      ensures r !in g[c]
    {
      GraphLookup(naming + others, c);
      assert Listed(Elements(files), c) && !AlwaysNames(Elements(files), c, r);
      var quiet :| quiet in files && c in Ids(quiet) && r !in Parents(quiet);
      LastListingWins(naming, others, c, quiet);
    }
  }

  /** A revision listed in the second half of the files takes its parents from that half. */
  lemma {:induction false} LastListingWins(first: seq<ScannedFile>, second: seq<ScannedFile>, c: string,
                                           f: ScannedFile)
    requires f in second && c in Ids(f)
    ensures c in GraphOf(first + second)
    ensures exists h :: h in second && c in Ids(h) && GraphOf(first + second)[c] == Parents(h)
  {
    var init, last := second[..|second| - 1], second[|second| - 1];
    assert second == init + [last] && first + second == first + init + [last];
    GraphSnoc(first + init, last, c);
    if c in Ids(last) {
      assert last in second;
    } else {
      LastListingWins(first, init, c, f);
      var h :| h in init && c in Ids(h) && GraphOf(first + init)[c] == Parents(h);
      assert h in second;
    }
  }

  /** The order of the files never matters to the report if and only if every scanned revision
      that some file names as a parent is named by all the files of some revision. */
  lemma {:induction false} ReportOrderIrrelevantIff(files: seq<ScannedFile>)
    ensures (forall other :: multiset(other) == multiset(files) ==>
               ReportOf(GraphOf(other)) == ReportOf(GraphOf(files))) <==>
            NamingIsFixed(Elements(files))
  {
    if NamingIsFixed(Elements(files)) {
      forall other | multiset(other) == multiset(files)
        ensures ReportOf(GraphOf(other)) == ReportOf(GraphOf(files))
      {
        SameReport(files, other);
      }
    } else {
      var r :| Listed(Elements(files), r) && MayBeNamed(Elements(files), r) && !MustBeNamed(Elements(files), r);
      var one, other := TwoReports(files, r);
    }
  }

  lemma {:induction false} TwoReports(files: seq<ScannedFile>, r: string)
    returns (one: seq<ScannedFile>, other: seq<ScannedFile>)
    requires Listed(Elements(files), r) && MayBeNamed(Elements(files), r) && !MustBeNamed(Elements(files), r)
    ensures multiset(one) == multiset(files) == multiset(other)
    ensures ReportOf(GraphOf(one)) != ReportOf(GraphOf(other))
  {
    var f :| f in files && Ids(f) != [] && r in Parents(f);
    var i :| 0 <= i < |files| && files[i] == f;
    one, other := MovedLast(files, i), Naming(files, r, true) + Naming(files, r, false);
    MovedLastWins(files, i, Ids(f)[0]);
    HeadWhenNamedFirst(files, r);
    NamingSplits(files, r);
    assert r !in Heads(GraphOf(one)) && r in Heads(GraphOf(other));
    DifferentHeads(GraphOf(one), GraphOf(other));
  }

  lemma {:induction false} DifferentHeads(g: Graph, h: Graph)
    requires Heads(g) != Heads(h)
    ensures ReportOf(g) != ReportOf(h)
  {
    assert Elements(ReportOf(g).heads) == Heads(g) && Elements(ReportOf(h).heads) == Heads(h);
  }

  /** Files that agree fix the naming, so the report does not depend on their order. */
  lemma {:induction false} AgreeFixesNaming(files: seq<ScannedFile>)
    requires Agree(files)
    ensures NamingIsFixed(Elements(files))
  {
    forall r | Listed(Elements(files), r) && MayBeNamed(Elements(files), r)
      ensures MustBeNamed(Elements(files), r)
    {
      var f :| f in files && Ids(f) != [] && r in Parents(f);
      var c := Ids(f)[0];
      assert c in Ids(f) && AlwaysNames(Elements(files), c, r);
    }
  }

  /** The converse fails: two files that name different unscanned parents for one revision
      disagree, yet the report is the same in both orders. */
  lemma {:induction false} DisagreementMayNotShow()
    ensures var files := [Scanned(OneRevision("a"), OneDown("x")), Scanned(OneRevision("a"), OneDown("y"))];
            !Agree(files) && NamingIsFixed(Elements(files))
  {
    var f, g := Scanned(OneRevision("a"), OneDown("x")), Scanned(OneRevision("a"), OneDown("y"));
    var files := [f, g];
    assert f in files && g in files && "a" in Ids(f) && "a" in Ids(g);
    assert "x" in Parents(f) && "x" !in Parents(g);
    forall r | Listed(Elements(files), r)
      ensures !MayBeNamed(Elements(files), r)
    {
      assert r == "a" && "a" !in Parents(f) && "a" !in Parents(g);
    }
  }

  /** Two files that list `b`, of which only one names `a` as its parent: in one order `b` is the
      single head, in the other `a` is a head as well. */
  lemma {:induction false} OrderMayShow(a: string, b: string)
    requires a != b && a != ""
    ensures var root := Scanned(OneRevision(a), NoDown);
            var child, orphan := Scanned(OneRevision(b), OneDown(a)), Scanned(OneRevision(b), NoDown);
            var one, other := [root, orphan, child], [root, child, orphan];
            && multiset(one) == multiset(other) && !NamingIsFixed(Elements(one))
            && ReportOf(GraphOf(one)) == Report([b], 2, true, b)
            && ReportOf(GraphOf(other)) == Report(SortedStrings({a, b}), 2, false, "")
  {
    var root := Scanned(OneRevision(a), NoDown);
    var child, orphan := Scanned(OneRevision(b), OneDown(a)), Scanned(OneRevision(b), NoDown);
    TwoListings(root, orphan, child, a, b, {}, {a});
    TwoListings(root, child, orphan, a, b, {a}, {});
    var one, other := [root, orphan, child], [root, child, orphan];
    assert multiset(one) == multiset(other);
    assert ReportOf(GraphOf(one)).singleHead && !ReportOf(GraphOf(other)).singleHead;
    ReportsDiffer(one, other);
  }

  lemma {:induction false} TwoListings(root: ScannedFile, f1: ScannedFile, f2: ScannedFile, a: string, b: string,
                                       downs1: set<string>, downs2: set<string>)
    requires a != b && (downs2 == {a} || downs2 == {})
    requires Ids(root) == [a] && Ids(f1) == [b] && Ids(f2) == [b]
    requires Parents(root) == {} && Parents(f1) == downs1 && Parents(f2) == downs2
    ensures ReportOf(GraphOf([root, f1, f2])) ==
            if downs2 == {a} then Report([b], 2, true, b) else Report(SortedStrings({a, b}), 2, false, "")
  {
    AppendThree(map[], [], root, f1, f2, a, {}, b, downs1, b, downs2);
    assert [] + [root] + [f1] + [f2] == [root, f1, f2];
    var g := GraphOf([root, f1, f2]);
    assert g == map[a := {}, b := downs2];
    TwoRevisions(g, a, b);
    assert downs2 == {a} ==> a in downs2;
  }

  lemma {:induction false} ReportsDiffer(one: seq<ScannedFile>, other: seq<ScannedFile>)
    requires multiset(one) == multiset(other) && ReportOf(GraphOf(one)) != ReportOf(GraphOf(other))
    ensures !NamingIsFixed(Elements(one))
  {
    if NamingIsFixed(Elements(one)) {
      SameReport(one, other);
    }
  }

  lemma {:induction false} TwoRevisions(g: Graph, a: string, b: string)
    requires a != b && (g == map[a := {}, b := {a}] || g == map[a := {}, b := {}])
    ensures g[b] == {a} ==> ReportOf(g) == Report([b], 2, true, b)
    ensures g[b] == {} ==> ReportOf(g) == Report(SortedStrings({a, b}), 2, false, "")
  {
    assert g.Keys == {a, b} && |g.Keys| == |g|;
    if g[b] == {a} {
      assert a in g[b] && Heads(g) == {b};
      OneSorted(b);
    } else {
      assert Heads(g) == {a, b};
    }
  }
}
