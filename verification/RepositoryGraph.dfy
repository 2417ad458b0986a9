/** The identifiers of the main line of the repository's revisions. */
module RevisionNames {
  /** 0001 to 0043, each naming the one before it. */
  const MAIN_LINE := [
    "0001_multimodal", "0002_automation", "0003_sre", "0004_compliance_framework",
    "0005_ai_governance", "0006_code_intelligence", "0007_knowledge_rag", "0008_marketplace",
    "0009_automation_tasks", "0010_delivery", "0011_security_platform", "0012_quality_engine",
    "0013_incident_platform", "0014_analytics_platform", "0015_knowledge_graph",
    "0016_enterprise_iam", "0017_billing_platform", "0018_support_itsm",
    "0019_marketplace_ecosystem", "0020_release_progressive_delivery", "0021_datagov", "0022_aiml",
    "0023_observability", "0024_resilience", "0025_performance", "0026_multiregion",
    "0027_multiregion_hardening", "0028_secops", "0029_zero_trust", "0030_data_platform",
    "0031_data_lakehouse", "0032_workflow", "0033_workflow_human", "0034_ai_dev",
    "0035_ai_dev_agent", "0036_knowledge_foundation", "0037_knowledge_graph_rag",
    "0038_finops_foundation", "0039_finops_intelligence", "0040_integrations_foundation",
    "0041_integrations_advanced", "0042_governance_foundation", "0043_governance_enterprise"
  ]

  /** The third and fourth characters of an identifier of the main line count its place. */
  function Place(id: string): int {
    if |id| < 4 then -1 else 10 * (id[2] as int - '0' as int) + (id[3] as int - '0' as int)
  }

  lemma {:induction false} EarlyPlaces(k: nat)
    requires k < 22
    ensures Place(MAIN_LINE[k]) == k + 1
  {
  }

  lemma {:induction false} LatePlaces(k: nat)
    requires 22 <= k < |MAIN_LINE|
    ensures Place(MAIN_LINE[k]) == k + 1
  {
  }

  lemma {:induction false} MainLinePlaces(k: nat)
    requires k < |MAIN_LINE|
    ensures Place(MAIN_LINE[k]) == k + 1
  {
    if k < 22 {
      EarlyPlaces(k);
    } else {
      LatePlaces(k);
    }
  }

  lemma {:induction false} MainLineEnds()
    ensures |MAIN_LINE| == 43
    ensures MAIN_LINE[2] == "0003_sre" && MAIN_LINE[42] == "0043_governance_enterprise"
  {
  }
}

/** The revision graph of the repository itself: a line of forty-three revisions, a branch at
    0003_sre, the merge 0044 and the revision 0045 on top of it. */
module RepositoryGraph {
  import opened Sequences
  import opened RevisionGraph
  import opened RevisionNames

  const BRANCH := "0004_sre_rename_tables"
  const MERGE := "0044_merge_sre_rename"
  const TOP := "0045_rename_enterprise_connection"

  lemma {:induction false} MainLineDistinct()
    ensures Distinct(MAIN_LINE)
  {
    forall i, j | 0 <= i < j < |MAIN_LINE|
      ensures MAIN_LINE[i] != MAIN_LINE[j]
    {
      MainLinePlaces(i);
      MainLinePlaces(j);
    }
  }

  lemma {:induction false} OthersAreNew()
    ensures BRANCH !in MAIN_LINE && MERGE !in MAIN_LINE && TOP !in MAIN_LINE && "" !in MAIN_LINE
  {
    forall k | 0 <= k < |MAIN_LINE|
      ensures MAIN_LINE[k] != BRANCH && MAIN_LINE[k] != MERGE && MAIN_LINE[k] != TOP && MAIN_LINE[k] != ""
    {
      MainLinePlaces(k);
      if k == 3 {
        assert MAIN_LINE[3][5] == 'c';
      }
    }
  }

  /** A branch off a line with distinct identifiers, a merge of both ends and one revision more:
      the graph has two heads after the branch, and one after the merge. */
  lemma {:induction false} BranchThenMerge(ids: seq<string>, fork: nat, branch: string, merge: string, top: string)
    requires Distinct(ids) && fork < |ids| - 1
    requires branch !in ids && merge !in ids && top !in ids
    requires branch != merge && branch != top && merge != top
    ensures var last := ids[|ids| - 1];
            var branched := Line(ids)[branch := {ids[fork]}];
            var merged := branched[merge := {last, branch}];
            var whole := merged[top := {merge}];
            && Heads(branched) == {last, branch}
            && Heads(merged) == {merge}
            && Heads(whole) == {top} && Acyclic(whole)
  {
    var last := ids[|ids| - 1];
    var line := Line(ids);
    var branched := line[branch := {ids[fork]}];
    var merged := branched[merge := {last, branch}];
    LineHasOneHead(ids);
    LineIsFresh(ids, branch);
    LineIsFresh(ids, merge);
    LineIsFresh(ids, top);
    AddRevision(line, branch, {ids[fork]});
    assert ids[fork] != last;
    AddRevision(branched, merge, {last, branch});
    AddRevision(merged, top, {merge});
  }

  // ---------------------------------------------------------------- the files

  function FileOf(id: string, parent: string): ScannedFile {
    Scanned(OneRevision(id), if parent == "" then NoDown else OneDown(parent))
  }

  /** One file for each revision of a line. */
  function LineFiles(ids: seq<string>): (files: seq<ScannedFile>)
    ensures |files| == |ids|
    ensures forall k :: 0 <= k < |ids| ==> Ids(files[k]) == [ids[k]]
  {
    if ids == [] then []
    else
      var init := ids[..|ids| - 1];
      LineFiles(init) + [FileOf(ids[|ids| - 1], if init == [] then "" else init[|init| - 1])]
  }

  lemma {:induction false} LineFilesGraph(ids: seq<string>)
    requires "" !in ids
    ensures GraphOf(LineFiles(ids)) == Line(ids)
  {
    if ids != [] {
      LineFilesGraph(ids[..|ids| - 1]);
      LineFilesStep(ids);
    }
  }

  /** The graph of one file more is the line of one revision more. */
  lemma {:induction false} LineFilesStep(ids: seq<string>)
    requires ids != [] && "" !in ids
    requires GraphOf(LineFiles(ids[..|ids| - 1])) == Line(ids[..|ids| - 1])
    ensures GraphOf(LineFiles(ids)) == Line(ids)
  {
    var init, last := ids[..|ids| - 1], ids[|ids| - 1];
    var parent := if init == [] then "" else init[|init| - 1];
    FileParents(last, parent);
    AppendOne(LineFiles(init), FileOf(last, parent), last);
  }

  lemma {:induction false} FileParents(id: string, parent: string)
    ensures Parents(FileOf(id, parent)) == if parent == "" then {} else {parent}
  {
  }

  /** Files with one identifier each, all different, agree. */
  lemma {:induction false} DistinctFilesAgree(files: seq<ScannedFile>, ids: seq<string>)
    requires |files| == |ids| && Distinct(ids) && forall k :: 0 <= k < |ids| ==> Ids(files[k]) == [ids[k]]
    ensures Agree(files)
  {
  }

  /** The files of a line, a branch off it, a merge of both ends and one revision more. */
  function ForkFiles(ids: seq<string>, fork: nat, branch: string, merge: string, top: string): seq<ScannedFile>
    requires fork < |ids|
  {
    LineFiles(ids) + [FileOf(branch, ids[fork])] +
    [Scanned(OneRevision(merge), ManyDowns([ids[|ids| - 1], branch]))] +
    [FileOf(top, merge)]
  }

  lemma {:induction false} ForkFilesGraph(ids: seq<string>, fork: nat, branch: string, merge: string, top: string)
    requires fork < |ids| && "" !in ids && merge != ""
    ensures GraphOf(ForkFiles(ids, fork, branch, merge, top)) ==
            Line(ids)[branch := {ids[fork]}][merge := {ids[|ids| - 1], branch}][top := {merge}]
  {
    LineFilesGraph(ids);
    ForkParents(ids, fork, branch, merge);
    AppendThree(Line(ids), LineFiles(ids), FileOf(branch, ids[fork]),
                Scanned(OneRevision(merge), ManyDowns([ids[|ids| - 1], branch])), FileOf(top, merge),
                branch, {ids[fork]}, merge, {ids[|ids| - 1], branch}, top, {merge});
  }

  lemma {:induction false} ForkParents(ids: seq<string>, fork: nat, branch: string, merge: string)
    requires fork < |ids| && "" !in ids && merge != ""
    ensures forall id :: Parents(FileOf(id, ids[fork])) == {ids[fork]}
    ensures forall id :: Parents(FileOf(id, merge)) == {merge}
    ensures Parents(Scanned(OneRevision(merge), ManyDowns([ids[|ids| - 1], branch]))) == {ids[|ids| - 1], branch}
  {
  }

  function RepositoryFiles(): seq<ScannedFile> {
    MainLineEnds();
    ForkFiles(MAIN_LINE, 2, BRANCH, MERGE, TOP)
  }

  /** In whatever order the forty-six files are scanned, the report names one head, 0045, and
      every scanned revision is that head or an ancestor of it. */
  lemma {:induction false} RepositoryHasOneHead(files: seq<ScannedFile>)
    requires multiset(files) == multiset(RepositoryFiles())
    ensures ReportOf(GraphOf(files)).singleHead && ReportOf(GraphOf(files)).head == TOP
    ensures forall r :: r in GraphOf(files) ==> Reaches(GraphOf(files), r, TOP)
  {
    MainLineDistinct();
    OthersAreNew();
    MainLineEnds();
    ForkScan(MAIN_LINE, 2, BRANCH, MERGE, TOP, files);
  }

  lemma {:induction false} ForkScan(ids: seq<string>, fork: nat, branch: string, merge: string, top: string,
                                    files: seq<ScannedFile>)
    requires Distinct(ids) && fork < |ids| - 1 && "" !in ids && merge != ""
    requires branch !in ids && merge !in ids && top !in ids
    requires branch != merge && branch != top && merge != top
    requires multiset(files) == multiset(ForkFiles(ids, fork, branch, merge, top))
    ensures ReportOf(GraphOf(files)).singleHead && ReportOf(GraphOf(files)).head == top
    ensures forall r :: r in GraphOf(files) ==> Reaches(GraphOf(files), r, top)
  {
    var scanned := ForkFiles(ids, fork, branch, merge, top);
    DistinctFilesAgree(scanned, ids + [branch, merge, top]);
    GraphOrderIrrelevantIff(scanned);
    assert GraphOf(files) == GraphOf(scanned);
    ForkFilesGraph(ids, fork, branch, merge, top);
    BranchThenMerge(ids, fork, branch, merge, top);
    SingleHeadMeans(GraphOf(files));
    SingleHeadIff(GraphOf(files));
  }
}
