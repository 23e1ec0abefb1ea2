/**
 * One check run (`run_check`) with the network, the clock and the files
 * abstracted: the fetched catalog items, one pair of request outcomes per
 * record, the previously persisted snapshot and the run's timestamp are
 * inputs; the returned results and the snapshot to persist are outputs.
 */
module Run {
  import opened Options
  import opened Probe
  import opened Catalog
  import opened History
  import opened Ordering

  /** What the HEAD and the (possible) GET request of one record produced. */
  datatype Probing = Probing(head: Outcome, get: Outcome)

  /** The persisted JSON document of a dataset. `lastAutoRefresh` is `None`
      when the key is absent. */
  datatype Snapshot = Snapshot(results: seq<CheckResult>, lastChecked: string, lastAutoRefresh: Option<string>)

  /** What a run returns, and the snapshot it writes (`None`: nothing written). */
  datatype RunResult = RunResult(returned: seq<CheckResult>, written: Option<Snapshot>)

  /** `history.get("results", [])`, an absent file reading as no results. */
  function PreviousResults(previous: Option<Snapshot>): seq<CheckResult> {
    match previous
    case Some(s) => s.results
    case None => []
  }

  /** The status of each record, in record order. */
  function Statuses(probes: seq<Probing>): (ss: seq<Status>)
    ensures |ss| == |probes|
    ensures forall i :: 0 <= i < |probes| ==> ss[i] == CheckLink(probes[i].head, probes[i].get)
  {
    seq(|probes|, i requires 0 <= i < |probes| => CheckLink(probes[i].head, probes[i].get))
  }

  /** The document written at the end of a run: checked now; auto-refreshed now
      on a scheduled run, otherwise the previous auto-refresh time carried over
      (absent when there was none). */
  function NewSnapshot(results: seq<CheckResult>, previous: Option<Snapshot>, now: string, auto: bool): (s: Snapshot)
    ensures s.results == results
    ensures s.lastChecked == now
    ensures auto ==> s.lastAutoRefresh == Some(now)
    ensures !auto && previous.Some? ==> s.lastAutoRefresh == previous.value.lastAutoRefresh
    ensures !auto && previous.None? ==> s.lastAutoRefresh.None?
  {
    var carried := if previous.Some? then previous.value.lastAutoRefresh else None;
    Snapshot(results, now, if auto then Some(now) else carried)
  }

  /** The body of `run_check` once the records are known. With no records the
      previous results come back and nothing is written; otherwise the merged
      results, sorted, are returned and written with fresh timestamps. */
  function RunCheck(records: seq<Record>, probes: seq<Probing>, previous: Option<Snapshot>, now: string, auto: bool): (r: RunResult)
    requires |probes| == |records|
    ensures |records| == 0 ==> r.returned == PreviousResults(previous) && r.written.None?
    ensures |records| > 0 ==> r.written.Some? && r.returned == r.written.value.results
    ensures |records| > 0 ==>
      var merged := Merge(records, Statuses(probes), PreviousResults(previous), now);
      && multiset(r.returned) == multiset(merged)
      && Sorted(KeyOf, r.returned)
      && (forall k :: WithKey(KeyOf, r.returned, k) == WithKey(KeyOf, merged, k))
    ensures r.written.Some? ==>
      && r.written.value.lastChecked == now
      && r.written.value.lastAutoRefresh == (if auto then Some(now) else if previous.Some? then previous.value.lastAutoRefresh else None)
  {
    if |records| == 0 then RunResult(PreviousResults(previous), None)
    else
      var merged := Merge(records, Statuses(probes), PreviousResults(previous), now);
      var sorted := Sort(KeyOf, merged);
      RunResult(sorted, Some(NewSnapshot(sorted, previous, now, auto)))
  }

  /** The dataset names `run_check` accepts and the catalog each one reads. */
  function CatalogFor(dataset: string): (c: Option<Catalog>)
    ensures c == Some(Forms) <==> dataset == "eforms"
    ensures c == Some(Services) <==> dataset == "services"
    ensures c.None? <==> dataset != "eforms" && dataset != "services"
  {
    if dataset == "eforms" then Some(Forms)
    else if dataset == "services" then Some(Services)
    else None
  }

  /** A whole run for a dataset name, given the items its fetch returned (the
      empty list when every fetch attempt failed). An unknown name returns no
      results and writes nothing. */
  function RunDataset(dataset: string, items: seq<Item>, probes: seq<Probing>, previous: Option<Snapshot>, now: string, auto: bool): (r: RunResult)
    requires CatalogFor(dataset).Some? ==> |probes| == TotalUrlCount(items)
    ensures CatalogFor(dataset).None? ==> r == RunResult([], None)
    ensures CatalogFor(dataset).Some? && |items| == 0 ==> r == RunResult(PreviousResults(previous), None)
    ensures r.written.Some? ==> |r.written.value.results| == |probes|
  {
    match CatalogFor(dataset)
    case None => RunResult([], None)
    case Some(c) => RunCheck(Records(c, items), probes, previous, now, auto)
  }

  /** A failed or empty fetch never overwrites history: the previous results
      are returned unchanged and no snapshot is written. */
  lemma EmptyFetchKeepsHistory(dataset: string, items: seq<Item>, probes: seq<Probing>, previous: Option<Snapshot>, now: string, auto: bool)
    requires CatalogFor(dataset).Some? && |probes| == TotalUrlCount(items)
    requires forall i :: 0 <= i < |items| ==> UrlCount(items[i]) == 0
    ensures RunDataset(dataset, items, probes, previous, now, auto) == RunResult(PreviousResults(previous), None)
  {
    RecordsEmpty(CatalogFor(dataset).value, items);
  }

  /** In every written snapshot a result carries a set `first_broken` exactly
      when it is not OK, and failures are listed before healthy links. */
  lemma WrittenResultsInvariant(records: seq<Record>, probes: seq<Probing>, previous: Option<Snapshot>, now: string, auto: bool)
    requires |probes| == |records|
    requires now != ""
    requires RunCheck(records, probes, previous, now, auto).written.Some?
    ensures var rs := RunCheck(records, probes, previous, now, auto).written.value.results;
      && (forall i :: 0 <= i < |rs| ==> (IsSet(rs[i].firstBroken) <==> !rs[i].status.OK?))
      && (forall i, j :: 0 <= i < j < |rs| && rs[i].status.OK? ==> rs[j].status.OK?)
  {
    var merged := Merge(records, Statuses(probes), PreviousResults(previous), now);
    var rs := RunCheck(records, probes, previous, now, auto).written.value.results;
    MergeDatesBroken(records, Statuses(probes), PreviousResults(previous), now);
    forall i | 0 <= i < |rs|
      ensures IsSet(rs[i].firstBroken) <==> !rs[i].status.OK?
    {
      assert rs[i] in multiset(merged) by {
        assert rs[i] in multiset(rs);
      }
      var m :| 0 <= m < |merged| && merged[m] == rs[i];
    }
    SortedGroups(rs);
  }

  /** Continuity across two consecutive runs: a URL broken in the first run and
      still broken in the second keeps the `first_broken` the first run gave it,
      even though the first run's results were re-ordered by the sort. Records
      may share a URL: every broken one of them carries the same date. */
  lemma StillBrokenKeepsFirstBroken(
    records1: seq<Record>, probes1: seq<Probing>, previous: Option<Snapshot>, t1: string, auto1: bool,
    records2: seq<Record>, probes2: seq<Probing>, t2: string,
    j: nat, i: nat)
    requires |probes1| == |records1| && |probes2| == |records2|
    requires t1 != ""
    requires j < |records1| && !Statuses(probes1)[j].OK?
    requires i < |records2| && records2[i].url == records1[j].url && !Statuses(probes2)[i].OK?
    ensures var merged1 := Merge(records1, Statuses(probes1), PreviousResults(previous), t1);
      var s1 := RunCheck(records1, probes1, previous, t1, auto1).written.value;
      var merged2 := Merge(records2, Statuses(probes2), s1.results, t2);
      && IsSet(merged1[j].firstBroken)
      && merged2[i].firstBroken == merged1[j].firstBroken
  {
    var rs := RunCheck(records1, probes1, previous, t1, auto1).written.value.results;
    BrokenDateSurvivesSort(records1, Statuses(probes1), PreviousResults(previous), t1, rs, j);
  }

  /** In any reordering of a merge, the first stored entry reporting a broken
      result's URL broken carries that result's (set) date. */
  lemma BrokenDateSurvivesSort(records: seq<Record>, statuses: seq<Status>, previous: seq<CheckResult>, now: string, rs: seq<CheckResult>, j: nat)
    requires |statuses| == |records|
    requires now != ""
    requires multiset(rs) == multiset(Merge(records, statuses, previous, now))
    requires j < |records| && !statuses[j].OK?
    ensures var merged := Merge(records, statuses, previous, now);
      var m := FirstBrokenEntry(rs, records[j].url);
      && IsSet(merged[j].firstBroken)
      && IsFirstBrokenEntry(rs, records[j].url, m)
      && rs[m].firstBroken == merged[j].firstBroken
  {
    var merged := Merge(records, statuses, previous, now);
    var url := records[j].url;
    MergeDatesBroken(records, statuses, previous, now);
    PermutedIndex(merged, rs, j);
    var p :| 0 <= p < |rs| && rs[p] == merged[j];
    assert BrokenEntryFor(rs[p], url);
    var m := FirstBrokenEntry(rs, url);
    assert m <= p;
    PermutedIndex(rs, merged, m);
    var q :| 0 <= q < |merged| && merged[q] == rs[m];
    SameUrlSameFirstBroken(records, statuses, previous, now, q, j);
  }

  /** Every element of a sequence has a position in any permutation of it. */
  lemma PermutedIndex<T>(a: seq<T>, b: seq<T>, i: nat)
    requires multiset(a) == multiset(b) && i < |a|
    ensures exists k :: 0 <= k < |b| && b[k] == a[i]
  {
    assert a[i] in multiset(a);
    assert a[i] in multiset(b);
  }

  /** A link that answers again is healthy and undated in the next snapshot. */
  lemma RecoveredIsCleared(records: seq<Record>, probes: seq<Probing>, previous: Option<Snapshot>, now: string, i: nat)
    requires |probes| == |records|
    requires i < |records| && Statuses(probes)[i].OK?
    ensures Merge(records, Statuses(probes), PreviousResults(previous), now)[i].firstBroken.None?
  {
  }

  /** A three-run history of one form whose link answers 404
      twice and then 200: dated at the first run, still dated with the first
      run's time after the second, cleared after the third. */
  lemma NotFoundThenRecovered()
    ensures
      var rec := Record("Dept A", "Form 1", En, "https://x/1");
      var notFound := [Probing(Code(404), Code(404))];
      var run1 := RunCheck([rec], notFound, None, "T1", false);
      var run2 := RunCheck([rec], notFound, run1.written, "T2", false);
      var run3 := RunCheck([rec], [Probing(Code(200), Raised)], run2.written, "T3", true);
      && run1.returned == [CheckResult("Dept A", "Form 1", En, "https://x/1", Error(404), Some("T1"))]
      && run2.returned == [CheckResult("Dept A", "Form 1", En, "https://x/1", Error(404), Some("T1"))]
      && run3.returned == [CheckResult("Dept A", "Form 1", En, "https://x/1", OK, None)]
      && run3.written.value.lastAutoRefresh == Some("T3")
  {
    var rec := Record("Dept A", "Form 1", En, "https://x/1");
    var notFound := [Probing(Code(404), Code(404))];
    var broken := CheckResult("Dept A", "Form 1", En, "https://x/1", Error(404), Some("T1"));
    assert Statuses(notFound) == [Error(404)];
    SortSingle(Merge([rec], [Error(404)], [], "T1"));
    assert Merge([rec], [Error(404)], [], "T1") == [broken];
    var run1 := RunCheck([rec], notFound, None, "T1", false);
    assert run1.returned == [broken];
    assert FirstBrokenEntry([broken], "https://x/1") == 0;
    assert Merge([rec], [Error(404)], [broken], "T2") == [broken];
    SortSingle([broken]);
    var run2 := RunCheck([rec], notFound, run1.written, "T2", false);
    assert run2.returned == [broken];
    var healthy := CheckResult("Dept A", "Form 1", En, "https://x/1", OK, None);
    assert Statuses([Probing(Code(200), Raised)]) == [OK];
    assert Merge([rec], [OK], [broken], "T3") == [healthy];
    SortSingle([healthy]);
  }

  lemma SortSingle(s: seq<CheckResult>)
    requires |s| == 1
    ensures Sort(KeyOf, s) == s
  {
    assert s[..0] == [];
  }
}
