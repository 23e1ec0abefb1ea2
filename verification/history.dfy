/**
 * The history merge of `run_check`: every probed record becomes a result, and
 * a result that is not OK carries the time its link was first seen broken,
 * inherited from the previous run's results when that run already had the
 * link broken.
 */
module History {
  import opened Options
  import opened Probe
  import opened Catalog

  /** One persisted row of a run. `firstBroken` is `None` for JSON `null`. */
  datatype CheckResult = CheckResult(
    department: string,
    title: string,
    lang: Lang,
    url: string,
    status: Status,
    firstBroken: Option<string>)

  /** Python truthiness of a stored `first_broken`: present and non-empty. */
  predicate IsSet(t: Option<string>) {
    t.Some? && t.value != ""
  }

  /** An earlier result that reports the same URL as not OK (the test of the
      generator inside `next(...)`, comparing the status text with "OK"). */
  predicate BrokenEntryFor(h: CheckResult, url: string) {
    h.url == url && Display(h.status) != "OK"
  }

  /** `previous[j]` is the first previous result reporting `url` broken. */
  ghost predicate IsFirstBrokenEntry(previous: seq<CheckResult>, url: string, j: int) {
    && 0 <= j < |previous|
    && BrokenEntryFor(previous[j], url)
    && forall i :: 0 <= i < j ==> !BrokenEntryFor(previous[i], url)
  }

  /** The index of the first previous result reporting `url` broken, `|previous|` when
      there is none: `next(..., None)`. */
  function FirstBrokenEntry(previous: seq<CheckResult>, url: string): (i: nat)
    ensures i <= |previous|
    ensures i < |previous| ==> BrokenEntryFor(previous[i], url)
    ensures forall j :: 0 <= j < i ==> !BrokenEntryFor(previous[j], url)
  {
    if |previous| == 0 then 0
    else if BrokenEntryFor(previous[0], url) then 0
    else 1 + FirstBrokenEntry(previous[1..], url)
  }

  /** `FirstBrokenEntry` finds exactly the first broken entry for `url`. */
  lemma FirstBrokenEntryOf(previous: seq<CheckResult>, url: string, j: int)
    requires IsFirstBrokenEntry(previous, url, j)
    ensures FirstBrokenEntry(previous, url) == j
  {
  }

  /** The `first_broken` a new result gets: nothing when the status is OK;
      otherwise the first matching previous entry's value when that is set, and
      `now` in every other case. */
  function FirstBroken(status: Status, url: string, previous: seq<CheckResult>, now: string): (fb: Option<string>)
    ensures fb.None? <==> status.OK?
    ensures !status.OK? ==> forall j :: IsFirstBrokenEntry(previous, url, j) ==>
      fb == (if IsSet(previous[j].firstBroken) then previous[j].firstBroken else Some(now))
    ensures !status.OK? && (forall j :: 0 <= j < |previous| ==> !BrokenEntryFor(previous[j], url)) ==> fb == Some(now)
  {
    if Display(status) == "OK" then None
    else
      var i := FirstBrokenEntry(previous, url);
      assert forall j :: IsFirstBrokenEntry(previous, url, j) ==> j == i by {
        forall j | IsFirstBrokenEntry(previous, url, j)
          ensures j == i
        {
          FirstBrokenEntryOf(previous, url, j);
        }
      }
      if i < |previous| && IsSet(previous[i].firstBroken) then previous[i].firstBroken else Some(now)
  }

  /** A new `first_broken` is either `now` or copied from a previous result that
      had the same URL broken: no other timestamp can appear. */
  lemma FirstBrokenOrigin(status: Status, url: string, previous: seq<CheckResult>, now: string)
    ensures var fb := FirstBroken(status, url, previous, now);
      fb.Some? ==> fb == Some(now) || exists j :: 0 <= j < |previous| && BrokenEntryFor(previous[j], url) && previous[j].firstBroken == fb
  {
  }

  /** The result a record and its status become: the record's fields, its
      status, and a breakage date exactly when the status is not OK. */
  function MergeOne(rec: Record, status: Status, previous: seq<CheckResult>, now: string): (r: CheckResult)
    ensures r.department == rec.department && r.title == rec.title
    ensures r.lang == rec.lang && r.url == rec.url && r.status == status
    ensures r.firstBroken.None? <==> status.OK?
  {
    CheckResult(rec.department, rec.title, rec.lang, rec.url, status, FirstBroken(status, rec.url, previous, now))
  }

  /** The loop over the records, before sorting: one result per record, in
      record order, copying the record and its status and dating breakage. */
  function Merge(records: seq<Record>, statuses: seq<Status>, previous: seq<CheckResult>, now: string): (rs: seq<CheckResult>)
    requires |statuses| == |records|
    ensures |rs| == |records|
    ensures forall i :: 0 <= i < |rs| ==>
      && rs[i].department == records[i].department
      && rs[i].title == records[i].title
      && rs[i].lang == records[i].lang
      && rs[i].url == records[i].url
      && rs[i].status == statuses[i]
      && (rs[i].firstBroken.None? <==> statuses[i].OK?)
  {
    seq(|records|, i requires 0 <= i < |records| => MergeOne(records[i], statuses[i], previous, now))
  }

  /** Every result of a merge is dated exactly when it is not OK, and a broken
      result's date is set (non-empty) whenever the run's own timestamp is. */
  lemma MergeDatesBroken(records: seq<Record>, statuses: seq<Status>, previous: seq<CheckResult>, now: string)
    requires |statuses| == |records|
    requires now != ""
    ensures var rs := Merge(records, statuses, previous, now);
      forall i :: 0 <= i < |rs| ==> (IsSet(rs[i].firstBroken) <==> !rs[i].status.OK?)
  {
  }

  /** A merged result that is broken keeps the date of the first previous result
      that reported its URL broken, when that result was dated. */
  lemma MergeInherits(records: seq<Record>, statuses: seq<Status>, previous: seq<CheckResult>, now: string, i: nat, j: nat)
    requires |statuses| == |records|
    requires i < |records| && j < |previous|
    requires !statuses[i].OK?
    requires IsFirstBrokenEntry(previous, records[i].url, j) && IsSet(previous[j].firstBroken)
    ensures Merge(records, statuses, previous, now)[i].firstBroken == previous[j].firstBroken
  {
  }

  /** Two broken results for the same URL get the same date: the date depends
      only on the URL and the previous results, not on which record it is. */
  lemma SameUrlSameFirstBroken(records: seq<Record>, statuses: seq<Status>, previous: seq<CheckResult>, now: string, a: nat, b: nat)
    requires |statuses| == |records|
    requires a < |records| && b < |records|
    requires records[a].url == records[b].url
    requires !statuses[a].OK? && !statuses[b].OK?
    ensures Merge(records, statuses, previous, now)[a].firstBroken == Merge(records, statuses, previous, now)[b].firstBroken
  {
  }
}
