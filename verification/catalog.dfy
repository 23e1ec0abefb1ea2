/**
 * Catalog normalisation: the record loops of `get_links_with_meta` (forms)
 * and `get_services_with_meta` (services). Each upstream item is a JSON
 * object of string fields; it yields one record per populated URL field, in
 * the language order en, tc, sc, all sharing one department and title.
 */
module Catalog {
  import opened Text

  /** One upstream item. A missing key and an empty string are both falsy. */
  type Item = map<string, string>

  datatype Lang = En | Tc | Sc

  /** The two catalogs, each with its own department/title fallback. */
  datatype Catalog = Forms | Services

  /** One link to check. */
  datatype Record = Record(department: string, title: string, lang: Lang, url: string)

  /** `f"{lang}_url"`. */
  function UrlKey(l: Lang): string {
    match l
    case En => "en_url"
    case Tc => "tc_url"
    case Sc => "sc_url"
  }

  function DepartmentKey(l: Lang): string {
    match l
    case En => "en_department"
    case Tc => "tc_department"
    case Sc => "sc_department"
  }

  function TitleKey(l: Lang): string {
    match l
    case En => "en_title"
    case Tc => "tc_title"
    case Sc => "sc_title"
  }

  /** `item.get(key, "")`: a missing key reads as the empty string. */
  function Get(item: Item, key: string): string {
    if key in item then item[key] else ""
  }

  /** `bool(item.get(key))`: present and non-empty. */
  predicate Truthy(item: Item, key: string) {
    Get(item, key) != ""
  }

  /** Both fields of a language's (department, title) pair are truthy. */
  predicate HasPair(item: Item, l: Lang) {
    Truthy(item, DepartmentKey(l)) && Truthy(item, TitleKey(l))
  }

  /** Forms: the English pair if complete, else the Traditional Chinese pair if
      complete, else the Simplified Chinese fields (empty when missing); stripped. */
  function FormsHeading(item: Item): (h: (string, string))
    ensures IsStripped(h.0) && IsStripped(h.1)
  {
    if HasPair(item, En) then (Strip(Get(item, "en_department")), Strip(Get(item, "en_title")))
    else if HasPair(item, Tc) then (Strip(Get(item, "tc_department")), Strip(Get(item, "tc_title")))
    else (Strip(Get(item, "sc_department")), Strip(Get(item, "sc_title")))
  }

  /** Services: the first truthy department field in en, tc, sc order, stripped;
      the stripped `en_fun`, or the stripped `en_fun_a` when that is empty. */
  function ServicesHeading(item: Item): (h: (string, string))
    ensures IsStripped(h.0) && IsStripped(h.1)
  {
    var dept :=
      if Truthy(item, "en_department") then Get(item, "en_department")
      else if Truthy(item, "tc_department") then Get(item, "tc_department")
      else Get(item, "sc_department");
    var fun := Strip(Get(item, "en_fun"));
    (Strip(dept), if fun != "" then fun else Strip(Get(item, "en_fun_a")))
  }

  function Heading(c: Catalog, item: Item): (string, string) {
    match c
    case Forms => FormsHeading(item)
    case Services => ServicesHeading(item)
  }

  /** The fields a catalog's heading is read from. */
  function HeadingKeys(c: Catalog): seq<string> {
    match c
    case Forms => ["en_department", "en_title", "tc_department", "tc_title", "sc_department", "sc_title"]
    case Services => ["en_department", "tc_department", "sc_department", "en_fun", "en_fun_a"]
  }

  /** The heading is read from the heading fields only: two items that agree on
      them (whatever their URL or other fields) get the same heading. */
  lemma HeadingFromHeadingKeys(c: Catalog, a: Item, b: Item)
    requires forall i :: 0 <= i < |HeadingKeys(c)| ==> Get(a, HeadingKeys(c)[i]) == Get(b, HeadingKeys(c)[i])
    ensures Heading(c, a) == Heading(c, b)
  {
    var keys := HeadingKeys(c);
    assert Get(a, keys[0]) == Get(b, keys[0]);
    assert Get(a, keys[1]) == Get(b, keys[1]);
    assert Get(a, keys[2]) == Get(b, keys[2]);
    assert Get(a, keys[3]) == Get(b, keys[3]);
    assert Get(a, keys[4]) == Get(b, keys[4]);
    if c.Forms? {
      assert Get(a, keys[5]) == Get(b, keys[5]);
    }
  }

  /** A complete English pair decides the forms heading, whatever the other
      languages hold; otherwise a complete Traditional Chinese pair does. */
  lemma FormsHeadingPriority(item: Item)
    ensures HasPair(item, En) ==>
      FormsHeading(item) == (Strip(item["en_department"]), Strip(item["en_title"]))
    ensures !HasPair(item, En) && HasPair(item, Tc) ==>
      FormsHeading(item) == (Strip(item["tc_department"]), Strip(item["tc_title"]))
    ensures !HasPair(item, En) && !HasPair(item, Tc) ==>
      FormsHeading(item) == (Strip(Get(item, "sc_department")), Strip(Get(item, "sc_title")))
  {
  }

  /** The services department is the first truthy department field, en before
      tc before sc; the title falls back to `en_fun_a` only when `en_fun` strips
      to nothing. */
  lemma ServicesHeadingPriority(item: Item)
    ensures Truthy(item, "en_department") ==> ServicesHeading(item).0 == Strip(item["en_department"])
    ensures !Truthy(item, "en_department") && Truthy(item, "tc_department") ==>
      ServicesHeading(item).0 == Strip(item["tc_department"])
    ensures !Truthy(item, "en_department") && !Truthy(item, "tc_department") ==>
      ServicesHeading(item).0 == Strip(Get(item, "sc_department"))
    ensures Strip(Get(item, "en_fun")) != "" ==> ServicesHeading(item).1 == Strip(item["en_fun"])
    ensures Strip(Get(item, "en_fun")) == "" ==> ServicesHeading(item).1 == Strip(Get(item, "en_fun_a"))
  {
  }

  /** The record for one language of an item, when its URL field is truthy. */
  function UrlRecord(item: Item, dept: string, title: string, l: Lang): seq<Record> {
    var key := UrlKey(l);
    if Truthy(item, key) then [Record(dept, title, l, Strip(item[key]))] else []
  }

  /** The languages of a record sequence, in order. */
  function Languages(rs: seq<Record>): (ls: seq<Lang>)
    ensures |ls| == |rs|
    ensures forall k :: 0 <= k < |rs| ==> ls[k] == rs[k].lang
  {
    if |rs| == 0 then [] else [rs[0].lang] + Languages(rs[1..])
  }

  /** The languages of `langs` whose URL field is truthy, in the same order. */
  function TruthyLanguages(item: Item, langs: seq<Lang>): seq<Lang> {
    if |langs| == 0 then []
    else (if Truthy(item, UrlKey(langs[0])) then [langs[0]] else []) + TruthyLanguages(item, langs[1..])
  }

  /** The records of an item for the languages `langs`, in that order. */
  function LangRecords(item: Item, dept: string, title: string, langs: seq<Lang>): (rs: seq<Record>)
    ensures forall k :: 0 <= k < |rs| ==>
      && rs[k].department == dept
      && rs[k].title == title
      && Truthy(item, UrlKey(rs[k].lang))
      && rs[k].url == Strip(item[UrlKey(rs[k].lang)])
    ensures Languages(rs) == TruthyLanguages(item, langs)
  {
    if |langs| == 0 then []
    else
      var head := UrlRecord(item, dept, title, langs[0]);
      var rest := LangRecords(item, dept, title, langs[1..]);
      LanguagesAppend(head, rest);
      head + rest
  }

  lemma LanguagesAppend(a: seq<Record>, b: seq<Record>)
    ensures Languages(a + b) == Languages(a) + Languages(b)
  {
  }

  /** The emission order of languages within an item. */
  const LangOrder: seq<Lang> := [En, Tc, Sc]

  /** The inner `for lang in ("en", "tc", "sc")` loop: one record per truthy URL
      field, in language order, each carrying the item's heading and the
      stripped URL. */
  function ItemRecords(item: Item, dept: string, title: string): (rs: seq<Record>)
    ensures forall k :: 0 <= k < |rs| ==>
      && rs[k].department == dept
      && rs[k].title == title
      && Truthy(item, UrlKey(rs[k].lang))
      && rs[k].url == Strip(item[UrlKey(rs[k].lang)])
    ensures Languages(rs) == TruthyLanguages(item, LangOrder)
  {
    LangRecords(item, dept, title, LangOrder)
  }

  /** The number of truthy URL fields of an item. */
  function UrlCount(item: Item): nat {
    (if Truthy(item, "en_url") then 1 else 0)
    + (if Truthy(item, "tc_url") then 1 else 0)
    + (if Truthy(item, "sc_url") then 1 else 0)
  }

  /** An item contributes exactly as many records as it has truthy URL fields. */
  lemma ItemRecordsCount(item: Item, dept: string, title: string)
    ensures |ItemRecords(item, dept, title)| == UrlCount(item)
  {
    var rs := ItemRecords(item, dept, title);
    assert |Languages(rs)| == |rs|;
    assert LangOrder[1..] == [Tc, Sc] && [Tc, Sc][1..] == [Sc] && [Sc][1..] == [];
    assert |TruthyLanguages(item, [Sc])| == if Truthy(item, "sc_url") then 1 else 0;
  }

  /** One item's records under its catalog's heading. */
  function HeadedItemRecords(c: Catalog, item: Item): seq<Record> {
    var h := Heading(c, item);
    ItemRecords(item, h.0, h.1)
  }

  /** The outer `for form in items` loop: the items' records, item by item.
      There is one record per truthy URL field over all items. */
  function Records(c: Catalog, items: seq<Item>): (rs: seq<Record>)
    ensures |rs| == TotalUrlCount(items)
  {
    if |items| == 0 then []
    else
      var h := Heading(c, items[0]);
      ItemRecordsCount(items[0], h.0, h.1);
      HeadedItemRecords(c, items[0]) + Records(c, items[1..])
  }

  /** Normalising two catalogs back to back is normalising each in turn: the
      output order is the item order. */
  lemma {:induction false} RecordsAppend(c: Catalog, a: seq<Item>, b: seq<Item>)
    ensures Records(c, a + b) == Records(c, a) + Records(c, b)
    decreases |a|
  {
    if |a| == 0 {
      assert a + b == b;
    } else {
      assert (a + b)[0] == a[0] && (a + b)[1..] == a[1..] + b;
      RecordsFirst(c, a + b);
      RecordsFirst(c, a);
      RecordsAppend(c, a[1..], b);
      Regroup(HeadedItemRecords(c, a[0]), Records(c, a[1..]), Records(c, b), Records(c, a + b), Records(c, a));
    }
  }

  lemma Regroup(x: seq<Record>, y: seq<Record>, z: seq<Record>, whole: seq<Record>, front: seq<Record>)
    requires whole == x + (y + z) && front == x + y
    ensures whole == front + z
  {
  }

  /** Item `i` contributes one contiguous block, between the records of the
      items before it and those of the items after it. */
  lemma ItemBlock(c: Catalog, items: seq<Item>, i: nat)
    requires i < |items|
    ensures Records(c, items) == Records(c, items[..i]) + HeadedItemRecords(c, items[i]) + Records(c, items[i + 1..])
  {
    RecordsSplit(c, items, i);
    RecordsFrom(c, items, i);
    Regroup(Records(c, items[..i]), HeadedItemRecords(c, items[i]), Records(c, items[i + 1..]),
      Records(c, items), Records(c, items[..i]) + HeadedItemRecords(c, items[i]));
  }

  /** The records of a list split at `i`: those of the front, then the back's. */
  lemma RecordsSplit(c: Catalog, items: seq<Item>, i: nat)
    requires i <= |items|
    ensures Records(c, items) == Records(c, items[..i]) + Records(c, items[i..])
  {
    assert items == items[..i] + items[i..];
    RecordsAppend(c, items[..i], items[i..]);
  }

  /** The records from item `i` on: item `i`'s, then those of the items after it. */
  lemma RecordsFrom(c: Catalog, items: seq<Item>, i: nat)
    requires i < |items|
    ensures Records(c, items[i..]) == HeadedItemRecords(c, items[i]) + Records(c, items[i + 1..])
  {
    assert items[i..][0] == items[i] && items[i..][1..] == items[i + 1..];
    RecordsFirst(c, items[i..]);
  }

  /** The records of a non-empty item list: the first item's, then the rest's. */
  lemma RecordsFirst(c: Catalog, items: seq<Item>)
    requires |items| > 0
    ensures Records(c, items) == HeadedItemRecords(c, items[0]) + Records(c, items[1..])
  {
  }

  function TotalUrlCount(items: seq<Item>): nat {
    if |items| == 0 then 0 else UrlCount(items[0]) + TotalUrlCount(items[1..])
  }

  /** A catalog yields no records exactly when none of its items has a truthy
      URL field. */
  lemma RecordsEmpty(c: Catalog, items: seq<Item>)
    ensures Records(c, items) == [] <==> forall i :: 0 <= i < |items| ==> UrlCount(items[i]) == 0
  {
    TotalUrlCountZero(items);
  }

  lemma {:induction false} TotalUrlCountZero(items: seq<Item>)
    ensures TotalUrlCount(items) == 0 <==> forall i :: 0 <= i < |items| ==> UrlCount(items[i]) == 0
  {
    if |items| > 0 {
      TotalUrlCountZero(items[1..]);
      assert forall i :: 1 <= i < |items| ==> items[i] == items[1..][i - 1];
    }
  }
}
