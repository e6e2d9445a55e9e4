/**
 The component's default properties (`getDefaultProps`): the district code
 list, sorted, and the checklist label of every district.
 */
module Districts {

  import opened Options
  import opened JsText

  /** A localized-name record: language key to text. */
  type NameRecord = map<string, string>

  /** `getLocalizedString`: the record's "T" entry, `undefined` when absent. */
  function Localized(r: NameRecord): (s: Option<string>)
    ensures s.Some? <==> "T" in r
    ensures s.Some? ==> s.value == r["T"]
  {
    if "T" in r then Some(r["T"]) else None
  }

  /** A JSON object of name records: its keys in the object's own order, and
      its entries. */
  datatype NameTable = NameTable(order: seq<string>, entries: map<string, NameRecord>)

  /** An object's key list names each of its entries exactly once. */
  predicate WellFormed(t: NameTable)
  {
    && Distinct(t.order)
    && (forall k :: k in t.order ==> k in t.entries)
    && (forall k :: k in t.entries ==> k in t.order)
  }

  /** `districtCodeList`: `_.sortBy(_.keys(DistrictNameMap), identity)`. */
  function CodeList(t: NameTable): (r: seq<string>)
    ensures |r| == |t.order|
  {
    SortBy(t.order)
  }

  /** `districtLabelMap`: every district's localized name followed by
      " (code)". */
  function LabelMap(t: NameTable): (r: map<string, string>)
    ensures r.Keys == t.entries.Keys
    ensures forall c :: c in r ==> |r[c]| > 0 && r[c][|r[c]| - 1] == ')'
  {
    map c | c in t.entries :: Caption(Display(Localized(t.entries[c])), c)
  }

  /** The code list holds every district code once, in ascending order. */
  lemma CodeListSortedAndComplete(t: NameTable)
    requires WellFormed(t)
    ensures StrictlySorted(CodeList(t))
    ensures forall c :: c in CodeList(t) <==> c in t.entries
    ensures |CodeList(t)| == |t.order|
  {
    SortByPermutes(t.order);
    SortBySorted(t.order);
    forall c ensures c in CodeList(t) <==> c in t.entries {
      assert c in CodeList(t) <==> c in multiset(CodeList(t));
      assert c in t.order <==> c in multiset(t.order);
    }
    assert |multiset(CodeList(t))| == |multiset(t.order)|;
  }

  /** The code list depends only on which districts there are, not on the
      order of the keys in the name file. */
  lemma CodeListOrderIndependent(t1: NameTable, t2: NameTable)
    requires WellFormed(t1) && WellFormed(t2)
    requires t1.entries.Keys == t2.entries.Keys
    ensures CodeList(t1) == CodeList(t2)
  {
    SortByOrderIndependent(t1.order, t2.order);
  }

  /** Each district has a label; it starts with the localized name (the text
      "undefined" when the record has no "T" entry) and ends with the code in
      parentheses, from which the code can be read back. */
  lemma LabelOfDistrict(t: NameTable, c: string)
    requires c in t.entries
    ensures c in LabelMap(t)
    ensures var name := Display(Localized(t.entries[c]));
      && LabelMap(t)[c][..|name|] == name
      && CaptionCode(LabelMap(t)[c], |name|) == Some(c)
  {
    CaptionRoundTrip(Display(Localized(t.entries[c])), c);
  }

  /** Labels exist for exactly the districts of the name map. */
  lemma LabelKeys(t: NameTable)
    ensures LabelMap(t).Keys == t.entries.Keys
  {
  }

}
