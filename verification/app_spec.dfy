/**
 Properties of the dashboard callbacks, and how they meet the normalised table.
 */
module AppSpec {
  import opened Wrappers
  import opened Seqs
  import opened Flags
  import opened Text
  import opened Ingest
  import opened IngestSpec
  import opened App

  /* ---------------------------------------------------------- option lists */

  /** The dependent dropdown offers, for each mode, exactly the flag names that
      normalisation emits for that family, each once (the orders differ). */
  lemma FilterOptionsMatchFlags(mode: Mode)
    ensures ModeName(mode) in FilterOptions
    ensures Elems(FilterOptions[ModeName(mode)]) == Elems(Names(ModeKind(mode)))
    ensures Distinct(FilterOptions[ModeName(mode)]) && Distinct(Names(ModeKind(mode)))
  {
    var opts := FilterOptions[ModeName(mode)];
    var names := Names(ModeKind(mode));
    assert forall n :: n in opts <==> n in names;
  }

  /** Choosing a mode offers its flag names, and the default value is a flag of that family. */
  lemma DefaultValueIsFlag(mode: Mode)
    ensures DecideFilter(Some(ModeName(mode))).Success?
    ensures var options := DecideFilter(Some(ModeName(mode))).value;
      && Elems(OptionValues(options)) == Elems(Names(ModeKind(mode)))
      && SetFilterValue(options) == Success(FilterOptions[ModeName(mode)][0])
      && FilterOptions[ModeName(mode)][0] in Names(ModeKind(mode))
  {
    FilterOptionsMatchFlags(mode);
    var options := DecideFilter(Some(ModeName(mode))).value;
    assert OptionValues(options) == FilterOptions[ModeName(mode)];
    assert FilterOptions[ModeName(mode)][0] in FilterOptions[ModeName(mode)];
  }

  /* ------------------------------------------------------------ data table */

  lemma {:induction false} MatchingConcat(a: seq<Row>, b: seq<Row>, zipcode: Option<string>, mode: Mode, value: Option<string>)
    ensures Matching(a + b, zipcode, mode, value) == Matching(a, zipcode, mode, value) + Matching(b, zipcode, mode, value)
    decreases |b|
  {
    if |b| > 0 {
      var b' := b[..|b| - 1];
      assert (a + b)[..|a + b| - 1] == a + b';
      assert (a + b)[|a + b| - 1] == b[|b| - 1];
      MatchingConcat(a, b', zipcode, mode, value);
    } else {
      assert a + b == a;
    }
  }

  lemma {:induction false} DisplayAllConcat(a: seq<Row>, b: seq<Row>)
    ensures DisplayAll(a + b) == DisplayAll(a) + DisplayAll(b)
    decreases |b|
  {
    if |b| > 0 {
      var b' := b[..|b| - 1];
      assert (a + b)[..|a + b| - 1] == a + b';
      assert (a + b)[|a + b| - 1] == b[|b| - 1];
      DisplayAllConcat(a, b');
    } else {
      assert a + b == a;
    }
  }

  /** The data table keeps table order: filtering a concatenation renders the
      two parts' matches one after the other. */
  lemma FilterTableConcat(a: seq<Row>, b: seq<Row>, zipcode: Option<string>, mode: Mode, value: Option<string>)
    ensures FilterTable(a + b, zipcode, mode, value) ==
      FilterTable(a, zipcode, mode, value) + FilterTable(b, zipcode, mode, value)
  {
    MatchingConcat(a, b, zipcode, mode, value);
    var ma := Matching(a, zipcode, mode, value);
    var mb := Matching(b, zipcode, mode, value);
    DisplayAllConcat(ma, mb);
    if |ma| == 0 {
      assert ma + mb == mb;
    }
    if |mb| == 0 {
      assert ma + mb == ma;
    }
  }

  /** A single row is shown exactly when it passes both filters. */
  lemma FilterTableSingle(row: Row, zipcode: Option<string>, mode: Mode, value: Option<string>)
    ensures FilterTable([row], zipcode, mode, value) ==
      if Selected(row, zipcode, mode, value) then [Display(row)] else []
  {
    assert [row][..0] == [];
  }

  /** Joined list cells decode back to the row's lists when no element holds a
      comma, so the display row carries the same audiences and services. */
  lemma DisplayRoundTrip(row: Row)
    requires forall x :: x in row.audience + row.service ==> ',' !in x
    ensures |row.audience| > 0 ==> Split(Display(row).audience) == row.audience
    ensures |row.service| > 0 ==> Split(Display(row).service) == row.service
  {
    if |row.audience| > 0 {
      assert forall x :: x in row.audience ==> x in row.audience + row.service;
      SplitJoin(row.audience);
    }
    if |row.service| > 0 {
      assert forall x :: x in row.service ==> x in row.audience + row.service;
      SplitJoin(row.service);
    }
  }

  /** A non-empty notes cell decodes back to the row's notes when no note holds a comma. */
  lemma DisplayNotesRoundTrip(row: Row)
    requires forall x :: x in row.notes ==> ',' !in x
    ensures row.notes != [] && row.notes != [""] ==>
      Display(row).notes.Some? && Split(Display(row).notes.value) == row.notes
  {
    if row.notes != [] && row.notes != [""] {
      SplitJoin(row.notes);
    }
  }

  lemma FlagNamesHaveNoComma(kind: Kind)
    ensures forall n :: n in Names(kind) ==> ',' !in n
  {
  }

  /** Every non-empty audience or service cell of a rendered normalised row
      splits back into the row's list. */
  lemma NormalizedDisplayRoundTrip(records: seq<RawRecord>, i: nat)
    requires Normalize(records).Success? && i < |Normalize(records).value|
    ensures var row := Normalize(records).value[i];
      && (|row.audience| > 0 ==> Split(Display(row).audience) == row.audience)
      && (|row.service| > 0 ==> Split(Display(row).service) == row.service)
  {
    var row := Normalize(records).value[i];
    NormalizeValuesAreFlags(records);
    FlagNamesHaveNoComma(AudienceKind);
    FlagNamesHaveNoComma(ServiceKind);
    DisplayRoundTrip(row);
  }

  /** A value that is not a flag of the mode's family selects nothing from a
      normalised table. */
  lemma FilterTableNeedsFlagValue(records: seq<RawRecord>, zipcode: Option<string>, mode: Mode, value: Option<string>)
    requires FlagColumnsPresent(records)
    requires value.None? || value.value !in Names(ModeKind(mode))
    ensures FilterTable(Normalize(records).value, zipcode, mode, value) == []
  {
    var t := Normalize(records).value;
    NormalizeValuesAreFlags(records);
    forall row | row in t ensures !Selected(row, zipcode, mode, value) {
      var i :| 0 <= i < |t| && t[i] == row;
    }
  }

  /* ------------------------------------------------------------- histogram */

  /** How many of `rows` list `v` under the mode. */
  function CountHaving(rows: seq<Row>, mode: Mode, v: string): (n: nat)
    ensures n <= |rows|
  {
    if |rows| == 0 then 0
    else CountHaving(rows[..|rows| - 1], mode, v) + (if v in Collection(rows[|rows| - 1], mode) then 1 else 0)
  }

  lemma {:induction false} SomesCount(c: seq<string>, v: string)
    requires Distinct(c)
    ensures multiset(Somes(c))[Some(v)] == if v in c then 1 else 0
  {
    if |c| > 0 {
      var pre := c[..|c| - 1];
      assert c == pre + [c[|c| - 1]];
      SomesCount(pre, v);
      if v == c[|c| - 1] {
        assert v !in pre;
      }
    }
  }

  /** With duplicate-free lists, the histogram's bar for `v` counts the rows listing `v`. */
  lemma {:induction false} ExplodeCounts(rows: seq<Row>, mode: Mode, v: string)
    requires forall row :: row in rows ==> Distinct(Collection(row, mode))
    ensures multiset(Explode(rows, mode))[Some(v)] == CountHaving(rows, mode, v)
  {
    if |rows| > 0 {
      var pre := rows[..|rows| - 1];
      var last := rows[|rows| - 1];
      assert rows == pre + [last];
      ExplodeCounts(pre, mode, v);
      if |Collection(last, mode)| > 0 {
        SomesCount(Collection(last, mode), v);
      }
    }
  }

  /** On a normalised table, each bar of the histogram counts the rows of the
      selected zipcode that offer that audience or service. */
  lemma GraphCountsRows(records: seq<RawRecord>, zipcode: string, mode: Mode, v: string)
    requires Normalize(records).Success?
    ensures var g := DisplayGraph(Normalize(records).value, Some(zipcode), Some(ModeName(mode)));
      && g.Success?
      && multiset(g.value.x)[Some(v)] == CountHaving(g.value.rows, mode, v)
  {
    var t := Normalize(records).value;
    var rows := ZipRows(t, zipcode);
    forall row | row in rows ensures Distinct(Collection(row, mode)) {
      var i :| 0 <= i < |t| && t[i] == row;
      NormalizeRowContents(records, i);
    }
    ExplodeCounts(rows, mode, v);
  }

  /** Different selections give different titles. */
  lemma TitleIdentifiesSelection(m1: Mode, z1: string, m2: Mode, z2: string)
    requires Title(m1, z1) == Title(m2, z2)
    ensures m1 == m2 && z1 == z2
  {
    var t := Title(m1, z1);
    assert t[30] == ModeName(m1)[0];
    assert Title(m2, z2)[30] == ModeName(m2)[0];
    var p := |Title(m1, "")|;
    assert z1 == t[p..] == z2;
  }

  /** The two literal titles, each followed by the selected zipcode. */
  lemma GraphTitle(table: seq<Row>, zipcode: string)
    ensures DisplayGraph(table, Some(zipcode), Some("audience")).Success?
    ensures DisplayGraph(table, Some(zipcode), Some("audience")).value.title ==
      "Distribution of providers per audience type in " + zipcode
    ensures DisplayGraph(table, Some(zipcode), Some("service")).Success?
    ensures DisplayGraph(table, Some(zipcode), Some("service")).value.title ==
      "Distribution of providers per service type in " + zipcode
  {
    assert "Distribution of providers per " + "audience" + " type in " == "Distribution of providers per audience type in ";
    assert "Distribution of providers per " + "service" + " type in " == "Distribution of providers per service type in ";
  }

  /* ------------------------------------------------------ a worked example */

  const AcmeFlags: map<string, bool> := map[
    "sud_residential" := false, "substance_use" := false, "mental_health" := true, "opioid" := false,
    "housing" := false, "involuntary" := false, "detox" := false, "mh_residential" := false,
    "crisis_services" := false, "mental_health_and_sud" := false,
    "adults" := true, "youth" := false, "families" := false, "older_adults" := false]

  const Acme: RawRecord :=
    RawRecord(Some("Acme Clinic"), Some(map["zip" := Some("98144")]), AcmeFlags, Some("Walk-ins welcome"))

  const AcmeRow: Row := Row("Acme Clinic", "98144", ["adults"], ["mental_health"], ["Walk-ins welcome"])

  lemma SingletonOfElems(s: seq<string>, x: string)
    requires Distinct(s) && Elems(s) == {x}
    ensures s == [x]
  {
    DistinctCard(s);
    assert s[0] in Elems(s);
    assert s == [s[0]];
  }

  lemma AcmeKeys()
    ensures KeyOf(Acme) == Some(Key("Acme Clinic", "98144"))
    ensures Offers(Acme)
    ensures SpecKeys([Acme]) == {Key("Acme Clinic", "98144")}
    ensures FlagColumnsPresent([Acme])
  {
    assert FlagOn(Acme.flags, "adults") && "adults" in Names(AudienceKind);
    forall n | n in Services + Audiences ensures exists r :: r in [Acme] && n in r.flags {
      assert Acme in [Acme];
    }
  }

  /** For a single record with key `k`, the specified values are just its own. */
  lemma SingleRecordSpec(r: RawRecord, k: Key, kind: Kind)
    requires KeyOf(r) == Some(k) && Offers(r)
    ensures SpecFlags([r], k, kind) == set n | n in Names(kind) && FlagOn(r.flags, n)
    ensures r.notes.Some? ==> SpecNotes([r], k) == {r.notes.value}
  {
    assert r in [r];
  }

  lemma AcmeOnFlags()
    ensures (set n | n in Audiences && FlagOn(AcmeFlags, n)) == {"adults"}
    ensures (set n | n in Services && FlagOn(AcmeFlags, n)) == {"mental_health"}
  {
    assert forall n :: n in Audiences && FlagOn(AcmeFlags, n) ==> n == "adults";
    assert forall n :: n in Services && FlagOn(AcmeFlags, n) ==> n == "mental_health";
    assert FlagOn(AcmeFlags, "adults") && "adults" in Audiences;
    assert FlagOn(AcmeFlags, "mental_health") && "mental_health" in Services;
  }

  lemma AcmeValues()
    ensures SpecFlags([Acme], Key("Acme Clinic", "98144"), AudienceKind) == {"adults"}
    ensures SpecFlags([Acme], Key("Acme Clinic", "98144"), ServiceKind) == {"mental_health"}
    ensures SpecNotes([Acme], Key("Acme Clinic", "98144")) == {"Walk-ins welcome"}
  {
    AcmeKeys();
    AcmeOnFlags();
    SingleRecordSpec(Acme, Key("Acme Clinic", "98144"), AudienceKind);
    SingleRecordSpec(Acme, Key("Acme Clinic", "98144"), ServiceKind);
  }

  /** A single record that offers something normalises to a single row. */
  lemma SingleRecordNormalizes(r: RawRecord)
    requires KeyOf(r).Some? && Offers(r) && FlagColumnsPresent([r])
    ensures Normalize([r]).Success? && |Normalize([r]).value| == 1
    ensures KeyOfRow(Normalize([r]).value[0]) == KeyOf(r).value
    ensures RowMeetsSpec([r], Normalize([r]).value[0])
  {
    var records := [r];
    var k := KeyOf(r).value;
    assert r in records;
    assert SpecKeys(records) == {k};
    NormalizeKeyList(records);
    var ks := KeysOf(Normalize(records).value);
    assert ks[0] in Elems(ks);
    NormalizeRowContents(records, 0);
  }

  /** A clinic offering mental health to adults in 98144 normalises to one row. */
  lemma AcmeNormalizes()
    ensures Normalize([Acme]) == Success([AcmeRow])
  {
    AcmeKeys();
    SingleRecordNormalizes(Acme);
    var t := Normalize([Acme]).value;
    AcmeValues();
    SingletonOfElems(t[0].audience, "adults");
    SingletonOfElems(t[0].service, "mental_health");
    SingletonOfElems(t[0].notes, "Walk-ins welcome");
    assert t == [t[0]];
  }

  /** Filtering that table by 98144, service, mental_health shows the one row;
      a zipcode with no providers shows nothing. */
  lemma AcmeTable()
    ensures UpdateTable([AcmeRow], Some("98144"), Some(ServiceMode), Some("mental_health")) ==
      Success([DisplayRow("Acme Clinic", "98144", "adults", "mental_health", Some("Walk-ins welcome"))])
    ensures UpdateTable([AcmeRow], Some("98101"), Some(ServiceMode), Some("mental_health")) == Success([])
    ensures UpdateTable([AcmeRow], Some("98144"), None, Some("mental_health")) == Failure(KeyError)
  {
    FilterTableSingle(AcmeRow, Some("98144"), ServiceMode, Some("mental_health"));
    FilterTableSingle(AcmeRow, Some("98101"), ServiceMode, Some("mental_health"));
    assert "mental_health" in AcmeRow.service;
  }
}
