/**
 The normalisation transform: raw provider records, one column per flag, are
 pivoted into long form (one row per flag that is True), deduplicated, and
 grouped back into one row per (provider, zipcode) holding the distinct
 non-null audiences, services and notes of that key.
 */
module Ingest {
  import opened Wrappers
  import opened Seqs
  import opened Order
  import opened Flags

  /** What `ast.literal_eval` made of the `human_address` text when it yielded a
      mapping: each key maps to a string or to Python's `None`. */
  type AddressDict = map<string, Option<string>>

  /** One record of the provider directory. `address` is the outcome of parsing
      `human_address`: `None` when the parse raised or gave something that cannot
      be subscripted by `'zip'`. A flag missing from `flags` is NaN in the frame. */
  datatype RawRecord = RawRecord(
    provider: Option<string>,
    address: Option<AddressDict>,
    flags: map<string, bool>,
    notes: Option<string>)

  /** One row of the normalised table; the three lists stand for sets. */
  datatype Row = Row(
    provider: string,
    zipcode: string,
    audience: seq<string>,
    service: seq<string>,
    notes: seq<string>)

  /** Why normalisation fails: `melt` was asked for a flag column no record has. */
  datatype IngestError = MissingFlagColumn

  /** `extract_zipcode_from_address`: the `'zip'` entry of the parsed address, and
      `None` when the parse failed, the key is missing, or its value is `None`. */
  function ExtractZip(address: Option<AddressDict>): (zip: Option<string>)
    ensures address.Some? && "zip" in address.value ==> zip == address.value["zip"]
    ensures address.None? || "zip" !in address.value ==> zip.None?
  {
    match address
    case None => None
    case Some(d) => if "zip" in d then d["zip"] else None
  }

  /* ---------------------------------------------------------------- long form */

  /** A row of the concatenated audience/service frames; the column of the other
      family is NaN. */
  datatype LongRow = LongRow(
    zipcode: Option<string>,
    provider: Option<string>,
    audience: Option<string>,
    service: Option<string>,
    notes: Option<string>)

  /** The long-form row for flag `name` of family `kind` of record `r`. */
  function Pivot(r: RawRecord, kind: Kind, name: string): LongRow
  {
    LongRow(
      ExtractZip(r.address),
      r.provider,
      if kind == AudienceKind then Some(name) else None,
      if kind == ServiceKind then Some(name) else None,
      r.notes)
  }

  /** `melt` of one record over `names`, followed by the `== True` filter. */
  function MeltRecord(r: RawRecord, kind: Kind, names: seq<string>): (rows: seq<LongRow>)
    ensures forall lr :: lr in rows <==> exists n :: n in names && FlagOn(r.flags, n) && lr == Pivot(r, kind, n)
    ensures Distinct(names) ==> Distinct(rows)
  {
    if |names| == 0 then []
    else
      var last := names[|names| - 1];
      assert names == names[..|names| - 1] + [last];
      assert forall n :: Pivot(r, kind, n) == Pivot(r, kind, last) ==> n == last;
      assert Distinct(names) ==> Pivot(r, kind, last) !in MeltRecord(r, kind, names[..|names| - 1]);
      MeltRecord(r, kind, names[..|names| - 1]) + (if FlagOn(r.flags, last) then [Pivot(r, kind, last)] else [])
  }

  /** The melted and filtered frame of one flag family over all records; its
      rows are described by `MeltMember`. */
  function Melt(records: seq<RawRecord>, kind: Kind): seq<LongRow>
  {
    if |records| == 0 then []
    else Melt(records[..|records| - 1], kind) + MeltRecord(records[|records| - 1], kind, Names(kind))
  }

  /** A row is in the melted frame exactly when it is the pivot of a True flag
      of that family in some record. */
  lemma {:induction false} MeltMember(records: seq<RawRecord>, kind: Kind, lr: LongRow)
    ensures lr in Melt(records, kind) <==>
      exists r, n :: r in records && n in Names(kind) && FlagOn(r.flags, n) && lr == Pivot(r, kind, n)
  {
    if |records| > 0 {
      var pre := records[..|records| - 1];
      var last := records[|records| - 1];
      MeltMember(pre, kind, lr);
      assert records == pre + [last];
      assert forall r :: r in records <==> r in pre || r == last;
    }
  }

  /** The deduplicated audience frame followed by the deduplicated service frame. */
  function LongForm(records: seq<RawRecord>): seq<LongRow>
  {
    Dedup(Melt(records, AudienceKind)) + Dedup(Melt(records, ServiceKind))
  }

  /* ----------------------------------------------------------------- group-by */

  /** A group-by key. */
  datatype Key = Key(provider: string, zipcode: string)

  /** The key of a long row; `None` when either part is null, which group-by drops. */
  function RowKey(lr: LongRow): Option<Key>
  {
    if lr.provider.Some? && lr.zipcode.Some? then Some(Key(lr.provider.value, lr.zipcode.value)) else None
  }

  /** The three aggregated columns. */
  datatype Column = AudienceCol | ServiceCol | NotesCol

  function Cell(lr: LongRow, c: Column): Option<string>
  {
    match c
    case AudienceCol => lr.audience
    case ServiceCol => lr.service
    case NotesCol => lr.notes
  }

  /** The aggregate of one group so far. */
  datatype Group = Group(audience: seq<string>, service: seq<string>, notes: seq<string>)

  function Field(g: Group, c: Column): seq<string>
  {
    match c
    case AudienceCol => g.audience
    case ServiceCol => g.service
    case NotesCol => g.notes
  }

  /** `set(x.dropna())` one value at a time. */
  function AddCell(s: seq<string>, v: Option<string>): seq<string>
  {
    if v.Some? then AddDistinct(s, v.value) else s
  }

  function AddRow(g: Group, lr: LongRow): Group
  {
    Group(AddCell(g.audience, lr.audience), AddCell(g.service, lr.service), AddCell(g.notes, lr.notes))
  }

  /** The group-by aggregation, keyed by (provider, zipcode). */
  function Collect(rows: seq<LongRow>): map<Key, Group>
  {
    if |rows| == 0 then map[]
    else
      var m := Collect(rows[..|rows| - 1]);
      var lr := rows[|rows| - 1];
      match RowKey(lr)
      case None => m
      case Some(k) => m[k := AddRow(if k in m then m[k] else Group([], [], []), lr)]
  }

  /** The values column `c` takes on the non-null rows of key `k`. */
  ghost function ColumnValues(rows: seq<LongRow>, k: Key, c: Column): set<string>
  {
    set lr | lr in rows && RowKey(lr) == Some(k) && Cell(lr, c).Some? :: Cell(lr, c).value
  }

  lemma ColumnValuesSnoc(rows: seq<LongRow>, lr: LongRow, k: Key, c: Column)
    ensures ColumnValues(rows + [lr], k, c) ==
      ColumnValues(rows, k, c) + (if RowKey(lr) == Some(k) && Cell(lr, c).Some? then {Cell(lr, c).value} else {})
  {
    var all := rows + [lr];
    forall v | v in ColumnValues(all, k, c)
      ensures v in ColumnValues(rows, k, c) || (RowKey(lr) == Some(k) && Cell(lr, c) == Some(v))
    {
      var x :| x in all && RowKey(x) == Some(k) && Cell(x, c) == Some(v);
      if x != lr {
        assert x in rows;
      }
    }
    forall v | v in ColumnValues(rows, k, c) ensures v in ColumnValues(all, k, c) {
      var x :| x in rows && RowKey(x) == Some(k) && Cell(x, c) == Some(v);
      assert x in all;
    }
    if RowKey(lr) == Some(k) && Cell(lr, c).Some? {
      assert lr in all;
    }
  }

  /** One step of `CollectSpec` for key membership: appending a row keeps
      "a key is present exactly when some row has it". */
  lemma CollectKeyStep(rows: seq<LongRow>, k: Key)
    requires |rows| > 0
    requires k in Collect(rows[..|rows| - 1]) <==> exists x :: x in rows[..|rows| - 1] && RowKey(x) == Some(k)
    ensures k in Collect(rows) <==> exists x :: x in rows && RowKey(x) == Some(k)
  {
    var pre := rows[..|rows| - 1];
    var lr := rows[|rows| - 1];
    assert rows == pre + [lr];
    if k in Collect(rows) && RowKey(lr) != Some(k) {
      var x :| x in pre && RowKey(x) == Some(k);
      assert x in rows;
    }
    if exists x :: x in rows && RowKey(x) == Some(k) {
      var x :| x in rows && RowKey(x) == Some(k);
      if x != lr {
        assert x in pre;
      }
    }
  }

  /** One step of `CollectSpec` for one column of one group: appending a row
      keeps the column duplicate-free and equal, as a set, to its values. */
  lemma CollectColumnStep(rows: seq<LongRow>, k: Key, c: Column)
    requires |rows| > 0 && k in Collect(rows)
    requires k in Collect(rows[..|rows| - 1]) ==>
      Distinct(Field(Collect(rows[..|rows| - 1])[k], c)) &&
      Elems(Field(Collect(rows[..|rows| - 1])[k], c)) == ColumnValues(rows[..|rows| - 1], k, c)
    requires k !in Collect(rows[..|rows| - 1]) ==> forall x :: x in rows[..|rows| - 1] ==> RowKey(x) != Some(k)
    ensures Distinct(Field(Collect(rows)[k], c)) && Elems(Field(Collect(rows)[k], c)) == ColumnValues(rows, k, c)
  {
    var pre := rows[..|rows| - 1];
    var lr := rows[|rows| - 1];
    assert rows == pre + [lr];
    var m := Collect(pre);
    ColumnValuesSnoc(pre, lr, k, c);
    if RowKey(lr) == Some(k) {
      var g := if k in m then m[k] else Group([], [], []);
      if k !in m {
        assert forall x :: x in pre ==> RowKey(x) != Some(k);
        assert ColumnValues(pre, k, c) == {};
      }
      assert Distinct(Field(g, c)) && Elems(Field(g, c)) == ColumnValues(pre, k, c);
      AddCellSpec(Field(g, c), Cell(lr, c));
      assert Collect(rows)[k] == AddRow(g, lr);
      assert Field(AddRow(g, lr), c) == AddCell(Field(g, c), Cell(lr, c));
    } else {
      assert k in m && Collect(rows)[k] == m[k];
    }
  }

  lemma AddCellSpec(s: seq<string>, v: Option<string>)
    requires Distinct(s)
    ensures Distinct(AddCell(s, v))
    ensures Elems(AddCell(s, v)) == Elems(s) + (if v.Some? then {v.value} else {})
  {
  }

  /** Group-by with a set aggregation: a key is present exactly when some row has
      it, and each of its columns lists, without repetition, the non-null values
      that column takes on the rows of that key. */
  lemma {:induction false} CollectSpec(rows: seq<LongRow>)
    ensures forall k :: k in Collect(rows) <==> exists lr :: lr in rows && RowKey(lr) == Some(k)
    ensures forall k, c :: k in Collect(rows) ==>
      Distinct(Field(Collect(rows)[k], c)) && Elems(Field(Collect(rows)[k], c)) == ColumnValues(rows, k, c)
  {
    if |rows| > 0 {
      CollectSpec(rows[..|rows| - 1]);
      forall k ensures k in Collect(rows) <==> exists x :: x in rows && RowKey(x) == Some(k) {
        CollectKeyStep(rows, k);
      }
      forall k, c | k in Collect(rows)
        ensures Distinct(Field(Collect(rows)[k], c)) && Elems(Field(Collect(rows)[k], c)) == ColumnValues(rows, k, c)
      {
        CollectColumnStep(rows, k, c);
      }
    }
  }

  /* ------------------------------------------------------------ sorted output */

  /** Tuple order on keys, as group-by sorts them. */
  predicate KeyLess(a: Key, b: Key)
  {
    StrLess(a.provider, b.provider) || (a.provider == b.provider && StrLess(a.zipcode, b.zipcode))
  }

  lemma KeyLessIrreflexive(a: Key)
    ensures !KeyLess(a, a)
  {
    StrLessIrreflexive(a.provider);
    StrLessIrreflexive(a.zipcode);
  }

  lemma KeyLessTransitive(a: Key, b: Key, c: Key)
    requires KeyLess(a, b) && KeyLess(b, c)
    ensures KeyLess(a, c)
  {
    if StrLess(a.provider, b.provider) && StrLess(b.provider, c.provider) {
      StrLessTransitive(a.provider, b.provider, c.provider);
    } else if a.provider == b.provider && b.provider == c.provider {
      StrLessTransitive(a.zipcode, b.zipcode, c.zipcode);
    }
  }

  lemma KeyLessTotal(a: Key, b: Key)
    requires a != b
    ensures KeyLess(a, b) || KeyLess(b, a)
  {
    if a.provider != b.provider {
      StrLessTotal(a.provider, b.provider);
    } else {
      StrLessTotal(a.zipcode, b.zipcode);
    }
  }

  lemma KeyLessAsymmetric(a: Key, b: Key)
    requires KeyLess(a, b)
    ensures !KeyLess(b, a)
  {
    if KeyLess(b, a) {
      KeyLessTransitive(a, b, a);
      KeyLessIrreflexive(a);
    }
  }

  /** Strictly increasing, hence duplicate-free. */
  predicate SortedKeys(ks: seq<Key>)
  {
    forall i, j :: 0 <= i < j < |ks| ==> KeyLess(ks[i], ks[j])
  }

  /** Inserts `k` at its place in a sorted key list, unless it is already there. */
  function InsertKey(ks: seq<Key>, k: Key): seq<Key>
  {
    if |ks| == 0 then [k]
    else if ks[0] == k then ks
    else if KeyLess(k, ks[0]) then [k] + ks
    else [ks[0]] + InsertKey(ks[1..], k)
  }

  /** Insertion adds exactly `k`. */
  lemma {:induction false} InsertKeyElems(ks: seq<Key>, k: Key)
    ensures Elems(InsertKey(ks, k)) == Elems(ks) + {k}
  {
    if |ks| > 0 && ks[0] != k && !KeyLess(k, ks[0]) {
      var tail := ks[1..];
      assert ks == [ks[0]] + tail;
      InsertKeyElems(tail, k);
      assert Elems(InsertKey(ks, k)) == {ks[0]} + Elems(InsertKey(tail, k));
      assert Elems(ks) == {ks[0]} + Elems(tail);
    }
  }

  lemma {:induction false} InsertKeySpec(ks: seq<Key>, k: Key)
    requires SortedKeys(ks)
    ensures SortedKeys(InsertKey(ks, k))
    ensures Elems(InsertKey(ks, k)) == Elems(ks) + {k}
  {
    InsertKeyElems(ks, k);
    if |ks| == 0 {
    } else if ks[0] == k {
    } else if KeyLess(k, ks[0]) {
      var r := [k] + ks;
      forall i, j | 0 <= i < j < |r| ensures KeyLess(r[i], r[j]) {
        if i == 0 && j > 1 {
          KeyLessTransitive(k, ks[0], ks[j - 1]);
        }
      }
    } else {
      KeyLessTotal(k, ks[0]);
      var tail := ks[1..];
      InsertKeySpec(tail, k);
      var rest := InsertKey(tail, k);
      var r := [ks[0]] + rest;
      forall i, j | 0 <= i < j < |r| ensures KeyLess(r[i], r[j]) {
        if i == 0 {
          assert r[j] in Elems(rest);
          if r[j] != k {
            var m :| 0 <= m < |tail| && tail[m] == r[j];
            assert ks[m + 1] == r[j];
          }
        } else {
          assert r[i] == rest[i - 1] && r[j] == rest[j - 1];
        }
      }
    }
  }

  /** The distinct non-null keys of `rows`, sorted. */
  function KeyOrder(rows: seq<LongRow>): seq<Key>
  {
    if |rows| == 0 then []
    else
      var ks := KeyOrder(rows[..|rows| - 1]);
      match RowKey(rows[|rows| - 1])
      case None => ks
      case Some(k) => InsertKey(ks, k)
  }

  lemma {:induction false} KeyOrderSpec(rows: seq<LongRow>)
    ensures SortedKeys(KeyOrder(rows))
    ensures forall k :: k in KeyOrder(rows) <==> k in Collect(rows)
  {
    if |rows| > 0 {
      var pre := rows[..|rows| - 1];
      KeyOrderSpec(pre);
      var ks := KeyOrder(pre);
      match RowKey(rows[|rows| - 1])
      case None =>
      case Some(k) =>
        InsertKeySpec(ks, k);
        assert forall x :: x in InsertKey(ks, k) <==> x in Elems(InsertKey(ks, k));
    }
  }

  /** The aggregated table, one row per key in key order. */
  function Table(rows: seq<LongRow>): (t: seq<Row>)
  {
    var m := Collect(rows);
    var ks := KeyOrder(rows);
    KeyOrderSpec(rows);
    seq(|ks|, i requires 0 <= i < |ks| =>
      Row(ks[i].provider, ks[i].zipcode, m[ks[i]].audience, m[ks[i]].service, m[ks[i]].notes))
  }

  /** The table has one row per collected key, and the keys are in order. */
  lemma TableRows(rows: seq<LongRow>)
    ensures |Table(rows)| == |KeyOrder(rows)|
    ensures SortedKeys(KeyOrder(rows))
    ensures forall k :: k in KeyOrder(rows) <==> k in Collect(rows)
  {
    KeyOrderSpec(rows);
  }

  /** Row `i` of the table is the group of the `i`-th key in key order. */
  lemma TableRowAt(rows: seq<LongRow>, i: nat)
    requires i < |Table(rows)|
    ensures var k := KeyOrder(rows)[i];
      && k in Collect(rows)
      && Table(rows)[i] ==
        Row(k.provider, k.zipcode, Collect(rows)[k].audience, Collect(rows)[k].service, Collect(rows)[k].notes)
  {
    KeyOrderSpec(rows);
  }

  /** `CollectSpec` for one key and column. */
  lemma CollectAt(rows: seq<LongRow>, k: Key, c: Column)
    requires k in Collect(rows)
    ensures Distinct(Field(Collect(rows)[k], c))
    ensures Elems(Field(Collect(rows)[k], c)) == ColumnValues(rows, k, c)
  {
    CollectSpec(rows);
  }

  /** Every flag column `melt` is asked for exists in the frame. */
  predicate FlagColumnsPresent(records: seq<RawRecord>)
  {
    forall n :: n in Services + Audiences ==> exists r :: r in records && n in r.flags
  }

  /** The normalisation transform. */
  function Normalize(records: seq<RawRecord>): Result<seq<Row>, IngestError>
  {
    if FlagColumnsPresent(records) then Success(Table(LongForm(records)))
    else Failure(MissingFlagColumn)
  }
}
