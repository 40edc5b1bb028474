/** What a record says, in terms of the headings of the sheet. */
module RgsRecords {
  import opened Wrappers
  import opened Texts
  import opened RgsSheet

  /** A row has one cell for a column. */
  predicate OneCellEach(row: Row) {
    forall i, k | 0 <= i < k < |row| :: row[i].column != row[k].column
  }

  /** The trimmed text of the row in a column, where there is one that is not blank. */
  ghost predicate Holds(row: Row, column: Text, v: Text) {
    v != [] && exists c | c in row :: c.column == column && v == Trim(c.value)
  }

  lemma {:induction false} ValueHolds(row: Row, column: Text, v: Text)
    requires OneCellEach(row) && v != []
    ensures RgsSheet.Value(row, column) == v <==> Holds(row, column, v)
  {
    hide Trim;
    if row != [] {
      ValueHolds(row[1..], column, v);
      assert forall c :: c in row <==> c == row[0] || c in row[1..];
      if row[0].column == column {
        forall c | c in row[1..] ensures c.column != column {
          var k :| 0 <= k < |row[1..]| && row[1..][k] == c;
          assert row[k + 1] == c;
        }
      }
    }
  }

  /** The row has `v` under a heading: in the last of its columns where it has anything. */
  ghost predicate Under(header: Row, row: Row, heading: Text, v: Text) {
    exists i | 0 <= i < |header| ::
      && header[i].value == heading && Holds(row, header[i].column, v)
      && forall k | i < k < |header| && header[k].value == heading :: forall w :: !Holds(row, header[k].column, w)
  }

  ghost predicate NothingUnder(header: Row, row: Row, heading: Text) {
    forall v :: !Under(header, row, heading, v)
  }

  lemma Holding(row: Row, column: Text)
    requires OneCellEach(row)
    ensures RgsSheet.Value(row, column) == [] <==> forall w :: !Holds(row, column, w)
    ensures forall v | v != [] :: RgsSheet.Value(row, column) == v <==> Holds(row, column, v)
  {
    forall v | v != [] ensures RgsSheet.Value(row, column) == v <==> Holds(row, column, v) {
      ValueHolds(row, column, v);
    }
    var value := RgsSheet.Value(row, column);
    assert value != [] ==> Holds(row, column, value);
    assert forall w | Holds(row, column, w) :: w != [];
  }

  /** The last column decides where it has the heading and anything in it; otherwise those before it do. */
  lemma UnderLast(header: Row, row: Row, heading: Text, v: Text)
    requires header != []
    ensures var n := |header| - 1;
      if header[n].value == heading && exists w :: Holds(row, header[n].column, w)
      then Under(header, row, heading, v) <==> Holds(row, header[n].column, v)
      else Under(header, row, heading, v) <==> Under(header[..n], row, heading, v)
  {
    hide Holds;
    var n := |header| - 1;
    assert forall k | 0 <= k < n :: header[..n][k] == header[k];
  }

  lemma {:induction false} RawUnder(header: Row, row: Row, field: Field, heading: Text, v: Text)
    requires OneCellEach(row) && forall h :: FieldOf(h) == Some(field) <==> h == heading
    ensures Raw(header, row, field) == Some(v) <==> Under(header, row, heading, v)
  {
    if header != [] {
      var n := |header| - 1;
      Holding(row, header[n].column);
      UnderLast(header, row, heading, v);
      hide Under, FieldOf;
      RawUnder(header[..n], row, field, heading, v);
      assert Holds(row, header[n].column, v) ==> v != [];
    }
  }

  // ----- the nine headings

  function HeadingOf(field: Field): Text {
    match field
    case Code => Ascii("Referentiecode")
    case OmslagCode => Ascii("ReferentieOmslagcode")
    case SortKey => Ascii("Sortering")
    case ReferenceNumber => Ascii("Referentienummer")
    case ShortDescription => Ascii("Omschrijving (verkort)")
    case Description => Ascii("Omschrijving")
    case DebitCredit => Ascii("D/C")
    case Level => Ascii("Nivo")
    case Inactive => Ascii("Inactief")
  }

  lemma Headings(field: Field)
    ensures forall h :: FieldOf(h) == Some(field) <==> h == HeadingOf(field)
  {
  }

  lemma RawIs(header: Row, row: Row, field: Field)
    requires OneCellEach(row)
    ensures Raw(header, row, field).None? <==> NothingUnder(header, row, HeadingOf(field))
    ensures forall v :: Raw(header, row, field) == Some(v) <==> Under(header, row, HeadingOf(field), v)
    ensures Raw(header, row, field).Some? ==> Under(header, row, HeadingOf(field), Raw(header, row, field).value)
  {
    Headings(field);
    hide FieldOf, HeadingOf, Under, Raw;
    forall v ensures Raw(header, row, field) == Some(v) <==> Under(header, row, HeadingOf(field), v) {
      RawUnder(header, row, field, HeadingOf(field), v);
    }
    if Raw(header, row, field).Some? {
      assert Under(header, row, HeadingOf(field), Raw(header, row, field).value);
    }
  }

  /** A text of the record: what stands under the heading, or the default where nothing does. */
  ghost predicate Told(header: Row, row: Row, heading: Text, v: Text, default: Text) {
    Under(header, row, heading, v) || (NothingUnder(header, row, heading) && v == default)
  }

  ghost predicate ToldIfAny(header: Row, row: Row, heading: Text, v: Option<Text>) {
    match v
    case None => NothingUnder(header, row, heading)
    case Some(t) => Under(header, row, heading, t)
  }

  /** Each text of a record is the trimmed cell under its own heading. */
  lemma RecordTexts(number: Text -> Option<real>, header: Row, row: Row)
    requires OneCellEach(row) && Coded(header, row) && Good(number, header, row)
    ensures var r := RecordOf(number, header, row);
      && Under(header, row, HeadingOf(Code), r.code)
      && ToldIfAny(header, row, HeadingOf(OmslagCode), r.omslagCode)
      && Told(header, row, HeadingOf(SortKey), r.sortKey, [])
      && Told(header, row, HeadingOf(ReferenceNumber), r.referenceNumber, [])
      && Told(header, row, HeadingOf(Description), r.description, [])
      && Told(header, row, HeadingOf(ShortDescription), r.shortDescription, r.description)
  {
    RawIs(header, row, Code);
    RawIs(header, row, OmslagCode);
    RawIs(header, row, SortKey);
    RawIs(header, row, ReferenceNumber);
    RawIs(header, row, Description);
    RawIs(header, row, ShortDescription);
    hide Under, NothingUnder, Raw, HeadingOf, LevelOf, Flags, Upper;
  }

  predicate SameInCapitals(t: Text, capitals: Text) {
    |t| == |capitals| && forall i | 0 <= i < |t| :: capitals[i] == if 97 <= t[i] <= 122 then t[i] - 32 else t[i]
  }

  /** The other fields: debit or credit in capitals, a level from 1 to 5, and whether a code is inactive. */
  lemma RecordMarks(number: Text -> Option<real>, header: Row, row: Row)
    requires OneCellEach(row) && Coded(header, row) && Good(number, header, row)
    ensures var r := RecordOf(number, header, row);
      && (r.debitCredit.None? <==> NothingUnder(header, row, HeadingOf(DebitCredit)))
      && (r.debitCredit.Some? ==>
            && (r.debitCredit.value == Ascii("D") || r.debitCredit.value == Ascii("C"))
            && exists v :: Under(header, row, HeadingOf(DebitCredit), v) && SameInCapitals(v, r.debitCredit.value))
      && 1 <= r.level <= 5
      && (exists v :: Under(header, row, HeadingOf(Level), v) && number(v) == Some(r.level as real))
      && (r.inactive <==> !NothingUnder(header, row, HeadingOf(Inactive)))
  {
    RawIs(header, row, DebitCredit);
    RawIs(header, row, Level);
    RawIs(header, row, Inactive);
    MarksOf(number, header, row);
    hide Under, NothingUnder, Raw, HeadingOf, Flags, RecordOf, Good, SameInCapitals, Ascii;
  }

  lemma MarksOf(number: Text -> Option<real>, header: Row, row: Row)
    requires Coded(header, row) && Good(number, header, row)
    ensures var r, debitCredit, level :=
        RecordOf(number, header, row), Raw(header, row, DebitCredit), Raw(header, row, Level);
      && (r.debitCredit.Some? <==> debitCredit.Some?)
      && (r.debitCredit.Some? ==>
            && (r.debitCredit.value == Ascii("D") || r.debitCredit.value == Ascii("C"))
            && SameInCapitals(debitCredit.value, r.debitCredit.value))
      && level.Some? && 1 <= r.level <= 5 && number(level.value) == Some(r.level as real)
      && (r.inactive <==> Raw(header, row, Inactive).Some?)
  {
    hide Raw, Flags, GoodFlags;
  }

  predicate IsHeading(h: Text) {
    exists field :: h == HeadingOf(field)
  }

  /** The flags are the other headings, under which the row has a `1`. */
  lemma RecordFlags(number: Text -> Option<real>, header: Row, row: Row, h: Text)
    requires OneCellEach(row) && Coded(header, row) && Good(number, header, row)
    ensures h in RecordOf(number, header, row).flags <==> !IsHeading(h) && Under(header, row, h, Ascii("1"))
  {
    NoField(h);
    hide FieldOf, HeadingOf, IsHeading;
    forall i | 0 <= i < |header| && header[i].value == h && FieldOf(h) == None
      ensures Flagged(header, row, header[i]) <==> Holds(row, header[i].column, Ascii("1"))
      ensures Flagged(header, row, header[i]) <==> exists w :: Holds(row, header[i].column, w)
    {
      assert header[i] in header;
      Holding(row, header[i].column);
    }
    if FieldOf(h) == None {
      LastUnder(header, row, h);
    }
  }

  /** If any column with the heading has anything, and all that have have the same, that is under it. */
  lemma {:induction false} LastUnder(header: Row, row: Row, h: Text)
    requires forall i | 0 <= i < |header| && header[i].value == h ::
      Holds(row, header[i].column, Ascii("1")) <==> exists w :: Holds(row, header[i].column, w)
    ensures (exists i | 0 <= i < |header| && header[i].value == h :: Holds(row, header[i].column, Ascii("1")))
      <==> Under(header, row, h, Ascii("1"))
  {
    hide Holds, Ascii;
    if header != [] {
      var n := |header| - 1;
      assert forall k | 0 <= k < n :: header[..n][k] == header[k];
      LastUnder(header[..n], row, h);
      UnderLast(header, row, h, Ascii("1"));
      hide Under;
      if i :| 0 <= i < |header| && header[i].value == h && Holds(row, header[i].column, Ascii("1")) {
        if i < n {
          assert Holds(row, header[..n][i].column, Ascii("1"));
        }
      }
      if Under(header[..n], row, h, Ascii("1")) {
        var i :| 0 <= i < n && header[..n][i].value == h && Holds(row, header[..n][i].column, Ascii("1"));
        assert Holds(row, header[i].column, Ascii("1"));
      }
    }
  }

  // ----- which rows are good, and which sheets have the columns

  const ONE: Text := [49]
  const LEVELS: set<Option<real>> := {Some(1.0), Some(2.0), Some(3.0), Some(4.0), Some(5.0)}

  /** Every cell that the row has under a heading other than the nine is a `1`. */
  ghost predicate OnlyOnes(header: Row, row: Row) {
    forall i, v | 0 <= i < |header| && !IsHeading(header[i].value) && Holds(row, header[i].column, v) :: v == ONE
  }

  /**
   * A row is good if and only if its flags are ones, its debit or credit is blank or a letter D or C of
   * either case, and its level is a whole number from 1 to 5.
   */
  lemma GoodRows(number: Text -> Option<real>, header: Row, row: Row)
    requires OneCellEach(row)
    ensures Good(number, header, row) <==>
      && OnlyOnes(header, row)
      && (forall v | Under(header, row, HeadingOf(DebitCredit), v) :: v in {[68], [100], [67], [99]})
      && exists v :: Under(header, row, HeadingOf(Level), v) && number(v) in LEVELS
  {
    FlagsAreOnes(header, row);
    RawIs(header, row, DebitCredit);
    RawIs(header, row, Level);
    hide Under, NothingUnder, Raw, HeadingOf, GoodFlags, OnlyOnes;
    var debitCredit, level := Raw(header, row, DebitCredit), Raw(header, row, Level);
    if debitCredit.Some? {
      Letters(debitCredit.value);
    }
    if level.Some? {
      Levels(number, level.value);
    }
  }

  lemma Letters(v: Text)
    ensures Upper(v) == Ascii("D") || Upper(v) == Ascii("C") <==> v in {[68], [100], [67], [99]}
  {
    assert Ascii("D") == [68] && Ascii("C") == [67];
    if |v| == 1 {
      assert v == [v[0]] && Upper(v) == [Upper(v)[0]];
    }
  }

  lemma Levels(number: Text -> Option<real>, v: Text)
    ensures LevelOf(number, Some(v)).Some? <==> number(v) in LEVELS
  {
    if LevelOf(number, Some(v)).Some? {
      assert number(v) == Some(LevelOf(number, Some(v)).value as real);
    }
  }

  lemma FlagsAreOnes(header: Row, row: Row)
    requires OneCellEach(row)
    ensures GoodFlags(header, row) <==> OnlyOnes(header, row)
  {
    assert Ascii("1") == ONE;
    forall i | 0 <= i < |header|
      ensures header[i] in header && (FieldOf(header[i].value) == None <==> !IsHeading(header[i].value))
      ensures RgsSheet.Value(row, header[i].column) == [] <==> forall w :: !Holds(row, header[i].column, w)
      ensures forall v | v != [] :: RgsSheet.Value(row, header[i].column) == v <==> Holds(row, header[i].column, v)
    {
      NoField(header[i].value);
      Holding(row, header[i].column);
    }
    hide FieldOf, IsHeading, Holds, ONE;
    assert forall i, v | 0 <= i < |header| && Holds(row, header[i].column, v) :: v != [] by { HoldsSome(); }
  }

  lemma HoldsSome()
    ensures forall row, column, v | Holds(row, column, v) :: v != []
  {
  }

  lemma NoField(h: Text)
    ensures FieldOf(h) == None <==> !IsHeading(h)
  {
    forall field ensures FieldOf(h) == Some(field) <==> h == HeadingOf(field) {
      Headings(field);
    }
    hide FieldOf, HeadingOf;
  }

  predicate HasHeading(header: Row, h: Text) {
    exists c :: c in header && c.value == h
  }

  /** The sheet needs four columns: the code, the reference number, the description and the level. */
  lemma NeededColumns(header: Row)
    ensures (forall f | f in REQUIRED :: HasColumn(header, f)) <==>
      && HasHeading(header, HeadingOf(Code)) && HasHeading(header, HeadingOf(ReferenceNumber))
      && HasHeading(header, HeadingOf(Description)) && HasHeading(header, HeadingOf(Level))
  {
    forall f ensures HasColumn(header, f) <==> HasHeading(header, HeadingOf(f)) {
      Headings(f);
      hide FieldOf, HeadingOf;
    }
    hide HasColumn, HeadingOf, HasHeading;
    assert forall f :: f in REQUIRED <==> f == Code || f == ReferenceNumber || f == Description || f == Level;
  }

  /** The header is the first row that has the heading of the codes. */
  lemma HeaderIs(rows: seq<Row>)
    ensures var h := HeaderIndex(rows);
      && (h < |rows| ==> HasHeading(rows[h], HeadingOf(Code)))
      && forall i | 0 <= i < h :: !HasHeading(rows[i], HeadingOf(Code))
  {
    forall row ensures IsHeader(row) <==> HasHeading(row, HeadingOf(Code)) {
    }
    hide IsHeader, HasHeading, HeadingOf;
  }

  // ----- the corrections

  predicate HasSmall(v: Text) {
    exists i :: 0 <= i < |v| && 97 <= v[i] <= 122
  }

  /** A debit or credit is corrected where it has a small letter. */
  lemma LoweredRows(header: Row, row: Row)
    requires OneCellEach(row)
    ensures Lowered(header, row) <==>
      exists v :: Under(header, row, HeadingOf(DebitCredit), v) && HasSmall(v)
  {
    RawIs(header, row, DebitCredit);
    hide Under, NothingUnder, Raw, HeadingOf, HasSmall, Upper;
    var raw := Raw(header, row, DebitCredit);
    if raw.Some? {
      Smalls(raw.value);
    }
    if v :| Under(header, row, HeadingOf(DebitCredit), v) && HasSmall(v) {
      assert raw == Some(v);
    }
  }

  lemma Smalls(v: Text)
    ensures v != Upper(v) <==> HasSmall(v)
  {
    if i :| 0 <= i < |v| && 97 <= v[i] <= 122 {
      assert v[i] != Upper(v)[i];
    } else {
      assert forall i | 0 <= i < |v| :: v[i] == Upper(v)[i];
    }
  }

  /** The corrections are reported in the order of the rows, each by the code of its row. */
  lemma {:induction false} CorrectionsListed(header: Row, data: seq<Row>, i: nat)
    requires i < |data|
    ensures Normalised(header, data[..i + 1]) == Normalised(header, data[..i]) +
      if Coded(header, data[i]) && Lowered(header, data[i]) then [Raw(header, data[i], Code).value] else []
    ensures Normalised(header, []) == []
  {
    assert data[..i + 1][..i] == data[..i];
  }
}
