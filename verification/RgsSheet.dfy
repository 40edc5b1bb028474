/** `convertSheet`: the rows of the published workbook as sorted records, or the reason why not. */
module RgsSheet {
  import opened Wrappers
  import opened Texts

  datatype Field =
    | Code | OmslagCode | SortKey | ReferenceNumber | ShortDescription | Description | DebitCredit | Level | Inactive

  datatype Cell = Cell(column: Text, value: Text)

  /** The cells of a row, one for a column; a blank one is absent. */
  type Row = seq<Cell>

  datatype Record = Record(
    code: Text, omslagCode: Option<Text>, sortKey: Text, referenceNumber: Text, shortDescription: Text,
      description: Text,
    debitCredit: Option<Text>, level: int, inactive: bool, flags: set<Text>)

  datatype Problem =
    | NoHeader
    | NoColumn(field: Field)
    | DuplicateCode(code: Text)
    | BadFlag(code: Text)
    | BadDebitCredit(code: Text)
    | BadLevel(code: Text)
    | Interior(count: nat)

  datatype Outcome = Converted(codes: seq<Record>, codeCount: nat, normalised: seq<Text>) | Failed(problem: Problem)

  /** `FIELD_HEADERS`. */
  function FieldOf(heading: Text): Option<Field> {
    if heading == Ascii("Referentiecode") then Some(Code)
    else if heading == Ascii("ReferentieOmslagcode") then Some(OmslagCode)
    else if heading == Ascii("Sortering") then Some(SortKey)
    else if heading == Ascii("Referentienummer") then Some(ReferenceNumber)
    else if heading == Ascii("Omschrijving (verkort)") then Some(ShortDescription)
    else if heading == Ascii("Omschrijving") then Some(Description)
    else if heading == Ascii("D/C") then Some(DebitCredit)
    else if heading == Ascii("Nivo") then Some(Level)
    else if heading == Ascii("Inactief") then Some(Inactive)
    else None
  }

  const REQUIRED: seq<Field> := [Code, ReferenceNumber, Description, Level]

  predicate IsHeader(row: Row) {
    exists c | c in row :: c.value == Ascii("Referentiecode")
  }

  /** `findIndex` of the header; the length when there is none. */
  function HeaderIndex(rows: seq<Row>): (r: nat)
    ensures r <= |rows| && (r < |rows| ==> IsHeader(rows[r])) && forall i | 0 <= i < r :: !IsHeader(rows[i])
  {
    if rows == [] || IsHeader(rows[0]) then 0 else 1 + HeaderIndex(rows[1..])
  }

  predicate HasColumn(header: Row, field: Field) {
    exists c | c in header :: FieldOf(c.value) == Some(field)
  }

  // ----- one row

  /** The trimmed value of a row in a column; nothing is blank. */
  function Value(row: Row, column: Text): Text {
    if row == [] then [] else if row[0].column == column then Trim(row[0].value) else Value(row[1..], column)
  }

  /** What a row has for a field: the last of the field's columns that is not blank. */
  function Raw(header: Row, row: Row, field: Field): Option<Text> {
    if header == [] then None
    else
      var last := header[|header| - 1];
      var value := Value(row, last.column);
      if FieldOf(last.value) == Some(field) && value != [] then Some(value) else Raw(header[..|header| - 1], row, field)
  }

  predicate Coded(header: Row, row: Row) {
    Raw(header, row, Code).Some?
  }

  /** The columns without a field that a row has a value in, and the heading of the column. */
  predicate Flagged(header: Row, row: Row, c: Cell) {
    c in header && FieldOf(c.value) == None && Value(row, c.column) != []
  }

  function Flags(header: Row, row: Row): set<Text> {
    set c | c in header && Flagged(header, row, c) :: c.value
  }

  function Upper(t: Text): (r: Text)
    ensures |r| == |t|
  {
    seq(|t|, i requires 0 <= i < |t| => if U('a') <= t[i] <= U('z') then t[i] - 32 else t[i])
  }

  predicate GoodFlags(header: Row, row: Row) {
    forall c | c in header && Flagged(header, row, c) :: Value(row, c.column) == Ascii("1")
  }

  predicate GoodDebitCredit(header: Row, row: Row) {
    var raw := Raw(header, row, DebitCredit);
    raw.None? || Upper(raw.value) == Ascii("D") || Upper(raw.value) == Ascii("C")
  }

  /** `number` is `Number`, of a text; `None` for what is no finite number. */
  function LevelOf(number: Text -> Option<real>, raw: Option<Text>): Option<int> {
    if raw.None? || number(raw.value).None? then None
    else
      var n := number(raw.value).value;
      if n == n.Floor as real && 1 <= n.Floor <= 5 then Some(n.Floor) else None
  }

  predicate Good(number: Text -> Option<real>, header: Row, row: Row) {
    GoodFlags(header, row) && GoodDebitCredit(header, row) && LevelOf(number, Raw(header, row, Level)).Some?
  }

  function Or(a: Option<Text>, b: Text): Text {
    if a.Some? then a.value else b
  }

  /** The record of a row that is good. */
  function RecordOf(number: Text -> Option<real>, header: Row, row: Row): Record
    requires Coded(header, row) && Good(number, header, row)
  {
    var debitCredit := Raw(header, row, DebitCredit);
    var description := Or(Raw(header, row, Description), []);
    Record(
      Raw(header, row, Code).value, Raw(header, row, OmslagCode), Or(Raw(header, row, SortKey), []),
      Or(Raw(header, row, ReferenceNumber), []), Or(Raw(header, row, ShortDescription), description), description,
      if debitCredit.None? then None else Some(Upper(debitCredit.value)),
      LevelOf(number, Raw(header, row, Level)).value, Raw(header, row, Inactive).Some?, Flags(header, row))
  }

  // ----- the sheet

  /** Every coded row is good and stands before all the others, and no code comes twice. */
  ghost predicate Convertible(number: Text -> Option<real>, header: Row, data: seq<Row>) {
    && (forall row | row in data && Coded(header, row) :: Good(number, header, row))
    && (forall i, k | 0 <= i < k < |data| && Coded(header, data[k]) ::
          Coded(header, data[i]) && Raw(header, data[i], Code) != Raw(header, data[k], Code))
  }

  /** How many rows at the front are coded. */
  function CodedPrefix(header: Row, data: seq<Row>): (r: nat)
    ensures r <= |data| && forall i | 0 <= i < r :: Coded(header, data[i])
    ensures r < |data| ==> !Coded(header, data[r])
  {
    if data == [] || !Coded(header, data[0]) then 0 else 1 + CodedPrefix(header, data[1..])
  }

  /** The records of the coded rows, in the order of the sheet. */
  function Records(number: Text -> Option<real>, header: Row, data: seq<Row>): (r: seq<Record>)
    requires forall row | row in data && Coded(header, row) :: Good(number, header, row)
  {
    if data == [] then []
    else
      var last := data[|data| - 1];
      assert last in data;
      Records(number, header, data[..|data| - 1]) + if Coded(header, last) then [RecordOf(number, header, last)] else []
  }

  predicate Lowered(header: Row, row: Row) {
    var raw := Raw(header, row, DebitCredit);
    raw.Some? && raw.value != Upper(raw.value)
  }

  /** The codes whose debit or credit had to be put in upper case. */
  function Normalised(header: Row, data: seq<Row>): seq<Text> {
    if data == [] then []
    else
      var last := data[|data| - 1];
      Normalised(header, data[..|data| - 1])
      + if Coded(header, last) && Lowered(header, last) then [Raw(header, last, Code).value] else []
  }

  /** Stable insertion by code; `rank` is the order of `localeCompare`. */
  function Insert(rank: Text -> real, r: Record, sorted: seq<Record>): (s: seq<Record>)
    ensures multiset(s) == multiset(sorted) + multiset{r}
    ensures forall x | x in s :: x == r || x in sorted
  {
    if sorted == [] || rank(sorted[|sorted| - 1].code) <= rank(r.code) then sorted + [r]
    else
      var last := sorted[|sorted| - 1];
      assert sorted == sorted[..|sorted| - 1] + [last];
      Insert(rank, r, sorted[..|sorted| - 1]) + [last]
  }

  /** `codes.sort`. */
  function Sort(rank: Text -> real, rs: seq<Record>): (s: seq<Record>)
    ensures multiset(s) == multiset(rs)
  {
    if rs == [] then []
    else
      assert rs == rs[..|rs| - 1] + [rs[|rs| - 1]];
      Insert(rank, rs[|rs| - 1], Sort(rank, rs[..|rs| - 1]))
  }

  ghost predicate Sorted(rank: Text -> real, rs: seq<Record>) {
    forall i, k | 0 <= i < k < |rs| :: rank(rs[i].code) <= rank(rs[k].code)
  }

  lemma {:induction false} InsertSorts(rank: Text -> real, r: Record, sorted: seq<Record>)
    requires Sorted(rank, sorted)
    ensures Sorted(rank, Insert(rank, r, sorted))
  {
    if sorted != [] && rank(sorted[|sorted| - 1].code) > rank(r.code) {
      var before, last := sorted[..|sorted| - 1], sorted[|sorted| - 1];
      InsertSorts(rank, r, before);
      var s := Insert(rank, r, before);
      forall i | 0 <= i < |s| ensures rank(s[i].code) <= rank(last.code) {
        assert s[i] in s;
        if s[i] != r {
          var k :| 0 <= k < |before| && before[k] == s[i];
        }
      }
    }
  }

  lemma {:induction false} SortSorts(rank: Text -> real, rs: seq<Record>)
    ensures Sorted(rank, Sort(rank, rs))
  {
    if rs != [] {
      SortSorts(rank, rs[..|rs| - 1]);
      InsertSorts(rank, rs[|rs| - 1], Sort(rank, rs[..|rs| - 1]));
    }
  }

  // ----- the loop

  /** The first thing wrong with a coded row that is not good. */
  function RowProblem(number: Text -> Option<real>, header: Row, row: Row): Option<Problem>
    requires Coded(header, row)
  {
    var code := Raw(header, row, Code).value;
    if !GoodFlags(header, row) then Some(BadFlag(code))
    else if !GoodDebitCredit(header, row) then Some(BadDebitCredit(code))
    else if LevelOf(number, Raw(header, row, Level)).None? then Some(BadLevel(code))
    else None
  }

  function Codes(header: Row, data: seq<Row>): set<Text> {
    set row | row in data && Coded(header, row) :: Raw(header, row, Code).value
  }

  /** The rows are good so far and no code has come twice. */
  ghost predicate Clear(number: Text -> Option<real>, header: Row, data: seq<Row>) {
    && (forall row | row in data && Coded(header, row) :: Good(number, header, row))
    && (forall i, k | 0 <= i < k < |data| && Coded(header, data[i]) && Coded(header, data[k]) ::
          Raw(header, data[i], Code) != Raw(header, data[k], Code))
  }

  /** `pending` rows at the end have no code, and `interior` says whether one stands before a coded row. */
  ghost predicate Gaps(header: Row, data: seq<Row>, pending: nat, interior: nat) {
    && pending <= |data|
    && (forall k | |data| - pending <= k < |data| :: !Coded(header, data[k]))
    && (pending < |data| ==> Coded(header, data[|data| - pending - 1]))
    && (interior == 0 <==> forall k | 0 <= k < |data| - pending :: Coded(header, data[k]))
  }

  /** What a report says of the rows. */
  ghost predicate Explains(problem: Problem, number: Text -> Option<real>, header: Row, data: seq<Row>) {
    match problem
    case DuplicateCode(code) =>
      exists i, k | 0 <= i < k < |data| :: Raw(header, data[i], Code) == Raw(header, data[k], Code) == Some(code)
    case BadFlag(code) => exists row | row in data :: Raw(header, row, Code) == Some(code) && !GoodFlags(header, row)
    case BadDebitCredit(code) =>
      exists row | row in data :: Raw(header, row, Code) == Some(code) && !GoodDebitCredit(header, row)
    case BadLevel(code) =>
      exists row | row in data :: Raw(header, row, Code) == Some(code) && LevelOf(number, Raw(header, row, Level)).None?
    case Interior(count) =>
      count > 0 && Clear(number, header, data) && exists i, k | 0 <= i < k < |data| ::
        !Coded(header, data[i]) && Coded(header, data[k])
    case _ => false
  }

  /** The loop of `convertSheet` over the rows below the header, up to the sort. */
  method ConvertRows(header: Row, data: seq<Row>, number: Text -> Option<real>)
    returns (problem: Option<Problem>, codes: seq<Record>, normalised: seq<Text>)
    ensures problem.None? <==> Convertible(number, header, data)
    ensures problem.None? ==> codes == Records(number, header, data) && normalised == Normalised(header, data)
    ensures problem.Some? ==> Explains(problem.value, number, header, data)
  {
    hide Raw, Explains, Good, Records, Codes, Normalised, Gaps, Lowered, Convertible, RecordOf, RowProblem;
    codes, normalised := [], [];
    var seen: set<Text>, pending, interior := {}, 0, 0;
    NoRows(number, header);
    for i := 0 to |data|
      invariant Clear(number, header, data[..i])
      invariant codes == Records(number, header, data[..i])
      invariant normalised == Normalised(header, data[..i])
      invariant seen == Codes(header, data[..i])
      invariant Gaps(header, data[..i], pending, interior)
    {
      var row := data[i];
      if !Coded(header, row) {
        SkipRow(number, header, data, i, pending, interior);
        pending := pending + 1;
        continue;
      }
      TakeRow(number, header, data, i, pending, interior);
      var code := Raw(header, row, Code).value;
      interior := interior + pending;
      pending := 0;
      if code in seen {
        ReportCode(number, header, data, i);
        return Some(DuplicateCode(code)), [], [];
      }
      seen := seen + {code};
      problem := RowProblem(number, header, row);
      if problem.Some? {
        ReportRow(number, header, data, i);
        return problem, [], [];
      }
      if Lowered(header, row) {
        normalised := normalised + [code];
      }
      GoodRow(number, header, row);
      codes := codes + [RecordOf(number, header, row)];
    }
    assert data[..|data|] == data;
    AllRows(number, header, data, pending, interior);
    if interior > 0 {
      return Some(Interior(interior)), [], [];
    }
    problem := None;
  }

  /** `convertSheet`. */
  method ConvertSheet(rows: seq<Row>, number: Text -> Option<real>, rank: Text -> real) returns (r: Outcome)
    ensures r.Converted? <==>
      var h := HeaderIndex(rows);
      && h < |rows|
      && (forall f | f in REQUIRED :: HasColumn(rows[h], f))
      && Convertible(number, rows[h], rows[h + 1..])
    ensures r.Converted? ==>
      var header, data := rows[HeaderIndex(rows)], rows[HeaderIndex(rows) + 1..];
      && r.codes == Sort(rank, Records(number, header, data))
      && r.codeCount == |r.codes|
      && r.normalised == Normalised(header, data)
    ensures r.Failed? ==>
      var h := HeaderIndex(rows);
      if h == |rows| then r.problem == NoHeader
      else if r.problem.NoColumn? then r.problem.field in REQUIRED && !HasColumn(rows[h], r.problem.field)
      else Explains(r.problem, number, rows[h], rows[h + 1..])
  {
    hide HasColumn, Convertible, Explains, Records, Normalised, Sort;
    var h := HeaderIndex(rows);
    if h == |rows| {
      return Failed(NoHeader);
    }
    for f := 0 to |REQUIRED|
      invariant forall k | 0 <= k < f :: HasColumn(rows[h], REQUIRED[k])
    {
      if !HasColumn(rows[h], REQUIRED[f]) {
        assert REQUIRED[f] in REQUIRED;
        return Failed(NoColumn(REQUIRED[f]));
      }
    }
    var problem, codes, normalised := ConvertRows(rows[h], rows[h + 1..], number);
    if problem.Some? {
      NoColumnIsFound(problem.value, number, rows[h], rows[h + 1..]);
      return Failed(problem.value);
    }
    codes := Sort(rank, codes);
    return Converted(codes, |codes|, normalised);
  }

  lemma NoColumnIsFound(problem: Problem, number: Text -> Option<real>, header: Row, data: seq<Row>)
    requires Explains(problem, number, header, data)
    ensures !problem.NoColumn?
  {
  }

  lemma NoRows(number: Text -> Option<real>, header: Row)
    ensures Clear(number, header, []) && Records(number, header, []) == [] && Normalised(header, []) == []
    ensures Codes(header, []) == {} && Gaps(header, [], 0, 0)
  {
  }

  lemma ReportCode(number: Text -> Option<real>, header: Row, data: seq<Row>, i: nat)
    requires i < |data| && Coded(header, data[i]) && Raw(header, data[i], Code).value in Codes(header, data[..i])
    ensures Explains(DuplicateCode(Raw(header, data[i], Code).value), number, header, data)
  {
    hide Raw;
    var row :| row in data[..i] && Coded(header, row)
      && Raw(header, row, Code).value == Raw(header, data[i], Code).value;
    var k :| 0 <= k < i && data[..i][k] == row;
    assert data[k] == row;
  }

  lemma ReportRow(number: Text -> Option<real>, header: Row, data: seq<Row>, i: nat)
    requires i < |data| && Coded(header, data[i]) && RowProblem(number, header, data[i]).Some?
    ensures Explains(RowProblem(number, header, data[i]).value, number, header, data)
  {
    hide Raw, GoodFlags, GoodDebitCredit, LevelOf;
    assert data[i] in data;
  }

  lemma SkipRow(number: Text -> Option<real>, header: Row, data: seq<Row>, i: nat, pending: nat, interior: nat)
    requires i < |data| && !Coded(header, data[i])
    requires Clear(number, header, data[..i]) && Gaps(header, data[..i], pending, interior)
    ensures Clear(number, header, data[..i + 1]) && Gaps(header, data[..i + 1], pending + 1, interior)
    ensures Records(number, header, data[..i + 1]) == Records(number, header, data[..i])
    ensures Normalised(header, data[..i + 1]) == Normalised(header, data[..i])
    ensures Codes(header, data[..i + 1]) == Codes(header, data[..i])
  {
    hide Raw, Coded;
    var next := data[..i + 1];
    assert next[..i] == data[..i] && next == data[..i] + [data[i]];
  }

  /** The code of the next coded row is new, and nothing is wrong with the row. */
  ghost predicate Fits(number: Text -> Option<real>, header: Row, data: seq<Row>, i: nat)
    requires i < |data| && Coded(header, data[i])
  {
    Raw(header, data[i], Code).value !in Codes(header, data[..i]) && RowProblem(number, header, data[i]).None?
  }

  lemma {:induction false} TakeRow(
      number: Text -> Option<real>, header: Row, data: seq<Row>, i: nat, pending: nat, interior: nat)
    requires i < |data| && Coded(header, data[i])
    requires Clear(number, header, data[..i]) && Gaps(header, data[..i], pending, interior)
    ensures Gaps(header, data[..i + 1], 0, interior + pending)
    ensures Clear(number, header, data[..i + 1]) <==> Fits(number, header, data, i)
    ensures Convertible(number, header, data) ==> Fits(number, header, data, i)
    ensures Clear(number, header, data[..i + 1]) ==>
      Records(number, header, data[..i + 1]) == Records(number, header, data[..i]) + [RecordOf(number, header, data[i])]
    ensures Codes(header, data[..i + 1]) == Codes(header, data[..i]) + {Raw(header, data[i], Code).value}
    ensures Normalised(header, data[..i + 1]) ==
      Normalised(header, data[..i]) + if Lowered(header, data[i]) then [Raw(header, data[i], Code).value] else []
  {
    hide Raw, Coded, RowProblem, RecordOf, Convertible, Fits, Gaps, Lowered, Clear, Records, Codes, Normalised;
    ClearTaken(number, header, data, i);
    GapsTaken(header, data, i, pending, interior);
    RecordsTaken(number, header, data, i);
    CodesTaken(header, data, i);
    NormalisedTaken(header, data, i);
  }

  lemma RecordsTaken(number: Text -> Option<real>, header: Row, data: seq<Row>, i: nat)
    requires i < |data| && Coded(header, data[i])
    ensures Clear(number, header, data[..i + 1]) ==>
      && Clear(number, header, data[..i]) && Good(number, header, data[i])
      && Records(number, header, data[..i + 1]) ==
        Records(number, header, data[..i]) + [RecordOf(number, header, data[i])]
  {
    hide Raw, Coded, RecordOf, Good;
    var next := data[..i + 1];
    assert next[..i] == data[..i] && next[i] == data[i] && next[i] in next;
    assert forall row | row in data[..i] :: row in next;
    assert forall k | 0 <= k < i :: next[k] == data[..i][k];
  }

  lemma CodesTaken(header: Row, data: seq<Row>, i: nat)
    requires i < |data| && Coded(header, data[i])
    ensures Codes(header, data[..i + 1]) == Codes(header, data[..i]) + {Raw(header, data[i], Code).value}
  {
    hide Raw;
    assert data[..i + 1] == data[..i] + [data[i]];
  }

  lemma NormalisedTaken(header: Row, data: seq<Row>, i: nat)
    requires i < |data| && Coded(header, data[i])
    ensures Normalised(header, data[..i + 1]) ==
      Normalised(header, data[..i]) + if Lowered(header, data[i]) then [Raw(header, data[i], Code).value] else []
  {
    hide Raw, Coded, Lowered;
    assert data[..i + 1][..i] == data[..i];
  }

  lemma ClearTaken(number: Text -> Option<real>, header: Row, data: seq<Row>, i: nat)
    requires i < |data| && Coded(header, data[i]) && Clear(number, header, data[..i])
    ensures Clear(number, header, data[..i + 1]) <==> Fits(number, header, data, i)
    ensures Convertible(number, header, data) ==> Fits(number, header, data, i)
  {
    GoodRow(number, header, data[i]);
    NewCode(header, data, i);
    hide Raw, Coded, Good, RowProblem, Codes, Clear, Convertible;
    OneMoreClear(number, header, data, i);
    if Convertible(number, header, data) {
      ConvertibleClear(number, header, data, i);
    }
  }

  lemma OneMoreClear(number: Text -> Option<real>, header: Row, data: seq<Row>, i: nat)
    requires i < |data| && Coded(header, data[i]) && Clear(number, header, data[..i])
    ensures Clear(number, header, data[..i + 1]) <==>
      Good(number, header, data[i])
      && forall k | 0 <= k < i && Coded(header, data[k]) :: Raw(header, data[k], Code) != Raw(header, data[i], Code)
  {
    hide Raw, Coded, Good;
    var before, next := data[..i], data[..i + 1];
    assert next == before + [data[i]];
    assert forall k | 0 <= k < i :: next[k] == before[k] == data[k];
  }

  lemma ConvertibleClear(number: Text -> Option<real>, header: Row, data: seq<Row>, i: nat)
    requires i < |data| && Coded(header, data[i]) && Convertible(number, header, data)
    ensures Good(number, header, data[i])
    ensures forall k | 0 <= k < i && Coded(header, data[k]) :: Raw(header, data[k], Code) != Raw(header, data[i], Code)
  {
    hide Raw, Coded, Good;
    assert data[i] in data;
  }

  lemma GoodRow(number: Text -> Option<real>, header: Row, row: Row)
    requires Coded(header, row)
    ensures RowProblem(number, header, row).None? <==> Good(number, header, row)
  {
  }

  lemma NewCode(header: Row, data: seq<Row>, i: nat)
    requires i < |data| && Coded(header, data[i])
    ensures Raw(header, data[i], Code).value in Codes(header, data[..i]) <==>
      exists k | 0 <= k < i :: Coded(header, data[k]) && Raw(header, data[k], Code) == Raw(header, data[i], Code)
  {
    hide Raw;
    assert forall k | 0 <= k < i :: data[..i][k] == data[k] && data[k] in data[..i];
  }

  lemma GapsTaken(header: Row, data: seq<Row>, i: nat, pending: nat, interior: nat)
    requires i < |data| && Coded(header, data[i]) && Gaps(header, data[..i], pending, interior)
    ensures Gaps(header, data[..i + 1], 0, interior + pending)
  {
    hide Coded;
    var before, next := data[..i], data[..i + 1];
    assert forall k | 0 <= k < i :: next[k] == before[k];
    assert next[i] == data[i];
    if pending > 0 {
      assert !Coded(header, next[i - 1]);
    }
  }

  lemma AllRows(number: Text -> Option<real>, header: Row, data: seq<Row>, pending: nat, interior: nat)
    requires Clear(number, header, data) && Gaps(header, data, pending, interior)
    ensures interior == 0 <==> Convertible(number, header, data)
    ensures interior > 0 ==> Explains(Interior(interior), number, header, data)
  {
    hide Raw, Coded, Good;
    if interior > 0 {
      var k :| 0 <= k < |data| - pending && !Coded(header, data[k]);
      assert Coded(header, data[|data| - pending - 1]);
    }
  }

  // ----- nothing is dropped

  lemma {:induction false} PrefixGrows(header: Row, before: seq<Row>, last: Row)
    ensures var n := CodedPrefix(header, before);
      CodedPrefix(header, before + [last]) == if n == |before| && Coded(header, last) then n + 1 else n
    decreases |before|
  {
    hide Coded;
    var data := before + [last];
    if before == [] {
      assert data[0] == last && data[1..] == [];
    } else {
      assert data[0] == before[0] && data[1..] == before[1..] + [last];
      PrefixGrows(header, before[1..], last);
    }
  }

  lemma CodedStandFirst(number: Text -> Option<real>, header: Row, data: seq<Row>)
    requires Convertible(number, header, data) && data != []
    ensures var before := data[..|data| - 1];
      && Convertible(number, header, before)
      && (Coded(header, data[|data| - 1]) ==> CodedPrefix(header, before) == |before|)
  {
    hide Raw, Good, Coded;
    var before := data[..|data| - 1];
    assert forall k | 0 <= k < |before| :: before[k] == data[k];
    assert forall row | row in before :: row in data;
  }

  lemma {:induction false} AllRecords(number: Text -> Option<real>, header: Row, data: seq<Row>)
    requires Convertible(number, header, data)
    ensures var n := CodedPrefix(header, data);
      && (forall k | n <= k < |data| :: !Coded(header, data[k]))
      && |Records(number, header, data)| == n
      && forall k | 0 <= k < n :: Records(number, header, data)[k] == RecordOf(number, header, data[k])
  {
    hide Raw, Good, RecordOf, Coded;
    if data != [] {
      var before, last := data[..|data| - 1], data[|data| - 1];
      CodedStandFirst(number, header, data);
      AllRecords(number, header, before);
      PrefixGrows(header, before, last);
      assert data == before + [last];
      hide CodedPrefix, Convertible;
      assert forall k | 0 <= k < |before| :: before[k] == data[k];
    }
  }

  /**
   * A sheet that is converted loses no row: the coded rows are those at the front, and the codes
   * are theirs, each once, in order.
   */
  lemma {:induction false} NothingDropped(number: Text -> Option<real>, rank: Text -> real, header: Row, data: seq<Row>)
    requires Convertible(number, header, data)
    ensures var n, records := CodedPrefix(header, data), Records(number, header, data);
      && (forall k | n <= k < |data| :: !Coded(header, data[k]))
      && |records| == n && (forall k | 0 <= k < n :: records[k] == RecordOf(number, header, data[k]))
      && (forall i, k | 0 <= i < k < n :: records[i].code != records[k].code)
      && |Sort(rank, records)| == n && multiset(Sort(rank, records)) == multiset(records)
        && Sorted(rank, Sort(rank, records))
  {
    AllRecords(number, header, data);
    SortSorts(rank, Records(number, header, data));
    var n, records := CodedPrefix(header, data), Records(number, header, data);
    hide Raw, Good, Sort, Convertible, Records, RecordOf;
    forall i, k | 0 <= i < k < n ensures records[i].code != records[k].code {
      CodesDiffer(number, header, data, i, k);
    }
    assert |Sort(rank, records)| == |multiset(records)|;
  }

  lemma CodesDiffer(number: Text -> Option<real>, header: Row, data: seq<Row>, i: nat, k: nat)
    requires Convertible(number, header, data)
    requires i < k < |data| && Coded(header, data[i]) && Coded(header, data[k])
    ensures RecordOf(number, header, data[i]).code != RecordOf(number, header, data[k]).code
  {
    hide Raw, Good;
    assert data[i] in data && data[k] in data;
  }
}
