/** The delimited-text loaders of eelbrain/load/txt.py.

    `tsv` turns the lines of a text file into a dataset: one column per
    header name, each column numeric (a `var`) or categorical (a `factor`).
    The file is given as the list of its lines, each as the file iteration
    yields it (with its line terminator). Conversion of a cell to a float is
    the parameter `isFloat`. */
module Txt {
  import opened PyStr

  /** The exceptions the loaders raise by themselves. */
  datatype Error =
    | NoDataRows      // IndexError from `lines[0]` when no data line follows
    | HeaderMismatch  // ValueError "number of header different from number of data"
    | TypesLength     // AssertionError from `len(types) == n`
    | EmptyCell       // IndexError from `v[0]` on an empty cell
    | RowTooLong      // IndexError from `types[i]` or `data[i]` past the last column
    | IsBoolUnbound   // UnboundLocalError: `is_bool` read but never assigned

  datatype Result<T> = Ok(value: T) | Err(error: Error)

  datatype Option<T> = None | Some(value: T)

  /** `delimiter`: None splits on runs of whitespace, a character on each occurrence. */
  datatype Delimiter = AnyWhitespace | Char(c: char)

  /** `names`: True reads them from the first line, a list gives them,
      False or None has them generated. */
  datatype NamesArg = FromHeader | Given(list: seq<string>) | Generated

  /** The value of `types`: one of 'auto', None, False and True, or a list of
      codes (0 = decide, 1 = factor, 2 = var). */
  datatype Types = Auto | Codes(list: seq<int>)

  /** The `types` argument as an object: a list of codes is the caller's
      own list, which `tsv` writes into. */
  datatype TypesArg = AutoArg | CodesArg(list: array<int>)

  function Footprint(t: TypesArg): set<object> {
    if t.CodesArg? then {t.list} else {}
  }

  function Value(t: TypesArg): Types
    reads Footprint(t)
  {
    match t
    case AutoArg => Auto
    case CodesArg(a) => Codes(a[..])
  }

  datatype Kind = Var | Factor

  datatype Column = Column(name: string, kind: Kind, values: seq<string>)

  datatype Dataset = Dataset(name: string, columns: seq<Column>)

  // ---------------------------------------------------------------------
  // Reading the lines (txt.py:53-70)

  function Split(line: string, delimiter: Delimiter): seq<string> {
    match delimiter
    case AnyWhitespace => SplitWs(line)
    case Char(c) => SplitOn(line, c)
  }

  /** A cell with surrounding whitespace removed, or `empty` when nothing is left. */
  function CellText(field: string, empty: string): string {
    var v := Strip(field, Whitespace);
    if v == [] then empty else v
  }

  /** The cells of one data line. */
  function Row(line: string, delimiter: Delimiter, empty: string): (r: seq<string>)
    ensures |r| == |Split(line, delimiter)|
    ensures forall k :: 0 <= k < |r| ==> r[k] != [] || empty == []
  {
    var fields := Split(line, delimiter);
    seq(|fields|, k requires 0 <= k < |fields| => CellText(fields[k], empty))
  }

  /** The cells of every data line, in file order. */
  function Rows(body: seq<string>, delimiter: Delimiter, empty: string): seq<seq<string>> {
    seq(|body|, k requires 0 <= k < |body| => Row(body[k], delimiter, empty))
  }

  /** Every cell is stripped of whitespace; a cell with nothing left is `empty`. */
  lemma RowCells(line: string, delimiter: Delimiter, empty: string, k: nat)
    requires k < |Split(line, delimiter)|
    ensures |Row(line, delimiter, empty)| == |Split(line, delimiter)|
    ensures AllIn(Split(line, delimiter)[k], Whitespace) ==> Row(line, delimiter, empty)[k] == empty
    ensures !AllIn(Split(line, delimiter)[k], Whitespace) ==> Trimmed(Row(line, delimiter, empty)[k], Whitespace)
    ensures !AllIn(Split(line, delimiter)[k], Whitespace) ==>
      var field := Split(line, delimiter)[k];
      var v := Row(line, delimiter, empty)[k];
      var a := LeadLen(field, Whitespace);
      a + |v| <= |field| && v == field[a..a + |v|] &&
      forall j :: 0 <= j < |field| && !(a <= j < a + |v|) ==> field[j] in Whitespace
  {
    var field := Split(line, delimiter)[k];
    assert Row(line, delimiter, empty)[k] == CellText(field, empty);
    CellTextEnds(field, empty);
    CellTextPlace(field, empty);
  }

  /** A cell with something left keeps no whitespace at either end. */
  lemma CellTextEnds(field: string, empty: string)
    ensures AllIn(field, Whitespace) ==> CellText(field, empty) == empty
    ensures !AllIn(field, Whitespace) ==> Trimmed(CellText(field, empty), Whitespace)
  {
    StripOrEmpty(field, Whitespace, empty);
  }

  /** A cell with something left is the field with only whitespace cut from either end. */
  lemma CellTextPlace(field: string, empty: string)
    ensures !AllIn(field, Whitespace) ==> var v := CellText(field, empty);
      var a := LeadLen(field, Whitespace);
      a + |v| <= |field| && v == field[a..a + |v|] &&
      forall j :: 0 <= j < |field| && !(a <= j < a + |v|) ==> field[j] in Whitespace
  {
    StripOrEmpty(field, Whitespace, empty);
  }

  /** `CellText` for any set of stripped characters, so that none of them is looked at. */
  lemma StripOrEmpty(field: string, cs: set<char>, empty: string)
    ensures var r := Strip(field, cs);
      var v := if r == [] then empty else r;
      var a := LeadLen(field, cs);
      (AllIn(field, cs) ==> v == empty) &&
      (!AllIn(field, cs) ==>
        Trimmed(v, cs) && a + |v| <= |field| && v == field[a..a + |v|] &&
        forall j :: 0 <= j < |field| && !(a <= j < a + |v|) ==> field[j] in cs)
  {
    StripSpec(field, cs);
  }

  /** Splitting on whitespace leaves no blank cell, so `empty` is never used. */
  lemma WhitespaceRowIsSplit(line: string, empty: string)
    ensures Row(line, AnyWhitespace, empty) == SplitWs(line)
  {
    var fields := SplitWs(line);
    forall k | 0 <= k < |fields|
      ensures CellText(fields[k], empty) == fields[k]
    {
      StripKeepsTrimmed(fields[k], Whitespace);
    }
  }

  /** The names on a header line, each stripped of surrounding `"`. */
  function HeaderNames(line: string, delimiter: Delimiter): (r: seq<string>)
    ensures |r| == |Split(line, delimiter)|
  {
    var fields := Split(line, delimiter);
    seq(|fields|, k requires 0 <= k < |fields| => Strip(fields[k], {'"'}))
  }

  /** The names given or read from the header; empty when they are to be generated. */
  function Header(fileLines: seq<string>, names: NamesArg, delimiter: Delimiter): seq<string> {
    match names
    case FromHeader => HeaderNames(if fileLines == [] then [] else fileLines[0], delimiter)
    case Given(list) => list
    case Generated => []
  }

  /** The data lines: all lines after the header when there is one. */
  function Body(fileLines: seq<string>, names: NamesArg): seq<string> {
    if names.FromHeader? && fileLines != [] then fileLines[1..] else fileLines
  }

  /** With names read from the file, the first line is the header and the
      rest are data; each name is its split field without surrounding `"`. */
  lemma HeaderLineConsumed(fileLines: seq<string>, delimiter: Delimiter, k: nat)
    requires fileLines != []
    requires k < |Split(fileLines[0], delimiter)|
    ensures Body(fileLines, FromHeader) == fileLines[1..]
    ensures |Header(fileLines, FromHeader, delimiter)| == |Split(fileLines[0], delimiter)|
    ensures var name := Header(fileLines, FromHeader, delimiter)[k];
      name != [] ==> Trimmed(name, {'"'})
    ensures var field := Split(fileLines[0], delimiter)[k];
      var name := Header(fileLines, FromHeader, delimiter)[k];
      var a := LeadLen(field, {'"'});
      a + |name| <= |field| && name == field[a..a + |name|] &&
      forall j :: 0 <= j < |field| && !(a <= j < a + |name|) ==> field[j] == '"'
  {
    var field := Split(fileLines[0], delimiter)[k];
    var header := Header(fileLines, FromHeader, delimiter);
    assert header == HeaderNames(fileLines[0], delimiter);
    assert header[k] == Strip(field, {'"'});
    StripSpec(field, {'"'});
  }

  /** Only `"` is stripped from header names: with a one-character
      delimiter other than the newline, the last name keeps the line's
      terminator. */
  lemma LastHeaderNameKeepsTerminator(line: string, c: char)
    requires line != [] && line[|line| - 1] == '\n' && c != '\n'
    ensures var names := HeaderNames(line, Char(c));
      var last := names[|names| - 1];
      last != [] && last[|last| - 1] == '\n'
  {
    var fields := SplitOn(line, c);
    SplitOnLast(line, c);
    var field := fields[|fields| - 1];
    StripEndKept(field, {'"'});
    var names := HeaderNames(line, Char(c));
    assert |names| == |fields|;
    assert names[|names| - 1] == Strip(field, {'"'});
  }

  /** The names `'v%i' % i` for `i` in `xrange(n)`. */
  function GeneratedNames(n: nat): (r: seq<string>)
    ensures |r| == n
    ensures forall i :: 0 <= i < n ==> |r[i]| >= 2 && r[i][0] == 'v'
  {
    seq(n, i requires 0 <= i < n => "v" + Decimal(i))
  }

  /** Generated names count from 0 and are pairwise different. */
  lemma GeneratedNamesDistinct(n: nat)
    ensures |GeneratedNames(n)| == n
    ensures forall i :: 0 <= i < n ==>
      GeneratedNames(n)[i][0] == 'v' && ParseDecimal(GeneratedNames(n)[i][1..]) == i
    ensures forall i, j :: 0 <= i < n && 0 <= j < n && GeneratedNames(n)[i] == GeneratedNames(n)[j] ==> i == j
  {
    var names := GeneratedNames(n);
    forall i | 0 <= i < n
      ensures names[i][1..] == Decimal(i) && ParseDecimal(names[i][1..]) == i
    {
      assert names[i] == "v" + Decimal(i);
      ParseDecimalInverse(i);
    }
  }

  /** The first generated name is "v0". */
  lemma FirstGeneratedName(n: nat)
    requires n >= 1
    ensures GeneratedNames(n)[0] == "v0"
  {
    assert Decimal(0) == "0";
  }

  /** The column names: the given or header names, or one generated name per
      cell of the first data line. */
  function ColumnNames(header: seq<string>, rows: seq<seq<string>>): (r: seq<string>)
    requires rows != []
    ensures header != [] ==> r == header
    ensures header == [] ==> |r| == |rows[0]|
  {
    if header == [] then GeneratedNames(|rows[0]|) else header
  }

  // ---------------------------------------------------------------------
  // Reconciling names and cells, and the codes (txt.py:72-84)

  /** How many leading cells of each line to skip: none when the first line
      has one cell per name, one (a row label) when it has one more. */
  function Offset(nVars: nat, n: nat): (r: Result<nat>)
    ensures r.Ok? <==> nVars == n || nVars == n + 1
    ensures r.Ok? ==> r.value <= 1 && nVars == n + r.value
    ensures r.Err? ==> r.error == HeaderMismatch
  {
    if nVars == n then Ok(0) else if nVars == n + 1 then Ok(1) else Err(HeaderMismatch)
  }

  /** The codes to start from: all 0 for 'auto' and its kin, else the list,
      which must have one code per name. */
  function InitialTypes(types: Types, n: nat): (r: Result<seq<int>>)
    ensures r.Ok? <==> types.Auto? || |types.list| == n
    ensures r.Ok? ==> |r.value| == n
    ensures types.Auto? ==> r.Ok? && forall i :: 0 <= i < n ==> r.value[i] == 0
    ensures types.Codes? && r.Ok? ==> r.value == types.list
    ensures r.Err? ==> r.error == TypesLength
  {
    match types
    case Auto => Ok(seq(n, _ => 0))
    case Codes(list) => if |list| == n then Ok(list) else Err(TypesLength)
  }

  // ---------------------------------------------------------------------
  // Distributing the cells over the columns (txt.py:87-98)

  /** The two lists the loop fills: the cells of each column, and the codes. */
  datatype Fill = Fill(data: seq<seq<string>>, types: seq<int>)

  /** Codes only ever change to 1. */
  predicate Raised(before: seq<int>, after: seq<int>) {
    |after| == |before| && forall i :: 0 <= i < |before| ==> after[i] == before[i] || after[i] == 1
  }

  /** Cells are only ever appended. */
  predicate Grown(before: seq<seq<string>>, after: seq<seq<string>>) {
    |after| == |before| && forall i :: 0 <= i < |before| ==> before[i] <= after[i]
  }

  /** The loop goes on, or stops with an exception and the lists as they are then. */
  datatype Step = Next(fill: Fill) | Stop(fill: Fill, error: Error)

  /** After a quote check: the cell text so far, or the exception. */
  datatype Pass = Go(fill: Fill, text: string) | Halt(fill: Fill, error: Error)

  /** The quote characters, checked in this order. */
  const Quotes: seq<char> := ['\'', '"']

  /** The check for one quote character `q` on the cell `v` of column `i`:
      a cell that starts with `q` loses every `q` at both ends and makes its
      column a factor. */
  function QuotePass(f: Fill, v: string, i: nat, q: char): (r: Pass)
    ensures r.fill.data == f.data && Raised(f.types, r.fill.types)
    ensures r.Halt? ==> r.error == EmptyCell || r.error == RowTooLong
  {
    if v == [] then Halt(f, EmptyCell)
    else if v[0] != q then Go(f, v)
    else if i >= |f.types| then Halt(f, RowTooLong)
    else Go(f.(types := f.types[i := 1]), Strip(v, {q}))
  }

  /** The checks for the quote characters `qs`, in order. */
  function QuotePasses(f: Fill, v: string, i: nat, qs: seq<char>): (r: Pass)
    ensures r.fill.data == f.data && Raised(f.types, r.fill.types)
    ensures r.Halt? ==> r.error == EmptyCell || r.error == RowTooLong
    decreases |qs|
  {
    if qs == [] then Go(f, v)
    else
      match QuotePass(f, v, i, qs[0])
      case Halt(g, e) => Halt(g, e)
      case Go(g, w) => QuotePasses(g, w, i, qs[1..])
  }

  /** One cell: the quote checks, then the text appended to its column. */
  function CellStep(f: Fill, v: string, i: nat): (s: Step)
    ensures Raised(f.types, s.fill.types) && Grown(f.data, s.fill.data)
    ensures s.Stop? ==> s.error == EmptyCell || s.error == RowTooLong
  {
    match QuotePasses(f, v, i, Quotes)
    case Halt(g, e) => Stop(g, e)
    case Go(g, w) =>
      if i < |g.data| then Next(g.(data := g.data[i := g.data[i] + [w]])) else Stop(g, RowTooLong)
  }

  /** The cells of one line from column `i` on. */
  function RowFrom(f: Fill, cells: seq<string>, i: nat): (s: Step)
    ensures Raised(f.types, s.fill.types) && Grown(f.data, s.fill.data)
    ensures s.Stop? ==> s.error == EmptyCell || s.error == RowTooLong
    decreases |cells| - i
  {
    if i >= |cells| then Next(f)
    else
      match CellStep(f, cells[i], i)
      case Stop(g, e) => Stop(g, e)
      case Next(g) => RowFrom(g, cells, i + 1)
  }

  /** `line[start:]` */
  function Drop(line: seq<string>, start: nat): seq<string> {
    if start <= |line| then line[start..] else []
  }

  /** After one line: stop, or go on with the remaining lines. */
  function Continue(s: Step, rows: seq<seq<string>>, start: nat): Step {
    match s
    case Stop(_, _) => s
    case Next(g) => RowsFrom(g, rows, start)
  }

  /** Every data line, in file order. */
  function RowsFrom(f: Fill, rows: seq<seq<string>>, start: nat): (s: Step)
    ensures Raised(f.types, s.fill.types) && Grown(f.data, s.fill.data)
    ensures s.Stop? ==> s.error == EmptyCell || s.error == RowTooLong
    decreases |rows|
  {
    if rows == [] then Next(f)
    else
      match RowFrom(f, Drop(rows[0], start), 0)
      case Stop(g, e) => Stop(g, e)
      case Next(g) => RowsFrom(g, rows[1..], start)
  }

  // Closed forms of the loop

  /** What a cell holds after the quote checks. */
  function AfterQuote(v: string, q: char): string {
    if v != [] && v[0] == q then Strip(v, {q}) else v
  }

  function Unquoted(v: string): string {
    AfterQuote(AfterQuote(v, '\''), '"')
  }

  /** The cell starts with `'`, or with `"` once `'` is stripped. */
  predicate Quoted(v: string) {
    (v != [] && v[0] == '\'') || (AfterQuote(v, '\'') != [] && AfterQuote(v, '\'')[0] == '"')
  }

  /** The cell at column `i` of `n` passes without an exception: it is not
      empty, not empty once `'` is stripped, and its column exists. */
  predicate CellFits(v: string, i: nat, n: nat) {
    v != [] && AfterQuote(v, '\'') != [] && i < n
  }

  /** Every cell of the line from column `i` on passes. */
  predicate RowFits(cells: seq<string>, i: nat, n: nat) {
    forall c :: i <= c < |cells| ==> CellFits(cells[c], c, n)
  }

  /** Every cell of every line passes. */
  predicate RowsFit(rows: seq<seq<string>>, start: nat, n: nat) {
    forall k :: 0 <= k < |rows| ==> RowFits(Drop(rows[k], start), 0, n)
  }

  /** The texts column `i` receives: cell `start + i` of each line that has one, in file order. */
  function ColumnCells(rows: seq<seq<string>>, start: nat, i: nat): seq<string> {
    if rows == [] then []
    else (if start + i < |rows[0]| then [Unquoted(rows[0][start + i])] else []) + ColumnCells(rows[1..], start, i)
  }

  /** Some line has a quoted cell in column `i`. */
  predicate ColumnQuoted(rows: seq<seq<string>>, start: nat, i: nat) {
    rows != [] &&
    ((start + i < |rows[0]| && Quoted(rows[0][start + i])) || ColumnQuoted(rows[1..], start, i))
  }

  /** The lists once the cells of a line from column `i` on have passed:
      each appended to its own column, each quoted one setting its code to 1. */
  function AfterRow(f: Fill, cells: seq<string>, i: nat): Fill
    requires |f.data| == |f.types|
  {
    var n := |f.types|;
    Fill(seq(n, c requires 0 <= c < n => if i <= c < |cells| then f.data[c] + [Unquoted(cells[c])] else f.data[c]),
         seq(n, c requires 0 <= c < n => if i <= c < |cells| && Quoted(cells[c]) then 1 else f.types[c]))
  }

  /** The lists once every line has passed. */
  function AfterRows(f: Fill, rows: seq<seq<string>>, start: nat): Fill
    requires |f.data| == |f.types|
  {
    var n := |f.types|;
    Fill(seq(n, i requires 0 <= i < n => f.data[i] + ColumnCells(rows, start, i)),
         seq(n, i requires 0 <= i < n => if ColumnQuoted(rows, start, i) then 1 else f.types[i]))
  }

  /** One cell passes exactly when it fits; it appends its unquoted text to
      its column, and sets the column's code to 1 exactly when it is quoted. */
  lemma CellStepSpec(f: Fill, v: string, i: nat)
    requires |f.data| == |f.types|
    ensures var s := CellStep(f, v, i);
      (s.Next? <==> CellFits(v, i, |f.types|)) &&
      (s.Next? ==> s.fill == Fill(f.data[i := f.data[i] + [Unquoted(v)]],
                                  if Quoted(v) then f.types[i := 1] else f.types))
  {
    assert Quotes[0] == '\'' && Quotes[1..] == ['"'] && Quotes[1..][1..] == [];
    var p1 := QuotePass(f, v, i, '\'');
    if p1.Go? {
      assert p1.text == AfterQuote(v, '\'');
      var p2 := QuotePass(p1.fill, p1.text, i, '"');
      assert QuotePasses(f, v, i, Quotes) == QuotePasses(p1.fill, p1.text, i, ['"']);
      assert QuotePasses(p1.fill, p1.text, i, ['"']) == match p2
        case Halt(g, e) => Halt(g, e)
        case Go(g, w) => Go(g, w);
      if p2.Go? {
        assert p2.text == Unquoted(v);
      }
    }
  }

  /** Passing cell `i` and then the rest of the line gives `AfterRow` from `i`. */
  lemma AfterRowStep(f: Fill, g: Fill, cells: seq<string>, i: nat)
    requires |f.data| == |f.types| && i < |cells| && i < |f.types|
    requires g == Fill(f.data[i := f.data[i] + [Unquoted(cells[i])]],
                       if Quoted(cells[i]) then f.types[i := 1] else f.types)
    ensures AfterRow(g, cells, i + 1) == AfterRow(f, cells, i)
  {
    var x, y := AfterRow(g, cells, i + 1), AfterRow(f, cells, i);
    assert forall c :: 0 <= c < |f.types| ==> x.data[c] == y.data[c];
    assert forall c :: 0 <= c < |f.types| ==> x.types[c] == y.types[c];
  }

  /** Past the end of the line nothing changes. */
  lemma AfterRowEnd(f: Fill, cells: seq<string>, i: nat)
    requires |f.data| == |f.types| && i >= |cells|
    ensures AfterRow(f, cells, i) == f
  {
    var y := AfterRow(f, cells, i);
    assert forall c :: 0 <= c < |f.types| ==> y.data[c] == f.data[c];
    assert forall c :: 0 <= c < |f.types| ==> y.types[c] == f.types[c];
  }

  /** The cells of a line from column `i` on pass exactly when each fits,
      and leave the lists as `AfterRow` says. */
  lemma {:induction false} RowFromSpec(f: Fill, cells: seq<string>, i: nat)
    requires |f.data| == |f.types|
    ensures var s := RowFrom(f, cells, i);
      (s.Next? <==> RowFits(cells, i, |f.types|)) &&
      (s.Next? ==> s.fill == AfterRow(f, cells, i))
    decreases |cells| - i
  {
    var n := |f.types|;
    if i < |cells| {
      CellStepSpec(f, cells[i], i);
      var s1 := CellStep(f, cells[i], i);
      if s1.Next? {
        RowFromSpec(s1.fill, cells, i + 1);
        assert RowFits(cells, i, n) <==> RowFits(cells, i + 1, n);
        assert RowFrom(f, cells, i) == RowFrom(s1.fill, cells, i + 1);
        AfterRowStep(f, s1.fill, cells, i);
      } else {
        assert !CellFits(cells[i], i, n);
      }
    } else {
      AfterRowEnd(f, cells, i);
    }
  }

  /** A list of lines fits exactly when its first line and the rest do. */
  lemma RowsFitCons(rows: seq<seq<string>>, start: nat, n: nat)
    requires rows != []
    ensures RowsFit(rows, start, n) <==> RowFits(Drop(rows[0], start), 0, n) && RowsFit(rows[1..], start, n)
  {
    assert forall k :: 1 <= k < |rows| ==> rows[1..][k - 1] == rows[k];
  }

  /** Column `c` of `AfterRow`, on its own. */
  lemma AfterRowAt(f: Fill, cells: seq<string>, i: nat, c: nat)
    requires |f.data| == |f.types| && c < |f.types|
    ensures AfterRow(f, cells, i).data[c] ==
      if i <= c < |cells| then f.data[c] + [Unquoted(cells[c])] else f.data[c]
    ensures AfterRow(f, cells, i).types[c] ==
      if i <= c < |cells| && Quoted(cells[c]) then 1 else f.types[c]
  {
  }

  /** The cell of column `i` that one line (read from `start` on) adds, if it has one. */
  function ColumnHead(line: seq<string>, start: nat, i: nat): (r: seq<string>)
    ensures |r| <= 1
  {
    if start + i < |line| then [Unquoted(line[start + i])] else []
  }

  lemma ColumnCellsCons(rows: seq<seq<string>>, start: nat, i: nat)
    requires rows != []
    ensures ColumnCells(rows, start, i) == ColumnHead(rows[0], start, i) + ColumnCells(rows[1..], start, i)
  {
  }

  lemma AfterRowData(f: Fill, line: seq<string>, start: nat, i: nat)
    requires |f.data| == |f.types| && i < |f.types|
    ensures AfterRow(f, Drop(line, start), 0).data[i] == f.data[i] + ColumnHead(line, start, i)
  {
    var cells := Drop(line, start);
    AfterRowAt(f, cells, 0, i);
    if start + i < |line| {
      assert cells[i] == line[start + i];
    }
  }

  /** The cells of column `i` after the first line and then the rest. */
  lemma AfterRowsConsData(f: Fill, rows: seq<seq<string>>, start: nat, i: nat)
    requires |f.data| == |f.types|
    requires rows != [] && i < |f.types|
    ensures AfterRow(f, Drop(rows[0], start), 0).data[i] + ColumnCells(rows[1..], start, i) ==
      f.data[i] + ColumnCells(rows, start, i)
  {
    AfterRowData(f, rows[0], start, i);
    ColumnCellsCons(rows, start, i);
    AppendJoin(AfterRow(f, Drop(rows[0], start), 0).data[i], f.data[i], ColumnHead(rows[0], start, i),
      ColumnCells(rows[1..], start, i), ColumnCells(rows, start, i));
  }

  lemma AppendJoin<T>(x: seq<T>, d: seq<T>, head: seq<T>, rest: seq<T>, all: seq<T>)
    requires x == d + head && all == head + rest
    ensures x + rest == d + all
  {
  }

  /** The code of column `i` after the first line and then the rest. */
  lemma AfterRowsConsTypes(f: Fill, rows: seq<seq<string>>, start: nat, i: nat)
    requires |f.data| == |f.types|
    requires rows != [] && i < |f.types|
    ensures (if ColumnQuoted(rows[1..], start, i) then 1 else AfterRow(f, Drop(rows[0], start), 0).types[i]) ==
      (if ColumnQuoted(rows, start, i) then 1 else f.types[i])
  {
    var cells := Drop(rows[0], start);
    AfterRowAt(f, cells, 0, i);
    assert ColumnQuoted(rows, start, i) <==>
      (start + i < |rows[0]| && Quoted(rows[0][start + i])) || ColumnQuoted(rows[1..], start, i);
    assert (i < |cells|) == (start + i < |rows[0]|);
    if i < |cells| {
      assert cells[i] == rows[0][start + i];
    }
  }

  /** Passing the first line and then the rest gives `AfterRows` of them all. */
  lemma AfterRowsCons(f: Fill, rows: seq<seq<string>>, start: nat)
    requires |f.data| == |f.types|
    requires rows != []
    ensures AfterRows(AfterRow(f, Drop(rows[0], start), 0), rows[1..], start) == AfterRows(f, rows, start)
  {
    var g := AfterRow(f, Drop(rows[0], start), 0);
    var x, y := AfterRows(g, rows[1..], start), AfterRows(f, rows, start);
    forall i | 0 <= i < |f.types|
      ensures x.data[i] == y.data[i] && x.types[i] == y.types[i]
    {
      AfterRowsConsData(f, rows, start, i);
      AfterRowsConsTypes(f, rows, start, i);
    }
  }

  /** All lines pass exactly when every cell fits, and leave the lists as
      `AfterRows` says: column `i` gains `ColumnCells`, and its code becomes
      1 when some line quotes it and stays as it was otherwise. */
  lemma {:induction false} RowsFromSpec(f: Fill, rows: seq<seq<string>>, start: nat)
    requires |f.data| == |f.types|
    ensures var s := RowsFrom(f, rows, start);
      (s.Next? <==> RowsFit(rows, start, |f.types|)) &&
      (s.Next? ==> s.fill == AfterRows(f, rows, start))
    decreases |rows|
  {
    var n := |f.types|;
    if rows == [] {
      var y := AfterRows(f, rows, start);
      assert forall i :: 0 <= i < n ==> y.data[i] == f.data[i];
      assert forall i :: 0 <= i < n ==> y.types[i] == f.types[i];
    } else {
      var cells := Drop(rows[0], start);
      RowFromSpec(f, cells, 0);
      RowsFitCons(rows, start, n);
      var s0 := RowFrom(f, cells, 0);
      if s0.Next? {
        RowsFromSpec(s0.fill, rows[1..], start);
        assert RowsFrom(f, rows, start) == RowsFrom(s0.fill, rows[1..], start);
        AfterRowsCons(f, rows, start);
      }
    }
  }

  // ---------------------------------------------------------------------
  // Building the columns (txt.py:102-112)

  /** Every cell converts to a float. */
  predicate AllFloat(values: seq<string>, isFloat: string -> bool) {
    forall k :: 0 <= k < |values| ==> isFloat(values[k])
  }

  /** Codes 0 and 2 give a `var` when every cell converts to a float and a
      `factor` otherwise; any other code gives a `factor`. */
  function KindOf(code: int, values: seq<string>, isFloat: string -> bool): (k: Kind)
    ensures code == 1 ==> k == Factor
    ensures k == Var <==> (code == 0 || code == 2) && AllFloat(values, isFloat)
  {
    if code == 0 || code == 2 then (if AllFloat(values, isFloat) then Var else Factor) else Factor
  }

  function Min3(a: nat, b: nat, c: nat): nat {
    if a <= b && a <= c then a else if b <= c then b else c
  }

  /** One column per `zip(names, data, types)` entry, in order. */
  function Columns(names: seq<string>, data: seq<seq<string>>, types: seq<int>, isFloat: string -> bool): seq<Column> {
    var m := Min3(|names|, |data|, |types|);
    seq(m, i requires 0 <= i < m => Column(names[i], KindOf(types[i], data[i], isFloat), data[i]))
  }

  /** Code 1 always gives a factor; a `var` needs code 0 or 2 and cells that
      all convert, so code 2 does not force a `var`. */
  lemma ColumnKinds(names: seq<string>, data: seq<seq<string>>, types: seq<int>, isFloat: string -> bool, i: nat)
    requires i < |names| == |data| == |types|
    ensures var col := Columns(names, data, types, isFloat)[i];
      |Columns(names, data, types, isFloat)| == |names| &&
      col.name == names[i] && col.values == data[i] &&
      (types[i] == 1 ==> col.kind == Factor) &&
      (col.kind == Var <==> (types[i] == 0 || types[i] == 2) && AllFloat(data[i], isFloat))
  {
  }

  // ---------------------------------------------------------------------
  // tsv

  /** What `tsv` returns or raises, and what the `types` list holds afterwards. */
  datatype Outcome = Outcome(result: Result<Dataset>, types: seq<int>)

  function TsvOutcome(fileLines: seq<string>, path: string, names: NamesArg, types: Types,
                      empty: string, delimiter: Delimiter, isFloat: string -> bool): (o: Outcome)
    ensures o.result == Err(NoDataRows) <==> Rows(Body(fileLines, names), delimiter, empty) == []
    ensures types.Codes? ==> Raised(types.list, o.types)
  {
    var rows := Rows(Body(fileLines, names), delimiter, empty);
    if rows == [] then Outcome(Err(NoDataRows), if types.Codes? then types.list else [])
    else Load(rows, ColumnNames(Header(fileLines, names, delimiter), rows), path, types, isFloat)
  }

  /** What `tsv` does once the data lines and the names are known. */
  function Load(rows: seq<seq<string>>, header: seq<string>, path: string, types: Types,
                isFloat: string -> bool): (o: Outcome)
    requires rows != []
    ensures o.result.Err? ==> o.result.error != NoDataRows && o.result.error != IsBoolUnbound
    ensures o.result == Err(HeaderMismatch) <==> |rows[0]| != |header| && |rows[0]| != |header| + 1
    ensures o.result.Ok? ==> o.result.value.name == Basename(path) && |o.result.value.columns| == |header|
    ensures types.Codes? ==> Raised(types.list, o.types)
  {
    var before := if types.Codes? then types.list else [];
    var n := |header|;
    match Offset(|rows[0]|, n)
    case Err(e) => Outcome(Err(e), before)
    case Ok(start) =>
      match InitialTypes(types, n)
      case Err(e) => Outcome(Err(e), before)
      case Ok(t0) =>
        match RowsFrom(Fill(seq(n, _ => []), t0), rows, start)
        case Stop(g, e) => Outcome(Err(e), g.types)
        case Next(g) => Outcome(Ok(Dataset(Basename(path), Columns(header, g.data, g.types, isFloat))), g.types)
  }

  /** Generated names are as many as the cells of the first data line, so
      they never disagree with it. */
  lemma GeneratedNamesFit(fileLines: seq<string>, path: string, types: Types, empty: string,
                          delimiter: Delimiter, isFloat: string -> bool)
    requires Rows(Body(fileLines, Generated), delimiter, empty) != []
    ensures TsvOutcome(fileLines, path, Generated, types, empty, delimiter, isFloat).result != Err(HeaderMismatch)
  {
    var rows := Rows(Body(fileLines, Generated), delimiter, empty);
    var header := ColumnNames(Header(fileLines, Generated, delimiter), rows);
    assert |header| == |rows[0]|;
    assert TsvOutcome(fileLines, path, Generated, types, empty, delimiter, isFloat) ==
      Load(rows, header, path, types, isFloat);
  }

  /** Starting from empty columns, the lines pass exactly when every cell
      fits, and column `i` then holds its cells in line order, with code 1
      exactly when some line quotes it. */
  lemma FreshFill(t0: seq<int>, rows: seq<seq<string>>, start: nat)
    ensures var n := |t0|;
      var s := RowsFrom(Fill(seq(n, _ => []), t0), rows, start);
      (s.Next? <==> RowsFit(rows, start, n)) &&
      (s.Next? ==>
        |s.fill.data| == |s.fill.types| == n &&
        forall i :: 0 <= i < n ==>
          s.fill.data[i] == ColumnCells(rows, start, i) &&
          s.fill.types[i] == if ColumnQuoted(rows, start, i) then 1 else t0[i])
  {
    var n := |t0|;
    var f := Fill(seq(n, _ => []), t0);
    RowsFromSpec(f, rows, start);
    var s := RowsFrom(f, rows, start);
    if s.Next? {
      forall i | 0 <= i < n
        ensures s.fill.data[i] == ColumnCells(rows, start, i)
      {
        assert s.fill.data[i] == f.data[i] + ColumnCells(rows, start, i);
      }
    }
  }

  /** Once there is a data line, loading succeeds exactly when the first
      data line has as many cells as names or one more, `types` is a keyword
      or has one code per name, and every cell fits; the dataset is then
      named after the file and has one column per name. */
  lemma LoadSucceeds(rows: seq<seq<string>>, header: seq<string>, path: string, types: Types,
                     isFloat: string -> bool)
    requires rows != []
    ensures var o := Load(rows, header, path, types, isFloat);
      var n := |header|;
      var start := |rows[0]| - n;
      (o.result.Ok? <==>
        (start == 0 || start == 1) && (types.Auto? || |types.list| == n) && RowsFit(rows, start, n)) &&
      (o.result.Ok? ==> o.result.value.name == Basename(path) && |o.result.value.columns| == n)
  {
    var o := Load(rows, header, path, types, isFloat);
    var n := |header|;
    var off := Offset(|rows[0]|, n);
    var t := InitialTypes(types, n);
    if off.Err? {
      assert o.result == Err(HeaderMismatch);
    } else if t.Err? {
      assert o.result == Err(TypesLength);
    } else {
      assert |rows[0]| - n == off.value;
      var s := RowsFrom(Fill(seq(n, _ => []), t.value), rows, off.value);
      FreshFill(t.value, rows, off.value);
      assert o.result.Ok? <==> s.Next?;
    }
  }

  /** After a successful load, column `i` carries name `i` and cell
      `start + i` of each data line in file order; it is a factor when some
      line quotes it, and otherwise a `var` exactly when its code is 0 or 2
      and every cell converts to a float. */
  lemma LoadColumn(rows: seq<seq<string>>, header: seq<string>, path: string, types: Types,
                   isFloat: string -> bool, i: nat)
    requires rows != [] && i < |header|
    ensures var o := Load(rows, header, path, types, isFloat);
      var start := |rows[0]| - |header|;
      o.result.Ok? ==>
        var t0 := InitialTypes(types, |header|).value;
        var col := o.result.value.columns[i];
        col.name == header[i] && col.values == ColumnCells(rows, start, i) &&
        (ColumnQuoted(rows, start, i) ==> col.kind == Factor) &&
        (col.kind == Var <==>
          !ColumnQuoted(rows, start, i) && (t0[i] == 0 || t0[i] == 2) &&
          AllFloat(ColumnCells(rows, start, i), isFloat))
  {
    var o := Load(rows, header, path, types, isFloat);
    var n := |header|;
    var off := Offset(|rows[0]|, n);
    var t := InitialTypes(types, n);
    if off.Ok? && t.Ok? {
      var s := RowsFrom(Fill(seq(n, _ => []), t.value), rows, off.value);
      FreshFill(t.value, rows, off.value);
      if s.Next? {
        assert o.result.value.columns == Columns(header, s.fill.data, s.fill.types, isFloat);
        ColumnKinds(header, s.fill.data, s.fill.types, isFloat, i);
      }
    }
  }

  /** The errors raised before any cell is looked at, in the order the code checks them. */
  lemma TsvEarlyErrors(fileLines: seq<string>, path: string, names: NamesArg, types: Types,
                       empty: string, delimiter: Delimiter, isFloat: string -> bool)
    ensures var rows := Rows(Body(fileLines, names), delimiter, empty);
      var o := TsvOutcome(fileLines, path, names, types, empty, delimiter, isFloat);
      (o.result == Err(NoDataRows) <==> rows == []) &&
      (rows != [] ==>
        var n := |ColumnNames(Header(fileLines, names, delimiter), rows)|;
        (o.result == Err(HeaderMismatch) <==> |rows[0]| != n && |rows[0]| != n + 1) &&
        (o.result == Err(TypesLength) <==>
          (|rows[0]| == n || |rows[0]| == n + 1) && types.Codes? && |types.list| != n))
  {
  }

  /** The caller's list of codes: codes only ever change to 1; after a
      successful load, code `i` is 1 exactly when it was 1 or some line quotes
      column `i`. */
  lemma LoadTypesList(rows: seq<seq<string>>, header: seq<string>, path: string, list: seq<int>,
                      isFloat: string -> bool)
    requires rows != []
    ensures var o := Load(rows, header, path, Codes(list), isFloat);
      Raised(list, o.types) &&
      (o.result.Ok? ==>
        |list| == |header| && |list| <= |rows[0]| <= |list| + 1 &&
        var start := |rows[0]| - |list|;
        forall i :: 0 <= i < |list| ==> (o.types[i] == 1 <==> list[i] == 1 || ColumnQuoted(rows, start, i)))
  {
    var o := Load(rows, header, path, Codes(list), isFloat);
    var n := |header|;
    var off := Offset(|rows[0]|, n);
    var t := InitialTypes(Codes(list), n);
    if off.Ok? && t.Ok? {
      assert |rows[0]| - |list| == off.value;
      var s := RowsFrom(Fill(seq(n, _ => []), list), rows, off.value);
      FreshFill(list, rows, off.value);
      if s.Next? {
        assert o.types == s.fill.types;
        forall i | 0 <= i < |list|
          ensures o.types[i] == 1 <==> list[i] == 1 || ColumnQuoted(rows, off.value, i)
        {
          assert s.fill.types[i] == if ColumnQuoted(rows, off.value, i) then 1 else list[i];
        }
      }
    } else {
      assert o.result.Err?;
    }
  }

  // The imperative loader

  /** Splits one data line and cleans each of its cells. */
  method ReadRow(line: string, delimiter: Delimiter, empty: string) returns (values: seq<string>)
    ensures values == Row(line, delimiter, empty)
  {
    values := [];
    var fields := Split(line, delimiter);
    for j := 0 to |fields|
      invariant |values| == j
      invariant forall j' :: 0 <= j' < j ==> values[j'] == CellText(fields[j'], empty)
    {
      var v := Strip(fields[j], Whitespace);
      if v == [] {
        v := empty;
      }
      values := values + [v];
    }
  }

  /** Reads the data lines, in file order. */
  method ReadRows(body: seq<string>, delimiter: Delimiter, empty: string) returns (lines: seq<seq<string>>)
    ensures lines == Rows(body, delimiter, empty)
  {
    lines := [];
    for k := 0 to |body|
      invariant |lines| == k
      invariant forall k' :: 0 <= k' < k ==> lines[k'] == Row(body[k'], delimiter, empty)
    {
      var values := ReadRow(body[k], delimiter, empty);
      lines := lines + [values];
    }
  }

  /** One cell: the quote checks, which may set `types[i]` to 1, then the
      text appended to its column. */
  method ReadCell(data: seq<seq<string>>, types: array<int>, v: string, i: nat)
    returns (data': seq<seq<string>>, err: Option<Error>)
    requires |data| == types.Length
    modifies types
    ensures var s := CellStep(Fill(data, old(types[..])), v, i);
      types[..] == s.fill.types &&
      (s.Next? ==> err == None && data' == s.fill.data) &&
      (s.Stop? ==> err == Some(s.error))
  {
    var w := v;
    ghost var total := QuotePasses(Fill(data, types[..]), v, i, Quotes);
    for q := 0 to |Quotes|
      invariant QuotePasses(Fill(data, types[..]), w, i, Quotes[q..]) == total
    {
      var strDel := Quotes[q];
      assert Quotes[q..][0] == strDel && Quotes[q..][1..] == Quotes[q + 1..];
      if w == [] {
        return data, Some(EmptyCell);
      }
      if w[0] == strDel {
        w := Strip(w, {strDel});
        if i >= types.Length {
          return data, Some(RowTooLong);
        }
        types[i] := 1;
      }
    }
    if i >= |data| {
      return data, Some(RowTooLong);
    }
    data' := data[i := data[i] + [w]];
    err := None;
  }

  /** Fills one list of cells per column from the lines, skipping `start`
      leading cells of each, and sets to 1 the codes of quoted columns. */
  method Distribute(lines: seq<seq<string>>, start: nat, types: array<int>)
    returns (data: seq<seq<string>>, err: Option<Error>)
    modifies types
    ensures var s := RowsFrom(Fill(seq(types.Length, _ => []), old(types[..])), lines, start);
      types[..] == s.fill.types &&
      (s.Next? ==> err == None && data == s.fill.data) &&
      (s.Stop? ==> err == Some(s.error))
  {
    var n := types.Length;
    data := [];
    for i := 0 to n
      invariant data == seq(i, _ => [])
    {
      data := data + [[]];
    }
    ghost var total := RowsFrom(Fill(data, types[..]), lines, start);
    for k := 0 to |lines|
      invariant |data| == n
      invariant RowsFrom(Fill(data, types[..]), lines[k..], start) == total
    {
      var cells := Drop(lines[k], start);
      assert lines[k..][0] == lines[k] && lines[k..][1..] == lines[k + 1..];
      for i := 0 to |cells|
        invariant |data| == n
        invariant Continue(RowFrom(Fill(data, types[..]), cells, i), lines[k + 1..], start) == total
      {
        var e;
        data, e := ReadCell(data, types, cells[i], i);
        if e.Some? {
          return data, e;
        }
      }
    }
    err := None;
  }

  /** Builds the columns: a factor for code 1, otherwise a var when every
      cell converts to a float and a factor when one does not. */
  method BuildColumns(names: seq<string>, data: seq<seq<string>>, types: seq<int>, isFloat: string -> bool)
    returns (columns: seq<Column>)
    ensures columns == Columns(names, data, types, isFloat)
  {
    columns := [];
    var m := Min3(|names|, |data|, |types|);
    for i := 0 to m
      invariant |columns| == i
      invariant forall j :: 0 <= j < i ==> columns[j] == Column(names[j], KindOf(types[j], data[j], isFloat), data[j])
    {
      var kind := Factor;
      if types[i] == 0 || types[i] == 2 {
        if AllFloat(data[i], isFloat) {
          kind := Var;
        }
      }
      columns := columns + [Column(names[i], kind, data[i])];
    }
  }

  /** `tsv`: loads the lines of a file as a dataset named after the file. */
  method Tsv(fileLines: seq<string>, path: string, names: NamesArg, types: TypesArg,
             empty: string, delimiter: Delimiter, isFloat: string -> bool)
    returns (r: Result<Dataset>)
    modifies Footprint(types)
    ensures var o := TsvOutcome(fileLines, path, names, old(Value(types)), empty, delimiter, isFloat);
      r == o.result && (types.CodesArg? ==> types.list[..] == o.types)
  {
    var header := Header(fileLines, names, delimiter);
    var lines := ReadRows(Body(fileLines, names), delimiter, empty);
    if lines == [] {
      return Err(NoDataRows);
    }
    var nVars := |lines[0]|;
    if header == [] {
      header := GeneratedNames(nVars);
    }
    var n := |header|;
    var start: nat;
    if nVars == n {
      start := 0;
    } else if nVars == n + 1 {
      start := 1;
    } else {
      return Err(HeaderMismatch);
    }
    var codes: array<int>;
    match types {
      case AutoArg =>
        codes := new int[n](_ => 0);
        assert codes[..] == seq(n, _ => 0);
      case CodesArg(list) =>
        if list.Length != n {
          return Err(TypesLength);
        }
        codes := list;
    }
    var data, err := Distribute(lines, start, codes);
    if err.Some? {
      return Err(err.value);
    }
    var columns := BuildColumns(header, data, codes[..], isFloat);
    r := Ok(Dataset(Basename(path), columns));
  }

  // ---------------------------------------------------------------------
  // var (txt.py:117-132)

  /** What `var` settles before handing the file to numpy: whether to read
      booleans, and the name the result carries. */
  datatype VarRead = VarRead(boolean: bool, name: Option<string>)

  /** The first line announces booleans. */
  predicate BooleanLine(firstLine: string) {
    StartsWith(firstLine, "True") || StartsWith(firstLine, "False")
  }

  /** `var` as written: `is_bool` is bound only when `isbool` is None, and
      the result is always unnamed. */
  function ReadVarAsWritten(firstLine: string, name: Option<string>, isbool: Option<bool>): (r: Result<VarRead>)
    ensures r.Ok? <==> isbool.None?
    ensures r.Ok? ==> r.value.name == None && (r.value.boolean <==> BooleanLine(firstLine))
  {
    if isbool.None? then Ok(VarRead(BooleanLine(firstLine), None)) else Err(IsBoolUnbound)
  }

  /** Passing `isbool` makes `var` raise. */
  lemma ReadVarAsWrittenRejectsFlag(firstLine: string, name: Option<string>, b: bool)
    ensures ReadVarAsWritten(firstLine, name, Some(b)) == Err(IsBoolUnbound)
  {
  }

  /** A name passed to `var` is lost. */
  lemma ReadVarAsWrittenDropsName(firstLine: string, name: string)
    ensures ReadVarAsWritten(firstLine, Some(name), None).Ok?
    ensures ReadVarAsWritten(firstLine, Some(name), None).value.name != Some(name)
  {
  }

  /** `var` as intended: an explicit `isbool` decides, otherwise the first
      line does; the name is kept. Where the code as written succeeds, the
      two agree on the reader. */
  function ReadVar(firstLine: string, name: Option<string>, isbool: Option<bool>): (r: VarRead)
    ensures isbool.Some? ==> r.boolean == isbool.value
    ensures isbool.None? ==> (r.boolean <==> BooleanLine(firstLine))
    ensures r.name == name
    ensures ReadVarAsWritten(firstLine, name, isbool).Ok? ==>
      ReadVarAsWritten(firstLine, name, isbool).value.boolean == r.boolean
  {
    VarRead(if isbool.Some? then isbool.value else BooleanLine(firstLine), name)
  }
}
