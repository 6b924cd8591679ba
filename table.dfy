/** The loaded emissions table and the per-cell coercions the dashboard applies
    to it: `pd.to_numeric(..., errors="coerce")`, the replacement of infinities
    by NaN, and Python's `int()` on a float. */
module Table {
  import opened Wrappers
  import opened Seqs

  /** A float that is not NaN (NaN is a missing value, see `Cell.Missing`). */
  datatype Num = Finite(x: real) | PosInf | NegInf

  /** One cell of the table as `pd.read_csv` produced it. */
  datatype Cell = Missing | Number(n: Num) | Text(s: string)

  /** A row maps column names to cells. */
  type Row = map<string, Cell>

  /** A column name, and whether pandas inferred a numeric dtype for it
      (`select_dtypes(include=[np.number])`). */
  datatype Column = Column(name: string, numeric: bool)

  /** The table: its columns in file order and its rows in file order. */
  datatype Frame = Frame(columns: seq<Column>, rows: seq<Row>)

  /** What the dashboard's Python does with a string: `toNumber` is
      `pd.to_numeric` on one string (None where it coerces to NaN), `toInt` is
      `int()` on one string (None where it raises). */
  datatype Parser = Parser(toNumber: string -> Option<Num>, toInt: string -> Option<int>)

  /** The cell of `row` in column `col`; a name the row does not carry reads
      as missing. */
  function CellAt(row: Row, col: string): Cell
  {
    if col in row then row[col] else Missing
  }

  /** `df.columns`: every column name, numeric or not, in table order. */
  function Names(t: Frame): (r: seq<string>)
    ensures |r| == |t.columns|
    ensures forall i :: 0 <= i < |t.columns| ==> r[i] == t.columns[i].name
  {
    MapSeq(t.columns, (c: Column) => c.name)
  }

  /** The names of the numeric columns, in table order. */
  function NumericNames(cols: seq<Column>): (r: seq<string>)
    ensures forall n :: n in r <==> Column(n, true) in cols
    ensures |r| <= |cols|
  {
    if cols == [] then []
    else
      assert forall c :: c in cols <==> c == cols[0] || c in cols[1..];
      (if cols[0].numeric then [cols[0].name] else []) + NumericNames(cols[1..])
  }

  /** The mask of `select_dtypes(include=[np.number])`. */
  predicate IsNumeric(c: Column)
  {
    c.numeric
  }

  /** A column's header. */
  function NameOf(c: Column): string
  {
    c.name
  }

  /** The numeric names keep table order: they are the names of the numeric
      columns, selected in file order. */
  lemma {:induction false} NumericNamesInTableOrder(cols: seq<Column>)
    ensures NumericNames(cols) == MapSeq(Filter(cols, IsNumeric), NameOf)
  {
    if cols != [] {
      NumericNamesInTableOrder(cols[1..]);
      var head := if cols[0].numeric then [cols[0]] else [];
      var rest := Filter(cols[1..], IsNumeric);
      assert Filter(cols, IsNumeric) == head + rest;
      MapSeqConcat(head, rest, NameOf);
      if cols[0].numeric {
        assert |MapSeq(head, NameOf)| == 1 && MapSeq(head, NameOf)[0] == NameOf(cols[0]);
      } else {
        assert head == [];
      }
    }
  }

  /** Every numeric column is a column. */
  lemma NumericNamesAreNames(t: Frame, n: string)
    requires n in NumericNames(t.columns)
    ensures n in Names(t)
  {
    var i :| 0 <= i < |t.columns| && t.columns[i] == Column(n, true);
    assert Names(t)[i] == n;
  }

  /** `pd.to_numeric(..., errors="coerce")` on one cell: numbers stay, strings
      go through the parser, a missing cell stays missing. */
  function ToNumeric(p: Parser, c: Cell): (r: Option<Num>)
    ensures c == Missing ==> r == None
    ensures c.Number? ==> r == Some(c.n)
  {
    match c
    case Missing => None
    case Number(n) => Some(n)
    case Text(s) => p.toNumber(s)
  }

  /** Coercion followed by `.replace([np.inf, -np.inf], np.nan)`: a value is
      present exactly when the cell coerces to a finite number, and it is that
      number. */
  function FiniteValue(p: Parser, c: Cell): (r: Option<real>)
    ensures r.Some? <==> ToNumeric(p, c).Some? && ToNumeric(p, c).value.Finite?
    ensures r.Some? ==> ToNumeric(p, c) == Some(Finite(r.value))
  {
    match ToNumeric(p, c)
    case Some(Finite(x)) => Some(x)
    case _ => None
  }

  /** Python's `int()` on a finite float: truncation toward zero. */
  function Trunc(x: real): (r: int)
    ensures x >= 0.0 ==> r as real <= x < r as real + 1.0
    ensures x < 0.0 ==> r as real - 1.0 < x <= r as real
  {
    if x >= 0.0 then x.Floor else -((-x).Floor)
  }

  /** Truncation preserves order. */
  lemma TruncMonotone(x: real, y: real)
    requires x <= y
    ensures Trunc(x) <= Trunc(y)
  {
    if x >= 0.0 {
      assert (Trunc(x) as real) <= x <= y < Trunc(y) as real + 1.0;
    } else if y < 0.0 {
      assert Trunc(x) as real - 1.0 < x <= y <= Trunc(y) as real;
    }
  }

  /** Truncation leaves integers alone. */
  lemma TruncOfInt(k: int)
    ensures Trunc(k as real) == k
  {
  }
}
