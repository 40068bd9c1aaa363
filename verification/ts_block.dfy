/**
 Result blocks (TsBlocks) as the count-merge operator sees them: a declared
 list of column types and a sequence of rows, each row a timestamp and one
 value per column. Reads go through the same accessors the operator uses
 (`getColumn(c).getInt(p)`, `getColumn(c).getBinary(p)`), and the ways those
 reads fail in Java become `Err` values.
 */
module TsBlocks {
  import opened JavaInt

  /** The failures a read or a child operator can raise. */
  datatype Error =
    | IndexOutOfBounds
    | UnsupportedOperation
    | Raised(reason: string)  // any other exception, propagated as it came

  datatype Result<+T> = Ok(value: T) | Err(error: Error) {
    predicate IsFailure() {
      Err?
    }

    function PropagateFailure<U>(): Result<U>
      requires Err?
    {
      Err(error)
    }

    function Extract(): T
      requires Ok?
    {
      value
    }
  }

  /** The closed set of column types a block may declare. */
  datatype DataType = BOOLEAN | INT32 | INT64 | FLOAT | DOUBLE | TEXT

  /** One cell. Floating-point cells are kept as raw bits; nothing here does arithmetic on them. */
  datatype Value =
    | BoolV(b: bool)
    | Int32V(i: int32)
    | Int64V(l: int64)
    | FloatV(fbits: bv32)
    | DoubleV(dbits: bv64)
    | TextV(s: string)

  function TypeOf(v: Value): DataType
  {
    match v
    case BoolV(_) => BOOLEAN
    case Int32V(_) => INT32
    case Int64V(_) => INT64
    case FloatV(_) => FLOAT
    case DoubleV(_) => DOUBLE
    case TextV(_) => TEXT
  }

  datatype Row = Row(time: int64, values: seq<Value>)

  datatype TsBlock = TsBlock(types: seq<DataType>, rows: seq<Row>)

  /** Every row has one value per declared column, of the declared type. */
  predicate WellFormed(b: TsBlock)
  {
    forall p :: 0 <= p < |b.rows| ==> RowMatches(b.rows[p], b.types)
  }

  predicate RowMatches(r: Row, types: seq<DataType>)
  {
    && |r.values| == |types|
    && forall c :: 0 <= c < |types| ==> TypeOf(r.values[c]) == types[c]
  }

  function PositionCount(b: TsBlock): nat
  {
    |b.rows|
  }

  /** `getColumn(col)` then the cell at `pos`; an absent column or position fails. */
  function GetValue(b: TsBlock, col: nat, pos: nat): Result<Value>
  {
    if col < |b.types| && pos < |b.rows| && col < |b.rows[pos].values| then
      Ok(b.rows[pos].values[col])
    else
      Err(IndexOutOfBounds)
  }

  /** `getColumn(col).getInt(pos)`: a non-INT32 column does not support it. */
  function GetInt(b: TsBlock, col: nat, pos: nat): Result<int32>
  {
    var v :- GetValue(b, col, pos);
    if v.Int32V? then Ok(v.i) else Err(UnsupportedOperation)
  }

  /** `getColumn(col).getBinary(pos).getStringValue()`: only a TEXT column supports it. */
  function GetText(b: TsBlock, col: nat, pos: nat): Result<string>
  {
    var v :- GetValue(b, col, pos);
    if v.TextV? then Ok(v.s) else Err(UnsupportedOperation)
  }

  /**
   In a well-formed block the reads succeed exactly on the cells that exist
   in a column of the matching declared type.
   */
  lemma GetIntWellFormed(b: TsBlock, col: nat, pos: nat)
    requires WellFormed(b)
    ensures GetInt(b, col, pos).Ok? <==> col < |b.types| && pos < |b.rows| && b.types[col] == INT32
    ensures GetInt(b, col, pos).Ok? ==> b.rows[pos].values[col] == Int32V(GetInt(b, col, pos).value)
  {
    if col < |b.types| && pos < |b.rows| {
      assert RowMatches(b.rows[pos], b.types);
    }
  }

  lemma GetTextWellFormed(b: TsBlock, col: nat, pos: nat)
    requires WellFormed(b)
    ensures GetText(b, col, pos).Ok? <==> col < |b.types| && pos < |b.rows| && b.types[col] == TEXT
    ensures GetText(b, col, pos).Ok? ==> b.rows[pos].values[col] == TextV(GetText(b, col, pos).value)
  {
    if col < |b.types| && pos < |b.rows| {
      assert RowMatches(b.rows[pos], b.types);
    }
  }
}
