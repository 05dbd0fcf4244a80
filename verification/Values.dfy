/** The values a row carries, bigquery.Value by its dynamic type. */
module Values {
  import opened Decimal

  /** An instant with what the time package makes of it; its formats are not modelled. */
  datatype Time = Time(micros: int, rfc3339: string, date: string, clock: string, dateTime: string)

  datatype Float = NaN | Infinite | Finite(value: real)

  datatype Value =
    | Null
    | Text(text: string)
    | RawJson(text: string)          // json.RawMessage
    | Bytes(text: string)            // []byte
    | NilBytes                       // a nil []byte
    | Int(i: int)
    | Float(f: Float)
    | Bool(b: bool)
    | Rat(r: Rational)             // *big.Rat
    | NilRat                         // a nil *big.Rat
    | Instant(time: Time)            // time.Time
    | CivilDate(text: string)        // civil.Date, civil.Time and civil.DateTime, as they print
    | CivilTime(text: string)
    | CivilDateTime(text: string)
    | List(elements: seq<Value>)     // []bigquery.Value
    | Record(columns: map<string, Value>)
    | Foreign                        // any other dynamic type

  /** ID is the row's own identity; Values are its columns. */
  datatype Row = Row(id: string, values: map<string, Value>)
}
