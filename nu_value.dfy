/**
 * The host shell's side of the transcoder: its dynamic value tree, and the
 * labelled error a plugin call fails with.
 */
module Nu {
  import opened Numbers
  import opened Float64
  import opened Results
  import opened Plist

  /** A fixed UTC offset in seconds east of UTC; it stays strictly within one day. */
  type OffsetSeconds = x: int | -86400 < x < 86400

  /** An offset-aware timestamp: an absolute instant and the offset it is shown in. */
  datatype DateTime = DateTime(instant: Instant, offset: OffsetSeconds)

  /** The host's value variants that no arm of the transcoder names; their payloads play no part. */
  datatype OtherKind = Duration | Range | Block | Closure | ErrorValue | CellPath | CustomValue | MatchPattern

  datatype NuValue =
    | Bool(b: bool)
    | Int(i: I64)
    | Float(f: F64)
    | Filesize(size: I64)
    | Date(date: DateTime)
    | String(s: string)
    | Record(entries: seq<NuEntry>)
    | List(vals: seq<NuValue>)
    | Nothing
    | Binary(bytes: seq<Byte>)
      /**
       * A record computed on demand. It is represented by the outcome of
       * materializing it (`collect`), which may fail or yield any value.
       */
    | LazyRecord(collected: Result<NuValue, Error>)
    | Other(kind: OtherKind)

  /** A record is an ordered sequence of column/value entries. */
  datatype NuEntry = NuEntry(key: string, value: NuValue)

  /** The failures a conversion reports; messages and source spans are not modelled. */
  datatype Error =
      /** A plist integer that does not fit in an `i64`. */
    | IntegerOutOfRange(integer: PlistInt)
      /** A host value with no plist counterpart. */
    | NotConvertible(offending: NuValue)
      /** A record built from unequal numbers of columns and values. */
    | ColsValsMismatch(cols: nat, vals: nat)
      /** A materialized lazy record that is not a record. */
    | NotARecord(offending: NuValue)
      /** A failure raised inside the host, identified only by a code. */
    | Host(code: nat)

  /**
   * The columns of a record, in order. Records and plist dictionaries have
   * different entry types, so this and `Plist.Keys` are separate projections.
   */
  function Columns(entries: seq<NuEntry>): (cols: seq<string>)
    ensures |cols| == |entries|
    ensures forall i | 0 <= i < |entries| :: cols[i] == entries[i].key
  {
    seq(|entries|, i requires 0 <= i < |entries| => entries[i].key)
  }

  /**
   * `Record::from_raw_cols_vals`: pairs the i-th column with the i-th value,
   * and fails when there are not as many columns as values.
   */
  function FromRawColsVals(cols: seq<string>, vals: seq<NuValue>): (r: Result<seq<NuEntry>, Error>)
    ensures r.Ok? <==> |cols| == |vals|
    ensures r.Ok? ==> Columns(r.value) == cols
    ensures r.Ok? ==> forall i | 0 <= i < |vals| :: r.value[i].value == vals[i]
    ensures r.Err? ==> r.error == ColsValsMismatch(|cols|, |vals|)
  {
    if |cols| == |vals| then
      Ok(seq(|cols|, i requires 0 <= i < |cols| => NuEntry(cols[i], vals[i])))
    else
      Err(ColsValsMismatch(|cols|, |vals|))
  }

  /** `Value::as_record`: the entries of a record, an error for anything else. */
  function AsRecord(v: NuValue): (r: Result<seq<NuEntry>, Error>)
    ensures r.Ok? <==> v.Record?
    ensures r.Ok? ==> r.value == v.entries
    ensures r.Err? ==> r.error == NotARecord(v)
  {
    match v
    case Record(entries) => Ok(entries)
    case _ => Err(NotARecord(v))
  }
}
