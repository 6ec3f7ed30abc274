/**
 * The transcoder between property lists and the shell's values: a decoder
 * that fails only on an integer too wide for `i64`, and an encoder that fails
 * on every variant without a plist counterpart. Containers are collected
 * element by element and stop at the first element that fails, so no partial
 * container is ever returned.
 */
module NuPlist {
  import opened Numbers
  import opened Float64
  import opened Results
  import opened Plist
  import opened Nu

  // ---------------------------------------------------------------------
  // Decoder: plist value to shell value
  // ---------------------------------------------------------------------

  /** Decodes one plist value; the only failure is an integer above `i64::MAX`. */
  function ConvertPlistValue(p: PlistValue): (r: Result<NuValue, Error>)
    ensures r.Err? ==> r.error.IntegerOutOfRange? && r.error.integer > I64_MAX
    decreases p, 2
  {
    match p
    case String(s) => Ok(NuValue.String(s))
    case Boolean(b) => Ok(NuValue.Bool(b))
    case Real(x) => Ok(NuValue.Float(x))
    case Date(d) => Ok(NuValue.Date(ConvertDate(d)))
    case Integer(i) => if IsI64(i) then Ok(NuValue.Int(i)) else Err(IntegerOutOfRange(i))
    case Uid(u) => Ok(NuValue.Float(FromU64(u)))
    case Data(bytes) => Ok(NuValue.Binary(bytes))
    case Array(items) =>
      var vals :- ConvertArray(items);
      Ok(NuValue.List(vals))
    case Dictionary(entries) => ConvertDict(entries)
    case Reserved => Ok(NuValue.Nothing)
  }

  /**
   * Decodes a dictionary into a record: the keys become the columns in their
   * order, and the values are decoded in that same order.
   */
  function ConvertDict(dict: seq<PlistEntry>): (r: Result<NuValue, Error>)
    ensures r.Ok? <==> forall i | 0 <= i < |dict| :: ConvertPlistValue(dict[i].value).Ok?
    ensures r.Ok? ==> && r.value.Record?
                      && Columns(r.value.entries) == Keys(dict)
                      && forall i | 0 <= i < |dict| ::
                           ConvertPlistValue(dict[i].value) == Ok(r.value.entries[i].value)
    ensures r.Err? ==> exists k | 0 <= k < |dict| ::
                         && (forall j | 0 <= j < k :: ConvertPlistValue(dict[j].value).Ok?)
                         && ConvertPlistValue(dict[k].value) == Err(r.error)
    ensures r.Err? ==> r.error.IntegerOutOfRange? && r.error.integer > I64_MAX
    decreases dict, 1
  {
    var cols := Keys(dict);
    var vals :- ConvertValues(dict);
    match FromRawColsVals(cols, vals)
    case Ok(record) => Ok(NuValue.Record(record))
    // The columns and the values come from the same entries, so their counts agree.
    case Err(e) => assert false; Err(e)
  }

  /** Decodes the values of a dictionary, in order, stopping at the first failure. */
  function ConvertValues(dict: seq<PlistEntry>): (r: Result<seq<NuValue>, Error>)
    ensures r.Ok? <==> forall i | 0 <= i < |dict| :: ConvertPlistValue(dict[i].value).Ok?
    ensures r.Ok? ==> && |r.value| == |dict|
                      && forall i | 0 <= i < |dict| :: ConvertPlistValue(dict[i].value) == Ok(r.value[i])
    ensures r.Err? ==> exists k | 0 <= k < |dict| ::
                         && (forall j | 0 <= j < k :: ConvertPlistValue(dict[j].value).Ok?)
                         && ConvertPlistValue(dict[k].value) == Err(r.error)
    ensures r.Err? ==> r.error.IntegerOutOfRange? && r.error.integer > I64_MAX
    decreases dict, 0
  {
    if |dict| == 0 then Ok([])
    else
      var head :- ConvertPlistValue(dict[0].value);
      var tail :- ConvertValues(dict[1..]);
      Ok([head] + tail)
  }

  /** Decodes the elements of an array, in order, stopping at the first failure. */
  function ConvertArray(arr: seq<PlistValue>): (r: Result<seq<NuValue>, Error>)
    ensures r.Ok? <==> forall i | 0 <= i < |arr| :: ConvertPlistValue(arr[i]).Ok?
    ensures r.Ok? ==> && |r.value| == |arr|
                      && forall i | 0 <= i < |arr| :: ConvertPlistValue(arr[i]) == Ok(r.value[i])
    ensures r.Err? ==> exists k | 0 <= k < |arr| ::
                         && (forall j | 0 <= j < k :: ConvertPlistValue(arr[j]).Ok?)
                         && ConvertPlistValue(arr[k]) == Err(r.error)
    ensures r.Err? ==> r.error.IntegerOutOfRange? && r.error.integer > I64_MAX
    decreases arr, 1
  {
    if |arr| == 0 then Ok([])
    else
      var head :- ConvertPlistValue(arr[0]);
      var tail :- ConvertArray(arr[1..]);
      Ok([head] + tail)
  }

  /**
   * A plist date, an instant with no offset, shown at UTC: the instant is kept
   * and the offset is zero.
   */
  function ConvertDate(d: Instant): (t: DateTime)
    ensures t.offset == 0 && t.instant == d
  {
    DateTime(d, 0)
  }

  // ---------------------------------------------------------------------
  // Encoder: shell value to plist value
  // ---------------------------------------------------------------------

  /**
   * Encodes one shell value. Nothing and every variant without a plist
   * counterpart fail, naming the offending value.
   */
  function ConvertNuValue(v: NuValue): (r: Result<PlistValue, Error>)
    ensures (v.Nothing? || v.Other?) ==> r == Err(NotConvertible(v))
    ensures r.Ok? && v.List? ==> r.value.Array? && |r.value.items| == |v.vals|
    decreases v, 2
  {
    match v
    case String(s) => Ok(PlistValue.String(s))
    case Bool(b) => Ok(Boolean(b))
    case Float(x) => Ok(Real(x))
    case Int(i) => Ok(Integer(i))
    case Binary(bytes) => Ok(Data(bytes))
    case Record(entries) => ConvertNuDict(entries)
    case List(vals) =>
      var items :- ConvertNuList(vals);
      Ok(Array(items))
    // A timestamp becomes a plist date holding its instant; the offset is dropped.
    case Date(t) => Ok(PlistValue.Date(t.instant))
    case LazyRecord(collected) =>
      var record :- collected;
      var entries :- AsRecord(record);
      ConvertNuDict(entries)
    case Filesize(size) => Ok(Integer(size))
    case Nothing => Err(NotConvertible(v))
    case Other(_) => Err(NotConvertible(v))
  }

  /** Encodes the elements of a list, in order, stopping at the first failure. */
  function ConvertNuList(vals: seq<NuValue>): (r: Result<seq<PlistValue>, Error>)
    ensures r.Ok? <==> forall i | 0 <= i < |vals| :: ConvertNuValue(vals[i]).Ok?
    ensures r.Ok? ==> && |r.value| == |vals|
                      && forall i | 0 <= i < |vals| :: ConvertNuValue(vals[i]) == Ok(r.value[i])
    ensures r.Err? ==> exists k | 0 <= k < |vals| ::
                         && (forall j | 0 <= j < k :: ConvertNuValue(vals[j]).Ok?)
                         && ConvertNuValue(vals[k]) == Err(r.error)
    decreases vals, 1
  {
    if |vals| == 0 then Ok([])
    else
      var head :- ConvertNuValue(vals[0]);
      var tail :- ConvertNuList(vals[1..]);
      Ok([head] + tail)
  }

  /**
   * Encodes a record into a dictionary: each value is encoded in column order,
   * stopping at the first failure, and the pairs are collected into a dictionary.
   */
  function ConvertNuDict(record: seq<NuEntry>): (r: Result<PlistValue, Error>)
    ensures r.Ok? <==> forall i | 0 <= i < |record| :: ConvertNuValue(record[i].value).Ok?
    ensures r.Ok? ==> && r.value.Dictionary?
                      && UniqueKeys(Keys(r.value.entries))
                      && forall k :: k in Keys(r.value.entries) <==> k in Columns(record)
    ensures r.Err? ==> exists k | 0 <= k < |record| ::
                         && (forall j | 0 <= j < k :: ConvertNuValue(record[j].value).Ok?)
                         && ConvertNuValue(record[k].value) == Err(r.error)
    decreases record, 1
  {
    var pairs :- ConvertNuEntries(record);
    assert Keys(pairs) == Columns(record);
    Ok(Dictionary(FromPairs(pairs)))
  }

  /** Encodes the values of a record, each paired with its column, stopping at the first failure. */
  function ConvertNuEntries(record: seq<NuEntry>): (r: Result<seq<PlistEntry>, Error>)
    ensures r.Ok? <==> forall i | 0 <= i < |record| :: ConvertNuValue(record[i].value).Ok?
    ensures r.Ok? ==> && |r.value| == |record|
                      && forall i | 0 <= i < |record| ::
                           && r.value[i].key == record[i].key
                           && ConvertNuValue(record[i].value) == Ok(r.value[i].value)
    ensures r.Err? ==> exists k | 0 <= k < |record| ::
                         && (forall j | 0 <= j < k :: ConvertNuValue(record[j].value).Ok?)
                         && ConvertNuValue(record[k].value) == Err(r.error)
    decreases record, 0
  {
    if |record| == 0 then Ok([])
    else
      var value :- ConvertNuValue(record[0].value);
      var tail :- ConvertNuEntries(record[1..]);
      Ok([PlistEntry(record[0].key, value)] + tail)
  }
}
