/**
 * What the transcoder promises as a whole: exactly which inputs each direction
 * rejects and with which error, and what survives a round trip through the
 * other side.
 */
module NuPlistProperties {
  import opened Numbers
  import opened Float64
  import opened Results
  import opened Plist
  import opened Nu
  import opened NuPlist

  // ---------------------------------------------------------------------
  // Reference definitions on plist trees
  // ---------------------------------------------------------------------

  /** Somewhere in the tree there is an integer that does not fit in an `i64`. */
  predicate HasWideInteger(p: PlistValue) {
    match p
    case Integer(i) => !IsI64(i)
    case Array(items) => exists i | 0 <= i < |items| :: HasWideInteger(items[i])
    case Dictionary(entries) => exists i | 0 <= i < |entries| :: HasWideInteger(entries[i].value)
    case _ => false
  }

  /** The first integer too wide for an `i64`, in document order. */
  function FirstWideInteger(p: PlistValue): (r: Option<PlistInt>)
    ensures r.Some? ==> r.value > I64_MAX
    decreases p, 1
  {
    match p
    case Integer(i) => if IsI64(i) then None else Some(i)
    case Array(items) => FirstWideIntegerIn(items)
    case Dictionary(entries) => FirstWideIntegerInValues(entries)
    case _ => None
  }

  function FirstWideIntegerIn(items: seq<PlistValue>): (r: Option<PlistInt>)
    ensures r.Some? ==> r.value > I64_MAX
    decreases items, 0
  {
    if |items| == 0 then None
    else if FirstWideInteger(items[0]).Some? then FirstWideInteger(items[0])
    else FirstWideIntegerIn(items[1..])
  }

  function FirstWideIntegerInValues(entries: seq<PlistEntry>): (r: Option<PlistInt>)
    ensures r.Some? ==> r.value > I64_MAX
    decreases entries, 0
  {
    if |entries| == 0 then None
    else if FirstWideInteger(entries[0].value).Some? then FirstWideInteger(entries[0].value)
    else FirstWideIntegerInValues(entries[1..])
  }

  /** Somewhere in the tree there is a value of a variant the decoder maps to Nothing. */
  predicate ContainsReserved(p: PlistValue) {
    match p
    case Reserved => true
    case Array(items) => exists i | 0 <= i < |items| :: ContainsReserved(items[i])
    case Dictionary(entries) => exists i | 0 <= i < |entries| :: ContainsReserved(entries[i].value)
    case _ => false
  }

  /** Every dictionary in the tree has pairwise distinct keys, as a parsed plist does. */
  predicate WellFormed(p: PlistValue) {
    match p
    case Array(items) => forall i | 0 <= i < |items| :: WellFormed(items[i])
    case Dictionary(entries) =>
      && UniqueKeys(Keys(entries))
      && forall i | 0 <= i < |entries| :: WellFormed(entries[i].value)
    case _ => true
  }

  /** The tree with every UID replaced by its conversion to a float. */
  function WithUidsAsReals(p: PlistValue): PlistValue
    decreases p, 1
  {
    match p
    case Uid(u) => Real(FromU64(u))
    case Array(items) => Array(WithUidsAsRealsIn(items))
    case Dictionary(entries) => Dictionary(WithUidsAsRealsInValues(entries))
    case _ => p
  }

  function WithUidsAsRealsIn(items: seq<PlistValue>): (r: seq<PlistValue>)
    ensures |r| == |items|
    ensures forall i | 0 <= i < |items| :: r[i] == WithUidsAsReals(items[i])
    decreases items, 0
  {
    if |items| == 0 then []
    else [WithUidsAsReals(items[0])] + WithUidsAsRealsIn(items[1..])
  }

  function WithUidsAsRealsInValues(entries: seq<PlistEntry>): (r: seq<PlistEntry>)
    ensures Keys(r) == Keys(entries)
    ensures forall i | 0 <= i < |entries| :: r[i].value == WithUidsAsReals(entries[i].value)
    decreases entries, 0
  {
    if |entries| == 0 then []
    else
      var tail := WithUidsAsRealsInValues(entries[1..]);
      assert Keys(entries) == [entries[0].key] + Keys(entries[1..]);
      [PlistEntry(entries[0].key, WithUidsAsReals(entries[0].value))] + tail
  }

  // ---------------------------------------------------------------------
  // Reference definitions on shell values
  // ---------------------------------------------------------------------

  /**
   * The value has a plist counterpart all the way down: no Nothing, no variant
   * without a counterpart, and every lazy record materializes to a record.
   */
  predicate Encodable(v: NuValue) {
    match v
    case Nothing => false
    case Other(_) => false
    case List(vals) => forall i | 0 <= i < |vals| :: Encodable(vals[i])
    case Record(entries) => forall i | 0 <= i < |entries| :: Encodable(entries[i].value)
    case LazyRecord(collected) =>
      && collected.Ok?
      && collected.value.Record?
      && Encodable(collected.value)
    case _ => true
  }

  /** The error met first, in document order, by a traversal of the value. */
  function FirstEncodeError(v: NuValue): Option<Error>
    decreases v, 1
  {
    match v
    case Nothing => Some(NotConvertible(v))
    case Other(_) => Some(NotConvertible(v))
    case List(vals) => FirstEncodeErrorIn(vals)
    case Record(entries) => FirstEncodeErrorInValues(entries)
    case LazyRecord(Err(e)) => Some(e)
    case LazyRecord(Ok(Record(entries))) => FirstEncodeErrorInValues(entries)
    case LazyRecord(Ok(other)) => Some(NotARecord(other))
    case _ => None
  }

  function FirstEncodeErrorIn(vals: seq<NuValue>): Option<Error>
    decreases vals, 0
  {
    if |vals| == 0 then None
    else if FirstEncodeError(vals[0]).Some? then FirstEncodeError(vals[0])
    else FirstEncodeErrorIn(vals[1..])
  }

  function FirstEncodeErrorInValues(entries: seq<NuEntry>): Option<Error>
    decreases entries, 0
  {
    if |entries| == 0 then None
    else if FirstEncodeError(entries[0].value).Some? then FirstEncodeError(entries[0].value)
    else FirstEncodeErrorInValues(entries[1..])
  }

  /** Every record in the value, lazy ones included, has pairwise distinct columns. */
  predicate NuWellFormed(v: NuValue) {
    match v
    case List(vals) => forall i | 0 <= i < |vals| :: NuWellFormed(vals[i])
    case Record(entries) =>
      && UniqueKeys(Columns(entries))
      && forall i | 0 <= i < |entries| :: NuWellFormed(entries[i].value)
    case LazyRecord(Ok(record)) => NuWellFormed(record)
    case _ => true
  }

  /**
   * What a value looks like after a trip through a plist: a file size becomes a
   * plain integer, a timestamp is shown at UTC, and a lazy record is
   * materialized.
   */
  function Canonical(v: NuValue): NuValue
    decreases v, 1
  {
    match v
    case Filesize(size) => Int(size)
    case Date(t) => NuValue.Date(DateTime(t.instant, 0))
    case List(vals) => List(CanonicalIn(vals))
    case Record(entries) => Record(CanonicalInValues(entries))
    case LazyRecord(Ok(Record(entries))) => Record(CanonicalInValues(entries))
    case _ => v
  }

  function CanonicalIn(vals: seq<NuValue>): (r: seq<NuValue>)
    ensures |r| == |vals|
    ensures forall i | 0 <= i < |vals| :: r[i] == Canonical(vals[i])
    decreases vals, 0
  {
    if |vals| == 0 then []
    else [Canonical(vals[0])] + CanonicalIn(vals[1..])
  }

  function CanonicalInValues(entries: seq<NuEntry>): (r: seq<NuEntry>)
    ensures Columns(r) == Columns(entries)
    ensures forall i | 0 <= i < |entries| :: r[i].value == Canonical(entries[i].value)
    decreases entries, 0
  {
    if |entries| == 0 then []
    else
      var tail := CanonicalInValues(entries[1..]);
      assert Columns(entries) == [entries[0].key] + Columns(entries[1..]);
      [NuEntry(entries[0].key, Canonical(entries[0].value))] + tail
  }

  // ---------------------------------------------------------------------
  // Decoder: what it rejects
  // ---------------------------------------------------------------------

  /** Decoding succeeds exactly when no integer in the tree is too wide for an `i64`. */
  lemma {:induction false} DecodeOkIffNoWideInteger(p: PlistValue)
    ensures ConvertPlistValue(p).Ok? <==> !HasWideInteger(p)
  {
    match p
    case Array(items) =>
      forall i | 0 <= i < |items|
        ensures ConvertPlistValue(items[i]).Ok? <==> !HasWideInteger(items[i])
      {
        DecodeOkIffNoWideInteger(items[i]);
      }
    case Dictionary(entries) =>
      forall i | 0 <= i < |entries|
        ensures ConvertPlistValue(entries[i].value).Ok? <==> !HasWideInteger(entries[i].value)
      {
        DecodeOkIffNoWideInteger(entries[i].value);
      }
    case _ =>
  }

  /** A failed decoding reports the first too-wide integer of the document, and nothing else. */
  lemma {:induction false} DecodeFailsAtFirstWideInteger(p: PlistValue)
    ensures ConvertPlistValue(p).Err? <==> FirstWideInteger(p).Some?
    ensures FirstWideInteger(p).Some? ==>
              ConvertPlistValue(p).error == IntegerOutOfRange(FirstWideInteger(p).value)
    decreases p, 1
  {
    match p
    case Array(items) => DecodeArrayFailsAtFirstWideInteger(items);
    case Dictionary(entries) => DecodeValuesFailAtFirstWideInteger(entries);
    case _ =>
  }

  lemma {:induction false} DecodeArrayFailsAtFirstWideInteger(items: seq<PlistValue>)
    ensures ConvertArray(items).Err? <==> FirstWideIntegerIn(items).Some?
    ensures FirstWideIntegerIn(items).Some? ==>
              ConvertArray(items).error == IntegerOutOfRange(FirstWideIntegerIn(items).value)
    decreases items, 0
  {
    if |items| > 0 {
      DecodeFailsAtFirstWideInteger(items[0]);
      DecodeArrayFailsAtFirstWideInteger(items[1..]);
    }
  }

  lemma {:induction false} DecodeValuesFailAtFirstWideInteger(entries: seq<PlistEntry>)
    ensures ConvertValues(entries).Err? <==> FirstWideIntegerInValues(entries).Some?
    ensures FirstWideIntegerInValues(entries).Some? ==>
              ConvertValues(entries).error == IntegerOutOfRange(FirstWideIntegerInValues(entries).value)
    decreases entries, 0
  {
    if |entries| > 0 {
      DecodeFailsAtFirstWideInteger(entries[0].value);
      DecodeValuesFailAtFirstWideInteger(entries[1..]);
    }
  }

  // ---------------------------------------------------------------------
  // Encoder: what it rejects
  // ---------------------------------------------------------------------

  /** Encoding succeeds exactly on the values that have a plist counterpart all the way down. */
  lemma {:induction false} EncodeOkIffEncodable(v: NuValue)
    ensures ConvertNuValue(v).Ok? <==> Encodable(v)
  {
    match v
    case List(vals) =>
      forall i | 0 <= i < |vals| ensures ConvertNuValue(vals[i]).Ok? <==> Encodable(vals[i]) {
        EncodeOkIffEncodable(vals[i]);
      }
    case Record(entries) =>
      forall i | 0 <= i < |entries|
        ensures ConvertNuValue(entries[i].value).Ok? <==> Encodable(entries[i].value)
      {
        EncodeOkIffEncodable(entries[i].value);
      }
    case LazyRecord(collected) =>
      if collected.Ok? && collected.value.Record? {
        EncodeOkIffEncodable(collected.value);
      }
    case _ =>
  }

  /** A failed encoding reports the first failure met in document order. */
  lemma {:induction false} EncodeFailsAtFirstError(v: NuValue)
    ensures ConvertNuValue(v).Err? <==> FirstEncodeError(v).Some?
    ensures FirstEncodeError(v).Some? ==> ConvertNuValue(v).error == FirstEncodeError(v).value
    decreases v, 1
  {
    match v
    case List(vals) => EncodeListFailsAtFirstError(vals);
    case Record(entries) => EncodeEntriesFailAtFirstError(entries);
    case LazyRecord(Ok(Record(entries))) => EncodeEntriesFailAtFirstError(entries);
    case _ =>
  }

  lemma {:induction false} EncodeListFailsAtFirstError(vals: seq<NuValue>)
    ensures ConvertNuList(vals).Err? <==> FirstEncodeErrorIn(vals).Some?
    ensures FirstEncodeErrorIn(vals).Some? ==> ConvertNuList(vals).error == FirstEncodeErrorIn(vals).value
    decreases vals, 0
  {
    if |vals| > 0 {
      EncodeFailsAtFirstError(vals[0]);
      EncodeListFailsAtFirstError(vals[1..]);
    }
  }

  lemma {:induction false} EncodeEntriesFailAtFirstError(entries: seq<NuEntry>)
    ensures ConvertNuEntries(entries).Err? <==> FirstEncodeErrorInValues(entries).Some?
    ensures FirstEncodeErrorInValues(entries).Some? ==>
              ConvertNuEntries(entries).error == FirstEncodeErrorInValues(entries).value
    decreases entries, 0
  {
    if |entries| > 0 {
      EncodeFailsAtFirstError(entries[0].value);
      EncodeEntriesFailAtFirstError(entries[1..]);
    }
  }

  // ---------------------------------------------------------------------
  // Containers: length, order and keys
  // ---------------------------------------------------------------------

  /** An array decodes to a list of the same length whose i-th value is the decoding of the i-th item. */
  lemma DecodeArrayKeepsOrder(items: seq<PlistValue>)
    ensures ConvertPlistValue(Array(items)).Ok? <==> forall i | 0 <= i < |items| :: ConvertPlistValue(items[i]).Ok?
    ensures ConvertPlistValue(Array(items)).Ok? ==>
              && ConvertPlistValue(Array(items)).value.List?
              && |ConvertPlistValue(Array(items)).value.vals| == |items|
              && forall i | 0 <= i < |items| ::
                   ConvertPlistValue(items[i]) == Ok(ConvertPlistValue(Array(items)).value.vals[i])
  {
    assert ConvertPlistValue(Array(items)).Ok? ==> ConvertPlistValue(Array(items)) == Ok(List(ConvertArray(items).value));
  }

  /** A list encodes to an array of the same length whose i-th item is the encoding of the i-th value. */
  lemma EncodeListKeepsOrder(vals: seq<NuValue>)
    ensures ConvertNuValue(List(vals)).Ok? <==> forall i | 0 <= i < |vals| :: ConvertNuValue(vals[i]).Ok?
    ensures ConvertNuValue(List(vals)).Ok? ==>
              && ConvertNuValue(List(vals)).value.Array?
              && |ConvertNuValue(List(vals)).value.items| == |vals|
              && forall i | 0 <= i < |vals| ::
                   ConvertNuValue(vals[i]) == Ok(ConvertNuValue(List(vals)).value.items[i])
  {
    assert ConvertNuValue(List(vals)).Ok? ==> ConvertNuValue(List(vals)) == Ok(Array(ConvertNuList(vals).value));
  }

  /**
   * A record with distinct columns encodes to a dictionary with those keys in
   * column order, the i-th holding the encoding of the i-th value.
   */
  lemma EncodeRecordKeepsOrder(record: seq<NuEntry>)
    requires UniqueKeys(Columns(record)) && ConvertNuDict(record).Ok?
    ensures Keys(ConvertNuDict(record).value.entries) == Columns(record)
    ensures forall i | 0 <= i < |record| ::
              ConvertNuValue(record[i].value) == Ok(ConvertNuDict(record).value.entries[i].value)
  {
    var pairs := ConvertNuEntries(record).value;
    assert Keys(pairs) == Columns(record);
    FromPairsUnique(pairs);
  }

  // ---------------------------------------------------------------------
  // Round trips
  // ---------------------------------------------------------------------

  /** A dictionary whose values decode one by one to the given entries' values decodes to that record. */
  lemma DictionaryDecodesTo(dict: seq<PlistEntry>, record: seq<NuEntry>)
    requires Keys(dict) == Columns(record)
    requires forall i | 0 <= i < |dict| :: ConvertPlistValue(dict[i].value) == Ok(record[i].value)
    ensures ConvertDict(dict) == Ok(Record(record))
  {
    var r := ConvertDict(dict).value.entries;
    forall i | 0 <= i < |dict| ensures r[i] == record[i] {
      assert Columns(r)[i] == Columns(record)[i];
    }
    assert r == record;
  }

  /** An array whose items decode one by one to the given values decodes to those values. */
  lemma ArrayDecodesTo(arr: seq<PlistValue>, vals: seq<NuValue>)
    requires |arr| == |vals|
    requires forall i | 0 <= i < |arr| :: ConvertPlistValue(arr[i]) == Ok(vals[i])
    ensures ConvertArray(arr) == Ok(vals)
  {
    assert ConvertArray(arr).value == vals;
  }

  /** A record whose values encode one by one to the given entries' values encodes to those entries. */
  lemma EntriesEncodeTo(record: seq<NuEntry>, dict: seq<PlistEntry>)
    requires Columns(record) == Keys(dict)
    requires forall i | 0 <= i < |record| :: ConvertNuValue(record[i].value) == Ok(dict[i].value)
    ensures ConvertNuEntries(record) == Ok(dict)
  {
    KeysAgree(record, dict);
    assert ConvertNuEntries(record).value == dict;
  }

  /** A record and a dictionary with the same keys in order agree key by key. */
  lemma KeysAgree(record: seq<NuEntry>, dict: seq<PlistEntry>)
    requires Columns(record) == Keys(dict)
    ensures |record| == |dict| && forall i | 0 <= i < |record| :: record[i].key == dict[i].key
  {
    forall i | 0 <= i < |record| ensures record[i].key == dict[i].key {
      assert Columns(record)[i] == Keys(dict)[i];
    }
  }

  /** A record with unique columns whose values encode one by one to the given values encodes to that dictionary. */
  lemma RecordEncodesTo(record: seq<NuEntry>, dict: seq<PlistEntry>)
    requires Columns(record) == Keys(dict) && UniqueKeys(Keys(dict))
    requires forall i | 0 <= i < |record| :: ConvertNuValue(record[i].value) == Ok(dict[i].value)
    ensures ConvertNuDict(record) == Ok(Dictionary(dict))
  {
    EntriesEncodeTo(record, dict);
    FromPairsUnique(dict);
  }

  /** When some value of a record fails to encode, and every failing one fails with `e`, the record fails with `e`. */
  lemma RecordEncodeFailsWith(record: seq<NuEntry>, e: Error)
    requires exists i | 0 <= i < |record| :: ConvertNuValue(record[i].value).Err?
    requires forall i | 0 <= i < |record| :: ConvertNuValue(record[i].value).Err? ==> ConvertNuValue(record[i].value).error == e
    ensures ConvertNuDict(record) == Err(e)
  {
  }

  /**
   * Decoding a well-formed plist and encoding the result gives the plist back,
   * except that UIDs come back as reals; a tree with a reserved value cannot
   * make the trip, since that value decodes to Nothing.
   */
  lemma {:induction false} DecodeThenEncode(p: PlistValue)
    requires WellFormed(p) && ConvertPlistValue(p).Ok?
    ensures ConvertNuValue(ConvertPlistValue(p).value)
            == if ContainsReserved(p) then Err(NotConvertible(Nothing)) else Ok(WithUidsAsReals(p))
    decreases p, 1
  {
    match p
    case Array(items) => DecodeThenEncodeArrayValue(items);
    case Dictionary(entries) => DecodeThenEncodeDictionaryValue(entries);
    case _ => DecodeThenEncodeLeaf(p);
  }

  lemma {:induction false} DecodeThenEncodeArrayValue(items: seq<PlistValue>)
    requires WellFormed(Array(items)) && ConvertPlistValue(Array(items)).Ok?
    ensures ConvertNuValue(ConvertPlistValue(Array(items)).value)
            == if ContainsReserved(Array(items)) then Err(NotConvertible(Nothing))
               else Ok(WithUidsAsReals(Array(items)))
    decreases items, 1
  {
    var vals := ConvertArray(items).value;
    assert ConvertPlistValue(Array(items)) == Ok(NuValue.List(vals));
    DecodeThenEncodeArray(items);
  }

  lemma {:induction false} DecodeThenEncodeDictionaryValue(entries: seq<PlistEntry>)
    requires WellFormed(Dictionary(entries)) && ConvertPlistValue(Dictionary(entries)).Ok?
    ensures ConvertNuValue(ConvertPlistValue(Dictionary(entries)).value)
            == if ContainsReserved(Dictionary(entries)) then Err(NotConvertible(Nothing))
               else Ok(WithUidsAsReals(Dictionary(entries)))
    decreases entries, 1
  {
    var record := DecodedDictionary(entries);
    DecodeThenEncodeDictionary(entries, record);
    EncodeRecord(record);
  }

  /** A record encodes as its entries do. */
  lemma EncodeRecord(record: seq<NuEntry>)
    ensures ConvertNuValue(NuValue.Record(record)) == ConvertNuDict(record)
  {
  }

  /** The record a dictionary decodes to, with its columns and values. */
  lemma DecodedDictionary(entries: seq<PlistEntry>) returns (record: seq<NuEntry>)
    requires ConvertPlistValue(Dictionary(entries)).Ok?
    ensures ConvertPlistValue(Dictionary(entries)) == Ok(NuValue.Record(record))
    ensures Keys(entries) == Columns(record)
    ensures forall i | 0 <= i < |entries| :: ConvertPlistValue(entries[i].value) == Ok(record[i].value)
  {
    assert ConvertPlistValue(Dictionary(entries)) == ConvertDict(entries);
    record := ConvertDict(entries).value.entries;
  }

  lemma DecodeThenEncodeLeaf(p: PlistValue)
    requires !p.Array? && !p.Dictionary? && ConvertPlistValue(p).Ok?
    ensures ConvertNuValue(ConvertPlistValue(p).value)
            == if p.Reserved? then Err(NotConvertible(Nothing)) else Ok(WithUidsAsReals(p))
  {
  }

  lemma {:induction false} DecodeThenEncodeArray(items: seq<PlistValue>)
    requires forall i | 0 <= i < |items| :: WellFormed(items[i])
    requires ConvertArray(items).Ok?
    ensures ConvertNuList(ConvertArray(items).value)
            == if exists i | 0 <= i < |items| :: ContainsReserved(items[i]) then Err(NotConvertible(Nothing))
               else Ok(WithUidsAsRealsIn(items))
    decreases items, 0
  {
    var vals := ConvertArray(items).value;
    forall i | 0 <= i < |items|
      ensures ConvertNuValue(vals[i])
              == if ContainsReserved(items[i]) then Err(NotConvertible(Nothing))
                 else Ok(WithUidsAsReals(items[i]))
    {
      DecodeThenEncode(items[i]);
    }
    var r := ConvertNuList(vals);
    if !exists i | 0 <= i < |items| :: ContainsReserved(items[i]) {
      assert r.value == WithUidsAsRealsIn(items);
    }
  }

  lemma {:induction false} DecodeThenEncodeDictionary(entries: seq<PlistEntry>, record: seq<NuEntry>)
    requires UniqueKeys(Keys(entries))
    requires forall i | 0 <= i < |entries| :: WellFormed(entries[i].value)
    requires Keys(entries) == Columns(record)
    requires forall i | 0 <= i < |entries| :: ConvertPlistValue(entries[i].value) == Ok(record[i].value)
    ensures ConvertNuDict(record)
            == if exists i | 0 <= i < |entries| :: ContainsReserved(entries[i].value)
               then Err(NotConvertible(Nothing))
               else Ok(Dictionary(WithUidsAsRealsInValues(entries)))
    decreases entries, 0
  {
    forall i | 0 <= i < |entries|
      ensures ConvertNuValue(record[i].value)
              == if ContainsReserved(entries[i].value) then Err(NotConvertible(Nothing))
                 else Ok(WithUidsAsReals(entries[i].value))
    {
      DecodeThenEncode(entries[i].value);
    }
    if exists i | 0 <= i < |entries| :: ContainsReserved(entries[i].value) {
      RecordEncodeFailsWith(record, NotConvertible(Nothing));
    } else {
      RecordEncodesTo(record, WithUidsAsRealsInValues(entries));
    }
  }

  /**
   * Encoding a value with a plist counterpart and decoding the result gives the
   * value back in canonical form: file sizes as integers, timestamps at UTC,
   * lazy records materialized.
   */
  lemma {:induction false} EncodeThenDecode(v: NuValue)
    requires Encodable(v) && NuWellFormed(v)
    ensures ConvertNuValue(v).Ok?
    ensures ConvertPlistValue(ConvertNuValue(v).value) == Ok(Canonical(v))
    decreases v, 1
  {
    match v
    case List(vals) =>
      forall i | 0 <= i < |vals|
        ensures ConvertNuValue(vals[i]).Ok?
        ensures ConvertPlistValue(ConvertNuValue(vals[i]).value) == Ok(Canonical(vals[i]))
      {
        EncodeThenDecode(vals[i]);
      }
      var items := ConvertNuList(vals).value;
      assert ConvertArray(items).value == CanonicalIn(vals);
    case Record(entries) => EncodeThenDecodeRecord(entries);
    case LazyRecord(Ok(Record(entries))) => EncodeThenDecodeRecord(entries);
    case _ =>
  }

  lemma {:induction false} EncodeThenDecodeRecord(entries: seq<NuEntry>)
    requires UniqueKeys(Columns(entries))
    requires forall i | 0 <= i < |entries| :: Encodable(entries[i].value) && NuWellFormed(entries[i].value)
    ensures ConvertNuDict(entries).Ok?
    ensures ConvertPlistValue(ConvertNuDict(entries).value) == Ok(Record(CanonicalInValues(entries)))
    decreases entries, 0
  {
    forall i | 0 <= i < |entries|
      ensures ConvertNuValue(entries[i].value).Ok?
      ensures ConvertPlistValue(ConvertNuValue(entries[i].value).value) == Ok(Canonical(entries[i].value))
    {
      EncodeThenDecode(entries[i].value);
    }
    EncodeRecordKeepsOrder(entries);
    var dict := ConvertNuDict(entries).value.entries;
    forall i | 0 <= i < |entries| ensures ConvertPlistValue(dict[i].value) == Ok(Canonical(entries[i].value)) {
      assert ConvertNuValue(entries[i].value) == Ok(dict[i].value);
    }
    CanonicalDictionaryDecodes(entries, dict);
  }

  /** A dictionary keyed by a record's columns whose values decode to the canonical values decodes to the canonical record. */
  lemma CanonicalDictionaryDecodes(entries: seq<NuEntry>, dict: seq<PlistEntry>)
    requires Keys(dict) == Columns(entries)
    requires forall i | 0 <= i < |entries| :: ConvertPlistValue(dict[i].value) == Ok(Canonical(entries[i].value))
    ensures ConvertPlistValue(Dictionary(dict)) == Ok(Record(CanonicalInValues(entries)))
  {
    var canonical := CanonicalInValues(entries);
    DictionaryDecodesTo(dict, canonical);
  }

  // ---------------------------------------------------------------------
  // Records with a repeated column
  // ---------------------------------------------------------------------

  /**
   * A record with a repeated column encodes to a dictionary in which that key
   * holds the encoding of the column's last value.
   */
  lemma EncodeRecordLastValueWins(record: seq<NuEntry>, k: string)
    requires ConvertNuDict(record).Ok? && k in Columns(record)
    ensures ConvertNuValue(record[LastIndexOf(Columns(record), k)].value).Ok?
    ensures Lookup(ConvertNuDict(record).value.entries, k)
            == Some(ConvertNuValue(record[LastIndexOf(Columns(record), k)].value).value)
  {
    var pairs := ConvertNuEntries(record).value;
    assert Keys(pairs) == Columns(record);
    FromPairsLastWins(pairs, k);
  }

  // ---------------------------------------------------------------------
  // Single values
  // ---------------------------------------------------------------------

  /**
   * A UID decodes to its conversion to a float, which is exactly the UID below
   * 2^53 (how close it is above that is `FromU64Accuracy`).
   */
  lemma DecodeUid(u: U64)
    ensures ConvertPlistValue(Uid(u)) == Ok(Float(FromU64(u)))
    ensures u < Pow2(53) ==> Denotes(FromU64(u), u)
  {
    if u < Pow2(53) {
      FromU64Exact(u);
    }
  }

  /** An integer decodes exactly when it fits in an `i64`, and then to itself. */
  lemma DecodeInteger(i: PlistInt)
    ensures ConvertPlistValue(Integer(i)).Ok? <==> I64_MIN <= i <= I64_MAX
    ensures ConvertPlistValue(Integer(i)).Ok? ==> ConvertPlistValue(Integer(i)).value == Int(i)
    ensures ConvertPlistValue(Integer(i)).Err? ==> ConvertPlistValue(Integer(i)).error == IntegerOutOfRange(i)
  {
  }

  /**
   * An integer and a file size both encode to a plist integer, and both come
   * back as an integer; a timestamp comes back at UTC with its instant intact.
   */
  lemma ScalarRoundTrips(i: I64, t: DateTime)
    ensures ConvertNuValue(Int(i)) == Ok(Integer(i))
    ensures ConvertNuValue(Filesize(i)) == Ok(Integer(i))
    ensures ConvertPlistValue(ConvertNuValue(Int(i)).value) == Ok(Int(i))
    ensures ConvertPlistValue(ConvertNuValue(Filesize(i)).value) == Ok(Int(i))
    ensures ConvertNuValue(NuValue.Date(t)) == Ok(PlistValue.Date(t.instant))
    ensures ConvertPlistValue(ConvertNuValue(NuValue.Date(t)).value)
            == Ok(NuValue.Date(DateTime(t.instant, 0)))
  {
  }

  /**
   * A timestamp encodes to the plist date of its instant, whatever its offset:
   * two timestamps encode alike exactly when they denote the same instant.
   */
  lemma EncodeDate(t: DateTime, u: DateTime)
    ensures ConvertNuValue(NuValue.Date(t)) == Ok(PlistValue.Date(t.instant))
    ensures ConvertNuValue(NuValue.Date(t)) == ConvertNuValue(NuValue.Date(u)) <==> t.instant == u.instant
  {
  }

  /** Strings, booleans and byte strings come back unchanged from a decoding followed by an encoding. */
  lemma LeafRoundTrips(s: string, b: bool, bytes: seq<Byte>)
    ensures ConvertNuValue(ConvertPlistValue(PlistValue.String(s)).value) == Ok(PlistValue.String(s))
    ensures ConvertNuValue(ConvertPlistValue(Boolean(b)).value) == Ok(Boolean(b))
    ensures ConvertNuValue(ConvertPlistValue(Data(bytes)).value) == Ok(Data(bytes))
  {
  }

  /** A reserved plist value decodes to Nothing, which cannot be encoded back. */
  lemma ReservedDoesNotRoundTrip()
    ensures ConvertPlistValue(Reserved) == Ok(Nothing)
    ensures ConvertNuValue(ConvertPlistValue(Reserved).value) == Err(NotConvertible(Nothing))
  {
  }

  // ---------------------------------------------------------------------
  // The examples of the source's unit tests
  // ---------------------------------------------------------------------

  lemma LeafExamples(x: F64)
    ensures ConvertPlistValue(PlistValue.String("hello")) == Ok(NuValue.String("hello"))
    ensures ConvertPlistValue(Boolean(true)) == Ok(Bool(true))
    ensures ConvertPlistValue(Real(x)) == Ok(Float(x))
    ensures ConvertPlistValue(Integer(42)) == Ok(Int(42))
    ensures ConvertPlistValue(Data([0x41, 0x42, 0x43])) == Ok(Binary([0x41, 0x42, 0x43]))
  {
  }

  lemma DictionaryExample()
    ensures ConvertDict([PlistEntry("a", PlistValue.String("c")), PlistEntry("b", PlistValue.String("d"))])
            == Ok(Record([NuEntry("a", NuValue.String("c")), NuEntry("b", NuValue.String("d"))]))
  {
    var dict := [PlistEntry("a", PlistValue.String("c")), PlistEntry("b", PlistValue.String("d"))];
    var record := [NuEntry("a", NuValue.String("c")), NuEntry("b", NuValue.String("d"))];
    assert Keys(dict) == Columns(record) == ["a", "b"];
    DictionaryDecodesTo(dict, record);
  }

  lemma ArrayExample()
    ensures ConvertArray([PlistValue.String("a"), PlistValue.String("b")])
            == Ok([NuValue.String("a"), NuValue.String("b")])
  {
    ArrayDecodesTo([PlistValue.String("a"), PlistValue.String("b")], [NuValue.String("a"), NuValue.String("b")]);
  }
}
