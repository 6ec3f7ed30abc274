# nu_plist transcoder, modelled in Dafny

The nu_plugin_plist plugin lets the Nushell shell read and write Apple
property lists. Its core is a transcoder between two tree-shaped value
models.

- **Decoder:** `convert_plist_value`, with its helpers `convert_dict` and
  `convert_array`, turns a plist value into a shell value. Its only failure is
  an integer that does not fit in an `i64`.
- **Encoder:** `convert_nu_value`, with its helper `convert_nu_dict`, turns a
  shell value into a plist value. It fails on `Nothing` and on every shell
  variant without a plist counterpart.
- **Date helper:** `convert_date` attaches a zero UTC offset to a plist
  instant.
- **Containers:** both directions convert containers element by element, in
  order. They stop at the first element that fails, so no partial container is
  ever returned.

The files:

- `results.dfy` (module `Results`): `Option`, and `Result` with the
  failure-propagation operator.
- `numbers.dfy` (module `Numbers`): the `i64`/`u64`/`u8` ranges, powers of two
  and the highest set bit.
- `float64.dfy` (module `Float64`): IEEE 754 binary64 numbers as bit patterns,
  and Rust's `u as f64` conversion for a `u64`.
- `plist_value.dfy` (module `Plist`): the plist value tree.
  - A dictionary is an insertion-ordered sequence of entries.
  - `Insert` and `FromPairs` model collecting key/value pairs into an
    `IndexMap`.
- `nu_value.dfy` (module `Nu`): the shell value tree and the conversion error.
  - It also holds `Record::from_raw_cols_vals` and `Value::as_record` as the
    transcoder uses them.
- `nu_plist.dfy` (module `NuPlist`): the six conversion functions and the
  element-by-element helpers that play the part of `map(..).collect()`.
- `nu_plist_properties.dfy` (module `NuPlistProperties`): reference
  definitions, and the lemmas that relate the two directions to them and to
  each other.

How the model differs from the code:

- **Error contents:** a conversion error is a small datatype with one variant
  per failure site. The message text and the source span of the labelled error
  are not modelled.
- **Host errors:** `Host(code)` stands for an error raised inside the host
  while a lazy record is materialized.
- **Lazy records:** a lazy record is represented by the outcome of its
  materialization. That outcome may be an error, or any value.
- **Date test:** the unit test at `src/nu_plist.rs:231-239` checks the
  calendar date of the epoch. The model states only that `convert_date` keeps
  the instant and sets the offset to zero; the calendar is not modelled.
- **Plist integers** range over both `i64` and `u64`.
- **Shell integers and file sizes** are `i64`.

## Model

| member | source | states |
|---|---|---|
| NuPlist.ConvertPlistValue | src/nu_plist.rs:88-106 | Decoding one plist value can fail only with an integer-out-of-range error, for an integer above `i64::MAX`. |
| NuPlist.ConvertDict | src/nu_plist.rs:108-118 | Decoding a dictionary succeeds exactly when all its values decode. The result is a record whose columns are the dictionary's keys in order, and whose i-th value is the decoding of the i-th entry's value. A failure carries the error of the first value that fails. The column/value count check of `from_raw_cols_vals` never fails here. |
| NuPlist.ConvertValues | src/nu_plist.rs:110-113 | The values of a dictionary decode, in order, to a sequence of the same length exactly when each value decodes. A failure is that of the first failing value. |
| NuPlist.ConvertArray | src/nu_plist.rs:120-125 | Array items decode to a sequence of the same length, the i-th being the decoding of the i-th item, exactly when each item decodes. A failure is that of the first failing item. |
| NuPlist.ConvertDate | src/nu_plist.rs:127-134 | A plist date becomes a timestamp with the same instant and a zero UTC offset. |
| NuPlist.ConvertNuValue | src/nu_plist.rs:136-164 | `Nothing` and every variant without a plist counterpart fail with a not-convertible error naming the value. A list encodes to an array of the same length. |
| NuPlist.ConvertNuList | src/nu_plist.rs:145-149 | A list encodes, in order and element by element, exactly when each element encodes. A failure carries the first element's error. |
| NuPlist.ConvertNuDict | src/nu_plist.rs:166-173 | A record encodes exactly when every value encodes. The result is a dictionary with unique keys, and its key set is the record's column set. A failure carries the first failing value's error. |
| NuPlist.ConvertNuEntries | src/nu_plist.rs:168-171 | Each value of a record is encoded and paired with its column, in order, as long as every value encodes. A failure is the first failing value's error. |
| Nu.FromRawColsVals | src/nu_plist.rs:114-115 | Columns are paired with values by position. This fails, with both counts, exactly when the counts differ. |
| Nu.AsRecord | src/nu_plist.rs:153-155 | A materialized lazy value yields its entries exactly when it is a record. Anything else fails with a not-a-record error naming the value. |
| Plist.IndexOfKey | src/nu_plist.rs:170-171 | Finds the first entry holding a key, and finds none exactly when the key is absent. |
| Plist.Lookup | src/nu_plist.rs:170-171 | A key has a value in a dictionary exactly when it is one of its keys. |
| Plist.Insert | src/nu_plist.rs:170-171 | Inserting a present key keeps the key order; inserting a new key appends it. The key set gains exactly the inserted key. |
| Plist.InsertLookup | src/nu_plist.rs:170-171 | After an insertion, the inserted key holds the new value and every other key keeps its old one. |
| Plist.FromPairs | src/nu_plist.rs:167-171 | Collecting pairs gives a dictionary with unique keys, exactly the keys of the pairs. |
| Plist.FromPairsUnique | src/nu_plist.rs:167-171 | Pairs whose keys are already distinct are collected unchanged and in order. |
| Plist.FromPairsLastWins | src/nu_plist.rs:167-171 | When a key repeats, it ends up holding the value of its last pair. |
| Float64.FromU64 | src/nu_plist.rs:100 | `u as f64` gives a finite, non-negative binary64 number. |
| Float64.FromU64Exact | src/nu_plist.rs:100 | Below 2^53 the conversion is exact. |
| Float64.FromU64Nearest | src/nu_plist.rs:100 | From 2^53 on, the conversion is an integer within half a unit in the last place of the input. |
| Float64.FromU64Accuracy | src/nu_plist.rs:100 | Both accuracy cases combined, for every `u64`. |
| NuPlistProperties.FirstWideInteger | src/nu_plist.rs:94-97 | The first integer in document order that does not fit in an `i64` lies above `i64::MAX`. |
| NuPlistProperties.DecodeOkIffNoWideInteger | src/nu_plist.rs:88-125 | Decoding a whole tree succeeds exactly when no integer anywhere in it falls outside the `i64` range. |
| NuPlistProperties.DecodeFailsAtFirstWideInteger | src/nu_plist.rs:88-125 | A failed decoding reports exactly the first too-wide integer in document order. Decoding fails exactly when such an integer exists. |
| NuPlistProperties.DecodeArrayFailsAtFirstWideInteger | src/nu_plist.rs:120-125 | The same as DecodeFailsAtFirstWideInteger, for the items of an array. |
| NuPlistProperties.DecodeValuesFailAtFirstWideInteger | src/nu_plist.rs:108-118 | The same as DecodeFailsAtFirstWideInteger, for the values of a dictionary. |
| NuPlistProperties.EncodeOkIffEncodable | src/nu_plist.rs:136-173 | Encoding succeeds exactly on a value with a plist counterpart all the way down: no `Nothing`, no other variant, and every lazy record materializing to a record. |
| NuPlistProperties.EncodeFailsAtFirstError | src/nu_plist.rs:136-173 | A failed encoding reports exactly the first failure met in document order. |
| NuPlistProperties.EncodeListFailsAtFirstError | src/nu_plist.rs:145-149 | The same as EncodeFailsAtFirstError, for the elements of a list. |
| NuPlistProperties.EncodeEntriesFailAtFirstError | src/nu_plist.rs:166-173 | The same as EncodeFailsAtFirstError, for the values of a record. |
| NuPlistProperties.DecodeArrayKeepsOrder | src/nu_plist.rs:102 | An array decodes, when it decodes at all, to a list of the same length that keeps element order. It decodes exactly when every item does. |
| NuPlistProperties.EncodeListKeepsOrder | src/nu_plist.rs:145-149 | A list encodes, when it encodes at all, to an array of the same length that keeps element order. It encodes exactly when every element does. |
| NuPlistProperties.EncodeRecordKeepsOrder | src/nu_plist.rs:166-173 | A record with distinct columns encodes to a dictionary whose keys are those columns in order. Its i-th value is the encoding of the i-th record value. |
| NuPlistProperties.EncodeRecordLastValueWins | src/nu_plist.rs:166-173 | In the dictionary encoded from a record with a repeated column, that key holds the encoding of the column's last value. |
| NuPlistProperties.DictionaryDecodesTo | src/nu_plist.rs:108-118 | A dictionary whose values decode one by one to a record's values, with matching keys and columns, decodes to that record. |
| NuPlistProperties.ArrayDecodesTo | src/nu_plist.rs:120-125 | An array whose items decode one by one to given values decodes to those values. |
| NuPlistProperties.EntriesEncodeTo | src/nu_plist.rs:168-171 | A record whose values encode one by one to given entries' values encodes to those entries. |
| NuPlistProperties.RecordEncodesTo | src/nu_plist.rs:166-173 | A record with distinct columns whose values encode one by one to a dictionary's values encodes to that dictionary. |
| NuPlistProperties.RecordEncodeFailsWith | src/nu_plist.rs:166-173 | A record in which some value fails, and every failing value fails with the same error, fails with that error. |
| NuPlistProperties.DecodeThenEncode | src/nu_plist.rs:88-173 | Take a well-formed plist that decodes. It encodes back to itself with every UID turned into a real, unless it holds a reserved value. That value decodes to `Nothing`, so the trip then fails on `Nothing`. |
| NuPlistProperties.DecodeThenEncodeLeaf | src/nu_plist.rs:88-106 | DecodeThenEncode for a single non-container value. |
| NuPlistProperties.DecodeThenEncodeArray | src/nu_plist.rs:102 | DecodeThenEncode for the items of an array. |
| NuPlistProperties.DecodeThenEncodeDictionary | src/nu_plist.rs:103 | DecodeThenEncode for the entries of a dictionary with distinct keys. |
| NuPlistProperties.EncodeThenDecode | src/nu_plist.rs:88-173 | A value with a plist counterpart whose records have distinct columns encodes, and decodes back to its canonical form. In that form a file size is an integer, a timestamp is at UTC and a lazy record is materialized. |
| NuPlistProperties.EncodeThenDecodeRecord | src/nu_plist.rs:166-173 | EncodeThenDecode for a record. |
| NuPlistProperties.CanonicalDictionaryDecodes | src/nu_plist.rs:108-118 | A dictionary keyed by a record's columns, whose values decode to the canonical forms of the record's values, decodes to the canonical record. |
| NuPlistProperties.DecodeUid | src/nu_plist.rs:100 | A UID decodes to the float `u as f64`, which is exactly the UID below 2^53. This covers the test at lines 214-220, since 12345678 is below 2^53. How close the float is above 2^53 is Float64.FromU64Accuracy. |
| NuPlistProperties.DecodeInteger | src/nu_plist.rs:94-98 | A plist integer decodes exactly when it fits in an `i64`, and then to the same number. Otherwise it fails with an error naming it. |
| NuPlistProperties.ScalarRoundTrips | src/nu_plist.rs:142 | Two round trips hold. An `Int` and a file size both encode to a plist integer of the same value and decode back to that `Int`. A timestamp encodes to the plist date of its instant, and comes back at UTC with the same instant. |
| NuPlistProperties.EncodeDate | src/nu_plist.rs:150 | A timestamp encodes to the plist date of its instant, so the offset is dropped. Two timestamps encode alike exactly when they denote the same instant. |
| NuPlistProperties.LeafRoundTrips | src/nu_plist.rs:90-101 | Strings, booleans and byte strings come back unchanged from a decoding followed by an encoding. |
| NuPlistProperties.ReservedDoesNotRoundTrip | src/nu_plist.rs:104 | A plist variant with no arm decodes to `Nothing`, which then fails to encode. |
| NuPlistProperties.LeafExamples | src/nu_plist.rs:182-228 | The unit tests' leaves decode as the tests expect: `"hello"`, `true`, a real, `42` and the bytes `ABC`. |
| NuPlistProperties.DictionaryExample | src/nu_plist.rs:241-263 | The unit test's dictionary `{a: "c", b: "d"}` decodes to the record with columns `[a, b]` and values `["c", "d"]`. |
| NuPlistProperties.ArrayExample | src/nu_plist.rs:265-278 | The unit test's array `["a", "b"]` decodes to the list `["a", "b"]`. |

## Left out

- Plugin plumbing. The `Plugin` implementation (`signature`, `run`), `src/main.rs`, and the calls into the plist parser and writers are registration, transport and I/O. So is the UTF-8 check on XML output.
- `build_label_error` and the spans. Error messages and source spans are formatting only; an error is an abstract value.
- Calendar arithmetic in `convert_date`. The conversions through `SystemTime` and `chrono` are treated as keeping the instant. The date library's panic for an instant it cannot represent is not modelled, and neither is the calendar check of the epoch test.
- Float payloads. Reals and shell floats are bit patterns that are copied. Equality of two floats in the model is therefore bitwise, where Rust's `==` on `f64` is not, for NaN and signed zero.
- Float64.FromU64Nearest: this is weaker than the code, which rounds ties to the even significand. The function implements ties-to-even, but only nearness within half a unit in the last place is proved.
- Lazy record internals. How a lazy record computes its columns is not modelled. The model sees only the outcome of its materialization.
- The payloads of the shell variants that the transcoder never names. These are durations, ranges, blocks, closures, errors, cell paths, custom values and match patterns, and each fails to encode whatever it holds.
- NuPlist.ConvertNuDict: this is weaker than the code on key order when a record repeats a column. The key set and last-value-wins are proved, but the order of the collected keys in that case is only defined, not characterized.
