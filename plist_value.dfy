/**
 * The property-list side of the transcoder: the tree that a plist parser
 * produces and a plist writer consumes.
 */
module Plist {
  import opened Numbers
  import opened Float64
  import opened Results

  /** A plist integer is held as an `i64` or a `u64`, so it ranges over both. */
  type PlistInt = x: int | I64_MIN <= x <= U64_MAX

  /**
   * An absolute instant, counted in nanoseconds from the UNIX epoch. A plist
   * date has no UTC offset; the count itself is never interpreted here.
   */
  datatype Instant = Instant(nanosSinceEpoch: int)

  datatype PlistValue =
    | Array(items: seq<PlistValue>)
    | Dictionary(entries: seq<PlistEntry>)
    | Boolean(b: bool)
    | Data(bytes: seq<Byte>)
    | Date(date: Instant)
    | Real(r: F64)
    | Integer(i: PlistInt)
    | String(s: string)
    | Uid(uid: U64)
      /** The variants the plist value enum keeps hidden behind `#[non_exhaustive]`. */
    | Reserved

  /** A dictionary is an insertion-ordered sequence of key/value entries. */
  datatype PlistEntry = PlistEntry(key: string, value: PlistValue)

  function Keys(entries: seq<PlistEntry>): (keys: seq<string>)
    ensures |keys| == |entries|
    ensures forall i | 0 <= i < |entries| :: keys[i] == entries[i].key
  {
    seq(|entries|, i requires 0 <= i < |entries| => entries[i].key)
  }

  predicate UniqueKeys(keys: seq<string>) {
    forall i, j | 0 <= i < j < |keys| :: keys[i] != keys[j]
  }

  /** The position of the first entry with `key`, if there is one. */
  function IndexOfKey(entries: seq<PlistEntry>, key: string): (r: Option<nat>)
    ensures r.Some? ==> r.value < |entries| && entries[r.value].key == key
    ensures r.Some? ==> forall i | 0 <= i < r.value :: entries[i].key != key
    ensures r.None? <==> key !in Keys(entries)
  {
    if entries == [] then None
    else if entries[0].key == key then Some(0)
    else
      match IndexOfKey(entries[1..], key)
      case None => None
      case Some(j) => Some(j + 1)
  }

  /** An entry with `key` that no earlier entry shares is the one `IndexOfKey` finds. */
  lemma IndexOfKeyFirst(entries: seq<PlistEntry>, key: string, j: nat)
    requires j < |entries| && entries[j].key == key
    requires forall i | 0 <= i < j :: entries[i].key != key
    ensures IndexOfKey(entries, key) == Some(j)
  {
    assert Keys(entries)[j] == key;
    var m := IndexOfKey(entries, key).value;
    assert entries[m].key == key;
    assert !(m < j) && !(j < m);
  }

  /** The value stored under `key`: that of the first entry with the key. */
  function Lookup(entries: seq<PlistEntry>, key: string): (r: Option<PlistValue>)
    ensures r.Some? <==> key in Keys(entries)
  {
    match IndexOfKey(entries, key)
    case None => None
    case Some(j) => Some(entries[j].value)
  }

  /**
   * Inserting into a dictionary (an `IndexMap`): a key already present keeps its
   * position and takes the new value; a new key goes last.
   */
  function Insert(entries: seq<PlistEntry>, key: string, value: PlistValue): (r: seq<PlistEntry>)
    ensures key in Keys(entries) ==> Keys(r) == Keys(entries)
    ensures key !in Keys(entries) ==> r == entries + [PlistEntry(key, value)]
    ensures forall k :: k in Keys(r) <==> k in Keys(entries) || k == key
  {
    match IndexOfKey(entries, key)
    case None =>
      assert Keys(entries + [PlistEntry(key, value)]) == Keys(entries) + [key];
      entries + [PlistEntry(key, value)]
    case Some(j) => entries[j := PlistEntry(key, value)]
  }

  /** After an insertion, the inserted key holds the new value and every other key its old one. */
  lemma InsertLookup(entries: seq<PlistEntry>, key: string, value: PlistValue, k: string)
    ensures Lookup(Insert(entries, key, value), k) == if k == key then Some(value) else Lookup(entries, k)
  {
    var r := Insert(entries, key, value);
    match IndexOfKey(entries, key)
    case None =>
      assert r == entries + [PlistEntry(key, value)];
      if k == key {
        IndexOfKeyFirst(r, k, |entries|);
      } else {
        match IndexOfKey(entries, k)
        case None =>
        case Some(i) => IndexOfKeyFirst(r, k, i);
      }
    case Some(j) =>
      assert r == entries[j := PlistEntry(key, value)];
      match IndexOfKey(entries, k)
      case None =>
        assert Keys(r) == Keys(entries);
      case Some(i) =>
        IndexOfKeyFirst(r, k, i);
  }

  /**
   * A dictionary collected from a sequence of pairs, each inserted in turn: the
   * result has unique keys, and exactly the keys of the pairs.
   */
  function FromPairs(pairs: seq<PlistEntry>): (r: seq<PlistEntry>)
    ensures UniqueKeys(Keys(r))
    ensures forall k :: k in Keys(r) <==> k in Keys(pairs)
  {
    if pairs == [] then []
    else
      var last := pairs[|pairs| - 1];
      var front := pairs[..|pairs| - 1];
      assert Keys(pairs) == Keys(front) + [last.key];
      Insert(FromPairs(front), last.key, last.value)
  }

  /** The position of the last of `keys` equal to `k`. */
  function LastIndexOf(keys: seq<string>, k: string): (i: nat)
    requires k in keys
    ensures i < |keys| && keys[i] == k
    ensures forall j | i < j < |keys| :: keys[j] != k
  {
    if keys[|keys| - 1] == k then |keys| - 1 else LastIndexOf(keys[..|keys| - 1], k)
  }

  /** Collecting one more pair inserts it into the collection of the others. */
  lemma FromPairsSnoc(front: seq<PlistEntry>, last: PlistEntry)
    ensures FromPairs(front + [last]) == Insert(FromPairs(front), last.key, last.value)
  {
    var pairs := front + [last];
    assert pairs[..|pairs| - 1] == front;
  }

  /** Dropping the last of a sequence of unique keys leaves unique keys without that one. */
  lemma UniqueKeysSnoc(front: seq<PlistEntry>, last: PlistEntry)
    requires UniqueKeys(Keys(front + [last]))
    ensures UniqueKeys(Keys(front)) && last.key !in Keys(front)
  {
    var keys := Keys(front + [last]);
    forall i, j | 0 <= i < j < |front| ensures Keys(front)[i] != Keys(front)[j] {
      assert Keys(front)[i] == keys[i] && Keys(front)[j] == keys[j];
    }
    forall i | 0 <= i < |front| ensures Keys(front)[i] != last.key {
      assert Keys(front)[i] == keys[i] && last.key == keys[|front|];
    }
  }

  /** Pairs whose keys are already unique are collected unchanged, in order. */
  lemma {:induction false} FromPairsUnique(pairs: seq<PlistEntry>)
    requires UniqueKeys(Keys(pairs))
    ensures FromPairs(pairs) == pairs
  {
    if pairs != [] {
      var front, last := pairs[..|pairs| - 1], pairs[|pairs| - 1];
      assert pairs == front + [last];
      UniqueKeysSnoc(front, last);
      FromPairsUnique(front);
      FromPairsSnoc(front, last);
    }
  }

  /**
   * In a dictionary collected from pairs, each key holds the value of the last
   * pair with that key (a repeated key keeps its first position but takes the
   * later value).
   */
  lemma {:induction false} FromPairsLastWins(pairs: seq<PlistEntry>, k: string)
    requires k in Keys(pairs)
    ensures Lookup(FromPairs(pairs), k) == Some(pairs[LastIndexOf(Keys(pairs), k)].value)
  {
    var front, last := pairs[..|pairs| - 1], pairs[|pairs| - 1];
    assert pairs == front + [last];
    assert Keys(pairs) == Keys(front) + [last.key];
    FromPairsSnoc(front, last);
    InsertLookup(FromPairs(front), last.key, last.value, k);
    if k != last.key {
      assert Keys(pairs)[..|pairs| - 1] == Keys(front);
      FromPairsLastWins(front, k);
    }
  }
}
