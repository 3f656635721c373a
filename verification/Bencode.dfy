/**
  Bencode values and their reader and writer (rust/bittorrent/bencode/src/lib.rs).
  A borrowed list or dictionary carries the slice it was read from, an owned one does
  not.  A dictionary is the sequence of its entries in key order.
 */
module Bencode {
  import opened Common
  import opened Decimals

  datatype Value =
    | ByteString(bytes: Bytes)
    | Integer(number: int)
    | List(items: seq<Value>, raw: Option<Bytes>)
    | Dictionary(entries: seq<Entry>, raw: Option<Bytes>)

  datatype Entry = Entry(key: Bytes, value: Value)

  datatype Error =
    | Incomplete
    | InvalidByteStringLength(length: Bytes)
    | InvalidInteger(integer: Bytes)
    | InvalidValueType(valueType: Byte)
    | NotStrictlyIncreasingDictionaryKey(lastKey: Bytes, newKey: Bytes)
    | UnexpectedTrailingData(value: Value, trailing: Bytes)

  const COLON: Byte := 58
  const DICTIONARY: Byte := 100
  const END: Byte := 101
  const INTEGER: Byte := 105
  const LIST: Byte := 108

  // ---- Dictionaries ----

  /** The order of byte strings: the first difference decides, a prefix is smaller. */
  predicate Less(a: Bytes, b: Bytes) {
    b != [] && (a == [] || a[0] < b[0] || (a[0] == b[0] && Less(a[1..], b[1..])))
  }

  ghost predicate Increasing(entries: seq<Entry>) {
    forall i, j :: 0 <= i < j < |entries| ==> Less(entries[i].key, entries[j].key)
  }

  function DictInsert(entries: seq<Entry>, key: Bytes, value: Value): seq<Entry> {
    if entries == [] || Less(key, entries[0].key) then [Entry(key, value)] + entries
    else if entries[0].key == key then [Entry(key, value)] + entries[1..]
    else [entries[0]] + DictInsert(entries[1..], key, value)
  }

  // ---- Reading ----

  function DecodeByteString(b: Bytes): (r: Result<(Bytes, Bytes), Error>)
    ensures r.Ok? ==> |r.value.1| < |b|
  {
    match Until(b, COLON)
    case None => Err(Incomplete)
    case Some((text, rest)) =>
      UntilSplits(b, COLON);
      match ParseLength(text)
      case None => Err(InvalidByteStringLength(text))
      case Some(n) => if |rest| < n then Err(Incomplete) else Ok((rest[..n], rest[n..]))
  }

  // The part of `b` that was read when `rest` is left.
  function Consumed(b: Bytes, rest: Bytes): Bytes
    requires |rest| <= |b|
  {
    b[..|b| - |rest|]
  }

  /** One value from the front of `b`, and what is left of `b`. */
  function Decode(strict: bool, b: Bytes): (r: Result<(Value, Bytes), Error>)
    ensures r.Ok? ==> |r.value.1| < |b|
    decreases |b|, 0
  {
    if b == [] then Err(Incomplete)
    else if IsDigit(b[0]) then
      match DecodeByteString(b)
      case Err(e) => Err(e)
      case Ok((bytes, rest)) => Ok((ByteString(bytes), rest))
    else if b[0] == INTEGER then
      DecodeInteger(b[1..])
    else if b[0] == LIST then
      match DecodeItems(strict, b[1..], [])
      case Err(e) => Err(e)
      case Ok((items, rest)) => Ok((List(items, Some(Consumed(b, rest))), rest))
    else if b[0] == DICTIONARY then
      match DecodeEntries(strict, b[1..], [])
      case Err(e) => Err(e)
      case Ok((entries, rest)) => Ok((Dictionary(entries, Some(Consumed(b, rest))), rest))
    else Err(InvalidValueType(b[0]))
  }

  function DecodeInteger(b: Bytes): (r: Result<(Value, Bytes), Error>)
    ensures r.Ok? ==> |r.value.1| < |b|
  {
    match Until(b, END)
    case None => Err(Incomplete)
    case Some((text, rest)) =>
      UntilSplits(b, END);
      match ParseInteger(text)
      case None => Err(InvalidInteger(text))
      case Some(i) => Ok((Integer(i), rest))
  }

  /** The values up to the closing `e`, after those in `items`. */
  function DecodeItems(strict: bool, b: Bytes, items: seq<Value>): (r: Result<(seq<Value>, Bytes), Error>)
    ensures r.Ok? ==> |r.value.1| < |b|
    decreases |b|, 1
  {
    if b == [] then Err(Incomplete)
    else if b[0] == END then Ok((items, b[1..]))
    else
      match Decode(strict, b)
      case Err(e) => Err(e)
      case Ok((item, rest)) => DecodeItems(strict, rest, items + [item])
  }

  /** The entries up to the closing `e`, put into the dictionary `entries`. */
  function DecodeEntries(strict: bool, b: Bytes, entries: seq<Entry>): (r: Result<(seq<Entry>, Bytes), Error>)
    ensures r.Ok? ==> |r.value.1| < |b|
    decreases |b|, 1
  {
    if b == [] then Err(Incomplete)
    else if b[0] == END then Ok((entries, b[1..]))
    else
      match DecodeEntry(strict, b)
      case Err(e) => Err(e)
      case Ok((entry, rest)) =>
        if Refuses(strict, entries, entry.key)
        then Err(NotStrictlyIncreasingDictionaryKey(entries[|entries| - 1].key, entry.key))
        else DecodeEntries(strict, rest, DictInsert(entries, entry.key, entry.value))
  }

  function DecodeEntry(strict: bool, b: Bytes): (r: Result<(Entry, Bytes), Error>)
    ensures r.Ok? ==> |r.value.1| < |b|
    decreases |b|, 0
  {
    match DecodeByteString(b)
    case Err(e) => Err(e)
    case Ok((key, afterKey)) =>
      match Decode(strict, afterKey)
      case Err(e) => Err(e)
      case Ok((value, rest)) => Ok((Entry(key, value), rest))
  }

  /** Strict reading wants each key above the greatest one so far. */
  predicate Refuses(strict: bool, entries: seq<Entry>, key: Bytes) {
    strict && entries != [] && !Less(entries[|entries| - 1].key, key)
  }

  /** A whole buffer as one value; only lenient reading allows bytes after it. */
  function TryFrom(strict: bool, b: Bytes): Result<Value, Error> {
    match Decode(strict, b)
    case Err(e) => Err(e)
    case Ok((value, rest)) =>
      if strict && rest != [] then Err(UnexpectedTrailingData(ToOwned(value), rest)) else Ok(value)
  }

  // ---- Owned values ----

  function ToOwned(v: Value): Value {
    match v
    case List(items, _) => List(ItemsToOwned(items), None)
    case Dictionary(entries, _) => Dictionary(EntriesToOwned(entries), None)
    case _ => v
  }

  function ItemsToOwned(items: seq<Value>): seq<Value> {
    if items == [] then [] else [ToOwned(items[0])] + ItemsToOwned(items[1..])
  }

  function EntriesToOwned(entries: seq<Entry>): seq<Entry> {
    if entries == [] then []
    else [Entry(entries[0].key, ToOwned(entries[0].value))] + EntriesToOwned(entries[1..])
  }

  // ---- Writing ----

  function EncodedBytes(bytes: Bytes): Bytes {
    Digits(|bytes|) + [COLON] + bytes
  }

  function Encoded(v: Value): Bytes {
    match v
    case ByteString(bytes) => EncodedBytes(bytes)
    case Integer(i) => [INTEGER] + PrintInteger(i) + [END]
    case List(items, _) => [LIST] + EncodedItems(items) + [END]
    case Dictionary(entries, _) => [DICTIONARY] + EncodedEntries(entries) + [END]
  }

  function EncodedItems(items: seq<Value>): Bytes {
    if items == [] then [] else Encoded(items[0]) + EncodedItems(items[1..])
  }

  function EncodedEntries(entries: seq<Entry>): Bytes {
    if entries == [] then [] else EncodedEntry(entries[0]) + EncodedEntries(entries[1..])
  }

  function EncodedEntry(e: Entry): Bytes {
    EncodedBytes(e.key) + Encoded(e.value)
  }
}
