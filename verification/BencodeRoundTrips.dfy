/** Bencode values written and read back. */
module BencodeRoundTrips {
  import opened Common
  import opened Decimals
  import opened Bencode
  import opened BencodeLaws

  // ---- The order of keys ----

  lemma {:induction false} LessTransitive(a: Bytes, b: Bytes, c: Bytes)
    requires Less(a, b) && Less(b, c)
    ensures Less(a, c)
  {
    if a != [] && a[0] == b[0] == c[0] {
      LessTransitive(a[1..], b[1..], c[1..]);
    }
  }

  lemma {:induction false} LessTotal(a: Bytes, b: Bytes)
    ensures Less(a, b) || a == b || Less(b, a)
    ensures !(Less(a, b) && Less(b, a)) && (a == b ==> !Less(a, b))
  {
    if a != [] && b != [] && a[0] == b[0] {
      LessTotal(a[1..], b[1..]);
      assert a == [a[0]] + a[1..] && b == [b[0]] + b[1..];
    }
  }

  // ---- Dictionaries as maps ----

  function Lookup(entries: seq<Entry>, key: Bytes): Option<Value> {
    if entries == [] then None
    else if entries[0].key == key then Some(entries[0].value)
    else Lookup(entries[1..], key)
  }

  ghost predicate AllAbove(entries: seq<Entry>, key: Bytes) {
    forall e :: e in entries ==> Less(key, e.key)
  }

  lemma IncreasingHead(head: Entry, tail: seq<Entry>)
    requires Increasing(tail) && AllAbove(tail, head.key)
    ensures Increasing([head] + tail)
  {
  }

  lemma IncreasingTail(entries: seq<Entry>)
    requires Increasing(entries) && entries != []
    ensures Increasing(entries[1..]) && AllAbove(entries[1..], entries[0].key)
  {
  }

  /** Inserting keeps the keys strictly increasing and is a map update: the key gets
      the new value, every other key keeps its own. */
  lemma {:induction false} InsertUpdates(entries: seq<Entry>, key: Bytes, value: Value, k: Bytes)
    requires Increasing(entries)
    ensures Increasing(DictInsert(entries, key, value))
    ensures Lookup(DictInsert(entries, key, value), k) == if k == key then Some(value) else Lookup(entries, k)
  {
    if entries != [] {
      var head, tail := entries[0], entries[1..];
      assert entries == [head] + tail;
      IncreasingTail(entries);
      LessTotal(key, head.key);
      if Less(key, head.key) {
        InsertedAbove(entries, key);
        IncreasingHead(Entry(key, value), entries);
      } else if head.key == key {
        IncreasingHead(Entry(key, value), tail);
      } else {
        InsertUpdates(tail, key, value, k);
        InsertStaysAbove(tail, key, value, head.key);
        IncreasingHead(head, DictInsert(tail, key, value));
      }
    }
  }

  lemma InsertedAbove(entries: seq<Entry>, key: Bytes)
    requires Increasing(entries) && entries != [] && Less(key, entries[0].key)
    ensures AllAbove(entries, key)
  {
    IncreasingTail(entries);
    forall e | e in entries ensures Less(key, e.key) {
      if e in entries[1..] {
        LessTransitive(key, entries[0].key, e.key);
      }
    }
  }

  lemma InsertStaysAbove(entries: seq<Entry>, key: Bytes, value: Value, bound: Bytes)
    requires AllAbove(entries, bound) && Less(bound, key)
    ensures AllAbove(DictInsert(entries, key, value), bound)
  {
    forall e | e in DictInsert(entries, key, value) ensures Less(bound, e.key) {
      InsertMembers(entries, key, value, e);
    }
  }

  /** A key above the last one goes to the end. */
  lemma {:induction false} InsertLast(entries: seq<Entry>, key: Bytes, value: Value)
    requires Increasing(entries)
    requires entries != [] ==> Less(entries[|entries| - 1].key, key)
    ensures DictInsert(entries, key, value) == entries + [Entry(key, value)]
  {
    if entries != [] {
      IncreasingTail(entries);
      var last := entries[|entries| - 1];
      if |entries| > 1 {
        LessTransitive(entries[0].key, last.key, key);
      }
      LessTotal(key, entries[0].key);
      InsertLast(entries[1..], key, value);
      assert entries == [entries[0]] + entries[1..];
    }
  }

  // ---- What can be written and read back ----

  ghost predicate Encodable(v: Value) {
    match v
    case ByteString(bytes) => |bytes| < LENGTH_BOUND
    case Integer(i) => -INTEGER_BOUND <= i < INTEGER_BOUND
    case List(items, _) => forall i :: 0 <= i < |items| ==> Encodable(items[i])
    case Dictionary(entries, _) =>
      && Increasing(entries)
      && forall i :: 0 <= i < |entries| ==> |entries[i].key| < LENGTH_BOUND && Encodable(entries[i].value)
  }

  ghost predicate EncodableItems(items: seq<Value>) {
    forall v :: v in items ==> Encodable(v)
  }

  ghost predicate EncodableEntries(entries: seq<Entry>) {
    forall e :: e in entries ==> |e.key| < LENGTH_BOUND && Encodable(e.value)
  }

  /** The value with every list and dictionary carrying its own encoding. */
  function WithRaw(v: Value): Value {
    match v
    case List(items, _) => List(ItemsWithRaw(items), Some(Encoded(v)))
    case Dictionary(entries, _) => Dictionary(EntriesWithRaw(entries), Some(Encoded(v)))
    case _ => v
  }

  function ItemsWithRaw(items: seq<Value>): seq<Value> {
    if items == [] then [] else [WithRaw(items[0])] + ItemsWithRaw(items[1..])
  }

  function EntriesWithRaw(entries: seq<Entry>): seq<Entry> {
    if entries == [] then []
    else [Entry(entries[0].key, WithRaw(entries[0].value))] + EntriesWithRaw(entries[1..])
  }

  lemma DigitsHaveNo(n: nat, c: Byte)
    requires !IsDigit(c)
    ensures c !in Digits(n)
  {
    DigitsRead(n);
  }

  lemma BytesRoundTrip(bytes: Bytes, rest: Bytes)
    requires |bytes| < LENGTH_BOUND
    ensures DecodeByteString(EncodedBytes(bytes) + rest) == Ok((bytes, rest))
    ensures IsDigit(EncodedBytes(bytes)[0])
  {
    var text := Digits(|bytes|);
    DigitsHaveNo(|bytes|, COLON);
    DigitsRead(|bytes|);
    assert text[0] in text;
    UntilFinds(text, COLON, bytes + rest);
    assert EncodedBytes(bytes) + rest == text + [COLON] + (bytes + rest);
    LengthRoundTrip(|bytes|);
    assert (bytes + rest)[..|bytes|] == bytes && (bytes + rest)[|bytes|..] == rest;
  }

  lemma PrintedRoundTrip(strict: bool, i: int, rest: Bytes)
    requires -INTEGER_BOUND <= i < INTEGER_BOUND
    ensures Decode(strict, Encoded(Integer(i)) + rest) == Ok((Integer(i), rest))
  {
    var text := PrintInteger(i);
    DigitsHaveNo(if i < 0 then -i else i, END);
    UntilFinds(text, END, rest);
    IntegerRoundTrip(i);
    var b := Encoded(Integer(i)) + rest;
    assert b[0] == INTEGER && b[1..] == text + [END] + rest;
  }

  lemma FirstByte(v: Value)
    requires Encodable(v)
    ensures Encoded(v) != [] && Encoded(v)[0] != END
  {
    if v.ByteString? {
      BytesRoundTrip(v.bytes, []);
    }
  }

  // One turn of the loops of the reader: the bytes of the first element, then those of
  // the others.

  lemma ItemsTurn(strict: bool, first: Bytes, item: Value, inside: Bytes,
                  before: seq<Value>, more: seq<Value>, rest: Bytes)
    requires first != [] && first[0] != END
    requires var later := inside + ([END] + rest);
             && Decode(strict, first + later) == Ok((item, later))
             && DecodeItems(strict, later, before + [item]) == Ok((before + [item] + more, rest))
    ensures DecodeItems(strict, first + inside + ([END] + rest), before) == Ok((before + ([item] + more), rest))
  {
    ConcatBytes(first, inside, [END] + rest);
    assert before + [item] + more == before + ([item] + more);
  }

  lemma EntriesTurn(strict: bool, b: Bytes, before: seq<Entry>, e: Entry, later: Bytes)
    requires b != [] && b[0] != END && DecodeEntry(strict, b) == Ok((e, later)) && !Refuses(strict, before, e.key)
    ensures DecodeEntries(strict, b, before) == DecodeEntries(strict, later, DictInsert(before, e.key, e.value))
  {
  }

  lemma EntriesJoin(strict: bool, first: Bytes, e: Entry, later: Bytes,
                    before: seq<Entry>, more: seq<Entry>, rest: Bytes)
    requires first != [] && first[0] != END && DecodeEntry(strict, first + later) == Ok((e, later))
    requires Increasing(before) && (before != [] ==> Less(before[|before| - 1].key, e.key))
    requires DecodeEntries(strict, later, before + [e]) == Ok((before + [e] + more, rest))
    ensures DecodeEntries(strict, first + later, before) == Ok((before + ([e] + more), rest))
  {
    InsertLast(before, e.key, e.value);
    EntriesTurn(strict, first + later, before, e, later);
    ConcatEntries(before, [e], more);
  }

  lemma ConcatEntries(a: seq<Entry>, b: seq<Entry>, c: seq<Entry>)
    ensures (a + b) + c == a + (b + c)
  {
  }

  lemma ConcatBytes(a: Bytes, b: Bytes, c: Bytes)
    ensures (a + b) + c == a + (b + c)
  {
  }

  lemma LoopEnds(strict: bool, items: seq<Value>, entries: seq<Entry>, rest: Bytes)
    ensures DecodeItems(strict, [END] + rest, items) == Ok((items, rest))
    ensures DecodeEntries(strict, [END] + rest, entries) == Ok((entries, rest))
  {
    assert ([END] + rest)[1..] == rest;
  }

  /** Reading what was written gives the value back, each list and dictionary with its
      own encoding as raw slice, and leaves exactly what followed. */
  lemma {:induction false} RoundTrip(strict: bool, v: Value, rest: Bytes)
    requires Encodable(v)
    ensures Decode(strict, Encoded(v) + rest) == Ok((WithRaw(v), rest))
    decreases v, 0
  {
    var b := Encoded(v) + rest;
    match v {
      case ByteString(bytes) =>
        BytesRoundTrip(bytes, rest);
        assert b[0] == Encoded(v)[0];
      case Integer(i) =>
        PrintedRoundTrip(strict, i, rest);
      case List(items, _) =>
        ItemsRoundTrip(strict, items, [], rest);
        ListReads(strict, EncodedItems(items), ItemsWithRaw(items), rest);
      case Dictionary(entries, _) =>
        EntriesRoundTrip(strict, entries, [], rest);
        DictionaryReads(strict, EncodedEntries(entries), EntriesWithRaw(entries), rest);
    }
  }

  lemma ListReads(strict: bool, inside: Bytes, items: seq<Value>, rest: Bytes)
    requires DecodeItems(strict, inside + ([END] + rest), []) == Ok(([] + items, rest))
    ensures var raw := [LIST] + inside + [END]; Decode(strict, raw + rest) == Ok((List(items, Some(raw)), rest))
  {
    var raw := [LIST] + inside + [END];
    assert (raw + rest)[1..] == inside + ([END] + rest);
    assert [] + items == items;
    ConsumedOf(raw, rest);
  }

  lemma DictionaryReads(strict: bool, inside: Bytes, entries: seq<Entry>, rest: Bytes)
    requires DecodeEntries(strict, inside + ([END] + rest), []) == Ok(([] + entries, rest))
    ensures var raw := [DICTIONARY] + inside + [END];
            Decode(strict, raw + rest) == Ok((Dictionary(entries, Some(raw)), rest))
  {
    var raw := [DICTIONARY] + inside + [END];
    assert (raw + rest)[1..] == inside + ([END] + rest);
    assert [] + entries == entries;
    ConsumedOf(raw, rest);
  }

  lemma {:induction false} ItemsRoundTrip(strict: bool, items: seq<Value>, before: seq<Value>, rest: Bytes)
    requires EncodableItems(items)
    ensures DecodeItems(strict, EncodedItems(items) + ([END] + rest), before)
         == Ok((before + ItemsWithRaw(items), rest))
    decreases items, 1
  {
    if items == [] {
      assert EncodedItems(items) + ([END] + rest) == [END] + rest && before + ItemsWithRaw(items) == before;
      LoopEnds(strict, before, [], rest);
    } else {
      var item, inside := items[0], EncodedItems(items[1..]);
      FirstByte(item);
      RoundTrip(strict, item, inside + ([END] + rest));
      ItemsRoundTrip(strict, items[1..], before + [WithRaw(item)], rest);
      ItemsTurn(strict, Encoded(item), WithRaw(item), inside, before, ItemsWithRaw(items[1..]), rest);
    }
  }

  lemma {:induction false} EntriesRoundTrip(strict: bool, entries: seq<Entry>, before: seq<Entry>, rest: Bytes)
    requires EncodableEntries(entries) && Increasing(entries) && Increasing(before) && Follows(before, entries)
    ensures DecodeEntries(strict, EncodedEntries(entries) + ([END] + rest), before)
         == Ok((before + EntriesWithRaw(entries), rest))
    decreases entries, 1
  {
    if entries == [] {
      assert EncodedEntries(entries) + ([END] + rest) == [END] + rest && before + EntriesWithRaw(entries) == before;
      LoopEnds(strict, [], before, rest);
    } else {
      var e, inside := entries[0], EncodedEntries(entries[1..]);
      var read := Entry(e.key, WithRaw(e.value));
      assert e in entries;
      EntryRoundTrip(strict, e, inside + ([END] + rest));
      NextKey(before, entries, read);
      EntriesRoundTrip(strict, entries[1..], before + [read], rest);
      EntriesJoin(strict, EncodedEntry(e), read, inside + ([END] + rest), before, EntriesWithRaw(entries[1..]), rest);
      ConcatBytes(EncodedEntry(e), inside, [END] + rest);
    }
  }

  lemma {:induction false} EntryRoundTrip(strict: bool, e: Entry, rest: Bytes)
    requires |e.key| < LENGTH_BOUND && Encodable(e.value)
    ensures DecodeEntry(strict, EncodedEntry(e) + rest) == Ok((Entry(e.key, WithRaw(e.value)), rest))
    ensures EncodedEntry(e) != [] && EncodedEntry(e)[0] != END
    decreases e, 1
  {
    BytesRoundTrip(e.key, Encoded(e.value) + rest);
    RoundTrip(strict, e.value, rest);
    ConcatBytes(EncodedBytes(e.key), Encoded(e.value), rest);
  }

  // The first key still to come is above the last one read.
  ghost predicate Follows(before: seq<Entry>, entries: seq<Entry>) {
    before != [] && entries != [] ==> Less(before[|before| - 1].key, entries[0].key)
  }

  // Moving an entry, with another value, to the part already read.
  lemma NextKey(before: seq<Entry>, entries: seq<Entry>, read: Entry)
    requires Increasing(entries) && Increasing(before) && Follows(before, entries)
    requires entries != [] && read.key == entries[0].key
    ensures Increasing(entries[1..]) && Increasing(before + [read]) && Follows(before + [read], entries[1..])
  {
    IncreasingTail(entries);
    forall i | 0 <= i < |before| ensures Less(before[i].key, read.key) {
      if i < |before| - 1 {
        LessTransitive(before[i].key, before[|before| - 1].key, read.key);
      }
    }
  }

  // ---- Owned values ----

  lemma {:induction false} WithRawIsSame(v: Value)
    ensures ToOwned(WithRaw(v)) == ToOwned(v)
  {
    match v {
      case List(items, _) => ItemsAreSame(items);
      case Dictionary(entries, _) => EntriesAreSame(entries);
      case _ =>
    }
  }

  lemma {:induction false} ItemsAreSame(items: seq<Value>)
    ensures ItemsToOwned(ItemsWithRaw(items)) == ItemsToOwned(items)
  {
    if items != [] {
      WithRawIsSame(items[0]);
      ItemsAreSame(items[1..]);
      assert ItemsWithRaw(items)[1..] == ItemsWithRaw(items[1..]);
    }
  }

  lemma {:induction false} EntriesAreSame(entries: seq<Entry>)
    ensures EntriesToOwned(EntriesWithRaw(entries)) == EntriesToOwned(entries)
  {
    if entries != [] {
      WithRawIsSame(entries[0].value);
      EntriesAreSame(entries[1..]);
      assert EntriesWithRaw(entries)[1..] == EntriesWithRaw(entries[1..]);
    }
  }

  // ---- Whatever is read can be written ----

  lemma ByteStringIsShort(b: Bytes)
    requires DecodeByteString(b).Ok?
    ensures |DecodeByteString(b).value.0| < LENGTH_BOUND
  {
  }

  lemma {:induction false} DecodedEncodable(strict: bool, b: Bytes)
    requires Decode(strict, b).Ok?
    ensures Encodable(Decode(strict, b).value.0)
    decreases |b|, 0
  {
    if IsDigit(b[0]) {
      ByteStringIsShort(b);
    } else if b[0] == LIST {
      DecodedItemsEncodable(strict, b[1..], []);
    } else if b[0] == DICTIONARY {
      DecodedEntriesEncodable(strict, b[1..], []);
    }
  }

  lemma {:induction false} DecodedItemsEncodable(strict: bool, b: Bytes, items: seq<Value>)
    requires DecodeItems(strict, b, items).Ok? && EncodableItems(items)
    ensures EncodableItems(DecodeItems(strict, b, items).value.0)
    decreases |b|, 1
  {
    if b[0] != END {
      var (item, rest) := Decode(strict, b).value;
      DecodedEncodable(strict, b);
      DecodedItemsEncodable(strict, rest, items + [item]);
    }
  }

  lemma {:induction false} DecodedEntriesEncodable(strict: bool, b: Bytes, entries: seq<Entry>)
    requires DecodeEntries(strict, b, entries).Ok? && EncodableEntries(entries) && Increasing(entries)
    ensures EncodableEntries(DecodeEntries(strict, b, entries).value.0)
    ensures Increasing(DecodeEntries(strict, b, entries).value.0)
    decreases |b|, 1
  {
    if b[0] != END {
      var (entry, rest) := DecodeEntry(strict, b).value;
      ByteStringIsShort(b);
      DecodedEncodable(strict, DecodeByteString(b).value.1);
      var all := DictInsert(entries, entry.key, entry.value);
      forall e | e in all ensures |e.key| < LENGTH_BOUND && Encodable(e.value) {
        InsertMembers(entries, entry.key, entry.value, e);
      }
      InsertUpdates(entries, entry.key, entry.value, entry.key);
      DecodedEntriesEncodable(strict, rest, all);
    }
  }

  /** Whatever was read, even leniently, can be written and then read strictly as the
      same value: writing brings any accepted input into an accepted canonical form. */
  lemma ReadWriteRead(strict: bool, b: Bytes)
    requires Decode(strict, b).Ok?
    ensures var v := Decode(strict, b).value.0;
            && TryFrom(true, Encoded(v)) == Ok(WithRaw(v))
            && ToOwned(WithRaw(v)) == ToOwned(v)
  {
    var v := Decode(strict, b).value.0;
    DecodedEncodable(strict, b);
    RoundTrip(true, v, []);
    assert Encoded(v) + [] == Encoded(v);
    WithRawIsSame(v);
  }
}
