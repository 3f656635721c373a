/** When writing a value that was read gives the very bytes it was read from. */
module BencodeIdentity {
  import opened Common
  import opened Decimals
  import opened Bencode
  import opened BencodeLaws
  import opened BencodeRoundTrips

  /** Every number in the value at the front of `b`, a length or an integer, is in
      plain decimal: no plus, no leading zero, no negative zero. */
  predicate Plain(b: Bytes)
    decreases |b|, 0
  {
    if b == [] then false
    else if IsDigit(b[0]) then PlainBytes(b)
    else if b[0] == INTEGER then
      match Until(b[1..], END)
      case None => false
      case Some((text, _)) => PlainInteger(text)
    else if b[0] == LIST then PlainItems(b[1..])
    else PlainEntries(b[1..])
  }

  predicate PlainBytes(b: Bytes) {
    match Until(b, COLON)
    case None => false
    case Some((text, _)) => PlainLength(text)
  }

  predicate PlainItems(b: Bytes)
    decreases |b|, 1
  {
    if b == [] then false
    else if b[0] == END then true
    else
      match Decode(true, b)
      case Err(_) => false
      case Ok((_, rest)) => Plain(b) && PlainItems(rest)
  }

  predicate PlainEntries(b: Bytes)
    decreases |b|, 1
  {
    if b == [] then false
    else if b[0] == END then true
    else
      match DecodeEntry(true, b)
      case Err(_) => false
      case Ok((_, rest)) => PlainEntry(b) && PlainEntries(rest)
  }

  predicate PlainEntry(b: Bytes)
    decreases |b|, 0
  {
    match DecodeByteString(b)
    case Err(_) => false
    case Ok((_, rest)) => PlainBytes(b) && Plain(rest)
  }

  // ---- Plain input comes back ----

  lemma PlainBytesBack(b: Bytes)
    requires DecodeByteString(b).Ok? && PlainBytes(b)
    ensures var (bytes, rest) := DecodeByteString(b).value; EncodedBytes(bytes) + rest == b
  {
    var (text, after) := Until(b, COLON).value;
    UntilSplits(b, COLON);
    var n := ParseLength(text).value;
    var bytes, rest := after[..n], after[n..];
    assert after == bytes + rest;
    BytesBack(text, bytes, rest);
  }

  lemma BytesBack(text: Bytes, bytes: Bytes, rest: Bytes)
    requires ParseLength(text) == Some(|bytes|) && PlainLength(text)
    ensures EncodedBytes(bytes) + rest == text + [COLON] + (bytes + rest)
  {
    LengthTextExactly(text);
    ConcatBytes(text + [COLON], bytes, rest);
  }

  lemma Wrapped(c: Byte, inside: Bytes, rest: Bytes)
    ensures [c] + inside + [END] + rest == [c] + (inside + ([END] + rest))
    ensures [c] + inside + [END] + rest == [c] + (inside + [END] + rest)
  {
  }

  lemma {:induction false} PlainBack(b: Bytes)
    requires Decode(true, b).Ok? && Plain(b)
    ensures var (v, rest) := Decode(true, b).value; Encoded(v) + rest == b
    decreases |b|, 0
  {
    var (v, rest) := Decode(true, b).value;
    assert b == [b[0]] + b[1..];
    if IsDigit(b[0]) {
      PlainBytesBack(b);
    } else if b[0] == INTEGER {
      UntilSplits(b[1..], END);
      IntegerTextExactly(Until(b[1..], END).value.0);
      Wrapped(INTEGER, PrintInteger(v.number), rest);
    } else if b[0] == LIST {
      PlainItemsBack(b[1..], []);
      assert EncodedItems([]) + b[1..] == b[1..];
      Wrapped(LIST, EncodedItems(v.items), rest);
    } else {
      PlainEntriesBack(b[1..], []);
      assert EncodedEntries([]) + b[1..] == b[1..];
      Wrapped(DICTIONARY, EncodedEntries(v.entries), rest);
    }
  }

  lemma {:induction false} EncodedItemsAppend(items: seq<Value>, item: Value)
    ensures EncodedItems(items + [item]) == EncodedItems(items) + Encoded(item)
  {
    if items == [] {
      assert [item][1..] == [] && [] + [item] == [item];
      assert Encoded(item) + [] == Encoded(item);
    } else {
      EncodedItemsAppend(items[1..], item);
      assert (items + [item])[1..] == items[1..] + [item];
      ConcatBytes(Encoded(items[0]), EncodedItems(items[1..]), Encoded(item));
    }
  }

  lemma {:induction false} EncodedEntriesAppend(entries: seq<Entry>, e: Entry)
    ensures EncodedEntries(entries + [e]) == EncodedEntries(entries) + EncodedEntry(e)
  {
    if entries == [] {
      assert [e][1..] == [] && [] + [e] == [e];
      assert EncodedEntry(e) + [] == EncodedEntry(e);
    } else {
      EncodedEntriesAppend(entries[1..], e);
      assert (entries + [e])[1..] == entries[1..] + [e];
      ConcatBytes(EncodedEntry(entries[0]), EncodedEntries(entries[1..]), EncodedEntry(e));
    }
  }

  lemma {:induction false} PlainItemsBack(b: Bytes, items: seq<Value>)
    requires DecodeItems(true, b, items).Ok? && PlainItems(b)
    ensures var (all, rest) := DecodeItems(true, b, items).value;
            EncodedItems(all) + ([END] + rest) == EncodedItems(items) + b
    decreases |b|, 1
  {
    if b[0] == END {
      assert b == [END] + b[1..];
    } else {
      var (item, rest) := Decode(true, b).value;
      PlainBack(b);
      PlainItemsBack(rest, items + [item]);
      EncodedItemsAppend(items, item);
      ConcatBytes(EncodedItems(items), Encoded(item), rest);
    }
  }

  lemma {:induction false} PlainEntriesBack(b: Bytes, entries: seq<Entry>)
    requires DecodeEntries(true, b, entries).Ok? && PlainEntries(b) && Increasing(entries)
    ensures var (all, rest) := DecodeEntries(true, b, entries).value;
            EncodedEntries(all) + ([END] + rest) == EncodedEntries(entries) + b
    decreases |b|, 1
  {
    if b[0] == END {
      assert b == [END] + b[1..];
    } else {
      var (e, rest) := DecodeEntry(true, b).value;
      PlainEntryBack(b);
      InsertLast(entries, e.key, e.value);
      InsertUpdates(entries, e.key, e.value, e.key);
      PlainEntriesBack(rest, entries + [e]);
      EncodedEntriesAppend(entries, e);
      ConcatBytes(EncodedEntries(entries), EncodedEntry(e), rest);
    }
  }

  lemma {:induction false} PlainEntryBack(b: Bytes)
    requires DecodeEntry(true, b).Ok? && PlainEntry(b)
    ensures var (e, rest) := DecodeEntry(true, b).value; EncodedEntry(e) + rest == b
    decreases |b|, 0
  {
    var (key, after) := DecodeByteString(b).value;
    var (value, rest) := Decode(true, after).value;
    PlainBytesBack(b);
    PlainBack(after);
    ConcatBytes(EncodedBytes(key), Encoded(value), rest);
  }

  // ---- What is written is plain ----

  lemma WrittenBytesArePlain(bytes: Bytes, rest: Bytes)
    requires |bytes| < LENGTH_BOUND
    ensures PlainBytes(EncodedBytes(bytes) + rest)
  {
    var text := Digits(|bytes|);
    DigitsHaveNo(|bytes|, COLON);
    UntilFinds(text, COLON, bytes + rest);
    assert EncodedBytes(bytes) + rest == text + [COLON] + (bytes + rest);
    LengthRoundTrip(|bytes|);
    LengthTextExactly(text);
  }

  lemma WrittenIntegerIsPlain(i: int, rest: Bytes)
    requires -INTEGER_BOUND <= i < INTEGER_BOUND
    ensures Plain(Encoded(Integer(i)) + rest)
  {
    var text := PrintInteger(i);
    DigitsHaveNo(if i < 0 then -i else i, END);
    UntilFinds(text, END, rest);
    IntegerRoundTrip(i);
    IntegerTextExactly(text);
    var b := Encoded(Integer(i)) + rest;
    assert b[0] == INTEGER && b[1..] == text + [END] + rest;
  }

  lemma {:induction false} WrittenIsPlain(v: Value, rest: Bytes)
    requires Encodable(v)
    ensures Plain(Encoded(v) + rest)
    decreases v, 0
  {
    var b := Encoded(v) + rest;
    match v {
      case ByteString(bytes) =>
        WrittenBytesArePlain(bytes, rest);
        BytesRoundTrip(bytes, rest);
        assert b[0] == Encoded(v)[0];
      case Integer(i) =>
        WrittenIntegerIsPlain(i, rest);
      case List(items, _) =>
        WrittenItemsArePlain(items, rest);
        assert b[0] == LIST && b[1..] == EncodedItems(items) + ([END] + rest);
      case Dictionary(entries, _) =>
        WrittenEntriesArePlain(entries, rest);
        assert b[0] == DICTIONARY && b[1..] == EncodedEntries(entries) + ([END] + rest);
    }
  }

  lemma {:induction false} WrittenItemsArePlain(items: seq<Value>, rest: Bytes)
    requires EncodableItems(items)
    ensures PlainItems(EncodedItems(items) + ([END] + rest))
    decreases items, 1
  {
    if items == [] {
      assert EncodedItems(items) + ([END] + rest) == [END] + rest;
    } else {
      var item, later := items[0], EncodedItems(items[1..]) + ([END] + rest);
      FirstByte(item);
      RoundTrip(true, item, later);
      WrittenIsPlain(item, later);
      WrittenItemsArePlain(items[1..], rest);
      ConcatBytes(Encoded(item), EncodedItems(items[1..]), [END] + rest);
    }
  }

  lemma {:induction false} WrittenEntriesArePlain(entries: seq<Entry>, rest: Bytes)
    requires EncodableEntries(entries)
    ensures PlainEntries(EncodedEntries(entries) + ([END] + rest))
    decreases entries, 1
  {
    if entries == [] {
      assert EncodedEntries(entries) + ([END] + rest) == [END] + rest;
    } else {
      var e, later := entries[0], EncodedEntries(entries[1..]) + ([END] + rest);
      assert e in entries;
      EntryRoundTrip(true, e, later);
      WrittenEntryIsPlain(e, later);
      WrittenEntriesArePlain(entries[1..], rest);
      ConcatBytes(EncodedEntry(e), EncodedEntries(entries[1..]), [END] + rest);
    }
  }

  lemma {:induction false} WrittenEntryIsPlain(e: Entry, rest: Bytes)
    requires |e.key| < LENGTH_BOUND && Encodable(e.value)
    ensures PlainEntry(EncodedEntry(e) + rest)
    decreases e, 1
  {
    var after := Encoded(e.value) + rest;
    ConcatBytes(EncodedBytes(e.key), Encoded(e.value), rest);
    BytesRoundTrip(e.key, after);
    WrittenBytesArePlain(e.key, after);
    WrittenIsPlain(e.value, rest);
  }

  // ---- The exact condition ----

  /** A value that was read, strictly or not, is written as the very bytes it was read
      from exactly when strict reading accepts them and every number is in plain decimal. */
  lemma WritesBackExactly(strict: bool, b: Bytes)
    requires Decode(strict, b).Ok?
    ensures var (v, rest) := Decode(strict, b).value;
            Encoded(v) == Consumed(b, rest) <==> Decode(true, b).Ok? && Plain(b)
  {
    var (v, rest) := Decode(strict, b).value;
    DecodeSwap(strict, b, rest);
    ConsumedOf(Encoded(v), rest);
    if Decode(true, b).Ok? {
      StrictIsLenient(b);
      if Plain(b) {
        PlainBack(b);
      }
    }
    if Encoded(v) == Consumed(b, rest) {
      DecodedEncodable(strict, b);
      RoundTrip(true, v, rest);
      WrittenIsPlain(v, rest);
    }
  }

  /** An accepted input that is not written back: the integer 0 with two digits. */
  lemma NotAlwaysWrittenBack()
    ensures var b: Bytes := [INTEGER, ZERO, ZERO, END];
            && Decode(true, b) == Ok((Integer(0), []))
            && Encoded(Integer(0)) != b
  {
    var text: Bytes := [ZERO, ZERO];
    UntilFinds(text, END, []);
    assert [INTEGER, ZERO, ZERO, END][1..] == text + [END] + [];
    assert text[..1] == [ZERO] && [ZERO][..0] == [];
    assert Number([ZERO]) == 0 && Number(text) == 0;
  }
}
