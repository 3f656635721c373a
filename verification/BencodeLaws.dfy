/** Laws of the bencode reader: it is local, its raw slices read back, strict reading
    is a restriction of lenient reading, and what it reads can be written. */
module BencodeLaws {
  import opened Common
  import opened Decimals
  import opened Bencode

  // ---- Locality ----

  // `rest` is the end of `b`.
  ghost predicate Ends(b: Bytes, rest: Bytes) {
    |rest| <= |b| && b == Consumed(b, rest) + rest
  }

  lemma ConsumedOf(c: Bytes, rest: Bytes)
    ensures Ends(c + rest, rest) && Consumed(c + rest, rest) == c
  {
  }

  lemma ConsumedTwice(b: Bytes, mid: Bytes, rest: Bytes, x: Bytes)
    requires Ends(b, mid) && Ends(mid, rest)
    ensures Ends(b, rest)
    ensures Consumed(b, rest) + x == Consumed(b, mid) + (Consumed(mid, rest) + x)
  {
  }

  // A first byte, and a reading of what follows it.
  lemma ConsumedHead(b: Bytes, rest: Bytes, x: Bytes)
    requires b != [] && Ends(b[1..], rest)
    ensures Ends(b, rest)
    ensures Consumed(b, rest) == [b[0]] + Consumed(b[1..], rest)
    ensures var b' := Consumed(b, rest) + x;
            && b' != [] && b'[0] == b[0] && b'[1..] == Consumed(b[1..], rest) + x
            && Ends(b', x) && Consumed(b', x) == Consumed(b, rest)
  {
    ConsumedOf(Consumed(b, rest), x);
  }

  lemma UntilSwap(b: Bytes, stop: Byte, x: Bytes)
    requires Until(b, stop).Some?
    ensures var (text, rest) := Until(b, stop).value;
            Ends(b, rest) && Until(Consumed(b, rest) + x, stop) == Some((text, x))
  {
    UntilSplits(b, stop);
    var (text, rest) := Until(b, stop).value;
    ConsumedOf(text + [stop], rest);
    UntilFinds(text, stop, x);
  }

  lemma ByteStringSwap(b: Bytes, x: Bytes)
    requires DecodeByteString(b).Ok?
    ensures var (bytes, rest) := DecodeByteString(b).value;
            Ends(b, rest) && DecodeByteString(Consumed(b, rest) + x) == Ok((bytes, x))
  {
    var (text, after) := Until(b, COLON).value;
    var n := ParseLength(text).value;
    var bytes, rest := after[..n], after[n..];
    UntilSwap(b, COLON, bytes + x);
    ConsumedOf(bytes, rest);
    ConsumedTwice(b, after, rest, x);
    assert (bytes + x)[..n] == bytes && (bytes + x)[n..] == x;
  }

  /** A successful reading looks only at the bytes it consumes: whatever follows them,
      the same value is read and exactly what follows is left. */
  lemma {:induction false} DecodeSwap(strict: bool, b: Bytes, x: Bytes)
    requires Decode(strict, b).Ok?
    ensures var (v, rest) := Decode(strict, b).value;
            Ends(b, rest) && Decode(strict, Consumed(b, rest) + x) == Ok((v, x))
    decreases |b|, 0
  {
    if IsDigit(b[0]) {
      ByteStringSwap(b, x);
    } else if b[0] == INTEGER {
      UntilSwap(b[1..], END, x);
      ConsumedHead(b, Decode(strict, b).value.1, x);
    } else if b[0] == LIST {
      ItemsSwap(strict, b[1..], [], x);
      ConsumedHead(b, Decode(strict, b).value.1, x);
    } else {
      EntriesSwap(strict, b[1..], [], x);
      ConsumedHead(b, Decode(strict, b).value.1, x);
    }
  }

  lemma {:induction false} ItemsSwap(strict: bool, b: Bytes, items: seq<Value>, x: Bytes)
    requires DecodeItems(strict, b, items).Ok?
    ensures var (all, rest) := DecodeItems(strict, b, items).value;
            Ends(b, rest) && DecodeItems(strict, Consumed(b, rest) + x, items) == Ok((all, x))
    decreases |b|, 1
  {
    var (all, rest) := DecodeItems(strict, b, items).value;
    if b[0] == END {
      assert Consumed(b, rest) == [END] && ([END] + x)[1..] == x;
    } else {
      var (item, mid) := Decode(strict, b).value;
      ItemsSwap(strict, mid, items + [item], x);
      DecodeSwap(strict, b, Consumed(mid, rest) + x);
      ConsumedTwice(b, mid, rest, x);
    }
  }

  lemma {:induction false} EntriesSwap(strict: bool, b: Bytes, entries: seq<Entry>, x: Bytes)
    requires DecodeEntries(strict, b, entries).Ok?
    ensures var (all, rest) := DecodeEntries(strict, b, entries).value;
            Ends(b, rest) && DecodeEntries(strict, Consumed(b, rest) + x, entries) == Ok((all, x))
    decreases |b|, 1
  {
    var (all, rest) := DecodeEntries(strict, b, entries).value;
    if b[0] == END {
      assert Consumed(b, rest) == [END] && ([END] + x)[1..] == x;
    } else {
      var (entry, mid) := DecodeEntry(strict, b).value;
      EntriesSwap(strict, mid, DictInsert(entries, entry.key, entry.value), x);
      EntrySwap(strict, b, Consumed(mid, rest) + x);
      ConsumedTwice(b, mid, rest, x);
    }
  }

  lemma {:induction false} EntrySwap(strict: bool, b: Bytes, x: Bytes)
    requires DecodeEntry(strict, b).Ok?
    ensures var (entry, rest) := DecodeEntry(strict, b).value;
            Ends(b, rest) && DecodeEntry(strict, Consumed(b, rest) + x) == Ok((entry, x))
    decreases |b|, 0
  {
    var (key, mid) := DecodeByteString(b).value;
    var (value, rest) := Decode(strict, mid).value;
    DecodeSwap(strict, mid, x);
    ByteStringSwap(b, Consumed(mid, rest) + x);
    ConsumedTwice(b, mid, rest, x);
  }

  /** Locality as a caller sees it: more input changes nothing but the tail. */
  lemma DecodeIsLocal(strict: bool, b: Bytes, x: Bytes)
    requires Decode(strict, b).Ok?
    ensures var (v, rest) := Decode(strict, b).value; Decode(strict, b + x) == Ok((v, rest + x))
  {
    var (v, rest) := Decode(strict, b).value;
    DecodeSwap(strict, b, rest + x);
    assert Consumed(b, rest) + (rest + x) == b + x;
  }

  // ---- Failures ----

  lemma UntilExtends(b: Bytes, stop: Byte, x: Bytes)
    requires Until(b, stop).Some?
    ensures Until(b + x, stop) == Some((Until(b, stop).value.0, Until(b, stop).value.1 + x))
  {
    var (text, rest) := Until(b, stop).value;
    UntilSwap(b, stop, rest + x);
    assert Consumed(b, rest) + (rest + x) == b + x;
  }

  // Another failure than running out of input.
  ghost predicate Wrong<T>(r: Result<T, Error>) {
    r.Err? && r.error != Incomplete
  }

  lemma ByteStringWrong(b: Bytes, x: Bytes)
    requires Wrong(DecodeByteString(b))
    ensures DecodeByteString(b + x) == DecodeByteString(b)
  {
    UntilExtends(b, COLON, x);
  }

  /** No further input repairs a failure, unless it was that the input ended. */
  lemma {:induction false} WrongStaysWrong(strict: bool, b: Bytes, x: Bytes)
    requires Wrong(Decode(strict, b))
    ensures Decode(strict, b + x) == Decode(strict, b)
    decreases |b|, 0
  {
    assert (b + x)[0] == b[0] && (b + x)[1..] == b[1..] + x;
    if IsDigit(b[0]) {
      ByteStringWrong(b, x);
    } else if b[0] == INTEGER {
      UntilExtends(b[1..], END, x);
    } else if b[0] == LIST {
      ItemsWrong(strict, b[1..], [], x);
    } else if b[0] == DICTIONARY {
      EntriesWrong(strict, b[1..], [], x);
    }
  }

  lemma {:induction false} ItemsWrong(strict: bool, b: Bytes, items: seq<Value>, x: Bytes)
    requires Wrong(DecodeItems(strict, b, items))
    ensures DecodeItems(strict, b + x, items) == DecodeItems(strict, b, items)
    decreases |b|, 1
  {
    assert (b + x)[0] == b[0];
    if Decode(strict, b).Ok? {
      var (item, rest) := Decode(strict, b).value;
      DecodeIsLocal(strict, b, x);
      ItemsWrong(strict, rest, items + [item], x);
    } else {
      WrongStaysWrong(strict, b, x);
    }
  }

  lemma {:induction false} EntriesWrong(strict: bool, b: Bytes, entries: seq<Entry>, x: Bytes)
    requires Wrong(DecodeEntries(strict, b, entries))
    ensures DecodeEntries(strict, b + x, entries) == DecodeEntries(strict, b, entries)
    decreases |b|, 1
  {
    assert (b + x)[0] == b[0];
    if DecodeEntry(strict, b).Ok? {
      var (entry, rest) := DecodeEntry(strict, b).value;
      EntrySwap(strict, b, rest + x);
      assert Consumed(b, rest) + (rest + x) == b + x;
      if !Refuses(strict, entries, entry.key) {
        EntriesWrong(strict, rest, DictInsert(entries, entry.key, entry.value), x);
      }
    } else {
      EntryWrong(strict, b, x);
    }
  }

  lemma {:induction false} EntryWrong(strict: bool, b: Bytes, x: Bytes)
    requires Wrong(DecodeEntry(strict, b))
    ensures DecodeEntry(strict, b + x) == DecodeEntry(strict, b)
    decreases |b|, 0
  {
    if DecodeByteString(b).Ok? {
      var (key, rest) := DecodeByteString(b).value;
      ByteStringSwap(b, rest + x);
      assert Consumed(b, rest) + (rest + x) == b + x;
      WrongStaysWrong(strict, rest, x);
    } else {
      ByteStringWrong(b, x);
    }
  }

  /** No encoding is the beginning of another: every proper prefix of what a reading
      consumes is reported as incomplete. */
  lemma PrefixIsIncomplete(strict: bool, b: Bytes, n: nat)
    requires Decode(strict, b).Ok? && n < |b| - |Decode(strict, b).value.1|
    ensures Decode(strict, b[..n]) == Err(Incomplete)
  {
    var p, x := b[..n], b[n..];
    assert p + x == b;
    if Decode(strict, p).Ok? {
      DecodeIsLocal(strict, p, x);
    } else if Decode(strict, p).error != Incomplete {
      WrongStaysWrong(strict, p, x);
    }
  }

  // ---- Raw slices ----

  /** The raw slice of every list and dictionary in the value, at any depth, reads on
      its own as that very node with nothing left. */
  ghost predicate RawReads(strict: bool, v: Value) {
    match v
    case List(items, raw) =>
      && raw.Some? && Decode(strict, raw.value) == Ok((v, []))
      && forall i :: 0 <= i < |items| ==> RawReads(strict, items[i])
    case Dictionary(entries, raw) =>
      && raw.Some? && Decode(strict, raw.value) == Ok((v, []))
      && forall i :: 0 <= i < |entries| ==> RawReads(strict, entries[i].value)
    case _ => true
  }

  ghost predicate ItemsRead(strict: bool, items: seq<Value>) {
    forall v :: v in items ==> RawReads(strict, v)
  }

  ghost predicate EntriesRead(strict: bool, entries: seq<Entry>) {
    forall e :: e in entries ==> RawReads(strict, e.value)
  }

  lemma {:induction false} InsertMembers(entries: seq<Entry>, key: Bytes, value: Value, e: Entry)
    requires e in DictInsert(entries, key, value)
    ensures e == Entry(key, value) || e in entries
  {
    if entries != [] && !Less(key, entries[0].key) && entries[0].key != key {
      if e != entries[0] {
        InsertMembers(entries[1..], key, value, e);
      }
    }
  }

  lemma {:induction false} DecodedRaw(strict: bool, b: Bytes)
    requires Decode(strict, b).Ok?
    ensures RawReads(strict, Decode(strict, b).value.0)
    decreases |b|, 0
  {
    var (v, rest) := Decode(strict, b).value;
    DecodeSwap(strict, b, []);
    assert Consumed(b, rest) + [] == Consumed(b, rest);
    if v.List? {
      DecodedItemsRaw(strict, b[1..], []);
    } else if v.Dictionary? {
      DecodedEntriesRaw(strict, b[1..], []);
    }
  }

  lemma {:induction false} DecodedItemsRaw(strict: bool, b: Bytes, items: seq<Value>)
    requires DecodeItems(strict, b, items).Ok? && ItemsRead(strict, items)
    ensures ItemsRead(strict, DecodeItems(strict, b, items).value.0)
    decreases |b|, 1
  {
    if b[0] != END {
      var (item, rest) := Decode(strict, b).value;
      DecodedRaw(strict, b);
      DecodedItemsRaw(strict, rest, items + [item]);
    }
  }

  lemma {:induction false} DecodedEntriesRaw(strict: bool, b: Bytes, entries: seq<Entry>)
    requires DecodeEntries(strict, b, entries).Ok? && EntriesRead(strict, entries)
    ensures EntriesRead(strict, DecodeEntries(strict, b, entries).value.0)
    decreases |b|, 1
  {
    if b[0] != END {
      var (entry, rest) := DecodeEntry(strict, b).value;
      DecodedRaw(strict, DecodeByteString(b).value.1);
      var all := DictInsert(entries, entry.key, entry.value);
      forall e | e in all ensures RawReads(strict, e.value) {
        InsertMembers(entries, entry.key, entry.value, e);
      }
      DecodedEntriesRaw(strict, rest, all);
    }
  }

  // ---- Strict and lenient ----

  /** Whatever strict reading accepts, lenient reading reads as the same value, with
      the same slices and the same tail. */
  lemma {:induction false} StrictIsLenient(b: Bytes)
    requires Decode(true, b).Ok?
    ensures Decode(false, b) == Decode(true, b)
    decreases |b|, 0
  {
    if b[0] == LIST {
      StrictItems(b[1..], []);
    } else if b[0] == DICTIONARY {
      StrictEntries(b[1..], []);
    }
  }

  lemma {:induction false} StrictItems(b: Bytes, items: seq<Value>)
    requires DecodeItems(true, b, items).Ok?
    ensures DecodeItems(false, b, items) == DecodeItems(true, b, items)
    decreases |b|, 1
  {
    if b[0] != END {
      var (item, rest) := Decode(true, b).value;
      StrictIsLenient(b);
      StrictItems(rest, items + [item]);
    }
  }

  lemma {:induction false} StrictEntries(b: Bytes, entries: seq<Entry>)
    requires DecodeEntries(true, b, entries).Ok?
    ensures DecodeEntries(false, b, entries) == DecodeEntries(true, b, entries)
    decreases |b|, 1
  {
    if b[0] != END {
      var (entry, rest) := DecodeEntry(true, b).value;
      StrictIsLenient(DecodeByteString(b).value.1);
      StrictEntries(rest, DictInsert(entries, entry.key, entry.value));
    }
  }

  // Strict reading gives the same result, or stops at a key that is not above the last.
  ghost predicate SameOrUnordered<T(!new)>(strictly: Result<T, Error>, leniently: Result<T, Error>) {
    strictly == leniently || (strictly.Err? && strictly.error.NotStrictlyIncreasingDictionaryKey?)
  }

  /** The only thing strict reading refuses more is the order of dictionary keys. */
  lemma {:induction false} StrictRefusesOnlyOrder(b: Bytes)
    ensures SameOrUnordered(Decode(true, b), Decode(false, b))
    decreases |b|, 0
  {
    if b != [] && b[0] == LIST {
      ItemsRefuseOnlyOrder(b[1..], []);
    } else if b != [] && b[0] == DICTIONARY {
      EntriesRefuseOnlyOrder(b[1..], []);
    }
  }

  lemma {:induction false} ItemsRefuseOnlyOrder(b: Bytes, items: seq<Value>)
    ensures SameOrUnordered(DecodeItems(true, b, items), DecodeItems(false, b, items))
    decreases |b|, 1
  {
    if b != [] && b[0] != END {
      StrictRefusesOnlyOrder(b);
      if Decode(true, b).Ok? {
        var (item, rest) := Decode(true, b).value;
        ItemsRefuseOnlyOrder(rest, items + [item]);
      }
    }
  }

  lemma {:induction false} EntriesRefuseOnlyOrder(b: Bytes, entries: seq<Entry>)
    ensures SameOrUnordered(DecodeEntries(true, b, entries), DecodeEntries(false, b, entries))
    decreases |b|, 1
  {
    if b != [] && b[0] != END && DecodeByteString(b).Ok? {
      StrictRefusesOnlyOrder(DecodeByteString(b).value.1);
      if DecodeEntry(true, b).Ok? {
        var (entry, rest) := DecodeEntry(true, b).value;
        EntriesRefuseOnlyOrder(rest, DictInsert(entries, entry.key, entry.value));
      }
    }
  }
}
