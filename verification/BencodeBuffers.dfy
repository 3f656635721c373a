/** The bencode reader and writer as they work on a buffer. */
module BencodeBuffers {
  import opened Common
  import opened Decimals
  import opened Bencode
  import opened BencodeRoundTrips
  import opened BencodeIdentity

  /** The bytes not yet read, or those written so far. */
  class Buffer {
    var data: Bytes

    constructor (data: Bytes)
      ensures this.data == data
    {
      this.data := data;
    }

    method PeekByte() returns (r: Result<Byte, Error>)
      ensures r == if data == [] then Err(Incomplete) else Ok(data[0])
    {
      r := if data == [] then Err(Incomplete) else Ok(data[0]);
    }

    method GetSlice(n: nat) returns (slice: Bytes)
      requires n <= |data|
      modifies this
      ensures slice == old(data)[..n] && data == old(data)[n..]
    {
      slice := data[..n];
      data := data[n..];
    }

    method Advance(n: nat)
      requires n <= |data|
      modifies this
      ensures data == old(data)[n..]
    {
      data := data[n..];
    }

    /** The slice before the first `stop`, which is dropped too; nothing moves when
        there is none. */
    method GetSliceUntilStrip(stop: Byte) returns (r: Option<Bytes>)
      modifies this
      ensures match Until(old(data), stop)
              case None => r == None && data == old(data)
              case Some((text, rest)) => r == Some(text) && data == rest
    {
      var i := 0;
      while i < |data| && data[i] != stop
        invariant 0 <= i <= |data| && data == old(data)
        invariant stop !in data[..i]
      {
        i := i + 1;
      }
      UntilSplits(data, stop);
      if i == |data| {
        assert data[..i] == data;
        return None;
      }
      UntilFinds(data[..i], stop, data[i + 1..]);
      assert data[..i] + [stop] + data[i + 1..] == data;
      r := Some(data[..i]);
      data := data[i + 1..];
    }
  }

  method ReadByteString(buffer: Buffer) returns (r: Result<Bytes, Error>)
    modifies buffer
    ensures match DecodeByteString(old(buffer.data))
            case Err(e) => r == Err(e)
            case Ok((bytes, rest)) => r == Ok(bytes) && buffer.data == rest
  {
    var text := buffer.GetSliceUntilStrip(COLON);
    if text.None? {
      return Err(Incomplete);
    }
    var length := ParseLength(text.value);
    if length.None? {
      return Err(InvalidByteStringLength(text.value));
    }
    if |buffer.data| < length.value {
      return Err(Incomplete);
    }
    var bytes := buffer.GetSlice(length.value);
    r := Ok(bytes);
  }

  /** Reads one value and moves the buffer past it. */
  method Read(strict: bool, buffer: Buffer) returns (r: Result<Value, Error>)
    modifies buffer
    ensures match Decode(strict, old(buffer.data))
            case Err(e) => r == Err(e)
            case Ok((v, rest)) => r == Ok(v) && buffer.data == rest
    decreases |buffer.data|, 0
  {
    var first := buffer.PeekByte();
    if first.Err? {
      return Err(first.error);
    }
    if IsDigit(first.value) {
      var bytes := ReadByteString(buffer);
      r := if bytes.Ok? then Ok(ByteString(bytes.value)) else Err(bytes.error);
    } else if first.value == INTEGER {
      r := ReadInteger(buffer);
    } else if first.value == LIST {
      var buf := new Buffer(buffer.data);
      buf.Advance(1);
      var items := ReadItems(strict, buf);
      if items.Err? {
        return Err(items.error);
      }
      var raw := buffer.GetSlice(|buffer.data| - |buf.data|);
      SuffixIs(strict, old(buffer.data));
      r := Ok(List(items.value, Some(raw)));
    } else if first.value == DICTIONARY {
      var buf := new Buffer(buffer.data);
      buf.Advance(1);
      var entries := ReadEntries(strict, buf);
      if entries.Err? {
        return Err(entries.error);
      }
      var raw := buffer.GetSlice(|buffer.data| - |buf.data|);
      SuffixIs(strict, old(buffer.data));
      r := Ok(Dictionary(entries.value, Some(raw)));
    } else {
      r := Err(InvalidValueType(first.value));
    }
  }

  lemma SuffixIs(strict: bool, b: Bytes)
    requires Decode(strict, b).Ok?
    ensures var rest := Decode(strict, b).value.1; b[|b| - |rest|..] == rest
  {
    BencodeLaws.DecodeSwap(strict, b, []);
  }

  method ReadInteger(buffer: Buffer) returns (r: Result<Value, Error>)
    requires buffer.data != []
    modifies buffer
    ensures match DecodeInteger(old(buffer.data)[1..])
            case Err(e) => r == Err(e)
            case Ok((v, rest)) => r == Ok(v) && buffer.data == rest
  {
    buffer.Advance(1);
    var text := buffer.GetSliceUntilStrip(END);
    if text.None? {
      return Err(Incomplete);
    }
    var i := ParseInteger(text.value);
    r := if i.Some? then Ok(Integer(i.value)) else Err(InvalidInteger(text.value));
  }

  /** The loop of a list, up to and including the closing `e`. */
  method ReadItems(strict: bool, buf: Buffer) returns (r: Result<seq<Value>, Error>)
    modifies buf
    ensures match DecodeItems(strict, old(buf.data), [])
            case Err(e) => r == Err(e)
            case Ok((items, rest)) => r == Ok(items) && buf.data == rest
    decreases |buf.data|, 1
  {
    var items: seq<Value> := [];
    var next := buf.PeekByte();
    while next.Ok? && next.value != END
      invariant next == if buf.data == [] then Err(Incomplete) else Ok(buf.data[0])
      invariant DecodeItems(strict, buf.data, items) == DecodeItems(strict, old(buf.data), [])
      invariant |buf.data| <= |old(buf.data)|
      decreases |buf.data|
    {
      var item := Read(strict, buf);
      if item.Err? {
        return Err(item.error);
      }
      items := items + [item.value];
      next := buf.PeekByte();
    }
    if next.Err? {
      return Err(next.error);
    }
    buf.Advance(1);
    r := Ok(items);
  }

  /** The loop of a dictionary, up to and including the closing `e`. */
  method ReadEntries(strict: bool, buf: Buffer) returns (r: Result<seq<Entry>, Error>)
    modifies buf
    ensures match DecodeEntries(strict, old(buf.data), [])
            case Err(e) => r == Err(e)
            case Ok((entries, rest)) => r == Ok(entries) && buf.data == rest
    decreases |buf.data|, 1
  {
    var entries: seq<Entry> := [];
    var next := buf.PeekByte();
    while next.Ok? && next.value != END
      invariant next == if buf.data == [] then Err(Incomplete) else Ok(buf.data[0])
      invariant DecodeEntries(strict, buf.data, entries) == DecodeEntries(strict, old(buf.data), [])
      invariant |buf.data| <= |old(buf.data)|
      decreases |buf.data|
    {
      var entry := ReadEntry(strict, buf);
      if entry.Err? {
        return Err(entry.error);
      }
      var Entry(key, value) := entry.value;
      if Refuses(strict, entries, key) {
        return Err(NotStrictlyIncreasingDictionaryKey(entries[|entries| - 1].key, key));
      }
      entries := DictInsert(entries, key, value);
      next := buf.PeekByte();
    }
    if next.Err? {
      return Err(next.error);
    }
    buf.Advance(1);
    r := Ok(entries);
  }

  method ReadEntry(strict: bool, buf: Buffer) returns (r: Result<Entry, Error>)
    modifies buf
    ensures match DecodeEntry(strict, old(buf.data))
            case Err(e) => r == Err(e)
            case Ok((entry, rest)) => r == Ok(entry) && buf.data == rest
    decreases |buf.data|, 0
  {
    var key := ReadByteString(buf);
    if key.Err? {
      return Err(key.error);
    }
    var value := Read(strict, buf);
    r := if value.Ok? then Ok(Entry(key.value, value.value)) else Err(value.error);
  }

  // ---- Writing ----

  method WriteByteString(bytes: Bytes, buffer: Buffer)
    modifies buffer
    ensures buffer.data == old(buffer.data) + EncodedBytes(bytes)
  {
    buffer.data := buffer.data + Digits(|bytes|);
    buffer.data := buffer.data + [COLON];
    buffer.data := buffer.data + bytes;
  }

  /** Appends the encoding of the value. */
  method Write(v: Value, buffer: Buffer)
    modifies buffer
    ensures buffer.data == old(buffer.data) + Encoded(v)
    decreases v, 0
  {
    match v {
      case ByteString(bytes) =>
        WriteByteString(bytes, buffer);
      case Integer(i) =>
        buffer.data := buffer.data + [INTEGER];
        buffer.data := buffer.data + PrintInteger(i);
        buffer.data := buffer.data + [END];
        Appended(old(buffer.data), INTEGER, PrintInteger(i));
      case List(items, _) =>
        buffer.data := buffer.data + [LIST];
        WriteItems(items, buffer);
        buffer.data := buffer.data + [END];
        Appended(old(buffer.data), LIST, EncodedItems(items));
      case Dictionary(entries, _) =>
        buffer.data := buffer.data + [DICTIONARY];
        WriteEntries(entries, buffer);
        buffer.data := buffer.data + [END];
        Appended(old(buffer.data), DICTIONARY, EncodedEntries(entries));
    }
  }

  lemma Appended(before: Bytes, c: Byte, inside: Bytes)
    ensures before + [c] + inside + [END] == before + ([c] + inside + [END])
  {
  }

  method WriteItems(items: seq<Value>, buffer: Buffer)
    modifies buffer
    ensures buffer.data == old(buffer.data) + EncodedItems(items)
    decreases items, 1
  {
    for i := 0 to |items|
      invariant buffer.data == old(buffer.data) + EncodedItems(items[..i])
    {
      Write(items[i], buffer);
      EncodedItemsAppend(items[..i], items[i]);
      assert items[..i] + [items[i]] == items[..i + 1];
      ConcatBytes(old(buffer.data), EncodedItems(items[..i]), Encoded(items[i]));
    }
    assert items[..|items|] == items;
  }

  method WriteEntries(entries: seq<Entry>, buffer: Buffer)
    modifies buffer
    ensures buffer.data == old(buffer.data) + EncodedEntries(entries)
    decreases entries, 1
  {
    for i := 0 to |entries|
      invariant buffer.data == old(buffer.data) + EncodedEntries(entries[..i])
    {
      ghost var before := buffer.data;
      WriteByteString(entries[i].key, buffer);
      Write(entries[i].value, buffer);
      ConcatBytes(before, EncodedBytes(entries[i].key), Encoded(entries[i].value));
      EncodedEntriesAppend(entries[..i], entries[i]);
      assert entries[..i] + [entries[i]] == entries[..i + 1];
      ConcatBytes(old(buffer.data), EncodedEntries(entries[..i]), EncodedEntry(entries[i]));
    }
    assert entries[..|entries|] == entries;
  }
}
