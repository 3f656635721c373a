/**
  The grammar of bencode, and that the reader reads exactly it
  (rust/bittorrent/bencode/src/lib.rs).
 */
module BencodeGrammar {
  import opened Common
  import opened Decimals
  import opened Bencode
  import opened BencodeLaws
  import opened BencodeRoundTrips

  // ---- Numbers ----

  function Pow10(n: nat): nat {
    if n == 0 then 1 else 10 * Pow10(n - 1)
  }

  ghost predicate AreDigits(s: Bytes) {
    s != [] && forall i :: 0 <= i < |s| ==> 48 <= s[i] <= 57
  }

  /** Positional notation, the most significant digit first. */
  function DecimalValue(s: Bytes): int {
    if s == [] then 0 else (s[0] - 48) * Pow10(|s| - 1) + DecimalValue(s[1..])
  }

  /** A length: digits, possibly after a plus, below 2^64. */
  ghost predicate IsLength(text: Bytes, n: nat) {
    exists digits ::
      && AreDigits(digits) && (text == digits || text == [43] + digits)
      && n == DecimalValue(digits) < 0x1_0000_0000_0000_0000
  }

  /** An integer: digits, possibly after a sign, in the range of 64 bits. */
  ghost predicate IsInteger(text: Bytes, i: int) {
    && -0x8000_0000_0000_0000 <= i < 0x8000_0000_0000_0000
    && exists digits ::
      && AreDigits(digits)
      && (((text == digits || text == [43] + digits) && i == DecimalValue(digits))
          || (text == [45] + digits && i == -DecimalValue(digits)))
  }

  lemma {:induction false} DecimalSnoc(s: Bytes, c: Byte)
    ensures DecimalValue(s + [c]) == DecimalValue(s) * 10 + (c - 48)
  {
    var all := s + [c];
    if s == [] {
      assert all[1..] == [] && Pow10(0) == 1;
    } else {
      DecimalSnoc(s[1..], c);
      assert all[1..] == s[1..] + [c];
      assert Pow10(|s|) == 10 * Pow10(|s| - 1);
      assert (s[0] - 48) * (10 * Pow10(|s| - 1)) == (s[0] - 48) * Pow10(|s| - 1) * 10;
    }
  }

  lemma {:induction false} NumberIsDecimal(s: Bytes)
    requires AllDigits(s)
    ensures Number(s) == DecimalValue(s)
  {
    if s != [] {
      var init, last := s[..|s| - 1], s[|s| - 1];
      assert s == init + [last] && last in s;
      NumberIsDecimal(init);
      DecimalSnoc(init, last);
    }
  }

  lemma DigitsAre(s: Bytes)
    ensures s != [] && AllDigits(s) <==> AreDigits(s)
  {
    if AreDigits(s) {
      forall c | c in s ensures IsDigit(c) {
        var i :| 0 <= i < |s| && s[i] == c;
      }
    }
    if s != [] && AllDigits(s) {
      forall i | 0 <= i < |s| ensures 48 <= s[i] <= 57 {
        assert s[i] in s;
      }
    }
  }

  lemma ParsesLength(text: Bytes, n: nat)
    ensures ParseLength(text) == Some(n) <==> IsLength(text, n)
  {
    var body := if text != [] && text[0] == PLUS then text[1..] else text;
    DigitsAre(body);
    if ParseLength(text) == Some(n) {
      NumberIsDecimal(body);
      assert text == body || text == [43] + body;
    }
    if IsLength(text, n) {
      var digits :| AreDigits(digits) && (text == digits || text == [43] + digits)
                    && n == DecimalValue(digits) < 0x1_0000_0000_0000_0000;
      assert body == digits;
      NumberIsDecimal(body);
    }
  }

  lemma ParsesInteger(text: Bytes, i: int)
    ensures ParseInteger(text) == Some(i) <==> IsInteger(text, i)
  {
    var signed := text != [] && (text[0] == PLUS || text[0] == MINUS);
    var body := if signed then text[1..] else text;
    DigitsAre(body);
    if ParseInteger(text) == Some(i) {
      NumberIsDecimal(body);
      assert text == body || text == [43] + body || text == [45] + body;
    }
    if IsInteger(text, i) {
      var digits :|
        && AreDigits(digits)
        && (((text == digits || text == [43] + digits) && i == DecimalValue(digits))
            || (text == [45] + digits && i == -DecimalValue(digits)));
      assert body == digits;
      NumberIsDecimal(body);
    }
  }

  // ---- Keys ----

  /** Byte strings in the order of a dictionary: the first difference decides, and a
      prefix comes first. */
  ghost predicate LexLess(a: Bytes, b: Bytes) {
    exists k :: DifferAt(a, b, k)
  }

  ghost predicate DifferAt(a: Bytes, b: Bytes, k: nat) {
    k <= |a| && k < |b| && a[..k] == b[..k] && (k == |a| || a[k] < b[k])
  }

  lemma {:induction false} LessIsLex(a: Bytes, b: Bytes)
    ensures Less(a, b) <==> LexLess(a, b)
  {
    if b != [] && (a == [] || a[0] < b[0]) {
      assert DifferAt(a, b, 0);
    } else if a != [] && b != [] && a[0] == b[0] {
      LessIsLex(a[1..], b[1..]);
      if k: nat :| DifferAt(a[1..], b[1..], k) {
        assert a == [a[0]] + a[1..] && b == [b[0]] + b[1..];
        assert a[..k + 1] == [a[0]] + a[1..][..k] && b[..k + 1] == [b[0]] + b[1..][..k];
        assert DifferAt(a, b, k + 1);
      }
      if k: nat :| DifferAt(a, b, k) {
        HeadsDiffer(a, b, k);
      }
    } else if k: nat :| DifferAt(a, b, k) {
      FirstBytes(a, b, k);
    }
  }

  lemma FirstBytes(a: Bytes, b: Bytes, k: nat)
    requires DifferAt(a, b, k)
    ensures b != [] && (a == [] || a[0] <= b[0])
  {
    if k > 0 {
      assert a[..k][0] == b[..k][0];
    }
  }

  lemma HeadsDiffer(a: Bytes, b: Bytes, k: nat)
    requires DifferAt(a, b, k) && a != [] && b != [] && a[0] == b[0]
    ensures LexLess(a[1..], b[1..])
  {
    assert a[1..][..k - 1] == a[..k][1..] && b[1..][..k - 1] == b[..k][1..];
    assert DifferAt(a[1..], b[1..], k - 1);
  }

  // ---- Values ----

  /** How a value is spelled, with the texts of all its numbers and the pairs of its
      dictionaries as they stand. */
  datatype Syntax =
    | Str(length: Bytes, bytes: Bytes)
    | Num(text: Bytes)
    | Items(items: seq<Syntax>)
    | Pairs(pairs: seq<Pair>)

  datatype Pair = Pair(length: Bytes, key: Bytes, value: Syntax)

  function Spelled(t: Syntax): Bytes {
    match t
    case Str(length, bytes) => length + [58] + bytes
    case Num(text) => [105] + text + [101]
    case Items(items) => [108] + SpelledItems(items) + [101]
    case Pairs(pairs) => [100] + SpelledPairs(pairs) + [101]
  }

  function SpelledItems(items: seq<Syntax>): Bytes {
    if items == [] then [] else Spelled(items[0]) + SpelledItems(items[1..])
  }

  function SpelledPairs(pairs: seq<Pair>): Bytes {
    if pairs == [] then [] else SpelledPair(pairs[0]) + SpelledPairs(pairs[1..])
  }

  function SpelledPair(p: Pair): Bytes {
    p.length + [58] + p.key + Spelled(p.value)
  }

  /** All numbers are well spelled.  The length of a value, unlike that of a key, cannot
      begin with a plus. */
  ghost predicate WellSpelled(t: Syntax) {
    match t
    case Str(length, bytes) => IsLength(length, |bytes|) && length[0] != 43
    case Num(text) => exists i :: IsInteger(text, i)
    case Items(items) => forall x :: x in items ==> WellSpelled(x)
    case Pairs(pairs) => forall p :: p in pairs ==> IsLength(p.length, |p.key|) && WellSpelled(p.value)
  }

  ghost predicate KeysAscend(pairs: seq<Pair>) {
    forall i, j :: 0 <= i < j < |pairs| ==> LexLess(pairs[i].key, pairs[j].key)
  }

  /** In all dictionaries the keys ascend as they stand. */
  ghost predicate Ascending(t: Syntax) {
    match t
    case Items(items) => forall x :: x in items ==> Ascending(x)
    case Pairs(pairs) => KeysAscend(pairs) && forall p :: p in pairs ==> Ascending(p.value)
    case _ => true
  }

  /** The last pair with this key. */
  ghost predicate IsLast(pairs: seq<Pair>, j: nat, key: Bytes) {
    j < |pairs| && pairs[j].key == key && forall k :: j < k < |pairs| ==> pairs[k].key != key
  }

  /** The value that is spelled, raw slices included; of pairs with the same key the last
      one counts. */
  ghost predicate Denotes(t: Syntax, v: Value) {
    match t
    case Str(_, bytes) => v == ByteString(bytes)
    case Num(text) => v.Integer? && IsInteger(text, v.number)
    case Items(items) =>
      && v.List? && v.raw == Some(Spelled(t)) && |v.items| == |items|
      && forall k :: 0 <= k < |items| ==> Denotes(items[k], v.items[k])
    case Pairs(pairs) => v.Dictionary? && v.raw == Some(Spelled(t)) && Holds(pairs, v.entries)
  }

  ghost predicate Holds(pairs: seq<Pair>, entries: seq<Entry>) {
    && (forall i, j :: 0 <= i < j < |entries| ==> LexLess(entries[i].key, entries[j].key))
    && (forall e :: e in entries ==> Counts(pairs, e))
    && (forall p :: p in pairs ==> HasKey(entries, p.key))
  }

  ghost predicate HasKey(entries: seq<Entry>, key: Bytes) {
    exists e :: e in entries && e.key == key
  }

  ghost predicate Counts(pairs: seq<Pair>, e: Entry) {
    exists j: nat :: IsLast(pairs, j, e.key) && Denotes(pairs[j].value, e.value)
  }

  // ---- Dictionaries ----

  lemma {:induction false} InsertExactly(entries: seq<Entry>, key: Bytes, value: Value, e: Entry)
    requires Increasing(entries)
    ensures e in DictInsert(entries, key, value) <==> e == Entry(key, value) || (e in entries && e.key != key)
  {
    if entries != [] {
      var head, tail := entries[0], entries[1..];
      assert entries == [head] + tail;
      IncreasingTail(entries);
      LessTotal(key, head.key);
      if Less(key, head.key) {
        InsertedAbove(entries, key);
        NoneBelow(entries, key, e);
      } else if head.key == key {
        NoneBelow(tail, key, e);
      } else {
        InsertExactly(tail, key, value, e);
      }
    }
  }

  lemma NoneBelow(entries: seq<Entry>, key: Bytes, e: Entry)
    requires AllAbove(entries, key)
    ensures e in entries ==> e.key != key
  {
    LessTotal(key, key);
  }

  lemma IncreasingIsLex(entries: seq<Entry>)
    ensures Increasing(entries) <==>
            forall i, j :: 0 <= i < j < |entries| ==> LexLess(entries[i].key, entries[j].key)
  {
    forall i, j | 0 <= i < j < |entries|
      ensures Less(entries[i].key, entries[j].key) <==> LexLess(entries[i].key, entries[j].key)
    {
      LessIsLex(entries[i].key, entries[j].key);
    }
  }

  lemma CountsLater(pairs: seq<Pair>, p: Pair, e: Entry)
    requires Counts(pairs, e) && e.key != p.key
    ensures Counts(pairs + [p], e)
  {
    var all := pairs + [p];
    var j: nat :| IsLast(pairs, j, e.key) && Denotes(pairs[j].value, e.value);
    assert all[j] == pairs[j] && IsLast(all, j, e.key);
  }

  /** Reading one more pair. */
  lemma HoldsMore(pairs: seq<Pair>, entries: seq<Entry>, p: Pair, v: Value)
    requires Holds(pairs, entries) && Denotes(p.value, v)
    ensures Holds(pairs + [p], DictInsert(entries, p.key, v))
  {
    var all, entries' := pairs + [p], DictInsert(entries, p.key, v);
    IncreasingIsLex(entries);
    InsertUpdates(entries, p.key, v, p.key);
    IncreasingIsLex(entries');
    forall e | e in entries' ensures Counts(all, e) {
      InsertExactly(entries, p.key, v, e);
      if e == Entry(p.key, v) {
        assert IsLast(all, |pairs|, e.key) && all[|pairs|] == p;
      } else {
        CountsLater(pairs, p, e);
      }
    }
    forall q | q in all ensures HasKey(entries', q.key) {
      var e := Entry(p.key, v);
      if q.key != p.key {
        assert q in pairs && HasKey(entries, q.key);
        e :| e in entries && e.key == q.key;
      }
      InsertExactly(entries, p.key, v, e);
    }
  }

  lemma AscendMore(pairs: seq<Pair>, p: Pair)
    ensures KeysAscend(pairs + [p]) <==> KeysAscend(pairs) && forall q :: q in pairs ==> LexLess(q.key, p.key)
  {
    var all := pairs + [p];
    assert forall i :: 0 <= i < |pairs| ==> all[i] == pairs[i];
    if KeysAscend(all) {
      forall q | q in pairs ensures LexLess(q.key, p.key) {
        var i :| 0 <= i < |pairs| && pairs[i] == q;
        assert LexLess(all[i].key, all[|pairs|].key);
      }
      assert forall i, j :: 0 <= i < j < |pairs| ==> LexLess(all[i].key, all[j].key);
    }
  }

  lemma BelowLast(pairs: seq<Pair>, entries: seq<Entry>, q: Pair)
    requires Holds(pairs, entries) && q in pairs
    ensures entries != []
    ensures var last := entries[|entries| - 1]; q.key == last.key || Less(q.key, last.key)
  {
    assert HasKey(entries, q.key);
    var e :| e in entries && e.key == q.key;
    var i :| 0 <= i < |entries| && entries[i] == e;
    IncreasingIsLex(entries);
  }

  lemma LastDecides(pairs: seq<Pair>, entries: seq<Entry>, key: Bytes)
    requires Holds(pairs, entries) && entries != []
    ensures Less(entries[|entries| - 1].key, key) <==> forall q :: q in pairs ==> LexLess(q.key, key)
  {
    var last := entries[|entries| - 1];
    if Less(last.key, key) {
      forall q | q in pairs ensures LexLess(q.key, key) {
        BelowLast(pairs, entries, q);
        if q.key != last.key {
          LessTransitive(q.key, last.key, key);
        }
        LessIsLex(q.key, key);
      }
    } else {
      assert last in entries && Counts(pairs, last);
      var j: nat :| IsLast(pairs, j, last.key) && Denotes(pairs[j].value, last.value);
      LessIsLex(last.key, key);
      assert pairs[j] in pairs;
    }
  }

  /** Strict reading looks at the greatest key so far, and so at all of them. */
  lemma RefusesExactly(strict: bool, pairs: seq<Pair>, entries: seq<Entry>, p: Pair)
    requires Holds(pairs, entries) && (strict ==> KeysAscend(pairs))
    ensures Refuses(strict, entries, p.key) <==> strict && !KeysAscend(pairs + [p])
  {
    AscendMore(pairs, p);
    if entries == [] {
      NoPairs(pairs, entries);
    } else {
      LastDecides(pairs, entries, p.key);
    }
  }

  lemma NoPairs(pairs: seq<Pair>, entries: seq<Entry>)
    requires Holds(pairs, entries) && entries == []
    ensures pairs == []
  {
    assert !HasKey(entries, if pairs == [] then [] else pairs[0].key);
  }

  // ---- What is spelled is read ----

  ghost predicate Unordered<T>(r: Result<T, Error>) {
    r.Err? && r.error.NotStrictlyIncreasingDictionaryKey?
  }

  lemma LengthHasNoColon(length: Bytes, n: nat)
    requires IsLength(length, n)
    ensures 58 !in length && length != [] && (length[0] == 43 || IsDigit(length[0]))
  {
    var digits :| AreDigits(digits) && (length == digits || length == [43] + digits)
                  && n == DecimalValue(digits) < 0x1_0000_0000_0000_0000;
  }

  lemma BytesSpelled(length: Bytes, bytes: Bytes, rest: Bytes)
    requires IsLength(length, |bytes|)
    ensures DecodeByteString(length + [58] + bytes + rest) == Ok((bytes, rest))
  {
    LengthHasNoColon(length, |bytes|);
    ParsesLength(length, |bytes|);
    UntilFinds(length, COLON, bytes + rest);
    assert length + [58] + bytes + rest == length + [58] + (bytes + rest);
    assert (bytes + rest)[..|bytes|] == bytes && (bytes + rest)[|bytes|..] == rest;
  }

  lemma IntegerHasNoEnd(text: Bytes, i: int)
    requires IsInteger(text, i)
    ensures 101 !in text
  {
    var digits :|
      && AreDigits(digits)
      && (((text == digits || text == [43] + digits) && i == DecimalValue(digits))
          || (text == [45] + digits && i == -DecimalValue(digits)));
    assert 101 !in digits;
  }

  lemma NumSpelled(strict: bool, text: Bytes, i: int, rest: Bytes)
    requires IsInteger(text, i)
    ensures Decode(strict, Spelled(Num(text)) + rest) == Ok((Integer(i), rest))
  {
    IntegerHasNoEnd(text, i);
    ParsesInteger(text, i);
    UntilFinds(text, END, rest);
    var b := Spelled(Num(text)) + rest;
    assert b[0] == INTEGER && b[1..] == text + [END] + rest;
  }

  lemma SpelledStarts(t: Syntax)
    requires WellSpelled(t)
    ensures Spelled(t) != [] && Spelled(t)[0] != END
    ensures t.Str? <==> IsDigit(Spelled(t)[0])
  {
    if t.Str? {
      LengthHasNoColon(t.length, |t.bytes|);
    }
  }

  lemma WrappedItems(strict: bool, items: seq<Syntax>, rest: Bytes, r: Result<(seq<Value>, Bytes), Error>)
    requires r == DecodeItems(strict, SpelledItems(items) + ([101] + rest), [])
    ensures Unordered(r) ==> Unordered(Decode(strict, Spelled(Items(items)) + rest))
    ensures r.Ok? && r.value.1 == rest ==>
              Decode(strict, Spelled(Items(items)) + rest)
              == Ok((List(r.value.0, Some(Spelled(Items(items)))), rest))
  {
    var b := Spelled(Items(items)) + rest;
    assert b[0] == LIST && b[1..] == SpelledItems(items) + ([101] + rest);
    ConsumedOf(Spelled(Items(items)), rest);
  }

  lemma WrappedPairs(strict: bool, pairs: seq<Pair>, rest: Bytes, r: Result<(seq<Entry>, Bytes), Error>)
    requires r == DecodeEntries(strict, SpelledPairs(pairs) + ([101] + rest), [])
    ensures Unordered(r) ==> Unordered(Decode(strict, Spelled(Pairs(pairs)) + rest))
    ensures r.Ok? && r.value.1 == rest ==>
              Decode(strict, Spelled(Pairs(pairs)) + rest)
              == Ok((Dictionary(r.value.0, Some(Spelled(Pairs(pairs)))), rest))
  {
    var b := Spelled(Pairs(pairs)) + rest;
    assert b[0] == DICTIONARY && b[1..] == SpelledPairs(pairs) + ([101] + rest);
    ConsumedOf(Spelled(Pairs(pairs)), rest);
  }

  lemma StrSpelled(strict: bool, length: Bytes, bytes: Bytes, rest: Bytes)
    requires WellSpelled(Str(length, bytes))
    ensures Decode(strict, Spelled(Str(length, bytes)) + rest) == Ok((ByteString(bytes), rest))
  {
    SpelledStarts(Str(length, bytes));
    assert (Spelled(Str(length, bytes)) + rest)[0] == Spelled(Str(length, bytes))[0];
    BytesSpelled(length, bytes, rest);
  }

  /** Whatever is well spelled is read, and nothing else is touched; strict reading wants
      the keys in order. */
  lemma {:induction false} ReadsSpelled(strict: bool, t: Syntax, rest: Bytes) returns (v: Value)
    requires WellSpelled(t)
    ensures !strict || Ascending(t) ==> Decode(strict, Spelled(t) + rest) == Ok((v, rest)) && Denotes(t, v)
    ensures strict && !Ascending(t) ==> Unordered(Decode(strict, Spelled(t) + rest))
    decreases t, 0
  {
    match t {
      case Str(length, bytes) =>
        StrSpelled(strict, length, bytes, rest);
        v := ByteString(bytes);
      case Num(text) =>
        var i :| IsInteger(text, i);
        NumSpelled(strict, text, i, rest);
        v := Integer(i);
      case Items(items) =>
        var vs := ItemsSpelled(strict, items, [], rest);
        assert [] + vs == vs;
        WrappedItems(strict, items, rest, DecodeItems(strict, SpelledItems(items) + ([101] + rest), []));
        v := List(vs, Some(Spelled(t)));
      case Pairs(pairs) =>
        assert [] + pairs == pairs;
        var entries := PairsSpelled(strict, [], pairs, [], rest);
        WrappedPairs(strict, pairs, rest, DecodeEntries(strict, SpelledPairs(pairs) + ([101] + rest), []));
        v := Dictionary(entries, Some(Spelled(t)));
    }
  }

  ghost predicate AllAscend(items: seq<Syntax>) {
    forall x :: x in items ==> Ascending(x)
  }

  ghost predicate AllDenote(items: seq<Syntax>, vs: seq<Value>) {
    |vs| == |items| && forall k :: 0 <= k < |items| ==> Denotes(items[k], vs[k])
  }

  lemma {:induction false} ItemsSpelled(strict: bool, items: seq<Syntax>, done: seq<Value>, rest: Bytes)
      returns (vs: seq<Value>)
    requires forall x :: x in items ==> WellSpelled(x)
    ensures var r := DecodeItems(strict, SpelledItems(items) + ([101] + rest), done);
            if !strict || AllAscend(items) then r == Ok((done + vs, rest)) && AllDenote(items, vs) else Unordered(r)
    decreases items, 1
  {
    if items == [] {
      vs := [];
      LoopEnds(strict, done, [], rest);
      assert SpelledItems(items) + ([101] + rest) == [END] + rest && done + [] == done;
    } else {
      var x, later := items[0], SpelledItems(items[1..]) + ([101] + rest);
      SpelledStarts(x);
      assert items == [x] + items[1..];
      ConcatBytes(Spelled(x), SpelledItems(items[1..]), [101] + rest);
      var v := ReadsSpelled(strict, x, later);
      var more := ItemsSpelled(strict, items[1..], done + [v], rest);
      vs := [v] + more;
      assert done + [v] + more == done + vs;
    }
  }

  ghost predicate ValuesAscend(pairs: seq<Pair>) {
    forall p :: p in pairs ==> Ascending(p.value)
  }

  lemma {:induction false} PairSpelled(strict: bool, p: Pair, later: Bytes) returns (v: Value)
    requires IsLength(p.length, |p.key|) && WellSpelled(p.value)
    ensures SpelledPair(p) != [] && SpelledPair(p)[0] != END
    ensures var r := DecodeEntry(strict, SpelledPair(p) + later);
            if !strict || Ascending(p.value) then r == Ok((Entry(p.key, v), later)) && Denotes(p.value, v)
            else Unordered(r)
    decreases p, 1
  {
    LengthHasNoColon(p.length, |p.key|);
    BytesSpelled(p.length, p.key, Spelled(p.value) + later);
    ConcatBytes(p.length + [58] + p.key, Spelled(p.value), later);
    v := ReadsSpelled(strict, p.value, later);
  }

  lemma AscendFirst(pairs: seq<Pair>, more: seq<Pair>)
    ensures KeysAscend(pairs + more) ==> KeysAscend(pairs)
  {
    assert forall i :: 0 <= i < |pairs| ==> (pairs + more)[i] == pairs[i];
  }

  lemma EntriesStep(strict: bool, first: Bytes, later: Bytes, entries: seq<Entry>)
    requires first != [] && first[0] != END
    ensures var b, r := first + later, DecodeEntry(strict, first + later);
            && (Unordered(r) ==> Unordered(DecodeEntries(strict, b, entries)))
            && (r.Ok? && r.value.1 == later ==>
                  var e := r.value.0;
                  if Refuses(strict, entries, e.key) then Unordered(DecodeEntries(strict, b, entries))
                  else DecodeEntries(strict, b, entries)
                       == DecodeEntries(strict, later, DictInsert(entries, e.key, e.value)))
  {
    assert (first + later)[0] == first[0];
  }

  /** What reading these pairs, after those before, should come to. */
  ghost predicate ReadsPairs(strict: bool, before: seq<Pair>, pairs: seq<Pair>, entries: seq<Entry>, rest: Bytes,
                             all: seq<Entry>) {
    var r := DecodeEntries(strict, SpelledPairs(pairs) + ([101] + rest), entries);
    if !strict || (KeysAscend(before + pairs) && ValuesAscend(pairs))
    then r == Ok((all, rest)) && Holds(before + pairs, all) else Unordered(r)
  }

  lemma FirstPair(strict: bool, before: seq<Pair>, p: Pair, more: seq<Pair>, entries: seq<Entry>, rest: Bytes,
                  v: Value, all: seq<Entry>)
    requires SpelledPair(p) != [] && SpelledPair(p)[0] != END
    requires var r := DecodeEntry(strict, SpelledPair(p) + (SpelledPairs(more) + ([101] + rest)));
             if !strict || Ascending(p.value)
             then r == Ok((Entry(p.key, v), SpelledPairs(more) + ([101] + rest))) else Unordered(r)
    requires !strict || Ascending(p.value) ==>
               if Refuses(strict, entries, p.key) then strict && !KeysAscend(before + [p])
               else ReadsPairs(strict, before + [p], more, DictInsert(entries, p.key, v), rest, all)
    ensures ReadsPairs(strict, before, [p] + more, entries, rest, all)
  {
    OneMorePair(before, p, more);
    var later := SpelledPairs(more) + ([101] + rest);
    assert ([p] + more)[1..] == more;
    ConcatBytes(SpelledPair(p), SpelledPairs(more), [101] + rest);
    EntriesStep(strict, SpelledPair(p), later, entries);
  }

  lemma {:induction false} PairsSpelled(strict: bool, before: seq<Pair>, pairs: seq<Pair>, entries: seq<Entry>,
                                        rest: Bytes) returns (all: seq<Entry>)
    requires Holds(before, entries) && (strict ==> KeysAscend(before))
    requires forall p :: p in pairs ==> IsLength(p.length, |p.key|) && WellSpelled(p.value)
    ensures ReadsPairs(strict, before, pairs, entries, rest, all)
    decreases pairs, 1
  {
    all := entries;
    if pairs == [] {
      LoopEnds(strict, [], entries, rest);
      assert SpelledPairs(pairs) + ([101] + rest) == [END] + rest && before + pairs == before;
    } else {
      var p, more := pairs[0], pairs[1..];
      assert pairs == [p] + more;
      var v := PairSpelled(strict, p, SpelledPairs(more) + ([101] + rest));
      if !strict || Ascending(p.value) {
        RefusesExactly(strict, before, entries, p);
        if !Refuses(strict, entries, p.key) {
          HoldsMore(before, entries, p, v);
          all := PairsSpelled(strict, before + [p], more, DictInsert(entries, p.key, v), rest);
        }
      }
      FirstPair(strict, before, p, more, entries, rest, v, all);
    }
  }

  lemma OneMorePair(before: seq<Pair>, p: Pair, more: seq<Pair>)
    ensures before + ([p] + more) == before + [p] + more
    ensures KeysAscend(before + ([p] + more)) ==> KeysAscend(before + [p])
    ensures ValuesAscend([p] + more) <==> Ascending(p.value) && ValuesAscend(more)
  {
    assert before + ([p] + more) == before + [p] + more;
    AscendFirst(before + [p], more);
    assert p in [p] + more && forall q :: q in more ==> q in [p] + more;
  }

  // ---- What is read is spelled ----

  lemma UnspellBytes(b: Bytes) returns (length: Bytes)
    requires DecodeByteString(b).Ok?
    ensures var (bytes, rest) := DecodeByteString(b).value;
            IsLength(length, |bytes|) && b == length + [58] + bytes + rest
  {
    var (text, after) := Until(b, COLON).value;
    UntilSplits(b, COLON);
    length := text;
    var n: nat := ParseLength(text).value;
    ParsesLength(text, n);
    assert after == after[..n] + after[n..];
  }

  lemma UnspellStr(b: Bytes) returns (t: Syntax)
    requires Decode(false, b).Ok? && IsDigit(b[0])
    ensures WellSpelled(t) && b == Spelled(t) + Decode(false, b).value.1
  {
    var length := UnspellBytes(b);
    var bytes := DecodeByteString(b).value.0;
    LengthHasNoColon(length, |bytes|);
    t := Str(length, bytes);
  }

  lemma NumText(b: Bytes) returns (text: Bytes)
    requires Decode(false, b).Ok? && b[0] == INTEGER
    ensures ParseInteger(text).Some? && b == [105] + (text + [101] + Decode(false, b).value.1)
  {
    UntilSplits(b[1..], END);
    text := Until(b[1..], END).value.0;
    assert b == [b[0]] + b[1..];
  }

  lemma UnspellNum(b: Bytes) returns (t: Syntax)
    requires Decode(false, b).Ok? && b[0] == INTEGER
    ensures WellSpelled(t) && b == Spelled(t) + Decode(false, b).value.1
  {
    var text := NumText(b);
    ParsesInteger(text, ParseInteger(text).value);
    t := Num(text);
    WrappedText(105, text, Decode(false, b).value.1);
  }

  lemma WrappedText(c: Byte, text: Bytes, rest: Bytes)
    ensures [c] + (text + [101] + rest) == [c] + text + [101] + rest
  {
  }

  lemma {:induction false} Unspell(b: Bytes) returns (t: Syntax)
    requires Decode(false, b).Ok?
    ensures WellSpelled(t) && b == Spelled(t) + Decode(false, b).value.1
    decreases |b|, 0
  {
    var (v, rest) := Decode(false, b).value;
    assert b == [b[0]] + b[1..];
    if IsDigit(b[0]) {
      t := UnspellStr(b);
    } else if b[0] == INTEGER {
      t := UnspellNum(b);
    } else if b[0] == LIST {
      var items := UnspellItems(b[1..], []);
      t := Items(items);
      assert [108] + (SpelledItems(items) + ([101] + rest)) == Spelled(t) + rest;
    } else {
      var pairs := UnspellPairs(b[1..], []);
      t := Pairs(pairs);
      assert [100] + (SpelledPairs(pairs) + ([101] + rest)) == Spelled(t) + rest;
    }
  }

  lemma {:induction false} UnspellItems(b: Bytes, before: seq<Value>) returns (items: seq<Syntax>)
    requires DecodeItems(false, b, before).Ok?
    ensures forall x :: x in items ==> WellSpelled(x)
    ensures b == SpelledItems(items) + ([101] + DecodeItems(false, b, before).value.1)
    decreases |b|, 1
  {
    items := [];
    if b[0] == END {
      assert b == [END] + b[1..];
    } else {
      var x := Unspell(b);
      var (item, later) := Decode(false, b).value;
      var more := UnspellItems(later, before + [item]);
      items := [x] + more;
      assert items[1..] == more;
      ConcatBytes(Spelled(x), SpelledItems(more), [101] + DecodeItems(false, b, before).value.1);
    }
  }

  lemma {:induction false} UnspellPairs(b: Bytes, entries: seq<Entry>) returns (pairs: seq<Pair>)
    requires DecodeEntries(false, b, entries).Ok?
    ensures forall p :: p in pairs ==> IsLength(p.length, |p.key|) && WellSpelled(p.value)
    ensures b == SpelledPairs(pairs) + ([101] + DecodeEntries(false, b, entries).value.1)
    decreases |b|, 1
  {
    pairs := [];
    if b[0] == END {
      assert b == [END] + b[1..];
    } else {
      var p := UnspellPair(b);
      var (e, later) := DecodeEntry(false, b).value;
      var more := UnspellPairs(later, DictInsert(entries, e.key, e.value));
      pairs := [p] + more;
      assert pairs[1..] == more;
      ConcatBytes(SpelledPair(p), SpelledPairs(more), [101] + DecodeEntries(false, b, entries).value.1);
    }
  }

  lemma {:induction false} UnspellPair(b: Bytes) returns (p: Pair)
    requires DecodeEntry(false, b).Ok?
    ensures IsLength(p.length, |p.key|) && WellSpelled(p.value)
    ensures b == SpelledPair(p) + DecodeEntry(false, b).value.1
    decreases |b|, 0
  {
    var (key, after) := DecodeByteString(b).value;
    var length := UnspellBytes(b);
    var t := Unspell(after);
    p := Pair(length, key, t);
    ConcatBytes(length + [58] + key, Spelled(t), DecodeEntry(false, b).value.1);
  }

  /** The text spells the value, for strict reading with ascending keys. */
  ghost predicate Spells(strict: bool, t: Syntax, v: Value) {
    WellSpelled(t) && (strict ==> Ascending(t)) && Denotes(t, v)
  }

  lemma ReadIsSpelled(strict: bool, b: Bytes) returns (t: Syntax)
    requires Decode(strict, b).Ok?
    ensures var (v, rest) := Decode(strict, b).value; Spells(strict, t, v) && b == Spelled(t) + rest
  {
    if strict {
      StrictIsLenient(b);
    }
    t := Unspell(b);
    var v := ReadsSpelled(strict, t, Decode(strict, b).value.1);
  }

  /** What is written is spelled in the grammar, with ascending keys, and denotes the
      value written. */
  lemma WritesGrammar(v: Value) returns (t: Syntax)
    requires Encodable(v)
    ensures Encoded(v) == Spelled(t) && Spells(true, t, WithRaw(v))
  {
    RoundTrip(true, v, []);
    assert Encoded(v) + [] == Encoded(v);
    t := ReadIsSpelled(true, Encoded(v));
    assert Spelled(t) + [] == Spelled(t);
  }

  // ---- A text denotes one value ----

  lemma InTail(entries: seq<Entry>, e: Entry)
    requires Increasing(entries) && entries != []
    ensures e in entries[1..] <==> e in entries && e != entries[0]
  {
    IncreasingTail(entries);
    NoneBelow(entries[1..], entries[0].key, e);
    assert entries == [entries[0]] + entries[1..];
  }

  lemma HasSome(entries: seq<Entry>)
    ensures entries != [] ==> exists e :: e in entries
  {
    if entries != [] {
      assert entries[0] in entries;
    }
  }

  lemma {:induction false} SameEntries(a: seq<Entry>, b: seq<Entry>)
    requires Increasing(a) && Increasing(b) && forall e :: e in a <==> e in b
    ensures a == b
  {
    if a == [] {
      HasSome(b);
    } else {
      assert a[0] in b;
      SameFirst(a, b);
      IncreasingTail(a);
      IncreasingTail(b);
      forall e ensures e in a[1..] <==> e in b[1..] {
        InTail(a, e);
        InTail(b, e);
      }
      SameEntries(a[1..], b[1..]);
    }
  }

  lemma SameFirst(a: seq<Entry>, b: seq<Entry>)
    requires Increasing(a) && Increasing(b) && a != [] && b != [] && a[0] in b && b[0] in a
    ensures a[0] == b[0]
  {
    IncreasingTail(a);
    IncreasingTail(b);
    if a[0] != b[0] {
      assert b[0] in a[1..] && a[0] in b[1..];
      LessTotal(a[0].key, b[0].key);
    }
  }

  lemma {:induction false} DenotesOnce(t: Syntax, v: Value, w: Value)
    requires Denotes(t, v) && Denotes(t, w)
    ensures v == w
    decreases t, 1
  {
    match t {
      case Str(_, _) =>
      case Num(text) =>
        ParsesInteger(text, v.number);
        ParsesInteger(text, w.number);
      case Items(items) =>
        forall k | 0 <= k < |items| ensures v.items[k] == w.items[k] {
          DenotesOnce(items[k], v.items[k], w.items[k]);
        }
        assert v.items == w.items;
      case Pairs(pairs) =>
        forall e | e in v.entries ensures e in w.entries {
          HoldsOnce(t, pairs, v.entries, w.entries, e);
        }
        forall e | e in w.entries ensures e in v.entries {
          HoldsOnce(t, pairs, w.entries, v.entries, e);
        }
        IncreasingIsLex(v.entries);
        IncreasingIsLex(w.entries);
        SameEntries(v.entries, w.entries);
    }
  }

  lemma {:induction false} HoldsOnce(t: Syntax, pairs: seq<Pair>, a: seq<Entry>, b: seq<Entry>, e: Entry)
    requires t == Pairs(pairs) && Holds(pairs, a) && Holds(pairs, b) && e in a
    ensures e in b
    decreases t, 0
  {
    assert Counts(pairs, e);
    var j: nat :| IsLast(pairs, j, e.key) && Denotes(pairs[j].value, e.value);
    assert pairs[j] in pairs && HasKey(b, pairs[j].key);
    var f :| f in b && f.key == e.key;
    assert Counts(pairs, f);
    var k: nat :| IsLast(pairs, k, f.key) && Denotes(pairs[k].value, f.value);
    assert j == k;
    DenotesOnce(pairs[j].value, e.value, f.value);
  }

  /** The reader reads exactly the grammar: a value and a rest are read if and only if the
      input is a text that spells the value, followed by the rest. */
  lemma ReadsExactly(strict: bool, b: Bytes, v: Value, rest: Bytes)
    ensures Decode(strict, b) == Ok((v, rest)) <==> exists t :: Spells(strict, t, v) && b == Spelled(t) + rest
  {
    if Decode(strict, b) == Ok((v, rest)) {
      var t := ReadIsSpelled(strict, b);
    }
    if t :| Spells(strict, t, v) && b == Spelled(t) + rest {
      var w := ReadsSpelled(strict, t, rest);
      DenotesOnce(t, v, w);
    }
  }

  /** Of a well-spelled text, which lenient reading always accepts, strict reading accepts
      exactly the one whose keys ascend as they stand. */
  lemma StrictExactly(t: Syntax, rest: Bytes)
    requires WellSpelled(t)
    ensures Decode(false, Spelled(t) + rest).Ok?
    ensures Decode(true, Spelled(t) + rest).Ok? <==> Ascending(t)
  {
    var v := ReadsSpelled(false, t, rest);
    var w := ReadsSpelled(true, t, rest);
  }

  // ---- Whole buffers ----

  /** A buffer is one value exactly when a text that spells the value begins it; for strict
      reading, when it is all of the buffer. */
  lemma TryFromExactly(strict: bool, b: Bytes, v: Value)
    ensures TryFrom(strict, b) == Ok(v) <==>
            exists t, rest :: Spells(strict, t, v) && b == Spelled(t) + rest && (strict ==> rest == [])
  {
    if TryFrom(strict, b) == Ok(v) {
      ReadsExactly(strict, b, v, Decode(strict, b).value.1);
    }
    if t, rest :| Spells(strict, t, v) && b == Spelled(t) + rest && (strict ==> rest == []) {
      ReadsExactly(strict, b, v, rest);
    }
  }

  // ---- Failures ----

  /** How a byte string fails: no colon, no length before the first one, or too few bytes
      after it. */
  lemma BytesFail(b: Bytes, text: Bytes, rest: Bytes)
    ensures DecodeByteString(b) == Err(Incomplete) <== 58 !in b
    ensures b == text + [58] + rest && 58 !in text ==>
              && ((forall n: nat :: !IsLength(text, n)) ==> DecodeByteString(b) == Err(InvalidByteStringLength(text)))
              && (forall n: nat :: IsLength(text, n) && |rest| < n ==> DecodeByteString(b) == Err(Incomplete))
  {
    UntilSplits(b, COLON);
    if b == text + [58] + rest && 58 !in text {
      UntilFinds(text, COLON, rest);
      var r := ParseLength(text);
      if r.Some? {
        ParsesLength(text, r.value);
      }
      forall n: nat | IsLength(text, n) ensures r == Some(n) {
        ParsesLength(text, n);
      }
    }
  }

  /** How an integer fails: no closing byte, or no integer before the first one. */
  lemma IntegerFails(strict: bool, text: Bytes, rest: Bytes)
    requires 101 !in text
    ensures Decode(strict, [105] + text) == Err(Incomplete)
    ensures (forall i :: !IsInteger(text, i)) ==>
              Decode(strict, [105] + text + [101] + rest) == Err(InvalidInteger(text))
  {
    UntilSplits(text, END);
    assert ([105] + text)[1..] == text;
    UntilFinds(text, END, rest);
    assert ([105] + text + [101] + rest)[1..] == text + [END] + rest;
    var r := ParseInteger(text);
    if r.Some? {
      ParsesInteger(text, r.value);
    }
  }

  /** No value begins with any other byte. */
  lemma OtherBytesFail(strict: bool, c: Byte, rest: Bytes)
    requires !(48 <= c <= 57) && c != 105 && c != 108 && c != 100
    ensures Decode(strict, [c] + rest) == Err(InvalidValueType(c)) && Decode(strict, []) == Err(Incomplete)
  {
  }

  // ---- Owned values ----

  /** Owned values carry no slices, and are written like the borrowed ones. */
  lemma {:induction false} OwnedIsPlain(v: Value)
    ensures HasNoRaw(ToOwned(v)) && Encoded(ToOwned(v)) == Encoded(v)
    decreases v, 0
  {
    match v {
      case List(items, _) => OwnedItems(items);
      case Dictionary(entries, _) => OwnedEntries(entries);
      case _ =>
    }
  }

  ghost predicate HasNoRaw(v: Value) {
    match v
    case List(items, raw) => raw.None? && forall x :: x in items ==> HasNoRaw(x)
    case Dictionary(entries, raw) => raw.None? && forall e :: e in entries ==> HasNoRaw(e.value)
    case _ => true
  }

  lemma {:induction false} OwnedItems(items: seq<Value>)
    ensures forall x :: x in ItemsToOwned(items) ==> HasNoRaw(x)
    ensures EncodedItems(ItemsToOwned(items)) == EncodedItems(items)
    decreases items, 1
  {
    if items != [] {
      OwnedIsPlain(items[0]);
      OwnedItems(items[1..]);
      assert ItemsToOwned(items)[1..] == ItemsToOwned(items[1..]);
    }
  }

  lemma {:induction false} OwnedEntries(entries: seq<Entry>)
    ensures forall e :: e in EntriesToOwned(entries) ==> HasNoRaw(e.value)
    ensures EncodedEntries(EntriesToOwned(entries)) == EncodedEntries(entries)
    decreases entries, 1
  {
    if entries != [] {
      OwnedIsPlain(entries[0].value);
      OwnedEntries(entries[1..]);
      assert EntriesToOwned(entries)[1..] == EntriesToOwned(entries[1..]);
    }
  }
}
