/**
  Delimited slices and decimal numbers, as the bencode reader and writer use them
  (rust/bittorrent/bencode/src/lib.rs and the buffer helpers of rust/g1/bytes/src/lib.rs).
 */
module Decimals {
  import opened Common

  type Byte = x: int | 0 <= x < 256
  type Bytes = seq<Byte>

  const PLUS: Byte := 43
  const MINUS: Byte := 45
  const ZERO: Byte := 48

  const LENGTH_BOUND: int := 0x1_0000_0000_0000_0000
  const INTEGER_BOUND: int := 0x8000_0000_0000_0000

  // ---- Slices up to a delimiter ----

  /** The bytes before the first `stop` and those after it. */
  function Until(b: Bytes, stop: Byte): Option<(Bytes, Bytes)> {
    if b == [] then None
    else if b[0] == stop then Some(([], b[1..]))
    else match Until(b[1..], stop)
      case None => None
      case Some((x, rest)) => Some(([b[0]] + x, rest))
  }

  /** What is found is the slice before the first delimiter. */
  lemma {:induction false} UntilSplits(b: Bytes, stop: Byte)
    ensures Until(b, stop).None? <==> stop !in b
    ensures Until(b, stop).Some? ==>
              var (x, rest) := Until(b, stop).value; b == x + [stop] + rest && stop !in x
  {
    if b != [] && b[0] != stop {
      UntilSplits(b[1..], stop);
      assert b == [b[0]] + b[1..];
    }
  }

  lemma {:induction false} UntilFinds(x: Bytes, stop: Byte, rest: Bytes)
    requires stop !in x
    ensures Until(x + [stop] + rest, stop) == Some((x, rest))
  {
    var b := x + [stop] + rest;
    if x == [] {
      assert b[1..] == rest;
    } else {
      UntilFinds(x[1..], stop, rest);
      assert b[0] == x[0] && b[1..] == x[1..] + [stop] + rest;
      assert [x[0]] + x[1..] == x;
    }
  }

  // ---- Reading numbers ----

  predicate IsDigit(c: Byte) {
    ZERO <= c < ZERO + 10
  }

  predicate AllDigits(s: Bytes) {
    forall c :: c in s ==> IsDigit(c)
  }

  function Number(s: Bytes): (n: int)
    requires AllDigits(s)
    ensures n >= 0
  {
    if s == [] then 0
    else
      var last := s[|s| - 1];
      assert last in s;
      Number(s[..|s| - 1]) * 10 + (last - ZERO)
  }

  function ParseDigits(s: Bytes): Option<int> {
    if s != [] && AllDigits(s) then Some(Number(s)) else None
  }

  function InRange(n: Option<int>, low: int, high: int): Option<int> {
    if n.Some? && low <= n.value < high then n else None
  }

  /** A 64-bit length: an optional plus and digits. */
  function ParseLength(s: Bytes): (r: Option<int>)
    ensures r.Some? ==> 0 <= r.value < LENGTH_BOUND
  {
    InRange(ParseDigits(if s != [] && s[0] == PLUS then s[1..] else s), 0, LENGTH_BOUND)
  }

  /** A 64-bit signed integer: an optional sign and digits. */
  function ParseInteger(s: Bytes): (r: Option<int>)
    ensures r.Some? ==> -INTEGER_BOUND <= r.value < INTEGER_BOUND
  {
    if s != [] && s[0] == MINUS then
      match ParseDigits(s[1..])
      case None => None
      case Some(n) => InRange(Some(-n), -INTEGER_BOUND, INTEGER_BOUND)
    else
      InRange(ParseDigits(if s != [] && s[0] == PLUS then s[1..] else s), -INTEGER_BOUND, INTEGER_BOUND)
  }

  // ---- Writing numbers ----

  function Digits(n: nat): Bytes {
    if n < 10 then [ZERO + n] else Digits(n / 10) + [ZERO + n % 10]
  }

  function PrintInteger(i: int): Bytes {
    if i < 0 then [MINUS] + Digits(-i) else Digits(i)
  }

  lemma {:induction false} DigitsRead(n: nat)
    ensures Digits(n) != [] && AllDigits(Digits(n)) && Number(Digits(n)) == n
    ensures Digits(n)[0] == ZERO ==> n == 0
  {
    var s := Digits(n);
    if n < 10 {
      assert s[..0] == [];
    } else {
      DigitsRead(n / 10);
      assert s[..|s| - 1] == Digits(n / 10);
    }
  }

  lemma LengthRoundTrip(n: nat)
    requires n < LENGTH_BOUND
    ensures ParseLength(Digits(n)) == Some(n)
  {
    DigitsRead(n);
    assert Digits(n)[0] in Digits(n);
  }

  lemma IntegerRoundTrip(i: int)
    requires -INTEGER_BOUND <= i < INTEGER_BOUND
    ensures ParseInteger(PrintInteger(i)) == Some(i)
  {
    if i < 0 {
      DigitsRead(-i);
      assert PrintInteger(i)[1..] == Digits(-i);
    } else {
      DigitsRead(i);
      assert Digits(i)[0] in Digits(i);
    }
  }

  // ---- Which texts are the printed ones ----

  predicate NoLeadingZero(s: Bytes) {
    s == [ZERO] || (s != [] && s[0] != ZERO)
  }

  lemma {:induction false} ValueOfNonzero(s: Bytes)
    requires AllDigits(s) && s != [] && s[0] != ZERO
    ensures Number(s) > 0 && Digits(Number(s)) == s
  {
    var init, last := s[..|s| - 1], s[|s| - 1];
    assert s == init + [last] && last in s && s[0] in s;
    if init == [] {
      assert Number(init) == 0;
    } else {
      ValueOfNonzero(init);
      assert Number(s) / 10 == Number(init) && Number(s) % 10 == last - ZERO;
    }
  }

  /** A length is written back as the same text exactly when it has no plus and no
      leading zero. */
  lemma LengthTextExactly(s: Bytes)
    requires ParseLength(s).Some?
    ensures Digits(ParseLength(s).value) == s <==> PlainLength(s)
  {
    var n := ParseLength(s).value;
    DigitsRead(n);
    if s[0] == PLUS {
      assert PLUS !in Digits(n);
    } else if s == [ZERO] {
      assert s[..0] == [] && Number(s) == 0;
    } else if s[0] != ZERO {
      ValueOfNonzero(s);
    } else {
      assert n == 0 ==> |Digits(n)| == 1;
    }
  }

  predicate PlainLength(s: Bytes) {
    s != [] && s[0] != PLUS && NoLeadingZero(s)
  }

  predicate PlainInteger(s: Bytes) {
    if s != [] && s[0] == MINUS then |s| > 1 && s[1] != ZERO else PlainLength(s)
  }

  /** A number that reads is written back as the same text exactly when it has no
      plus, no leading zero and is not a negative zero. */
  lemma IntegerTextExactly(s: Bytes)
    requires ParseInteger(s).Some?
    ensures PrintInteger(ParseInteger(s).value) == s <==> PlainInteger(s)
  {
    var i := ParseInteger(s).value;
    if s[0] == MINUS {
      MinusText(s);
    } else if s[0] == PLUS {
      DigitsRead(i);
      assert PLUS !in Digits(i);
    } else {
      DigitsRead(i);
      if NoLeadingZero(s) {
        if s[0] == ZERO {
          assert s[..0] == [] && Number(s) == 0;
        } else {
          ValueOfNonzero(s);
        }
      } else {
        assert i == 0 ==> |PrintInteger(i)| == 1;
      }
    }
  }

  lemma MinusText(s: Bytes)
    requires ParseInteger(s).Some? && s[0] == MINUS
    ensures |s| > 1
    ensures PrintInteger(ParseInteger(s).value) == s <==> s[1] != ZERO
  {
    var i, d := ParseInteger(s).value, s[1..];
    assert s == [MINUS] + d && d != [];
    if d[0] != ZERO {
      ValueOfNonzero(d);
    } else if i < 0 {
      DigitsRead(-i);
      assert PrintInteger(i)[1..] == Digits(-i);
    } else {
      assert PrintInteger(i)[0] == ZERO;
    }
  }
}
