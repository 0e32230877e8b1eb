/** Integers in and out of text: the backwards digit buffer of the writers and the reader's
    overflow-guarded accumulator. */
module JsonNumber {
  import opened Common
  import opened JsonText
  import opened JsonValue

  const TWO63: int := 0x8000_0000_0000_0000
  const TWO64: int := 0x1_0000_0000_0000_0000
  const MAX_INT: int := 0x7FFF_FFFF

  // --- The text of an integer ---

  function Digits(n: nat): (s: Bytes)
    ensures |s| >= 1
  {
    if n < 10 then [ZERO + n] else Digits(n / 10) + [ZERO + n % 10]
  }

  function IntText(i: int): Bytes {
    if i < 0 then [MINUS] + Digits(-i) else Digits(i)
  }

  ghost predicate AllDigits(s: Bytes) {
    forall i | 0 <= i < |s| :: IsDigit(s[i])
  }

  // The number a digit string denotes.
  function Decimal(s: Bytes): nat
    requires AllDigits(s)
  {
    if s == [] then 0 else 10 * Decimal(s[..|s| - 1]) + (s[|s| - 1] - ZERO)
  }

  function Pow10(k: nat): nat {
    if k == 0 then 1 else 10 * Pow10(k - 1)
  }

  lemma {:induction false} DigitsDenote(n: nat)
    ensures AllDigits(Digits(n)) && Decimal(Digits(n)) == n
  {
    if n >= 10 {
      DigitsDenote(n / 10);
      assert Digits(n)[..|Digits(n)| - 1] == Digits(n / 10);
    } else {
      assert Digits(n)[..0] == [];
    }
  }

  lemma {:induction false} DigitsLength(n: nat, k: nat)
    requires n < Pow10(k) && k > 0
    ensures |Digits(n)| <= k
  {
    if n >= 10 {
      DigitsLength(n / 10, k - 1);
    }
  }

  // The buffer of 25 characters holds any 64-bit number, its sign and its terminator.
  lemma BufferIsLargeEnough(n: nat)
    requires n < TWO64
    ensures |Digits(n)| <= 20
  {
    assert Pow10(5) == 100_000;
    assert Pow10(10) == 100_000 * 100_000;
    assert Pow10(15) == 100_000 * 100_000 * 100_000;
    assert Pow10(20) == 100_000 * 100_000 * 100_000 * 100_000;
    DigitsLength(n, 20);
  }

  const BUFFER_SIZE: nat := 25

  // *--current = c
  method PutBefore(buffer: array<Byte>, current: nat, end: nat, c: Byte) returns (next: nat)
    requires 0 < current <= end <= buffer.Length
    modifies buffer
    ensures next == current - 1 && buffer[next..end] == [c] + old(buffer[current..end])
    ensures forall i | 0 <= i < buffer.Length && i != next :: buffer[i] == old(buffer[i])
  {
    next := current - 1;
    buffer[next] := c;
  }

  lemma DigitsStep(value: nat, done: Bytes)
    ensures Digits(value) + done ==
      (if value < 10 then [] else Digits(value / 10)) + ([ZERO + value % 10] + done)
  {
    var rest := if value < 10 then [] else Digits(value / 10);
    assert Digits(value) == rest + [ZERO + value % 10];
  }

  // Writes a terminator and then the digits of value from the last to the first, going down.
  method UIntToString(value0: nat, buffer: array<Byte>, current0: nat) returns (current: nat)
    requires |Digits(value0)| + 1 <= current0 <= buffer.Length
    modifies buffer
    ensures current == current0 - 1 - |Digits(value0)|
    ensures buffer[current..current0] == Digits(value0) + [0]
    ensures forall i | 0 <= i < buffer.Length && !(current <= i < current0) :: buffer[i] == old(buffer[i])
  {
    var value := value0;
    current := PutBefore(buffer, current0, current0, 0);
    ghost var done: Bytes := [];
    while true
      invariant Digits(value) + done == Digits(value0) && current == current0 - 1 - |done| && |done| < current0 - 1
      invariant buffer[current..current0] == done + [0]
      invariant forall i | 0 <= i < buffer.Length && !(current <= i < current0) :: buffer[i] == old(buffer[i])
      decreases value
    {
      DigitsStep(value, done);
      current := PutBefore(buffer, current, current0, ZERO + value % 10);
      assert [ZERO + value % 10] + (done + [0]) == ([ZERO + value % 10] + done) + [0];
      done := [ZERO + value % 10] + done;
      value := value / 10;
      if value == 0 {
        assert [] + done == done;
        break;
      }
    }
  }

  // Two's complement reading of a 64-bit pattern, which is how -value behaves on the smallest integer.
  function Wrap64(x: int): int {
    var r := x % TWO64;
    if r >= TWO63 then r - TWO64 else r
  }

  // The magnitude of a signed 64-bit integer, as an unsigned one.
  lemma WrapNegates(x: int)
    requires -TWO63 <= x < TWO63
    ensures (if x < 0 then Wrap64(-x) else x) % TWO64 == if x < 0 then -x else x
  {
  }

  // The string constructed from a terminated buffer.
  method TerminatedAt(buffer: array<Byte>, current: nat, ghost text: Bytes) returns (s: Bytes)
    requires current < buffer.Length == BUFFER_SIZE && buffer[current..BUFFER_SIZE] == text + [0]
    ensures s == text
  {
    s := buffer[current..BUFFER_SIZE - 1];
    assert s == buffer[current..BUFFER_SIZE][..|text|];
  }

  method ValueToString(value0: int) returns (s: Bytes)
    requires -TWO63 <= value0 < TWO63
    ensures s == IntText(value0)
  {
    var value := value0;
    var buffer := new Byte[BUFFER_SIZE](_ => 0);
    var isNegative := value < 0;
    WrapNegates(value0);
    if isNegative {
      value := Wrap64(-value);
    }
    hide Wrap64, Digits;
    var unsigned := value % TWO64;
    BufferIsLargeEnough(unsigned);
    var current := UIntToString(unsigned, buffer, BUFFER_SIZE);
    if isNegative {
      current := PutBefore(buffer, current, BUFFER_SIZE, MINUS);
      assert [MINUS] + (Digits(unsigned) + [0]) == ([MINUS] + Digits(unsigned)) + [0];
    }
    s := TerminatedAt(buffer, current, IntText(value0));
  }

  method ValueToStringUnsigned(value: nat) returns (s: Bytes)
    requires value < TWO64
    ensures s == IntText(value)
  {
    var buffer := new Byte[BUFFER_SIZE](_ => 0);
    BufferIsLargeEnough(value);
    var current := UIntToString(value, buffer, BUFFER_SIZE);
    s := TerminatedAt(buffer, current, IntText(value));
  }

  // --- Reading ---

  datatype Decoded = Number(v: Json) | AsDouble | NotANumber

  datatype Scanned = Exact(value: nat) | TooLarge | BadDigit

  predicate MarksDouble(text: Bytes, i: nat)
    requires i < |text|
  {
    text[i] == DOT || text[i] == 101 || text[i] == 69 || text[i] == PLUS || (text[i] == MINUS && i > 0)
  }

  predicate LooksDouble(text: Bytes) {
    exists i | 0 <= i < |text| :: MarksDouble(text, i)
  }

  // The accumulating loop, with the guard that keeps value * 10 + digit within max.
  function Scan(rest: Bytes, value: nat, max: nat): Scanned {
    if rest == [] then Exact(value)
    else if !IsDigit(rest[0]) then BadDigit
    else
      var digit := rest[0] - ZERO;
      if value >= max / 10 && (value > max / 10 || |rest| > 1 || digit > max % 10) then TooLarge
      else Scan(rest[1..], value * 10 + digit, max)
  }

  function Limit(negative: bool): nat {
    if negative then TWO63 else TWO64 - 1
  }

  // The type and sign the decoded value gets.
  function Typed(negative: bool, value: nat): Json {
    if negative then Int(Wrap64(-Wrap64(value)))
    else if value <= MAX_INT then Int(value)
    else UInt(value)
  }

  function DecodeText(text: Bytes): Decoded
    requires text != []
  {
    if LooksDouble(text) then AsDouble else
    var negative := text[0] == MINUS;
    match Scan(if negative then text[1..] else text, 0, Limit(negative))
    case Exact(value) => Number(Typed(negative, value))
    case TooLarge => AsDouble
    case BadDigit => NotANumber
  }

  method DecodeInteger(doc: Bytes, start: nat, end: nat) returns (r: Decoded)
    requires start < end <= |doc|
    ensures r == DecodeText(doc[start..end])
  {
    ghost var text := doc[start..end];
    var isDouble := false;
    var inspect := start;
    while inspect != end
      invariant start <= inspect <= end
      invariant isDouble <==> exists i | 0 <= i < inspect - start :: MarksDouble(text, i)
    {
      var c := doc[inspect];
      assert text[inspect - start] == c;
      isDouble := isDouble || c == DOT || c == 101 || c == 69 || c == PLUS || (c == MINUS && inspect != start);
      assert MarksDouble(text, inspect - start) || !MarksDouble(text, inspect - start);
      inspect := inspect + 1;
    }
    if isDouble {
      return AsDouble;
    }
    var current := start;
    var isNegative := doc[current] == MINUS;
    if isNegative {
      current := current + 1;
    }
    var maxIntegerValue := if isNegative then Wrap64(TWO63) % TWO64 else TWO64 - 1;
    var threshold := maxIntegerValue / 10;
    var value := 0;
    ghost var scanned := Scan(doc[current..end], 0, maxIntegerValue);
    assert doc[current..end] == if isNegative then text[1..] else text;
    while current < end
      invariant start <= current <= end && 0 <= value <= maxIntegerValue
      invariant Scan(doc[current..end], value, maxIntegerValue) == scanned
    {
      var c := doc[current];
      assert doc[current..end][0] == c && doc[current..end][1..] == doc[current + 1..end];
      current := current + 1;
      if c < ZERO || c > NINE {
        return NotANumber;
      }
      var digit := c - ZERO;
      if value >= threshold {
        if value > threshold || current != end || digit > maxIntegerValue % 10 {
          return AsDouble;
        }
      }
      // no overflow of the unsigned accumulator
      assert value * 10 + digit < TWO64;
      value := value * 10 + digit;
    }
    r := Number(Typed(isNegative, value));
  }

  // --- Exactness ---

  lemma {:induction false} DecimalAppend(a: Bytes, c: Byte, b: Bytes)
    requires AllDigits(a + [c] + b)
    ensures AllDigits(a + [c]) && AllDigits(a) && Decimal(a + [c]) == 10 * Decimal(a) + (c - ZERO)
    ensures Decimal(a + [c]) <= Decimal(a + [c] + b)
    ensures b != [] ==> 10 * Decimal(a + [c]) <= Decimal(a + [c] + b)
    decreases |b|
  {
    var s := a + [c] + b;
    assert forall i | 0 <= i < |a| + 1 :: (a + [c])[i] == s[i];
    assert forall i | 0 <= i < |a| :: a[i] == s[i];
    assert (a + [c])[..|a|] == a;
    if b == [] {
      assert s == a + [c];
    } else {
      assert s[..|s| - 1] == a + [c] + b[..|b| - 1];
      assert AllDigits(s[..|s| - 1]);
      DecimalAppend(a, c, b[..|b| - 1]);
    }
  }

  // The guard stops exactly the digit strings whose number exceeds max.
  lemma {:induction false} ScanIsExact(done: Bytes, rest: Bytes, max: nat)
    requires AllDigits(done + rest) && AllDigits(done) && Decimal(done) <= max && max >= 10
    ensures Scan(rest, Decimal(done), max)
      == if Decimal(done + rest) <= max then Exact(Decimal(done + rest)) else TooLarge
    decreases |rest|
  {
    if rest == [] {
      assert done + rest == done;
    } else {
      var c, tail := rest[0], rest[1..];
      assert done + rest == done + [c] + tail;
      assert (done + rest)[|done|] == c;
      DecimalAppend(done, c, tail);
      var value, digit := Decimal(done), c - ZERO;
      if value >= max / 10 && (value > max / 10 || |rest| > 1 || digit > max % 10) {
        assert Decimal(done + rest) > max;
      } else {
        ScanIsExact(done + [c], tail, max);
      }
    }
  }

  ghost function Denoted(negative: bool, digits: Bytes): int
    requires AllDigits(digits)
  {
    var value: int := Decimal(digits);
    if negative then -value else value
  }

  // The integer type the reader settles on.
  function Retyped(i: int): Json {
    if i <= MAX_INT then Int(i) else UInt(i)
  }

  lemma SignedText(negative: bool, digits: Bytes)
    requires AllDigits(digits) && digits != []
    ensures var text := (if negative then [MINUS] else []) + digits;
      && !LooksDouble(text) && (text[0] == MINUS <==> negative)
      && (if negative then text[1..] else text) == digits
  {
    var text := (if negative then [MINUS] else []) + digits;
    var k := if negative then 1 else 0;
    assert forall i | 0 <= i < |digits| :: text[k + i] == digits[i];
    forall i | 0 <= i < |text| ensures !MarksDouble(text, i) {
      assert i >= k ==> text[i] == digits[i - k];
    }
  }

  lemma TypedIsExact(negative: bool, value: nat)
    requires value <= Limit(negative)
    ensures Typed(negative, value) == Retyped(if negative then 0 - value else value)
  {
  }

  // An optional minus and digits of any number: exact when in range, a double exactly when not.
  lemma DecodingIsExact(negative: bool, digits: Bytes)
    requires AllDigits(digits) && digits != []
    ensures DecodeText((if negative then [MINUS] else []) + digits) ==
      if -TWO63 <= Denoted(negative, digits) < TWO64 then Number(Retyped(Denoted(negative, digits))) else AsDouble
  {
    var text := (if negative then [MINUS] else []) + digits;
    SignedText(negative, digits);
    ScanIsExact([], digits, Limit(negative));
    assert [] + digits == digits;
    if Decimal(digits) <= Limit(negative) {
      TypedIsExact(negative, Decimal(digits));
    }
  }

  // Any other text of digits, points, exponents and signs is left to the scanner of doubles.
  lemma OtherNumbers(text: Bytes)
    requires text != [] && forall i | 0 <= i < |text| :: IsNumeric(text[i])
    requires !AllDigits(if text[0] == MINUS then text[1..] else text)
    ensures DecodeText(text) == AsDouble
  {
    var k := if text[0] == MINUS then 1 else 0;
    var i :| 0 <= i < |text[k..]| && !IsDigit(text[k..][i]);
    assert text[k + i] == text[k..][i] && MarksDouble(text, k + i);
  }

  lemma MinusIsZero()
    ensures DecodeText([MINUS]) == Number(Int(0))
  {
    assert [MINUS][1..] == [];
  }

  // Integers below 2^31 are signed, the others unsigned.
  lemma TypeBySize(i: int)
    ensures Retyped(i) == if i < 0x8000_0000 then Int(i) else UInt(i)
    ensures TWO63 == 9_223_372_036_854_775_808 && TWO64 == 2 * TWO63
  {
  }

  // Printing and reading back any 64-bit integer.
  lemma IntegerRoundTrip(i: int)
    requires -TWO63 <= i < TWO64
    ensures DecodeText(IntText(i)) == Number(Retyped(i))
  {
    DigitsDenote(if i < 0 then -i else i);
    DecodingIsExact(i < 0, Digits(if i < 0 then -i else i));
    assert [] + Digits(if i < 0 then -i else i) == Digits(if i < 0 then -i else i);
  }
}
