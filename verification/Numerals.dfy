/** Printing and parsing numbers: the %d and %x conversions, utoa and atoi. */
module Numerals {
  import opened Words

  const INT_LIMIT: int := 0x8000_0000

  type int32 = x: int | -INT_LIMIT <= x < INT_LIMIT

  /** The 32-bit pattern of a signed number, and back. */
  function Unsigned(x: int32): uint32 {
    if x < 0 then x + WORD_LIMIT else x
  }

  function Signed(u: uint32): int32 {
    if u < INT_LIMIT then u else u - WORD_LIMIT
  }

  /** A digit: '0'..'9', then 'a' on. */
  function Digit(d: nat): char
    requires d < 16
  {
    if d < 10 then '0' + d as char else 'a' + (d - 10) as char
  }

  /** What a character is worth as a digit. */
  function Worth(c: char): int {
    if 'a' <= c <= 'f' then 10 + (c as int - 'a' as int) else c as int - '0' as int
  }

  /** The numeral of u: most significant digit first, no leading zeros. */
  function Numeral(u: nat, base: nat): (s: string)
    requires 2 <= base <= 16
    ensures s != []
  {
    if u < base then [Digit(u)] else Numeral(u / base, base) + [Digit(u % base)]
  }

  /** The number a string stands for, most significant character first. */
  function Value(s: string, base: nat): int {
    if s == [] then 0 else Value(s[..|s| - 1], base) * base + Worth(s[|s| - 1])
  }

  ghost predicate Decimal(s: string) {
    forall i :: 0 <= i < |s| ==> '0' <= s[i] <= '9'
  }

  lemma {:induction false} ValueOfNumeral(u: nat, base: nat)
    requires base == 10 || base == 16
    ensures Value(Numeral(u, base), base) == u
    decreases u
  {
    var s := Numeral(u, base);
    if u >= base {
      ValueOfNumeral(u / base, base);
      assert s[..|s| - 1] == Numeral(u / base, base);
    } else {
      assert s[..0] == [];
    }
  }

  ghost function Power(base: nat, k: nat): nat {
    if k == 0 then 1 else base * Power(base, k - 1)
  }

  /** A number below base^k has at most k digits. */
  lemma {:induction false} NumeralLength(u: nat, base: nat, k: nat)
    requires (base == 10 || base == 16) && k >= 1 && u < Power(base, k)
    ensures |Numeral(u, base)| <= k
    decreases u
  {
    if u >= base {
      assert k > 1;
      NumeralLength(u / base, base, k - 1);
    }
  }

  /** A 32-bit number has at most ten decimal and eight hexadecimal digits. */
  lemma WordLength(u: uint32)
    ensures |Numeral(u, 10)| <= 10 && |Numeral(u, 16)| <= 8
  {
    assert Power(10, 1) == 10 && Power(10, 2) == 100 && Power(10, 4) == 10000 && Power(10, 6) == 1000000;
    assert Power(10, 8) == 100000000 && Power(10, 10) == 10000000000;
    NumeralLength(u, 10, 10);
    assert Power(16, 2) == 0x100 && Power(16, 4) == 0x1_0000 && Power(16, 6) == 0x100_0000;
    assert Power(16, 8) == WORD_LIMIT;
    NumeralLength(u, 16, 8);
  }

  function Reversed(s: string): (r: string)
    ensures |r| == |s|
  {
    if s == [] then [] else Reversed(s[1..]) + [s[0]]
  }

  lemma {:induction false} ReversedAppend(s: string, c: char)
    ensures Reversed(s + [c]) == [c] + Reversed(s)
  {
    if s != [] {
      ReversedAppend(s[1..], c);
      assert (s + [c])[1..] == s[1..] + [c];
    }
  }

  lemma {:induction false} ReversedAt(s: string, k: nat)
    requires k < |s|
    ensures Reversed(s)[|s| - 1 - k] == s[k]
  {
    if k > 0 {
      ReversedAt(s[1..], k - 1);
    }
  }

  /** The digit loop: the least significant digit comes out first. */
  method PutDigits(u: uint32, base: nat, tmp: array<char>) returns (len: nat)
    requires (base == 10 && tmp.Length >= 10) || (base == 16 && tmp.Length >= 8)
    modifies tmp
    ensures len <= tmp.Length && Reversed(tmp[..len]) == Numeral(u, base)
  {
    if u == 0 {
      tmp[0] := '0';
      assert tmp[..1] == ['0'] && Reversed(['0']) == ['0'];
      return 1;
    }
    hide PartWritten, Numeral, Digit;
    len := 0;
    NothingWritten(u, base);
    var rest: nat := u;
    while rest > 0
      invariant 0 <= len <= tmp.Length && PartWritten(tmp[..len], rest, u, base)
      decreases rest
    {
      WriteOne(tmp[..len], rest, u, base);
      tmp[len] := Digit(rest % base);
      assert tmp[..len + 1] == tmp[..len] + [Digit(rest % base)];
      rest := rest / base;
      len := len + 1;
    }
    AllWritten(tmp[..len], u, base);
  }

  lemma NothingWritten(u: nat, base: nat)
    requires 2 <= base <= 16 && u > 0
    ensures PartWritten([], u, u, base)
  {
  }

  lemma AllWritten(p: string, u: nat, base: nat)
    requires 2 <= base <= 16 && PartWritten(p, 0, u, base)
    ensures Reversed(p) == Numeral(u, base)
  {
    assert [] + Reversed(p) == Reversed(p);
  }

  /** The characters p are the low digits of u, backwards; rest holds the others. */
  ghost predicate PartWritten(p: string, rest: nat, u: nat, base: nat)
    requires 2 <= base <= 16
  {
    Remaining(rest, base) + Reversed(p) == Numeral(u, base)
  }

  lemma WriteOne(p: string, rest: nat, u: uint32, base: nat)
    requires (base == 10 || base == 16) && rest > 0 && PartWritten(p, rest, u, base)
    ensures |p| < (if base == 10 then 10 else 8)
    ensures PartWritten(p + [Digit(rest % base)], rest / base, u, base)
  {
    hide Numeral, Reversed, Digit;
    WordLength(u);
    var d, high := Digit(rest % base), Remaining(rest / base, base);
    ReversedAppend(p, d);
    RemainingStep(rest, base);
    assert (high + [d]) + Reversed(p) == high + ([d] + Reversed(p));
  }

  /** The loop that copies the digits out, last one first. */
  method CopyBack(tmp: array<char>, len: nat) returns (out: string)
    requires len <= tmp.Length
    ensures out == Reversed(tmp[..len])
  {
    out := [];
    for k := 0 to len
      invariant out == Reversed(tmp[..len])[..k]
    {
      ReversedAt(tmp[..len], len - 1 - k);
      out := out + [tmp[len - 1 - k]];
    }
  }

  /** Both loops, through a buffer of `room` characters. */
  method PutNumeral(u: uint32, base: nat, room: nat) returns (out: string)
    requires (base == 10 && room >= 10) || (base == 16 && room >= 8)
    ensures out == Numeral(u, base)
  {
    var tmp := new char[room];
    var len := PutDigits(u, base, tmp);
    out := CopyBack(tmp, len);
  }

  /** The digits still to come out of the loop. */
  ghost function Remaining(u: nat, base: nat): string
    requires 2 <= base <= 16
  {
    if u == 0 then [] else Numeral(u, base)
  }

  lemma RemainingStep(u: nat, base: nat)
    requires (base == 10 || base == 16) && u > 0
    ensures Remaining(u, base) == Remaining(u / base, base) + [Digit(u % base)]
  {
  }

  /** The %d conversion. */
  method PrintInt(x: int32) returns (out: string)
    ensures out == if x < 0 then ['-'] + Numeral(-(x as int), 10) else Numeral(x, 10)
  {
    var num: int32 := x;
    out := [];
    if num < 0 {
      out := ['-'];
      var u: uint32 := (-(num + 1)) + 1;
      num := Signed(u);
    }
    var digits := PutNumeral(Unsigned(num), 10, 12);
    out := out + digits;
  }

  /** utoa, up to the NUL it appends; the result's length is what it returns. */
  method Utoa(v: uint32) returns (out: string)
    ensures out == Numeral(v, 10)
  {
    out := PutNumeral(v, 10, 12);
  }

  /** The %x conversion. */
  method PrintHex(u: uint32) returns (out: string)
    ensures out == Numeral(u, 16)
  {
    out := PutNumeral(u, 16, 9);
  }

  /** atoi on the characters before the NUL; the running value is kept in 32 bits. */
  method Atoi(s: string) returns (k: int32)
    ensures Decimal(s) ==> k == Signed(Value(s, 10) % WORD_LIMIT)
  {
    var acc: uint32 := 0;
    for i := 0 to |s|
      invariant Decimal(s) ==> acc == Value(s[..i], 10) % WORD_LIMIT
    {
      assert s[..i + 1][..i] == s[..i];
      ModStep(Value(s[..i], 10), s[i] as int - '0' as int);
      acc := (acc * 8 + acc * 2 + s[i] as int - '0' as int) % WORD_LIMIT;
    }
    assert s[..|s|] == s;
    k := Signed(acc);
  }

  lemma ModStep(v: int, d: int)
    ensures (v % WORD_LIMIT * 8 + v % WORD_LIMIT * 2 + d) % WORD_LIMIT == (v * 10 + d) % WORD_LIMIT
  {
    var q, r := v / WORD_LIMIT, v % WORD_LIMIT;
    assert v * 10 + d == (r * 10 + d) + WORD_LIMIT * (q * 10);
  }

  lemma {:induction false} NumeralIsDigits(u: nat)
    ensures Decimal(Numeral(u, 10))
    decreases u
  {
    if u >= 10 {
      NumeralIsDigits(u / 10);
    }
  }

  /** Parsing undoes printing exactly for the numbers a signed word can hold. */
  lemma {:induction false} PrintThenParse(v: uint32)
    ensures var s := Numeral(v, 10);
            Decimal(s) && (Signed(Value(s, 10) % WORD_LIMIT) == v <==> v < INT_LIMIT)
  {
    NumeralIsDigits(v);
    ValueOfNumeral(v, 10);
  }

  /** The other way round: a decimal number without leading zeros is the numeral of its value. */
  lemma {:induction false} ParseThenPrint(s: string)
    requires s != [] && Decimal(s) && (s[0] == '0' ==> |s| == 1)
    ensures Value(s, 10) >= 0 && Numeral(Value(s, 10), 10) == s
    ensures s[0] != '0' ==> Value(s, 10) > 0
    decreases |s|
  {
    var n := |s| - 1;
    var high, c := s[..n], s[n];
    assert s == high + [c] && 0 <= Worth(c) < 10 && Digit(Worth(c)) == c;
    if n > 0 {
      ParseThenPrint(high);
      assert (Value(high, 10) * 10 + Worth(c)) / 10 == Value(high, 10);
    }
  }

  // ----- the time stamp of the log

  /** A number below 1000 in three digits. */
  function ThreeDigits(m: nat): (s: string)
    requires m < 1000
  {
    [Digit(m / 100), Digit(m / 10 % 10), Digit(m % 10)]
  }

  lemma ThreeDigitsValue(m: nat)
    requires m < 1000
    ensures Decimal(ThreeDigits(m)) && Value(ThreeDigits(m), 10) == m
  {
    var s := ThreeDigits(m);
    assert s[..2] == [s[0], s[1]] && s[..2][..1] == [s[0]] && s[..1][..0] == [];
    assert Value(s[..1], 10) == m / 100;
    assert Value(s[..2], 10) == m / 100 * 10 + m / 10 % 10;
  }

  /** What ts prints for a tick count: seconds, and milliseconds in three digits. */
  ghost function Stamp(t: uint32): string {
    " [ \t" + Numeral(t / 1000, 10) + "." + ThreeDigits(t % 1000) + "] "
  }

  /** It takes at most 17 characters, and its NUL, of the buffer's 33. */
  lemma StampFits(t: uint32)
    ensures 11 <= |Stamp(t)| <= 17
  {
    assert Power(10, 1) == 10 && Power(10, 3) == 1000 && Power(10, 5) == 100000 && Power(10, 7) == 10000000;
    NumeralLength(t / 1000, 10, 7);
  }

  /** Store characters from position `pos` on. */
  method PutString(buf: array<char>, pos: nat, s: string) returns (end: nat)
    requires pos + |s| <= buf.Length
    modifies buf
    ensures end == pos + |s| && buf[..end] == old(buf[..pos]) + s
    ensures buf[end..] == old(buf[end..])
  {
    end := pos + |s|;
    forall k | pos <= k < end {
      buf[k] := s[k - pos];
    }
  }

  /** ts, up to printing: the stamp and its NUL, in a buffer of 33 characters. */
  method Ts(t: uint32) returns (buf: array<char>, pos: nat)
    ensures fresh(buf) && buf.Length == 33 && pos < 33
    ensures buf[..pos] == Stamp(t) && buf[pos] == '\0'
  {
    StampFits(t);
    buf := new char[33];
    pos := PutString(buf, 0, " [ \t");
    var seconds := Utoa(t / 1000);
    pos := PutString(buf, pos, seconds);
    var ms := t % 1000;
    pos := PutString(buf, pos, "." + ThreeDigits(ms) + "] ");
    assert buf[..pos] == Stamp(t);
    buf[pos] := '\0';
  }

  /** Hexadecimal digits are 0 to 9 and a to f. */
  lemma {:induction false} HexDigits(u: nat)
    ensures forall i :: 0 <= i < |Numeral(u, 16)| ==> '0' <= Numeral(u, 16)[i] <= '9' || 'a' <= Numeral(u, 16)[i] <= 'f'
    decreases u
  {
    if u >= 16 {
      HexDigits(u / 16);
    }
  }

  /** A stamp is made of a number of seconds and three digits of milliseconds that together give t. */
  lemma StampMeans(t: uint32)
    ensures exists seconds: string, ms: string ::
              && Stamp(t) == " [ \t" + seconds + "." + ms + "] "
              && Decimal(seconds) && Decimal(ms) && |ms| == 3
              && 1000 * Value(seconds, 10) + Value(ms, 10) == t
  {
    NumeralIsDigits(t / 1000);
    ValueOfNumeral(t / 1000, 10);
    ThreeDigitsValue(t % 1000);
    assert Stamp(t) == " [ \t" + Numeral(t / 1000, 10) + "." + ThreeDigits(t % 1000) + "] ";
  }
}
