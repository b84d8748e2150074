/** The base-62 identifier codec of pkg/base62: a 64-bit unsigned integer is written
    with the 62-character alphabet, most significant digit first, and read back. */
module Base62 {
  import opened Wrappers

  const Digits: string := "0123456789"
  const Upper: string := "ABCDEFGHIJKLMNOPQRSTUVWXYZ"
  const Lower: string := "abcdefghijklmnopqrstuvwxyz"

  /** The alphabet: the ten digits, then the upper-case letters, then the lower-case
      letters, i.e. "0123456789ABCDEFGHIJKLMNOPQRSTUVWXYZabcdefghijklmnopqrstuvwxyz".
      It is written as the concatenation of its three runs so that the verifier can
      index it. */
  const Alphabet: string := Digits + Upper + Lower

  /** The radix, which is the alphabet's length. */
  const Base: nat := 62

  /** 2^64: Go's `uint64` holds the values below it and wraps modulo it. */
  const U64Limit: nat := 0x1_0000_0000_0000_0000

  type uint64 = n: nat | n < U64Limit

  function Pow(b: nat, k: nat): nat
  {
    if k == 0 then 1 else b * Pow(b, k - 1)
  }

  // ---------------------------------------------------------------------------
  // The alphabet

  /** The alphabet is strictly increasing as a sequence of characters, so no
      character occurs in it twice. */
  lemma AlphabetIncreasing()
    ensures |Alphabet| == Base
    ensures forall i, j :: 0 <= i < j < |Alphabet| ==> Alphabet[i] < Alphabet[j]
  {
    assert forall d :: 0 <= d < 10 ==> Digits[d] == ('0' as int + d) as char;
    assert forall d :: 0 <= d < 26 ==> Upper[d] == ('A' as int + d) as char;
    assert forall d :: 0 <= d < 26 ==> Lower[d] == ('a' as int + d) as char;
    forall i | 0 <= i < |Alphabet|
      ensures Alphabet[i] as int == AlphabetCode(i)
    {
      if i < 10 {
        assert Alphabet[i] == Digits[i];
      } else if i < 36 {
        assert Alphabet[i] == Upper[i - 10];
      } else {
        assert Alphabet[i] == Lower[i - 36];
      }
    }
  }

  /** The character code at position `d` of the alphabet. */
  function AlphabetCode(d: nat): int
  {
    if d < 10 then '0' as int + d
    else if d < 36 then 'A' as int + (d - 10)
    else 'a' as int + (d - 36)
  }

  /** Go's `strings.IndexRune`: the first position of `c` in `s`, or -1. Go counts that
      position in bytes; for an ASCII `s` such as `Alphabet`, where byte and character
      positions agree, it is this character index. */
  function IndexRune(s: string, c: char): (r: int)
    ensures -1 <= r < |s|
  {
    if s == [] then -1
    else if s[0] == c then 0
    else
      var k := IndexRune(s[1..], c);
      if k == -1 then -1 else k + 1
  }

  /** `IndexRune` finds the first occurrence, and reports -1 exactly when there is none. */
  lemma {:induction false} IndexRuneFirst(s: string, c: char)
    ensures IndexRune(s, c) == -1 <==> c !in s
    ensures IndexRune(s, c) >= 0 ==> s[IndexRune(s, c)] == c && c !in s[..IndexRune(s, c)]
  {
    if s != [] && s[0] != c {
      IndexRuneFirst(s[1..], c);
      assert s == [s[0]] + s[1..];
      var k := IndexRune(s[1..], c);
      if k >= 0 {
        assert s[..k + 1] == [s[0]] + s[1..][..k];
      }
    }
  }

  /** Looking up the character at position `d` of the alphabet gives back `d`. */
  lemma IndexOfDigit(d: nat)
    requires d < Base
    ensures IndexRune(Alphabet, Alphabet[d]) == d
  {
    AlphabetIncreasing();
    IndexRuneFirst(Alphabet, Alphabet[d]);
  }

  /** A character belongs to the alphabet when `IndexRune` finds it there. */
  predicate InAlphabet(c: char)
  {
    IndexRune(Alphabet, c) != -1
  }

  /** The digit value of an alphabet character: its (only) position in the alphabet. */
  function DigitValue(c: char): (d: nat)
    requires InAlphabet(c)
    ensures d < Base && Alphabet[d] == c
  {
    IndexRuneFirst(Alphabet, c);
    IndexRune(Alphabet, c)
  }

  predicate AllInAlphabet(s: string)
  {
    forall i :: 0 <= i < |s| ==> InAlphabet(s[i])
  }

  // ---------------------------------------------------------------------------
  // Specification of the codec

  /** The base-62 numeral of `n`, most significant digit first, without leading zeros. */
  function Numeral(n: nat): (s: string)
    ensures |s| >= 1
    ensures AllInAlphabet(s)
  {
    if n < Base then
      AppendDigit([], n);
      assert [] + [Alphabet[n]] == [Alphabet[n]];
      [Alphabet[n]]
    else
      AppendDigit(Numeral(n / Base), n % Base);
      Numeral(n / Base) + [Alphabet[n % Base]]
  }

  /** Appending an alphabet character keeps a string inside the alphabet. */
  lemma AppendDigit(s: string, d: nat)
    requires AllInAlphabet(s) && d < Base
    ensures AllInAlphabet(s + [Alphabet[d]])
  {
    IndexOfDigit(d);
    var t := s + [Alphabet[d]];
    forall i | 0 <= i < |t|
      ensures InAlphabet(t[i])
    {
      if i < |s| {
        assert t[i] == s[i];
      }
    }
  }

  /** The number that a numeral over the alphabet denotes (any length, leading zeros allowed). */
  function Value(s: string): nat
    requires AllInAlphabet(s)
  {
    if s == [] then 0 else Value(s[..|s| - 1]) * Base + DigitValue(s[|s| - 1])
  }

  /** What decoding a token yields: an error if some character is outside the alphabet,
      and otherwise the token's value reduced modulo 2^64. */
  function DecodeResult(token: string): Result<uint64>
  {
    if AllInAlphabet(token) then Ok(Value(token) % U64Limit) else Err(InvalidCharacter)
  }

  /** `s` read back to front. */
  function Reversed(s: string): string
  {
    if s == [] then [] else Reversed(s[1..]) + [s[0]]
  }

  /** The digits of `n`, least significant first, as the encoding loop emits them. */
  function LeastSignificantFirst(n: nat): string
  {
    if n == 0 then [] else [Alphabet[n % Base]] + LeastSignificantFirst(n / Base)
  }

  // ---------------------------------------------------------------------------
  // Properties of the specification

  lemma {:induction false} ReversedAt(s: string, k: nat)
    requires k < |s|
    ensures |Reversed(s)| == |s| && Reversed(s)[k] == s[|s| - 1 - k]
  {
    ReversedLength(s);
    if k < |s| - 1 {
      ReversedAt(s[1..], k);
    }
  }

  lemma {:induction false} ReversedLength(s: string)
    ensures |Reversed(s)| == |s|
  {
    if s != [] {
      ReversedLength(s[1..]);
    }
  }

  /** Reversing twice gives the original string back. */
  lemma ReversedTwice(s: string)
    ensures Reversed(Reversed(s)) == s
  {
    ReversedLength(s);
    ReversedLength(Reversed(s));
    forall k | 0 <= k < |s|
      ensures Reversed(Reversed(s))[k] == s[k]
    {
      ReversedAt(Reversed(s), k);
      ReversedAt(s, |s| - 1 - k);
    }
  }

  /** The least-significant-first digits of a positive `n`, reversed, are its numeral. */
  lemma {:induction false} ReversedDigits(n: nat)
    requires n > 0
    ensures Reversed(LeastSignificantFirst(n)) == Numeral(n)
  {
    var rest, c := LeastSignificantFirst(n / Base), Alphabet[n % Base];
    assert LeastSignificantFirst(n) == [c] + rest;
    assert ([c] + rest)[1..] == rest;
    if n >= Base {
      ReversedDigits(n / Base);
    } else {
      assert rest == [];
    }
  }

  /** The numeral of a positive number does not start with the zero digit. */
  lemma {:induction false} NoLeadingZero(n: nat)
    requires n > 0
    ensures Numeral(n)[0] != '0'
  {
    if n < Base {
      AlphabetIncreasing();
      assert Alphabet[0] == '0';
    } else {
      NoLeadingZero(n / Base);
    }
  }

  /** A numeral of a number below 62^k has at most k digits. */
  lemma {:induction false} NumeralLength(n: nat, k: nat)
    requires k >= 1 && n < Pow(Base, k)
    ensures |Numeral(n)| <= k
  {
    if n >= Base {
      assert k >= 2;
      assert n / Base < Pow(Base, k - 1);
      NumeralLength(n / Base, k - 1);
    }
  }

  /** Every 64-bit value has a numeral of at most 11 characters. */
  lemma NumeralAtMost11(n: uint64)
    ensures |Numeral(n)| <= 11
  {
    assert Pow(Base, 11) == 52036560683837093888;
    NumeralLength(n, 11);
  }

  /** The value of the numeral of `n` is `n`. */
  lemma {:induction false} ValueOfNumeral(n: nat)
    ensures Value(Numeral(n)) == n
  {
    var s := Numeral(n);
    assert s[..|s| - 1] == if n < Base then [] else Numeral(n / Base);
    if n < Base {
      IndexOfDigit(n);
    } else {
      ValueOfNumeral(n / Base);
      IndexOfDigit(n % Base);
    }
  }

  /** Round trip: decoding the encoding of any 64-bit value gives the value back. */
  lemma RoundTrip(n: uint64)
    ensures DecodeResult(Numeral(n)) == Ok(n)
  {
    ValueOfNumeral(n);
    assert AllInAlphabet(Numeral(n));
    assert Value(Numeral(n)) % U64Limit == n;
  }

  /** Decoding fails exactly when the token has a character outside the alphabet. */
  lemma DecodeFailsExactly(token: string)
    ensures DecodeResult(token).Err? <==> exists i :: 0 <= i < |token| && token[i] !in Alphabet
    ensures DecodeResult(token).Err? ==> DecodeResult(token).error == InvalidCharacter
  {
    forall i | 0 <= i < |token|
      ensures InAlphabet(token[i]) <==> token[i] in Alphabet
    {
      IndexRuneFirst(Alphabet, token[i]);
    }
  }

  /** A leading zero digit does not change a token's value, so decoding accepts
      numerals that the encoder never produces. */
  lemma {:induction false} LeadingZeroIgnored(s: string)
    requires AllInAlphabet(s)
    ensures AllInAlphabet("0" + s) && Value("0" + s) == Value(s)
  {
    ZeroDigit();
    var t := "0" + s;
    assert AllInAlphabet(t) by {
      forall i | 0 <= i < |t|
        ensures InAlphabet(t[i])
      {
        if i > 0 {
          assert t[i] == s[i - 1];
        }
      }
    }
    if s == [] {
      assert t[..0] == [];
    } else {
      var init := s[..|s| - 1];
      assert t[..|t| - 1] == "0" + init;
      assert t[|t| - 1] == s[|s| - 1];
      assert AllInAlphabet(init) by {
        forall i | 0 <= i < |init|
          ensures InAlphabet(init[i])
        {
          assert init[i] == s[i];
        }
      }
      LeadingZeroIgnored(init);
    }
  }

  /** The character '0' is the alphabet's digit of value 0. */
  lemma ZeroDigit()
    ensures InAlphabet('0') && DigitValue('0') == 0
  {
    assert Alphabet[0] == Digits[0] == '0';
    IndexOfDigit(0);
  }

  /** Decoding has no length check and wraps: the 11-character numeral of 2^64 decodes to 0. */
  lemma DecodeWraps()
    ensures |Numeral(U64Limit)| == 11
    ensures DecodeResult(Numeral(U64Limit)) == Ok(0)
  {
    ValueOfNumeral(U64Limit);
    assert Pow(Base, 11) == 52036560683837093888;
    NumeralLength(U64Limit, 11);
    assert Pow(Base, 10) == 839299365868340224;
    NumeralLongEnough(U64Limit, 10);
  }

  /** A number of at least 62^k has a numeral of more than k digits. */
  lemma {:induction false} NumeralLongEnough(n: nat, k: nat)
    requires n >= Pow(Base, k)
    ensures |Numeral(n)| > k
  {
    if k > 0 {
      assert n >= Base by { PowAtLeastBase(k); }
      assert n / Base >= Pow(Base, k - 1);
      NumeralLongEnough(n / Base, k - 1);
    }
  }

  lemma {:induction false} PowAtLeastBase(k: nat)
    requires k >= 1
    ensures Pow(Base, k) >= Base
  {
    if k > 1 {
      PowAtLeastBase(k - 1);
    }
  }

  /** Characters of the alphabet that the concrete values below use. */
  lemma SomeDigits()
    ensures Alphabet[0] == '0' && Alphabet[1] == '1' && Alphabet[7] == '7'
    ensures Alphabet[16] == 'G' && Alphabet[61] == 'z'
  {
  }

  /** The encodings checked by base62_test.go. */
  lemma KnownEncodings()
    ensures Numeral(0) == "0" && Numeral(1) == "1" && Numeral(61) == "z"
    ensures Numeral(62) == "10" && Numeral(999) == "G7"
  {
    SomeDigits();
    assert Numeral(62) == Numeral(1) + [Alphabet[0]];
    assert Numeral(999) == Numeral(16) + [Alphabet[7]];
  }

  /** The decodings checked by base62_test.go, and the empty token. */
  lemma KnownDecodings()
    ensures DecodeResult("0") == Ok(0) && DecodeResult("1") == Ok(1) && DecodeResult("z") == Ok(61)
    ensures DecodeResult("10") == Ok(62) && DecodeResult("G7") == Ok(999)
    ensures DecodeResult("") == Ok(0)
  {
    KnownEncodings();
    KnownValue(0, "0");
    KnownValue(1, "1");
    KnownValue(61, "z");
    KnownValue(62, "10");
    KnownValue(999, "G7");
  }

  lemma KnownValue(n: uint64, s: string)
    requires Numeral(n) == s
    ensures DecodeResult(s) == Ok(n)
  {
    RoundTrip(n);
  }

  // ---------------------------------------------------------------------------
  // The codec's operations

  /** `reverse`: copies the string into a buffer and swaps from both ends inwards. */
  method Reverse(s: string) returns (r: string)
    ensures r == Reversed(s)
  {
    var runes := new char[|s|](i requires 0 <= i < |s| => s[i]);
    var i, j := 0, |s| - 1;
    while i < j
      invariant 0 <= i <= |s| && j == |s| - 1 - i
      invariant i <= j + 1
      invariant forall k :: 0 <= k < i ==> runes[k] == s[|s| - 1 - k] && runes[|s| - 1 - k] == s[k]
      invariant forall k :: i <= k <= j ==> runes[k] == s[k]
    {
      runes[i], runes[j] := runes[j], runes[i];
      i, j := i + 1, j - 1;
    }
    r := runes[..];
    ReversedLength(s);
    forall k | 0 <= k < |s|
      ensures r[k] == Reversed(s)[k]
    {
      ReversedAt(s, k);
    }
  }

  /** `Encode`: emits the digits of `id` least significant first, then reverses them. */
  method Encode(id: uint64) returns (s: string)
    ensures s == Numeral(id)
    ensures AllInAlphabet(s) && 1 <= |s| <= 11
    ensures id == 0 ==> s == "0"
    ensures id > 0 ==> s[0] != '0'
  {
    NumeralAtMost11(id);
    if id > 0 {
      NoLeadingZero(id);
    }
    if id == 0 {
      return "0";
    }
    var sb: string := [];
    var n: nat := id;
    while n > 0
      invariant LeastSignificantFirst(id) == sb + LeastSignificantFirst(n)
    {
      var remainder := n % Base;
      sb := sb + [Alphabet[remainder]];
      n := n / Base;
    }
    assert sb == LeastSignificantFirst(id);
    s := Reverse(sb);
    ReversedDigits(id);
  }

  /** `Decode`: accumulates `id * 62 + index` from left to right with 64-bit wrap-around,
      failing at the first character outside the alphabet. */
  method Decode(token: string) returns (r: Result<uint64>)
    ensures r == DecodeResult(token)
  {
    var id: uint64 := 0;
    var i := 0;
    while i < |token|
      invariant 0 <= i <= |token|
      invariant AllInAlphabet(token[..i])
      invariant id == Value(token[..i]) % U64Limit
    {
      var index := IndexRune(Alphabet, token[i]);
      if index == -1 {
        assert !InAlphabet(token[i]);
        return Err(InvalidCharacter);
      }
      ValueExtended(token, i);
      WrappingStep(id, Value(token[..i]), index);
      id := ((id * Base) % U64Limit + index) % U64Limit;
      i := i + 1;
    }
    assert token[..i] == token;
    r := Ok(id);
  }

  /** Reading one more character of a valid prefix multiplies its value by 62 and adds
      the character's digit value. */
  lemma ValueExtended(token: string, i: nat)
    requires i < |token| && AllInAlphabet(token[..i]) && InAlphabet(token[i])
    ensures AllInAlphabet(token[..i + 1])
    ensures Value(token[..i + 1]) == Value(token[..i]) * Base + IndexRune(Alphabet, token[i])
  {
    var t := token[..i + 1];
    assert t[..i] == token[..i];
    forall k | 0 <= k < |t|
      ensures InAlphabet(t[k])
    {
      if k < i {
        assert t[k] == token[..i][k];
      }
    }
  }

  /** One wrapping step of `Decode` agrees with reducing the exact value at the end. */
  lemma WrappingStep(id: nat, v: nat, d: nat)
    requires id == v % U64Limit
    ensures (id * Base % U64Limit + d) % U64Limit == (v * Base + d) % U64Limit
  {
    var q, t := v / U64Limit, id * Base;
    assert v * Base + d == t + d + q * Base * U64Limit;
    assert t + d == t % U64Limit + d + (t / U64Limit) * U64Limit;
    ModAddMultiple(t % U64Limit + d, t / U64Limit);
    ModAddMultiple(t + d, q * Base);
  }

  lemma ModAddMultiple(a: nat, k: nat)
    ensures (a + k * U64Limit) % U64Limit == a % U64Limit
  {
  }
}
