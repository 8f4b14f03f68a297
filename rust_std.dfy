/**
 The pieces of Rust's standard library that the argument readers rely on:
 `str::split` with a one-character pattern, and `FromStr` for `u32` and `i32`
 in radix 10. A failed parse is `None`; the kind of `ParseIntError` is not
 kept, because its only user turns every error into the same panic.
 */
module RustStd {

  datatype Option<+T> = None | Some(value: T)

  const U32_MAX: nat := 0xFFFF_FFFF
  const I32_MAX: nat := 0x7FFF_FFFF
  /** The magnitude of `i32::MIN`. */
  const I32_MIN_ABS: nat := 0x8000_0000

  // ---------------------------------------------------------------------------
  // str::split(c)
  // ---------------------------------------------------------------------------

  /** Number of occurrences of `c` in `s`. */
  function Count(s: string, c: char): (n: nat)
    ensures n <= |s|
    ensures n == 0 <==> c !in s
  {
    if s == [] then 0 else (if s[0] == c then 1 else 0) + Count(s[1..], c)
  }

  /** The pieces of `s` between the separators, in order: an input with no
      separator (the empty string included) gives one piece, and every
      separator adds one more, possibly empty, piece. */
  function Split(s: string, sep: char): (tokens: seq<string>)
    ensures |tokens| == Count(s, sep) + 1
    ensures forall i :: 0 <= i < |tokens| ==> sep !in tokens[i]
  {
    if s == [] then
      [[]]
    else
      var rest := Split(s[1..], sep);
      if s[0] == sep then [[]] + rest else [[s[0]] + rest[0]] + rest[1..]
  }

  /** The inverse of `Split`: the pieces glued back with the separator
      between consecutive pieces. */
  function Join(tokens: seq<string>, sep: char): string
    requires |tokens| >= 1
  {
    if |tokens| == 1 then tokens[0] else tokens[0] + [sep] + Join(tokens[1..], sep)
  }

  /** One non-separator character in front joins the first piece. */
  lemma SplitHead(c: char, u: string, sep: char)
    requires c != sep
    ensures Split([c] + u, sep) == [[c] + Split(u, sep)[0]] + Split(u, sep)[1..]
  {
    assert ([c] + u)[1..] == u;
  }

  /** Splitting a string that starts with a separator-free piece `a` puts `a`
      in front of the first piece of the rest. */
  lemma {:induction false} SplitPrefix(a: string, t: string, sep: char)
    requires sep !in a
    ensures Split(a + t, sep) == [a + Split(t, sep)[0]] + Split(t, sep)[1..]
  {
    var tail := Split(t, sep);
    if a == [] {
      assert a + t == t && a + tail[0] == tail[0];
      assert [tail[0]] + tail[1..] == tail;
    } else {
      var u := a[1..] + t;
      assert a + t == [a[0]] + u;
      assert sep !in a[1..] by { assert forall c :: c in a[1..] ==> c in a; }
      SplitPrefix(a[1..], t, sep);
      SplitHead(a[0], u, sep);
      var rest := Split(u, sep);
      assert rest[0] == a[1..] + tail[0] && rest[1..] == tail[1..];
      ConsAppend(a, tail[0]);
    }
  }

  /** Concatenation regroups freely. */
  lemma Associative(x: string, y: string, w: string)
    ensures x + (y + w) == x + y + w
  {
  }

  /** Putting back the first character of `a` in front of `a[1..] + b`. */
  lemma ConsAppend(a: string, b: string)
    requires a != []
    ensures [a[0]] + (a[1..] + b) == a + b
  {
    assert a == [a[0]] + a[1..];
  }

  /** `Join` undoes `Split`: gluing the pieces back gives the input. */
  lemma {:induction false} JoinSplit(s: string, sep: char)
    ensures Join(Split(s, sep), sep) == s
  {
    if s != [] {
      var rest := Split(s[1..], sep);
      JoinSplit(s[1..], sep);
      if s[0] == sep {
        assert Split(s, sep) == [[]] + rest;
        assert ([[]] + rest)[1..] == rest;
        assert [] + [sep] + s[1..] == s;
      } else {
        var tokens := Split(s, sep);
        assert tokens == [[s[0]] + rest[0]] + rest[1..];
        if |rest| == 1 {
          assert tokens == [[s[0]] + rest[0]];
          assert [s[0]] + s[1..] == s;
        } else {
          assert tokens[1..] == rest[1..];
          assert Join(rest, sep) == rest[0] + [sep] + Join(rest[1..], sep);
          assert [s[0]] + s[1..] == s;
        }
      }
    }
  }

  /** A piece without separators, followed by a separator, is split off whole. */
  lemma SplitCons(a: string, b: string, sep: char)
    requires sep !in a
    ensures Split(a + [sep] + b, sep) == [a] + Split(b, sep)
  {
    var t := [sep] + b;
    assert t[0] == sep && t[1..] == b;
    assert Split(t, sep) == [[]] + Split(b, sep);
    SplitPrefix(a, t, sep);
    assert a + [sep] + b == a + t;
    assert a + [] == a;
    assert ([[]] + Split(b, sep))[1..] == Split(b, sep);
  }

  /** `Split` undoes `Join` whenever no piece contains the separator. */
  lemma {:induction false} SplitJoin(tokens: seq<string>, sep: char)
    requires |tokens| >= 1
    requires forall i :: 0 <= i < |tokens| ==> sep !in tokens[i]
    ensures Split(Join(tokens, sep), sep) == tokens
  {
    if |tokens| == 1 {
      SplitPrefix(tokens[0], [], sep);
      assert tokens[0] + [] == tokens[0];
    } else {
      SplitJoin(tokens[1..], sep);
      SplitCons(tokens[0], Join(tokens[1..], sep), sep);
      assert [tokens[0]] + tokens[1..] == tokens;
    }
  }

  // ---------------------------------------------------------------------------
  // Decimal digits
  // ---------------------------------------------------------------------------

  predicate IsDigit(c: char) {
    '0' <= c <= '9'
  }

  predicate AllDigits(s: string) {
    forall i :: 0 <= i < |s| ==> IsDigit(s[i])
  }

  /** The number a string of decimal digits denotes, most significant first. */
  function DigitsValue(s: string): nat
    requires AllDigits(s)
  {
    if s == [] then 0 else DigitsValue(s[..|s| - 1]) * 10 + (s[|s| - 1] - '0') as nat
  }

  /** The shortest decimal rendering of `n`, as Rust's `Display` for an
      integer writes it. */
  function Decimal(n: nat): (s: string)
    ensures |s| >= 1 && AllDigits(s)
    ensures |s| > 1 ==> s[0] != '0'
    ensures DigitsValue(s) == n
  {
    var last := ['0' + (n % 10) as char];
    if n < 10 then last
    else
      var s := Decimal(n / 10) + last;
      assert s[..|s| - 1] == Decimal(n / 10);
      s
  }

  /** A run of `0` characters, possibly empty. */
  predicate Zeros(z: string) {
    forall i :: 0 <= i < |z| ==> z[i] == '0'
  }

  /** Leading zeros do not change the value of a digit string. */
  lemma {:induction false} LeadingZeros(z: string, s: string)
    requires Zeros(z)
    requires AllDigits(s)
    ensures AllDigits(z + s) && DigitsValue(z + s) == DigitsValue(s)
  {
    if s == [] {
      assert z + s == z;
      ZerosValue(z);
    } else {
      var zs := z + s;
      assert zs[..|zs| - 1] == z + s[..|s| - 1];
      LeadingZeros(z, s[..|s| - 1]);
    }
  }

  lemma {:induction false} ZerosValue(z: string)
    requires Zeros(z)
    ensures AllDigits(z) && DigitsValue(z) == 0
  {
    if z != [] {
      ZerosValue(z[..|z| - 1]);
    }
  }

  // ---------------------------------------------------------------------------
  // FromStr for u32 and i32 (radix 10)
  // ---------------------------------------------------------------------------

  /** `u32::from_str`: an optional `+`, then at least one ASCII digit, and a
      value no larger than `u32::MAX`. A lone sign and the empty string are
      rejected; `-` is never accepted. */
  function ParseU32(s: string): (r: Option<nat>)
    ensures r.Some? ==> r.value <= U32_MAX
    ensures r.Some? ==> |s| >= 1 && (IsDigit(s[0]) || (s[0] == '+' && |s| >= 2))
    ensures r.Some? ==> forall i :: 1 <= i < |s| ==> IsDigit(s[i])
  {
    if s == [] then None
    else if s == ['+'] || s == ['-'] then None
    else
      var digits := if s[0] == '+' then s[1..] else s;
      if AllDigits(digits) && DigitsValue(digits) <= U32_MAX then Some(DigitsValue(digits))
      else None
  }

  /** `i32::from_str`: an optional `+` or `-`, then at least one ASCII digit,
      and a value in `i32::MIN ..= i32::MAX`. */
  function ParseI32(s: string): (r: Option<int>)
    ensures r.Some? ==> -(I32_MIN_ABS as int) <= r.value <= I32_MAX
    ensures r.Some? ==> |s| >= 1 && (IsDigit(s[0]) || ((s[0] == '+' || s[0] == '-') && |s| >= 2))
    ensures r.Some? ==> forall i :: 1 <= i < |s| ==> IsDigit(s[i])
    ensures r.Some? && r.value < 0 ==> s[0] == '-'
  {
    if s == [] then None
    else if s == ['+'] || s == ['-'] then None
    else if s[0] == '-' then
      var digits := s[1..];
      if AllDigits(digits) && DigitsValue(digits) <= I32_MIN_ABS then Some(0 - DigitsValue(digits))
      else None
    else
      var digits := if s[0] == '+' then s[1..] else s;
      if AllDigits(digits) && DigitsValue(digits) <= I32_MAX then Some(DigitsValue(digits))
      else None
  }

  /** A digit string without a leading zero (or a single digit) is the
      decimal rendering of its value. */
  lemma {:induction false} CanonicalDigits(d: string)
    requires AllDigits(d) && |d| >= 1 && (|d| == 1 || d[0] != '0')
    ensures Decimal(DigitsValue(d)) == d
  {
    var v := DigitsValue(d);
    if |d| == 1 {
      assert d[..|d| - 1] == [] && DigitsValue([]) == 0;
      assert IsDigit(d[0]);
      assert v == DigitsValue(d[..|d| - 1]) * 10 + (d[0] - '0') as nat;
      assert v < 10;
      assert Decimal(v) == ['0' + (v % 10) as char];
    } else {
      var p := d[..|d| - 1];
      assert p[0] == d[0];
      CanonicalDigits(p);
      PositiveDigits(p);
      assert v == DigitsValue(p) * 10 + (d[|d| - 1] - '0') as nat;
      assert v / 10 == DigitsValue(p) && v % 10 == (d[|d| - 1] - '0') as nat;
      assert d == p + [d[|d| - 1]];
    }
  }

  /** A digit string whose first digit is not `0` denotes at least 1. */
  lemma {:induction false} PositiveDigits(d: string)
    requires AllDigits(d) && |d| >= 1 && d[0] != '0'
    ensures DigitsValue(d) >= 1
  {
    if |d| > 1 {
      var p := d[..|d| - 1];
      assert p[0] == d[0];
      PositiveDigits(p);
    }
  }

  /** Every non-empty digit string is zero padding `z` followed by the
      decimal rendering of its value. */
  lemma {:induction false} PaddedDecimal(d: string) returns (z: string)
    requires AllDigits(d) && |d| >= 1
    ensures Zeros(z) && d == z + Decimal(DigitsValue(d))
  {
    if |d| > 1 && d[0] == '0' {
      var rest := d[1..];
      var z' := PaddedDecimal(rest);
      assert d == ['0'] + rest;
      LeadingZeros(['0'], rest);
      z := ['0'] + z';
      assert d == z + Decimal(DigitsValue(rest));
    } else {
      CanonicalDigits(d);
      z := [];
      assert d == z + Decimal(DigitsValue(d));
    }
  }

  /** How `u32::from_str` reads a non-empty digit string, with or without `+`. */
  lemma ParseU32Digits(d: string)
    requires AllDigits(d) && |d| >= 1
    ensures ParseU32(d) == ParseU32(['+'] + d)
    ensures ParseU32(d) == if DigitsValue(d) <= U32_MAX then Some(DigitsValue(d)) else None
  {
    assert IsDigit(d[0]);
    assert (['+'] + d)[1..] == d;
  }

  /** Exactly which `u32` literals are accepted: an optional `+`, any zero
      padding and the decimal text of `n` read as `n` when `n` fits in
      `u32`, and are rejected when it does not. */
  lemma ParseU32Literal(plus: bool, z: string, n: nat)
    requires Zeros(z)
    ensures ParseU32((if plus then "+" else "") + z + Decimal(n)) ==
            if n <= U32_MAX then Some(n) else None
  {
    var d := z + Decimal(n);
    LeadingZeros(z, Decimal(n));
    ParseU32Digits(d);
    if plus {
      assert "+" + z + Decimal(n) == ['+'] + d;
    } else {
      assert "" + z + Decimal(n) == d;
    }
  }

  /** The converse: every accepted `u32` literal is an optional `+` (present
      exactly when the literal starts with one), zero padding `z` and the
      decimal text of the value returned. */
  lemma ParseU32Accepted(s: string) returns (z: string)
    requires ParseU32(s).Some?
    ensures Zeros(z) && s == (if s[0] == '+' then "+" else "") + z + Decimal(ParseU32(s).value)
  {
    var d := ParseU32SignAndDigits(s);
    z := PaddedDecimal(d);
    var plus := if s[0] == '+' then "+" else "";
    Associative(plus, z, Decimal(DigitsValue(d)));
  }

  /** An accepted `u32` literal is its optional `+` followed by the digits of
      its value. */
  lemma ParseU32SignAndDigits(s: string) returns (d: string)
    requires ParseU32(s).Some?
    ensures AllDigits(d) && |d| >= 1 && DigitsValue(d) == ParseU32(s).value
    ensures s == (if s[0] == '+' then "+" else "") + d
  {
    assert s != ['+'] && s != ['-'];
    if s[0] == '+' {
      d := s[1..];
    } else {
      d := s;
      assert s == "" + d;
    }
  }

  /** The sign written in front of an `i32` literal. */
  datatype Sign = NoSign | PlusSign | MinusSign

  function SignText(sign: Sign): string {
    match sign
    case NoSign => ""
    case PlusSign => "+"
    case MinusSign => "-"
  }

  /** How `i32::from_str` reads a non-empty digit string, unsigned or after `+`. */
  lemma ParseI32Digits(d: string)
    requires AllDigits(d) && |d| >= 1
    ensures ParseI32(d) == ParseI32(['+'] + d)
    ensures ParseI32(d) == if DigitsValue(d) <= I32_MAX then Some(DigitsValue(d)) else None
  {
    assert IsDigit(d[0]);
    var p := ['+'] + d;
    assert p != ['+'] && p != ['-'] && p[0] == '+' && p[1..] == d;
  }

  /** How `i32::from_str` reads a non-empty digit string after `-`. */
  lemma ParseI32NegativeDigits(d: string)
    requires AllDigits(d) && |d| >= 1
    ensures ParseI32(['-'] + d) ==
            if DigitsValue(d) <= I32_MIN_ABS then Some(0 - DigitsValue(d)) else None
  {
    var p := ['-'] + d;
    assert p != ['+'] && p != ['-'] && p[0] == '-' && p[1..] == d;
  }

  /** Exactly which `i32` literals are accepted: a sign, any zero padding and
      the decimal text of `n` read as `n` (or `-n` after `-`) when that is in
      the `i32` range, and are rejected when it is not. */
  lemma ParseI32Literal(sign: Sign, z: string, n: nat)
    requires Zeros(z)
    ensures ParseI32(SignText(sign) + z + Decimal(n)) ==
            if sign == MinusSign then (if n <= I32_MIN_ABS then Some(0 - n) else None)
            else (if n <= I32_MAX then Some(n) else None)
  {
    LeadingZeros(z, Decimal(n));
    ParseI32Signed(sign, z + Decimal(n));
    Associative(SignText(sign), z, Decimal(n));
  }

  /** How `i32::from_str` reads a non-empty digit string after any sign. */
  lemma ParseI32Signed(sign: Sign, d: string)
    requires AllDigits(d) && |d| >= 1
    ensures ParseI32(SignText(sign) + d) ==
            if sign == MinusSign then (if DigitsValue(d) <= I32_MIN_ABS then Some(0 - DigitsValue(d)) else None)
            else (if DigitsValue(d) <= I32_MAX then Some(DigitsValue(d)) else None)
  {
    match sign
    case NoSign =>
      assert SignText(sign) + d == d;
      ParseI32Digits(d);
    case PlusSign =>
      assert SignText(sign) + d == ['+'] + d;
      ParseI32Digits(d);
    case MinusSign =>
      assert SignText(sign) + d == ['-'] + d;
      ParseI32NegativeDigits(d);
  }

  /** The converse: every accepted `i32` literal is its sign (`-` exactly
      when the value is negative or the literal starts with `-`), zero
      padding `z` and the decimal text of the magnitude returned. */
  lemma ParseI32Accepted(s: string) returns (sign: Sign, z: string)
    requires ParseI32(s).Some?
    ensures Zeros(z) && (sign == MinusSign <==> s[0] == '-')
    ensures var v := ParseI32(s).value;
            s == SignText(sign) + z + Decimal(if v < 0 then 0 - v else v)
  {
    var v := ParseI32(s).value;
    var d;
    sign, d := ParseI32SignAndDigits(s);
    z := PaddedDecimal(d);
    var magnitude := if v < 0 then 0 - v else v;
    assert DigitsValue(d) == magnitude;
    Associative(SignText(sign), z, Decimal(magnitude));
  }

  /** An accepted `i32` literal is its sign followed by the digits of the
      magnitude of its value. */
  lemma ParseI32SignAndDigits(s: string) returns (sign: Sign, d: string)
    requires ParseI32(s).Some?
    ensures AllDigits(d) && |d| >= 1 && s == SignText(sign) + d
    ensures sign == MinusSign <==> s[0] == '-'
    ensures var v := ParseI32(s).value; DigitsValue(d) == if v < 0 then 0 - v else v
  {
    assert s != ['+'] && s != ['-'];
    if s[0] == '-' {
      sign, d := MinusSign, s[1..];
    } else if s[0] == '+' {
      sign, d := PlusSign, s[1..];
    } else {
      sign, d := NoSign, s;
    }
  }
}
