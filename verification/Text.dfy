/** Go strings as byte sequences: splitting, decimal numbers, and what Sscanf("%d") accepts. */
module Text {
  import opened Wrappers

  type byte = b: int | 0 <= b < 256

  type Text = seq<byte>

  /** The bytes of an ASCII string; any other character becomes a question mark. */
  function Ascii(s: string): (t: Text)
    ensures |t| == |s| && forall i :: 0 <= i < |s| ==> t[i] == if s[i] as int < 128 then s[i] as int else 63
  {
    if s == [] then [] else [if s[0] as int < 128 then s[0] as int else 63] + Ascii(s[1..])
  }

  const BAR: byte := '|' as int
  const MINUS: byte := '-' as int
  const PLUS: byte := '+' as int
  const ZERO: byte := '0' as int
  const NEWLINE: byte := 10
  const RETURN: byte := 13

  // ----- Splitting -----

  function IndexOf(t: Text, c: byte): (i: nat)
    requires c in t
    ensures i < |t| && t[i] == c && c !in t[..i]
  {
    if t[0] == c then 0 else 1 + IndexOf(t[1..], c)
  }

  /** strings.SplitN for n > 0: at most n parts, the last of them not split further. */
  function SplitN(t: Text, c: byte, n: nat): seq<Text>
    requires n > 0
    decreases n
  {
    if n == 1 || c !in t then [t]
    else
      var i := IndexOf(t, c);
      [t[..i]] + SplitN(t[i + 1..], c, n - 1)
  }

  /** strings.Split: a text of length k has at most k + 1 parts. */
  function Split(t: Text, c: byte): seq<Text> {
    SplitN(t, c, |t| + 1)
  }

  function Join(parts: seq<Text>, c: byte): Text
    requires |parts| > 0
  {
    if |parts| == 1 then parts[0] else parts[0] + [c] + Join(parts[1..], c)
  }

  lemma {:induction false} IndexOfSeparator(head: Text, tail: Text, c: byte)
    requires c !in head
    ensures var t := head + [c] + tail; c in t && IndexOf(t, c) == |head|
  {
    var t := head + [c] + tail;
    assert t[|head|] == c;
    if head != [] {
      IndexOfSeparator(head[1..], tail, c);
      assert t[1..] == head[1..] + [c] + tail;
      assert t[0] == head[0];
    }
  }

  lemma SplitNone(t: Text, c: byte, n: nat)
    requires n > 0 && (n == 1 || c !in t)
    ensures SplitN(t, c, n) == [t]
  {
  }

  lemma SplitOnce(head: Text, tail: Text, c: byte, n: nat)
    requires c !in head && n > 1
    ensures SplitN(head + [c] + tail, c, n) == [head] + SplitN(tail, c, n - 1)
  {
    var t := head + [c] + tail;
    IndexOfSeparator(head, tail, c);
    assert t[..|head|] == head && t[|head| + 1..] == tail;
  }

  /** Splitting recovers joined parts if only a last part that fills the limit holds the separator. */
  lemma {:induction false} SplitJoin(parts: seq<Text>, c: byte, n: nat)
    requires 0 < |parts| <= n
    requires forall i :: 0 <= i < |parts| - 1 ==> c !in parts[i]
    requires |parts| < n ==> c !in parts[|parts| - 1]
    ensures SplitN(Join(parts, c), c, n) == parts
    decreases n
  {
    hide SplitN;
    if |parts| == 1 {
      SplitNone(parts[0], c, n);
      assert parts == [parts[0]];
    } else {
      var rest := parts[1..];
      assert forall i :: 0 <= i < |rest| ==> rest[i] == parts[i + 1];
      SplitOnce(parts[0], Join(rest, c), c, n);
      SplitJoin(rest, c, n - 1);
      assert parts == [parts[0]] + rest;
    }
  }

  /** No part but the last, when the limit is reached, holds the separator. */
  lemma {:induction false} SplitParts(t: Text, c: byte, n: nat)
    requires n > 0
    ensures 0 < |SplitN(t, c, n)| <= n
    ensures forall i :: 0 <= i < |SplitN(t, c, n)| - 1 ==> c !in SplitN(t, c, n)[i]
    decreases n
  {
    if n != 1 && c in t {
      SplitParts(t[IndexOf(t, c) + 1..], c, n - 1);
    }
  }

  lemma {:induction false} JoinOfSplit(t: Text, c: byte, n: nat)
    requires n > 0
    ensures SplitN(t, c, n) != [] && Join(SplitN(t, c, n), c) == t
    decreases n
  {
    SplitParts(t, c, n);
    if n != 1 && c in t {
      var i := IndexOf(t, c);
      JoinOfSplit(t[i + 1..], c, n - 1);
      assert SplitN(t, c, n)[1..] == SplitN(t[i + 1..], c, n - 1);
      assert t == t[..i] + [c] + t[i + 1..];
    }
  }

  // ----- Decimal numbers -----

  predicate IsDigit(b: byte) { ZERO <= b <= ZERO + 9 }

  function Digits(n: nat): Text {
    if n < 10 then [ZERO + n] else Digits(n / 10) + [ZERO + n % 10]
  }

  /** The verb %d of Sprintf. */
  function Decimal(i: int): Text {
    if i < 0 then [MINUS] + Digits(-i) else Digits(i)
  }

  function Value(digits: Text): nat
    requires forall b :: b in digits ==> IsDigit(b)
  {
    if digits == [] then 0
    else
      var last := digits[|digits| - 1];
      assert IsDigit(last);
      10 * Value(digits[..|digits| - 1]) + (last - ZERO)
  }

  lemma {:induction false} ValueOfDigits(n: nat)
    ensures Digits(n) != [] && forall b :: b in Digits(n) ==> IsDigit(b)
    ensures Value(Digits(n)) == n
  {
    var t := Digits(n);
    if n >= 10 {
      ValueOfDigits(n / 10);
      assert t[..|t| - 1] == Digits(n / 10);
    }
  }

  /** The longest prefix made of digits. */
  function DigitPrefix(t: Text): (digits: Text)
    ensures digits <= t && forall b :: b in digits ==> IsDigit(b)
  {
    if t != [] && IsDigit(t[0]) then [t[0]] + DigitPrefix(t[1..]) else []
  }

  lemma {:induction false} DigitPrefixOfDigits(t: Text)
    requires forall b :: b in t ==> IsDigit(b)
    ensures DigitPrefix(t) == t
  {
    if t != [] {
      DigitPrefixOfDigits(t[1..]);
    }
  }

  // ----- Sscanf("%d") -----

  /** The length of the white-space character in UTF-8 that t begins with, newline excepted; 0 if there is none. */
  function SpaceLength(t: Text): (n: nat)
    ensures n <= |t|
  {
    if |t| >= 1 && (t[0] == 0x20 || (0x09 <= t[0] <= 0x0D && t[0] != NEWLINE)) then 1
    else if |t| >= 2 && t[0] == 0xC2 && (t[1] == 0x85 || t[1] == 0xA0) then 2
    else if |t| >= 3 && t[0] == 0xE1 && t[1] == 0x9A && t[2] == 0x80 then 3
    else if |t| >= 3 && t[0] == 0xE2 && t[1] == 0x80
            && (0x80 <= t[2] <= 0x8A || t[2] == 0xA8 || t[2] == 0xA9 || t[2] == 0xAF) then 3
    else if |t| >= 3 && t[0] == 0xE2 && t[1] == 0x81 && t[2] == 0x9F then 3
    else if |t| >= 3 && t[0] == 0xE3 && t[1] == 0x80 && t[2] == 0x80 then 3
    else 0
  }

  /** Leading white space is dropped; a newline in it is an error. */
  function SkipSpace(t: Text): Option<Text>
    decreases |t|
  {
    if t == [] then Some(t)
    else if t[0] == NEWLINE then None
    else if SpaceLength(t) > 0 then SkipSpace(t[SpaceLength(t)..])
    else Some(t)
  }

  predicate FitsIn(i: int, bits: nat) {
    if bits == 32 then -0x8000_0000 <= i < 0x8000_0000
    else -0x8000_0000_0000_0000 <= i < 0x8000_0000_0000_0000
  }

  /** An optional sign and digits; anything after the digits is ignored. */
  function ScanNumber(u: Text, bits: nat): Option<int> {
    var signed := u != [] && (u[0] == PLUS || u[0] == MINUS);
    var digits := DigitPrefix(if signed then u[1..] else u);
    if digits == [] then None
    else
      var n := Value(digits);
      var i := if signed && u[0] == MINUS then 0 - n else n;
      if FitsIn(i, bits) then Some(i) else None
  }

  /**
    Sscanf with the verb %d into a signed integer of the given width: white space, an optional sign,
    digits; anything after the digits is ignored, and a value that does not fit is an error.
  */
  function ScanInt(t: Text, bits: nat): Option<int> {
    match SkipSpace(t)
    case None => None
    case Some(u) => ScanNumber(u, bits)
  }

  /** Printing and scanning a number that fits gives it back. */
  lemma ScanDecimal(i: int, bits: nat)
    requires FitsIn(i, bits)
    ensures ScanInt(Decimal(i), bits) == Some(i)
  {
    var n := if i < 0 then -i else i;
    var t := Decimal(i);
    ValueOfDigits(n);
    DigitPrefixOfDigits(Digits(n));
    assert t[0] in t;
    assert t[0] == MINUS || IsDigit(t[0]);
    assert SkipSpace(t) == Some(t);
    assert i < 0 ==> t[1..] == Digits(n);
  }

  lemma DecimalHasNo(i: int, c: byte)
    requires !IsDigit(c) && c != MINUS
    ensures c !in Decimal(i)
  {
    ValueOfDigits(if i < 0 then -i else i);
  }

  /** What is printed, digit by digit: the last digit, those before it, and the sign. */
  lemma DecimalDigits(i: int)
    ensures 0 <= i < 10 ==> Decimal(i) == [48 + i]
    ensures i >= 10 ==> Decimal(i) == Decimal(i / 10) + [48 + i % 10]
    ensures i < 0 ==> Decimal(i) == [45] + Decimal(-i)
  {
  }

  /** A white-space character that a number may follow: blank, tab, vertical tab, form feed or carriage return. */
  predicate IsBlank(b: byte) { b == 32 || b == 9 || b == 11 || b == 12 || b == 13 }

  lemma {:induction false} SkipBlanks(blanks: Text, t: Text)
    requires forall b :: b in blanks ==> IsBlank(b)
    requires t != [] && t[0] != NEWLINE && SpaceLength(t) == 0
    ensures SkipSpace(blanks + t) == Some(t)
    decreases |blanks|
  {
    if blanks == [] {
      assert blanks + t == t;
    } else {
      var u := blanks + t;
      assert blanks[0] in blanks && u[0] == blanks[0];
      assert SpaceLength(u) == 1 && u[1..] == blanks[1..] + t;
      SkipBlanks(blanks[1..], t);
    }
  }

  lemma {:induction false} DigitPrefixStops(digits: Text, rest: Text)
    requires forall b :: b in digits ==> IsDigit(b)
    requires rest == [] || !IsDigit(rest[0])
    ensures DigitPrefix(digits + rest) == digits
  {
    if digits == [] {
      assert digits + rest == rest;
    } else {
      assert (digits + rest)[1..] == digits[1..] + rest;
      DigitPrefixStops(digits[1..], rest);
    }
  }

  lemma SignApart(sign: Text, u: Text)
    requires sign == [] || sign == [43] || sign == [45]
    requires u != [] && 48 <= u[0] <= 57
    ensures var t, signed := sign + u, sign != [];
      && t != [] && t[0] == (if signed then sign[0] else u[0])
      && (t[0] == PLUS || t[0] == MINUS <==> signed)
      && (if signed then t[1..] else t) == u
  {
    assert sign == [] ==> sign + u == u;
  }

  lemma ScanFrom(sign: Text, digits: Text, rest: Text, bits: nat)
    requires sign == [] || sign == [43] || sign == [45]
    requires digits != [] && forall b :: b in digits ==> 48 <= b <= 57
    requires rest == [] || !(48 <= rest[0] <= 57)
    ensures var i: int := if sign == [45] then 0 - Value(digits) else Value(digits);
      ScanNumber(sign + (digits + rest), bits) ==
        if (if bits == 32 then -0x8000_0000 <= i < 0x8000_0000
            else -0x8000_0000_0000_0000 <= i < 0x8000_0000_0000_0000) then Some(i) else None
  {
    DigitPrefixStops(digits, rest);
    hide DigitPrefix, Value;
    assert digits[0] in digits && (digits + rest)[0] == digits[0];
    SignApart(sign, digits + rest);
  }

  /**
    What a scan tolerates around a number: blanks before it, a sign, leading zeros, and anything but a
    digit after it. It then gives the number if that fits the width, and fails if it does not.
  */
  lemma ScanTolerates(blanks: Text, sign: Text, digits: Text, rest: Text, bits: nat)
    requires forall b :: b in blanks ==> IsBlank(b)
    requires sign == [] || sign == [43] || sign == [45]
    requires digits != [] && forall b :: b in digits ==> 48 <= b <= 57
    requires rest == [] || !(48 <= rest[0] <= 57)
    ensures var i: int := if sign == [45] then 0 - Value(digits) else Value(digits);
      ScanInt(blanks + (sign + (digits + rest)), bits) ==
        if (if bits == 32 then -0x8000_0000 <= i < 0x8000_0000
            else -0x8000_0000_0000_0000 <= i < 0x8000_0000_0000_0000) then Some(i) else None
  {
    hide ScanNumber, Value, SkipSpace;
    var t := sign + (digits + rest);
    assert digits[0] in digits;
    assert t[0] == if sign == [] then digits[0] else sign[0];
    SkipBlanks(blanks, t);
    ScanFrom(sign, digits, rest, bits);
  }

  /** White space beyond ASCII: a character of two or three bytes in UTF-8 is dropped if it is one of these. */
  lemma WideSpaces(c: nat, rest: Text)
    requires 0x80 <= c < 0x10000
    ensures c < 0x800 ==>
      SpaceLength([0xC0 + c / 64, 0x80 + c % 64] + rest) == if c == 0x85 || c == 0xA0 then 2 else 0
    ensures c >= 0x800 ==>
      SpaceLength([0xE0 + c / 4096, 0x80 + c / 64 % 64, 0x80 + c % 64] + rest) ==
        if c == 0x1680 || 0x2000 <= c <= 0x200A || c == 0x2028 || c == 0x2029 || c == 0x202F || c == 0x205F
           || c == 0x3000
        then 3 else 0
  {
    if c < 0x800 {
      var t: Text := [0xC0 + c / 64, 0x80 + c % 64] + rest;
      assert t[0] == 0xC0 + c / 64 && t[1] == 0x80 + c % 64;
    } else {
      var t: Text := [0xE0 + c / 4096, 0x80 + c / 64 % 64, 0x80 + c % 64] + rest;
      assert t[0] == 0xE0 + c / 4096 && t[1] == 0x80 + c / 64 % 64 && t[2] == 0x80 + c % 64;
      assert c == 4096 * (c / 4096) + 64 * (c / 64 % 64) + c % 64;
    }
  }

  lemma {:induction false} NewlineStops(blanks: Text, rest: Text)
    requires forall b :: b in blanks ==> IsBlank(b)
    ensures SkipSpace(blanks + ([10] + rest)) == None
    decreases |blanks|
  {
    var u := blanks + ([10] + rest);
    if blanks == [] {
      assert u[0] == NEWLINE;
    } else {
      assert blanks[0] in blanks && u[0] == blanks[0];
      assert SpaceLength(u) == 1 && u[1..] == blanks[1..] + ([10] + rest);
      NewlineStops(blanks[1..], rest);
    }
  }

  /** A newline before the number makes the scan fail, whatever follows. */
  lemma ScanRefusesNewline(blanks: Text, rest: Text, bits: nat)
    requires forall b :: b in blanks ==> IsBlank(b)
    ensures ScanInt(blanks + ([10] + rest), bits) == None
  {
    NewlineStops(blanks, rest);
  }

  /** So does the lack of a digit where the number should begin. */
  lemma ScanRefusesNonDigits(blanks: Text, sign: Text, rest: Text, bits: nat)
    requires forall b :: b in blanks ==> IsBlank(b)
    requires sign == [43] || sign == [45]
    requires rest == [] || !IsDigit(rest[0])
    ensures ScanInt(blanks + (sign + rest), bits) == None
  {
    SkipBlanks(blanks, sign + rest);
    assert (sign + rest)[1..] == rest;
  }
}
