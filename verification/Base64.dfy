/** Base64 without padding (RFC 4648, sections 3.2, 4 and 5), as Go's RawStdEncoding and RawURLEncoding do it. */
module Base64 {
  import opened Wrappers
  import opened Text

  datatype Alphabet = Std | Url

  type sextet = v: int | 0 <= v < 64

  function Letter(alphabet: Alphabet, v: sextet): byte {
    if v < 26 then 'A' as int + v
    else if v < 52 then 'a' as int + (v - 26)
    else if v < 62 then '0' as int + (v - 52)
    else if v == 62 then (if alphabet.Std? then '+' as int else '-' as int)
    else (if alphabet.Std? then '/' as int else '_' as int)
  }

  function SextetOf(alphabet: Alphabet, b: byte): Option<sextet> {
    if 'A' as int <= b <= 'Z' as int then Some(b - 'A' as int)
    else if 'a' as int <= b <= 'z' as int then Some(b - 'a' as int + 26)
    else if '0' as int <= b <= '9' as int then Some(b - '0' as int + 52)
    else if b == (if alphabet.Std? then '+' as int else '-' as int) then Some(62)
    else if b == (if alphabet.Std? then '/' as int else '_' as int) then Some(63)
    else None
  }

  // ----- Sextets and octets -----

  function Sextets(bytes: Text): seq<sextet> {
    if |bytes| == 0 then []
    else if |bytes| == 1 then [bytes[0] / 4, bytes[0] % 4 * 16]
    else if |bytes| == 2 then [bytes[0] / 4, bytes[0] % 4 * 16 + bytes[1] / 16, bytes[1] % 16 * 4]
    else
      [bytes[0] / 4, bytes[0] % 4 * 16 + bytes[1] / 16, bytes[1] % 16 * 4 + bytes[2] / 64, bytes[2] % 64]
      + Sextets(bytes[3..])
  }

  /** The first, second and third octet that four sextets spell. */
  function Octet0(a: int, b: int): byte
    requires 0 <= a < 64 && 0 <= b < 64
  {
    a * 4 + b / 16
  }

  function Octet1(b: int, c: int): byte
    requires 0 <= b < 64 && 0 <= c < 64
  {
    b % 16 * 16 + c / 4
  }

  function Octet2(c: int, d: int): byte
    requires 0 <= c < 64 && 0 <= d < 64
  {
    c % 4 * 64 + d
  }

  /** Bits left over at the end are dropped; a single sextet left over is an error. */
  function Octets(vs: seq<sextet>): Option<Text> {
    if |vs| == 0 then Some([])
    else if |vs| == 1 then None
    else if |vs| == 2 then Some([Octet0(vs[0], vs[1])])
    else if |vs| == 3 then Some([Octet0(vs[0], vs[1]), Octet1(vs[1], vs[2])])
    else
      match Octets(vs[4..])
      case None => None
      case Some(rest) => Some([Octet0(vs[0], vs[1]), Octet1(vs[1], vs[2]), Octet2(vs[2], vs[3])] + rest)
  }

  /** Three octets survive being cut into sextets. */
  lemma OctetsOfTriple(x: byte, y: byte, z: byte)
    ensures Octet0(x / 4, x % 4 * 16) == x && Octet0(x / 4, x % 4 * 16 + y / 16) == x
    ensures Octet1(x % 4 * 16 + y / 16, y % 16 * 4) == y && Octet1(x % 4 * 16 + y / 16, y % 16 * 4 + z / 64) == y
    ensures Octet2(y % 16 * 4 + z / 64, z % 64) == z
  {
  }

  lemma {:induction false} OctetsOfSextets(bytes: Text)
    ensures Octets(Sextets(bytes)) == Some(bytes)
  {
    hide Octet0, Octet1, Octet2;
    if |bytes| == 1 {
      OctetsOfTriple(bytes[0], 0, 0);
      assert bytes == [bytes[0]];
    } else if |bytes| == 2 {
      OctetsOfTriple(bytes[0], bytes[1], 0);
      assert bytes == [bytes[0], bytes[1]];
    } else if |bytes| >= 3 {
      OctetsOfTriple(bytes[0], bytes[1], bytes[2]);
      OctetsOfSextets(bytes[3..]);
      assert Sextets(bytes)[4..] == Sextets(bytes[3..]);
      assert bytes == [bytes[0], bytes[1], bytes[2]] + bytes[3..];
    }
  }

  // ----- Text -----

  function Letters(alphabet: Alphabet, vs: seq<sextet>): (t: Text)
    ensures |t| == |vs|
  {
    if vs == [] then [] else [Letter(alphabet, vs[0])] + Letters(alphabet, vs[1..])
  }

  function ParseLetters(alphabet: Alphabet, t: Text): Option<seq<sextet>> {
    if t == [] then Some([])
    else
      match (SextetOf(alphabet, t[0]), ParseLetters(alphabet, t[1..]))
      case (Some(v), Some(rest)) => Some([v] + rest)
      case _ => None
  }

  /** The decoder ignores line breaks anywhere in its input. */
  function WithoutLineBreaks(t: Text): Text {
    if t == [] then []
    else if t[0] == NEWLINE || t[0] == RETURN then WithoutLineBreaks(t[1..])
    else [t[0]] + WithoutLineBreaks(t[1..])
  }

  function Encode(alphabet: Alphabet, bytes: Text): Text {
    Letters(alphabet, Sextets(bytes))
  }

  function Decode(alphabet: Alphabet, t: Text): Option<Text> {
    match ParseLetters(alphabet, WithoutLineBreaks(t))
    case None => None
    case Some(vs) => Octets(vs)
  }

  predicate IsLetter(b: byte) {
    || 'A' as int <= b <= 'Z' as int || 'a' as int <= b <= 'z' as int || '0' as int <= b <= '9' as int
    || b == '+' as int || b == '/' as int || b == '-' as int || b == '_' as int
  }

  lemma LetterParses(alphabet: Alphabet, v: sextet)
    ensures SextetOf(alphabet, Letter(alphabet, v)) == Some(v) && IsLetter(Letter(alphabet, v))
    ensures Letter(alphabet, v) != NEWLINE && Letter(alphabet, v) != RETURN
  {
  }

  lemma {:induction false} ParseOfLetters(alphabet: Alphabet, vs: seq<sextet>)
    ensures ParseLetters(alphabet, Letters(alphabet, vs)) == Some(vs)
    ensures WithoutLineBreaks(Letters(alphabet, vs)) == Letters(alphabet, vs)
    ensures forall b :: b in Letters(alphabet, vs) ==> IsLetter(b)
  {
    hide Letter, SextetOf, IsLetter;
    if vs != [] {
      ParseOfLetters(alphabet, vs[1..]);
      LetterParses(alphabet, vs[0]);
      assert Letters(alphabet, vs)[1..] == Letters(alphabet, vs[1..]);
      assert vs == [vs[0]] + vs[1..];
    }
  }

  /** Decoding gives back every byte string that was encoded, whatever its length modulo three. */
  lemma DecodeEncode(alphabet: Alphabet, bytes: Text)
    ensures Decode(alphabet, Encode(alphabet, bytes)) == Some(bytes)
    ensures forall b :: b in Encode(alphabet, bytes) ==> IsLetter(b)
    ensures bytes != [] ==> Encode(alphabet, bytes) != []
  {
    ParseOfLetters(alphabet, Sextets(bytes));
    OctetsOfSextets(bytes);
  }

  /** The two alphabets, as the tables of sections 4 and 5 of RFC 4648 list them. */
  lemma Alphabets(alphabet: Alphabet, v: sextet)
    ensures 0 <= v <= 25 ==> Letter(alphabet, v) == 'A' as int + v
    ensures 26 <= v <= 51 ==> Letter(alphabet, v) == 'a' as int + v - 26
    ensures 52 <= v <= 61 ==> Letter(alphabet, v) == '0' as int + v - 52
    ensures alphabet == Std ==> Letter(alphabet, 62) == '+' as int && Letter(alphabet, 63) == '/' as int
    ensures alphabet == Url ==> Letter(alphabet, 62) == '-' as int && Letter(alphabet, 63) == '_' as int
  {
  }

  /** The number that digits spell in a base. */
  function Number(digits: seq<int>, base: int): int {
    if digits == [] then 0 else base * Number(digits[..|digits| - 1], base) + digits[|digits| - 1]
  }

  lemma NumberOfThree(a: int, b: int, c: int, base: int)
    ensures Number([a, b], base) == base * a + b
    ensures Number([a, b, c], base) == base * (base * a + b) + c
  {
    assert [a, b, c][..2] == [a, b] && [a, b][..1] == [a] && [a][..0] == [];
    assert Number([a], base) == base * 0 + a;
  }

  lemma NumberOfFour(a: int, b: int, c: int, d: int, base: int)
    ensures Number([a, b, c, d], base) == base * (base * (base * a + b) + c) + d
  {
    assert [a, b, c, d][..3] == [a, b, c];
    NumberOfThree(a, b, c, base);
  }

  /** Three octets are the number that four sextets spell; one or two left over are filled up with zero bits. */
  lemma SextetsOfGroup(bytes: Text)
    requires bytes != []
    ensures var vs := Sextets(bytes);
      if |bytes| == 1 then |vs| == 2 && Number(vs, 64) == 16 * (bytes[0] as int)
      else if |bytes| == 2 then |vs| == 3 && Number(vs, 64) == 4 * Number(bytes, 256)
      else |vs| >= 4 && vs[4..] == Sextets(bytes[3..]) && Number(vs[..4], 64) == Number(bytes[..3], 256)
  {
    var vs := Sextets(bytes);
    if |bytes| == 1 {
      NumberOfThree(vs[0], vs[1], 0, 64);
      assert vs == [vs[0], vs[1]];
    } else if |bytes| == 2 {
      NumberOfThree(vs[0], vs[1], vs[2], 64);
      NumberOfThree(bytes[0], bytes[1], 0, 256);
      assert vs == [vs[0], vs[1], vs[2]] && bytes == [bytes[0], bytes[1]];
    } else {
      NumberOfFour(vs[0], vs[1], vs[2], vs[3], 64);
      NumberOfThree(bytes[0], bytes[1], bytes[2], 256);
      assert vs[..4] == [vs[0], vs[1], vs[2], vs[3]] && bytes[..3] == [bytes[0], bytes[1], bytes[2]];
    }
  }

  /** Encoding writes one letter for each sextet, in order. */
  lemma {:induction false} LettersInOrder(alphabet: Alphabet, vs: seq<sextet>, i: nat)
    requires i < |vs|
    ensures Letters(alphabet, vs)[i] == Letter(alphabet, vs[i])
  {
    hide Letter;
    if i > 0 {
      LettersInOrder(alphabet, vs[1..], i - 1);
    }
  }

  lemma NoSextet(alphabet: Alphabet, b: byte)
    requires forall v: sextet :: Letter(alphabet, v) != b
    ensures SextetOf(alphabet, b) == None
  {
    assert SextetOf(alphabet, b).Some? ==> Letter(alphabet, SextetOf(alphabet, b).value) == b;
  }

  lemma {:induction false} ParseRefuses(alphabet: Alphabet, head: Text, b: byte, rest: Text)
    requires b != 10 && b != 13 && forall v: sextet :: Letter(alphabet, v) != b
    ensures ParseLetters(alphabet, WithoutLineBreaks(head + [b] + rest)) == None
    decreases |head|
  {
    var t := head + [b] + rest;
    if head == [] {
      assert t[0] == b;
      NoSextet(alphabet, b);
    } else {
      assert t[0] == head[0] && t[1..] == head[1..] + [b] + rest;
      ParseRefuses(alphabet, head[1..], b, rest);
    }
  }

  /** A byte that is no letter of the alphabet and no line break makes the decoder refuse, wherever it stands. */
  lemma DecodeRefuses(alphabet: Alphabet, head: Text, b: byte, rest: Text)
    requires b != 10 && b != 13 && forall v: sextet :: Letter(alphabet, v) != b
    ensures Decode(alphabet, head + [b] + rest) == None
    decreases |head|
  {
    ParseRefuses(alphabet, head, b, rest);
  }

  lemma TailBits(a: sextet, b: sextet, c: sextet)
    ensures 64 * (a as int) + b == 16 * (Octet0(a, b) as int) + b % 16
    ensures 64 * (64 * (a as int) + b) + c == 4 * (256 * (Octet0(a, b) as int) + Octet1(b, c)) + c % 4
  {
  }

  /** Two or three letters at the end are one or two bytes, whatever their spare bits are; a single one is an error. */
  lemma OctetsOfTail(a: sextet, b: sextet, c: sextet)
    ensures Octets([a]) == None
    ensures var o := Octets([a, b]);
      o.Some? && |o.value| == 1 && 0 <= Number([a, b], 64) - 16 * (o.value[0] as int) < 16
    ensures var o := Octets([a, b, c]);
      o.Some? && |o.value| == 2 && 0 <= Number([a, b, c], 64) - 4 * Number(o.value, 256) < 4
  {
    NumberOfThree(a, b, c, 64);
    NumberOfThree(Octet0(a, b), Octet1(b, c), 0, 256);
    TailBits(a, b, c);
  }

  lemma {:induction false} BreaksApart(a: Text, b: Text)
    ensures WithoutLineBreaks(a + b) == WithoutLineBreaks(a) + WithoutLineBreaks(b)
    decreases |a|
  {
    if a == [] {
      assert a + b == b;
    } else {
      assert (a + b)[0] == a[0] && (a + b)[1..] == a[1..] + b;
      BreaksApart(a[1..], b);
    }
  }

  /** A line break makes no difference, wherever it stands. */
  lemma DecodeSkipsBreaks(alphabet: Alphabet, a: Text, b: Text)
    ensures Decode(alphabet, a + [10] + b) == Decode(alphabet, a + b)
    ensures Decode(alphabet, a + [13] + b) == Decode(alphabet, a + b)
  {
    BreaksApart(a, b);
    BreaksApart(a + [10], b);
    BreaksApart(a + [13], b);
    BreaksApart(a, [10]);
    BreaksApart(a, [13]);
    assert WithoutLineBreaks([10]) == [] && WithoutLineBreaks([13]) == [];
    var u, v := WithoutLineBreaks(a), WithoutLineBreaks(b);
    assert u + [] == u;
    hide WithoutLineBreaks;
  }
}
