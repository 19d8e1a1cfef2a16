/**
  The stored password string, with the key derivation function as a parameter.

  kdf(password, salt, iterations, memory, parallelism, length) stands for Argon2id: any function of
  its arguments that returns the requested number of bytes.
*/
module Password {
  import opened Wrappers
  import opened Text
  import Base64

  const MEMORY := 64 * 1024
  const ITERATIONS := 3
  const PARALLELISM := 2
  const SALT_LENGTH := 16
  const KEY_LENGTH := 32
  const DOLLAR: byte := '$' as int
  type Kdf = (Text, Text, nat, nat, nat, nat) -> Text

  ghost predicate IsKdf(kdf: Kdf) {
    forall password, salt, i, m, p, n {:trigger kdf(password, salt, i, m, p, n)} ::
      |kdf(password, salt, i, m, p, n)| == n
  }

  function Derive(kdf: Kdf, password: Text, salt: Text, length: nat): Text {
    kdf(password, salt, ITERATIONS, MEMORY, PARALLELISM, length)
  }

  function Parameters(): Text {
    Ascii("m=") + Decimal(MEMORY) + Ascii(",t=") + Decimal(ITERATIONS) + Ascii(",p=") + Decimal(PARALLELISM)
  }

  /** $argon2id$v=19$m=..,t=..,p=..$salt$hash: six parts, the first of them empty. */
  function Format(salt: Text, hash: Text): Text {
    [DOLLAR] + (Ascii("argon2id") + [DOLLAR] + (Ascii("v=19") + [DOLLAR] + (Parameters() + [DOLLAR]
    + (Base64.Encode(Base64.Std, salt) + [DOLLAR] + Base64.Encode(Base64.Std, hash)))))
  }

  function Parts(salt: Text, hash: Text): seq<Text> {
    [[], Ascii("argon2id"), Ascii("v=19"), Parameters(),
     Base64.Encode(Base64.Std, salt), Base64.Encode(Base64.Std, hash)]
  }

  lemma JoinFrom(parts: seq<Text>, k: nat)
    requires k < |parts|
    ensures Join(parts[k..], DOLLAR)
         == if k == |parts| - 1 then parts[k] else parts[k] + [DOLLAR] + Join(parts[k + 1..], DOLLAR)
  {
    if k < |parts| - 1 {
      assert parts[k..][1..] == parts[k + 1..];
    }
  }

  lemma JoinSix(parts: seq<Text>)
    requires |parts| == 6
    ensures Join(parts, DOLLAR) == parts[0] + [DOLLAR] + (parts[1] + [DOLLAR] + (parts[2] + [DOLLAR]
      + (parts[3] + [DOLLAR] + (parts[4] + [DOLLAR] + parts[5]))))
  {
    hide Join;
    assert parts[0..] == parts;
    JoinFrom(parts, 0);
    JoinFrom(parts, 1);
    JoinFrom(parts, 2);
    JoinFrom(parts, 3);
    JoinFrom(parts, 4);
    JoinFrom(parts, 5);
  }

  lemma FormatIsJoin(salt: Text, hash: Text)
    ensures Join(Parts(salt, hash), DOLLAR) == Format(salt, hash)
  {
    hide Ascii, Parameters, Base64.Encode, Join;
    JoinSix(Parts(salt, hash));
    assert [] + [DOLLAR] == [DOLLAR];
  }

  lemma AsciiHasNo(s: string, c: byte)
    requires forall i :: 0 <= i < |s| ==> s[i] as int < 128 && s[i] as int != c
    ensures c !in Ascii(s)
  {
  }

  lemma ParametersHaveNoDollar()
    ensures DOLLAR !in Parameters()
  {
    hide Ascii, Decimal;
    AsciiHasNo("m=", DOLLAR);
    AsciiHasNo(",t=", DOLLAR);
    AsciiHasNo(",p=", DOLLAR);
    DecimalHasNo(MEMORY, DOLLAR);
    DecimalHasNo(ITERATIONS, DOLLAR);
    DecimalHasNo(PARALLELISM, DOLLAR);
  }

  lemma PartsHaveNoDollar(salt: Text, hash: Text)
    ensures forall i :: 0 <= i < 6 ==> DOLLAR !in Parts(salt, hash)[i]
  {
    hide Ascii, Parameters, Base64.Encode;
    AsciiHasNo("argon2id", DOLLAR);
    AsciiHasNo("v=19", DOLLAR);
    ParametersHaveNoDollar();
    Base64.DecodeEncode(Base64.Std, salt);
    Base64.DecodeEncode(Base64.Std, hash);
    assert DOLLAR !in Base64.Encode(Base64.Std, salt) && DOLLAR !in Base64.Encode(Base64.Std, hash);
  }

  lemma FormatLength(salt: Text, hash: Text)
    ensures |Format(salt, hash)| >= 5 && |Parts(salt, hash)| == 6
  {
    hide Ascii, Parameters, Base64.Encode;
  }

  /** The decimal text of the memory parameter, digit by digit. */
  lemma MemoryText()
    ensures Decimal(65536) == [54, 53, 53, 51, 54]
  {
    assert Digits(6) == [54] && Digits(65) == [54, 53] && Digits(655) == [54, 53, 53];
    assert Digits(6553) == [54, 53, 53, 51] && Digits(65536) == [54, 53, 53, 51, 54];
  }

  lemma AsciiConcat(a: string, b: string)
    ensures Ascii(a + b) == Ascii(a) + Ascii(b)
  {
  }

  lemma SmallDecimals()
    ensures Decimal(3) == Ascii("3") && Decimal(2) == Ascii("2")
  {
  }

  lemma ParametersText()
    ensures Parameters() == Ascii("m=65536,t=3,p=2")
  {
    hide Digits, Ascii, Decimal;
    MemoryText();
    SmallDecimals();
    assert Decimal(65536) == Ascii("65536");
    AsciiConcat("m=", "65536");
    AsciiConcat("m=65536", ",t=");
    AsciiConcat("m=65536,t=", "3");
    AsciiConcat("m=65536,t=3", ",p=");
    AsciiConcat("m=65536,t=3,p=", "2");
  }

  lemma SplitIsParts(salt: Text, hash: Text)
    ensures Split(Format(salt, hash), DOLLAR) == Parts(salt, hash)
  {
    FormatLength(salt, hash);
    FormatIsJoin(salt, hash);
    PartsHaveNoDollar(salt, hash);
    hide Format, Parts, SplitN, Join;
    SplitJoin(Parts(salt, hash), DOLLAR, |Format(salt, hash)| + 1);
  }

  /** The stored string splits into exactly the six parts it was made from. */
  lemma SplitOfFormat(salt: Text, hash: Text)
    ensures Split(Format(salt, hash), '$' as int)
         == [[], Ascii("argon2id"), Ascii("v=19"), Ascii("m=65536,t=3,p=2"),
             Base64.Encode(Base64.Std, salt), Base64.Encode(Base64.Std, hash)]
  {
    ParametersText();
    SplitIsParts(salt, hash);
    hide Split, Format, Ascii, Parameters, Base64.Encode;
  }

  /** What VerifyPassword answers for any stored text. */
  function Verifies(kdf: Kdf, encoded: Text, password: Text): bool {
    var parts := Split(encoded, DOLLAR);
    if |parts| != 6 then false
    else
      match (Base64.Decode(Base64.Std, parts[4]), Base64.Decode(Base64.Std, parts[5]))
      case (Some(salt), Some(expected)) => Derive(kdf, password, salt, |expected|) == expected
      case _ => false
  }

  /**
    A string made from a salt and a password's key verifies for exactly the passwords that derive the
    same key from that salt with the same parameters; so always for the password itself.
  */
  lemma StoredPasswordVerifies(kdf: Kdf, salt: Text, stored: Text, given: Text)
    requires IsKdf(kdf)
    ensures Verifies(kdf, Format(salt, kdf(stored, salt, 3, 65536, 2, 32)), given)
       <==> kdf(given, salt, 3, 65536, 2, 32) == kdf(stored, salt, 3, 65536, 2, 32)
  {
    var hash := kdf(stored, salt, 3, 65536, 2, 32);
    SplitOfFormat(salt, hash);
    Base64.DecodeEncode(Base64.Std, salt);
    Base64.DecodeEncode(Base64.Std, hash);
  }

  // ----- Bitwise operators, by binary digits -----

  function Xor(a: nat, b: nat): nat
    decreases a + b
  {
    if a == 0 && b == 0 then 0 else 2 * Xor(a / 2, b / 2) + if a % 2 != b % 2 then 1 else 0
  }

  function Or(a: nat, b: nat): nat
    decreases a + b
  {
    if a == 0 && b == 0 then 0 else 2 * Or(a / 2, b / 2) + if a % 2 == 1 || b % 2 == 1 then 1 else 0
  }

  lemma {:induction false} XorIsZero(a: nat, b: nat)
    ensures Xor(a, b) == 0 <==> a == b
    decreases a + b
  {
    if a != 0 || b != 0 {
      XorIsZero(a / 2, b / 2);
    }
  }

  lemma {:induction false} OrIsZero(a: nat, b: nat)
    ensures Or(a, b) == 0 <==> a == 0 && b == 0
    decreases a + b
  {
    if a != 0 || b != 0 {
      OrIsZero(a / 2, b / 2);
    }
  }

  // ----- The service -----

  class AuthService {
    const kdf: Kdf

    constructor (kdf: Kdf)
      ensures this.kdf == kdf
    {
      this.kdf := kdf;
    }

    /** random is what the random source yields, or None if it fails. */
    method HashPassword(password: Text, random: Option<Text>) returns (res: Option<Text>)
      requires random.Some? ==> |random.value| == 16
      ensures res.None? <==> random.None?
      ensures res.Some? ==> res.value == Format(random.value, kdf(password, random.value, 3, 65536, 2, 32))
      ensures res.Some? && IsKdf(kdf) ==> forall given ::
        Verifies(kdf, res.value, given)
        <==> kdf(given, random.value, 3, 65536, 2, 32) == kdf(password, random.value, 3, 65536, 2, 32)
    {
      hide Verifies, Format;
      if random.None? {
        return None;
      }
      var salt := random.value;
      var hash := Derive(kdf, password, salt, KEY_LENGTH);
      if IsKdf(kdf) {
        forall given {
          StoredPasswordVerifies(kdf, salt, password, given);
        }
      }
      return Some(Format(salt, hash));
    }

    method VerifyPassword(encoded: Text, password: Text) returns (ok: bool)
      requires IsKdf(kdf)
      ensures ok == Verifies(kdf, encoded, password)
      ensures var parts := Split(encoded, '$' as int);
        ok <==>
          && |parts| == 6
          && Base64.Decode(Base64.Std, parts[4]).Some? && Base64.Decode(Base64.Std, parts[5]).Some?
          && var salt, expected := Base64.Decode(Base64.Std, parts[4]).value, Base64.Decode(Base64.Std, parts[5]).value;
          kdf(password, salt, 3, 65536, 2, |expected|) == expected
    {
      var parts := Split(encoded, DOLLAR);
      if |parts| != 6 {
        return false;
      }
      var salt := Base64.Decode(Base64.Std, parts[4]);
      if salt.None? {
        return false;
      }
      var expected := Base64.Decode(Base64.Std, parts[5]);
      if expected.None? {
        return false;
      }
      var hash := Derive(kdf, password, salt.value, |expected.value|);
      if |hash| != |expected.value| {
        return false;
      }
      ok := SameBytes(hash, expected.value);
    }

    /** The comparison loop: every byte is looked at, and the differences are or-ed together. */
    method SameBytes(a: Text, b: Text) returns (same: bool)
      requires |a| == |b|
      ensures same <==> a == b
    {
      var diff: nat := 0;
      for i := 0 to |a|
        invariant diff == 0 <==> a[..i] == b[..i]
      {
        XorIsZero(a[i], b[i]);
        OrIsZero(diff, Xor(a[i], b[i]));
        diff := Or(diff, Xor(a[i], b[i]));
        assert a[..i + 1] == a[..i] + [a[i]] && b[..i + 1] == b[..i] + [b[i]];
      }
      assert a[..|a|] == a && b[..|b|] == b;
      return diff == 0;
    }
  }
}
