/** UUIDs as 128-bit numbers, which is how the database orders them, and their text form. */
module Uuid {
  import opened Wrappers
  import opened Text
  import Arithmetic

  function Pow16(n: nat): (p: nat)
    ensures p > 0
  {
    if n == 0 then 1 else 16 * Pow16(n - 1)
  }

  predicate IsUuid(u: nat) { u < Pow16(32) }

  function HexDigit(v: nat): byte
    requires v < 16
  {
    if v < 10 then ZERO + v else 'a' as int + (v - 10)
  }

  function HexValue(b: byte): Option<nat> {
    if IsDigit(b) then Some(b - ZERO)
    else if 'a' as int <= b <= 'f' as int then Some(b - 'a' as int + 10)
    else if 'A' as int <= b <= 'F' as int then Some(b - 'A' as int + 10)
    else None
  }

  /** The last `width` hexadecimal digits of n. */
  function Hex(n: nat, width: nat): (t: Text)
    ensures |t| == width
  {
    if width == 0 then [] else Hex(n / 16, width - 1) + [HexDigit(n % 16)]
  }

  function Unhex(t: Text): Option<nat> {
    if t == [] then Some(0)
    else
      match (Unhex(t[..|t| - 1]), HexValue(t[|t| - 1]))
      case (Some(high), Some(low)) => Some(16 * high + low)
      case _ => None
  }

  function Hyphenate(h: Text): Text
    requires |h| == 32
  {
    h[..8] + [MINUS] + h[8..12] + [MINUS] + h[12..16] + [MINUS] + h[16..20] + [MINUS] + h[20..]
  }

  /** The canonical form 8-4-4-4-12, in lower case. */
  function Format(u: nat): Text {
    Hyphenate(Hex(u, 32))
  }

  /** The number a text of the form 8-4-4-4-12 denotes, in either case. */
  function Parse(t: Text): Option<nat> {
    if |t| == 36 && t[8] == t[13] == t[18] == t[23] == MINUS then
      Unhex(t[..8] + t[9..13] + t[14..18] + t[19..23] + t[24..])
    else None
  }

  lemma {:induction false} UnhexOfHex(n: nat, width: nat)
    requires n < Pow16(width)
    ensures Unhex(Hex(n, width)) == Some(n)
    ensures BAR !in Hex(n, width)
  {
    if width > 0 {
      UnhexOfHex(n / 16, width - 1);
      assert Hex(n, width)[..width - 1] == Hex(n / 16, width - 1);
    }
  }

  lemma HyphensApart(h: Text)
    requires |h| == 32
    ensures var t := Hyphenate(h);
      && |t| == 36 && t[8] == t[13] == t[18] == t[23] == MINUS
      && t[..8] + t[9..13] + t[14..18] + t[19..23] + t[24..] == h
  {
    var t := Hyphenate(h);
    assert t[..8] == h[..8];
    assert t[9..13] == h[8..12];
    assert t[14..18] == h[12..16];
    assert t[19..23] == h[16..20];
    assert t[24..] == h[20..];
  }

  lemma HyphenateHasNo(h: Text, b: byte)
    requires |h| == 32 && b !in h && b != MINUS
    ensures b !in Hyphenate(h)
  {
  }

  lemma ParseOfFormat(u: nat)
    requires IsUuid(u)
    ensures Parse(Format(u)) == Some(u)
    ensures BAR !in Format(u)
  {
    hide Hex, Unhex, Hyphenate, Pow16;
    UnhexOfHex(u, 32);
    HyphensApart(Hex(u, 32));
    HyphenateHasNo(Hex(u, 32), BAR);
  }

  lemma {:induction false} HexDigits(n: nat, width: nat, i: nat)
    requires i < width
    ensures var digit := n / Pow16(width - 1 - i) % 16;
      Hex(n, width)[i] == if digit < 10 then 48 + digit else 87 + digit
    decreases width
  {
    if i < width - 1 {
      HexDigits(n / 16, width - 1, i);
      Arithmetic.DivideTwice(n, 16, Pow16(width - 2 - i));
    }
  }

  /** Each digit of the text, and where the hyphens are. */
  lemma FormatDigits(u: nat, i: nat)
    requires i < 32
    ensures var digit := u / Pow16(31 - i) % 16;
      var hyphens := if i < 8 then 0 else if i < 12 then 1 else if i < 16 then 2 else if i < 20 then 3 else 4;
      |Format(u)| == 36 && Format(u)[i + hyphens] == if digit < 10 then 48 + digit else 87 + digit
    ensures Format(u)[8] == Format(u)[13] == Format(u)[18] == Format(u)[23] == '-' as int
  {
    HexDigits(u, 32, i);
    hide Hex, Pow16;
  }

  /** Upper-case digits denote the same number, and nothing but hexadecimal digits does. */
  lemma HexValues(b: byte)
    ensures HexValue(b) == if 48 <= b <= 57 then Some(b - 48)
                           else if 97 <= b <= 102 then Some(b - 87)
                           else if 65 <= b <= 70 then Some(b - 55)
                           else None
  {
  }

  predicate IsHex(b: byte) { 48 <= b <= 57 || 97 <= b <= 102 || 65 <= b <= 70 }

  lemma {:induction false} UnhexAccepts(t: Text)
    ensures Unhex(t).Some? <==> forall b :: b in t ==> IsHex(b)
  {
    if t != [] {
      var init, last := t[..|t| - 1], t[|t| - 1];
      UnhexAccepts(init);
      HexValues(last);
      assert t == init + [last] && last in t;
      assert forall b :: b in init ==> b in t;
      assert forall b :: b in t ==> b in init || b == last;
      assert HexValue(last).Some? <==> IsHex(last);
      hide IsHex, HexValue;
    }
  }

  lemma WithoutHyphens(t: Text)
    requires |t| == 36
    ensures var h := t[..8] + t[9..13] + t[14..18] + t[19..23] + t[24..];
      (forall b :: b in h ==> IsHex(b)) <==>
        forall i :: 0 <= i < 36 && i != 8 && i != 13 && i != 18 && i != 23 ==> IsHex(t[i])
  {
    hide IsHex;
    var h := t[..8] + t[9..13] + t[14..18] + t[19..23] + t[24..];
    forall i | 0 <= i < 36 && i != 8 && i != 13 && i != 18 && i != 23
      ensures t[i] in h
    {
      var hyphens := if i < 8 then 0 else if i < 13 then 1 else if i < 18 then 2 else if i < 23 then 3 else 4;
      assert h[i - hyphens] == t[i];
    }
  }

  /** The texts that denote a UUID: hyphens in four places, hexadecimal digits of either case in all others. */
  lemma ParseAccepts(t: Text)
    ensures Parse(t).Some? <==>
      && |t| == 36 && t[8] == '-' as int && t[13] == '-' as int && t[18] == '-' as int && t[23] == '-' as int
      && forall i :: 0 <= i < 36 && i != 8 && i != 13 && i != 18 && i != 23 ==> IsHex(t[i])
  {
    hide Unhex, IsHex;
    if |t| == 36 {
      var h := t[..8] + t[9..13] + t[14..18] + t[19..23] + t[24..];
      UnhexAccepts(h);
      WithoutHyphens(t);
    }
  }
}
