/** The pagination cursor: id, creation time and vote count, printed, joined by bars and wrapped in base64. */
module Cursor {
  import opened Wrappers
  import opened Text
  import Base64

  /** createdAt is in nanoseconds since the epoch. */
  datatype CursorData = CursorData(id: Text, createdAt: int, voteCount: int)

  predicate InRange(c: CursorData) {
    FitsIn(c.createdAt, 64) && FitsIn(c.voteCount, 32)
  }

  function Raw(c: CursorData): Text {
    c.id + [BAR] + (Decimal(c.createdAt) + [BAR] + Decimal(c.voteCount))
  }

  /** What EncodeCursor and its two copies in the services produce. */
  function Encode(c: CursorData): Text {
    Base64.Encode(Base64.Url, Raw(c))
  }

  /** The text before base64, split and scanned. */
  function DecodeRaw(raw: Text): Option<CursorData> {
    var parts := SplitN(raw, BAR, 3);
    if |parts| != 3 then None
    else
      match (ScanInt(parts[1], 64), ScanInt(parts[2], 32))
      case (Some(createdAt), Some(voteCount)) => Some(CursorData(parts[0], createdAt, voteCount))
      case _ => None
  }

  /** What DecodeCursor and its copy in the repository accept. */
  function Decode(encoded: Text): Option<CursorData> {
    match Base64.Decode(Base64.Url, encoded)
    case None => None
    case Some(raw) => DecodeRaw(raw)
  }

  lemma JoinThree(a: Text, b: Text, c: Text)
    ensures Join([a, b, c], BAR) == a + [BAR] + (b + [BAR] + c)
  {
    assert [a, b, c][1..] == [b, c] && [b, c][1..] == [c];
    assert Join([b, c], BAR) == b + [BAR] + c;
  }

  lemma SplitRaw(c: CursorData)
    requires BAR !in c.id
    ensures SplitN(Raw(c), BAR, 3) == [c.id, Decimal(c.createdAt), Decimal(c.voteCount)]
  {
    hide SplitN, Join, Decimal;
    JoinThree(c.id, Decimal(c.createdAt), Decimal(c.voteCount));
    DecimalHasNo(c.createdAt, BAR);
    SplitJoin([c.id, Decimal(c.createdAt), Decimal(c.voteCount)], BAR, 3);
  }

  lemma RawRoundTrip(c: CursorData)
    requires InRange(c)
    ensures DecodeRaw(Raw(c)) == Some(c) <==> BAR !in c.id
  {
    hide SplitN, Raw, ScanInt, Decimal;
    if BAR !in c.id {
      SplitRaw(c);
      ScanDecimal(c.createdAt, 64);
      ScanDecimal(c.voteCount, 32);
    } else {
      SplitParts(Raw(c), BAR, 3);
    }
  }

  /**
    A cursor decodes to the triple it was made from exactly when the id has no bar in it, for every
    64-bit time and 32-bit count; and it is never the empty string, which would mean "no cursor".
  */
  lemma RoundTrip(c: CursorData)
    requires InRange(c)
    ensures Decode(Encode(c)) == Some(c) <==> BAR !in c.id
    ensures Encode(c) != []
  {
    hide Base64.Encode, Base64.Decode, DecodeRaw;
    Base64.DecodeEncode(Base64.Url, Raw(c));
    RawRoundTrip(c);
  }

  /** The text inside a cursor: id, nanoseconds and vote count, in this order. */
  lemma CursorText(c: CursorData)
    ensures Base64.Decode(Base64.Url, Encode(c))
         == Some(c.id + ['|' as int] + Decimal(c.createdAt) + ['|' as int] + Decimal(c.voteCount))
  {
    hide Base64.Encode, Base64.Decode, Decimal;
    Base64.DecodeEncode(Base64.Url, Raw(c));
    assert Raw(c) == c.id + ['|' as int] + Decimal(c.createdAt) + ['|' as int] + Decimal(c.voteCount);
  }

  /** Whatever the decoder accepts is in range and has a bar-free id. */
  lemma Accepted(encoded: Text)
    requires Decode(encoded).Some?
    ensures InRange(Decode(encoded).value) && BAR !in Decode(encoded).value.id
  {
    SplitParts(Base64.Decode(Base64.Url, encoded).value, BAR, 3);
  }

  /**
    Canonicalisation: any text the decoder accepts, however it is spelt, denotes one position, and
    encoding that position again gives a cursor for the same position.
  */
  lemma Canonical(encoded: Text)
    requires Decode(encoded).Some?
    ensures Decode(Encode(Decode(encoded).value)) == Decode(encoded)
  {
    Accepted(encoded);
    RoundTrip(Decode(encoded).value);
  }
}
