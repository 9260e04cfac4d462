/** The uint8 scalar codec: one value token out, one value token in with fallback. */
module Uint8Library {
  import opened Tokens
  import opened Options
  import D = Deserializer

  newtype uint8 = x: int | 0 <= x < 0x100

  /** ReadValue(uint8&): succeeds on a number in the range 0..255. */
  function ReadUint8(c: D.Cursor): (r: Option<uint8>)
  {
    match D.ReadNum(c, 0, 0x100)
    case Some(n) => Some(n as uint8)
    case None => None
  }

  function TypeSerialize(v: uint8): seq<Token>
  {
    [Value(Num(v as int))]
  }

  /** Returns the value read and the cursor after it, or the previous value and the cursor untouched. */
  function TypeDeserialize(c: D.Cursor, prev: uint8): (uint8, D.Cursor)
  {
    match ReadUint8(c)
    case Some(v) => (v, c[1..])
    case None => (prev, c)
  }

  /** Serialization writes exactly one value token, carrying the value; it is one whole element. */
  lemma SerializeIsOneValue(v: uint8)
    ensures |TypeSerialize(v)| == 1
    ensures TypeSerialize(v)[0] == Value(Num(v as int))
    ensures IsGroup(TypeSerialize(v))
  {
  }

  /** A successful read returns the number read. */
  lemma DeserializeSuccess(c: D.Cursor, prev: uint8)
    requires ReadUint8(c).Some?
    ensures TypeDeserialize(c, prev).0 as int == c[0].atom.n
  {
  }

  /** A failed read returns the previous value and consumes nothing. */
  lemma DeserializeFallback(c: D.Cursor, prev: uint8)
    requires ReadUint8(c).None?
    ensures TypeDeserialize(c, prev) == (prev, c)
  {
  }

  /** At most one value token is consumed, and no structural token. */
  lemma DeserializeReadsAtMostOneValue(c: D.Cursor, prev: uint8)
    ensures var rest := TypeDeserialize(c, prev).1;
            rest == c || (|c| > 0 && c[0].Value? && rest == c[1..])
  {
  }

  lemma RoundTrip(v: uint8, rest: D.Cursor, prev: uint8)
    ensures TypeDeserialize(TypeSerialize(v) + rest, prev) == (v, rest)
  {
    assert (TypeSerialize(v) + rest)[1..] == rest;
  }
}
