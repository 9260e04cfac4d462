/** The int64 scalar codec: one value token out, one value token in with fallback. */
module Int64Library {
  import opened Tokens
  import opened Options
  import D = Deserializer

  newtype int64 = x: int | -0x8000_0000_0000_0000 <= x < 0x8000_0000_0000_0000

  /** ReadValue(int64&): succeeds on a number in the int64 range. */
  function ReadInt64(c: D.Cursor): (r: Option<int64>)
  {
    match D.ReadNum(c, -0x8000_0000_0000_0000, 0x8000_0000_0000_0000)
    case Some(n) => Some(n as int64)
    case None => None
  }

  function TypeSerialize(v: int64): seq<Token>
  {
    [Value(Num(v as int))]
  }

  /** Returns the value read and the cursor after it, or the previous value and the cursor untouched. */
  function TypeDeserialize(c: D.Cursor, prev: int64): (int64, D.Cursor)
  {
    match ReadInt64(c)
    case Some(v) => (v, c[1..])
    case None => (prev, c)
  }

  /** Serialization writes exactly one value token, carrying the value; it is one whole element. */
  lemma SerializeIsOneValue(v: int64)
    ensures |TypeSerialize(v)| == 1
    ensures TypeSerialize(v)[0] == Value(Num(v as int))
    ensures IsGroup(TypeSerialize(v))
  {
  }

  /** A successful read returns the number read. */
  lemma DeserializeSuccess(c: D.Cursor, prev: int64)
    requires ReadInt64(c).Some?
    ensures TypeDeserialize(c, prev).0 as int == c[0].atom.n
  {
  }

  /** A failed read returns the previous value and consumes nothing. */
  lemma DeserializeFallback(c: D.Cursor, prev: int64)
    requires ReadInt64(c).None?
    ensures TypeDeserialize(c, prev) == (prev, c)
  {
  }

  /** At most one value token is consumed, and no structural token. */
  lemma DeserializeReadsAtMostOneValue(c: D.Cursor, prev: int64)
    ensures var rest := TypeDeserialize(c, prev).1;
            rest == c || (|c| > 0 && c[0].Value? && rest == c[1..])
  {
  }

  lemma RoundTrip(v: int64, rest: D.Cursor, prev: int64)
    ensures TypeDeserialize(TypeSerialize(v) + rest, prev) == (v, rest)
  {
    assert (TypeSerialize(v) + rest)[1..] == rest;
  }
}
