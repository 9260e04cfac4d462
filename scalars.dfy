/**
 * The scalar value types a slot can hold, with the codec each one dispatches to:
 * int64 and uint8 as one number, strings and names as one text value, soft object paths as
 * a two-key object.
 */
module Scalars {
  import opened Tokens
  import opened Options
  import D = Deserializer
  import I = Int64Library
  import U = Uint8Library
  import P = SoftObjectPathLibrary

  datatype ScalarType = Int64Type | Uint8Type | StringType | SoftObjectPathType

  datatype Scalar =
    | I64(i: I.int64)
    | U8(b: U.uint8)
    | Str(s: string)
    | Path(p: P.SoftObjectPath)

  predicate HasType(v: Scalar, t: ScalarType)
  {
    match t
    case Int64Type => v.I64?
    case Uint8Type => v.U8?
    case StringType => v.Str?
    case SoftObjectPathType => v.Path?
  }

  /** FTypeDefault: the default-constructed value, T(). */
  function Default(t: ScalarType): (v: Scalar)
    ensures HasType(v, t)
    ensures t == Int64Type ==> v.i == 0
    ensures t == Uint8Type ==> v.b == 0
    ensures t == StringType ==> v.s == ""
    ensures t == SoftObjectPathType ==> v.p == P.EmptyPath
  {
    match t
    case Int64Type => I64(0)
    case Uint8Type => U8(0)
    case StringType => Str("")
    case SoftObjectPathType => Path(P.EmptyPath)
  }

  /** FTypeSerializer<T>: the type's own codec. */
  function Serialize(v: Scalar): seq<Token>
  {
    match v
    case I64(i) => I.TypeSerialize(i)
    case U8(b) => U.TypeSerialize(b)
    case Str(s) => [Value(Text(s))]
    case Path(p) => P.TypeSerialize(p)
  }

  /**
   * FTypeDeserializer<T>: the value read from the element at the head of c, seeded with prev.
   * A string reads one text value and keeps prev otherwise, the shape of the number codecs.
   */
  function Deserialize(t: ScalarType, c: D.Cursor, prev: Scalar): (r: Scalar)
    requires HasType(prev, t)
    ensures HasType(r, t)
  {
    match t
    case Int64Type => I64(I.TypeDeserialize(c, prev.i).0)
    case Uint8Type => U8(U.TypeDeserialize(c, prev.b).0)
    case StringType => Str(match D.ReadText(c) case Some(s) => s case None => prev.s)
    case SoftObjectPathType => Path(P.Decode(c).path)
  }

  /** Every serialized scalar is one whole element of the stream. */
  lemma SerializeIsGroup(v: Scalar)
    ensures IsGroup(Serialize(v))
  {
    match v
    case I64(i) => I.SerializeIsOneValue(i);
    case U8(b) => U.SerializeIsOneValue(b);
    case Str(s) =>
    case Path(p) =>
      var s := P.TypeSerialize(p);
      var body := s[1..|s| - 1];
      var a := P.Entry(P.AssetPathNameParam, p.assetPathName);
      var sp := P.Entry(P.SubPathStringParam, p.subPathString);
      assert body == a + sp;
      assert IsGroup(a) by { GroupEntry(P.AssetPathNameParam, p.assetPathName); }
      assert IsGroup(sp) by { GroupEntry(P.SubPathStringParam, p.subPathString); }
      GroupSkip(a, []);
      GroupSkip(sp, []);
      BalancedConcat(a, sp);
  }

  lemma GroupEntry(k: string, v: string)
    ensures IsGroup(P.Entry(k, v))
  {
    var e := P.Entry(k, v);
    assert e[1..|e| - 1] == [Value(Text(v))];
    assert Reach([Value(Text(v))], 0, 0) by { assert [Value(Text(v))][1..] == []; }
  }

  /** Reading back what was written gives the value back, whatever the seed. */
  lemma RoundTrip(v: Scalar, t: ScalarType, rest: D.Cursor, prev: Scalar)
    requires HasType(v, t) && HasType(prev, t)
    ensures Deserialize(t, Serialize(v) + rest, prev) == v
  {
    match v
    case I64(i) => I.RoundTrip(i, rest, prev.i);
    case U8(b) => U.RoundTrip(b, rest, prev.b);
    case Str(s) =>
    case Path(p) => P.RoundTrip(p, rest);
  }
}
