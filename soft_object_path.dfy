/**
 * The soft-object-path codec: a path is written as a two-key object
 * { "AssetPathName": name, "SubPathString": string } and read back from an object whose
 * keys may come in any order, next to keys it ignores.
 */
module SoftObjectPathLibrary {
  import opened Tokens
  import opened Options
  import D = Deserializer

  /** An asset name (the engine's NAME_None is the empty string here) and a sub-object path. */
  datatype SoftObjectPath = SoftObjectPath(assetPathName: string, subPathString: string)

  const AssetPathNameParam: string := "AssetPathName"
  const SubPathStringParam: string := "SubPathString"

  /** The default-constructed path. */
  const EmptyPath := SoftObjectPath("", "")

  function TypeSerialize(p: SoftObjectPath): seq<Token>
  {
    [ WriteObject,
      Key(AssetPathNameParam), Value(Text(p.assetPathName)), PopKey(AssetPathNameParam),
      Key(SubPathStringParam), Value(Text(p.subPathString)), PopKey(SubPathStringParam),
      PopObject ]
  }

  /** The locals of the key loop: the parts read so far and whether each key was seen. */
  datatype KeyState = KeyState(assetPathName: string, subPathString: string,
                               hasAssetPathName: bool, hasSubPathString: bool)

  const Start := KeyState("", "", false, false)

  /**
   * One key entry at the head of `entry`, key k: a known key sets its flag and, when the value
   * reads as text, its part; other keys change nothing.
   */
  function Step(st: KeyState, k: string, entry: D.Cursor): KeyState
    requires |entry| > 0
  {
    var v := D.ReadText(entry[1..]);
    if k == AssetPathNameParam then
      st.(hasAssetPathName := true, assetPathName := if v.Some? then v.value else st.assetPathName)
    else if k == SubPathStringParam then
      st.(hasSubPathString := true, subPathString := if v.Some? then v.value else st.subPathString)
    else st
  }

  /** The `while (ReadKey(Key))` loop: the state after all key entries, and the cursor after them. */
  function ReadKeys(c: D.Cursor, st: KeyState): (KeyState, D.Cursor)
    decreases |c|
  {
    match D.ReadKey(c)
    case None => (st, c)
    case Some(k) => ReadKeys(D.PopKey(c), Step(st, k, c))
  }

  /** The result of a read: the path, the cursor after it, and whether the source logs a warning. */
  datatype Decoded = Decoded(path: SoftObjectPath, rest: D.Cursor, warned: bool)

  function Decode(c: D.Cursor): Decoded
  {
    if D.ReadObject(c) then
      var (st, after) := ReadKeys(c[1..], Start);
      Decoded(SoftObjectPath(st.assetPathName, st.subPathString), D.PopObject(after),
              !st.hasAssetPathName || !st.hasSubPathString)
    else
      Decoded(EmptyPath, c, true)
  }

  /**
   * TypeDeserialize. The previous value is an argument, as in the source, and is never read:
   * the result is Decode(c), a function of the stream alone.
   */
  method TypeDeserialize(c: D.Cursor, prev: SoftObjectPath) returns (r: SoftObjectPath, rest: D.Cursor, warned: bool)
    ensures Decoded(r, rest, warned) == Decode(c)
  {
    if !D.ReadObject(c) {
      return EmptyPath, c, true;
    }
    var assetPathNameValue := "";
    var subPathStringValue := "";
    var hasAssetPathName := false;
    var hasSubPathString := false;
    var cur := c[1..];
    while D.ReadKey(cur).Some?
      invariant ReadKeys(cur, KeyState(assetPathNameValue, subPathStringValue, hasAssetPathName, hasSubPathString))
                == ReadKeys(c[1..], Start)
      decreases |cur|
    {
      var key := D.ReadKey(cur).value;
      var value := D.ReadText(cur[1..]);
      if key == AssetPathNameParam {
        hasAssetPathName := true;
        if value.Some? {
          assetPathNameValue := value.value;
        }
      } else if key == SubPathStringParam {
        hasSubPathString := true;
        if value.Some? {
          subPathStringValue := value.value;
        }
      }
      cur := D.PopKey(cur);
    }
    rest := D.PopObject(cur);
    warned := !hasAssetPathName || !hasSubPathString;
    r := SoftObjectPath(assetPathNameValue, subPathStringValue);
  }

  /** The key entry the serializer writes for key k with text v. */
  function Entry(k: string, v: string): seq<Token>
  {
    [Key(k), Value(Text(v)), PopKey(k)]
  }

  lemma EntrySkip(k: string, v: string, t: D.Cursor)
    ensures D.PopKey(Entry(k, v) + t) == t
    ensures D.ReadKey(Entry(k, v) + t) == Some(k)
    ensures D.ReadText((Entry(k, v) + t)[1..]) == Some(v)
  {
    var e := Entry(k, v);
    assert e[1..|e| - 1] == [Value(Text(v))];
    assert Reach([Value(Text(v))], 0, 0) by { assert [Value(Text(v))][1..] == []; }
    GroupSkip(e, t);
  }

  /** The serialized form is exactly: object, asset key entry, sub-path key entry, end of object. */
  lemma SerializeShape(p: SoftObjectPath)
    ensures TypeSerialize(p) ==
      [WriteObject] + Entry(AssetPathNameParam, p.assetPathName) + Entry(SubPathStringParam, p.subPathString) + [PopObject]
  {
  }

  /** The key loop over the asset entry then the sub-path entry sets both parts and both flags. */
  lemma ReadBothKeys(asset: string, sub: string, tail: D.Cursor)
    ensures ReadKeys(Entry(AssetPathNameParam, asset) + (Entry(SubPathStringParam, sub) + tail), Start)
            == ReadKeys(tail, KeyState(asset, sub, true, true))
  {
    var a := Entry(AssetPathNameParam, asset);
    var s := Entry(SubPathStringParam, sub);
    EntrySkip(AssetPathNameParam, asset, s + tail);
    EntrySkip(SubPathStringParam, sub, tail);
    assert SubPathStringParam != AssetPathNameParam by { assert SubPathStringParam[0] != AssetPathNameParam[0]; }
    var st1 := Step(Start, AssetPathNameParam, a + (s + tail));
    assert st1 == KeyState(asset, "", true, false);
    assert Step(st1, SubPathStringParam, s + tail) == KeyState(asset, sub, true, true);
  }

  /** Reading back what was written gives the same path, consumes exactly it, and warns of nothing. */
  lemma RoundTrip(p: SoftObjectPath, rest: D.Cursor)
    ensures Decode(TypeSerialize(p) + rest) == Decoded(p, rest, false)
  {
    var a := Entry(AssetPathNameParam, p.assetPathName);
    var s := Entry(SubPathStringParam, p.subPathString);
    var tail := [PopObject] + rest;
    assert TypeSerialize(p) + rest == [WriteObject] + (a + (s + tail));
    assert (TypeSerialize(p) + rest)[1..] == a + (s + tail);
    ReadBothKeys(p.assetPathName, p.subPathString, tail);
    var st2 := KeyState(p.assetPathName, p.subPathString, true, true);
    assert ReadKeys(tail, st2) == (st2, tail);
    assert D.PopObject(tail) == rest;
  }

  /** The two keys are accepted in the opposite order too. */
  lemma KeysInAnyOrder(asset: string, sub: string, rest: D.Cursor)
    ensures Decode([WriteObject] + Entry(SubPathStringParam, sub) + Entry(AssetPathNameParam, asset) + [PopObject] + rest)
            == Decoded(SoftObjectPath(asset, sub), rest, false)
  {
    var a := Entry(AssetPathNameParam, asset);
    var s := Entry(SubPathStringParam, sub);
    var tail := [PopObject] + rest;
    var c := [WriteObject] + s + a + [PopObject] + rest;
    assert c == [WriteObject] + (s + (a + tail));
    assert c[1..] == s + (a + tail);
    EntrySkip(SubPathStringParam, sub, a + tail);
    EntrySkip(AssetPathNameParam, asset, tail);
    assert SubPathStringParam != AssetPathNameParam by { assert SubPathStringParam[0] != AssetPathNameParam[0]; }
    var st1 := Step(Start, SubPathStringParam, s + (a + tail));
    assert st1 == KeyState("", sub, false, true);
    var st2 := Step(st1, AssetPathNameParam, a + tail);
    assert st2 == KeyState(asset, sub, true, true);
    assert ReadKeys(tail, st2) == (st2, tail);
    assert ReadKeys(a + tail, st1) == ReadKeys(tail, st2);
    assert ReadKeys(s + (a + tail), Start) == ReadKeys(a + tail, st1);
    assert D.PopObject(tail) == rest;
  }

  /** A key entry with any other key is skipped whole, whatever its value, and changes nothing. */
  lemma UnknownKeySkipped(k: string, value: seq<Token>, c: D.Cursor, st: KeyState)
    requires k != AssetPathNameParam && k != SubPathStringParam
    requires IsGroup(value)
    ensures ReadKeys([Key(k)] + value + [PopKey(k)] + c, st) == ReadKeys(c, st)
  {
    var e := [Key(k)] + value + [PopKey(k)];
    GroupSkip(value, []);
    assert value + [] == value;
    Wrap(Key(k), value, PopKey(k));
    GroupSkip(e, c);
    assert (e + c)[0] == Key(k);
  }

  /** A missing key only warns: the result is built from what was read, the missing part defaulted. */
  lemma MissingSubPathDefaults(asset: string, rest: D.Cursor)
    ensures Decode([WriteObject] + Entry(AssetPathNameParam, asset) + [PopObject] + rest)
            == Decoded(SoftObjectPath(asset, ""), rest, true)
  {
    var a := Entry(AssetPathNameParam, asset);
    var tail := [PopObject] + rest;
    var c := [WriteObject] + a + [PopObject] + rest;
    assert c == [WriteObject] + (a + tail);
    assert c[1..] == a + tail;
    EntrySkip(AssetPathNameParam, asset, tail);
    var st1 := Step(Start, AssetPathNameParam, a + tail);
    assert ReadKeys(tail, st1) == (st1, tail);
    assert ReadKeys(a + tail, Start) == ReadKeys(tail, st1);
    assert D.PopObject(tail) == rest;
  }

  /** A missing asset name likewise only warns: the sub-path is kept and the asset name defaulted. */
  lemma MissingAssetDefaults(sub: string, rest: D.Cursor)
    ensures Decode([WriteObject] + Entry(SubPathStringParam, sub) + [PopObject] + rest)
            == Decoded(SoftObjectPath("", sub), rest, true)
  {
    var s := Entry(SubPathStringParam, sub);
    var tail := [PopObject] + rest;
    var c := [WriteObject] + s + [PopObject] + rest;
    assert c == [WriteObject] + (s + tail);
    assert c[1..] == s + tail;
    EntrySkip(SubPathStringParam, sub, tail);
    assert SubPathStringParam != AssetPathNameParam by { assert SubPathStringParam[0] != AssetPathNameParam[0]; }
    var st1 := Step(Start, SubPathStringParam, s + tail);
    assert st1 == KeyState("", sub, false, true);
    assert ReadKeys(tail, st1) == (st1, tail);
    assert ReadKeys(s + tail, Start) == ReadKeys(tail, st1);
    assert D.PopObject(tail) == rest;
  }

  /** An object with neither key gives the empty path, consumes the object, and warns. */
  lemma EmptyObjectDefaults(rest: D.Cursor)
    ensures Decode([WriteObject, PopObject] + rest) == Decoded(EmptyPath, rest, true)
  {
    var tail := [PopObject] + rest;
    assert ([WriteObject, PopObject] + rest)[1..] == tail;
    assert ReadKeys(tail, Start) == (Start, tail);
    assert D.PopObject(tail) == rest;
  }

  /** When the stream does not open an object, the result is the empty path, not the previous value. */
  lemma NotAnObjectGivesEmptyPath(c: D.Cursor)
    requires !D.ReadObject(c)
    ensures Decode(c) == Decoded(EmptyPath, c, true)
  {
  }
}
