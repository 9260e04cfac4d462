/** Optional values: a null pointer, an absent key, a failed read. */
module Options {
  datatype Option<+T> = None | Some(value: T)
}

/**
 * The abstract serializer interface of the data layer, as the stream of calls a serializer
 * receives: WriteArray/PopArray, WriteObject/PopObject, WriteKey/PopKey and WriteValue.
 * A serializer's output is the sequence of these tokens, in call order.
 */
module Tokens {

  /** The scalar payload of a WriteValue call. */
  datatype Atom = Num(n: int) | Text(s: string) | Null

  datatype Token =
    | WriteArray | PopArray
    | WriteObject | PopObject
    | Key(name: string) | PopKey(name: string)
    | Value(atom: Atom)

  predicate Opens(t: Token) { t.WriteArray? || t.WriteObject? || t.Key? }

  predicate Closes(t: Token) { t.PopArray? || t.PopObject? || t.PopKey? }

  /**
   * Number of tokens of s up to and including the closing token that takes the nesting depth
   * from d back to zero (all of s when there is none).
   */
  function Scan(s: seq<Token>, d: nat): (n: nat)
    requires d > 0
    ensures n <= |s|
    ensures s != [] ==> 0 < n
    decreases |s|
  {
    if s == [] then 0
    else if Opens(s[0]) then 1 + Scan(s[1..], d + 1)
    else if Closes(s[0]) then (if d == 1 then 1 else 1 + Scan(s[1..], d - 1))
    else 1 + Scan(s[1..], d)
  }

  /** Length of the element (a value, an array, an object or a key entry) at the head of s. */
  function GroupLen(s: seq<Token>): (n: nat)
    ensures n <= |s|
    ensures s != [] ==> 0 < n
  {
    if s == [] then 0
    else if Opens(s[0]) then 1 + Scan(s[1..], 1)
    else 1
  }

  /** What remains of s after the element at its head. */
  function Skip(s: seq<Token>): (r: seq<Token>)
    ensures |r| <= |s|
    ensures s != [] ==> |r| < |s|
    ensures r == s[|s| - |r|..]
  {
    s[GroupLen(s)..]
  }

  /** Going through s from nesting depth k never closes below zero and ends at depth j. */
  ghost predicate Reach(s: seq<Token>, k: nat, j: nat)
    decreases |s|
  {
    if s == [] then k == j
    else if Opens(s[0]) then Reach(s[1..], k + 1, j)
    else if Closes(s[0]) then k > 0 && Reach(s[1..], k - 1, j)
    else Reach(s[1..], k, j)
  }

  /** s closes exactly what it opens: a sequence of whole elements. */
  ghost predicate Balanced(s: seq<Token>) { Reach(s, 0, 0) }

  /** A single whole element: one value, or an opener, a balanced body and a closer. */
  ghost predicate IsGroup(g: seq<Token>)
  {
    || (|g| == 1 && g[0].Value?)
    || (|g| >= 2 && Opens(g[0]) && Closes(g[|g| - 1]) && Balanced(g[1..|g| - 1]))
  }

  function Concat(gs: seq<seq<Token>>): seq<Token>
  {
    if gs == [] then [] else gs[0] + Concat(gs[1..])
  }

  lemma {:induction false} ReachConcat(a: seq<Token>, b: seq<Token>, k: nat, j: nat, m: nat)
    requires Reach(a, k, j) && Reach(b, j, m)
    ensures Reach(a + b, k, m)
    decreases |a|
  {
    if a == [] {
      assert a + b == b;
    } else {
      assert (a + b)[1..] == a[1..] + b;
      if Opens(a[0]) {
        ReachConcat(a[1..], b, k + 1, j, m);
      } else if Closes(a[0]) {
        ReachConcat(a[1..], b, k - 1, j, m);
      } else {
        ReachConcat(a[1..], b, k, j, m);
      }
    }
  }

  lemma {:induction false} ReachShift(s: seq<Token>, k: nat, j: nat, x: nat)
    requires Reach(s, k, j)
    ensures Reach(s, k + x, j + x)
    decreases |s|
  {
    if s != [] {
      if Opens(s[0]) {
        ReachShift(s[1..], k + 1, j, x);
      } else if Closes(s[0]) {
        ReachShift(s[1..], k - 1, j, x);
      } else {
        ReachShift(s[1..], k, j, x);
      }
    }
  }

  /** Scanning over a stretch that ends k levels up leaves the scan k levels higher. */
  lemma {:induction false} ScanOver(g: seq<Token>, t: seq<Token>, k: nat, d: nat)
    requires Reach(g, k, 0) && d > 0
    ensures Scan(g + t, d + k) == |g| + Scan(t, d)
    decreases |g|
  {
    if g == [] {
      assert g + t == t;
    } else {
      assert (g + t)[0] == g[0];
      assert (g + t)[1..] == g[1..] + t;
      if Opens(g[0]) {
        ScanOver(g[1..], t, k + 1, d);
      } else if Closes(g[0]) {
        ScanOver(g[1..], t, k - 1, d);
      } else {
        ScanOver(g[1..], t, k, d);
      }
    }
  }

  /** A whole element is skipped exactly, whatever follows it, and is itself balanced. */
  lemma GroupSkip(g: seq<Token>, t: seq<Token>)
    requires IsGroup(g)
    ensures GroupLen(g + t) == |g|
    ensures Skip(g + t) == t
    ensures Balanced(g)
    ensures !Closes(g[0])
  {
    if |g| == 1 {
      assert (g + t)[0] == g[0];
      assert Reach(g[1..], 0, 0);
    } else {
      NestedSkip(g, t);
      NestedBalanced(g);
    }
  }

  lemma NestedSkip(g: seq<Token>, t: seq<Token>)
    requires |g| >= 2 && Opens(g[0]) && Closes(g[|g| - 1]) && Balanced(g[1..|g| - 1])
    ensures GroupLen(g + t) == |g| && Skip(g + t) == t
  {
    var body := g[1..|g| - 1];
    var c := g[|g| - 1];
    assert (g + t)[0] == g[0];
    assert (g + t)[1..] == body + ([c] + t);
    ScanOver(body, [c] + t, 0, 1);
    assert ([c] + t)[0] == c;
    assert (g + t)[|g|..] == t;
  }

  lemma NestedBalanced(g: seq<Token>)
    requires |g| >= 2 && Opens(g[0]) && Closes(g[|g| - 1]) && Balanced(g[1..|g| - 1])
    ensures Balanced(g)
  {
    var body := g[1..|g| - 1];
    var c := g[|g| - 1];
    ReachShift(body, 0, 0, 1);
    assert Reach([c], 1, 0) by { assert [c][1..] == []; }
    ReachConcat(body, [c], 1, 1, 0);
    assert g[1..] == body + [c];
  }

  /** An opener, a balanced body and a closer make one element. */
  lemma Wrap(o: Token, body: seq<Token>, c: Token)
    requires Opens(o) && Closes(c) && Balanced(body)
    ensures IsGroup([o] + body + [c])
  {
    var g := [o] + body + [c];
    assert g[1..|g| - 1] == body;
  }

  lemma {:induction false} ConcatBalanced(gs: seq<seq<Token>>)
    requires forall i :: 0 <= i < |gs| ==> Balanced(gs[i])
    ensures Balanced(Concat(gs))
    decreases |gs|
  {
    if gs != [] {
      ConcatBalanced(gs[1..]);
      ReachConcat(gs[0], Concat(gs[1..]), 0, 0, 0);
    }
  }

  lemma BalancedConcat(a: seq<Token>, b: seq<Token>)
    requires Balanced(a) && Balanced(b)
    ensures Balanced(a + b)
  {
    ReachConcat(a, b, 0, 0, 0);
  }
}

/**
 * The deserializer interface, modelled as a cursor: the part of the token stream not yet read.
 * Each Read* predicate says whether the next token has the expected shape; on success the
 * caller moves past what was read. PopIndex and PopKey resume after the whole element that
 * the matching ReadIndex or ReadKey opened, however much of it the element's reader consumed,
 * as a structured (tree-walking) deserializer does.
 */
module Deserializer {
  import Tokens
  import opened Options

  type Cursor = seq<Tokens.Token>

  predicate ReadArray(c: Cursor) { |c| > 0 && c[0] == Tokens.WriteArray }

  /** Another element follows inside the current array. */
  predicate ReadIndex(c: Cursor) { |c| > 0 && !Tokens.Closes(c[0]) }

  /** Resume after the element that started at `element`. */
  function PopIndex(element: Cursor): Cursor { Tokens.Skip(element) }

  function PopArray(c: Cursor): Cursor
  {
    if |c| > 0 && c[0] == Tokens.PopArray then c[1..] else c
  }

  predicate ReadObject(c: Cursor) { |c| > 0 && c[0] == Tokens.WriteObject }

  function ReadKey(c: Cursor): Option<string>
  {
    if |c| > 0 && c[0].Key? then Some(c[0].name) else None
  }

  /** Resume after the key entry (key, value, key close) that started at `entry`. */
  function PopKey(entry: Cursor): Cursor { Tokens.Skip(entry) }

  function PopObject(c: Cursor): Cursor
  {
    if |c| > 0 && c[0] == Tokens.PopObject then c[1..] else c
  }

  /** ReadValue into a string or name: succeeds on a text value. */
  function ReadText(c: Cursor): Option<string>
  {
    if |c| > 0 && c[0].Value? && c[0].atom.Text? then Some(c[0].atom.s) else None
  }

  /** ReadValue into an integer of the range [lo, hi). */
  function ReadNum(c: Cursor, lo: int, hi: int): Option<int>
  {
    if |c| > 0 && c[0].Value? && c[0].atom.Num? && lo <= c[0].atom.n < hi
    then Some(c[0].atom.n) else None
  }
}
