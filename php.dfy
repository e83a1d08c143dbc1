/**
 * The fragment of PHP's value semantics that the Drush sanitize commands rely on:
 * option values and `empty()`, conversion to string, ordered arrays with string
 * keys and `$a[$k] = $v`, and `implode` / `explode` with a one-character glue.
 */
module Php {

  datatype Option<T> = None | Some(value: T)

  /** A command-line option value as Drush hands it to a command: absent (NULL), a bare flag, or a string. */
  datatype OptionValue = Null | Flag(on: bool) | Text(s: string)

  /** PHP's `empty()`: NULL, false, "" and "0" are empty; every other string and true are not. */
  predicate Empty(v: OptionValue) {
    match v
    case Null => true
    case Flag(on) => !on
    case Text(s) => s == "" || s == "0"
  }

  /** PHP's conversion of a value to string, as done for a path, a message placeholder or an array key. */
  function AsString(v: OptionValue): (s: string)
    ensures v.Text? ==> s == v.s
    ensures Empty(v) <==> (s == "" || s == "0")
  {
    match v
    case Null => ""
    case Flag(on) => if on then "1" else ""
    case Text(s) => s
  }

  predicate Distinct(s: seq<string>) {
    forall i, j :: 0 <= i < j < |s| ==> s[i] != s[j]
  }

  /**
   * A PHP value built from nested arrays with string keys and string leaves.
   * `keys` is the insertion order of the array (the order in which it is
   * iterated and serialised), `entries` its key-value pairs.
   */
  datatype Node = Scalar(text: string) | Array(keys: seq<string>, entries: map<string, Node>)

  const EmptyArray: Node := Array([], map[])

  /** Every array in `n` lists each of its keys exactly once, in `keys`. */
  predicate WellFormed(n: Node) {
    match n
    case Scalar(_) => true
    case Array(keys, entries) =>
      && Distinct(keys)
      && (forall k :: k in keys ==> k in entries)
      && (forall k :: k in entries ==> k in keys)
      && (forall k :: k in entries ==> WellFormed(entries[k]))
  }

  /**
   * `$a[$k] = $v` on an array: the value under `k` becomes `v`; a key that is
   * already present keeps its position, a new key is appended at the end.
   */
  function Assign(a: Node, k: string, v: Node): (r: Node)
    requires a.Array?
    ensures r.Array? && r.entries.Keys == a.entries.Keys + {k}
    ensures k in r.entries && r.entries[k] == v
    ensures forall k' :: k' in a.entries && k' != k ==> r.entries[k'] == a.entries[k']
  {
    Array(if k in a.entries then a.keys else a.keys + [k], a.entries[k := v])
  }

  /** Assignment keeps an array well formed: its keys stay listed once each. */
  lemma AssignWellFormed(a: Node, k: string, v: Node)
    requires a.Array? && WellFormed(a) && WellFormed(v)
    ensures WellFormed(Assign(a, k, v))
  {
  }

  /** PHP's `implode(glue, pieces)` for a one-character glue. */
  function Implode(glue: char, pieces: seq<string>): string {
    if |pieces| == 0 then ""
    else if |pieces| == 1 then pieces[0]
    else pieces[0] + [glue] + Implode(glue, pieces[1..])
  }

  /** PHP's `explode(glue, text)` for a one-character glue: the pieces between glue characters. */
  function Explode(glue: char, text: string): (r: seq<string>)
    ensures |r| >= 1
    ensures glue !in text ==> r == [text]
    decreases |text|
  {
    if |text| == 0 then [""]
    else
      var rest := Explode(glue, text[1..]);
      if text[0] == glue then [""] + rest
      else
        assert text == [text[0]] + text[1..];
        [[text[0]] + rest[0]] + rest[1..]
  }

  /** A piece free of the glue, followed by the glue, explodes into that piece and whatever follows. */
  lemma {:induction false} ExplodePieceThenGlue(glue: char, piece: string, rest: string)
    requires glue !in piece
    ensures Explode(glue, piece + [glue] + rest) == [piece] + Explode(glue, rest)
  {
    var text := piece + [glue] + rest;
    if piece == [] {
      assert text[1..] == rest;
    } else {
      assert text[1..] == piece[1..] + [glue] + rest;
      ExplodePieceThenGlue(glue, piece[1..], rest);
      assert [piece[0]] + piece[1..] == piece;
    }
  }

  /** `explode` undoes `implode` when no piece contains the glue and there is at least one piece. */
  lemma {:induction false} ExplodeImplode(glue: char, pieces: seq<string>)
    requires |pieces| >= 1
    requires forall i :: 0 <= i < |pieces| ==> glue !in pieces[i]
    ensures Explode(glue, Implode(glue, pieces)) == pieces
  {
    if |pieces| > 1 {
      ExplodePieceThenGlue(glue, pieces[0], Implode(glue, pieces[1..]));
      ExplodeImplode(glue, pieces[1..]);
      assert [pieces[0]] + pieces[1..] == pieces;
    }
  }
}
