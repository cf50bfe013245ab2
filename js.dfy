/** The pieces of the JavaScript runtime that the helpers lean on: bytes of a
    `Uint8Array`, `undefined`, values thrown by foreign code, and
    `String.prototype.split` with a one-character separator. */
module Js {

  /** One element of a `Uint8Array`. */
  type byte = x: int | 0 <= x < 256

  /** `undefined` (None) or a defined value. */
  datatype Option<+T> = None | Some(value: T)

  /** A value thrown by foreign code: its `message` property (None when it
      has none) and what its `toString()` returns. */
  datatype Thrown = Thrown(message: Option<string>, text: string)

  /** The outcome of a call into foreign code: a value, or a thrown one. */
  datatype Outcome<+T> = Done(value: T) | Threw(exc: Thrown)

  /** `err.message || err.toString()`: a non-empty message wins, an absent or
      empty one (both falsy) falls back to the `toString()` text. */
  function Trace(e: Thrown): (t: string)
    ensures e.message.Some? && e.message.value != "" ==> t == e.message.value
    ensures e.message == None || e.message == Some("") ==> t == e.text
  {
    match e.message
    case Some(m) => if m != "" then m else e.text
    case None => e.text
  }

  /** Position of the first occurrence of `c` in `s`. */
  function IndexOf(s: string, c: char): (i: nat)
    requires c in s
    ensures i < |s| && s[i] == c && c !in s[..i]
  {
    if s[0] == c then 0 else 1 + IndexOf(s[1..], c)
  }

  /** `s.split(sep)` for a one-character separator: the maximal pieces of `s`
      free of `sep`, in order; a string without `sep` is one piece. */
  function Split(s: string, sep: char): (pieces: seq<string>)
    ensures |pieces| >= 1
    ensures |pieces| == 1 <==> sep !in s
    decreases |s|
  {
    if sep !in s then [s]
    else
      var i := IndexOf(s, sep);
      [s[..i]] + Split(s[i + 1..], sep)
  }

  /** No piece of a split holds the separator. */
  lemma {:induction false} SplitPiecesFree(s: string, sep: char)
    ensures forall k :: 0 <= k < |Split(s, sep)| ==> sep !in Split(s, sep)[k]
    decreases |s|
  {
    if sep in s {
      var i := IndexOf(s, sep);
      SplitPiecesFree(s[i + 1..], sep);
      assert Split(s, sep) == [s[..i]] + Split(s[i + 1..], sep);
    }
  }

  /** `pieces.join(sep)`, the reference that `Split` inverts. */
  function Join(pieces: seq<string>, sep: char): (s: string)
    requires |pieces| >= 1
  {
    if |pieces| == 1 then pieces[0] else pieces[0] + [sep] + Join(pieces[1..], sep)
  }

  lemma JoinCons(first: string, rest: seq<string>, sep: char)
    requires |rest| >= 1
    ensures Join([first] + rest, sep) == first + [sep] + Join(rest, sep)
  {
    assert ([first] + rest)[1..] == rest;
  }

  /** Splitting at a separator that follows a separator-free prefix peels
      that prefix off as the first piece. */
  lemma SplitAfterPrefix(a: string, sep: char, rest: string)
    requires sep !in a
    ensures Split(a + [sep] + rest, sep) == [a] + Split(rest, sep)
  {
    var s := a + [sep] + rest;
    var i := IndexOf(s, sep);
    assert forall j :: 0 <= j < |a| ==> s[j] == a[j];
    assert s[|a|] == sep;
    assert i == |a|;
    assert s[..i] == a;
    assert s[i + 1..] == rest;
  }

  /** A string with exactly one separator splits into the two sides. */
  lemma SplitTwo(a: string, sep: char, b: string)
    requires sep !in a && sep !in b
    ensures Split(a + [sep] + b, sep) == [a, b]
  {
    SplitAfterPrefix(a, sep, b);
  }

  /** After two separator-free pieces and a second separator, the rest of the
      string splits on its own. */
  lemma SplitTwoThenRest(a: string, sep: char, b: string, rest: string)
    requires sep !in a && sep !in b
    ensures Split(a + [sep] + b + [sep] + rest, sep) == [a, b] + Split(rest, sep)
  {
    var tail := b + [sep] + rest;
    assert a + [sep] + b + [sep] + rest == a + [sep] + tail;
    calc {
      Split(a + [sep] + tail, sep);
      { SplitAfterPrefix(a, sep, tail); }
      [a] + Split(tail, sep);
      { SplitAfterPrefix(b, sep, rest); }
      [a] + ([b] + Split(rest, sep));
      [a, b] + Split(rest, sep);
    }
  }

  /** Joining pieces free of the separator and splitting again gives the
      pieces back. */
  lemma {:induction false} SplitJoin(pieces: seq<string>, sep: char)
    requires |pieces| >= 1
    requires forall k :: 0 <= k < |pieces| ==> sep !in pieces[k]
    ensures Split(Join(pieces, sep), sep) == pieces
  {
    if |pieces| > 1 {
      var rest := Join(pieces[1..], sep);
      assert Join(pieces, sep) == pieces[0] + [sep] + rest;
      assert forall k :: 0 <= k < |pieces[1..]| ==> sep !in pieces[1..][k];
      SplitJoin(pieces[1..], sep);
      SplitAfterPrefix(pieces[0], sep, rest);
      assert [pieces[0]] + pieces[1..] == pieces;
    } else {
      assert Join(pieces, sep) == pieces[0];
      assert sep !in pieces[0];
    }
  }

  /** Splitting and joining again gives the string back. */
  lemma {:induction false} JoinSplit(s: string, sep: char)
    ensures Join(Split(s, sep), sep) == s
    decreases |s|
  {
    if sep in s {
      var i := IndexOf(s, sep);
      var a, b := s[..i], s[i + 1..];
      assert s == a + [sep] + b;
      var tail := Split(b, sep);
      assert Split(s, sep) == [a] + tail;
      JoinCons(a, tail, sep);
      JoinSplit(b, sep);
    }
  }
}
