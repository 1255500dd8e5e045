/** Splitting a path at its separators, and putting it back together. */
module Segments {

  /** The pieces between separators: a path with n separators has n + 1 pieces. */
  function Split(path: string, sep: char): (pieces: seq<string>)
    ensures |pieces| > 0
  {
    if path == [] then [[]] else Extend(path[0], Split(path[1..], sep), sep)
  }

  /** Puts one more character in front of an already split path. */
  function Extend(c: char, pieces: seq<string>, sep: char): (extended: seq<string>)
    requires |pieces| > 0
    ensures |extended| > 0
  {
    if c == sep then [[]] + pieces else [[c] + pieces[0]] + pieces[1..]
  }

  lemma {:induction false} ExtendConcat(c: char, left: seq<string>, right: seq<string>, sep: char)
    requires |left| > 0
    ensures Extend(c, left + right, sep) == Extend(c, left, sep) + right
  {
  }

  function Join(pieces: seq<string>, sep: char): (path: string)
  {
    if pieces == [] then []
    else if |pieces| == 1 then pieces[0]
    else pieces[0] + [sep] + Join(pieces[1..], sep)
  }

  ghost predicate Plain(piece: string, sep: char) {
    sep !in piece
  }

  lemma {:induction false} SplitPlain(piece: string, sep: char)
    requires Plain(piece, sep)
    ensures Split(piece, sep) == [piece]
  {
    if piece != [] {
      SplitPlain(piece[1..], sep);
      assert piece == [piece[0]] + piece[1..];
    }
  }

  /** A separator is a boundary whatever stands on its two sides. */
  lemma {:induction false} SplitAtSeparator(left: string, sep: char, right: string)
    ensures Split(left + [sep] + right, sep) == Split(left, sep) + Split(right, sep)
  {
    var path := left + [sep] + right;
    if left == [] {
      assert path[1..] == right;
    } else {
      SplitAtSeparator(left[1..], sep, right);
      assert path[1..] == left[1..] + [sep] + right;
      ExtendConcat(left[0], Split(left[1..], sep), Split(right, sep), sep);
    }
  }

  lemma {:induction false} SplitPiecesPlain(path: string, sep: char)
    ensures forall piece | piece in Split(path, sep) :: Plain(piece, sep)
  {
    if path != [] {
      SplitPiecesPlain(path[1..], sep);
      var rest := Split(path[1..], sep);
      assert rest[0] in rest;
      forall piece | piece in Split(path, sep) ensures Plain(piece, sep) {
        assert piece in rest || piece == [] || piece == [path[0]] + rest[0];
      }
    }
  }

  lemma {:induction false} SplitJoin(pieces: seq<string>, sep: char)
    requires pieces != []
    requires forall piece | piece in pieces :: Plain(piece, sep)
    ensures Split(Join(pieces, sep), sep) == pieces
  {
    SplitPlain(pieces[0], sep);
    if |pieces| > 1 {
      SplitAtSeparator(pieces[0], sep, Join(pieces[1..], sep));
      SplitJoin(pieces[1..], sep);
    }
  }

  /** The pieces that are not empty. */
  function NonEmpty(pieces: seq<string>): (tokens: seq<string>) {
    if pieces == [] then [] else (if pieces[0] == "" then [] else [pieces[0]]) + NonEmpty(pieces[1..])
  }

  lemma {:induction false} NonEmptyConcat(a: seq<string>, b: seq<string>)
    ensures NonEmpty(a + b) == NonEmpty(a) + NonEmpty(b)
  {
    if a == [] {
      assert a + b == b;
    } else {
      assert (a + b)[1..] == a[1..] + b;
      NonEmptyConcat(a[1..], b);
    }
  }
}
