/** `parseUTF8`: cutting a text into pieces of the lengths that lead bytes announce. */
module Utf8Splitter {
  import opened Bytes
  import opened Utf8Codec

  type Piece = seq<Byte>

  /** `substr(i, n)`: the announced bytes, or fewer at the end of the text. */
  function First(s: seq<Byte>): (n: nat)
    requires s != []
    ensures 1 <= n <= |s|
  {
    if LenOf(s[0]) <= |s| then LenOf(s[0]) else |s|
  }

  function Pieces(s: seq<Byte>): seq<Piece>
    decreases |s|
  {
    if s == [] then [] else [s[..First(s)]] + Pieces(s[First(s)..])
  }

  /** The prefix sums of the lengths, from `at`. */
  function Starts(ps: seq<Piece>, at: nat): (r: seq<nat>)
    ensures |r| == |ps|
  {
    if ps == [] then [] else [at] + Starts(ps[1..], at + |ps[0]|)
  }

  /** As long as its first byte announces. */
  predicate Whole(p: Piece) {
    p != [] && |p| == LenOf(p[0])
  }

  /** Shorter than its first byte announces. */
  predicate Cut(p: Piece) {
    p != [] && |p| < LenOf(p[0])
  }

  /** What splitting can yield: whole pieces, of which the last may be cut short. */
  predicate Splittable(ps: seq<Piece>) {
    && (forall i :: 0 <= i < |ps| ==> Whole(ps[i]) || Cut(ps[i]))
    && (forall i :: 0 <= i < |ps| - 1 ==> Whole(ps[i]))
  }

  /** No byte is lost, and only the last piece can be short. */
  lemma {:induction false} PiecesJoin(s: seq<Byte>)
    ensures Join(Pieces(s)) == s && Splittable(Pieces(s))
    decreases |s|
  {
    if s != [] {
      var p, rest := s[..First(s)], s[First(s)..];
      PiecesJoin(rest);
      assert Pieces(s) == [p] + Pieces(rest) && Pieces(s)[1..] == Pieces(rest);
      assert s == p + rest;
      assert |p| < LenOf(s[0]) ==> rest == [];
      forall i | 0 <= i < |Pieces(s)| ensures Whole(Pieces(s)[i]) || (i == |Pieces(s)| - 1 && Cut(Pieces(s)[i])) {
        if i > 0 {
          assert Pieces(s)[i] == Pieces(rest)[i - 1];
        }
      }
    }
  }

  /** Splitting is the only way to cut a text into such pieces. */
  lemma {:induction false} PiecesUnique(ps: seq<Piece>)
    requires Splittable(ps)
    ensures Pieces(Join(ps)) == ps
  {
    if ps != [] {
      var rest := ps[1..];
      forall i | 0 <= i < |rest| ensures rest[i] == ps[i + 1] {
      }
      PiecesUnique(rest);
      var s := Join(ps);
      assert s == ps[0] + Join(rest) && s[0] == ps[0][0];
      if rest == [] {
        assert s == ps[0];
      } else {
        assert Whole(ps[0]);
      }
      assert s[..First(s)] == ps[0] && s[First(s)..] == Join(rest);
      assert ps == [ps[0]] + rest;
    }
  }

  /** The join determines the pieces: the code is uniquely decodable. */
  lemma JoinInjective(a: seq<Piece>, b: seq<Piece>)
    requires Splittable(a) && Splittable(b) && Join(a) == Join(b)
    ensures a == b
  {
    PiecesUnique(a);
    PiecesUnique(b);
  }

  lemma SplittableAppend(x: seq<Piece>, y: seq<Piece>)
    requires Splittable(x) && Splittable(y) && x != []
    requires Whole(x[|x| - 1])
    ensures Splittable(x + y)
  {
    hide Whole, Cut;
    forall i | 0 <= i < |x + y| ensures Whole((x + y)[i]) || (i == |x + y| - 1 && Cut((x + y)[i])) {
      if i >= |x| {
        assert (x + y)[i] == y[i - |x|];
      }
    }
  }

  lemma CutBlocks(x: seq<Piece>, y: seq<Piece>)
    requires x != [] && y != [] && !Whole(x[|x| - 1])
    ensures !Splittable(x + y)
  {
    hide Whole, Cut;
    assert (x + y)[|x| - 1] == x[|x| - 1] && |x| - 1 < |x + y| - 1;
  }

  lemma SomePieces(s: seq<Byte>)
    requires s != []
    ensures Pieces(s) != []
  {
  }

  /** Texts split independently of each other exactly when the first does not end inside a character. */
  lemma SplitApart(a: seq<Byte>, b: seq<Byte>)
    requires a != [] && b != []
    ensures Pieces(a) != []
    ensures Pieces(a + b) == Pieces(a) + Pieces(b) <==> Whole(Pieces(a)[|Pieces(a)| - 1])
  {
    hide Pieces, Splittable, Whole, Join;
    var x, y := Pieces(a), Pieces(b);
    SomePieces(a);
    SomePieces(b);
    PiecesJoin(a);
    PiecesJoin(b);
    PiecesJoin(a + b);
    if Whole(x[|x| - 1]) {
      SplittableAppend(x, y);
      JoinAppend(x, y);
      PiecesUnique(x + y);
    } else {
      CutBlocks(x, y);
    }
  }

  /**
   * The pieces of encoded code points are exactly the encodings: the splitter,
   * the encoder and the decoder agree on where a character ends.
   */
  lemma PiecesOfEncodings(cs: seq<nat>)
    requires forall i :: 0 <= i < |cs| ==> cs[i] < 0x8000_0000
    ensures Pieces(Join(EncodeAll(cs))) == EncodeAll(cs)
  {
    forall i | 0 <= i < |cs| ensures Whole(EncodeAll(cs)[i]) {
      EncodeIs(cs[i]);
    }
    PiecesUnique(EncodeAll(cs));
  }

  function EncodeAll(cs: seq<nat>): (ps: seq<Piece>)
    requires forall i :: 0 <= i < |cs| ==> cs[i] < 0x8000_0000
    ensures |ps| == |cs| && forall i :: 0 <= i < |cs| ==> ps[i] == Encode(cs[i])
  {
    seq(|cs|, i requires 0 <= i < |cs| => Encode(cs[i]))
  }

  /** `substr`, which stops at the end of the string. */
  function Substr(s: seq<Byte>, i: nat, n: nat): seq<Byte>
    requires i <= |s|
  {
    if i + n <= |s| then s[i..i + n] else s[i..]
  }

  /** What is left at index `i`, which may have run past the end. */
  function Rest(s: seq<Byte>, i: nat): seq<Byte> {
    if i <= |s| then s[i..] else []
  }

  lemma FrontPiece(r: seq<Byte>)
    requires r != []
    ensures Pieces(r) == [r[..First(r)]] + Pieces(r[First(r)..])
  {
  }

  lemma FrontStart(p: Piece, ps: seq<Piece>, at: nat)
    ensures Starts([p] + ps, at) == [at] + Starts(ps, at + |p|)
  {
    assert ([p] + ps)[1..] == ps;
  }

  lemma NoPieces(at: nat)
    ensures Pieces([]) == [] && Starts([], at) == []
  {
  }

  lemma NextPiece(s: seq<Byte>, i: nat, n: nat)
    requires i < |s| && n == LenOf(s[i])
    ensures Pieces(Rest(s, i)) == [Substr(s, i, n)] + Pieces(Rest(s, i + n))
    ensures Starts(Pieces(Rest(s, i)), i) == [i] + Starts(Pieces(Rest(s, i + n)), i + n)
  {
    hide LenOf, Pieces, Starts;
    var r := Rest(s, i);
    assert r[First(r)..] == Rest(s, i + n) && r[..First(r)] == Substr(s, i, n);
    FrontPiece(r);
    FrontStart(Substr(s, i, n), Pieces(Rest(s, i + n)), i);
    if i + n > |s| {
      NoPieces(i + n);
      NoPieces(i + |Substr(s, i, n)|);
    }
  }

  lemma RestEnds(s: seq<Byte>, i: nat)
    ensures Rest(s, 0) == s
    ensures i >= |s| ==> Pieces(Rest(s, i)) == [] && Starts(Pieces(Rest(s, i)), i) == []
  {
  }

  /** `parseUTF8` with positions: appends the pieces and where each one starts. */
  method ParseUTF8(article: seq<Byte>, words0: seq<Piece>, positions0: seq<nat>)
    returns (words: seq<Piece>, positions: seq<nat>)
    ensures words == words0 + Pieces(article) && positions == positions0 + Starts(Pieces(article), 0)
  {
    hide Masked, Pieces, Starts, Rest, LenOf;
    words, positions := words0, positions0;
    var i := 0;
    RestEnds(article, 0);
    while i < |article|
      invariant 0 <= i
      invariant words + Pieces(Rest(article, i)) == words0 + Pieces(article)
      invariant positions + Starts(Pieces(Rest(article, i)), i) == positions0 + Starts(Pieces(article), 0)
      decreases |article| - i
    {
      var ch := article[i];
      var n := Announced(ch);
      NextPiece(article, i, n);
      words := words + [Substr(article, i, n)];
      positions := positions + [i];
      i := i + n;
    }
    RestEnds(article, i);
  }

  /** The chain of mask tests. */
  method Announced(ch: Byte) returns (n: nat)
    ensures n == LenOf(ch)
  {
    hide Masked;
    MaskedIsAtLeast(ch);
    n := if Masked(ch, 0xFC) then 6
         else if Masked(ch, 0xF8) then 5
         else if Masked(ch, 0xF0) then 4
         else if Masked(ch, 0xE0) then 3
         else if Masked(ch, 0xC0) then 2
         else 1;
  }
}
