/** `PieceSack`: the seven-piece bag randomizer (src/main.rs). */
module PieceSack {
  import opened Pieces

  /**
   * The random source, as an oracle: the `n`-th draw from a bag of `len` remaining pieces picks
   * an index below `len`. It stands for `(rng.read_f64() * len as f64) as usize`.
   */
  type Rng = f: (nat, nat) -> nat | forall n: nat, len: nat :: 0 < len ==> f(n, len) < len
    witness (n: nat, len: nat) => 0

  /** The pieces left in the bag, and how many draws the random source has served so far. */
  datatype Sack = Sack(pieces: seq<Piece>, draws: nat)

  /** `PieceSack::new`: an empty bag. */
  const EmptySack: Sack := Sack([], 0)

  /** What remains of one bag: every piece at most once. */
  ghost predicate ValidSack(s: Sack) {
    multiset(s.pieces) <= multiset(AllPieces)
  }

  /** The loop of `PieceSack::fill`: repeatedly remove a randomly chosen piece and append it. */
  function FillFrom(source: seq<Piece>, rng: Rng, n: nat): (r: seq<Piece>)
    ensures multiset(r) == multiset(source)
    decreases |source|
  {
    if |source| == 0 then []
    else
      var i := rng(n, |source|);
      assert source == source[..i] + [source[i]] + source[i + 1..];
      [source[i]] + FillFrom(source[..i] + source[i + 1..], rng, n + 1)
  }

  /** `PieceSack::fill`: a fresh bag that is a permutation of the seven pieces. */
  function Fill(s: Sack, rng: Rng): (r: Sack)
    ensures multiset(r.pieces) == multiset(AllPieces) && |r.pieces| == 7
    ensures r.draws == s.draws + 7
  {
    var pieces := FillFrom(AllPieces, rng, s.draws);
    assert |pieces| == |multiset(pieces)| == 7;
    Sack(pieces, s.draws + |AllPieces|)
  }

  /**
   * `PieceSack::next`: refill only when the bag is empty, then hand out and remove the front piece.
   * The lemmas `NextTakesFront`, `NextRefills` and `NextKeepsBag` say which piece it hands out.
   */
  function Next(s: Sack, rng: Rng): (r: (Piece, Sack))
    ensures r.1.draws == s.draws + (if |s.pieces| == 0 then 7 else 0)
    ensures |r.1.pieces| == (if |s.pieces| == 0 then 7 else |s.pieces|) - 1
  {
    var full := if |s.pieces| == 0 then Fill(s, rng) else s;
    (full.pieces[0], full.(pieces := full.pieces[1..]))
  }

  /** A nonempty bag hands out its front piece, without drawing from the random source. */
  lemma NextTakesFront(s: Sack, rng: Rng)
    requires |s.pieces| > 0
    ensures Next(s, rng).0 == s.pieces[0]
    ensures Next(s, rng).1 == s.(pieces := s.pieces[1..])
  {
  }

  /**
   * An empty bag is refilled first: the piece handed out and the six left behind are the seven
   * pieces, and seven draws were consumed.
   */
  lemma NextRefills(s: Sack, rng: Rng)
    requires |s.pieces| == 0
    ensures multiset([Next(s, rng).0] + Next(s, rng).1.pieces) == multiset(AllPieces)
    ensures |Next(s, rng).1.pieces| == 6
    ensures Next(s, rng).1.draws == s.draws + 7
  {
    var full := Fill(s, rng);
    TakeFront(full);
  }

  /** `next` keeps the bag a bag: what remains is valid and no longer holds the piece handed out. */
  lemma NextKeepsBag(s: Sack, rng: Rng)
    requires ValidSack(s)
    ensures ValidSack(Next(s, rng).1)
    ensures Next(s, rng).0 !in Next(s, rng).1.pieces
  {
    var full := if |s.pieces| == 0 then Fill(s, rng) else s;
    TakeFront(full);
  }

  /** Taking the front piece of a nonempty valid bag leaves a valid bag without that piece. */
  lemma TakeFront(s: Sack)
    requires |s.pieces| > 0
    ensures s.pieces == [s.pieces[0]] + s.pieces[1..]
    ensures ValidSack(s) ==> ValidSack(s.(pieces := s.pieces[1..])) && s.pieces[0] !in s.pieces[1..]
  {
    var p, rest := s.pieces[0], s.pieces[1..];
    assert s.pieces == [p] + rest;
    if ValidSack(s) {
      AllPiecesComplete(p);
      assert multiset(s.pieces) == multiset{p} + multiset(rest);
    }
  }

  /**
   * The first two pieces from an empty bag differ, and together with the five left behind they are
   * the seven pieces; the remaining bag is valid and no longer holds the second piece.
   */
  lemma TwoDrawsFromEmptyBag(s: Sack, rng: Rng)
    requires |s.pieces| == 0
    ensures var first := Next(s, rng);
            var second := Next(first.1, rng);
            && multiset{first.0, second.0} + multiset(second.1.pieces) == multiset(AllPieces)
            && first.0 != second.0
            && ValidSack(second.1) && second.0 !in second.1.pieces
  {
    var first := Next(s, rng);
    NextRefills(s, rng);
    NextTakesFront(first.1, rng);
    var second := Next(first.1, rng);
    OpeningOfABag(first.0, second.0, second.1.pieces, multiset(AllPieces));
    OpeningPiecesDiffer(first.0, second.0, second.1.pieces);
    RestOfABag(first.0, first.1.pieces);
    NextKeepsBag(first.1, rng);
  }

  /** Splitting the first two elements off a sequence keeps its multiset. */
  lemma OpeningOfABag<T>(a: T, b: T, more: seq<T>, bag: multiset<T>)
    requires multiset([a] + ([b] + more)) == bag
    ensures multiset{a, b} + multiset(more) == bag
  {
    var rest := [b] + more;
    assert multiset([a] + rest) == multiset{a} + multiset(rest);
  }

  /** The first two pieces of a bag differ. */
  lemma OpeningPiecesDiffer(a: Piece, b: Piece, more: seq<Piece>)
    requires multiset([a] + ([b] + more)) == multiset(AllPieces)
    ensures a != b
  {
    var rest := [b] + more;
    assert multiset([a] + rest) == multiset{a} + multiset(rest);
    AllPiecesComplete(a);
    assert multiset(rest)[a] == 0;
    assert b in rest;
  }

  /** What follows the first piece of a bag is part of a bag. */
  lemma RestOfABag(a: Piece, rest: seq<Piece>)
    requires multiset([a] + rest) == multiset(AllPieces)
    ensures multiset(rest) <= multiset(AllPieces)
  {
    assert multiset([a] + rest) == multiset{a} + multiset(rest);
  }

  /** The pieces handed out by `count` successive calls of `next`, and the bag afterwards. */
  function Deal(s: Sack, rng: Rng, count: nat): (r: (seq<Piece>, Sack))
    ensures |r.0| == count
    decreases count
  {
    if count == 0 then ([], s)
    else
      var first := Next(s, rng);
      var rest := Deal(first.1, rng, count - 1);
      ([first.0] + rest.0, rest.1)
  }

  /** While the bag still holds pieces they are handed out in order, without drawing. */
  lemma {:induction false} DealDrains(s: Sack, rng: Rng, n: nat)
    requires n == |s.pieces|
    ensures Deal(s, rng, n).0 == s.pieces
    ensures Deal(s, rng, n).1 == s.(pieces := [])
    decreases n
  {
    if n > 0 {
      var rest := s.(pieces := s.pieces[1..]);
      var first := Next(s, rng);
      NextTakesFront(s, rng);
      DealDrains(rest, rng, n - 1);
    }
  }

  /** Dealing `a + b` pieces is dealing `a` and then `b` more from the remaining bag. */
  lemma {:induction false} DealSplit(s: Sack, rng: Rng, a: nat, b: nat)
    ensures Deal(s, rng, a + b).0 == Deal(s, rng, a).0 + Deal(Deal(s, rng, a).1, rng, b).0
    ensures Deal(s, rng, a + b).1 == Deal(Deal(s, rng, a).1, rng, b).1
    decreases a
  {
    if a > 0 {
      var first := Next(s, rng);
      DealSplit(first.1, rng, a - 1, b);
      var left := Deal(first.1, rng, a - 1);
      var right := Deal(left.1, rng, b);
      var whole := Deal(first.1, rng, a - 1 + b);
      assert Deal(s, rng, a).0 == [first.0] + left.0;
      assert Deal(s, rng, a).1 == left.1;
      assert Deal(s, rng, a + b).0 == [first.0] + whole.0;
      assert Deal(s, rng, a + b).1 == whole.1;
      assert whole.0 == left.0 + right.0;
      assert [first.0] + (left.0 + right.0) == ([first.0] + left.0) + right.0;
    }
  }

  /** From an empty bag, the next seven pieces are the seven pieces in some order. */
  lemma SevenFromEmptyBag(s: Sack, rng: Rng)
    requires |s.pieces| == 0
    ensures multiset(Deal(s, rng, 7).0) == multiset(AllPieces)
    ensures Deal(s, rng, 7).1.pieces == []
  {
    var first := Next(s, rng);
    NextRefills(s, rng);
    DealDrains(first.1, rng, 6);
    var rest := Deal(first.1, rng, 6);
    assert Deal(s, rng, 7) == ([first.0] + rest.0, rest.1);
  }

  /** Every aligned block of seven in `pieces` is a permutation of the seven pieces. */
  ghost predicate BlocksOfSeven(pieces: seq<Piece>, blocks: nat)
    requires |pieces| == 7 * blocks
  {
    forall j :: 0 <= j < blocks ==> multiset(pieces[7 * j..7 * j + 7]) == multiset(AllPieces)
  }

  /** Whole bags followed by a bag of seven are whole bags. */
  lemma AppendBag(front: seq<Piece>, last: seq<Piece>, blocks: nat)
    requires |front| == 7 * blocks && BlocksOfSeven(front, blocks)
    requires |last| == 7 && multiset(last) == multiset(AllPieces)
    ensures BlocksOfSeven(front + last, blocks + 1)
  {
    var all := front + last;
    forall j | 0 <= j < blocks + 1
      ensures multiset(all[7 * j..7 * j + 7]) == multiset(AllPieces)
    {
      if j == blocks {
        assert all[7 * j..7 * j + 7] == last;
      } else {
        assert all[7 * j..7 * j + 7] == front[7 * j..7 * j + 7];
      }
    }
  }

  /**
   * The seven-bag guarantee: from an empty bag, every aligned block of seven dealt pieces holds
   * each piece exactly once.
   */
  lemma {:induction false} EveryBlockOfSevenIsABag(s: Sack, rng: Rng, blocks: nat)
    requires |s.pieces| == 0
    ensures BlocksOfSeven(Deal(s, rng, 7 * blocks).0, blocks)
    ensures Deal(s, rng, 7 * blocks).1.pieces == []
  {
    if blocks > 0 {
      var m := 7 * (blocks - 1);
      EveryBlockOfSevenIsABag(s, rng, blocks - 1);
      var front := Deal(s, rng, m);
      SevenFromEmptyBag(front.1, rng);
      DealSplit(s, rng, m, 7);
      assert m + 7 == 7 * blocks;
      AppendBag(front.0, Deal(front.1, rng, 7).0, blocks - 1);
    }
  }
}
