/** The handful of Rust string operations the address code relies on:
    `starts_with`, `ends_with`, `split` on a character separator and
    `join` of a vector of strings. Strings are sequences of characters. */
module Strings {

  predicate StartsWith(s: string, prefix: string)
  {
    |prefix| <= |s| && s[..|prefix|] == prefix
  }

  predicate EndsWith(s: string, suffix: string)
  {
    |suffix| <= |s| && s[|s| - |suffix|..] == suffix
  }

  /** Number of occurrences of `c` in `s`. */
  function Count(s: string, c: char): (n: nat)
    ensures n <= |s|
    ensures n == 0 <==> c !in s
  {
    if |s| == 0 then 0 else (if s[0] == c then 1 else 0) + Count(s[1..], c)
  }

  lemma {:induction false} CountConcat(a: string, b: string, c: char)
    ensures Count(a + b, c) == Count(a, c) + Count(b, c)
  {
    if |a| == 0 {
      assert a + b == b;
    } else {
      assert (a + b)[1..] == a[1..] + b;
      CountConcat(a[1..], b, c);
    }
  }

  /** Position of the first occurrence of `c` in `s`. */
  function IndexOf(s: string, c: char): (i: nat)
    requires c in s
    ensures i < |s| && s[i] == c
    ensures forall k :: 0 <= k < i ==> s[k] != c
  {
    if s[0] == c then 0 else 1 + IndexOf(s[1..], c)
  }

  /** Rust's `str::split` with a `char` pattern: `n` separators give `n + 1`
      pieces, and empty pieces (leading, trailing or between two adjacent
      separators) are kept. */
  function Split(s: string, c: char): (pieces: seq<string>)
    ensures |pieces| >= 1
    ensures forall k :: 0 <= k < |pieces| ==> c !in pieces[k]
    decreases |s|
  {
    if c !in s then [s]
    else
      var i := IndexOf(s, c);
      [s[..i]] + Split(s[i + 1..], c)
  }

  /** `n` separators give `n + 1` pieces. */
  lemma {:induction false} SplitCount(s: string, c: char)
    ensures |Split(s, c)| == Count(s, c) + 1
    decreases |s|
  {
    if c in s {
      var i := IndexOf(s, c);
      assert s == s[..i] + ([s[i]] + s[i + 1..]);
      CountConcat(s[..i], [s[i]] + s[i + 1..], c);
      CountConcat([s[i]], s[i + 1..], c);
      SplitCount(s[i + 1..], c);
    }
  }

  /** Rust's `[String]::join` with a one-character separator. */
  function Join(pieces: seq<string>, c: char): string
  {
    if |pieces| == 0 then ""
    else if |pieces| == 1 then pieces[0]
    else pieces[0] + [c] + Join(pieces[1..], c)
  }

  /** One step of a split: the piece before the first separator, then the
      split of the rest. */
  lemma SplitCons(p: string, rest: string, c: char)
    requires c !in p
    ensures Split(p + [c] + rest, c) == [p] + Split(rest, c)
  {
    var s := p + [c] + rest;
    assert s[|p|] == c;
    var i := IndexOf(s, c);
    assert forall k :: 0 <= k < |p| ==> s[k] == p[k];
    assert i == |p|;
    assert s[..i] == p;
    assert s[i + 1..] == rest;
  }

  /** Splitting a join gives the pieces back when no piece holds the separator. */
  lemma {:induction false} SplitJoin(pieces: seq<string>, c: char)
    requires |pieces| >= 1
    requires forall k :: 0 <= k < |pieces| ==> c !in pieces[k]
    ensures Split(Join(pieces, c), c) == pieces
  {
    if |pieces| > 1 {
      SplitCons(pieces[0], Join(pieces[1..], c), c);
      SplitJoin(pieces[1..], c);
    }
  }

  /** Joining the pieces of a split gives the original string back. */
  lemma {:induction false} JoinSplit(s: string, c: char)
    ensures Join(Split(s, c), c) == s
    decreases |s|
  {
    if c in s {
      var i := IndexOf(s, c);
      var t := s[i + 1..];
      JoinSplit(t, c);
      assert Split(s, c)[1..] == Split(t, c);
      assert s == s[..i] + [c] + t;
    }
  }

  /** The first piece of a split is the longest prefix free of the separator. */
  lemma SplitHead(s: string, c: char)
    ensures var p := Split(s, c)[0];
      |p| <= |s| && p == s[..|p|] && (|p| < |s| ==> s[|p|] == c)
  {
  }

  /** Character-level condition for a split with no empty piece: the string is
      non-empty, neither starts nor ends with the separator, and never holds
      two separators in a row. */
  predicate SeparatorsWellPlaced(s: string, c: char)
  {
    |s| > 0 && s[0] != c && s[|s| - 1] != c &&
    forall i :: 0 <= i < |s| - 1 && s[i] == c ==> s[i + 1] != c
  }

  /** Where separators sit, one separator at a time: with `i` the first
      separator, `s` is well placed exactly when the piece before `i` is
      non-empty and the rest after `i` is well placed. */
  lemma WellPlacedStep(s: string, c: char)
    requires c in s
    ensures var i := IndexOf(s, c);
      SeparatorsWellPlaced(s, c) <==> i > 0 && SeparatorsWellPlaced(s[i + 1..], c)
  {
    var i := IndexOf(s, c);
    var t := s[i + 1..];
    if SeparatorsWellPlaced(s, c) {
      assert i < |s| - 1;
      assert t[0] == s[i + 1];
      forall j | 0 <= j < |t| - 1 && t[j] == c
        ensures t[j + 1] != c
      {
        assert t[j] == s[i + 1 + j] && t[j + 1] == s[i + 1 + j + 1];
      }
    }
    if i > 0 && SeparatorsWellPlaced(t, c) {
      assert s[|s| - 1] == t[|t| - 1];
      forall j | 0 <= j < |s| - 1 && s[j] == c
        ensures s[j + 1] != c
      {
        if j == i {
          assert s[j + 1] == t[0];
        } else {
          assert s[j] == t[j - i - 1] && s[j + 1] == t[j - i];
        }
      }
    }
  }

  lemma WellPlacedNoSeparator(s: string, c: char)
    requires c !in s
    ensures SeparatorsWellPlaced(s, c) <==> |s| > 0
  {
    if |s| > 0 {
      assert s[0] in s && s[|s| - 1] in s;
    }
  }

  predicate NoEmptyPiece(pieces: seq<string>)
  {
    forall k :: 0 <= k < |pieces| ==> |pieces[k]| > 0
  }

  /** A split has no empty piece exactly when the separators are well placed. */
  lemma {:induction false} NonEmptyPieces(s: string, c: char)
    ensures NoEmptyPiece(Split(s, c)) <==> SeparatorsWellPlaced(s, c)
    decreases |s|
  {
    var pieces := Split(s, c);
    if c in s {
      var i := IndexOf(s, c);
      var t := s[i + 1..];
      NonEmptyPieces(t, c);
      WellPlacedStep(s, c);
      var rest := Split(t, c);
      assert pieces == [s[..i]] + rest;
      assert NoEmptyPiece(pieces) <==> i > 0 && NoEmptyPiece(rest) by {
        assert |pieces[0]| == i;
        assert forall k :: 0 <= k < |rest| ==> rest[k] == pieces[k + 1];
        assert forall k :: 0 < k < |pieces| ==> pieces[k] == rest[k - 1];
      }
    } else {
      assert |pieces| == 1 && pieces[0] == s;
      assert NoEmptyPiece(pieces) <==> |s| > 0;
      WellPlacedNoSeparator(s, c);
    }
  }

  /** Every character of every piece satisfies `p`. */
  predicate PiecesSatisfy(pieces: seq<string>, p: char -> bool)
  {
    forall k, j :: 0 <= k < |pieces| && 0 <= j < |pieces[k]| ==> p(pieces[k][j])
  }

  /** Every character of `s` other than the separator satisfies `p`. */
  predicate OthersSatisfy(s: string, c: char, p: char -> bool)
  {
    forall j :: 0 <= j < |s| && s[j] != c ==> p(s[j])
  }

  lemma PiecesSatisfyCons(head: string, rest: seq<string>, p: char -> bool)
    ensures PiecesSatisfy([head] + rest, p) <==>
      (forall j :: 0 <= j < |head| ==> p(head[j])) && PiecesSatisfy(rest, p)
  {
    var pieces := [head] + rest;
    if PiecesSatisfy(pieces, p) {
      forall k, j | 0 <= k < |rest| && 0 <= j < |rest[k]| ensures p(rest[k][j]) {
        assert rest[k] == pieces[k + 1];
      }
      forall j | 0 <= j < |head| ensures p(head[j]) {
        assert head == pieces[0];
      }
    }
  }

  lemma OthersSatisfyStep(s: string, c: char, p: char -> bool)
    requires c in s
    ensures var i := IndexOf(s, c);
      OthersSatisfy(s, c, p) <==>
        (forall j :: 0 <= j < i ==> p(s[..i][j])) && OthersSatisfy(s[i + 1..], c, p)
  {
    var i := IndexOf(s, c);
    var t := s[i + 1..];
    if OthersSatisfy(s, c, p) {
      forall j | 0 <= j < |t| && t[j] != c ensures p(t[j]) {
        assert t[j] == s[i + 1 + j];
      }
      forall j | 0 <= j < i ensures p(s[..i][j]) {
        assert s[..i][j] == s[j];
      }
    }
    if (forall j :: 0 <= j < i ==> p(s[..i][j])) && OthersSatisfy(t, c, p) {
      forall j | 0 <= j < |s| && s[j] != c ensures p(s[j]) {
        if j < i {
          assert s[j] == s[..i][j];
        } else {
          assert s[j] == t[j - i - 1];
        }
      }
    }
  }

  /** Every character of every piece satisfies `p` exactly when every
      character of the string other than the separator does. */
  lemma {:induction false} PieceChars(s: string, c: char, p: char -> bool)
    ensures PiecesSatisfy(Split(s, c), p) <==> OthersSatisfy(s, c, p)
    decreases |s|
  {
    if c in s {
      var i := IndexOf(s, c);
      var t := s[i + 1..];
      PieceChars(t, c, p);
      OthersSatisfyStep(s, c, p);
      PiecesSatisfyCons(s[..i], Split(t, c), p);
    } else {
      assert Split(s, c) == [s];
      PiecesSatisfyCons(s, [], p);
      assert PiecesSatisfy([], p);
    }
  }

  /** A character that is neither the separator nor in any piece is not in
      the join. */
  lemma {:induction false} JoinExcludes(pieces: seq<string>, c: char, x: char)
    requires x != c
    requires forall k :: 0 <= k < |pieces| ==> x !in pieces[k]
    ensures x !in Join(pieces, c)
  {
    if |pieces| > 1 {
      JoinExcludes(pieces[1..], c, x);
      assert x !in pieces[0] + [c];
    }
  }
}
