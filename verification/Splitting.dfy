/**
  What splitting and replacing mean: each cut is made at the first separator left, the
  empty separator cuts after each UTF-8 sequence, and replacing is joining.
 */
module Splitting {
  import opened Bytes
  import opened Substrings
  import Utf8

  /** A piece ends where the separator first occurs in what is left of the text. */
  lemma {:induction false} PiecesAreLeftmost(s: seq<byte>, sep: seq<byte>, limit: nat, i: nat)
    requires sep != [] && limit >= 1 && i < |Pieces(s, sep, 0, limit)| - 1
    ensures
      var a := Pieces(s, sep, 0, limit);
      First(Joined(a[i..], sep), sep) == |a[i]|
    decreases i
  {
    hide Joined, First, Pieces;
    var a, m := Pieces(s, sep, 0, limit), First(s, sep);
    if limit == 1 || m < 0 {
      PiecesOfOne(s, sep, 0, limit);
    } else {
      PiecesStep(s, sep, 0, limit);
      if i == 0 {
        JoinPieces(s, sep, limit);
        assert a[0..] == a && a[0] == s[..m];
      } else {
        var more := Pieces(s[m + |sep|..], sep, 0, limit - 1);
        assert a == [a[0]] + more;
        PiecesAreLeftmost(s[m + |sep|..], sep, limit - 1, i - 1);
        assert a[i..] == more[i - 1..] && a[i] == more[i - 1];
      }
    }
  }

  /** SplitAfter cuts where Split does, and leaves each piece its separator. */
  lemma {:induction false} AfterKeepsSeparator(s: seq<byte>, sep: seq<byte>, limit: nat, i: nat)
    requires sep != [] && limit >= 1 && i < |Pieces(s, sep, 0, limit)|
    ensures
      var a, b := Pieces(s, sep, 0, limit), Pieces(s, sep, |sep|, limit);
      |a| == |b| && b[i] == if i < |a| - 1 then a[i] + sep else a[i]
    decreases limit
  {
    hide First, Pieces;
    var m := First(s, sep);
    if limit == 1 || m < 0 {
      PiecesOfOne(s, sep, 0, limit);
      PiecesOfOne(s, sep, |sep|, limit);
    } else {
      var rest := s[m + |sep|..];
      PiecesStep(s, sep, 0, limit);
      PiecesStep(s, sep, |sep|, limit);
      AfterKeepsSeparator(rest, sep, limit - 1, if i > 0 then i - 1 else 0);
      assert s[..m + |sep|] == s[..m] + s[m..m + |sep|];
    }
  }

  /** Exploding cuts after each UTF-8 sequence, but for the last piece of a limited one. */
  lemma {:induction false} ExplodedAreRunes(s: seq<byte>, n: nat, i: nat)
    requires s != [] && n >= 1 && i < |Explode(s, n)| && i < n - 1
    ensures
      var a := Explode(s, n);
      Joined(a[i..], []) != [] && |a[i]| == Utf8.Width(Joined(a[i..], []))
    decreases i
  {
    var a, k := Explode(s, n), Utf8.Width(s);
    JoinExploded(s, n);
    hide Utf8.Width, Joined;
    if i == 0 {
      assert a[0..] == a;
    } else {
      ExplodedAreRunes(s[k..], n - 1, i - 1);
      assert a[i..] == Explode(s[k..], n - 1)[i - 1..];
    }
  }

  /** There are as many pieces as UTF-8 sequences, or as many as allowed. */
  lemma {:induction false} ExplodedCounted(s: seq<byte>, n: nat)
    requires s != [] ==> n >= 1
    ensures |Explode(s, n)| == Min(n, RuneCount(s)) || s == []
    ensures s == [] <==> RuneCount(s) == 0
    decreases |s|
  {
    hide Utf8.Width;
    if s != [] {
      var k := Utf8.Width(s);
      if s[k..] == [] {
        assert RuneCount(s) == 1;
      } else {
        ExplodedCounted(s[k..], if n > 1 then n - 1 else 1);
      }
    }
  }

  lemma {:induction false} EnoughRunes(s: seq<byte>, n: nat, m: nat)
    requires s != [] && n >= RuneCount(s) && m >= RuneCount(s)
    ensures n >= 1 && m >= 1 && Explode(s, n) == Explode(s, m)
    decreases |s|
  {
    hide Utf8.Width;
    var k := Utf8.Width(s);
    if s[k..] == [] {
      assert s[..k] == s;
    } else {
      ExplodedCounted(s[k..], |s|);
      EnoughRunes(s[k..], n - 1, m - 1);
    }
  }

  // New text after each of the first m sequences.
  lemma {:induction false} ReplaceBetween(s: seq<byte>, new_: seq<byte>, m: nat)
    requires s != [] && m <= RuneCount(s)
    ensures
      Replaced(s, [], new_, m, false) ==
      if m < RuneCount(s) then Joined(Explode(s, m + 1), new_) else Joined(Explode(s, |s|) + [[]], new_)
    decreases m
  {
    ExplodedCounted(s, |s|);
    hide Joined, Explode, Replaced, Utf8.Width;
    if m == 0 {
      ReplacedNone(s, [], new_, false);
      ExplodedLast(s);
      OnePiece(s, new_);
    } else {
      var k := Utf8.Width(s);
      var head, rest := s[..k], s[k..];
      RuneStep(s, new_, m);
      if rest == [] {
        LastRune(s, new_);
      } else {
        ReplaceBetween(rest, new_, m - 1);
        ExplodedCounted(rest, m);
        ExplodedCounted(rest, |rest|);
        if m < RuneCount(s) {
          Exploded(s, m + 1);
          JoinedStep(head, Explode(rest, m), new_);
        } else {
          Exploded(s, |s|);
          EnoughRunes(rest, |rest|, |s| - 1);
          Shuffle([head], Explode(rest, |rest|), [[]]);
          JoinedStep(head, Explode(rest, |rest|) + [[]], new_);
        }
      }
    }
  }

  lemma RuneStep(s: seq<byte>, new_: seq<byte>, m: nat)
    requires s != [] && 0 < m <= RuneCount(s)
    ensures
      var k := Utf8.Width(s);
      && RuneCount(s) == 1 + RuneCount(s[k..]) && m - 1 <= RuneCount(s[k..])
      && Replaced(s, [], new_, m, false) == s[..k] + (new_ + Replaced(s[k..], [], new_, m - 1, false))
  {
    hide Utf8.Width, Replaced;
    var k := Utf8.Width(s);
    ReplaceOnce(s, [], new_, m, false);
    assert Cut(s, [], false) == k;
  }

  lemma LastRune(s: seq<byte>, new_: seq<byte>)
    requires s != [] && Utf8.Width(s) == |s|
    ensures Replaced(s, [], new_, 1, false) == Joined(Explode(s, |s|) + [[]], new_)
  {
  }

  lemma Shuffle(a: seq<seq<byte>>, b: seq<seq<byte>>, c: seq<seq<byte>>)
    ensures (a + b) + c == a + (b + c)
  {
  }

  /** Replacing the empty string puts new text in front of each of the first n sequences,
      and at the end if there is one more to replace. */
  lemma ReplaceEmpty(s: seq<byte>, new_: seq<byte>, n: nat)
    requires s != [] && 1 <= n <= RuneCount(s) + 1
    ensures
      Replaced(s, [], new_, n, true) ==
      if n <= RuneCount(s) then Joined([[]] + Explode(s, n), new_) else Joined([[]] + (Explode(s, |s|) + [[]]), new_)
  {
    assert s[0..] == s && s[..0] == [];
    ReplaceBetween(s, new_, n - 1);
    ExplodedCounted(s, n);
    hide Joined;
    if n <= RuneCount(s) {
      JoinedStep([], Explode(s, n), new_);
    } else {
      JoinedStep([], Explode(s, |s|) + [[]], new_);
    }
    assert Cut(s, [], true) == 0;
  }

  /** Replace makes as many replacements as it is asked for, or as there are. */
  lemma ReplacementsAre(s: seq<byte>, old_: seq<byte>, n: int)
    ensures
      var all := if old_ == [] then RuneCount(s) + 1 else |Pieces(s, old_, 0, |s| + 2)| - 1;
      Replacements(s, old_, n) == if 0 <= n <= all then n else all
  {
    if old_ != [] {
      PiecesCounted(s, old_, 0, |s| + 2);
    }
  }
}
