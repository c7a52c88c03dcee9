/**
  Searching, splitting, joining and replacing in byte slices.
 */
module Substrings {
  import opened Bytes
  import Utf8

  predicate Occurs(s: seq<byte>, sep: seq<byte>, i: int) { 0 <= i && i + |sep| <= |s| && s[i..i + |sep|] == sep }

  lemma OccursLater(s: seq<byte>, sep: seq<byte>, i: nat)
    requires i <= |s|
    ensures forall j :: i <= j ==> (Occurs(s, sep, j) <==> Occurs(s[i..], sep, j - i))
  {
    forall j | i <= j
      ensures Occurs(s, sep, j) <==> Occurs(s[i..], sep, j - i)
    {
      if j + |sep| <= |s| {
        assert s[i..][j - i..j - i + |sep|] == s[j..j + |sep|];
      }
    }
  }

  // The first occurrence, or -1.
  function First(s: seq<byte>, sep: seq<byte>): (i: int)
    ensures i >= -1 && (i >= 0 ==> Occurs(s, sep, i))
    ensures forall j :: 0 <= j && (i < 0 || j < i) ==> !Occurs(s, sep, j)
  {
    if |s| < |sep| then -1
    else if s[..|sep|] == sep then 0
    else
      var i := First(s[1..], sep);
      assert !Occurs(s, sep, 0);
      OccursLater(s, sep, 1);
      if i < 0 then -1 else i + 1
  }

  function CountOf(s: seq<byte>, sep: seq<byte>): (n: nat)
    requires sep != []
    ensures n <= |s|
  {
    var m := First(s, sep);
    if m < 0 then 0 else 1 + CountOf(s[m + |sep|..], sep)
  }

  // At most limit pieces, each keeping save bytes of the separator after it.
  function Pieces(s: seq<byte>, sep: seq<byte>, save: nat, limit: nat): (a: seq<seq<byte>>)
    requires sep != [] && save <= |sep| && limit >= 1
    ensures 1 <= |a| <= limit
    decreases limit
  {
    var m := First(s, sep);
    if limit == 1 || m < 0 then [s]
    else [s[..m + save]] + Pieces(s[m + |sep|..], sep, save, limit - 1)
  }

  // One piece for each UTF-8 sequence, the last of n taking the rest.
  function Explode(s: seq<byte>, n: nat): (a: seq<seq<byte>>)
    requires s != [] ==> n >= 1
    ensures |a| <= n && |a| <= |s|
    decreases |s|
  {
    if s == [] then []
    else if n == 1 then [s]
    else
      var k := Utf8.Width(s);
      if k == |s| then [s] else [s[..k]] + Explode(s[k..], n - 1)
  }

  function RuneCount(s: seq<byte>): (n: nat)
    ensures n <= |s|
  {
    if s == [] then 0 else 1 + RuneCount(s[Utf8.Width(s)..])
  }

  function Joined(a: seq<seq<byte>>, sep: seq<byte>): seq<byte> {
    if a == [] then [] else if |a| == 1 then a[0] else a[0] + (sep + Joined(a[1..], sep))
  }

  // The first n occurrences of old replaced; an empty old occurs first at the start and
  // then after each UTF-8 sequence.
  function Replaced(s: seq<byte>, old_: seq<byte>, new_: seq<byte>, n: nat, first: bool): seq<byte>
    requires n <= Occurrences(s, old_, first)
    decreases n
  {
    if n == 0 then s
    else
      var j := Cut(s, old_, first);
      s[..j] + (new_ + Replaced(s[j + |old_|..], old_, new_, n - 1, false))
  }

  function Occurrences(s: seq<byte>, old_: seq<byte>, first: bool): nat {
    if old_ == [] then RuneCount(s) + (if first then 1 else 0) else CountOf(s, old_)
  }

  function Cut(s: seq<byte>, old_: seq<byte>, first: bool): (j: nat)
    requires Occurrences(s, old_, first) > 0
    ensures j + |old_| <= |s|
    ensures Occurrences(s[j + |old_|..], old_, false) == Occurrences(s, old_, first) - 1
  {
    if old_ != [] then First(s, old_)
    else if first then
      assert s[0..] == s;
      0
    else Utf8.Width(s)
  }

  // ---------------------------------------------------------------- splitting and joining

  /** As many pieces as separators, and one more, unless there is a limit. */
  lemma {:induction false} PiecesCounted(s: seq<byte>, sep: seq<byte>, save: nat, limit: nat)
    requires sep != [] && save <= |sep| && limit >= 1
    ensures |Pieces(s, sep, save, limit)| == if limit <= CountOf(s, sep) then limit else CountOf(s, sep) + 1
    decreases limit
  {
    var m := First(s, sep);
    hide First;
    if limit > 1 && m >= 0 {
      PiecesCounted(s[m + |sep|..], sep, save, limit - 1);
    }
  }

  lemma Cuts(s: seq<byte>, i: nat, j: nat)
    requires i <= j <= |s|
    ensures s == s[..i] + (s[i..j] + s[j..]) && s == s[..j] + ([] + s[j..])
  {
  }

  /** Join undoes Split, whatever the limit. */
  lemma {:induction false} JoinPieces(s: seq<byte>, sep: seq<byte>, limit: nat)
    requires sep != [] && limit >= 1
    ensures Joined(Pieces(s, sep, 0, limit), sep) == s
    decreases limit
  {
    hide First, Pieces, Joined;
    var m := First(s, sep);
    if limit == 1 || m < 0 {
      PiecesOfOne(s, sep, 0, limit);
    } else {
      var rest := s[m + |sep|..];
      PiecesStep(s, sep, 0, limit);
      JoinPieces(rest, sep, limit - 1);
      JoinedStep(s[..m + 0], Pieces(rest, sep, 0, limit - 1), sep);
      Cuts(s, m, m + |sep|);
    }
  }

  /** Concatenation undoes SplitAfter. */
  lemma {:induction false} JoinPiecesAfter(s: seq<byte>, sep: seq<byte>, limit: nat)
    requires sep != [] && limit >= 1
    ensures Joined(Pieces(s, sep, |sep|, limit), []) == s
    decreases limit
  {
    hide First, Pieces, Joined;
    var m := First(s, sep);
    if limit == 1 || m < 0 {
      PiecesOfOne(s, sep, |sep|, limit);
    } else {
      var rest := s[m + |sep|..];
      PiecesStep(s, sep, |sep|, limit);
      JoinPiecesAfter(rest, sep, limit - 1);
      JoinedStep(s[..m + |sep|], Pieces(rest, sep, |sep|, limit - 1), []);
      Cuts(s, m, m + |sep|);
    }
  }

  lemma {:induction false} JoinExploded(s: seq<byte>, n: nat)
    requires s != [] ==> n >= 1
    ensures Joined(Explode(s, n), []) == s
    decreases |s|
  {
    if s != [] && n > 1 && Utf8.Width(s) < |s| {
      var k := Utf8.Width(s);
      hide Utf8.Width;
      JoinExploded(s[k..], n - 1);
      var a := Explode(s, n);
      assert a[0] == s[..k] && a[1..] == Explode(s[k..], n - 1);
      assert s == s[..k] + ([] + s[k..]);
    }
  }

  lemma BeforeFirst(s: seq<byte>, sep: seq<byte>, m: nat)
    requires sep != [] && First(s, sep) == m
    ensures First(s[..m], sep) == -1
  {
    var i := First(s[..m], sep);
    var front := s[..m];
    if i >= 0 {
      assert front[i..i + |sep|] == s[i..i + |sep|];
      assert Occurs(s, sep, i);
    }
  }

  /** No piece contains the separator, but the last of a limited split. */
  lemma {:induction false} PiecesAreClean(s: seq<byte>, sep: seq<byte>, limit: nat, i: nat)
    requires sep != [] && limit >= 1 && i < |Pieces(s, sep, 0, limit)|
    requires i < limit - 1 || limit > CountOf(s, sep)
    ensures First(Pieces(s, sep, 0, limit)[i], sep) == -1
    decreases limit
  {
    hide First, Pieces;
    var m := First(s, sep);
    if limit == 1 || m < 0 {
      PiecesOfOne(s, sep, 0, limit);
    } else {
      PiecesStep(s, sep, 0, limit);
      if i == 0 {
        BeforeFirst(s, sep, m);
      } else {
        PiecesAreClean(s[m + |sep|..], sep, limit - 1, i - 1);
      }
    }
  }

  // ---------------------------------------------------------------- replacing

  /** Replacing is joining the pieces with the new text. */
  lemma {:induction false} ReplaceIsJoin(s: seq<byte>, old_: seq<byte>, new_: seq<byte>, n: nat, first: bool)
    requires old_ != [] && n <= CountOf(s, old_)
    ensures Replaced(s, old_, new_, n, first) == Joined(Pieces(s, old_, 0, n + 1), new_)
    decreases n
  {
    hide Replaced, Pieces, Joined, First, CountOf;
    if n == 0 {
      PiecesOfOne(s, old_, 0, 1);
      ReplacedNone(s, old_, new_, first);
    } else {
      ReplacedStep(s, old_, new_, n, first);
      var m := First(s, old_);
      var rest := s[m + |old_|..];
      PiecesStep(s, old_, 0, n + 1);
      ReplaceIsJoin(rest, old_, new_, n - 1, false);
      JoinedStep(s[..m], Pieces(rest, old_, 0, n), new_);
    }
  }

  lemma PiecesOfOne(s: seq<byte>, sep: seq<byte>, save: nat, limit: nat)
    requires sep != [] && save <= |sep| && limit >= 1 && (limit == 1 || First(s, sep) < 0)
    ensures Pieces(s, sep, save, limit) == [s]
    ensures forall t :: Joined([s], t) == s
  {
  }

  lemma PiecesStep(s: seq<byte>, sep: seq<byte>, save: nat, limit: nat)
    requires sep != [] && save <= |sep| && limit > 1 && First(s, sep) >= 0
    ensures
      var m := First(s, sep);
      Pieces(s, sep, save, limit) == [s[..m + save]] + Pieces(s[m + |sep|..], sep, save, limit - 1)
  {
  }

  lemma JoinedStep(x: seq<byte>, a: seq<seq<byte>>, sep: seq<byte>)
    requires a != []
    ensures Joined([x] + a, sep) == x + (sep + Joined(a, sep))
  {
    assert ([x] + a)[1..] == a;
  }

  lemma ReplacedNone(s: seq<byte>, old_: seq<byte>, new_: seq<byte>, first: bool)
    ensures Replaced(s, old_, new_, 0, first) == s
  {
  }

  lemma ReplacedStep(s: seq<byte>, old_: seq<byte>, new_: seq<byte>, n: nat, first: bool)
    requires old_ != [] && 0 < n <= CountOf(s, old_)
    ensures First(s, old_) >= 0
    ensures
      var m := First(s, old_);
      var rest := s[m + |old_|..];
      && CountOf(rest, old_) == CountOf(s, old_) - 1
      && Replaced(s, old_, new_, n, first) == s[..m] + (new_ + Replaced(rest, old_, new_, n - 1, false))
  {
    hide First, Joined, Pieces, RuneCount;
  }

  lemma OneMore(n: int, d: int)
    ensures n * d == (n - 1) * d + d
  {
  }

  /** The buffer is sized exactly. */
  lemma {:induction false} ReplacedLength(s: seq<byte>, old_: seq<byte>, new_: seq<byte>, n: nat, first: bool)
    requires n <= Occurrences(s, old_, first)
    ensures |Replaced(s, old_, new_, n, first)| == |s| + n * (|new_| - |old_|)
    decreases n
  {
    hide Replaced, Occurrences, Cut;
    if n == 0 {
      ReplacedNone(s, old_, new_, first);
    } else {
      ReplaceOnce(s, old_, new_, n, first);
      var j := Cut(s, old_, first);
      ReplacedLength(s[j + |old_|..], old_, new_, n - 1, false);
      OneMore(n, |new_| - |old_|);
    }
  }

  // ---------------------------------------------------------------- searching

  ghost predicate NoneBefore(s: seq<byte>, sep: seq<byte>, i: int) { forall j :: 0 <= j < i ==> !Occurs(s, sep, j) }

  lemma Resume(s: seq<byte>, sep: seq<byte>, i: nat)
    requires i <= |s| && NoneBefore(s, sep, i)
    ensures
      var r := First(s[i..], sep);
      First(s, sep) == if r < 0 then -1 else i + r
  {
    hide First, Occurs;
    var k, r := First(s, sep), First(s[i..], sep);
    OccursLater(s, sep, i);
    if k >= 0 {
      assert Occurs(s[i..], sep, k - i);
    }
    if r >= 0 {
      assert Occurs(s, sep, r + i);
    }
  }

  // An occurrence starts with the separator's first two bytes.
  lemma OccursStarts(s: seq<byte>, sep: seq<byte>, j: int)
    requires Occurs(s, sep, j) && sep != []
    ensures s[j] == sep[0] && (|sep| > 1 ==> s[j + 1] == sep[1])
  {
    assert s[j..j + |sep|][0] == s[j];
    if |sep| > 1 {
      assert s[j..j + |sep|][1] == s[j + 1];
    }
  }

  // From i on, the next place where the separator's first byte stands, below t.
  method SkipTo(s: seq<byte>, sep: seq<byte>, i: nat, t: nat) returns (k: nat)
    requires sep != [] && i < t == |s| - |sep| + 1 && NoneBefore(s, sep, i)
    ensures i <= k <= t && NoneBefore(s, sep, k)
    ensures k < t ==> s[k] == sep[0]
  {
    k := i;
    if s[i] != sep[0] {
      var o := IndexByte(s[i + 1..t], sep[0]);
      k := if o < 0 then t else i + o + 1;
      forall j | i <= j < k
        ensures !Occurs(s, sep, j)
      {
        assert j > i ==> s[j] == s[i + 1..t][j - i - 1];
        if Occurs(s, sep, j) {
          OccursStarts(s, sep, j);
        }
      }
    }
  }

  // The loop both long searches share: skip by first byte, compare, and give up after
  // too many false starts in favour of the fallback.
  method SkipSearch(s: seq<byte>, sep: seq<byte>, giveUp: (nat, nat) -> bool) returns (r: int)
    requires 2 <= |sep| < |s|
    ensures r == First(s, sep)
  {
    hide First, Occurs;
    var i, fails := 0, 0;
    var t := |s| - |sep| + 1;
    while i < t
      invariant 0 <= i <= t && fails >= 0 && NoneBefore(s, sep, i)
      decreases t - i
    {
      i := SkipTo(s, sep, i, t);
      if i == t {
        break;
      }
      if s[i + 1] == sep[1] && s[i..i + |sep|] == sep {
        Found(s, sep, i);
        return i;
      }
      Missed(s, sep, i);
      i := i + 1;
      fails := fails + 1;
      if giveUp(i, fails) {
        Resume(s, sep, i);
        var rest := First(s[i..], sep);
        return if rest < 0 then -1 else i + rest;
      }
    }
    NowhereLeft(s, sep, t);
    return -1;
  }

  lemma Found(s: seq<byte>, sep: seq<byte>, i: nat)
    requires NoneBefore(s, sep, i) && i + |sep| <= |s| && s[i..i + |sep|] == sep
    ensures First(s, sep) == i
  {
    hide First;
    assert Occurs(s, sep, i);
  }

  lemma Missed(s: seq<byte>, sep: seq<byte>, i: nat)
    requires |sep| >= 2 && NoneBefore(s, sep, i) && i + |sep| <= |s|
    requires !(s[i + 1] == sep[1] && s[i..i + |sep|] == sep)
    ensures NoneBefore(s, sep, i + 1)
  {
    if Occurs(s, sep, i) {
      OccursStarts(s, sep, i);
    }
  }

  lemma NowhereLeft(s: seq<byte>, sep: seq<byte>, t: int)
    requires t > |s| - |sep| && NoneBefore(s, sep, t)
    ensures First(s, sep) == -1
  {
    hide First;
  }

  /**
    Index: every fast path returns the first occurrence.  maxLen, maxBrute and cutover are
    the platform's; the fallbacks are the assembly search and Rabin-Karp.
   */
  method Index(s: seq<byte>, sep: seq<byte>, maxLen: nat, maxBrute: nat, cutover: nat -> int) returns (r: int)
    ensures r == First(s, sep)
  {
    var n := |sep|;
    if n == 0 {
      return 0;
    } else if n == 1 {
      OneByte(s, sep);
      return IndexByte(s, sep[0]);
    } else if n == |s| {
      if sep == s {
        assert s[..n] == s;
        return 0;
      }
      WholeOrNothing(s, sep);
      return -1;
    } else if n > |s| {
      return -1;
    } else if n <= maxLen {
      if |s| <= maxBrute {
        return First(s, sep);
      }
      r := SkipSearch(s, sep, (i: nat, fails: nat) => fails > cutover(i));
    } else {
      var t := |s| - n + 1;
      r := SkipSearch(s, sep, (i: nat, fails: nat) => fails >= 4 + i / 16 && i < t);
    }
  }

  lemma OneByte(s: seq<byte>, sep: seq<byte>)
    requires |sep| == 1
    ensures IndexByte(s, sep[0]) == First(s, sep)
  {
    var i, k := IndexByte(s, sep[0]), First(s, sep);
    hide IndexByte, First;
    if i >= 0 {
      assert s[i..i + 1] == sep;
      assert Occurs(s, sep, i);
    }
    if k >= 0 {
      OccursStarts(s, sep, k);
    }
  }

  lemma WholeOrNothing(s: seq<byte>, sep: seq<byte>)
    requires |s| == |sep| && s != sep
    ensures First(s, sep) == -1
  {
    var k := First(s, sep);
    hide First;
  }

  // ---------------------------------------------------------------- the operations

  // bytealg.Count counts a single byte.
  method Count(s: seq<byte>, sep: seq<byte>) returns (n: nat)
    ensures n == if sep == [] then RuneCount(s) + 1 else CountOf(s, sep)
  {
    if sep == [] {
      return RuneCount(s) + 1;
    }
    n := 0;
    var rest := s;
    while true
      invariant n + CountOf(rest, sep) == CountOf(s, sep)
      decreases |rest|
    {
      var i := First(rest, sep);
      if i == -1 {
        return;
      }
      n := n + 1;
      rest := rest[i + |sep|..];
    }
  }

  method DoExplode(s: seq<byte>, n: int) returns (a: seq<seq<byte>>)
    ensures a == Explode(s, if n <= 0 || n > |s| then |s| else n)
  {
    hide Explode, Utf8.Width;
    var limit: nat := if n <= 0 || n > |s| then |s| else n;
    a := [];
    var rest := s;
    while |rest| > 0
      invariant |a| <= limit && (rest != [] ==> |a| < limit)
      invariant a + Explode(rest, limit - |a|) == Explode(s, limit)
      decreases |rest|
    {
      if |a| + 1 >= limit {
        ExplodedLast(rest);
        a := a + [rest];
        return;
      }
      var size := Utf8.Width(rest);
      Exploded(rest, limit - |a|);
      Shuffle(a, rest[..size], Explode(rest[size..], limit - |a| - 1));
      a := a + [rest[..size]];
      rest := rest[size..];
    }
    ExplodedNone(limit - |a|);
  }

  lemma ExplodedLast(s: seq<byte>)
    requires s != []
    ensures Explode(s, 1) == [s]
  {
  }

  lemma ExplodedNone(n: nat)
    ensures Explode([], n) == []
  {
  }

  lemma Exploded(s: seq<byte>, n: nat)
    requires s != [] && n > 1
    ensures Explode(s, n) == [s[..Utf8.Width(s)]] + Explode(s[Utf8.Width(s)..], n - 1)
  {
    if Utf8.Width(s) == |s| {
      assert s[..|s|] == s;
    }
  }

  /** genSplit: the pieces fit the array made for them. */
  method GenSplit(s: seq<byte>, sep: seq<byte>, sepSave: nat, n: int) returns (a: seq<seq<byte>>)
    requires sepSave <= |sep|
    ensures n == 0 ==> a == []
    ensures n != 0 && sep == [] ==> a == Explode(s, if n <= 0 || n > |s| then |s| else n)
    ensures n != 0 && sep != [] ==> a == Pieces(s, sep, sepSave, if n < 0 then CountOf(s, sep) + 1 else n)
  {
    if n == 0 {
      return [];
    }
    if |sep| == 0 {
      a := DoExplode(s, n);
      return;
    }
    hide First, CountOf;
    var limit := n;
    if n < 0 {
      limit := Count(s, sep);
      limit := limit + 1;
    }
    ghost var asked: nat := limit;
    if limit > |s| + 1 {
      limit := |s| + 1;
      EnoughPieces(s, sep, sepSave, asked, limit);
    }
    a := SplitInto(s, sep, sepSave, limit);
  }

  method SplitInto(s: seq<byte>, sep: seq<byte>, sepSave: nat, limit: nat) returns (a: seq<seq<byte>>)
    requires sep != [] && sepSave <= |sep| && limit >= 1
    ensures a == Pieces(s, sep, sepSave, limit)
  {
    hide First, Pieces;
    var out := new seq<byte>[limit];
    var n := limit - 1;
    var i: nat := 0;
    var rest := s;
    while i < n
      invariant i <= n
      invariant out[..i] + Pieces(rest, sep, sepSave, limit - i) == Pieces(s, sep, sepSave, limit)
      decreases n - i
    {
      var m := First(rest, sep);
      if m < 0 {
        break;
      }
      PiecesStep(rest, sep, sepSave, limit - i);
      ghost var done := out[..i];
      Shuffle(done, rest[..m + sepSave], Pieces(rest[m + |sep|..], sep, sepSave, limit - i - 1));
      out[i] := rest[..m + sepSave];
      Extended(out, i, done);
      rest := rest[m + |sep|..];
      i := i + 1;
    }
    PiecesOfOne(rest, sep, sepSave, limit - i);
    ghost var done := out[..i];
    out[i] := rest;
    Extended(out, i, done);
    return out[..i + 1];
  }

  lemma Shuffle<T>(a: seq<T>, x: T, b: seq<T>)
    ensures a + ([x] + b) == (a + [x]) + b
  {
  }

  lemma Extended<T>(out: array<T>, i: nat, done: seq<T>)
    requires i < out.Length && |done| == i && forall j :: 0 <= j < i ==> out[j] == done[j]
    ensures out[..i + 1] == done + [out[i]]
  {
  }

  // More pieces than bytes and one cannot be had.
  lemma {:induction false} EnoughPieces(s: seq<byte>, sep: seq<byte>, save: nat, a: nat, b: nat)
    requires sep != [] && save <= |sep| && a >= 1 && b >= 1
    requires a > CountOf(s, sep) && b > CountOf(s, sep)
    ensures Pieces(s, sep, save, a) == Pieces(s, sep, save, b)
    decreases a
  {
    var m := First(s, sep);
    hide First;
    if m >= 0 {
      EnoughPieces(s[m + |sep|..], sep, save, a - 1, b - 1);
    }
  }

  function Total(a: seq<seq<byte>>): nat {
    if a == [] then 0 else Total(a[..|a| - 1]) + |a[|a| - 1]|
  }

  lemma {:induction false} JoinedSnoc(a: seq<seq<byte>>, v: seq<byte>, sep: seq<byte>)
    requires a != []
    ensures Joined(a + [v], sep) == Joined(a, sep) + (sep + v)
    decreases |a|
  {
    var b := a + [v];
    if |a| == 1 {
      assert b[1..] == [v];
    } else {
      var rest := a[1..];
      assert b[1..] == rest + [v];
      JoinedSnoc(rest, v, sep);
      Reassociate(sep, Joined(rest, sep), sep + v);
      Reassociate(a[0], sep + Joined(rest, sep), sep + v);
    }
  }

  lemma {:induction false} JoinedLength(a: seq<seq<byte>>, sep: seq<byte>)
    requires a != []
    ensures |Joined(a, sep)| == |sep| * (|a| - 1) + Total(a)
    decreases |a|
  {
    var n := |a| - 1;
    var front := a[..n];
    assert a == front + [a[n]];
    if n == 0 {
      assert Total(front) == 0;
    } else {
      JoinedLength(front, sep);
      JoinedSnoc(front, a[n], sep);
      assert |sep| * n == |sep| * (n - 1) + |sep|;
    }
  }

  lemma {:induction false} TotalGrows(a: seq<seq<byte>>, k: nat)
    requires k <= |a|
    ensures Total(a[..k]) <= Total(a)
    decreases |a|
  {
    if k < |a| {
      assert a[..|a| - 1][..k] == a[..k];
      TotalGrows(a[..|a| - 1], k);
    } else {
      assert a[..k] == a;
    }
  }

  // Adds up the size, or finds that it does not fit an int.
  method JoinSize(s: seq<seq<byte>>, sep: seq<byte>) returns (n: nat, ok: bool)
    requires |s| > 1
    ensures ok ==> n == |Joined(s, sep)|
    ensures !ok ==> |Joined(s, sep)| + |s| > MAX_INT
  {
    hide Joined;
    JoinedLength(s, sep);
    var k := |s| - 1;
    ghost var seps := |sep| * k;
    n := 0;
    if |sep| > 0 {
      if |sep| >= MAX_INT / k {
        NearOverflow(|sep|, k);
        return 0, false;
      }
      n := |sep| * k;
    }
    var i := 0;
    while i < |s|
      invariant 0 <= i <= |s| && n == seps + Total(s[..i])
    {
      assert s[..i + 1][..i] == s[..i];
      TotalGrows(s, i + 1);
      if |s[i]| > MAX_INT - n {
        return 0, false;
      }
      n := n + |s[i]|;
      i := i + 1;
    }
    assert s[..|s|] == s;
    return n, true;
  }

  lemma NearOverflow(a: nat, k: nat)
    requires k > 0 && a >= MAX_INT / k
    ensures a * k + k > MAX_INT
  {
    var q := MAX_INT / k;
    assert MAX_INT == q * k + MAX_INT % k;
    assert a * k >= q * k;
  }

  /** Join; it gives up only when the result is within len(s) of the largest int. */
  method Join(s: seq<seq<byte>>, sep: seq<byte>) returns (text: seq<byte>, ok: bool)
    ensures ok ==> text == Joined(s, sep)
    ensures !ok ==> |Joined(s, sep)| + |s| > MAX_INT
  {
    if |s| == 0 {
      return [], true;
    }
    if |s| == 1 {
      return s[0], true;
    }
    var n;
    n, ok := JoinSize(s, sep);
    if !ok {
      return [], false;
    }
    var b := new byte[n];
    JoinInto(b, s, sep);
    return b[..], true;
  }

  method JoinInto(b: array<byte>, s: seq<seq<byte>>, sep: seq<byte>)
    requires |s| > 1 && b.Length == |Joined(s, sep)|
    modifies b
    ensures b[..] == Joined(s, sep)
  {
    hide Joined;
    OnePiece(s[0], sep);
    assert s[..1] == [s[0]];
    JoinedPrefix(s, sep, 1);
    CopyTo(b, 0, s[0]);
    var bp: nat, i: nat := |s[0]|, 1;
    while i < |s|
      invariant 1 <= i <= |s| && bp <= b.Length && b[..bp] == Joined(s[..i], sep)
    {
      assert s[..i + 1] == s[..i] + [s[i]];
      JoinedSnoc(s[..i], s[i], sep);
      JoinedPrefix(s, sep, i + 1);
      Reassociate(b[..bp], sep, s[i]);
      CopyPair(b, bp, sep, s[i]);
      bp := bp + |sep| + |s[i]|;
      i := i + 1;
    }
    assert s[..|s|] == s;
    assert b[..bp] == b[..];
  }

  // Two copies, one after the other.
  method CopyPair(t: array<byte>, w: nat, x: seq<byte>, y: seq<byte>)
    requires w + |x| + |y| <= t.Length
    modifies t
    ensures t[..w + |x| + |y|] == (old(t[..w]) + x) + y
  {
    ghost var done := t[..w];
    CopyTo(t, w, x);
    GlueFront(t, w, w + |x|);
    assert t[..w + |x|] == done + x;
    CopyTo(t, w + |x|, y);
    GlueFront(t, w + |x|, w + |x| + |y|);
    assert t[..w + |x|] == done + x;
  }

  lemma OnePiece(x: seq<byte>, sep: seq<byte>)
    ensures Joined([x], sep) == x
  {
  }

  lemma JoinedPrefix(a: seq<seq<byte>>, sep: seq<byte>, k: nat)
    requires 0 < k <= |a|
    ensures |Joined(a[..k], sep)| <= |Joined(a, sep)|
  {
    hide Joined;
    JoinedLength(a, sep);
    JoinedLength(a[..k], sep);
    TotalGrows(a, k);
    assert |sep| * (k - 1) <= |sep| * (|a| - 1);
  }

  // How many replacements Replace makes.
  function Replacements(s: seq<byte>, old_: seq<byte>, n: int): (k: nat)
    ensures k <= Occurrences(s, old_, true)
  {
    var m := Occurrences(s, old_, true);
    if n < 0 || m < n then m else n
  }

  // What Replace would return in unbounded memory.
  function FullText(s: seq<byte>, old_: seq<byte>, new_: seq<byte>, n: int): seq<byte> {
    Replaced(s, old_, new_, Replacements(s, old_, n), true)
  }

  /**
    Replace.  A text that fits an int is returned whole, in a buffer filled exactly.  For
    a longer one the computed size wraps around: a negative size panics, and any other
    cuts the text off at that size.
   */
  method Replace(s: seq<byte>, old_: seq<byte>, new_: seq<byte>, n: int) returns (r: seq<byte>, ok: bool)
    requires |s| <= MAX_INT
    ensures |FullText(s, old_, new_, n)| == |s| + Replacements(s, old_, n) * (|new_| - |old_|)
    ensures ok <==> Wrap(|FullText(s, old_, new_, n)|) >= 0
    ensures ok ==> |r| == Wrap(|FullText(s, old_, new_, n)|) <= |FullText(s, old_, new_, n)|
    ensures ok ==> r == FullText(s, old_, new_, n)[..|r|]
    ensures |FullText(s, old_, new_, n)| <= MAX_INT ==> ok && r == FullText(s, old_, new_, n)
  {
    hide Replaced, CountOf, RuneCount, Wrap;
    ghost var full := FullText(s, old_, new_, n);
    WrapBelow(|full|);
    ReplacedLength(s, old_, new_, Replacements(s, old_, n), true);
    var m := 0;
    if n != 0 {
      m := Count(s, old_);
    }
    if m == 0 {
      ReplacedNone(s, old_, new_, true);
      assert full == s == s[..|s|];
      return s, true;
    }
    var count: nat := if n < 0 || m < n then m else n;
    var size := Wrap(|s| + count * (|new_| - |old_|));
    if size < 0 {
      return [], false;
    }
    var t := new byte[size];
    ReplaceInto(t, s, old_, new_, count);
    assert full[..|full|] == full;
    return t[..], true;
  }

  lemma WrapBelow(x: nat)
    ensures Wrap(x) <= x && (x <= MAX_INT <==> Wrap(x) == x)
  {
  }

  // copy(t[w:], x), cut off at the end of t.
  method CopyCut(t: array<byte>, w: nat, x: seq<byte>, ghost done: seq<byte>) returns (k: nat)
    requires w == Min(|done|, t.Length) && t[..w] == done[..w]
    modifies t
    ensures k == Min(|done + x|, t.Length) && t[..k] == (done + x)[..k]
  {
    var n := Min(|x|, t.Length - w);
    CopyTo(t, w, x[..n]);
    k := w + n;
    GlueFront(t, w, k);
    CutOff(done, x, w, n);
    assert t[..w] == done[..w];
  }

  lemma CutOff(done: seq<byte>, x: seq<byte>, w: nat, n: nat)
    requires w <= |done| && n <= |x| && (n > 0 ==> w == |done|)
    ensures (done + x)[..w + n] == done[..w] + x[..n]
  {
  }

  method ReplaceInto(t: array<byte>, s: seq<byte>, old_: seq<byte>, new_: seq<byte>, count: nat)
    requires count <= Occurrences(s, old_, true) && t.Length <= |Replaced(s, old_, new_, count, true)|
    modifies t
    ensures t[..] == Replaced(s, old_, new_, count, true)[..t.Length]
  {
    hide Replaced, Occurrences, Cut;
    var w: nat, start: nat, i: nat := 0, 0, 0;
    ghost var full := Replaced(s, old_, new_, count, true);
    ghost var done: seq<byte> := [];
    assert s[0..] == s && [] + full == full;
    while i < count
      invariant i <= count && start <= |s| && w == Min(|done|, t.Length) && t[..w] == done[..w]
      invariant count - i <= Occurrences(s[start..], old_, i == 0)
      invariant done + Replaced(s[start..], old_, new_, count - i, i == 0) == full
    {
      var rest := s[start..];
      ReplaceOnce(rest, old_, new_, count - i, i == 0);
      var j := Cut(rest, old_, i == 0);
      Four(done, rest[..j], new_, Replaced(rest[j + |old_|..], old_, new_, count - i - 1, false));
      w := CopyCut(t, w, rest[..j], done);
      w := CopyCut(t, w, new_, done + rest[..j]);
      done := (done + rest[..j]) + new_;
      assert rest[j + |old_|..] == s[start + j + |old_|..];
      start := start + j + |old_|;
      i := i + 1;
    }
    ReplacedNone(s[start..], old_, new_, i == 0);
    w := CopyCut(t, w, s[start..], done);
    assert t[..t.Length] == t[..];
  }

  /** Two to the 32 bytes, each replaced by one more than that: the text is cut off. */
  lemma ReplaceCanCut(s: seq<byte>, a: byte, new_: seq<byte>)
    requires |s| == 0x1_0000_0000 && (forall i :: 0 <= i < |s| ==> s[i] == a) && |new_| == 0x1_0000_0001
    ensures
      var full := FullText(s, [a], new_, -1);
      0 <= Wrap(|full|) < |full|
  {
    hide Replaced, CountOf, RuneCount, Wrap;
    CountSame(s, a);
    var k := Replacements(s, [a], -1);
    assert k == 0x1_0000_0000;
    ReplacedLength(s, [a], new_, k, true);
    assert k * (|new_| - 1) == 0x1_0000_0000_0000_0000;
    assert |FullText(s, [a], new_, -1)| == 0x1_0000_0001_0000_0000;
    WrapsAround();
  }

  lemma WrapsAround()
    ensures Wrap(0x1_0000_0001_0000_0000) == 0x1_0000_0000
  {
  }

  lemma {:induction false} CountSame(s: seq<byte>, a: byte)
    requires forall i :: 0 <= i < |s| ==> s[i] == a
    ensures CountOf(s, [a]) == |s|
    decreases |s|
  {
    if s != [] {
      assert s[..1] == [a];
      CountSame(s[1..], a);
    }
  }

  lemma ReplaceOnce(s: seq<byte>, old_: seq<byte>, new_: seq<byte>, n: nat, first: bool)
    requires 0 < n <= Occurrences(s, old_, first)
    ensures
      var j := Cut(s, old_, first);
      && n - 1 <= Occurrences(s[j + |old_|..], old_, false)
      && Replaced(s, old_, new_, n, first) == s[..j] + (new_ + Replaced(s[j + |old_|..], old_, new_, n - 1, false))
  {
    hide Cut, Occurrences;
  }

  lemma Four(a: seq<byte>, b: seq<byte>, c: seq<byte>, d: seq<byte>)
    ensures a + (b + (c + d)) == ((a + b) + c) + d
    ensures |a + (b + (c + d))| == |a| + |b| + |c| + |d|
  {
  }
}
