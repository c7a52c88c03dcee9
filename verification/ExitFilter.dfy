/**
  The exit code filter of go_android_exec: it passes a program's output through, holding
  back whatever may still turn out to be the exit marker that the wrapper script appends.
 */
module ExitFilter {
  import opened Bytes
  import opened Numerals

  // "exitcode="
  const EXIT: seq<byte> := [101, 120, 105, 116, 99, 111, 100, 101, 61]

  predicate Digits(s: seq<byte>) { forall i :: 0 <= i < |s| ==> 48 <= s[i] <= 57 }

  // The last alternative of exitRe, the one with the group.
  predicate FullMatch(s: seq<byte>) { |s| > 9 && s[..9] == EXIT && Digits(s[9..]) }

  // Any alternative of exitRe, over all of s: a prefix of the marker, or the marker and a code.
  predicate Match(s: seq<byte>) { (1 <= |s| <= 9 && s == EXIT[..|s|]) || FullMatch(s) }

  // regexp.FindIndex: every alternative ends at the end of the text, so only the start of
  // the leftmost match is open.
  function Leftmost(b: seq<byte>): (i: nat)
    ensures i <= |b|
    ensures i < |b| ==> Match(b[i..])
    ensures forall j :: 0 <= j < i ==> !Match(b[j..])
  {
    if b == [] || Match(b) then
      assert b[0..] == b;
      0
    else
      var i := Leftmost(b[1..]);
      assert forall j :: 1 <= j <= |b| ==> b[j..] == b[1..][j - 1..];
      assert b[0..] == b;
      i + 1
  }

  // The longest suffix that could still become the marker.
  function Tail(b: seq<byte>): seq<byte> { b[Leftmost(b)..] }

  function Decimal(ds: seq<byte>): (n: nat)
    requires Digits(ds)
  {
    if ds == [] then 0 else Decimal(ds[..|ds| - 1]) * 10 + (ds[|ds| - 1] - 48)
  }

  // strconv.Atoi on a run of digits.
  function Atoi(ds: seq<byte>): Option<int>
    requires Digits(ds)
  {
    if Decimal(ds) <= MAX_INT then Some(Decimal(ds)) else None
  }

  /** The code is the number that its digits denote. */
  lemma {:induction false} DecimalDenotes(ds: seq<byte>, digits: seq<nat>)
    requires |ds| == |digits| && forall i :: 0 <= i < |ds| ==> digits[i] < 10 && ds[i] == "0123456789"[digits[i]] as int
    ensures Digits(ds) && Decimal(ds) == Numeral(10, digits)
    decreases |ds|
  {
    if ds != [] {
      var n := |ds| - 1;
      DecimalDenotes(ds[..n], digits[..n]);
      NumeralSnoc(10, digits[..n], digits[n]);
      assert digits == digits[..n] + [digits[n]];
    }
  }

  // ---------------------------------------------------------------- the marker

  /** What may become the marker has always been able to. */
  lemma MatchPrefix(s: seq<byte>, k: nat)
    requires Match(s) && 1 <= k <= |s|
    ensures Match(s[..k])
  {
    if |s| <= 9 {
      assert EXIT[..|s|][..k] == EXIT[..k];
    } else if k <= 9 {
      assert s[..k] == s[..9][..k];
    } else {
      assert s[..k][..9] == s[..9];
      assert s[..k][9..] == s[9..][..k - 9];
    }
  }

  /** A full match is "exitcode=" and a code. */
  lemma FullMatchMeans(s: seq<byte>)
    ensures FullMatch(s) <==>
      |s| > 9 && (forall i :: 0 <= i < 9 ==> s[i] == "exitcode="[i] as int) && forall i :: 9 <= i < |s| ==> 48 <= s[i] <= 57
  {
    if |s| > 9 {
      assert forall i :: 0 <= i < 9 ==> EXIT[i] == "exitcode="[i] as int;
      assert forall i :: 0 <= i < 9 ==> s[..9][i] == s[i];
      assert forall i :: 9 <= i < |s| ==> s[9..][i - 9] == s[i];
    }
  }

  // Text that completes s to a marker and a code.
  function Completion(s: seq<byte>): seq<byte> { if |s| < 9 then EXIT[|s|..] + [48] else [48] }

  /** What is held back is exactly what may still become the marker. */
  lemma MatchMeans(s: seq<byte>, more: seq<byte>)
    requires s != []
    ensures FullMatch(s + more) ==> Match(s)
    ensures Match(s) ==> FullMatch(s + Completion(s))
  {
    if FullMatch(s + more) {
      MatchPrefix(s + more, |s|);
      assert (s + more)[..|s|] == s;
    }
    if Match(s) {
      var all := s + Completion(s);
      if |s| <= 9 {
        assert EXIT[..|s|] + EXIT[|s|..] == EXIT;
        assert all == EXIT + [48] by { if |s| == 9 { assert EXIT[..9] == EXIT; } }
        assert all[..9] == EXIT && all[9..] == [48];
      } else {
        assert all[..9] == s[..9] && all[9..] == s[9..] + [48];
      }
    }
  }

  /** Holding back only the tail forgets nothing: later output finds the same match. */
  lemma TailOfMore(b: seq<byte>, d: seq<byte>)
    ensures Tail(b + d) == Tail(Tail(b) + d)
    ensures Leftmost(b + d) >= Leftmost(b)
  {
    hide Leftmost, Match;
    var i := Leftmost(b);
    forall j | 0 <= j < i
      ensures !Match((b + d)[j..])
    {
      var s := (b + d)[j..];
      assert s[..|b| - j] == b[j..];
      if Match(s) {
        MatchPrefix(s, |b| - j);
      }
    }
    LeftmostFrom(b + d, i);
    assert (b + d)[i..] == Tail(b) + d;
  }

  lemma {:induction false} LeftmostFrom(x: seq<byte>, i: nat)
    requires i <= |x| && forall j :: 0 <= j < i ==> !Match(x[j..])
    ensures Leftmost(x) == i + Leftmost(x[i..])
  {
    hide Match;
    if i == 0 {
      assert x[0..] == x;
    } else {
      assert x[0..] == x && !Match(x[0..]);
      assert forall j :: 0 <= j < |x| ==> x[1..][j..] == x[j + 1..];
      LeftmostFrom(x[1..], i - 1);
    }
  }

  // No proper suffix of the marker begins it, so a match cannot start inside another.
  lemma NoOverlap(p: seq<byte>, ds: seq<byte>)
    requires p != [] && ds != []
    ensures !Match(p + (EXIT + ds))
  {
    var s := p + (EXIT + ds);
    var n := |p|;
    assert s[n] == EXIT[0] && s[n + 8] == EXIT[8];
    if n < 9 {
      assert s[..9][8] == s[8] == EXIT[8 - n];
    } else {
      assert s[9..][n - 9] == EXIT[0];
    }
  }

  /** Whatever came before it, a marker with its code is held back whole. */
  lemma TailOfMarker(p: seq<byte>, ds: seq<byte>)
    requires Digits(ds) && ds != []
    ensures Tail(p + (EXIT + ds)) == EXIT + ds
  {
    var s := p + (EXIT + ds);
    var i := Leftmost(s);
    assert s[|p|..] == EXIT + ds;
    assert Match(EXIT + ds) by {
      assert (EXIT + ds)[..9] == EXIT && (EXIT + ds)[9..] == ds;
    }
    hide Leftmost;
    forall j | 0 <= j < |p|
      ensures !Match(s[j..])
    {
      assert s[j..] == p[j..] + (EXIT + ds);
      NoOverlap(p[j..], ds);
    }
  }

  // ---------------------------------------------------------------- the filter

  class ExitCodeFilter {
    var w: seq<byte>
    var buf: seq<byte>
    ghost var written: seq<byte>

    /** Passed on, then held back: everything written, with as little held as possible. */
    ghost predicate Valid()
      reads this
    {
      w + buf == written && buf == Tail(written)
    }

    constructor ()
      ensures Valid() && w == [] && written == []
    {
      w, buf, written := [], [], [];
    }

    method Write(data: seq<byte>) returns (n: nat)
      requires Valid()
      modifies this
      ensures Valid() && n == |data| && written == old(written) + data
      ensures old(w) <= w
    {
      hide Leftmost;
      TailOfMore(written, data);
      Reassociate(w, buf, data);
      n := |data|;
      buf := buf + data;
      var start := Leftmost(buf);
      assert buf == buf[..start] + buf[start..];
      Reassociate(w, buf[..start], buf[start..]);
      if start == |buf| {
        assert buf[..start] == buf && buf[start..] == [];
        w := w + buf;
        buf := [];
      } else {
        w := w + buf[..start];
        buf := buf[start..];
      }
      written := written + data;
    }

    /** The code, exactly when the output ended in a marker and a code that fits an int. */
    method Finish() returns (code: int, ok: bool)
      requires Valid()
      modifies this
      ensures buf == []
      ensures ok <==> FullMatch(old(buf)) && Decimal(old(buf)[9..]) <= MAX_INT
      ensures ok ==> code == Decimal(old(buf)[9..]) && w == old(w) && old(w) + old(buf) == old(written)
      ensures !ok ==> code == 0 && w == old(written)
    {
      var b := buf;
      buf := [];
      if !FullMatch(b) {
        w := w + b;
        return 0, false;
      }
      var parsed := Atoi(b[9..]);
      if parsed.None? {
        w := w + b;
        return 0, false;
      }
      return parsed.value, true;
    }
  }

  /**
    Output p, the marker and a code that fits an int, cut into chunks in any way: exactly
    p is passed on, and the code is what Finish returns.
   */
  method Filter(chunks: seq<seq<byte>>, ghost p: seq<byte>, ghost ds: seq<byte>)
    returns (passed: seq<byte>, code: int, ok: bool)
    requires Flatten(chunks) == p + (EXIT + ds)
    requires Digits(ds) && ds != [] && Decimal(ds) <= MAX_INT
    ensures ok && passed == p && code == Decimal(ds)
  {
    hide Leftmost;
    var f := new ExitCodeFilter();
    var i := 0;
    while i < |chunks|
      invariant i <= |chunks| && f.Valid() && f.written == Flatten(chunks[..i])
    {
      var n := f.Write(chunks[i]);
      assert chunks[..i + 1] == chunks[..i] + [chunks[i]];
      FlattenSnoc(chunks[..i], chunks[i]);
      i := i + 1;
    }
    assert chunks[..i] == chunks;
    TailOfMarker(p, ds);
    assert (EXIT + ds)[..9] == EXIT && (EXIT + ds)[9..] == ds;
    SameTail(f.w, p, EXIT + ds);
    code, ok := f.Finish();
    passed := f.w;
  }

  lemma SameTail(a: seq<byte>, b: seq<byte>, tail: seq<byte>)
    requires a + tail == b + tail
    ensures a == b
  {
    assert |a| == |b|;
    assert forall i :: 0 <= i < |a| ==> a[i] == (a + tail)[i] && b[i] == (b + tail)[i];
  }
}
