/**
  Bytes, options and the byte search shared by the other modules.
 */
module Bytes {

  type byte = x: int | 0 <= x < 256

  const LF: byte := 10
  const CR: byte := 13

  const MAX_INT: int := 0x7FFF_FFFF_FFFF_FFFF

  type int64 = x: int | -0x8000_0000_0000_0000 <= x < 0x8000_0000_0000_0000

  // The value an int takes when arithmetic overflows.
  function Wrap(x: int): int64 { (x + 0x8000_0000_0000_0000) % 0x1_0000_0000_0000_0000 - 0x8000_0000_0000_0000 }

  datatype Option<T> = None | Some(value: T)

  function Min(a: nat, b: nat): nat { if a < b then a else b }

  // bytes.IndexByte and strings.IndexByte: the first occurrence, or -1.
  function IndexByte(s: seq<byte>, c: byte): (i: int)
    ensures -1 <= i < |s|
    ensures i >= 0 ==> s[i] == c
    ensures forall j :: 0 <= j < (if i < 0 then |s| else i) ==> s[j] != c
  {
    if s == [] then -1
    else if s[0] == c then 0
    else
      var i := IndexByte(s[1..], c);
      assert forall j :: 1 <= j < |s| ==> s[j] == s[1..][j - 1];
      if i < 0 then -1 else i + 1
  }

  // c is the hexadecimal digit v, in either case.
  predicate HexOf(c: byte, v: nat)
    requires v < 16
  {
    c == "0123456789ABCDEF"[v] as int || c == "0123456789abcdef"[v] as int
  }

  // The pieces, one after the other.
  function Flatten(pieces: seq<seq<byte>>): seq<byte> {
    if pieces == [] then [] else pieces[0] + Flatten(pieces[1..])
  }

  lemma NothingFlat()
    ensures Flatten([]) == []
  {
  }

  lemma {:induction false} FlattenFront(pieces: seq<seq<byte>>, k: nat)
    requires k <= |pieces|
    ensures Flatten(pieces[..k]) <= Flatten(pieces)
    decreases |pieces|
  {
    if k < |pieces| {
      var n := |pieces| - 1;
      var front := pieces[..n];
      assert pieces == front + [pieces[n]] && front[..k] == pieces[..k];
      FlattenSnoc(front, pieces[n]);
      FlattenFront(front, k);
    } else {
      assert pieces[..k] == pieces;
    }
  }

  lemma {:induction false} FlattenSnoc(pieces: seq<seq<byte>>, last: seq<byte>)
    ensures Flatten(pieces + [last]) == Flatten(pieces) + last
  {
    if pieces == [] {
      assert Flatten([last]) == last + Flatten([]);
    } else {
      assert (pieces + [last])[1..] == pieces[1..] + [last];
      FlattenSnoc(pieces[1..], last);
      Reassociate(pieces[0], Flatten(pieces[1..]), last);
    }
  }

  predicate EndsWith(s: seq<byte>, tail: seq<byte>) {
    |tail| <= |s| && forall i :: 0 <= i < |tail| ==> s[|s| - |tail| + i] == tail[i]
  }

  lemma Reassociate(a: seq<byte>, b: seq<byte>, c: seq<byte>)
    ensures a + (b + c) == (a + b) + c
  {
  }

  lemma Glue(b: array<byte>, lo: nat, mid: nat, hi: nat)
    requires lo <= mid <= hi <= b.Length
    ensures b[lo..hi] == b[lo..mid] + b[mid..hi]
  {
  }

  lemma GlueFront(b: array<byte>, mid: nat, hi: nat)
    requires mid <= hi <= b.Length
    ensures b[..hi] == b[..mid] + b[mid..hi]
  {
  }

  lemma Narrow(b: array<byte>, lo: nat, hi: nat, k: nat)
    requires lo + k <= hi <= b.Length
    ensures b[lo..hi][..k] == b[lo..lo + k]
  {
  }

  // copy(b[lo:], src) from a value.
  method CopyTo(b: array<byte>, lo: nat, src: seq<byte>)
    requires lo + |src| <= b.Length
    modifies b
    ensures b[lo..lo + |src|] == src
    ensures forall i :: 0 <= i < lo || lo + |src| <= i < b.Length ==> b[i] == old(b[i])
  {
    forall i | 0 <= i < |src| { b[lo + i] := src[i]; }
  }
}
