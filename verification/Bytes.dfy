/** Bytes, byte buffers and the kernel's block copy. */
module Bytes {

  newtype Byte = x: int | 0 <= x < 256

  /** The buffer `s` with the bytes from position `at` on replaced by `d`. */
  function Splice(s: seq<Byte>, at: nat, d: seq<Byte>): (r: seq<Byte>)
    requires at + |d| <= |s|
    ensures |r| == |s|
  {
    s[..at] + d + s[at + |d|..]
  }

  lemma SpliceAt(s: seq<Byte>, at: nat, d: seq<Byte>, i: nat)
    requires at + |d| <= |s| && i < |s|
    ensures Splice(s, at, d)[i] == if at <= i < at + |d| then d[i - at] else s[i]
  {
  }

  lemma SpliceAppend(s: seq<Byte>, at: nat, d: seq<Byte>, e: seq<Byte>)
    requires at + |d| + |e| <= |s|
    ensures Splice(Splice(s, at, d), at + |d|, e) == Splice(s, at, d + e)
  {
  }

  lemma SpliceOneMore(s: seq<Byte>, d: seq<Byte>, k: nat)
    requires k < |d| && k < |s|
    ensures Splice(s, 0, d[..k])[k := d[k]] == Splice(s, 0, d[..k + 1])
  {
    var a, b := Splice(s, 0, d[..k])[k := d[k]], Splice(s, 0, d[..k + 1]);
    assert forall i :: 0 <= i < |s| ==> a[i] == b[i];
  }

  lemma SpliceFront(s: seq<Byte>, d: seq<Byte>)
    requires |d| <= |s|
    ensures Splice(s, 0, d) == d + s[|d|..]
  {
  }

  lemma SpliceReadBack(s: seq<Byte>, at: nat, d: seq<Byte>)
    requires at + |d| <= |s|
    ensures Splice(s, at, d)[at..at + |d|] == d
  {
  }

  lemma SpliceKeepsRest(s: seq<Byte>, at: nat, d: seq<Byte>)
    requires at + |d| <= |s|
    ensures Splice(s, at, d)[..at] == s[..at] && Splice(s, at, d)[at + |d|..] == s[at + |d|..]
  {
  }

  lemma SpliceCommute(s: seq<Byte>, at: nat, d: seq<Byte>, at': nat, d': seq<Byte>)
    requires at + |d| <= |s| && at' + |d'| <= |s|
    requires at + |d| <= at' || at' + |d'| <= at
    ensures Splice(Splice(s, at, d), at', d') == Splice(Splice(s, at', d'), at, d)
  {
  }

  /** memcpy between two distinct buffers. */
  method CopyBytes(dst: array<Byte>, to: nat, src: array<Byte>, from: nat, n: nat)
    requires dst != src
    requires to + n <= dst.Length && from + n <= src.Length
    modifies dst
    ensures dst[..] == Splice(old(dst[..]), to, src[from..from + n])
  {
    forall i | 0 <= i < n {
      dst[to + i] := src[from + i];
    }
  }

  /** Bytes arriving from user space. */
  method StoreBytes(dst: array<Byte>, to: nat, d: seq<Byte>)
    requires to + |d| <= dst.Length
    modifies dst
    ensures dst[..] == Splice(old(dst[..]), to, d)
  {
    forall i | 0 <= i < |d| {
      dst[to + i] := d[i];
    }
  }
}
