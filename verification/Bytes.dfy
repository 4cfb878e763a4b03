/** Bytes and the fixed-width integers made of them. */
module Bytes {

  type byte = b: int | 0 <= b < 256

  datatype Option<+T> = None | Some(value: T)

  /** A 16-bit number in network byte order. */
  function Net16(n: nat): (r: seq<byte>)
    ensures |r| == 2
  {
    [n / 256 % 256, n % 256]
  }

  function Host16(b: seq<byte>, at: nat): (n: nat)
    requires at + 2 <= |b|
    ensures n < 0x10000
  {
    b[at] as int * 256 + b[at + 1]
  }

  /** A 32-bit number in network byte order. */
  function Net32(n: nat): (r: seq<byte>)
    ensures |r| == 4
  {
    Net16(n / 0x10000) + Net16(n % 0x10000)
  }

  function Host32(b: seq<byte>, at: nat): (n: nat)
    requires at + 4 <= |b|
    ensures n < 0x1_0000_0000
  {
    Host16(b, at) * 0x10000 + Host16(b, at + 2)
  }

  lemma Net16RoundTrip(b: seq<byte>, at: nat, n: nat)
    requires n < 0x10000 && at + 2 <= |b| && b[at..at + 2] == Net16(n)
    ensures Host16(b, at) == n
  {
    assert b[at] == b[at..at + 2][0] && b[at + 1] == b[at..at + 2][1];
  }

  lemma Net32RoundTrip(b: seq<byte>, at: nat, n: nat)
    requires n < 0x1_0000_0000 && at + 4 <= |b| && b[at..at + 4] == Net32(n)
    ensures Host32(b, at) == n
  {
    var hi, lo := Net16(n / 0x10000), Net16(n % 0x10000);
    assert b[at..at + 2] == b[at..at + 4][..2] == hi;
    assert b[at + 2..at + 4] == b[at..at + 4][2..] == lo;
    Net16RoundTrip(b, at, n / 0x10000);
    Net16RoundTrip(b, at + 2, n % 0x10000);
  }

  /** Writing xs into a buffer from position at on: one more element. */
  lemma WriteNext(before: seq<byte>, mid: seq<byte>, now: seq<byte>, at: nat, xs: seq<byte>, k: nat)
    requires at + |xs| <= |before| && k < |xs|
    requires mid == before[..at] + xs[..k] + before[at + k..] && now == mid[at + k := xs[k]]
    ensures now == before[..at] + xs[..k + 1] + before[at + (k + 1)..]
  {
  }

  /** Two sequences that end alike have the same parts there. */
  lemma SameTail<T>(s: seq<T>, t: seq<T>, n: nat, a: nat, b: nat)
    requires n <= |s| == |t| && s[n..] == t[n..] && n <= a <= b <= |s|
    ensures s[a..b] == t[a..b] && s[b..] == t[b..]
  {
    forall i | n <= i < |s| ensures s[i] == t[i] {
      assert s[n..][i - n] == t[n..][i - n];
    }
  }

  lemma TakeSplit<T>(s: seq<T>, a: nat, b: nat)
    requires a <= b <= |s|
    ensures s[..b] == s[..a] + s[a..b]
  {
  }

  lemma SamePart<T>(s: seq<T>, t: seq<T>, n: nat, a: nat, b: nat)
    requires n <= |s| && n <= |t| && s[..n] == t[..n] && a <= b <= n
    ensures s[a..b] == t[a..b]
  {
    assert s[a..b] == s[..n][a..b] && t[a..b] == t[..n][a..b];
  }
}
