/** Bytes, 16-bit words and the little option type shared by every component. */
module Bytes {

  type byte = b: nat | b < 0x100
  type word = w: nat | w < 0x1_0000

  datatype Option<+T> = None | Some(value: T)

  function Min(a: int, b: int): int
  {
    if a < b then a else b
  }

  /** Big-endian 16-bit value, as every RFB header field is sent. */
  function Word(hi: byte, lo: byte): (w: word)
  {
    hi * 256 + lo
  }

  /** The two bytes of a big-endian 16-bit field. */
  function BigEndian(w: word): (s: seq<byte>)
    ensures |s| == 2 && Word(s[0], s[1]) == w
  {
    [w / 256, w % 256]
  }

  /** 16-bit unsigned addition and subtraction, as the AVR's `unsigned int` does them. */
  function Add16(a: word, b: word): (r: word)
    ensures a + b < 0x1_0000 ==> r == a + b
  {
    (a + b) % 0x1_0000
  }

  function Sub16(a: word, b: word): (r: word)
    ensures Add16(r, b) == a
  {
    if a >= b then a - b else a + 0x1_0000 - b
  }

  lemma SubTwice(a: word, b: word, c: word)
    requires b + c < 0x1_0000
    ensures Sub16(Sub16(a, b), c) == Sub16(a, b + c)
  {
  }

  lemma Regroup<T>(a: seq<T>, b: seq<T>, c: seq<T>, d: seq<T>)
    ensures (a + (b + c)) + d == (a + b) + (c + d)
    ensures (b + c) + d == b + (c + d)
  {
  }

  lemma DropPrefix<T>(a: seq<T>, b: seq<T>)
    ensures (a + b)[|a|..] == b
  {
  }

  lemma TakePrefix<T>(a: seq<T>, b: seq<T>)
    ensures (a + b)[..|a|] == a
  {
  }

  lemma Cut<T>(a: seq<T>, k: nat, i: nat)
    requires i <= k <= |a|
    ensures a == a[..k] + a[k..] && a[..k][i..] + a[k..] == a[i..]
  {
  }

  lemma DropTwice<T>(a: seq<T>, i: nat, j: nat)
    requires i + j <= |a|
    ensures a[i..][j..] == a[i + j..]
  {
  }

  lemma SliceDrop<T>(a: seq<T>, i: nat, j: nat, n: nat)
    requires i + n <= j <= |a|
    ensures a[i..j][n..] == a[i + n..j]
  {
  }

  lemma SliceTake<T>(a: seq<T>, i: nat, j: nat, n: nat)
    requires i + n <= j <= |a|
    ensures a[i..j][..n] == a[i..i + n]
  {
  }

  lemma SliceAt<T>(a: seq<T>, i: nat, j: nat, k: nat)
    requires i + k < j <= |a|
    ensures a[i..j][k] == a[i + k]
  {
  }
}
