/** The C library's view of character buffers, as the fixed-size strings of
    the ESM format use it: bytes, the NUL terminator, strnlen, strncmp,
    memset and memcpy. */
module CString {

  /** One `char` of a buffer. The buffers are only ever compared for
      equality, so whether `char` is signed does not matter. */
  newtype Byte = b: int | 0 <= b < 256

  const NUL: Byte := 0

  /** `n` terminators in a row. */
  function Zeros(n: nat): seq<Byte> {
    seq(n, _ => NUL)
  }

  /** strnlen(s, n): the index of the first NUL among the first `n` bytes,
      or `n` when there is none among them. */
  function StrNLen(s: seq<Byte>, n: nat): (len: nat)
    requires n <= |s|
    ensures len <= n
    ensures forall i :: 0 <= i < len ==> s[i] != NUL
    ensures len < n ==> s[len] == NUL
  {
    if n == 0 || s[0] == NUL then 0 else 1 + StrNLen(s[1..], n - 1)
  }

  /** The text a buffer holds: every byte before its first NUL, or the whole
      buffer when it has none. */
  function Text(s: seq<Byte>): (t: seq<Byte>)
    ensures |t| <= |s| && t == s[..|t|]
    ensures NUL !in t
    ensures |t| < |s| ==> s[|t|] == NUL
    ensures |t| < |s| <==> NUL in s
  {
    s[..StrNLen(s, |s|)]
  }

  /** The three properties of StrNLen determine it. */
  lemma StrNLenIs(s: seq<Byte>, n: nat, k: nat)
    requires k <= n <= |s|
    requires forall i :: 0 <= i < k ==> s[i] != NUL
    requires k < n ==> s[k] == NUL
    ensures StrNLen(s, n) == k
  {
  }

  /** Text is determined by the same three properties. */
  lemma TextIs(s: seq<Byte>, t: seq<Byte>)
    requires |t| <= |s| && t == s[..|t|]
    requires NUL !in t
    requires |t| < |s| ==> s[|t|] == NUL
    ensures Text(s) == t
  {
    forall i | 0 <= i < |t| ensures s[i] != NUL {
      assert s[i] == t[i];
    }
    StrNLenIs(s, |s|, |t|);
  }

  /** A buffer without a terminator is all text. */
  lemma TextWithoutNul(s: seq<Byte>)
    requires NUL !in s
    ensures Text(s) == s
  {
    TextIs(s, s);
  }

  /** Text read one byte at a time from the front. */
  lemma TextCons(s: seq<Byte>)
    requires |s| > 0
    ensures Text(s) == if s[0] == NUL then [] else [s[0]] + Text(s[1..])
  {
    if s[0] == NUL {
      TextIs(s, []);
    } else {
      var t := [s[0]] + Text(s[1..]);
      assert NUL !in t;
      assert t == s[..|t|];
      TextIs(s, t);
    }
  }

  /** The text of a concatenation: a terminator in the first part ends the
      text there; otherwise the text runs on into the second part. */
  lemma {:induction false} TextAppend(p: seq<Byte>, q: seq<Byte>)
    ensures Text(p + q) == if NUL in p then Text(p) else p + Text(q)
  {
    if p == [] {
      assert p + q == q;
    } else {
      TextCons(p);
      TextCons(p + q);
      assert (p + q)[1..] == p[1..] + q;
      TextAppend(p[1..], q);
      if p[0] != NUL {
        assert NUL in p <==> NUL in p[1..];
        if NUL !in p {
          assert p == [p[0]] + p[1..];
        }
      }
    }
  }

  /** Text ends at the first NUL, so cutting the buffer anywhere after it
      changes nothing. */
  lemma TextOfPrefix(s: seq<Byte>, m: nat)
    requires |Text(s)| <= m <= |s|
    ensures Text(s[..m]) == Text(s)
  {
    TextIs(s[..m], Text(s));
  }

  /** strncmp(a, b, n) == 0: the first `n` bytes of `a` and `b` agree up to
      and including the first NUL among them. */
  function StrNCmpEqual(a: seq<Byte>, b: seq<Byte>, n: nat): (eq: bool)
    requires n <= |a| && n <= |b|
    ensures eq <==> Text(a[..n]) == Text(b[..n])
  {
    if n == 0 then
      true
    else
      TextCons(a[..n]);
      TextCons(b[..n]);
      assert a[..n][1..] == a[1..][..n - 1] && b[..n][1..] == b[1..][..n - 1];
      if a[0] != b[0] then
        false
      else if a[0] == NUL then
        true
      else
        StrNCmpEqual(a[1..], b[1..], n - 1)
  }

  /** memset(a, v, n). */
  method Memset(a: array<Byte>, v: Byte, n: nat)
    requires n <= a.Length
    modifies a
    ensures forall i :: 0 <= i < n ==> a[i] == v
    ensures forall i :: n <= i < a.Length ==> a[i] == old(a[i])
  {
    forall i | 0 <= i < n {
      a[i] := v;
    }
  }

  /** memcpy(dst, src, n). */
  method Memcpy(dst: array<Byte>, src: seq<Byte>, n: nat)
    requires n <= dst.Length && n <= |src|
    modifies dst
    ensures forall i :: 0 <= i < n ==> dst[i] == src[i]
    ensures forall i :: n <= i < dst.Length ==> dst[i] == old(dst[i])
  {
    forall i | 0 <= i < n {
      dst[i] := src[i];
    }
  }
}
