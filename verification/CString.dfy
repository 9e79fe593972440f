/** Strings as C keeps them: the bytes before the first NUL of a buffer. */
module CString {
  import opened Bits

  const NUL: byte := 0

  function StrLen(s: seq<byte>): (n: nat)
    requires NUL in s
    ensures n < |s| && s[n] == NUL && forall i :: 0 <= i < n ==> s[i] != NUL
  {
    if s[0] == NUL then 0 else 1 + StrLen(s[1..])
  }

  function Text(s: seq<byte>): (t: seq<byte>)
    requires NUL in s
    ensures NUL !in t && |t| == StrLen(s)
  {
    s[..StrLen(s)]
  }

  /** A string that is written in front of a NUL reads back as it is, exactly when it holds no NUL itself. */
  lemma Terminated(t: seq<byte>, rest: seq<byte>)
    ensures Text(t + [NUL] + rest) == t <==> NUL !in t
  {
    var s := t + [NUL] + rest;
    assert s[|t|] == NUL;
    if NUL !in t {
      assert forall i :: 0 <= i < |t| ==> s[i] == t[i];
      assert StrLen(s) == |t|;
      assert s[..|t|] == t;
    }
  }

  // Rewriting in place

  /** `out` has replaced the beginning of `was`. */
  ghost predicate Written(now: seq<byte>, out: seq<byte>, was: seq<byte>) {
    && |now| == |was| && |out| <= |was|
    && (forall k :: 0 <= k < |out| ==> now[k] == out[k])
    && forall k :: |out| <= k < |was| ==> now[k] == was[k]
  }

  /** A C string in place of another; nothing behind its NUL changes. */
  ghost predicate Replaced(now: seq<byte>, out: seq<byte>, was: seq<byte>) {
    NUL in was && |out| <= StrLen(was) && now == out + [NUL] + was[|out| + 1..]
  }
}
