/** Bytes, optional values and the newline-delimited views of byte sequences
    shared by the char driver and the socket server. */
module Bytes {

  /** A C `char` as stored in the driver's and the server's buffers. */
  newtype byte = b: int | 0 <= b < 256

  /** The command terminator '\n'. */
  const NEWLINE: byte := 10

  /** NULL-or-value, used for nullable pointers and "not found" results. */
  datatype Option<T> = None | Some(value: T)

  /** The concatenation of a sequence of byte sequences, in order. */
  function Concat(ss: seq<seq<byte>>): seq<byte>
  {
    if ss == [] then [] else ss[0] + Concat(ss[1..])
  }

  lemma {:induction false} ConcatAppend(a: seq<seq<byte>>, b: seq<seq<byte>>)
    ensures Concat(a + b) == Concat(a) + Concat(b)
  {
    if a == [] {
      assert a + b == b;
    } else {
      assert (a + b)[1..] == a[1..] + b;
      ConcatAppend(a[1..], b);
    }
  }

  /** Concatenating one more piece at the end. */
  lemma ConcatSnoc(a: seq<seq<byte>>, x: seq<byte>)
    ensures Concat(a + [x]) == Concat(a) + x
  {
    ConcatAppend(a, [x]);
    assert Concat([x]) == x + Concat([]);
  }

  /** The prefix of `ss` up to index `i`, plus piece `i`, is the prefix up to `i + 1`. */
  lemma ConcatPrefixStep(ss: seq<seq<byte>>, i: nat)
    requires i < |ss|
    ensures Concat(ss[..i + 1]) == Concat(ss[..i]) + ss[i]
  {
    assert ss[..i + 1] == ss[..i] + [ss[i]];
    ConcatSnoc(ss[..i], ss[i]);
  }

  predicate NoNewline(s: seq<byte>)
  {
    forall k :: 0 <= k < |s| ==> s[k] != NEWLINE
  }

  /** A complete command: it ends with the only newline it contains. */
  predicate IsCommand(p: seq<byte>)
  {
    |p| > 0 && p[|p| - 1] == NEWLINE && NoNewline(p[..|p| - 1])
  }

  /** memchr(s, '\n', |s|): the index of the first newline, if any. */
  function FirstNewline(s: seq<byte>): (r: Option<nat>)
    ensures r.None? <==> NoNewline(s)
    ensures r.Some? ==> r.value < |s| && s[r.value] == NEWLINE && NoNewline(s[..r.value])
  {
    if s == [] then None
    else if s[0] == NEWLINE then Some(0)
    else match FirstNewline(s[1..])
      case None => None
      case Some(k) =>
        assert s[..k + 1] == [s[0]] + s[1..][..k];
        Some(k + 1)
  }

  /** The first newline is the one with no newline before it. */
  lemma {:induction false} FirstNewlineAt(s: seq<byte>, k: nat)
    requires k < |s| && s[k] == NEWLINE && NoNewline(s[..k])
    ensures FirstNewline(s) == Some(k)
  {
    if k > 0 {
      assert s[0] == s[..k][0];
      assert s[1..][..k - 1] == s[1..k];
      FirstNewlineAt(s[1..], k - 1);
    }
  }

  /** The length of the longest prefix of `s` that ends with a newline
      (0 when `s` holds none): what has been terminated so far. */
  function LastNewlineEnd(s: seq<byte>): (n: nat)
    ensures n <= |s|
  {
    if s == [] then 0
    else if s[|s| - 1] == NEWLINE then |s|
    else LastNewlineEnd(s[..|s| - 1])
  }

  /** What LastNewlineEnd means: the prefix it measures is empty or ends with a
      newline, and no newline follows it. */
  lemma {:induction false} LastNewlineEndSplits(s: seq<byte>)
    ensures var n := LastNewlineEnd(s);
      NoNewline(s[n..]) && (n > 0 ==> s[n - 1] == NEWLINE)
  {
    if s != [] && s[|s| - 1] != NEWLINE {
      var t := s[..|s| - 1];
      LastNewlineEndSplits(t);
      var n := LastNewlineEnd(t);
      assert s[n..] == t[n..] + [s[|s| - 1]];
      if n > 0 {
        assert t[n - 1] == s[n - 1];
      }
    }
  }

  /** One more byte: a newline terminates everything so far, any other byte
      leaves the terminated prefix as it was. */
  lemma LastNewlineEndSnoc(w: seq<byte>, c: byte)
    ensures LastNewlineEnd(w + [c]) == if c == NEWLINE then |w| + 1 else LastNewlineEnd(w)
  {
    assert (w + [c])[..|w|] == w;
  }

  /** A newline-free sequence has nothing terminated. */
  lemma {:induction false} LastNewlineEndNone(s: seq<byte>)
    requires NoNewline(s)
    ensures LastNewlineEnd(s) == 0
  {
    if s != [] {
      var t := s[..|s| - 1];
      assert NoNewline(t) by {
        forall k | 0 <= k < |t| ensures t[k] != NEWLINE {
          assert t[k] == s[k];
        }
      }
      LastNewlineEndNone(t);
    }
  }

  /** The number of newlines in `s`. */
  function CountNewlines(s: seq<byte>): nat
  {
    if s == [] then 0
    else CountNewlines(s[..|s| - 1]) + (if s[|s| - 1] == NEWLINE then 1 else 0)
  }
}
