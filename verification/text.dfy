/** Text primitives shared by the serialiser and by the reader that inverts it:
    the CRLF line terminator, the SP separator, and searches for them. */
module Text {

  /** The optional value used for an absent body and for failed reads. */
  datatype Option<+T> = None | Some(value: T)

  /** The line terminator of SIP's text framing (section 7 of RFC 3261). */
  const CRLF: string := "\r\n"

  /** The single space that separates the fields of a start line. */
  const SP: char := ' '

  /** A line terminator starts at position `k` of `s`. */
  predicate CrlfAt(s: string, k: int) {
    0 <= k && k + 1 < |s| && s[k] == '\r' && s[k + 1] == '\n'
  }

  /** `s` contains no line terminator. */
  predicate NoCrlf(s: string) {
    forall k :: 0 <= k < |s| ==> !CrlfAt(s, k)
  }

  /** `s` can stand as one line of a message: non-empty (so that it is not
      mistaken for the blank line before a body) and free of terminators. */
  predicate OneLine(s: string) {
    |s| > 0 && NoCrlf(s)
  }

  predicate StartsWith(s: string, p: string) {
    |p| <= |s| && s[..|p|] == p
  }

  predicate EndsWith(s: string, t: string) {
    |t| <= |s| && s[|s| - |t|..] == t
  }

  lemma StartsWithAppend(p: string, q: string)
    ensures StartsWith(p + q, p)
  {
    assert (p + q)[..|p|] == p;
  }

  lemma EndsWithAppended(p: string, t: string)
    ensures EndsWith(p + t, t)
  {
    assert (p + t)[|p + t| - |t|..] == t;
  }

  /** The position of the first line terminator at or after `from`. */
  function FindCrlf(s: string, from: nat): (r: Option<nat>)
    requires from <= |s|
    ensures r.Some? ==> from <= r.value && CrlfAt(s, r.value)
    ensures r.Some? ==> forall k :: from <= k < r.value ==> !CrlfAt(s, k)
    ensures r.None? ==> forall k :: from <= k < |s| ==> !CrlfAt(s, k)
    decreases |s| - from
  {
    if from + 1 >= |s| then None
    else if CrlfAt(s, from) then Some(from)
    else FindCrlf(s, from + 1)
  }

  /** The position of the first occurrence of `c` at or after `from`. */
  function FindChar(s: string, c: char, from: nat): (r: Option<nat>)
    requires from <= |s|
    ensures r.Some? ==> from <= r.value < |s| && s[r.value] == c
    ensures r.Some? ==> forall k :: from <= k < r.value ==> s[k] != c
    ensures r.None? ==> forall k :: from <= k < |s| ==> s[k] != c
    decreases |s| - from
  {
    if from == |s| then None
    else if s[from] == c then Some(from)
    else FindChar(s, c, from + 1)
  }

  /** The position of the last occurrence of `c` in `s`. */
  function FindLastChar(s: string, c: char): (r: Option<nat>)
    ensures r.Some? ==> r.value < |s| && s[r.value] == c
    ensures r.Some? ==> forall k :: r.value < k < |s| ==> s[k] != c
    ensures r.None? ==> forall k :: 0 <= k < |s| ==> s[k] != c
  {
    if |s| == 0 then None
    else if s[|s| - 1] == c then Some(|s| - 1)
    else FindLastChar(s[..|s| - 1], c)
  }

  /** A suffix of the tail is a suffix of the whole. */
  lemma EndsWithAppend(a: string, b: string, t: string)
    requires EndsWith(b, t)
    ensures EndsWith(a + b, t)
  {
    assert (a + b)[|a + b| - |t|..] == b[|b| - |t|..];
  }

  /** Inside a prefix, the text and its prefix agree. */
  lemma SliceOfPrefix(s: string, p: string, lo: nat, hi: nat)
    requires StartsWith(s, p) && lo <= hi <= |p|
    ensures s[lo..hi] == p[lo..hi]
  {
    forall k | 0 <= k < hi - lo
      ensures s[lo..hi][k] == p[lo..hi][k]
    {
      assert s[lo + k] == s[..|p|][lo + k];
    }
  }

  /** The middle part of a concatenation sits right after the first. */
  lemma InfixOf(a: string, b: string, c: string)
    ensures (a + (b + c))[|a|..|a| + |b|] == b
    ensures ((a + b) + c)[|a|..|a| + |b|] == b
  {
    assert a + (b + c) == (a + b) + c;
  }

  /** Text ending in a terminator, then a terminator and a body, ends with
      a blank line followed by that body. */
  lemma BlankLineBeforeBody(f: string, b: string)
    requires EndsWith(f, CRLF)
    ensures EndsWith(f + CRLF + b, CRLF + CRLF + b)
  {
    var s := f + CRLF + b;
    assert s[|s| - |b| - 4..] == f[|f| - 2..] + CRLF + b;
  }

  /** A line followed by its terminator: the first terminator of
      `line + CRLF + rest` is the one just appended. */
  lemma FirstCrlfEndsLine(line: string, rest: string)
    requires NoCrlf(line)
    ensures FindCrlf(line + CRLF + rest, 0) == Some(|line|)
  {
    var s := line + CRLF + rest;
    assert CrlfAt(s, |line|);
    forall k | 0 <= k < |line|
      ensures !CrlfAt(s, k)
    {
      if k + 1 < |line| {
        assert !CrlfAt(line, k);
      } else {
        assert s[k + 1] == '\r';
      }
    }
  }

  /** Joining two terminator-free texts with a space leaves no terminator. */
  lemma NoCrlfJoin(a: string, b: string)
    requires NoCrlf(a) && NoCrlf(b)
    ensures NoCrlf(a + [SP] + b)
  {
    var s := a + [SP] + b;
    forall k | 0 <= k < |s|
      ensures !CrlfAt(s, k)
    {
      if k + 1 < |a| {
        assert !CrlfAt(a, k);
      } else if k > |a| {
        assert !CrlfAt(b, k - |a| - 1);
      }
    }
  }
}
