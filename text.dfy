/** The pieces of Python string handling the endpoints rely on: `str.strip()`, `str.split(sep)` and `sep.join(parts)`. */
module Text {

  /** The characters for which Python's `str.isspace()` holds, which `str.strip()` removes. */
  predicate IsSpace(c: char) {
    c == ' ' || ('\U{9}' <= c <= '\U{D}') || ('\U{1C}' <= c <= '\U{1F}')
    || c == '\U{85}' || c == '\U{A0}' || c == '\U{1680}' || ('\U{2000}' <= c <= '\U{200A}')
    || c == '\U{2028}' || c == '\U{2029}' || c == '\U{202F}' || c == '\U{205F}' || c == '\U{3000}'
  }

  predicate AllSpace(s: string) {
    forall k :: 0 <= k < |s| ==> IsSpace(s[k])
  }

  /** The number of whitespace characters `s` starts with. */
  function LeadingSpaces(s: string): (n: nat)
    ensures n <= |s|
    ensures forall k :: 0 <= k < n ==> IsSpace(s[k])
    ensures n < |s| ==> !IsSpace(s[n])
  {
    if |s| == 0 || !IsSpace(s[0]) then 0 else 1 + LeadingSpaces(s[1..])
  }

  /** The index at which the whitespace `s` ends with begins. */
  function TrailingStart(s: string): (n: nat)
    ensures n <= |s|
    ensures forall k :: n <= k < |s| ==> IsSpace(s[k])
    ensures 0 < n ==> !IsSpace(s[n - 1])
  {
    if |s| == 0 || !IsSpace(s[|s| - 1]) then |s| else TrailingStart(s[..|s| - 1])
  }

  /** `s.strip()`. */
  function Strip(s: string): (r: string)
    ensures |r| <= |s|
    ensures r != [] ==> !IsSpace(r[0]) && !IsSpace(r[|r| - 1])
    ensures r == [] <==> AllSpace(s)
  {
    var i := LeadingSpaces(s);
    var j := TrailingStart(s[i..]);
    StripKept(s, i, j);
    StripEmpty(s, i, j);
    var r := s[i..i + j];
    assert j > 0 ==> r[0] == s[i] && r[j - 1] == s[i + j - 1];
    r
  }

  /** `Strip` keeps a contiguous part of its input and cuts only whitespace around it. */
  lemma StripIsInfix(s: string)
    ensures var r := Strip(s);
      exists i :: 0 <= i <= |s| - |r| && r == s[i..i + |r|] && AllSpace(s[..i]) && AllSpace(s[i + |r|..])
  {
    var i := LeadingSpaces(s);
    var j := TrailingStart(s[i..]);
    StripFront(s, i);
    StripBack(s, i, j);
    var r := Strip(s);
    assert r == s[i..i + j] && |r| == j;
    assert 0 <= i <= |s| - |r| && r == s[i..i + |r|] && AllSpace(s[..i]) && AllSpace(s[i + |r|..]);
  }

  /** The whitespace `Strip` cuts from the front. */
  lemma StripFront(s: string, i: nat)
    requires i == LeadingSpaces(s)
    ensures AllSpace(s[..i])
  {
    var v := s[..i];
    forall k | 0 <= k < |v|
      ensures IsSpace(v[k])
    {
      assert v[k] == s[k];
    }
  }

  /** The whitespace `Strip` cuts from the back. */
  lemma StripBack(s: string, i: nat, j: nat)
    requires i <= |s| && j == TrailingStart(s[i..])
    ensures AllSpace(s[i + j..])
  {
    var t := s[i..];
    var u := s[i + j..];
    forall k | 0 <= k < |u|
      ensures IsSpace(u[k])
    {
      assert u[k] == t[j + k];
    }
  }

  /** What `Strip` keeps neither starts nor ends with whitespace. */
  lemma StripKept(s: string, i: nat, j: nat)
    requires i == LeadingSpaces(s) && j == TrailingStart(s[i..])
    ensures j > 0 ==> !IsSpace(s[i]) && !IsSpace(s[i + j - 1])
  {
    if j > 0 {
      var t := s[i..];
      assert t[j - 1] == s[i + j - 1];
    }
  }

  /** `Strip` keeps nothing exactly when the whole string is whitespace. */
  lemma StripEmpty(s: string, i: nat, j: nat)
    requires i == LeadingSpaces(s) && j == TrailingStart(s[i..])
    ensures j == 0 <==> AllSpace(s)
  {
    if AllSpace(s) {
      assert i == |s|;
    }
    if j == 0 {
      assert i == |s|;
      forall k | 0 <= k < |s|
        ensures IsSpace(s[k])
      {
      }
    }
  }

  /** Stripping twice strips nothing more. */
  lemma StripIdempotent(s: string)
    ensures Strip(Strip(s)) == Strip(s)
  {
    var r := Strip(s);
    assert LeadingSpaces(r) == 0;
    assert TrailingStart(r) == |r|;
  }

  /** The index of the first occurrence of `c` in `s`. */
  function IndexOf(s: string, c: char): (i: nat)
    requires c in s
    ensures i < |s| && s[i] == c && c !in s[..i]
  {
    if s[0] == c then 0 else 1 + IndexOf(s[1..], c)
  }

  /** `s.split(sep)` for a one-character separator: never empty, no part holds the separator. */
  function Split(s: string, sep: char): (parts: seq<string>)
    ensures |parts| >= 1
    ensures forall k :: 0 <= k < |parts| ==> sep !in parts[k]
    decreases |s|
  {
    if sep !in s then [s]
    else
      var i := IndexOf(s, sep);
      [s[..i]] + Split(s[i + 1..], sep)
  }

  /** `sep.join(parts)`. */
  function Join(parts: seq<string>, sep: string): string
  {
    if |parts| == 0 then ""
    else if |parts| == 1 then parts[0]
    else parts[0] + sep + Join(parts[1..], sep)
  }

  /** Joining the parts of a split with the same separator gives back the text. */
  lemma {:induction false} JoinSplit(s: string, sep: char)
    ensures Join(Split(s, sep), [sep]) == s
    decreases |s|
  {
    if sep in s {
      var i := IndexOf(s, sep);
      var rest := Split(s[i + 1..], sep);
      JoinSplit(s[i + 1..], sep);
      assert Split(s, sep)[1..] == rest;
      calc {
        Join(Split(s, sep), [sep]);
        s[..i] + [sep] + Join(rest, [sep]);
        s[..i] + [sep] + s[i + 1..];
        { assert s == s[..i] + [s[i]] + s[i + 1..]; }
        s;
      }
    }
  }

  lemma {:induction false} IndexOfAfter(a: string, c: char, b: string)
    requires c !in a
    ensures c in a + [c] + b && IndexOf(a + [c] + b, c) == |a|
    decreases |a|
  {
    var s := a + [c] + b;
    assert s[|a|] == c;
    if |a| > 0 {
      assert s[1..] == a[1..] + [c] + b;
      IndexOfAfter(a[1..], c, b);
    }
  }

  /** Splitting a join of separator-free parts gives back the parts. */
  lemma {:induction false} SplitJoin(parts: seq<string>, sep: char)
    requires |parts| >= 1
    requires forall k :: 0 <= k < |parts| ==> sep !in parts[k]
    ensures Split(Join(parts, [sep]), sep) == parts
    decreases |parts|
  {
    if |parts| > 1 {
      var head, tail := parts[0], Join(parts[1..], [sep]);
      var s := head + [sep] + tail;
      assert Join(parts, [sep]) == s;
      IndexOfAfter(head, sep, tail);
      assert sep in s;
      assert s[..|head|] == head;
      assert s[|head| + 1..] == tail;
      assert Split(s, sep) == [head] + Split(tail, sep);
      SplitJoin(parts[1..], sep);
      assert parts == [head] + parts[1..];
    }
  }
}
