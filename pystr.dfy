/** The two Python string operations the scraper relies on: `str.strip()`
    with no argument, and `"\n".join(parts)`. `SplitOnNewline` is the
    inverse of the join (Python's `s.split("\n")`); it is here only to state
    that the join loses nothing and keeps the order of its parts. */
module PyStr {

  /** Python's `str.isspace()` on one character: the Unicode characters whose
      bidirectional class is WS, B or S, or whose category is Zs. These are
      exactly the characters `str.strip()` removes when given no argument. */
  predicate IsSpace(c: char) {
    var n := c as int;
    || (0x09 <= n <= 0x0D)
    || (0x1C <= n <= 0x20)
    || n == 0x85
    || n == 0xA0
    || n == 0x1680
    || (0x2000 <= n <= 0x200A)
    || n == 0x2028
    || n == 0x2029
    || n == 0x202F
    || n == 0x205F
    || n == 0x3000
  }

  /** True when every character of `s` is whitespace (also when `s` is empty). */
  predicate AllSpace(s: string) {
    forall k | 0 <= k < |s| :: IsSpace(s[k])
  }

  /** The length of the whitespace prefix `s.strip()` removes. */
  function LeadingSpaces(s: string): (n: nat)
    ensures n <= |s|
    ensures forall k | 0 <= k < n :: IsSpace(s[k])
    ensures n == |s| || !IsSpace(s[n])
  {
    if s == [] || !IsSpace(s[0]) then 0 else 1 + LeadingSpaces(s[1..])
  }

  /** The length of the whitespace suffix `s.strip()` removes. */
  function TrailingSpaces(s: string): (n: nat)
    ensures n <= |s|
    ensures forall k | |s| - n <= k < |s| :: IsSpace(s[k])
    ensures n == |s| || !IsSpace(s[|s| - n - 1])
  {
    if s == [] || !IsSpace(s[|s| - 1]) then 0 else 1 + TrailingSpaces(s[..|s| - 1])
  }

  /** `s.strip()`: the slice of `s` between its leading and its trailing
      whitespace. `StripSlice` states what that slice is. */
  function Strip(s: string): (r: string)
    ensures |r| <= |s|
  {
    var lo := LeadingSpaces(s);
    s[lo..|s| - TrailingSpaces(s[lo..])]
  }

  /** What `Strip` returns: the slice of `s` that starts after its leading
      whitespace (which `LeadingSpaces` says is all whitespace); every
      character after the slice is whitespace; and the slice neither starts
      nor ends with whitespace. */
  lemma StripSlice(s: string)
    ensures LeadingSpaces(s) + |Strip(s)| <= |s|
    ensures Strip(s) == s[LeadingSpaces(s)..LeadingSpaces(s) + |Strip(s)|]
    ensures forall k | LeadingSpaces(s) + |Strip(s)| <= k < |s| :: IsSpace(s[k])
    ensures Strip(s) == [] || (!IsSpace(Strip(s)[0]) && !IsSpace(Strip(s)[|Strip(s)| - 1]))
  {
    var lo := LeadingSpaces(s);
    var t := s[lo..];
    var n := TrailingSpaces(t);
    var hi := |s| - n;
    var r := Strip(s);
    assert r == s[lo..hi];
    forall k | hi <= k < |s| ensures IsSpace(s[k]) {
      assert s[k] == t[k - lo];
    }
    if r != [] {
      assert r[0] == s[lo];
      assert r[|r| - 1] == t[|t| - n - 1];
    }
  }

  /** `strip` leaves nothing exactly when the string is all whitespace. */
  lemma StripEmpty(s: string)
    ensures Strip(s) == [] <==> AllSpace(s)
  {
    StripSlice(s);
    var lo, r := LeadingSpaces(s), Strip(s);
    if r == [] {
      forall k | 0 <= k < |s| ensures IsSpace(s[k]) {
        assert k < lo || lo + |r| <= k;
      }
    } else {
      assert s[lo] == r[0];
    }
  }

  /** A string that neither starts nor ends with whitespace is its own
      strip. */
  lemma StripUnpadded(s: string)
    requires s == [] || (!IsSpace(s[0]) && !IsSpace(s[|s| - 1]))
    ensures Strip(s) == s
  {
    assert LeadingSpaces(s) == 0;
    assert s[0..] == s;
    assert TrailingSpaces(s) == 0;
  }

  /** All-whitespace `pre` in front of a string that does not start with
      whitespace is exactly the leading whitespace. */
  lemma {:induction false} LeadingSpacesOf(pre: string, rest: string)
    requires AllSpace(pre) && (rest == [] || !IsSpace(rest[0]))
    ensures LeadingSpaces(pre + rest) == |pre|
    decreases |pre|
  {
    if pre != [] {
      assert (pre + rest)[0] == pre[0];
      assert (pre + rest)[1..] == pre[1..] + rest;
      LeadingSpacesOf(pre[1..], rest);
    } else {
      assert pre + rest == rest;
    }
  }

  /** All-whitespace `post` after a string that does not end with whitespace
      is exactly the trailing whitespace. */
  lemma {:induction false} TrailingSpacesOf(rest: string, post: string)
    requires AllSpace(post) && (rest == [] || !IsSpace(rest[|rest| - 1]))
    ensures TrailingSpaces(rest + post) == |post|
    decreases |post|
  {
    if post != [] {
      var n := |rest + post| - 1;
      assert (rest + post)[n] == post[|post| - 1];
      assert (rest + post)[..n] == rest + post[..|post| - 1];
      TrailingSpacesOf(rest, post[..|post| - 1]);
    } else {
      assert rest + post == rest;
    }
  }

  /** `strip` removes exactly the whitespace around a string that neither
      starts nor ends with whitespace itself. */
  lemma StripPadded(pre: string, x: string, post: string)
    requires AllSpace(pre) && AllSpace(post)
    requires x == [] || (!IsSpace(x[0]) && !IsSpace(x[|x| - 1]))
    requires x != [] || post == []
    ensures Strip(pre + x + post) == x
  {
    var s := pre + x + post;
    assert s == pre + (x + post);
    assert x + post == [] || !IsSpace((x + post)[0]);
    LeadingSpacesOf(pre, x + post);
    assert s[|pre|..] == x + post;
    TrailingSpacesOf(x, post);
    assert s[|pre|..|s| - |post|] == x;
  }

  /** Stripping twice is stripping once. */
  lemma StripIdempotent(s: string)
    ensures Strip(Strip(s)) == Strip(s)
  {
    StripSlice(s);
    StripUnpadded(Strip(s));
  }

  /** `"\n".join(parts)`: the parts in order, with one newline between
      neighbours; the empty list joins to the empty string. */
  function JoinLines(parts: seq<string>): (r: string)
    ensures |parts| > 0 ==> |parts[0]| <= |r| && r[..|parts[0]|] == parts[0]
    ensures |parts| > 1 ==> |parts[0]| < |r| && r[|parts[0]|] == '\n'
  {
    if |parts| == 0 then ""
    else if |parts| == 1 then parts[0]
    else parts[0] + "\n" + JoinLines(parts[1..])
  }

  /** No part contains the separator. */
  predicate NoNewlines(parts: seq<string>) {
    forall k | 0 <= k < |parts| :: '\n' !in parts[k]
  }

  /** The position of the first newline in `s`. */
  function IndexOfNewline(s: string): (i: nat)
    requires '\n' in s
    ensures i < |s| && s[i] == '\n' && '\n' !in s[..i]
  {
    if s[0] == '\n' then 0
    else
      assert '\n' in s[1..] by { var k :| 0 <= k < |s| && s[k] == '\n'; assert s[1..][k - 1] == '\n'; }
      var j := IndexOfNewline(s[1..]);
      assert s[..j + 1] == [s[0]] + s[1..][..j];
      j + 1
  }

  /** Python's `s.split("\n")`: the pieces between newlines, so there is
      always one more piece than there are newlines. */
  function SplitOnNewline(s: string): (parts: seq<string>)
    ensures |parts| > 0
    ensures NoNewlines(parts)
    decreases |s|
  {
    if '\n' !in s then [s]
    else
      var i := IndexOfNewline(s);
      [s[..i]] + SplitOnNewline(s[i + 1..])
  }

  /** A newline with none before it is the first newline. */
  lemma {:induction false} FirstNewlineAt(s: string, i: nat)
    requires i < |s| && s[i] == '\n' && '\n' !in s[..i]
    ensures '\n' in s && IndexOfNewline(s) == i
  {
    assert s[i] in s;
    if i > 0 {
      assert s[0] == s[..i][0];
      assert s[1..][i - 1] == s[i];
      assert s[1..][..i - 1] == s[1..i];
      assert forall c | c in s[1..i] :: c in s[..i];
      FirstNewlineAt(s[1..], i - 1);
    }
  }

  /** The first newline of `a + "\n" + b` is the one the join put there,
      when `a` has none of its own. */
  lemma IndexOfJoinedNewline(a: string, b: string)
    requires '\n' !in a
    ensures '\n' in a + "\n" + b && IndexOfNewline(a + "\n" + b) == |a|
  {
    var s := a + "\n" + b;
    assert s[..|a|] == a;
    FirstNewlineAt(s, |a|);
  }

  /** Splitting the join gives the parts back, in order, when no part
      contains a newline itself. */
  lemma {:induction false} SplitJoinLines(parts: seq<string>)
    requires |parts| > 0 && NoNewlines(parts)
    ensures SplitOnNewline(JoinLines(parts)) == parts
    decreases |parts|
  {
    if |parts| == 1 {
      assert JoinLines(parts) == parts[0];
    } else {
      var a, rest := parts[0], parts[1..];
      var b := JoinLines(rest);
      var s := a + "\n" + b;
      assert '\n' !in a;
      calc {
        SplitOnNewline(JoinLines(parts));
      == { assert JoinLines(parts) == s; }
        SplitOnNewline(s);
      == { IndexOfJoinedNewline(a, b); }
        [s[..|a|]] + SplitOnNewline(s[|a| + 1..]);
      == { assert s[..|a|] == a; assert s[|a| + 1..] == b; }
        [a] + SplitOnNewline(b);
      == { NoNewlinesTail(parts); SplitJoinLines(rest); }
        [a] + rest;
      == parts;
      }
    }
  }

  /** Dropping the first part keeps the parts free of newlines. */
  lemma NoNewlinesTail(parts: seq<string>)
    requires |parts| > 0 && NoNewlines(parts)
    ensures NoNewlines(parts[1..])
  {
    forall k | 0 <= k < |parts| - 1 ensures '\n' !in parts[1..][k] { assert parts[1..][k] == parts[k + 1]; }
  }

  /** The join of a non-empty list whose first part is non-empty is non-empty. */
  lemma JoinLinesNonEmpty(parts: seq<string>)
    requires |parts| > 0 && parts[0] != []
    ensures JoinLines(parts) != []
  {
    assert |JoinLines(parts)| >= |parts[0]| > 0;
  }
}
