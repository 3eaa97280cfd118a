/** The few Python `str` operations the dependency analysis relies on, over `seq<char>`. */
module Strings {

  /** Python's `str.isspace()` for one character: the characters `str.strip()` removes. */
  predicate IsSpace(c: char) {
    || c == ' '
    || ('\t' <= c <= '\r')
    || ('\U{1C}' <= c <= '\U{1F}')
    || c == '\U{85}' || c == '\U{A0}' || c == '\U{1680}'
    || ('\U{2000}' <= c <= '\U{200A}')
    || c == '\U{2028}' || c == '\U{2029}' || c == '\U{202F}' || c == '\U{205F}' || c == '\U{3000}'
  }

  /** `s` neither starts nor ends with whitespace. */
  predicate Stripped(s: string) {
    s == [] || (!IsSpace(s[0]) && !IsSpace(s[|s| - 1]))
  }

  /** Every character of `s` is whitespace. */
  predicate AllSpace(s: string) {
    forall k | 0 <= k < |s| :: IsSpace(s[k])
  }

  /** `str.strip()` with no argument: whitespace is dropped from both ends, one character at
    * a time, until neither end is whitespace. */
  function Strip(s: string): (r: string)
    ensures Stripped(r)
    ensures |r| <= |s|
    ensures forall c | c in r :: c in s
    decreases |s|
  {
    if s == [] then []
    else if IsSpace(s[0]) then Strip(s[1..])
    else if IsSpace(s[|s| - 1]) then Strip(s[..|s| - 1])
    else s
  }

  /** What `strip()` leaves is a slice of `s` with only whitespace before and after it: together
    * with `Stripped`, exactly `s` less its leading and trailing whitespace. */
  lemma {:induction false} StripExact(s: string)
    ensures exists i, j | 0 <= i <= j <= |s| :: Strip(s) == s[i..j] && AllSpace(s[..i]) && AllSpace(s[j..])
    decreases |s|
  {
    if s == [] {
      assert s[0..0] == [] && s[..0] == [] && s[0..] == [];
    } else if IsSpace(s[0]) {
      StripExact(s[1..]);
      TrimFront(s, s[1..], Strip(s[1..]));
    } else if IsSpace(s[|s| - 1]) {
      StripExact(s[..|s| - 1]);
      TrimBack(s, s[..|s| - 1], Strip(s[..|s| - 1]));
    } else {
      assert s[0..|s|] == s && s[..0] == [] && s[|s|..] == [];
    }
  }

  /** A slice of `s[1..]` surrounded by whitespace is one of `s` when `s` opens with whitespace. */
  lemma TrimFront(s: string, tail: string, r: string)
    requires s != [] && IsSpace(s[0]) && tail == s[1..]
    requires exists i, j | 0 <= i <= j <= |tail| :: r == tail[i..j] && AllSpace(tail[..i]) && AllSpace(tail[j..])
    ensures exists i, j | 0 <= i <= j <= |s| :: r == s[i..j] && AllSpace(s[..i]) && AllSpace(s[j..])
  {
    var i, j :| 0 <= i <= j <= |tail| && r == tail[i..j] && AllSpace(tail[..i]) && AllSpace(tail[j..]);
    ShiftFront(s, tail, i, j);
  }

  lemma ShiftFront(s: string, tail: string, i: nat, j: nat)
    requires s != [] && IsSpace(s[0]) && tail == s[1..] && i <= j <= |tail|
    requires AllSpace(tail[..i]) && AllSpace(tail[j..])
    ensures tail[i..j] == s[i + 1..j + 1] && AllSpace(s[..i + 1]) && AllSpace(s[j + 1..])
  {
    assert tail[i..j] == s[i + 1..j + 1];
    assert s[j + 1..] == tail[j..];
    var pre := s[..i + 1];
    forall k | 0 <= k < |pre| ensures IsSpace(pre[k]) {
      if k > 0 { assert pre[k] == tail[..i][k - 1]; }
    }
  }

  /** A slice of `s` without its last character, surrounded by whitespace, is one of `s` when
    * `s` closes with whitespace. */
  lemma TrimBack(s: string, init: string, r: string)
    requires s != [] && IsSpace(s[|s| - 1]) && init == s[..|s| - 1]
    requires exists i, j | 0 <= i <= j <= |init| :: r == init[i..j] && AllSpace(init[..i]) && AllSpace(init[j..])
    ensures exists i, j | 0 <= i <= j <= |s| :: r == s[i..j] && AllSpace(s[..i]) && AllSpace(s[j..])
  {
    var i, j :| 0 <= i <= j <= |init| && r == init[i..j] && AllSpace(init[..i]) && AllSpace(init[j..]);
    ShiftBack(s, init, i, j);
  }

  lemma ShiftBack(s: string, init: string, i: nat, j: nat)
    requires s != [] && IsSpace(s[|s| - 1]) && init == s[..|s| - 1] && i <= j <= |init|
    requires AllSpace(init[..i]) && AllSpace(init[j..])
    ensures init[i..j] == s[i..j] && AllSpace(s[..i]) && AllSpace(s[j..])
  {
    assert init[i..j] == s[i..j];
    assert init[..i] == s[..i];
    var post := s[j..];
    forall k | 0 <= k < |post| ensures IsSpace(post[k]) {
      if k < |post| - 1 { assert post[k] == init[j..][k]; }
    }
  }

  /** Stripping a string that is already stripped changes nothing, and only then. */
  lemma StripFixedPoint(s: string)
    ensures Strip(s) == s <==> Stripped(s)
  {
  }

  /** A single leading blank in front of a stripped string is all that `strip()` removes. */
  lemma StripLeadingBlank(s: string)
    requires Stripped(s)
    ensures Strip(" " + s) == s
  {
    assert (" " + s)[1..] == s;
    StripFixedPoint(s);
  }

  /** `[x.strip() for x in xs]`: as many strings, each one stripped. */
  function StripAll(xs: seq<string>): (r: seq<string>)
    ensures |r| == |xs|
    ensures forall i | 0 <= i < |xs| :: r[i] == Strip(xs[i])
  {
    if xs == [] then [] else [Strip(xs[0])] + StripAll(xs[1..])
  }

  /** Every string `StripAll` gives is stripped. */
  lemma {:induction false} StripAllStripped(xs: seq<string>)
    ensures forall i | 0 <= i < |StripAll(xs)| :: Stripped(StripAll(xs)[i])
    decreases |xs|
  {
    if xs != [] {
      StripAllStripped(xs[1..]);
      assert forall i | 1 <= i < |xs| :: StripAll(xs)[i] == StripAll(xs[1..])[i - 1];
    }
  }

  /** Python's `sub in s` for strings. */
  predicate Contains(s: string, sub: string)
    decreases |s|
  {
    sub <= s || (s != [] && Contains(s[1..], sub))
  }

  /** `s.split(sep)[0]`: the text before the first occurrence of `sep`, or all of `s`. */
  function BeforeFirst(s: string, sep: string): (r: string)
    requires sep != []
    ensures r <= s
    ensures !Contains(s, sep) ==> r == s
    ensures Contains(s, sep) ==> sep <= s[|r|..]
    ensures forall k | 0 <= k < |r| :: !(sep <= s[k..])
    decreases |s|
  {
    if sep <= s then []
    else if s == [] then []
    else
      assert forall k | 1 <= k <= |s| :: s[k..] == s[1..][k - 1..];
      [s[0]] + BeforeFirst(s[1..], sep)
  }

  /** Splitting before a one-character separator leaves a piece without that character. */
  lemma {:induction false} BeforeFirstChar(s: string, c: char)
    ensures c !in BeforeFirst(s, [c])
    decreases |s|
  {
    if [c] <= s || s == [] {
    } else {
      BeforeFirstChar(s[1..], c);
    }
  }

  /** A string in which `c` does not occur does not contain a separator starting with `c`. */
  lemma {:induction false} NotContainsWithout(s: string, sep: string)
    requires sep != [] && sep[0] !in s
    ensures !Contains(s, sep)
    decreases |s|
  {
    if s != [] {
      assert s[0] in s;
      assert forall c | c in s[1..] :: c in s;
      NotContainsWithout(s[1..], sep);
    }
  }

  /** `s.split(sep)` for a one-character separator: one more piece than occurrences of `sep`. */
  function Split(s: string, sep: char): (parts: seq<string>)
    ensures |parts| >= 1
    ensures forall p | p in parts :: sep !in p
    decreases |s|
  {
    if s == [] then [[]]
    else
      var rest := Split(s[1..], sep);
      if s[0] == sep then [[]] + rest
      else [[s[0]] + rest[0]] + rest[1..]
  }

  /** `sep.join(parts)`. */
  function Join(parts: seq<string>, sep: string): string
  {
    if parts == [] then []
    else if |parts| == 1 then parts[0]
    else parts[0] + sep + Join(parts[1..], sep)
  }

  /** Splitting and joining back at the same character gives back the text. */
  lemma {:induction false} JoinSplit(s: string, sep: char)
    ensures Join(Split(s, sep), [sep]) == s
    decreases |s|
  {
    if s != [] {
      JoinSplit(s[1..], sep);
      var rest := Split(s[1..], sep);
      if s[0] == sep {
        assert s == [sep] + s[1..];
      } else if |rest| == 1 {
        assert s == [s[0]] + s[1..];
      } else {
        assert Join(rest, [sep]) == rest[0] + [sep] + Join(rest[1..], [sep]);
        assert s == [s[0]] + s[1..];
      }
    }
  }

  /** A piece free of the separator comes back whole, and the split goes on after it. */
  lemma {:induction false} SplitAfterPiece(a: string, sep: char, b: string)
    requires sep !in a
    ensures Split(a + [sep] + b, sep) == [a] + Split(b, sep)
    ensures Split(a, sep) == [a]
    decreases |a|
  {
    if a == [] {
      assert [] + [sep] + b == [sep] + b;
      assert ([sep] + b)[1..] == b;
    } else {
      assert (a + [sep] + b)[1..] == a[1..] + [sep] + b;
      assert a[1..] + [] == a[1..];
      SplitAfterPiece(a[1..], sep, b);
      assert [a[0]] + a[1..] == a;
    }
  }

  /** Joining pieces free of the separator and splitting again gives back the pieces. */
  lemma {:induction false} SplitJoin(parts: seq<string>, sep: char)
    requires |parts| >= 1
    requires forall p | p in parts :: sep !in p
    ensures Split(Join(parts, [sep]), sep) == parts
    decreases |parts|
  {
    if |parts| == 1 {
      SplitAfterPiece(parts[0], sep, []);
    } else {
      SplitJoin(parts[1..], sep);
      SplitAfterPiece(parts[0], sep, Join(parts[1..], [sep]));
      assert [parts[0]] + parts[1..] == parts;
    }
  }

  /** Index of the first occurrence of `c` in `s`. */
  function IndexOf(s: string, c: char): (i: nat)
    requires c in s
    ensures i < |s| && s[i] == c && c !in s[..i]
  {
    if s[0] == c then 0 else 1 + IndexOf(s[1..], c)
  }

  /** Python's `<` on strings: lexicographic by code point, a proper prefix first. */
  predicate Less(a: string, b: string)
    decreases |a|
  {
    if a == [] then b != []
    else if b == [] then false
    else if a[0] != b[0] then a[0] < b[0]
    else Less(a[1..], b[1..])
  }

  lemma {:induction false} LessIrreflexive(a: string)
    ensures !Less(a, a)
    decreases |a|
  {
    if a != [] { LessIrreflexive(a[1..]); }
  }

  lemma {:induction false} LessTransitive(a: string, b: string, c: string)
    requires Less(a, b) && Less(b, c)
    ensures Less(a, c)
    decreases |a|
  {
    if a != [] && b != [] && c != [] && a[0] == b[0] && b[0] == c[0] {
      LessTransitive(a[1..], b[1..], c[1..]);
    }
  }

  lemma {:induction false} LessTotal(a: string, b: string)
    requires a != b
    ensures Less(a, b) || Less(b, a)
    decreases |a|
  {
    if a != [] && b != [] && a[0] == b[0] {
      assert a == [a[0]] + a[1..] && b == [b[0]] + b[1..];
      LessTotal(a[1..], b[1..]);
    }
  }
}
