/** Sequences read as Python lists: membership, `list(set(xs))` and `sorted(set(xs))`. */
module Collections {
  import opened Strings

  datatype Option<T> = None | Some(value: T)

  /** The set of elements of a list: Python's `set(xs)`. */
  function Elems<T>(s: seq<T>): set<T> {
    set x | x in s
  }

  lemma ElemsConcat<T>(a: seq<T>, b: seq<T>)
    ensures Elems(a + b) == Elems(a) + Elems(b)
  {
    forall x | x in Elems(a + b) ensures x in Elems(a) + Elems(b) {
      var i :| 0 <= i < |a + b| && (a + b)[i] == x;
      if i < |a| { assert a[i] == x; } else { assert b[i - |a|] == x; }
    }
  }

  predicate NoDups<T(==)>(s: seq<T>) {
    forall i, j | 0 <= i < j < |s| :: s[i] != s[j]
  }

  /** `list(set(xs))`. Python leaves the order open; callers rely only on the contract. */
  function Distinct<T(==)>(s: seq<T>): (r: seq<T>)
    ensures NoDups(r)
    ensures Elems(r) == Elems(s)
  {
    if s == [] then []
    else
      var prefix := Distinct(s[..|s| - 1]);
      assert s == s[..|s| - 1] + [s[|s| - 1]];
      ElemsConcat(s[..|s| - 1], [s[|s| - 1]]);
      ElemsConcat(prefix, [s[|s| - 1]]);
      if s[|s| - 1] in prefix then prefix else prefix + [s[|s| - 1]]
  }

  /** `a` is `b` with some entries left out and the others kept in their order. */
  predicate IsSubsequence<T(==)>(a: seq<T>, b: seq<T>)
    decreases |b|
  {
    if a == [] then true
    else if b == [] then false
    else
      (a[|a| - 1] == b[|b| - 1] && IsSubsequence(a[..|a| - 1], b[..|b| - 1]))
      || IsSubsequence(a, b[..|b| - 1])
  }

  /** Appending a new element keeps a list duplicate-free. */
  lemma NoDupsSnoc<T>(a: seq<T>, x: T)
    requires NoDups(a) && x !in a
    ensures NoDups(a + [x])
  {
    forall i, j | 0 <= i < j < |a + [x]| ensures (a + [x])[i] != (a + [x])[j] {
      if j < |a| { assert (a + [x])[i] == a[i] && (a + [x])[j] == a[j]; }
      else { assert (a + [x])[i] == a[i]; }
    }
  }

  /** A kept or a dropped last entry leaves a subsequence a subsequence. */
  lemma SubsequenceSnoc<T>(a: seq<T>, b: seq<T>, x: T)
    requires IsSubsequence(a, b)
    ensures IsSubsequence(a + [x], b + [x]) && IsSubsequence(a, b + [x])
  {
    assert (a + [x])[..|a|] == a;
    assert (b + [x])[..|b|] == b;
  }

  /** Strictly increasing under Python's string order: sorted and free of duplicates. */
  predicate StrictlySorted(s: seq<string>) {
    forall i, j | 0 <= i < j < |s| :: Less(s[i], s[j])
  }

  /** Puts `x` into its place in a strictly sorted list, unless it is there already. */
  function InsertSorted(s: seq<string>, x: string): (r: seq<string>)
    requires StrictlySorted(s)
    ensures StrictlySorted(r)
    ensures Elems(r) == Elems(s) + {x}
  {
    if s == [] then [x]
    else if x == s[0] then s
    else if Less(x, s[0]) then
      assert forall j | 0 < j < |s| :: Less(x, s[j]) by {
        forall j | 0 < j < |s| ensures Less(x, s[j]) { LessTransitive(x, s[0], s[j]); }
      }
      [x] + s
    else
      LessTotal(x, s[0]);
      var tail := InsertSorted(s[1..], x);
      assert s == [s[0]] + s[1..];
      ElemsConcat([s[0]], s[1..]);
      ElemsConcat([s[0]], tail);
      assert forall y | y in Elems(tail) :: Less(s[0], y);
      [s[0]] + tail
  }

  /** `sorted(list(set(xs)))`. */
  function SortedDistinct(xs: seq<string>): (r: seq<string>)
    ensures StrictlySorted(r)
    ensures Elems(r) == Elems(xs)
  {
    if xs == [] then []
    else
      assert xs == xs[..|xs| - 1] + [xs[|xs| - 1]];
      ElemsConcat(xs[..|xs| - 1], [xs[|xs| - 1]]);
      InsertSorted(SortedDistinct(xs[..|xs| - 1]), xs[|xs| - 1])
  }

  /** A strictly sorted list holds no element twice. */
  lemma StrictlySortedNoDups(s: seq<string>)
    requires StrictlySorted(s)
    ensures NoDups(s)
  {
    forall i, j | 0 <= i < j < |s| ensures s[i] != s[j] {
      if s[i] == s[j] { LessIrreflexive(s[i]); }
    }
  }

  /** The head of a strictly sorted list is below every other element. */
  lemma HeadIsLeast(s: seq<string>, x: string)
    requires StrictlySorted(s) && x in s
    ensures x == s[0] || Less(s[0], x)
  {
  }

  /** Two strictly sorted lists with the same elements are the same list. */
  lemma {:induction false} SortedUnique(a: seq<string>, b: seq<string>)
    requires StrictlySorted(a) && StrictlySorted(b)
    requires Elems(a) == Elems(b)
    ensures a == b
    decreases |a|
  {
    if a == [] || b == [] {
      ElemsEmpty(a);
      ElemsEmpty(b);
    } else {
      SameLeast(a, b);
      SortedTail(a);
      SortedTail(b);
      SortedUnique(a[1..], b[1..]);
      assert a == [a[0]] + a[1..] && b == [b[0]] + b[1..];
    }
  }

  /** Only the empty list has no elements. */
  lemma ElemsEmpty<T>(s: seq<T>)
    ensures Elems(s) == {} <==> s == []
  {
    if s != [] {
      assert s[0] in Elems(s);
    }
  }

  /** Two nonempty strictly sorted lists with the same elements start alike. */
  lemma SameLeast(a: seq<string>, b: seq<string>)
    requires StrictlySorted(a) && StrictlySorted(b) && a != [] && b != []
    requires Elems(a) == Elems(b)
    ensures a[0] == b[0]
  {
    assert a[0] in Elems(b) && b[0] in Elems(a);
    HeadIsLeast(b, a[0]);
    HeadIsLeast(a, b[0]);
    if a[0] != b[0] {
      LessTransitive(a[0], b[0], a[0]);
      LessIrreflexive(a[0]);
    }
  }

  /** The tail of a strictly sorted list is strictly sorted and holds all but the head. */
  lemma SortedTail(a: seq<string>)
    requires StrictlySorted(a) && a != []
    ensures StrictlySorted(a[1..]) && Elems(a[1..]) == Elems(a) - {a[0]}
  {
    StrictlySortedNoDups(a);
    assert a == [a[0]] + a[1..];
    ElemsConcat([a[0]], a[1..]);
    assert a[0] !in a[1..];
  }
}
