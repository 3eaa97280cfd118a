/** The name-extraction rule for the clauses of a `Depends:` field, shared by the index
  * parser (main.py:128-139) and the full-index reverse scan (main.py:404-413). */
module Clauses {
  import opened Strings
  import opened Collections

  /** The marker whose presence makes a clause count as version-constrained. */
  const ConstraintOpen := " ("

  /** The bare name of one comma-separated clause: the stripped text before the first `" ("`
    * when the clause has one, otherwise before the first blank. */
  function ClauseName(clause: string): (name: string)
    ensures Stripped(name)
    ensures forall c | c in name :: c in clause
    ensures !Contains(Strip(clause), ConstraintOpen) ==> ' ' !in name
  {
    var dep := Strip(clause);
    if Contains(dep, ConstraintOpen) then Strip(BeforeFirst(dep, ConstraintOpen))
    else
      BeforeFirstChar(dep, ' ');
      Strip(BeforeFirst(dep, " "))
  }

  /** The non-empty names of a list of clauses, in order (duplicates kept). */
  function ClauseNames(clauses: seq<string>): (names: seq<string>)
    ensures |names| <= |clauses|
    ensures forall n | n in names :: n != [] && Stripped(n)
  {
    if clauses == [] then []
    else
      var n := ClauseName(clauses[0]);
      (if n != [] then [n] else []) + ClauseNames(clauses[1..])
  }

  /** A name is extracted exactly when it is the non-empty name of some clause: an empty name
    * drops only its own clause. */
  lemma {:induction false} ClauseNamesMembers(clauses: seq<string>)
    ensures forall n :: n in ClauseNames(clauses) <==> n != [] && exists i | 0 <= i < |clauses| :: ClauseName(clauses[i]) == n
    decreases |clauses|
  {
    if clauses != [] {
      ClauseNamesMembers(clauses[1..]);
      assert forall i | 1 <= i < |clauses| :: clauses[1..][i - 1] == clauses[i];
      forall n | n != [] && (exists i | 0 <= i < |clauses| :: ClauseName(clauses[i]) == n)
        ensures n in ClauseNames(clauses)
      {
        var i :| 0 <= i < |clauses| && ClauseName(clauses[i]) == n;
        if i > 0 {
          assert ClauseName(clauses[1..][i - 1]) == n;
        }
      }
    }
  }

  /** A character found in no clause is found in no extracted name. */
  lemma {:induction false} ClauseNamesAvoid(clauses: seq<string>, c: char)
    requires forall p | p in clauses :: c !in p
    ensures forall n | n in ClauseNames(clauses) :: c !in n
    decreases |clauses|
  {
    if clauses != [] {
      assert clauses[0] in clauses;
      forall p | p in clauses[1..] ensures c !in p { assert p in clauses; }
      ClauseNamesAvoid(clauses[1..], c);
    }
  }

  /** The dependency names of the value of one `Depends:` field: split on `,`, extract each
    * clause's name, drop empty names. */
  function DependsNames(value: string): (names: seq<string>)
    ensures forall n | n in names :: n != [] && Stripped(n) && ',' !in n
  {
    ClauseNamesAvoid(Split(value, ','), ',');
    ClauseNames(Split(value, ','))
  }

  /** A package name as it is written in an index: non-empty, no blank and no comma. */
  predicate IsToken(n: string) {
    n != [] && forall c | c in n :: !IsSpace(c) && c != ','
  }

  /** One dependency as an index writes it: a name with an optional version constraint. */
  datatype Relation = Relation(name: string, version: Option<string>)

  predicate WellFormed(r: Relation) {
    IsToken(r.name) && (r.version.Some? ==> ',' !in r.version.value)
  }

  /** The clause text of a relation: `name` or `name (constraint)`. */
  function Render(r: Relation): string {
    match r.version
    case None => r.name
    case Some(v) => r.name + ConstraintOpen + v + ")"
  }

  /** The text of a `Depends:` value listing `rels`. */
  function RenderDepends(rels: seq<Relation>): string {
    Join(RenderEach(rels), ", ")
  }

  function RenderEach(rels: seq<Relation>): (clauses: seq<string>)
    ensures |clauses| == |rels|
    ensures forall i | 0 <= i < |rels| :: clauses[i] == Render(rels[i])
  {
    if rels == [] then [] else [Render(rels[0])] + RenderEach(rels[1..])
  }

  function NamesOf(rels: seq<Relation>): (names: seq<string>)
    ensures |names| == |rels|
    ensures forall i | 0 <= i < |rels| :: names[i] == rels[i].name
  {
    if rels == [] then [] else [rels[0].name] + NamesOf(rels[1..])
  }

  /** A prefix without the separator's first character is kept whole by `split(sep)[0]`. */
  lemma {:induction false} BeforeFirstAfterToken(a: string, b: string, sep: string)
    requires sep != [] && forall i | 0 <= i < |a| :: a[i] != sep[0]
    ensures BeforeFirst(a + b, sep) == a + BeforeFirst(b, sep)
    decreases |a|
  {
    if a == [] {
      assert a + b == b;
    } else {
      var t := a[1..];
      assert a + b == [a[0]] + (t + b);
      assert (a + b)[1..] == t + b;
      assert (a + b)[0] != sep[0];
      BeforeFirstStep(a + b, sep);
      BeforeFirstAfterToken(t, b, sep);
    }
  }

  /** `sub` occurring at position `k` of `s` makes `s` contain it. */
  lemma {:induction false} ContainsAt(s: string, sub: string, k: nat)
    requires k <= |s| && sub <= s[k..]
    ensures Contains(s, sub)
    decreases k
  {
    if k > 0 {
      assert s[1..][k - 1..] == s[k..];
      ContainsAt(s[1..], sub, k - 1);
    }
  }

  /** A token is stripped and free of blanks. */
  lemma TokenShape(n: string)
    requires IsToken(n)
    ensures Stripped(n) && ' ' !in n
  {
    assert n[0] in n && n[|n| - 1] in n;
  }

  /** A bare name is its own clause name. */
  lemma TokenClauseName(n: string)
    requires IsToken(n)
    ensures ClauseName(n) == n
  {
    TokenShape(n);
    StripFixedPoint(n);
    NotContainsWithout(n, ConstraintOpen);
    NotContainsWithout(n, " ");
    assert BeforeFirst(n, " ") == n;
  }

  /** A name followed by a parenthesised constraint yields the name. */
  lemma ConstrainedClauseName(n: string, v: string)
    requires IsToken(n)
    ensures ClauseName(n + ConstraintOpen + v + ")") == n
  {
    TokenShape(n);
    var tail := ConstraintOpen + v + ")";
    var s := n + tail;
    assert s == n + ConstraintOpen + v + ")";
    assert Stripped(s) by { assert s[0] == n[0]; assert s[|s| - 1] == ')'; }
    StripFixedPoint(s);
    assert s[|n|..] == tail;
    ContainsAt(s, ConstraintOpen, |n|);
    assert forall i | 0 <= i < |n| :: n[i] != ConstraintOpen[0] by {
      forall i | 0 <= i < |n| ensures n[i] != ' ' { assert n[i] in n; }
    }
    BeforeFirstAfterToken(n, tail, ConstraintOpen);
    assert BeforeFirst(tail, ConstraintOpen) == [];
    assert BeforeFirst(s, ConstraintOpen) == n;
    StripFixedPoint(n);
  }

  /** The clause written for a well-formed relation gives back exactly its name: the version
    * constraint is dropped. */
  lemma RenderedClauseName(r: Relation)
    requires WellFormed(r)
    ensures ClauseName(Render(r)) == r.name
  {
    match r.version
    case None => TokenClauseName(r.name);
    case Some(v) => ConstrainedClauseName(r.name, v);
  }

  /** A blank after the separating comma does not change the extracted name. */
  lemma LeadingBlankIgnored(clause: string)
    ensures ClauseName(" " + clause) == ClauseName(clause)
  {
    assert (" " + clause)[1..] == clause;
  }

  function Blanked(clauses: seq<string>): (r: seq<string>)
    ensures |r| == |clauses|
    ensures forall i | 0 <= i < |clauses| :: r[i] == " " + clauses[i]
  {
    if clauses == [] then [] else [" " + clauses[0]] + Blanked(clauses[1..])
  }

  /** Joining with `", "` is joining with `","` after prefixing every clause but the first
    * with a blank. */
  lemma {:induction false} JoinCommaBlank(clauses: seq<string>)
    requires |clauses| >= 1
    ensures Join(clauses, ", ") == Join([clauses[0]] + Blanked(clauses[1..]), ",")
    decreases |clauses|
  {
    if |clauses| > 1 {
      var rest := clauses[1..];
      JoinCommaBlank(rest);
      BlankJoin(rest[0], Blanked(rest[1..]));
      assert Blanked(rest) == [" " + rest[0]] + Blanked(rest[1..]);
      assert [clauses[0]] + Blanked(rest) == [clauses[0]] + ([" " + rest[0]] + Blanked(rest[1..]));
    }
  }

  lemma BlankJoin(first: string, rest: seq<string>)
    ensures " " + Join([first] + rest, ",") == Join([" " + first] + rest, ",")
  {
    if rest != [] {
      assert ([first] + rest)[1..] == rest;
      assert ([" " + first] + rest)[1..] == rest;
    }
  }

  /** Parsing the text of a `Depends:` value gives back the names it was written from, in
    * order: every version constraint is dropped and every name kept. */
  lemma DependsRoundTrip(rels: seq<Relation>)
    requires forall r | r in rels :: WellFormed(r)
    ensures DependsNames(RenderDepends(rels)) == NamesOf(rels)
  {
    var clauses := RenderEach(rels);
    if rels == [] {
      assert RenderDepends(rels) == [];
    } else {
      JoinCommaBlank(clauses);
      var pieces := [clauses[0]] + Blanked(clauses[1..]);
      forall p | p in pieces ensures ',' !in p {
        var i :| 0 <= i < |pieces| && pieces[i] == p;
        assert rels[i] in rels;
        RenderedHasNoComma(rels[i]);
      }
      SplitJoin(pieces, ',');
      PiecesNames(rels);
    }
  }

  lemma RenderedHasNoComma(r: Relation)
    requires WellFormed(r)
    ensures ',' !in Render(r) && Stripped(Render(r))
  {
    assert r.name[0] in r.name && r.name[|r.name| - 1] in r.name;
  }

  lemma {:induction false} PiecesNames(rels: seq<Relation>)
    requires rels != []
    requires forall r | r in rels :: WellFormed(r)
    ensures ClauseNames([Render(rels[0])] + Blanked(RenderEach(rels[1..]))) == NamesOf(rels)
    decreases |rels|
  {
    var pieces := [Render(rels[0])] + Blanked(RenderEach(rels[1..]));
    RenderedClauseName(rels[0]);
    assert pieces[1..] == Blanked(RenderEach(rels[1..]));
    if |rels| > 1 {
      assert rels[1..][0] == rels[1];
      forall r | r in rels[1..] ensures WellFormed(r) { assert r in rels; }
      PiecesNames(rels[1..]);
      RenderedHasNoComma(rels[1]);
      LeadingBlankIgnored(Render(rels[1]));
      assert RenderEach(rels[1..]) == [Render(rels[1])] + RenderEach(rels[2..]);
      assert rels[1..][1..] == rels[2..];
      assert Blanked(RenderEach(rels[1..])) == [" " + Render(rels[1])] + Blanked(RenderEach(rels[2..]));
      assert ClauseNames(pieces[1..]) == ClauseNames([Render(rels[1])] + Blanked(RenderEach(rels[2..]))) by {
        assert pieces[1..][1..] == Blanked(RenderEach(rels[2..]));
        assert ([Render(rels[1])] + Blanked(RenderEach(rels[2..])))[1..] == Blanked(RenderEach(rels[2..]));
      }
    }
  }

  /** Where no separator starts, the first character comes before it. */
  lemma BeforeFirstStep(s: string, sep: string)
    requires sep != [] && s != [] && !(sep <= s)
    ensures BeforeFirst(s, sep) == [s[0]] + BeforeFirst(s[1..], sep)
  {
  }

  /** A separator at the very start leaves nothing before it. */
  lemma BeforeFirstAtStart(s: string, sep: string, rest: string)
    requires sep != [] && s == sep + rest
    ensures BeforeFirst(s, sep) == []
  {
    assert s[..|sep|] == sep;
  }

  /** A string that contains `sub` has it starting at some position. */
  lemma {:induction false} ContainsWitness(s: string, sub: string) returns (k: nat)
    requires Contains(s, sub)
    ensures k <= |s| && sub <= s[k..]
    decreases |s|
  {
    if sub <= s {
      k := 0;
    } else {
      var j := ContainsWitness(s[1..], sub);
      assert s[1..][j..] == s[j + 1..];
      k := j + 1;
    }
  }

  /** Where every blank of `s` is followed by something other than `(`, `s` holds no
    * constraint marker. */
  lemma {:induction false} NoConstraintMarker(s: string)
    requires forall i | 0 <= i < |s| - 1 :: s[i] == ' ' ==> s[i + 1] != '('
    ensures !Contains(s, ConstraintOpen)
    decreases |s|
  {
    if s != [] {
      assert !(ConstraintOpen <= s) by {
        if |s| >= 2 && s[0] == ' ' { assert s[1] != '('; }
      }
      forall i | 0 <= i < |s[1..]| - 1 && s[1..][i] == ' ' ensures s[1..][i + 1] != '(' {
        assert s[1..][i] == s[i + 1] && s[1..][i + 1] == s[i + 2];
      }
      NoConstraintMarker(s[1..]);
    }
  }

  /** The name of a stripped clause with a constraint marker: the text before the marker. */
  lemma MarkedClauseName(s: string)
    requires Stripped(s) && Contains(s, ConstraintOpen)
    ensures ClauseName(s) == Strip(BeforeFirst(s, ConstraintOpen))
  {
    StripFixedPoint(s);
  }

  /** The name of a stripped clause without a constraint marker: the text before the first
    * blank. */
  lemma UnmarkedClauseName(s: string)
    requires Stripped(s) && !Contains(s, ConstraintOpen)
    ensures ClauseName(s) == Strip(BeforeFirst(s, " "))
  {
    StripFixedPoint(s);
  }

  /** `sub in s` holds exactly when `sub` starts at some position of `s`. */
  lemma ContainsSomewhere(s: string, sub: string)
    ensures Contains(s, sub) <==> exists k | 0 <= k <= |s| :: sub <= s[k..]
  {
    if Contains(s, sub) {
      var k := ContainsWitness(s, sub);
    }
    if exists k | 0 <= k <= |s| :: sub <= s[k..] {
      var k :| 0 <= k <= |s| && sub <= s[k..];
      ContainsAt(s, sub, k);
    }
  }

  /** The rule by position: when the stripped clause has its first `" ("` at position `k`,
    * the name is the stripped text before `k`. */
  lemma ClauseNameAtMarker(clause: string, k: nat)
    requires var d := Strip(clause);
      k <= |d| && ConstraintOpen <= d[k..]
      && forall j | 0 <= j < k :: !(ConstraintOpen <= d[j..])
    ensures ClauseName(clause) == Strip(Strip(clause)[..k])
  {
    var d := Strip(clause);
    ContainsAt(d, ConstraintOpen, k);
    var r := BeforeFirst(d, ConstraintOpen);
    assert |r| == k;
    assert r == d[..k];
  }

  /** The rule by position: when the stripped clause holds no `" ("` and has its first blank
    * at position `k` (or none, with `k` its length), the name is the stripped text before `k`. */
  lemma ClauseNameAtBlank(clause: string, k: nat)
    requires var d := Strip(clause);
      (forall j | 0 <= j < |d| - 1 :: d[j] == ' ' ==> d[j + 1] != '(')
      && k <= |d| && (k < |d| ==> d[k] == ' ') && forall j | 0 <= j < k :: d[j] != ' '
    ensures ClauseName(clause) == Strip(Strip(clause)[..k])
  {
    var d := Strip(clause);
    NoConstraintMarker(d);
    var r := BeforeFirst(d, " ");
    if k < |d| {
      assert " " <= d[k..];
      ContainsAt(d, " ", k);
      assert d[|r|] == ' ';
      assert |r| == k;
    } else {
      NotContainsWithout(d, " ");
      assert d[..k] == d;
    }
    assert r == d[..k];
  }

  /** Where `n2` does not open with a parenthesis, `n1 | n2` holds no constraint marker. */
  lemma AlternativesUnmarked(n1: string, n2: string)
    requires forall i | 0 <= i < |n1| :: n1[i] != ' '
    requires forall i | 0 <= i < |n2| :: n2[i] != ' '
    requires n2 != [] && n2[0] != '('
    ensures !Contains(n1 + " | " + n2, ConstraintOpen)
  {
    var s := n1 + " | " + n2;
    forall i | 0 <= i < |s| - 1 ensures s[i] == ' ' ==> s[i + 1] != '(' {
      if i < |n1| { assert s[i] == n1[i]; }
      else if i >= |n1| + 3 { assert s[i] == n2[i - |n1| - 3]; }
    }
    NoConstraintMarker(s);
  }

  /** In `n1 | n2` the first blank comes right after `n1`. */
  lemma AlternativesFirstBlank(n1: string, n2: string)
    requires forall i | 0 <= i < |n1| :: n1[i] != ' '
    ensures BeforeFirst(n1 + " | " + n2, " ") == n1
  {
    var rest := " | " + n2;
    assert n1 + " | " + n2 == n1 + rest;
    assert rest == " " + ("| " + n2);
    BeforeFirstAfterToken(n1, rest, " ");
    BeforeFirstAtStart(rest, " ", "| " + n2);
    assert n1 + [] == n1;
  }

  /** In `n1 | n2 (v)` the first constraint marker comes right after `n2`. */
  lemma AlternativesFirstMarker(n1: string, n2: string, v: string)
    requires forall i | 0 <= i < |n1| :: n1[i] != ' '
    requires forall i | 0 <= i < |n2| :: n2[i] != ' '
    requires n2 != [] && n2[0] != '('
    ensures BeforeFirst(n1 + " | " + n2 + ConstraintOpen + v + ")", ConstraintOpen) == n1 + " | " + n2
  {
    var tail := v + ")";
    var b := ConstraintOpen + tail;
    var r2 := n2 + b;
    var r1 := " " + r2;
    var r0 := "|" + r1;
    var rr := " " + r0;
    assert n1 + " | " + n2 + ConstraintOpen + v + ")" == n1 + rr;
    BeforeFirstAfterToken(n1, rr, ConstraintOpen);
    assert rr[1..] == r0 && r0[1..] == r1 && r1[1..] == r2;
    NoMarkerAt(rr, 0);
    BeforeFirstStep(rr, ConstraintOpen);
    NoMarkerAt(r0, 0);
    BeforeFirstStep(r0, ConstraintOpen);
    NoMarkerAt(r1, 0);
    BeforeFirstStep(r1, ConstraintOpen);
    BeforeFirstAfterToken(n2, b, ConstraintOpen);
    BeforeFirstAtStart(b, ConstraintOpen, tail);
    AlternativesSpelled(n1, n2);
  }

  lemma AlternativesSpelled(n1: string, n2: string)
    ensures n1 + " | " + n2 == n1 + ([' '] + (['|'] + ([' '] + (n2 + []))))
  {
    assert n2 + [] == n2;
    assert " | " + n2 == [' '] + (['|'] + ([' '] + n2));
  }

  /** No constraint marker starts where the text has no blank followed by `(`. */
  lemma NoMarkerAt(s: string, i: nat)
    requires i + 1 < |s| && (s[i] != ' ' || s[i + 1] != '(')
    ensures !(ConstraintOpen <= s[i..])
  {
    assert s[i..][0] == s[i] && s[i..][1] == s[i + 1];
  }

  /** `n1 | n2 (v)` is stripped and holds a constraint marker. */
  lemma AlternativesMarked(n1: string, n2: string, v: string)
    requires n1 != [] && !IsSpace(n1[0])
    ensures var s := n1 + " | " + n2 + ConstraintOpen + v + ")";
      Stripped(s) && Contains(s, ConstraintOpen)
  {
    var a := n1 + " | " + n2;
    var s := n1 + " | " + n2 + ConstraintOpen + v + ")";
    assert s[0] == n1[0] && s[|s| - 1] == ')';
    assert s[|a|..][..2] == ConstraintOpen;
    ContainsAt(s, ConstraintOpen, |a|);
  }

  /** A token has no blank at any position. */
  lemma TokenNoBlankAt(n: string)
    requires IsToken(n)
    ensures forall i | 0 <= i < |n| :: n[i] != ' '
  {
    forall i | 0 <= i < |n| ensures n[i] != ' ' { assert n[i] in n; }
  }

  /** `"a | b"` with no constraint: only the first alternative is kept (main.py:136-137). */
  lemma AlternativesWithoutConstraint(n1: string, n2: string)
    requires IsToken(n1) && IsToken(n2) && n2[0] != '('
    ensures ClauseName(n1 + " | " + n2) == n1
  {
    TokenShape(n1);
    TokenShape(n2);
    TokenNoBlankAt(n1);
    TokenNoBlankAt(n2);
    var s := n1 + " | " + n2;
    assert Stripped(s) by { assert s[0] == n1[0] && s[|s| - 1] == n2[|n2| - 1]; }
    AlternativesUnmarked(n1, n2);
    UnmarkedClauseName(s);
    AlternativesFirstBlank(n1, n2);
    StripFixedPoint(n1);
  }

  /** `"a | b (>= 1)"`: a constraint after the alternatives keeps the whole alternative list,
    * because only the text before `" ("` is cut off (main.py:134-135). */
  lemma AlternativesBeforeConstraint(n1: string, n2: string, v: string)
    requires IsToken(n1) && IsToken(n2) && n2[0] != '('
    ensures ClauseName(n1 + " | " + n2 + ConstraintOpen + v + ")") == n1 + " | " + n2
  {
    TokenShape(n1);
    TokenShape(n2);
    TokenNoBlankAt(n1);
    TokenNoBlankAt(n2);
    var a := n1 + " | " + n2;
    var s := n1 + " | " + n2 + ConstraintOpen + v + ")";
    AlternativesMarked(n1, n2, v);
    MarkedClauseName(s);
    AlternativesFirstMarker(n1, n2, v);
    assert Stripped(a) by { assert a[0] == n1[0] && a[|a| - 1] == n2[|n2| - 1]; }
    StripFixedPoint(a);
  }
}
