/** The two reverse-dependency searches: `find_reverse_dependencies` (main.py:356-371) over the
  * graph already built, and the scan of the whole index in
  * `find_reverse_dependencies_advanced` (main.py:373-423). */
module ReverseResolver {
  import opened Strings
  import opened Collections
  import opened Clauses
  import opened IndexParser
  import opened DependencyGraph

  /** The packages whose list in `g` names `target`. */
  ghost function DependentsIn(g: Graph, target: string): set<string> {
    set p | p in g.deps && target in g.deps[p]
  }

  /** The keys, in order, whose list names `target`. */
  function KeysNaming(keys: seq<string>, deps: map<string, seq<string>>, target: string): seq<string>
    requires forall k | k in keys :: k in deps
  {
    if keys == [] then []
    else
      var last := keys[|keys| - 1];
      KeysNaming(keys[..|keys| - 1], deps, target) + (if target in deps[last] then [last] else [])
  }

  /** A key is kept exactly when its list names the target. */
  lemma {:induction false} KeysNamingMembers(keys: seq<string>, deps: map<string, seq<string>>, target: string)
    requires forall k | k in keys :: k in deps
    ensures forall p :: p in KeysNaming(keys, deps, target) <==> p in keys && target in deps[p]
    decreases |keys|
  {
    if keys != [] {
      var init, last := keys[..|keys| - 1], keys[|keys| - 1];
      assert keys == init + [last];
      assert forall k | k in init :: k in keys;
      KeysNamingMembers(init, deps, target);
    }
  }

  /** Filtering keeps the keys in their order. */
  lemma {:induction false} KeysNamingOrdered(keys: seq<string>, deps: map<string, seq<string>>, target: string)
    requires forall k | k in keys :: k in deps
    ensures IsSubsequence(KeysNaming(keys, deps, target), keys)
    decreases |keys|
  {
    if keys != [] {
      var init, last := keys[..|keys| - 1], keys[|keys| - 1];
      assert keys == init + [last];
      assert forall k | k in init :: k in keys;
      var r := KeysNaming(init, deps, target);
      KeysNamingOrdered(init, deps, target);
      SubsequenceSnoc(r, init, last);
      if target in deps[last] {
        assert KeysNaming(keys, deps, target) == r + [last];
      } else {
        assert KeysNaming(keys, deps, target) == r;
      }
    }
  }

  /** Filtering duplicate-free keys keeps them duplicate-free. */
  lemma {:induction false} KeysNamingNoDups(keys: seq<string>, deps: map<string, seq<string>>, target: string)
    requires forall k | k in keys :: k in deps
    requires NoDups(keys)
    ensures NoDups(KeysNaming(keys, deps, target))
    decreases |keys|
  {
    if keys != [] {
      var init, last := keys[..|keys| - 1], keys[|keys| - 1];
      assert forall k | k in init :: k in keys;
      assert NoDups(init) by {
        forall i, j | 0 <= i < j < |init| ensures init[i] != init[j] { assert init[i] == keys[i] && init[j] == keys[j]; }
      }
      KeysNamingNoDups(init, deps, target);
      if target in deps[last] {
        assert last !in init by {
          forall m | 0 <= m < |init| ensures init[m] != last { assert keys[m] == init[m]; }
        }
        KeysNamingMembers(init, deps, target);
        NoDupsSnoc(KeysNaming(init, deps, target), last);
      }
    }
  }

  /** `find_reverse_dependencies`: walks the graph in key order and keeps every package whose
    * dependency list names the target. */
  method ReverseDependenciesInGraph(g: Graph, target: string) returns (r: seq<string>)
    requires g.Valid()
    ensures Elems(r) == DependentsIn(g, target)
    ensures NoDups(r)
    ensures IsSubsequence(r, g.keys)
  {
    assert forall k | k in g.keys :: k in Elems(g.keys);
    r := [];
    var i := 0;
    while i < |g.keys|
      invariant 0 <= i <= |g.keys|
      invariant r == KeysNaming(g.keys[..i], g.deps, target)
    {
      assert g.keys[..i + 1][..i] == g.keys[..i];
      var p := g.keys[i];
      if target in g.deps[p] {
        r := r + [p];
      }
      i := i + 1;
    }
    assert g.keys[..i] == g.keys;
    KeysNamingMembers(g.keys, g.deps, target);
    KeysNamingOrdered(g.keys, g.deps, target);
    KeysNamingNoDups(g.keys, g.deps, target);
  }

  /** `if current_package and target_package in current_dependencies`. */
  predicate Closes(current: Option<string>, acc: seq<string>, target: string) {
    current.Some? && current.value != [] && target in acc
  }

  /** The package a closed stanza contributes, if any. */
  function ClosedStanza(current: Option<string>, acc: seq<string>, target: string): seq<string> {
    if Closes(current, acc, target) then [current.value] else []
  }

  /** The packages the scan of main.py:388-417 appends, in order, reading lines already
    * stripped: a `Package:` line closes the stanza before it and opens the next, a `Depends:`
    * line adds its names to the open stanza, and the last stanza is closed when the lines
    * run out. */
  function Scan(lines: seq<string>, target: string, current: Option<string>, acc: seq<string>): (found: seq<string>)
    ensures forall p | p in found :: p != []
    decreases |lines|
  {
    if lines == [] then ClosedStanza(current, acc, target)
    else
      var line := lines[0];
      if IsPackageLine(line) then
        ClosedStanza(current, acc, target) + Scan(lines[1..], target, Some(line[|PackageField|..]), [])
      else if IsDependsLine(line) then Scan(lines[1..], target, current, acc + LineDeps(line))
      else Scan(lines[1..], target, current, acc)
  }

  /** One stripped line of the scan, read off the unstripped lines at position `i`: what was
    * found so far plus what the rest of the scan finds stays the same total. */
  lemma ScanStep(lines: seq<string>, i: nat, target: string, found: seq<string>, current: Option<string>,
                 acc: seq<string>, total: seq<string>)
    requires i < |lines|
    requires found + Scan(StripAll(lines[i..]), target, current, acc) == total
    ensures var line, rest := Strip(lines[i]), StripAll(lines[i + 1..]);
      if IsPackageLine(line) then
        found + ClosedStanza(current, acc, target) + Scan(rest, target, Some(line[|PackageField|..]), []) == total
      else if IsDependsLine(line) then found + Scan(rest, target, current, acc + LineDeps(line)) == total
      else found + Scan(rest, target, current, acc) == total
  {
    var line, rest := Strip(lines[i]), StripAll(lines[i + 1..]);
    assert lines[i..][0] == lines[i];
    assert lines[i..][1..] == lines[i + 1..];
    if IsPackageLine(line) {
      var closed, later := ClosedStanza(current, acc, target), Scan(rest, target, Some(line[|PackageField|..]), []);
      assert found + (closed + later) == found + closed + later;
    }
  }

  /** The set `find_reverse_dependencies_advanced` returns for a downloaded index. */
  function Dependents(text: string, target: string): set<string> {
    Elems(Scan(StripAll(Lines(text)), target, None, []))
  }

  /** `find_reverse_dependencies_advanced` once the index is fetched (`None` when the download
    * failed): nothing when there is no text, otherwise the dependents, sorted and distinct. */
  method ReverseDependenciesFromIndex(fetched: Option<string>, target: string) returns (r: seq<string>)
    ensures StrictlySorted(r)
    ensures fetched.None? || fetched.value == [] ==> r == []
    ensures fetched.Some? && fetched.value != [] ==> Elems(r) == Dependents(fetched.value, target)
  {
    if fetched.None? || fetched.value == [] {
      return [];
    }
    var lines := Lines(fetched.value);
    var found: seq<string> := [];
    var current: Option<string> := None;
    var deps: seq<string> := [];
    ghost var total := Scan(StripAll(lines), target, None, []);
    var i := 0;
    while i < |lines|
      invariant 0 <= i <= |lines|
      invariant found + Scan(StripAll(lines[i..]), target, current, deps) == total
    {
      ScanStep(lines, i, target, found, current, deps, total);
      ghost var rest := StripAll(lines[i + 1..]);
      var line := Strip(lines[i]);
      if IsPackageLine(line) {
        assert found + ClosedStanza(current, deps, target) + Scan(rest, target, Some(line[|PackageField|..]), []) == total;
        if current.Some? && current.value != [] && target in deps {
          found := found + [current.value];
        }
        current := Some(line[|PackageField|..]);
        deps := [];
      } else if IsDependsLine(line) {
        deps := deps + LineDeps(line);
      }
      i := i + 1;
    }
    assert lines[i..] == [];
    if current.Some? && current.value != [] && target in deps {
      found := found + [current.value];
    }
    r := SortedDistinct(found);
  }

  /** The answer of `find_reverse_dependencies_advanced` is determined by the index text: two
    * strictly sorted lists of the same dependents are the same list. */
  lemma FromIndexDetermined(text: string, target: string, r1: seq<string>, r2: seq<string>)
    requires StrictlySorted(r1) && Elems(r1) == Dependents(text, target)
    requires StrictlySorted(r2) && Elems(r2) == Dependents(text, target)
    ensures r1 == r2
  {
    SortedUnique(r1, r2);
  }

  /** A stripped `Package:` line names a non-empty package. */
  lemma PackageLineName(line: string)
    requires Stripped(line) && IsPackageLine(line)
    ensures line[|PackageField|..] != []
  {
    assert line[|PackageField| - 1] == ' ';
    assert !IsSpace(line[|line| - 1]);
  }

  /** What the scan reports from `lines` on, given the open stanza: its package when the rest
    * of its body names the target, and every package with a stanza further down that does. */
  ghost predicate ScanReports(lines: seq<string>, target: string, current: Option<string>,
                              acc: seq<string>, p: string)
  {
    (current == Some(p) && p != [] && target in acc + StanzaDeps(lines))
    || DeclaresDependency(lines, p, target)
  }

  /** The step over a `Package:` line. */
  lemma ScanPackageStep(lines: seq<string>, target: string, current: Option<string>,
                        acc: seq<string>, p: string)
    requires lines != [] && IsPackageLine(lines[0]) && lines[0][|PackageField|..] != []
    requires p in Scan(lines[1..], target, Some(lines[0][|PackageField|..]), []) <==>
      ScanReports(lines[1..], target, Some(lines[0][|PackageField|..]), [], p)
    ensures p in Scan(lines, target, current, acc) <==> ScanReports(lines, target, current, acc, p)
  {
    DeclaresCons(lines, p, target);
    assert [] + StanzaDeps(lines[1..]) == StanzaDeps(lines[1..]);
    assert acc + StanzaDeps(lines) == acc;
  }

  /** The step over a `Depends:` line. */
  lemma ScanDependsStep(lines: seq<string>, target: string, current: Option<string>,
                        acc: seq<string>, p: string)
    requires lines != [] && IsDependsLine(lines[0])
    requires p in Scan(lines[1..], target, current, acc + LineDeps(lines[0])) <==>
      ScanReports(lines[1..], target, current, acc + LineDeps(lines[0]), p)
    ensures p in Scan(lines, target, current, acc) <==> ScanReports(lines, target, current, acc, p)
  {
    DependsUnfold(lines, target, current, acc);
    DeclaresCons(lines, p, target);
    InConcatAssoc(target, acc, LineDeps(lines[0]), StanzaDeps(lines[1..]));
  }

  /** A `Depends:` line adds its names to the open stanza and to the stanza's body. */
  lemma DependsUnfold(lines: seq<string>, target: string, current: Option<string>, acc: seq<string>)
    requires lines != [] && IsDependsLine(lines[0])
    ensures Scan(lines, target, current, acc) == Scan(lines[1..], target, current, acc + LineDeps(lines[0]))
    ensures StanzaDeps(lines) == LineDeps(lines[0]) + StanzaDeps(lines[1..])
    ensures !IsPackageLine(lines[0])
  {
    FieldsExclusive(lines[0]);
  }

  lemma InConcatAssoc(x: string, a: seq<string>, b: seq<string>, c: seq<string>)
    ensures x in a + b + c <==> x in a + (b + c)
  {
    assert a + b + c == a + (b + c);
  }

  /** The step over any other line. */
  lemma ScanOtherStep(lines: seq<string>, target: string, current: Option<string>,
                      acc: seq<string>, p: string)
    requires lines != [] && !IsPackageLine(lines[0]) && !IsDependsLine(lines[0])
    requires p in Scan(lines[1..], target, current, acc) <==> ScanReports(lines[1..], target, current, acc, p)
    ensures p in Scan(lines, target, current, acc) <==> ScanReports(lines, target, current, acc, p)
  {
    DeclaresCons(lines, p, target);
  }

  /** The scan over stripped lines reports exactly what `ScanReports` describes. */
  lemma {:induction false} ScanFinds(lines: seq<string>, target: string, current: Option<string>,
                                     acc: seq<string>, p: string)
    requires forall i | 0 <= i < |lines| :: Stripped(lines[i])
    ensures p in Scan(lines, target, current, acc) <==> ScanReports(lines, target, current, acc, p)
    decreases |lines|
  {
    if lines == [] {
      assert acc + StanzaDeps(lines) == acc;
    } else {
      var line := lines[0];
      var rest := lines[1..];
      assert forall i | 0 <= i < |rest| :: rest[i] == lines[i + 1];
      if IsPackageLine(line) {
        PackageLineName(line);
        ScanFinds(rest, target, Some(line[|PackageField|..]), [], p);
        ScanPackageStep(lines, target, current, acc, p);
      } else if IsDependsLine(line) {
        ScanFinds(rest, target, current, acc + LineDeps(line), p);
        ScanDependsStep(lines, target, current, acc, p);
      } else {
        ScanFinds(rest, target, current, acc, p);
        ScanOtherStep(lines, target, current, acc, p);
      }
    }
  }

  /** `Depends:` lines before the first `Package:` line belong to no package: whatever they
    * add before a stanza opens, the scan reports the same packages. */
  lemma LeadingDependsIgnored(lines: seq<string>, target: string, acc: seq<string>, p: string)
    requires forall i | 0 <= i < |lines| :: Stripped(lines[i])
    ensures p in Scan(lines, target, None, acc) <==> p in Scan(lines, target, None, [])
  {
    ScanFinds(lines, target, None, acc, p);
    ScanFinds(lines, target, None, [], p);
  }

  /** A line the full-index scan and the parser read alike: stripped already, or no field line
    * either way (a description continuation line, say). */
  predicate Plain(line: string) {
    Strip(line) == line
    || (!IsPackageLine(line) && !IsDependsLine(line)
        && !IsPackageLine(Strip(line)) && !IsDependsLine(Strip(line)))
  }

  lemma StrippedLine(line: string)
    requires Strip(line) == line
    ensures IsPackageLine(Strip(line)) <==> IsPackageLine(line)
    ensures IsDependsLine(Strip(line)) <==> IsDependsLine(line)
    ensures IsPackageLine(line) ==> Strip(line)[|PackageField|..] == line[|PackageField|..]
    ensures IsDependsLine(line) ==> LineDeps(Strip(line)) == LineDeps(line)
  {
  }

  /** `strip()` changes nothing the two scans look at in a plain line. */
  lemma PlainLine(line: string)
    requires Plain(line)
    ensures IsPackageLine(Strip(line)) <==> IsPackageLine(line)
    ensures IsDependsLine(Strip(line)) <==> IsDependsLine(line)
    ensures IsPackageLine(line) ==> Strip(line)[|PackageField|..] == line[|PackageField|..]
    ensures IsDependsLine(line) ==> LineDeps(Strip(line)) == LineDeps(line)
  {
    if Strip(line) == line {
      StrippedLine(line);
    }
  }

  /** Stripping the lines of a stanza body leaves its dependencies as they were. */
  lemma {:induction false} PlainStanzaDeps(lines: seq<string>)
    requires forall i | 0 <= i < |lines| :: Plain(lines[i])
    ensures StanzaDeps(StripAll(lines)) == StanzaDeps(lines)
    decreases |lines|
  {
    if lines != [] {
      assert forall i | 0 <= i < |lines| - 1 :: lines[1..][i] == lines[i + 1];
      assert StripAll(lines)[1..] == StripAll(lines[1..]);
      PlainLine(lines[0]);
      PlainStanzaDeps(lines[1..]);
    }
  }

  /** Stripping the lines of a plain index changes no stanza's dependencies. */
  lemma {:induction false} PlainDeclares(lines: seq<string>, p: string, target: string)
    requires forall i | 0 <= i < |lines| :: Plain(lines[i])
    ensures DeclaresDependency(StripAll(lines), p, target) <==> DeclaresDependency(lines, p, target)
    decreases |lines|
  {
    if lines != [] {
      var stripped := StripAll(lines);
      assert forall i | 0 <= i < |lines| - 1 :: lines[1..][i] == lines[i + 1];
      assert stripped[0] == Strip(lines[0]) && stripped[1..] == StripAll(lines[1..]);
      PlainLine(lines[0]);
      PlainStanzaDeps(lines[1..]);
      PlainDeclares(lines[1..], p, target);
      DeclaresCons(lines, p, target);
      DeclaresCons(stripped, p, target);
    }
  }

  /** When every line is plain, a package is found exactly when one of its stanzas lists the
    * target. */
  lemma DependentsDeclare(text: string, target: string, p: string)
    requires forall i | 0 <= i < |Lines(text)| :: Plain(Lines(text)[i])
    ensures p in Dependents(text, target) <==> DeclaresDependency(Lines(text), p, target)
  {
    StripAllStripped(Lines(text));
    ScanFinds(StripAll(Lines(text)), target, None, [], p);
    PlainDeclares(Lines(text), p, target);
  }

  /** Every package whose parsed dependencies name the target is among its dependents. */
  lemma ParsedDependencyFound(text: string, target: string, p: string)
    requires forall i | 0 <= i < |Lines(text)| :: Plain(Lines(text)[i])
    ensures target in ParsedNames(text, p) ==> p in Dependents(text, target)
  {
    CollectDeclared(Lines(text), p, false, target);
    DependentsDeclare(text, target, p);
  }

  /** With one stanza per package, the stanza holding a dependency is the one the parser reads. */
  lemma DeclaredParsed(lines: seq<string>, target: string, p: string)
    requires forall i, j | 0 <= i < j < |lines| && IsPackageLine(lines[i]) :: lines[i] != lines[j]
    requires DeclaresDependency(lines, p, target)
    ensures target in Collect(lines, p, false)
  {
    var k :| 0 <= k < |lines| && OpensStanza(lines[k], p) && target in StanzaDeps(lines[k + 1..]);
    OnlyStanza(lines, p, k);
    CollectAt(lines, p, k);
  }

  /** With no `Package:` line repeated, the stanza of `p` opens at one line only. */
  lemma OnlyStanza(lines: seq<string>, p: string, k: nat)
    requires forall i, j | 0 <= i < j < |lines| && IsPackageLine(lines[i]) :: lines[i] != lines[j]
    requires k < |lines| && OpensStanza(lines[k], p)
    ensures forall i | 0 <= i < |lines| && i != k :: !OpensStanza(lines[i], p)
  {
    OpensStanzaExactly(lines[k], p);
    forall i | 0 <= i < |lines| && i != k ensures !OpensStanza(lines[i], p) {
      OpensStanzaExactly(lines[i], p);
    }
  }

  /** With one stanza per package, the full-index search and the parser agree:
    * `p` depends on `target` exactly when `target` is among `p`'s parsed dependencies. */
  lemma ScanAgreesWithParser(text: string, target: string, p: string)
    requires forall i | 0 <= i < |Lines(text)| :: Plain(Lines(text)[i])
    requires forall i, j | 0 <= i < j < |Lines(text)| && IsPackageLine(Lines(text)[i]) ::
      Lines(text)[i] != Lines(text)[j]
    ensures p in Dependents(text, target) <==> target in ParsedNames(text, p)
  {
    ParsedDependencyFound(text, target, p);
    DependentsDeclare(text, target, p);
    if DeclaresDependency(Lines(text), p, target) {
      DeclaredParsed(Lines(text), target, p);
    }
  }
}
