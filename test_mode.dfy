/** The two sources of dependencies in test mode: the fixed table of `get_test_dependencies`
  * (main.py:262-276) and the offline file read by `test_mode_parse_dependencies`
  * (main.py:278-315), one `name: dep, dep, ...` entry per line. */
module TestMode {
  import opened Strings
  import opened Collections
  import opened Clauses

  /** The demonstration table: a tree over the single letters `A` to `R`. */
  const TestData: map<string, seq<string>> := map[
    "A" := ["B", "C", "D"],
    "B" := ["E", "F"],
    "C" := ["G", "H"],
    "D" := ["I", "J"],
    "E" := ["K", "L"],
    "F" := ["M", "N"],
    "G" := ["O", "P"],
    "H" := ["Q", "R"]
  ]

  /** Every name the table mentions. */
  const TestNames: set<string> := {
    "A", "B", "C", "D", "E", "F", "G", "H", "I", "J", "K", "L", "M", "N", "O", "P", "Q", "R"
  }

  /** `test_data.get(package, [])`: a package outside the table has no dependencies, and
    * every listed dependency sorts after the package, so following dependencies can never
    * lead back to where it started. */
  function TestDependencies(p: string): (deps: seq<string>)
    ensures p !in TestData ==> deps == []
    ensures NoDups(deps)
    ensures forall d | d in deps :: Less(p, d)
  {
    if p in TestData then TestData[p] else []
  }

  /** The table never lists a name outside `A` to `R`. */
  lemma TestDependenciesNamed(p: string)
    ensures forall d | d in TestDependencies(p) :: d in TestNames
  {
  }

  /** One entry of the offline format. */
  datatype Entry = Entry(name: string, deps: seq<string>)

  /** `[d for d in parts if d]`: the non-empty parts, all of them, in their order. */
  function NonEmpty(parts: seq<string>): (r: seq<string>)
    ensures forall d | d in r :: d != [] && d in parts
    ensures forall d | d in parts && d != [] :: d in r
    ensures (forall i | 0 <= i < |parts| :: parts[i] != []) ==> r == parts
  {
    if parts == [] then []
    else
      var init, last := parts[..|parts| - 1], parts[|parts| - 1];
      assert parts == init + [last];
      assert forall d | d in parts :: d in init || d == last;
      var kept := NonEmpty(init);
      if last != [] then kept + [last] else kept
  }

  /** The non-empty parts keep their order. */
  lemma {:induction false} NonEmptyInOrder(parts: seq<string>)
    ensures IsSubsequence(NonEmpty(parts), parts)
    decreases |parts|
  {
    if parts != [] {
      var init, last := parts[..|parts| - 1], parts[|parts| - 1];
      assert parts == init + [last];
      NonEmptyInOrder(init);
      SubsequenceSnoc(NonEmpty(init), init, last);
    }
  }

  /** Every non-empty part is kept as many times as it occurs, and nothing else is kept. */
  lemma {:induction false} NonEmptyCounts(parts: seq<string>)
    ensures multiset(NonEmpty(parts)) == multiset(parts)[[] := 0]
    decreases |parts|
  {
    if parts != [] {
      var init, last := parts[..|parts| - 1], parts[|parts| - 1];
      assert parts == init + [last];
      NonEmptyCounts(init);
    }
  }

  /** The dependency names of an entry: split at the commas, stripped, empties dropped. */
  function EntryDeps(text: string): (deps: seq<string>)
    ensures forall d | d in deps :: d != [] && Stripped(d) && ',' !in d
  {
    var parts := Split(text, ',');
    var names := NonEmpty(StripAll(parts));
    assert forall d | d in names :: ',' !in d by {
      forall d | d in names ensures ',' !in d {
        var i :| 0 <= i < |parts| && StripAll(parts)[i] == d;
        assert parts[i] in parts;
      }
    }
    names
  }

  /** The entry a line of the offline file holds: after `strip()`, a line with a colon is
    * split at its first colon into a name and the dependency list; any other line holds none. */
  function LineEntry(line: string): (e: Option<Entry>)
    ensures e.Some? <==> ':' in Strip(line)
    ensures e.Some? ==> Stripped(e.value.name) && ':' !in e.value.name
  {
    var l := Strip(line);
    if l != [] && ':' in l then
      var k := IndexOf(l, ':');
      Some(Entry(Strip(l[..k]), EntryDeps(l[k + 1..])))
    else None
  }

  /** The table the offline file describes: each entry sets its name's list, so when a name
    * has several entries the last one counts. */
  function OfflineTable(lines: seq<string>): (table: map<string, seq<string>>)
    ensures forall k | k in table :: forall d | d in table[k] :: d != [] && Stripped(d) && ',' !in d
    decreases |lines|
  {
    if lines == [] then map[]
    else Record(OfflineTable(lines[..|lines| - 1]), LineEntry(lines[|lines| - 1]))
  }

  /** `graph[package] = deps` for a line holding an entry; other lines change nothing. */
  function Record(table: map<string, seq<string>>, e: Option<Entry>): map<string, seq<string>> {
    match e
    case None => table
    case Some(entry) => table[entry.name := entry.deps]
  }

  /** The table after one more line. */
  lemma OfflineStep(lines: seq<string>, i: nat)
    requires i < |lines|
    ensures OfflineTable(lines[..i + 1]) == Record(OfflineTable(lines[..i]), LineEntry(lines[i]))
  {
    assert lines[..i + 1][..i] == lines[..i];
  }

  /** `test_mode_parse_dependencies` once the file is read (`None` when reading failed): the
    * table of the whole file and the start package's list, empty when it has no entry. */
  method ParseOfflineFile(content: Option<string>, start: string)
    returns (graph: map<string, seq<string>>, initial: seq<string>)
    ensures content.None? ==> graph == map[]
    ensures content.Some? ==> graph == OfflineTable(Split(Strip(content.value), '\n'))
    ensures start in graph ==> initial == graph[start]
    ensures start !in graph ==> initial == []
  {
    if content.None? {
      return map[], [];
    }
    var lines := Split(Strip(content.value), '\n');
    graph := map[];
    var i := 0;
    while i < |lines|
      invariant 0 <= i <= |lines|
      invariant graph == OfflineTable(lines[..i])
    {
      OfflineStep(lines, i);
      // `line.strip()`, the colon test and the split of main.py:293-298.
      var entry := LineEntry(lines[i]);
      if entry.Some? {
        graph := graph[entry.value.name := entry.value.deps];
      }
      i := i + 1;
    }
    assert lines[..i] == lines;
    initial := if start in graph then graph[start] else [];
  }

  /** `line` holds an entry for `k`. */
  predicate HoldsEntry(line: string, k: string) {
    LineEntry(line).Some? && LineEntry(line).value.name == k
  }

  /** Recording an entry adds its name and nothing else. */
  lemma RecordKeys(table: map<string, seq<string>>, e: Option<Entry>, k: string)
    ensures k in Record(table, e) <==> k in table || (e.Some? && e.value.name == k)
  {
  }

  /** A name has an entry in the table exactly when some line of the file holds one for it. */
  lemma {:induction false} OfflineKeys(lines: seq<string>, k: string)
    ensures k in OfflineTable(lines) <==> exists j | 0 <= j < |lines| :: HoldsEntry(lines[j], k)
    decreases |lines|
  {
    if lines != [] {
      var init, last := lines[..|lines| - 1], lines[|lines| - 1];
      OfflineKeys(init, k);
      RecordKeys(OfflineTable(init), LineEntry(last), k);
      if exists j | 0 <= j < |lines| :: HoldsEntry(lines[j], k) {
        var j :| 0 <= j < |lines| && HoldsEntry(lines[j], k);
        if j < |init| {
          assert HoldsEntry(init[j], k);
        }
      }
      if exists j | 0 <= j < |init| :: HoldsEntry(init[j], k) {
        var j :| 0 <= j < |init| && HoldsEntry(init[j], k);
        assert HoldsEntry(lines[j], k);
      }
      if HoldsEntry(last, k) {
        assert HoldsEntry(lines[|lines| - 1], k);
      }
    }
  }

  /** The last line holding an entry for a name decides its list. */
  lemma {:induction false} OfflineLastWins(lines: seq<string>, j: nat, e: Entry)
    requires j < |lines| && LineEntry(lines[j]) == Some(e)
    requires forall i | j < i < |lines| :: !HoldsEntry(lines[i], e.name)
    ensures e.name in OfflineTable(lines) && OfflineTable(lines)[e.name] == e.deps
    decreases |lines|
  {
    var init, last := lines[..|lines| - 1], lines[|lines| - 1];
    assert OfflineTable(lines) == Record(OfflineTable(init), LineEntry(last));
    if j < |lines| - 1 {
      assert init[j] == lines[j];
      assert forall i | j < i < |init| :: init[i] == lines[i];
      OfflineLastWins(init, j, e);
      assert !HoldsEntry(lines[|lines| - 1], e.name);
      RecordOther(OfflineTable(init), LineEntry(last), e.name);
    }
  }

  /** Recording an entry for another name leaves a name's list as it was. */
  lemma RecordOther(table: map<string, seq<string>>, e: Option<Entry>, k: string)
    requires k in table && (e.None? || e.value.name != k)
    ensures k in Record(table, e) && Record(table, e)[k] == table[k]
  {
  }

  /** An entry as the offline format writes it. */
  function RenderEntry(e: Entry): string {
    e.name + ": " + Join(e.deps, ", ")
  }

  /** A dependency list as the parser returns it from its own rendering: names without
    * blanks, commas or colons. */
  predicate EntryWellFormed(e: Entry) {
    IsToken(e.name) && ':' !in e.name && forall d | d in e.deps :: IsToken(d)
  }

  /** Reading back a rendered entry gives the entry, a package with no dependencies included. */
  lemma EntryRoundTrip(e: Entry)
    requires EntryWellFormed(e)
    ensures LineEntry(RenderEntry(e)) == Some(e)
  {
    if e.deps == [] {
      EmptyEntryRoundTrip(e);
      return;
    }
    var line := RenderEntry(e);
    var body := Join(e.deps, ", ");
    RenderedDeps(e.deps);
    EntryLineStripped(e.name, body);
    assert line == e.name + ":" + (" " + body);
    ColonIndex(e.name, " " + body);
    assert line[|e.name| + 1..] == " " + body;
    assert line[..|e.name|] == e.name;
    TokenStripped(e.name);
  }

  /** The line `name: ` holds the name with an empty list: `strip()` drops the trailing blank
    * and nothing follows the colon. */
  lemma EmptyEntryRoundTrip(e: Entry)
    requires IsToken(e.name) && ':' !in e.name && e.deps == []
    ensures LineEntry(RenderEntry(e)) == Some(e)
  {
    var s := e.name + ":";
    assert RenderEntry(e) == s + " ";
    assert e.name[0] in e.name && s[0] == e.name[0];
    StripTrailingBlank(s);
    ColonIndex(e.name, []);
    assert s == e.name + ":" + [];
    assert s[|e.name| + 1..] == [] && s[..|e.name|] == e.name;
    TokenStripped(e.name);
    EntryDepsEmpty();
  }

  /** A line with nothing after the colon has no dependencies. */
  lemma EntryDepsEmpty()
    ensures EntryDeps([]) == []
  {
    assert Split([], ',') == [[]];
    assert StripAll([[]]) == [[]];
  }

  /** `strip()` drops one trailing blank from a text that starts with a non-blank and ends in one. */
  lemma StripTrailingBlank(s: string)
    requires s != [] && !IsSpace(s[0]) && !IsSpace(s[|s| - 1])
    ensures Strip(s + " ") == s
  {
    var t := s + " ";
    assert t[0] == s[0] && t[|t| - 1] == ' ' && t[..|t| - 1] == s;
    StripFixedPoint(s);
  }

  /** The list after the colon reads back as the names it was written from. */
  lemma RenderedDeps(deps: seq<string>)
    requires deps != [] && forall d | d in deps :: IsToken(d)
    ensures EntryDeps(" " + Join(deps, ", ")) == deps
    ensures Join(deps, ", ") != [] && !IsSpace(Join(deps, ", ")[|Join(deps, ", ")| - 1])
  {
    JoinCommaBlank(deps);
    BlankJoin(deps[0], Blanked(deps[1..]));
    assert Blanked(deps) == [" " + deps[0]] + Blanked(deps[1..]);
    assert " " + Join(deps, ", ") == Join(Blanked(deps), ",");
    TokensJoinStripped(deps);
    BlankedSplit(deps);
  }

  lemma TokenStripped(n: string)
    requires IsToken(n)
    ensures Strip(n) == n
  {
    assert n[0] in n && n[|n| - 1] in n;
    StripFixedPoint(n);
  }

  /** Joining names with `", "` leaves a text that ends in a name. */
  lemma TokensJoinStripped(deps: seq<string>)
    requires deps != [] && forall d | d in deps :: IsToken(d)
    ensures Join(deps, ", ") != [] && !IsSpace(Join(deps, ", ")[|Join(deps, ", ")| - 1])
  {
    var last := deps[|deps| - 1];
    assert last in deps;
    assert last[|last| - 1] in last;
    JoinLast(deps, ", ");
  }

  /** A join ends with the last character of its last part. */
  lemma {:induction false} JoinLast(parts: seq<string>, sep: string)
    requires parts != [] && parts[|parts| - 1] != []
    ensures var j := Join(parts, sep); j != [] && j[|j| - 1] == parts[|parts| - 1][|parts[|parts| - 1]| - 1]
    decreases |parts|
  {
    if |parts| > 1 {
      assert parts[1..][|parts| - 2] == parts[|parts| - 1];
      JoinLast(parts[1..], sep);
    }
  }

  /** The rendered line is already stripped. */
  lemma EntryLineStripped(name: string, body: string)
    requires IsToken(name) && body != [] && !IsSpace(body[|body| - 1])
    ensures Strip(name + ": " + body) == name + ": " + body
  {
    assert name[0] in name;
    StripFixedPoint(name + ": " + body);
  }

  /** With no colon in the name, the first colon is the one after it. */
  lemma ColonIndex(name: string, rest: string)
    requires ':' !in name
    ensures ':' in name + ":" + rest && IndexOf(name + ":" + rest, ':') == |name|
  {
    var s := name + ":" + rest;
    assert s[|name|] == ':';
    var k := IndexOf(s, ':');
    assert forall i | 0 <= i < |name| :: s[i] == name[i] && name[i] in name;
    assert forall i | 0 <= i < k :: s[..k][i] == s[i];
  }

  /** The names come back from the blank-prefixed pieces after the colon. */
  lemma BlankedSplit(deps: seq<string>)
    requires deps != [] && forall d | d in deps :: IsToken(d)
    ensures EntryDeps(Join(Blanked(deps), ",")) == deps
  {
    var pieces := Blanked(deps);
    BlankedNoComma(deps);
    SplitJoin(pieces, ',');
    StripBlanked(deps);
    assert forall i | 0 <= i < |deps| :: deps[i] in deps;
    assert NonEmpty(StripAll(Split(Join(pieces, ","), ','))) == NonEmpty(deps) == deps;
  }

  lemma BlankedNoComma(deps: seq<string>)
    requires forall d | d in deps :: IsToken(d)
    ensures forall p | p in Blanked(deps) :: ',' !in p
  {
    forall p | p in Blanked(deps) ensures ',' !in p {
      var i :| 0 <= i < |deps| && Blanked(deps)[i] == p;
      assert deps[i] in deps;
    }
  }

  /** Stripping the blank-prefixed names gives back the names. */
  lemma StripBlanked(deps: seq<string>)
    requires forall d | d in deps :: IsToken(d)
    ensures StripAll(Blanked(deps)) == deps
  {
    forall i | 0 <= i < |deps| ensures Strip(Blanked(deps)[i]) == deps[i] {
      assert deps[i] in deps;
      TokenStripped(deps[i]);
      StripLeadingBlank(deps[i]);
    }
  }
}
