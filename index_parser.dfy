/** `parse_package_dependencies` (main.py:108-152): the direct dependencies of one package,
  * read from the text of a Debian `Packages` index. */
module IndexParser {
  import opened Strings
  import opened Collections
  import opened Clauses

  const PackageField := "Package: "
  const DependsField := "Depends: "

  /** `text.split('\n')`: lines are neither stripped nor dropped. */
  function Lines(text: string): seq<string> {
    Split(text, '\n')
  }

  predicate IsPackageLine(line: string) {
    PackageField <= line
  }

  predicate IsDependsLine(line: string) {
    DependsField <= line
  }

  /** No line is both a `Depends:` line and a `Package:` line. */
  lemma FieldsExclusive(line: string)
    ensures !(IsDependsLine(line) && IsPackageLine(line))
  {
    if IsDependsLine(line) {
      assert line[0] == DependsField[0] != PackageField[0];
    }
  }

  /** The dependency names on a `Depends:` line. */
  function LineDeps(line: string): (names: seq<string>)
    requires IsDependsLine(line)
    ensures forall n | n in names :: n != [] && Stripped(n) && ',' !in n
  {
    DependsNames(line[|DependsField|..])
  }

  /** `line` opens the stanza of `name`: the text after `Package: ` is exactly `name`, so a
    * name that is only a prefix or a part of another package's name never matches. */
  predicate OpensStanza(line: string, name: string) {
    IsPackageLine(line) && line[|PackageField|..] == name
  }

  /** Only the line `Package: <name>` itself opens the stanza of `name`. */
  lemma OpensStanzaExactly(line: string, name: string)
    ensures OpensStanza(line, name) <==> line == PackageField + name
  {
    if IsPackageLine(line) {
      assert line == PackageField + line[|PackageField|..];
    }
  }

  /** Every dependency name that any `Depends:` line of `lines` mentions. */
  function DependsUniverse(lines: seq<string>): set<string>
  {
    if lines == [] then {}
    else (if IsDependsLine(lines[0]) then Elems(LineDeps(lines[0])) else {}) + DependsUniverse(lines[1..])
  }

  /** The names the scan of main.py:118-142 collects from `lines`, in order and with repeats;
    * `inTarget` is the state of the `in_target_package` flag. */
  function Collect(lines: seq<string>, name: string, inTarget: bool): (deps: seq<string>)
    ensures forall d | d in deps :: d != [] && Stripped(d)
    ensures Elems(deps) <= DependsUniverse(lines)
    decreases |lines|
  {
    if lines == [] then []
    else
      var line := lines[0];
      if OpensStanza(line, name) then Collect(lines[1..], name, true)
      else if !inTarget then Collect(lines[1..], name, false)
      else if IsDependsLine(line) then
        ElemsConcat(LineDeps(line), Collect(lines[1..], name, true));
        LineDeps(line) + Collect(lines[1..], name, true)
      else if IsPackageLine(line) then []
      else Collect(lines[1..], name, true)
  }

  /** The set of direct dependencies `parse_package_dependencies(text, name)` returns. */
  function ParsedNames(text: string, name: string): set<string> {
    Elems(Collect(Lines(text), name, false))
  }

  /** The names on the `Depends:` lines of a stanza body, up to the next `Package:` line. */
  function StanzaDeps(lines: seq<string>): seq<string>
    decreases |lines|
  {
    if lines == [] || IsPackageLine(lines[0]) then []
    else if IsDependsLine(lines[0]) then LineDeps(lines[0]) + StanzaDeps(lines[1..])
    else StanzaDeps(lines[1..])
  }

  /** `parse_package_dependencies`: scans the lines once, switching into the target stanza at
    * its `Package:` line and out at the next `Package:` line, and returns the collected
    * names without duplicates (in an order Python leaves open). */
  method ParsePackageDependencies(text: string, name: string) returns (deps: seq<string>)
    ensures NoDups(deps)
    ensures Elems(deps) == ParsedNames(text, name)
    ensures forall d | d in deps :: d != [] && Stripped(d)
  {
    var lines := Lines(text);
    var inTarget := false;
    var collected: seq<string> := [];
    var i := 0;
    while i < |lines|
      invariant 0 <= i <= |lines|
      invariant collected + Collect(lines[i..], name, inTarget) == Collect(lines, name, false)
    {
      var line := lines[i];
      assert lines[i..] == [line] + lines[i + 1..];
      if OpensStanza(line, name) {
        inTarget := true;
        i := i + 1;
        continue;
      }
      if inTarget {
        if IsDependsLine(line) {
          collected := collected + LineDeps(line);
        } else if IsPackageLine(line) {
          assert collected == Collect(lines, name, false);
          break;
        }
      }
      i := i + 1;
    }
    assert collected == Collect(lines, name, false) by {
      if i == |lines| { assert lines[i..] == []; }
    }
    // The emptiness filter of main.py:145 never removes anything: no collected name is empty.
    deps := Distinct(collected);
    assert forall d | d in deps :: d in Elems(collected);
  }

  /** Without a `Package:` line naming it exactly, a package has no dependencies. */
  lemma {:induction false} NoStanzaNoDeps(lines: seq<string>, name: string)
    requires forall i | 0 <= i < |lines| :: !OpensStanza(lines[i], name)
    ensures Collect(lines, name, false) == []
    decreases |lines|
  {
    if lines != [] {
      assert forall i | 0 <= i < |lines| - 1 :: lines[1..][i] == lines[i + 1];
      NoStanzaNoDeps(lines[1..], name);
    }
  }

  /** Inside the target stanza, the scan collects exactly the stanza body's `Depends:` lines,
    * all of them, when the name is not opened again. */
  lemma {:induction false} InStanza(lines: seq<string>, name: string)
    requires forall i | 0 <= i < |lines| :: !OpensStanza(lines[i], name)
    ensures Collect(lines, name, true) == StanzaDeps(lines)
    decreases |lines|
  {
    if lines != [] {
      assert forall i | 0 <= i < |lines| - 1 :: lines[1..][i] == lines[i + 1];
      FieldsExclusive(lines[0]);
      InStanza(lines[1..], name);
    }
  }

  /** With the package's stanza opened once, after `pre` and before `post`, the parser returns
    * the names of the stanza body: every `Depends:` line up to the next `Package:` line. */
  lemma StanzaCollected(pre: seq<string>, post: seq<string>, name: string)
    requires forall i | 0 <= i < |pre| :: !OpensStanza(pre[i], name)
    requires forall i | 0 <= i < |post| :: !OpensStanza(post[i], name)
    ensures Collect(pre + [PackageField + name] + post, name, false) == StanzaDeps(post)
  {
    SkipUntilStanza(pre, [PackageField + name] + post, name);
    assert pre + [PackageField + name] + post == pre + ([PackageField + name] + post);
    assert ([PackageField + name] + post)[1..] == post;
    InStanza(post, name);
  }

  /** With the package's stanza opened at line `k` only, the parser returns the names of that
    * stanza's body. */
  lemma {:induction false} CollectAt(lines: seq<string>, name: string, k: nat)
    requires k < |lines| && OpensStanza(lines[k], name)
    requires forall i | 0 <= i < |lines| && i != k :: !OpensStanza(lines[i], name)
    ensures Collect(lines, name, false) == StanzaDeps(lines[k + 1..])
    decreases k
  {
    var rest := lines[1..];
    assert forall i | 0 <= i < |rest| :: rest[i] == lines[i + 1];
    if k == 0 {
      InStanza(rest, name);
    } else {
      assert rest[k - 1..][1..] == lines[k + 1..];
      CollectAt(rest, name, k - 1);
    }
  }

  /** Lines before the stanza are passed over. */
  lemma {:induction false} SkipUntilStanza(pre: seq<string>, rest: seq<string>, name: string)
    requires forall i | 0 <= i < |pre| :: !OpensStanza(pre[i], name)
    ensures Collect(pre + rest, name, false) == Collect(rest, name, false)
    decreases |pre|
  {
    if pre != [] {
      assert (pre + rest)[0] == pre[0];
      assert (pre + rest)[1..] == pre[1..] + rest;
      SkipUntilStanza(pre[1..], rest, name);
    } else {
      assert pre + rest == rest;
    }
  }

  /** Some stanza of `name` lists `t` on one of its `Depends:` lines. */
  predicate DeclaresDependency(lines: seq<string>, name: string, t: string) {
    exists i | 0 <= i < |lines| :: OpensStanza(lines[i], name) && t in StanzaDeps(lines[i + 1..])
  }

  /** A stanza either opens at the first line or further down. */
  lemma DeclaresCons(lines: seq<string>, name: string, t: string)
    requires lines != []
    ensures DeclaresDependency(lines, name, t) <==>
      (OpensStanza(lines[0], name) && t in StanzaDeps(lines[1..])) || DeclaresDependency(lines[1..], name, t)
  {
    if DeclaresDependency(lines, name, t) {
      var i :| 0 <= i < |lines| && OpensStanza(lines[i], name) && t in StanzaDeps(lines[i + 1..]);
      if i > 0 {
        assert lines[1..][i - 1] == lines[i] && lines[1..][i..] == lines[i + 1..];
      }
    }
    if DeclaresDependency(lines[1..], name, t) {
      var i :| 0 <= i < |lines| - 1 && OpensStanza(lines[1..][i], name) && t in StanzaDeps(lines[1..][i + 1..]);
      assert lines[1..][i + 1..] == lines[i + 2..];
      assert OpensStanza(lines[i + 1], name) && t in StanzaDeps(lines[i + 2..]);
    }
  }

  /** Everything the scan collects comes from a `Depends:` line of a stanza of the package. */
  lemma {:induction false} CollectDeclared(lines: seq<string>, name: string, inTarget: bool, t: string)
    ensures t in Collect(lines, name, inTarget) ==>
      (inTarget && t in StanzaDeps(lines)) || DeclaresDependency(lines, name, t)
    decreases |lines|
  {
    if lines != [] {
      DeclaresCons(lines, name, t);
      FieldsExclusive(lines[0]);
      if OpensStanza(lines[0], name) {
        CollectDeclared(lines[1..], name, true, t);
      } else {
        CollectDeclared(lines[1..], name, inTarget, t);
      }
    }
  }
}
