/** `build_dependency_graph_bfs` (main.py:186-260): a breadth-first walk from the start package
  * that records every package it reaches, cut off at a depth limit and by a name filter. */
module GraphBuilder {
  import opened Strings
  import opened Collections
  import opened IndexParser
  import opened TestMode
  import opened DependencyGraph

  /** The settings the walk reads. */
  datatype Config = Config(maxDepth: int, filterSubstring: string, testMode: bool)

  /** A queue item: a package and the depth at which it was reached. */
  datatype Pending = Pending(name: string, depth: nat)

  /** `config['filter_substring'] and config['filter_substring'] in name`: an empty filter
    * matches nothing. */
  predicate Filtered(filter: string, name: string) {
    filter != [] && Contains(name, filter)
  }

  /** `not packages_content` outside test mode: the download gave nothing, or an empty text. */
  predicate FetchFailed(config: Config, fetched: Option<string>) {
    !config.testMode && (fetched.None? || fetched.value == [])
  }

  /** The index text the walk reads, when there is one. */
  function Content(fetched: Option<string>): string {
    if fetched.Some? then fetched.value else []
  }

  /** The list a looked-up package gets: the test table in test mode, otherwise the parser's
    * answer for it in the index text (a duplicate-free list in some order). */
  ghost predicate LookedUp(config: Config, text: string, name: string, deps: seq<string>) {
    if config.testMode then deps == TestDependencies(name)
    else NoDups(deps) && Elems(deps) == ParsedNames(text, name)
  }

  /** The entry of a package first dequeued at `depth`: empty at or beyond the depth limit, else
    * empty when the filter matches, else looked up. */
  ghost predicate EntryRule(config: Config, text: string, name: string, depth: nat, deps: seq<string>) {
    if depth >= config.maxDepth || Filtered(config.filterSubstring, name) then deps == []
    else LookedUp(config, text, name, deps)
  }

  /** The items `for dep in deps: if dep not in visited: queue.append((dep, depth))` adds. */
  function Unvisited(deps: seq<string>, visited: set<string>, depth: nat): (items: seq<Pending>)
    ensures forall it | it in items :: it.depth == depth && it.name in deps && it.name !in visited
    ensures forall d | d in deps && d !in visited :: Pending(d, depth) in items
  {
    if deps == [] then []
    else
      var init := deps[..|deps| - 1];
      assert forall d | d in init :: d in deps;
      assert deps == init + [deps[|deps| - 1]];
      Unvisited(init, visited, depth)
      + (if deps[|deps| - 1] !in visited then [Pending(deps[|deps| - 1], depth)] else [])
  }

  /** The loop of main.py:198-200 and main.py:250-252: appends each dependency not yet visited. */
  method Enqueue(queue: seq<Pending>, deps: seq<string>, visited: set<string>, depth: nat)
    returns (q: seq<Pending>)
    ensures q == queue + Unvisited(deps, visited, depth)
  {
    q := queue;
    var i := 0;
    while i < |deps|
      invariant 0 <= i <= |deps|
      invariant q == queue + Unvisited(deps[..i], visited, depth)
    {
      assert deps[..i + 1][..i] == deps[..i];
      ghost var added := if deps[i] !in visited then [Pending(deps[i], depth)] else [];
      assert Unvisited(deps[..i + 1], visited, depth) == Unvisited(deps[..i], visited, depth) + added;
      if deps[i] !in visited {
        q := q + [Pending(deps[i], depth)];
      }
      assert q == queue + (Unvisited(deps[..i], visited, depth) + added);
      i := i + 1;
    }
    assert deps[..i] == deps;
  }

  // The state of the walk: the graph, the depth at which each of its keys was first dequeued
  // (the root at 0), and the queue. The predicates below make up the loop invariant.

  /** The root leads the keys with its initial list, and the depths cover exactly the keys. */
  ghost predicate Shape(root: string, initial: seq<string>, g: Graph, depth: map<string, nat>) {
    g.Valid() && g.keys != [] && g.keys[0] == root && root in g.deps && g.deps[root] == initial
    && depth.Keys == g.deps.Keys && depth[root] == 0
  }

  /** Every other key was dequeued at depth one or more and got the entry the rules give it. */
  ghost predicate Entries(config: Config, text: string, root: string, g: Graph, depth: map<string, nat>) {
    forall k | k in g.deps && k != root :: k in depth && depth[k] >= 1 && EntryRule(config, text, k, depth[k], g.deps[k])
  }

  /** `n` is listed by a key one level above `d`. */
  ghost predicate HasParent(g: Graph, depth: map<string, nat>, n: string, d: nat) {
    exists p | p in g.deps && p in depth :: n in g.deps[p] && depth[p] + 1 == d
  }

  /** Every key but the root was reached from a key one level up. */
  ghost predicate Parents(root: string, g: Graph, depth: map<string, nat>) {
    forall k | k in g.deps && k != root :: k in depth && HasParent(g, depth, k, depth[k])
  }

  /** Every item in the queue was listed by a key one level above it. */
  ghost predicate QueueParents(g: Graph, depth: map<string, nat>, queue: seq<Pending>) {
    forall i | 0 <= i < |queue| :: HasParent(g, depth, queue[i].name, queue[i].depth)
  }

  /** First in, first out: depths in the queue never decrease, span at most two levels, and
    * are never below the depth of a key already recorded. */
  ghost predicate QueueOrdered(depth: map<string, nat>, queue: seq<Pending>) {
    (forall i, j | 0 <= i < j < |queue| :: queue[i].depth <= queue[j].depth)
    && (forall i | 0 <= i < |queue| :: 1 <= queue[i].depth <= queue[0].depth + 1)
    && (forall k | k in depth :: queue != [] ==> depth[k] <= queue[0].depth)
  }

  /** `c` is recorded at depth `d` or less, or waits in the queue at such a depth. */
  ghost predicate Covered(depth: map<string, nat>, queue: seq<Pending>, c: string, d: nat) {
    (c in depth && depth[c] <= d)
    || exists i | 0 <= i < |queue| :: queue[i].name == c && queue[i].depth <= d
  }

  /** Every listed dependency is recorded or queued at most one level below its lister. */
  ghost predicate PendingClosure(g: Graph, depth: map<string, nat>, queue: seq<Pending>) {
    forall k, c | k in g.deps && k in depth && c in g.deps[k] :: Covered(depth, queue, c, depth[k] + 1)
  }

  /** Every listed dependency is a key at most one level below its lister. */
  ghost predicate Closed(g: Graph, depth: map<string, nat>) {
    forall k, c | k in g.deps && k in depth && c in g.deps[k] :: c in g.deps && c in depth && depth[c] <= depth[k] + 1
  }

  /** The keys in insertion order are in order of the depth at which they were first dequeued. */
  ghost predicate KeysByDepth(g: Graph, depth: map<string, nat>) {
    forall i, j | 0 <= i < j < |g.keys| :: g.keys[i] in depth && g.keys[j] in depth && depth[g.keys[i]] <= depth[g.keys[j]]
  }

  ghost predicate Inv(config: Config, text: string, root: string, initial: seq<string>,
                      g: Graph, depth: map<string, nat>, queue: seq<Pending>)
  {
    Shape(root, initial, g, depth) && Entries(config, text, root, g, depth) && Parents(root, g, depth)
    && QueueParents(g, depth, queue) && QueueOrdered(depth, queue) && PendingClosure(g, depth, queue)
  }

  /** Every name the walk can meet. */
  ghost function Universe(config: Config, text: string, root: string, initial: seq<string>): set<string> {
    {root} + Elems(initial) + (if config.testMode then TestNames else DependsUniverse(Lines(text)))
  }

  /** Adding a new key keeps every parent link. */
  lemma HasParentGrow(g: Graph, depth: map<string, nat>, n: string, deps: seq<string>, d: nat,
                      x: string, e: nat)
    requires g.Valid() && n !in g.deps && HasParent(g, depth, x, e)
    ensures HasParent(g.Put(n, deps), depth[n := d], x, e)
  {
    var p :| p in g.deps && p in depth && x in g.deps[p] && depth[p] + 1 == e;
    assert p in g.Put(n, deps).deps && p in depth[n := d];
  }

  /** The walk starts from the root and its initial items. */
  lemma InitInv(config: Config, text: string, root: string, initial: seq<string>)
    ensures Inv(config, text, root, initial, Single(root, initial), map[root := 0],
                Unvisited(initial, {root}, 1))
  {
    InitQueue(root, initial);
    InitClosure(root, initial);
  }

  lemma InitQueue(root: string, initial: seq<string>)
    ensures QueueParents(Single(root, initial), map[root := 0], Unvisited(initial, {root}, 1))
    ensures QueueOrdered(map[root := 0], Unvisited(initial, {root}, 1))
  {
    var g, depth, queue := Single(root, initial), map[root := 0], Unvisited(initial, {root}, 1);
    forall i | 0 <= i < |queue| ensures queue[i].depth == 1 && queue[i].name in g.deps[root] {
      assert queue[i] in queue;
    }
    forall i | 0 <= i < |queue| ensures HasParent(g, depth, queue[i].name, queue[i].depth) {
      assert root in g.deps && root in depth;
    }
  }

  lemma InitClosure(root: string, initial: seq<string>)
    ensures PendingClosure(Single(root, initial), map[root := 0], Unvisited(initial, {root}, 1))
  {
    var g, depth, queue := Single(root, initial), map[root := 0], Unvisited(initial, {root}, 1);
    forall k, c | k in g.deps && k in depth && c in g.deps[k] ensures Covered(depth, queue, c, depth[k] + 1) {
      if c != root {
        assert Pending(c, 1) in queue;
        var i :| 0 <= i < |queue| && queue[i] == Pending(c, 1);
      }
    }
  }

  /** Dropping an item for a package already visited keeps the invariant. */
  lemma SkipInv(config: Config, text: string, root: string, initial: seq<string>,
                g: Graph, depth: map<string, nat>, queue: seq<Pending>)
    requires Inv(config, text, root, initial, g, depth, queue)
    requires queue != [] && queue[0].name in g.deps
    ensures Inv(config, text, root, initial, g, depth, queue[1..])
  {
    SkipQueue(g, depth, queue);
    SkipClosure(g, depth, queue);
  }

  lemma SkipQueue(g: Graph, depth: map<string, nat>, queue: seq<Pending>)
    requires QueueParents(g, depth, queue) && QueueOrdered(depth, queue) && queue != []
    ensures QueueParents(g, depth, queue[1..]) && QueueOrdered(depth, queue[1..])
  {
    var rest := queue[1..];
    assert forall i | 0 <= i < |rest| :: rest[i] == queue[i + 1];
  }

  lemma SkipClosure(g: Graph, depth: map<string, nat>, queue: seq<Pending>)
    requires PendingClosure(g, depth, queue) && queue != []
    requires queue[0].name in depth && depth[queue[0].name] <= queue[0].depth
    ensures PendingClosure(g, depth, queue[1..])
  {
    var rest := queue[1..];
    forall k, c | k in g.deps && k in depth && c in g.deps[k] ensures Covered(depth, rest, c, depth[k] + 1) {
      if !(c in depth && depth[c] <= depth[k] + 1) {
        var i :| 0 <= i < |queue| && queue[i].name == c && queue[i].depth <= depth[k] + 1;
        assert i != 0;
        assert rest[i - 1] == queue[i];
      }
    }
  }

  /** The state after the first visit of the queue's head `n` at depth `d`. */
  ghost predicate Visited(g: Graph, depth: map<string, nat>, queue: seq<Pending>, deps: seq<string>,
                          g': Graph, depth': map<string, nat>, queue': seq<Pending>)
    requires g.Valid() && queue != []
  {
    var n, d := queue[0].name, queue[0].depth;
    g' == g.Put(n, deps) && depth' == depth[n := d]
    && queue' == queue[1..] + Unvisited(deps, g'.deps.Keys, d + 1)
  }

  lemma VisitShape(root: string, initial: seq<string>, g: Graph, depth: map<string, nat>,
                   queue: seq<Pending>, deps: seq<string>, g': Graph, depth': map<string, nat>, queue': seq<Pending>)
    requires Shape(root, initial, g, depth) && queue != [] && queue[0].name !in g.deps
    requires Visited(g, depth, queue, deps, g', depth', queue')
    ensures Shape(root, initial, g', depth')
  {
  }

  lemma VisitEntries(config: Config, text: string, root: string, initial: seq<string>, g: Graph,
                     depth: map<string, nat>, queue: seq<Pending>, deps: seq<string>,
                     g': Graph, depth': map<string, nat>, queue': seq<Pending>)
    requires Shape(root, initial, g, depth) && Entries(config, text, root, g, depth)
    requires QueueOrdered(depth, queue) && queue != [] && queue[0].name !in g.deps
    requires EntryRule(config, text, queue[0].name, queue[0].depth, deps)
    requires Visited(g, depth, queue, deps, g', depth', queue')
    ensures Entries(config, text, root, g', depth')
  {
  }

  lemma VisitParents(root: string, initial: seq<string>, g: Graph, depth: map<string, nat>,
                     queue: seq<Pending>, deps: seq<string>, g': Graph, depth': map<string, nat>, queue': seq<Pending>)
    requires Shape(root, initial, g, depth) && Parents(root, g, depth) && QueueParents(g, depth, queue)
    requires queue != [] && queue[0].name !in g.deps
    requires Visited(g, depth, queue, deps, g', depth', queue')
    ensures Parents(root, g', depth')
  {
    var n, d := queue[0].name, queue[0].depth;
    forall k | k in g'.deps && k != root ensures k in depth' && HasParent(g', depth', k, depth'[k]) {
      if k == n {
        HasParentGrow(g, depth, n, deps, d, n, d);
      } else {
        HasParentGrow(g, depth, n, deps, d, k, depth[k]);
      }
    }
  }

  lemma VisitQueueParents(root: string, initial: seq<string>, g: Graph, depth: map<string, nat>,
                          queue: seq<Pending>, deps: seq<string>, g': Graph, depth': map<string, nat>, queue': seq<Pending>)
    requires Shape(root, initial, g, depth) && QueueParents(g, depth, queue)
    requires queue != [] && queue[0].name !in g.deps
    requires Visited(g, depth, queue, deps, g', depth', queue')
    ensures QueueParents(g', depth', queue')
  {
    var n, d := queue[0].name, queue[0].depth;
    var pushed := Unvisited(deps, g'.deps.Keys, d + 1);
    forall i | 0 <= i < |queue'| ensures HasParent(g', depth', queue'[i].name, queue'[i].depth) {
      if i < |queue| - 1 {
        assert queue'[i] == queue[i + 1];
        HasParentGrow(g, depth, n, deps, d, queue[i + 1].name, queue[i + 1].depth);
      } else {
        assert queue'[i] == pushed[i - (|queue| - 1)] && queue'[i] in pushed;
        assert n in g'.deps && n in depth' && queue'[i].name in g'.deps[n];
      }
    }
  }

  /** Items pushed one level below the dequeued head keep the queue in order. */
  lemma VisitOrdered(depth: map<string, nat>, queue: seq<Pending>, pushed: seq<Pending>, n: string)
    requires QueueOrdered(depth, queue) && queue != []
    requires forall it | it in pushed :: it.depth == queue[0].depth + 1
    ensures QueueOrdered(depth[n := queue[0].depth], queue[1..] + pushed)
  {
    var d := queue[0].depth;
    var q := queue[1..] + pushed;
    VisitedQueue(queue, pushed, d);
    if q != [] {
      assert d <= q[0].depth;
    }
  }

  /** The queue after a visit: the old tail, then items one level below the visited head. */
  lemma VisitedQueue(queue: seq<Pending>, pushed: seq<Pending>, d: nat)
    requires queue != [] && d == queue[0].depth
    requires (forall i, j | 0 <= i < j < |queue| :: queue[i].depth <= queue[j].depth)
    requires forall i | 0 <= i < |queue| :: 1 <= queue[i].depth <= d + 1
    requires forall it | it in pushed :: it.depth == d + 1
    ensures forall i, j | 0 <= i < j < |queue[1..] + pushed| ::
      (queue[1..] + pushed)[i].depth <= (queue[1..] + pushed)[j].depth
    ensures forall i | 0 <= i < |queue[1..] + pushed| :: 1 <= d <= (queue[1..] + pushed)[i].depth <= d + 1
  {
    var q := queue[1..] + pushed;
    assert forall i | 0 <= i < |pushed| :: pushed[i] in pushed;
    assert forall i | 0 <= i < |q| :: q[i] == if i < |queue| - 1 then queue[i + 1] else pushed[i - (|queue| - 1)];
  }

  lemma VisitClosure(g: Graph, depth: map<string, nat>, queue: seq<Pending>, deps: seq<string>,
                     g': Graph, depth': map<string, nat>, queue': seq<Pending>)
    requires g.Valid() && depth.Keys == g.deps.Keys
    requires QueueOrdered(depth, queue) && PendingClosure(g, depth, queue)
    requires queue != [] && queue[0].name !in g.deps
    requires Visited(g, depth, queue, deps, g', depth', queue')
    ensures PendingClosure(g', depth', queue')
  {
    var n, d := queue[0].name, queue[0].depth;
    forall k, c | k in g'.deps && k in depth' && c in g'.deps[k] ensures Covered(depth', queue', c, depth'[k] + 1) {
      if k == n {
        VisitClosureNew(g, depth, queue, deps, g', depth', queue', c);
      } else {
        VisitClosureOld(g, depth, queue, deps, g', depth', queue', k, c);
      }
    }
  }

  /** The visited head's own dependencies are recorded or were just queued one level below. */
  lemma VisitClosureNew(g: Graph, depth: map<string, nat>, queue: seq<Pending>, deps: seq<string>,
                        g': Graph, depth': map<string, nat>, queue': seq<Pending>, c: string)
    requires g.Valid() && depth.Keys == g.deps.Keys && QueueOrdered(depth, queue) && queue != []
    requires Visited(g, depth, queue, deps, g', depth', queue')
    requires c in deps
    ensures Covered(depth', queue', c, queue[0].depth + 1)
  {
    var d := queue[0].depth;
    var pushed := Unvisited(deps, g'.deps.Keys, d + 1);
    if c !in depth' {
      assert Pending(c, d + 1) in pushed;
      var j :| 0 <= j < |pushed| && pushed[j] == Pending(c, d + 1);
      assert queue'[|queue| - 1 + j] == pushed[j];
    }
  }

  /** An older key's dependencies stay covered: a queued item other than the head stays queued,
    * and the head is now recorded at its own depth. */
  lemma VisitClosureOld(g: Graph, depth: map<string, nat>, queue: seq<Pending>, deps: seq<string>,
                        g': Graph, depth': map<string, nat>, queue': seq<Pending>, k: string, c: string)
    requires g.Valid() && depth.Keys == g.deps.Keys
    requires PendingClosure(g, depth, queue)
    requires queue != [] && queue[0].name !in g.deps
    requires Visited(g, depth, queue, deps, g', depth', queue')
    requires k in g.deps && c in g.deps[k]
    ensures Covered(depth', queue', c, depth[k] + 1)
  {
    assert Covered(depth, queue, c, depth[k] + 1);
    if !(c in depth && depth[c] <= depth[k] + 1) {
      var i :| 0 <= i < |queue| && queue[i].name == c && queue[i].depth <= depth[k] + 1;
      if i > 0 {
        assert queue'[i - 1] == queue[i];
      }
    }
  }

  /** Visiting the head of the queue for the first time keeps the invariant. */
  lemma VisitInv(config: Config, text: string, root: string, initial: seq<string>,
                 g: Graph, depth: map<string, nat>, queue: seq<Pending>, deps: seq<string>,
                 g': Graph, depth': map<string, nat>, queue': seq<Pending>)
    requires Inv(config, text, root, initial, g, depth, queue)
    requires queue != [] && queue[0].name !in g.deps
    requires EntryRule(config, text, queue[0].name, queue[0].depth, deps)
    requires Visited(g, depth, queue, deps, g', depth', queue')
    ensures Inv(config, text, root, initial, g', depth', queue')
  {
    VisitShape(root, initial, g, depth, queue, deps, g', depth', queue');
    VisitEntries(config, text, root, initial, g, depth, queue, deps, g', depth', queue');
    VisitParents(root, initial, g, depth, queue, deps, g', depth', queue');
    VisitQueueParents(root, initial, g, depth, queue, deps, g', depth', queue');
    VisitOrdered(depth, queue, Unvisited(deps, g'.deps.Keys, queue[0].depth + 1), queue[0].name);
    VisitClosure(g, depth, queue, deps, g', depth', queue');
  }

  /** Once the queue is empty, every listed dependency is a key. */
  lemma DoneClosed(g: Graph, depth: map<string, nat>)
    requires depth.Keys == g.deps.Keys && PendingClosure(g, depth, [])
    ensures Closed(g, depth)
  {
  }

  /** Every name the walk can meet lies in its universe. */
  ghost predicate InUniverse(u: set<string>, visited: set<string>, queue: seq<Pending>) {
    visited <= u && forall i | 0 <= i < |queue| :: queue[i].name in u
  }

  /** Looked-up names stay in the universe. */
  lemma LookedUpInUniverse(config: Config, text: string, root: string, initial: seq<string>,
                           name: string, deps: seq<string>)
    requires LookedUp(config, text, name, deps)
    ensures forall d | d in deps :: d in Universe(config, text, root, initial)
  {
    if config.testMode {
      TestDependenciesNamed(name);
    } else {
      assert forall d | d in deps :: d in Elems(Collect(Lines(text), name, false));
    }
  }

  lemma EnqueuedInUniverse(u: set<string>, visited: set<string>, queue: seq<Pending>,
                           deps: seq<string>, visited': set<string>, d: nat)
    requires InUniverse(u, visited, queue) && queue != []
    requires forall x | x in deps :: x in u
    ensures forall i | 0 <= i < |queue[1..] + Unvisited(deps, visited', d)| ::
      (queue[1..] + Unvisited(deps, visited', d))[i].name in u
  {
    var q := queue[1..] + Unvisited(deps, visited', d);
    forall i | 0 <= i < |q| ensures q[i].name in u {
      if i < |queue| - 1 {
        assert q[i] == queue[i + 1];
      } else {
        assert q[i] in Unvisited(deps, visited', d);
      }
    }
  }

  /** The whole loop invariant of the walk: `visited` is the set of keys, and every name met so
    * far lies in the universe `u`. */
  ghost predicate Walking(config: Config, text: string, root: string, initial: seq<string>, u: set<string>,
                          g: Graph, depth: map<string, nat>, visited: set<string>, queue: seq<Pending>)
  {
    Inv(config, text, root, initial, g, depth, queue) && visited == g.deps.Keys && InUniverse(u, visited, queue)
  }

  /** The walk's invariant holds for the root and its initial items. */
  lemma InitStep(config: Config, text: string, root: string, initial: seq<string>, u: set<string>)
    requires u == Universe(config, text, root, initial)
    ensures Walking(config, text, root, initial, u, Single(root, initial), map[root := 0], {root},
                    Unvisited(initial, {root}, 1))
  {
    InitInv(config, text, root, initial);
    InitUniverse(config, text, root, initial, u);
  }

  lemma InitUniverse(config: Config, text: string, root: string, initial: seq<string>, u: set<string>)
    requires u == Universe(config, text, root, initial)
    ensures InUniverse(u, {root}, Unvisited(initial, {root}, 1))
  {
    var queue := Unvisited(initial, {root}, 1);
    assert forall i | 0 <= i < |queue| :: queue[i] in queue;
  }

  /** What the walk's invariant says about its result. */
  lemma WalkResult(config: Config, text: string, root: string, initial: seq<string>, u: set<string>,
                   g: Graph, depth: map<string, nat>, visited: set<string>, queue: seq<Pending>)
    requires Walking(config, text, root, initial, u, g, depth, visited, queue)
    ensures Shape(root, initial, g, depth) && Entries(config, text, root, g, depth) && Parents(root, g, depth)
    ensures queue == [] ==> Closed(g, depth)
  {
    if queue == [] {
      DoneClosed(g, depth);
    }
  }

  /** The depth cut-off bounds the walk: a package at the limit gets no dependencies, so no key
    * lies deeper than one level below the root or than the limit itself. */
  lemma DepthBound(config: Config, text: string, root: string, initial: seq<string>, g: Graph,
                   depth: map<string, nat>)
    requires Shape(root, initial, g, depth) && Entries(config, text, root, g, depth) && Parents(root, g, depth)
    ensures forall k | k in g.deps && k != root :: depth[k] <= 1 || depth[k] <= config.maxDepth
  {
    forall k | k in g.deps && k != root ensures depth[k] <= 1 || depth[k] <= config.maxDepth {
      var p :| p in g.deps && p in depth && k in g.deps[p] && depth[p] + 1 == depth[k];
      if p != root {
        assert EntryRule(config, text, p, depth[p], g.deps[p]);
      }
    }
  }

  /** The cut-offs of main.py:226-235 in the built graph: every key but the root that was reached
    * at or beyond the depth limit, or whose name holds a non-empty filter, lists nothing; every
    * other key below the limit has its looked-up list. */
  lemma CutOffs(config: Config, text: string, root: string, initial: seq<string>, g: Graph,
                depth: map<string, nat>)
    requires Shape(root, initial, g, depth) && Entries(config, text, root, g, depth)
    ensures forall k | k in g.deps && k != root && depth[k] >= config.maxDepth :: g.deps[k] == []
    ensures forall k | k in g.deps && k != root && config.filterSubstring != [] && Contains(k, config.filterSubstring)
      :: g.deps[k] == []
    ensures forall k | k in g.deps && k != root && depth[k] < config.maxDepth
      && (config.filterSubstring == [] || !Contains(k, config.filterSubstring)) :: LookedUp(config, text, k, g.deps[k])
  {
  }

  /** A first visit appends the head as the last key, at a depth no smaller than any recorded one. */
  lemma VisitKeysByDepth(g: Graph, depth: map<string, nat>, queue: seq<Pending>, deps: seq<string>)
    requires g.Valid() && depth.Keys == g.deps.Keys && KeysByDepth(g, depth)
    requires QueueOrdered(depth, queue) && queue != [] && queue[0].name !in g.deps
    ensures KeysByDepth(g.Put(queue[0].name, deps), depth[queue[0].name := queue[0].depth])
  {
    var n, d := queue[0].name, queue[0].depth;
    var g', depth' := g.Put(n, deps), depth[n := d];
    assert g'.keys == g.keys + [n];
    forall i, j | 0 <= i < j < |g'.keys|
      ensures g'.keys[i] in depth' && g'.keys[j] in depth' && depth'[g'.keys[i]] <= depth'[g'.keys[j]]
    {
      assert g.keys[i] in Elems(g.keys) && g'.keys[i] == g.keys[i] != n;
      if j < |g.keys| {
        assert g.keys[j] in Elems(g.keys) && g'.keys[j] == g.keys[j] != n;
      }
    }
  }

  /** Dropping an already visited head keeps the walk's invariant. */
  lemma SkipStep(config: Config, text: string, root: string, initial: seq<string>, u: set<string>,
                 g: Graph, depth: map<string, nat>, visited: set<string>, queue: seq<Pending>)
    requires Walking(config, text, root, initial, u, g, depth, visited, queue)
    requires queue != [] && queue[0].name in visited
    ensures Walking(config, text, root, initial, u, g, depth, visited, queue[1..])
  {
    SkipInv(config, text, root, initial, g, depth, queue);
    assert forall i | 0 <= i < |queue| - 1 :: queue[1..][i] == queue[i + 1];
  }

  /** Recording the head's entry and queueing its unvisited dependencies keeps the walk's
    * invariant, and the visited set grows inside the universe. */
  lemma VisitStep(config: Config, text: string, root: string, initial: seq<string>, u: set<string>,
                  g: Graph, depth: map<string, nat>, visited: set<string>, queue: seq<Pending>,
                  deps: seq<string>, visited': set<string>, queue': seq<Pending>)
    requires u == Universe(config, text, root, initial)
    requires Walking(config, text, root, initial, u, g, depth, visited, queue)
    requires queue != [] && queue[0].name !in visited
    requires EntryRule(config, text, queue[0].name, queue[0].depth, deps)
    requires visited' == visited + {queue[0].name}
    requires queue' == queue[1..] + Unvisited(deps, visited', queue[0].depth + 1)
    ensures Walking(config, text, root, initial, u, g.Put(queue[0].name, deps),
                    depth[queue[0].name := queue[0].depth], visited', queue')
    ensures visited < visited' <= u
    ensures u - visited' < u - visited
  {
    VisitStepInv(config, text, root, initial, g, depth, visited, queue, deps, visited', queue');
    VisitStepUniverse(config, text, root, initial, u, visited, queue, deps, visited', queue');
  }

  lemma VisitStepInv(config: Config, text: string, root: string, initial: seq<string>,
                     g: Graph, depth: map<string, nat>, visited: set<string>, queue: seq<Pending>,
                     deps: seq<string>, visited': set<string>, queue': seq<Pending>)
    requires Inv(config, text, root, initial, g, depth, queue) && visited == g.deps.Keys
    requires queue != [] && queue[0].name !in visited
    requires EntryRule(config, text, queue[0].name, queue[0].depth, deps)
    requires visited' == visited + {queue[0].name}
    requires queue' == queue[1..] + Unvisited(deps, visited', queue[0].depth + 1)
    ensures Inv(config, text, root, initial, g.Put(queue[0].name, deps), depth[queue[0].name := queue[0].depth], queue')
    ensures g.Put(queue[0].name, deps).deps.Keys == visited'
  {
    var n, d := queue[0].name, queue[0].depth;
    var g' := g.Put(n, deps);
    assert g'.deps.Keys == visited';
    assert Visited(g, depth, queue, deps, g', depth[n := d], queue');
    VisitInv(config, text, root, initial, g, depth, queue, deps, g', depth[n := d], queue');
  }

  lemma VisitStepUniverse(config: Config, text: string, root: string, initial: seq<string>, u: set<string>,
                          visited: set<string>, queue: seq<Pending>,
                          deps: seq<string>, visited': set<string>, queue': seq<Pending>)
    requires u == Universe(config, text, root, initial)
    requires InUniverse(u, visited, queue)
    requires queue != [] && queue[0].name !in visited
    requires EntryRule(config, text, queue[0].name, queue[0].depth, deps)
    requires visited' == visited + {queue[0].name}
    requires queue' == queue[1..] + Unvisited(deps, visited', queue[0].depth + 1)
    ensures InUniverse(u, visited', queue') && visited < visited' <= u && u - visited' < u - visited
  {
    var n, d := queue[0].name, queue[0].depth;
    if !(d >= config.maxDepth || Filtered(config.filterSubstring, n)) {
      LookedUpInUniverse(config, text, root, initial, n, deps);
    }
    EnqueuedInUniverse(u, visited, queue, deps, visited', d + 1);
    assert n in u - visited && n !in u - visited';
  }

  /** The entry of a package dequeued for the first time (main.py:224-257): nothing at or beyond
    * the depth limit, nothing when the filter matches, else its looked-up dependencies. */
  method PackageEntry(config: Config, content: string, name: string, depth: nat) returns (deps: seq<string>)
    ensures EntryRule(config, content, name, depth, deps)
  {
    if depth >= config.maxDepth {
      return [];
    }
    if config.filterSubstring != [] && Contains(name, config.filterSubstring) {
      return [];
    }
    if config.testMode {
      deps := TestDependencies(name);
    } else {
      deps := ParsePackageDependencies(content, name);
    }
  }

  /** The first visit of the queue's head (main.py:221-257): marks it visited, gives it the
    * entry the rules prescribe and queues its dependencies not yet visited, one level down. */
  method Visit(config: Config, content: string, g: Graph, visited: set<string>, queue: seq<Pending>)
    returns (g': Graph, visited': set<string>, queue': seq<Pending>, dependencies: seq<string>)
    requires g.Valid() && queue != []
    ensures EntryRule(config, content, queue[0].name, queue[0].depth, dependencies)
    ensures g' == g.Put(queue[0].name, dependencies)
    ensures visited' == visited + {queue[0].name}
    ensures queue' == queue[1..] + Unvisited(dependencies, visited', queue[0].depth + 1)
  {
    var current := queue[0];
    visited' := visited + {current.name};
    // A cut-off package gets an empty list, so the loop below queues nothing for it.
    dependencies := PackageEntry(config, content, current.name, current.depth);
    g' := g.Put(current.name, dependencies);
    queue' := Enqueue(queue[1..], dependencies, visited', current.depth + 1);
  }

  /** `build_dependency_graph_bfs`. `fetched` is the downloaded index, read only outside test
    * mode; `depth` records the depth at which each key was first dequeued, the root at 0.
    *
    * The result always keeps the root first with its initial list, and gives every other key
    * the entry the cut-offs and the lookup prescribe for the depth it was reached at. When the
    * download fails the result is the root alone; otherwise it is closed: every listed
    * dependency is a key, reached at most one level below its lister, and every key but the
    * root was reached from a key one level up. The keys are in the order in which they were
    * first dequeued, so their depths never decrease along the key order. */
  method BuildDependencyGraph(config: Config, root: string, initial: seq<string>, fetched: Option<string>)
    returns (g: Graph, ghost depth: map<string, nat>)
    ensures FetchFailed(config, fetched) ==> g == Single(root, initial)
    ensures Shape(root, initial, g, depth)
    ensures Entries(config, Content(fetched), root, g, depth)
    ensures Parents(root, g, depth)
    ensures !FetchFailed(config, fetched) ==> Closed(g, depth)
    ensures KeysByDepth(g, depth)
  {
    g := Single(root, initial);
    depth := map[root := 0];
    var visited := {root};
    var queue := Enqueue([], initial, visited, 1);
    // Test mode never reads the index text.
    var content := Content(fetched);
    if !config.testMode && content == [] {
      return;
    }
    ghost var u := Universe(config, content, root, initial);
    assert queue == Unvisited(initial, visited, 1);
    InitStep(config, content, root, initial, u);
    while queue != []
      invariant Walking(config, content, root, initial, u, g, depth, visited, queue)
      invariant KeysByDepth(g, depth)
      decreases u - visited, |queue|
    {
      // `queue.pop(0)`: the head leaves the queue whether or not it was visited before.
      if queue[0].name in visited {
        SkipStep(config, content, root, initial, u, g, depth, visited, queue);
        queue := queue[1..];
        continue;
      }
      ghost var g0, depth0, visited0, queue0 := g, depth, visited, queue;
      var dependencies;
      g, visited, queue, dependencies := Visit(config, content, g, visited, queue);
      depth := depth[queue0[0].name := queue0[0].depth];
      VisitStep(config, content, root, initial, u, g0, depth0, visited0, queue0, dependencies, visited, queue);
      VisitKeysByDepth(g0, depth0, queue0, dependencies);
    }
    WalkResult(config, content, root, initial, u, g, depth, visited, queue);
  }
}
