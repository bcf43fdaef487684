/**
 * The dependency-graph builder: a breadth-first traversal from the entry path
 * that discovers every module the entry transitively requires, records for
 * each its source text and its specifier-to-path dependency map, and numbers
 * the modules 0, 1, 2, ... in the order of their discovery.
 */
module GraphBuilder {
  import opened Wrappers
  import opened OrderedMaps

  /** An absolute file-system path. */
  type Path = string

  /** The raw string written inside a `require(...)` call. */
  type Specifier = string

  /**
   * What the build learns from its external collaborators, as finite tables.
   * `index` is the project index: a path exists when it is a key, and its
   * value lists the specifiers the file requires, in source order.
   * `contents` gives the text read from each file. `resolution` is the
   * resolver: a `(from, specifier)` pair it cannot resolve is absent.
   */
  datatype Project = Project(
    index: map<Path, seq<Specifier>>,
    contents: map<Path, string>,
    resolution: map<(Path, Specifier), Path>)

  /** The ways a build aborts; every one of them leaves no bundle behind. */
  datatype BuildError =
    | EntryNotFound
    | NotIndexed(path: Path)
    | ResolutionFailure(from: Path, specifier: Specifier)
    | ReadFailure(path: Path)

  /** The record stored for one module. */
  datatype Module = Module(id: nat, code: string, dependencyMap: OrderedMap<Specifier, Path>)

  /** The module table, keyed by path, in traversal order. */
  type Modules = OrderedMap<Path, Module>

  /** The table and every dependency map in it are well-formed ordered maps. */
  ghost predicate WellFormed(modules: Modules) {
    && modules.Valid()
    && forall p :: p in modules.entries ==> modules.entries[p].dependencyMap.Valid()
  }

  /** Every dependency of every module is itself in the table. */
  ghost predicate Closed(modules: Modules) {
    forall p, s :: p in modules.entries && s in modules.entries[p].dependencyMap.entries ==>
      modules.entries[p].dependencyMap.entries[s] in modules.entries
  }

  /** `specs[i]` is the first specifier the resolver cannot resolve from `from`, reported as `e`. */
  predicate FirstUnresolved(resolution: map<(Path, Specifier), Path>, from: Path, specs: seq<Specifier>,
                            i: nat, e: BuildError)
    requires i < |specs|
  {
    && e == ResolutionFailure(from, specs[i])
    && (from, specs[i]) !in resolution
    && forall j :: 0 <= j < i ==> (from, specs[j]) in resolution
  }

  /**
   * `getDependencies(module).map(name => [name, resolveModule(module, name)])`:
   * resolves the specifiers left to right and aborts at the first one the
   * resolver cannot map to a path.
   */
  function ResolveAll(resolution: map<(Path, Specifier), Path>, from: Path, specs: seq<Specifier>)
    : (r: Result<seq<(Specifier, Path)>, BuildError>)
    ensures r.Success? <==> forall i :: 0 <= i < |specs| ==> (from, specs[i]) in resolution
    ensures r.Success? ==> |r.value| == |specs|
    ensures r.Success? ==> forall i :: 0 <= i < |specs| ==>
      (from, specs[i]) in resolution && r.value[i] == (specs[i], resolution[(from, specs[i])])
    ensures r.Failure? ==> exists i :: 0 <= i < |specs| && FirstUnresolved(resolution, from, specs, i, r.error)
  {
    if specs == [] then Success([])
    else if (from, specs[0]) !in resolution then
      assert FirstUnresolved(resolution, from, specs, 0, ResolutionFailure(from, specs[0]));
      Failure(ResolutionFailure(from, specs[0]))
    else match ResolveAll(resolution, from, specs[1..])
      case Failure(e) =>
        var i :| 0 <= i < |specs| - 1 && FirstUnresolved(resolution, from, specs[1..], i, e);
        assert FirstUnresolved(resolution, from, specs, i + 1, e);
        Failure(e)
      case Success(rest) => Success([(specs[0], resolution[(from, specs[0])])] + rest)
  }

  /**
   * One iteration of the traversal on a path seen for the first time: look
   * up its specifiers, resolve them into the dependency map, read its code and
   * give it the next id.
   */
  function Visit(project: Project, path: Path, id: nat): Result<Module, BuildError> {
    if path !in project.index then Failure(NotIndexed(path))
    else match ResolveAll(project.resolution, path, project.index[path])
      case Failure(e) => Failure(e)
      case Success(pairs) =>
        if path !in project.contents then Failure(ReadFailure(path))
        else Success(Module(id, project.contents[path], FromEntries(pairs)))
  }

  /**
   * A visited module's record: its id is the one it was given, its code is the
   * file's text, and its dependency map has one key per distinct specifier in
   * the order the index lists them, each mapped to what the resolver gives for
   * this module and that specifier.
   */
  lemma VisitRecord(project: Project, path: Path, id: nat)
    requires Visit(project, path, id).Success?
    ensures var m := Visit(project, path, id).value;
      && path in project.index && path in project.contents
      && m.id == id && m.code == project.contents[path]
      && m.dependencyMap.Valid()
      && m.dependencyMap.keys == Dedup(project.index[path])
      && forall s :: s in m.dependencyMap.entries ==>
           (path, s) in project.resolution && m.dependencyMap.entries[s] == project.resolution[(path, s)]
  {
    var specs := project.index[path];
    var pairs := ResolveAll(project.resolution, path, specs).value;
    FromEntriesKeys(pairs);
    assert Firsts(pairs) == specs;
    FromEntriesFromPairs(pairs);
  }

  /**
   * Why a path fails its visit, by error kind: specifiers are resolved left
   * to right and the first unresolvable one is reported, and the file is read
   * only once every specifier has resolved.
   */
  lemma VisitFailure(project: Project, path: Path, id: nat)
    requires Visit(project, path, id).Failure?
    ensures match Visit(project, path, id).error
      case EntryNotFound => false
      case NotIndexed(p) => p == path && path !in project.index
      case ResolutionFailure(from, s) =>
        && from == path && path in project.index && s in project.index[path] && (path, s) !in project.resolution
        && exists i :: 0 <= i < |project.index[path]| &&
             FirstUnresolved(project.resolution, path, project.index[path], i, Visit(project, path, id).error)
      case ReadFailure(p) =>
        && p == path && path in project.index && path !in project.contents
        && forall s :: s in project.index[path] ==> (path, s) in project.resolution
  {
  }

  /** The paths enqueued by the first `k` modules of the table, in order. */
  ghost function Pushed(modules: Modules, k: nat): seq<Path>
    requires WellFormed(modules) && k <= |modules.keys|
  {
    if k == 0 then []
    else Pushed(modules, k - 1) + modules.entries[modules.keys[k - 1]].dependencyMap.Values()
  }

  /** Everything the queue has held once the first `k` modules are processed. */
  ghost function Enqueued(entry: Path, modules: Modules, k: nat): seq<Path>
    requires WellFormed(modules) && k <= |modules.keys|
  {
    [entry] + Pushed(modules, k)
  }

  /** The first element of `s` that is not in `seen`. */
  function FirstUnseen(s: seq<Path>, seen: seq<Path>): (r: Option<Path>)
    ensures r.None? ==> forall i :: 0 <= i < |s| ==> s[i] in seen
    ensures r.Some? ==> r.value in s && r.value !in seen
    ensures r.Some? ==> exists i :: 0 <= i < |s| && s[i] == r.value && forall j :: 0 <= j < i ==> s[j] in seen
  {
    if s == [] then None
    else if s[0] !in seen then Some(s[0])
    else
      var r := FirstUnseen(s[1..], seen);
      assert r.Some? ==> exists i :: 0 < i < |s| && s[i] == r.value && forall j :: 0 <= j < i ==> s[j] in seen by {
        if r.Some? {
          var i :| 0 <= i < |s[1..]| && s[1..][i] == r.value && forall j :: 0 <= j < i ==> s[1..][j] in seen;
          assert forall j :: 0 <= j < i + 1 ==> s[j] in seen by {
            forall j | 0 <= j < i + 1 ensures s[j] in seen {
              if j > 0 { assert s[j] == s[1..][j - 1]; }
            }
          }
        }
      }
      r
  }

  /**
   * The traversal without its queue: the next module to discover is the first
   * path ever enqueued that has not been discovered yet; when there is none,
   * the table is complete.
   */
  ghost function Explore(project: Project, entry: Path, modules: Modules): Result<Modules, BuildError>
    requires WellFormed(modules)
    decreases |project.index.Keys - modules.entries.Keys|
  {
    match FirstUnseen(Enqueued(entry, modules, |modules.keys|), modules.keys)
    case None => Success(modules)
    case Some(p) =>
      match Visit(project, p, |modules.keys|)
      case Failure(e) => Failure(e)
      case Success(m) =>
        VisitShrinks(project, entry, modules, p, m);
        Explore(project, entry, modules.Set(p, m))
  }

  /** The whole build: the entry-existence guard, then the traversal. */
  ghost function BuildSpec(project: Project, entry: Path): Result<Modules, BuildError> {
    if entry !in project.index then Failure(EntryNotFound)
    else Explore(project, entry, Empty())
  }

  /**
   * The table is exactly what the traversal has discovered so far: module `i`
   * is the record `Visit` makes for it with id `i`, and it is the first path
   * enqueued by the entry and modules 0 .. i-1 that none of them already is.
   */
  ghost predicate Discovered(project: Project, entry: Path, modules: Modules) {
    && WellFormed(modules)
    && (forall i :: 0 <= i < |modules.keys| ==> RecordedAt(project, modules, i))
    && (forall i :: 0 <= i < |modules.keys| ==> DiscoveredAt(entry, modules, i))
  }

  /** Module `i` holds the record that visiting it with id `i` produces. */
  ghost predicate RecordedAt(project: Project, modules: Modules, i: nat)
    requires modules.Valid() && i < |modules.keys|
  {
    Visit(project, modules.keys[i], i) == Success(modules.entries[modules.keys[i]])
  }

  /** Module `i` is the first path enqueued before it that is not an earlier module. */
  ghost predicate DiscoveredAt(entry: Path, modules: Modules, i: nat)
    requires WellFormed(modules) && i < |modules.keys|
  {
    FirstUnseen(Enqueued(entry, modules, i), modules.keys[..i]) == Some(modules.keys[i])
  }

  /** Nothing ever enqueued is left undiscovered. */
  ghost predicate Complete(entry: Path, modules: Modules)
    requires WellFormed(modules)
  {
    FirstUnseen(Enqueued(entry, modules, |modules.keys|), modules.keys).None?
  }

  /** Adding a new module leaves what the earlier modules enqueued unchanged. */
  lemma {:induction false} PushedStable(modules: Modules, p: Path, m: Module, k: nat)
    requires WellFormed(modules) && p !in modules.entries && m.dependencyMap.Valid()
    requires k <= |modules.keys|
    ensures WellFormed(modules.Set(p, m))
    ensures Pushed(modules.Set(p, m), k) == Pushed(modules, k)
  {
    if k > 0 {
      PushedStable(modules, p, m, k - 1);
    }
  }

  /** Recording a new module appends exactly its dependency values to what has been enqueued. */
  lemma PushedAfterSet(modules: Modules, p: Path, m: Module)
    requires WellFormed(modules) && p !in modules.entries && m.dependencyMap.Valid()
    ensures WellFormed(modules.Set(p, m))
    ensures Pushed(modules.Set(p, m), |modules.keys| + 1) == Pushed(modules, |modules.keys|) + m.dependencyMap.Values()
  {
    PushedStable(modules, p, m, |modules.keys|);
  }

  /** Every dependency of module `i` is among the paths enqueued by modules 0 .. k-1 when i < k. */
  lemma {:induction false} PushedContains(modules: Modules, i: nat, k: nat, s: Specifier)
    requires WellFormed(modules) && i < k <= |modules.keys|
    requires s in modules.entries[modules.keys[i]].dependencyMap.entries
    ensures modules.entries[modules.keys[i]].dependencyMap.entries[s] in Pushed(modules, k)
  {
    if i == k - 1 {
      ValuesContain(modules.entries[modules.keys[i]].dependencyMap, s);
    } else {
      PushedContains(modules, i, k - 1, s);
    }
  }

  /** A complete table contains the entry and every dependency of its modules. */
  lemma CompleteIsClosed(entry: Path, modules: Modules)
    requires WellFormed(modules) && Complete(entry, modules)
    ensures entry in modules.entries
    ensures Closed(modules)
  {
    var all := Enqueued(entry, modules, |modules.keys|);
    assert all[0] == entry;
    forall p, s | p in modules.entries && s in modules.entries[p].dependencyMap.entries
      ensures modules.entries[p].dependencyMap.entries[s] in modules.entries
    {
      var i :| 0 <= i < |modules.keys| && modules.keys[i] == p;
      PushedContains(modules, i, |modules.keys|, s);
      var d := modules.entries[p].dependencyMap.entries[s];
      var j :| 0 <= j < |Pushed(modules, |modules.keys|)| && Pushed(modules, |modules.keys|)[j] == d;
      assert all[j + 1] == d;
    }
  }

  /** Discovering one more module keeps the table discovered. */
  lemma DiscoveredStep(project: Project, entry: Path, modules: Modules, p: Path, m: Module)
    requires Discovered(project, entry, modules)
    requires FirstUnseen(Enqueued(entry, modules, |modules.keys|), modules.keys) == Some(p)
    requires Visit(project, p, |modules.keys|) == Success(m)
    ensures Discovered(project, entry, modules.Set(p, m))
  {
    VisitRecord(project, p, |modules.keys|);
    var n := |modules.keys|;
    var next := modules.Set(p, m);
    PushedStable(modules, p, m, 0);
    assert next.keys == modules.keys + [p];
    forall i | 0 <= i <= n
      ensures RecordedAt(project, next, i)
    {
      if i < n {
        assert RecordedAt(project, modules, i);
        assert next.keys[i] == modules.keys[i] && modules.keys[i] != p;
      }
    }
    forall i | 0 <= i <= n
      ensures DiscoveredAt(entry, next, i)
    {
      if i < n {
        assert DiscoveredAt(entry, modules, i);
      }
      PushedStable(modules, p, m, i);
      assert Enqueued(entry, next, i) == Enqueued(entry, modules, i);
      assert next.keys[..i] == modules.keys[..i];
      if i == n {
        assert modules.keys[..n] == modules.keys;
      }
    }
  }

  /** Recording the next path keeps the table well-formed and leaves one indexed path fewer unseen. */
  lemma VisitShrinks(project: Project, entry: Path, modules: Modules, p: Path, m: Module)
    requires WellFormed(modules)
    requires FirstUnseen(Enqueued(entry, modules, |modules.keys|), modules.keys) == Some(p)
    requires Visit(project, p, |modules.keys|) == Success(m)
    ensures WellFormed(modules.Set(p, m))
    ensures |project.index.Keys - modules.Set(p, m).entries.Keys| < |project.index.Keys - modules.entries.Keys|
  {
    VisitRecord(project, p, |modules.keys|);
    assert p !in modules.entries;
    assert modules.Set(p, m).entries.Keys == modules.entries.Keys + {p};
    FewerUnseen(project.index.Keys, modules.entries.Keys, p);
  }

  /** One step of the traversal: discovering `p` with record `m` and going on. */
  lemma ExploreStep(project: Project, entry: Path, modules: Modules, p: Path, m: Module)
    requires WellFormed(modules)
    requires FirstUnseen(Enqueued(entry, modules, |modules.keys|), modules.keys) == Some(p)
    requires Visit(project, p, |modules.keys|) == Success(m)
    ensures WellFormed(modules.Set(p, m))
    ensures |project.index.Keys - modules.Set(p, m).entries.Keys| < |project.index.Keys - modules.entries.Keys|
    ensures Explore(project, entry, modules) == Explore(project, entry, modules.Set(p, m))
  {
    VisitShrinks(project, entry, modules, p, m);
  }

  /** A traversal that succeeds from a discovered table ends in a discovered, complete table. */
  lemma {:induction false} ExploreDiscovers(project: Project, entry: Path, modules: Modules)
    requires Discovered(project, entry, modules)
    ensures Explore(project, entry, modules).Success? ==>
      var result := Explore(project, entry, modules).value;
      Discovered(project, entry, result) && Complete(entry, result)
    decreases |project.index.Keys - modules.entries.Keys|
  {
    var next := FirstUnseen(Enqueued(entry, modules, |modules.keys|), modules.keys);
    if next.Some? {
      var p := next.value;
      var visit := Visit(project, p, |modules.keys|);
      if visit.Success? {
        ExploreStep(project, entry, modules, p, visit.value);
        DiscoveredStep(project, entry, modules, p, visit.value);
        ExploreDiscovers(project, entry, modules.Set(p, visit.value));
      }
    }
  }

  /** The next path to discover fails its visit with `e`. */
  ghost predicate NextFails(project: Project, entry: Path, modules: Modules, e: BuildError)
    requires WellFormed(modules)
  {
    match FirstUnseen(Enqueued(entry, modules, |modules.keys|), modules.keys)
    case None => false
    case Some(p) => Visit(project, p, |modules.keys|) == Failure(e)
  }

  /** A traversal fails only when a module it actually discovers fails its visit. */
  lemma {:induction false} ExploreFailure(project: Project, entry: Path, modules: Modules)
    requires Discovered(project, entry, modules)
    ensures Explore(project, entry, modules).Failure? ==>
      exists failed :: Discovered(project, entry, failed) &&
        NextFails(project, entry, failed, Explore(project, entry, modules).error)
    decreases |project.index.Keys - modules.entries.Keys|
  {
    var next := FirstUnseen(Enqueued(entry, modules, |modules.keys|), modules.keys);
    if next.Some? {
      var p := next.value;
      var visit := Visit(project, p, |modules.keys|);
      if visit.Failure? {
        assert NextFails(project, entry, modules, visit.error);
      } else {
        ExploreStep(project, entry, modules, p, visit.value);
        DiscoveredStep(project, entry, modules, p, visit.value);
        ExploreFailure(project, entry, modules.Set(p, visit.value));
      }
    }
  }

  /**
   * A successful build: the entry is module 0, module `i` has id `i` (so the
   * ids are exactly 0 .. n-1, one per module), every module is the first
   * undiscovered path enqueued before it, nothing enqueued is left out, and
   * every dependency of every module is in the table.
   */
  lemma BuildSpecSound(project: Project, entry: Path)
    requires BuildSpec(project, entry).Success?
    ensures var modules := BuildSpec(project, entry).value;
      && WellFormed(modules)
      && |modules.keys| > 0 && modules.keys[0] == entry
      && (forall i :: 0 <= i < |modules.keys| ==> modules.entries[modules.keys[i]].id == i)
      && Discovered(project, entry, modules)
      && Complete(entry, modules)
      && Closed(modules)
  {
    var empty: Modules := Empty();
    assert Discovered(project, entry, empty);
    ExploreDiscovers(project, entry, empty);
    var modules := BuildSpec(project, entry).value;
    CompleteIsClosed(entry, modules);
    assert |modules.keys| > 0;
    assert DiscoveredAt(entry, modules, 0);
    assert modules.keys[..0] == [];
    forall i | 0 <= i < |modules.keys|
      ensures modules.entries[modules.keys[i]].id == i
    {
      assert RecordedAt(project, modules, i);
      VisitRecord(project, modules.keys[i], i);
    }
  }

  /**
   * What a successful build records for each module: the file's text, and a
   * dependency map with one key per distinct specifier the index lists, in
   * that order, each mapped to the resolver's answer for this module.
   */
  lemma BuildSpecRecords(project: Project, entry: Path, p: Path)
    requires BuildSpec(project, entry).Success?
    requires p in BuildSpec(project, entry).value.entries
    ensures var m := BuildSpec(project, entry).value.entries[p];
      && p in project.index && p in project.contents
      && m.code == project.contents[p]
      && m.dependencyMap.keys == Dedup(project.index[p])
      && forall s :: s in m.dependencyMap.entries ==>
           (p, s) in project.resolution && m.dependencyMap.entries[s] == project.resolution[(p, s)]
  {
    BuildSpecSound(project, entry);
    var modules := BuildSpec(project, entry).value;
    var i :| 0 <= i < |modules.keys| && modules.keys[i] == p;
    assert RecordedAt(project, modules, i);
    VisitRecord(project, p, i);
  }

  /**
   * A failed build: it reports `EntryNotFound` exactly when the entry is not
   * in the index, and otherwise the error of a module the traversal reached.
   */
  lemma BuildSpecFailure(project: Project, entry: Path)
    requires BuildSpec(project, entry).Failure?
    ensures BuildSpec(project, entry).error == EntryNotFound <==> entry !in project.index
    ensures entry in project.index ==>
      exists failed :: Discovered(project, entry, failed) &&
        NextFails(project, entry, failed, BuildSpec(project, entry).error)
  {
    if entry in project.index {
      var empty: Modules := Empty();
      assert Discovered(project, entry, empty);
      ExploreFailure(project, entry, empty);
      var failed :| Discovered(project, entry, failed) &&
        NextFails(project, entry, failed, BuildSpec(project, entry).error);
      var p := FirstUnseen(Enqueued(entry, failed, |failed.keys|), failed.keys).value;
      VisitFailure(project, p, |failed.keys|);
    }
  }

  /** The traversal aborts with the error of the next path when that path fails its visit. */
  lemma ExploreAborts(project: Project, entry: Path, modules: Modules, p: Path)
    requires WellFormed(modules)
    requires FirstUnseen(Enqueued(entry, modules, |modules.keys|), modules.keys) == Some(p)
    requires Visit(project, p, |modules.keys|).Failure?
    ensures Explore(project, entry, modules) == Failure(Visit(project, p, |modules.keys|).error)
  {
  }

  /** The queue's head is the next path to discover when it has not been seen. */
  lemma QueueHeadIsNext(entry: Path, modules: Modules, consumed: seq<Path>, queue: seq<Path>)
    requires WellFormed(modules)
    requires consumed + queue == Enqueued(entry, modules, |modules.keys|)
    requires forall i :: 0 <= i < |consumed| ==> consumed[i] in modules.keys
    requires queue != [] && queue[0] !in modules.keys
    ensures FirstUnseen(Enqueued(entry, modules, |modules.keys|), modules.keys) == Some(queue[0])
  {
    FirstUnseenAfterSeen(consumed, queue, modules.keys);
  }

  /** An empty queue means nothing enqueued is left undiscovered. */
  lemma EmptyQueueIsComplete(project: Project, entry: Path, modules: Modules, consumed: seq<Path>)
    requires WellFormed(modules)
    requires consumed == Enqueued(entry, modules, |modules.keys|)
    requires forall i :: 0 <= i < |consumed| ==> consumed[i] in modules.keys
    ensures Explore(project, entry, modules) == Success(modules)
  {
    FirstUnseenAfterSeen(consumed, [], modules.keys);
    assert consumed + [] == consumed;
  }

  /** Seeing one more path of a finite universe leaves fewer unseen. */
  lemma FewerUnseen(universe: set<Path>, seen: set<Path>, p: Path)
    requires p in universe && p !in seen
    ensures |universe - (seen + {p})| < |universe - seen|
  {
    assert universe - (seen + {p}) == (universe - seen) - {p};
  }

  /** Moving the queue's head to the consumed part keeps their concatenation. */
  lemma Dequeue(consumed: seq<Path>, queue: seq<Path>)
    requires queue != []
    ensures (consumed + [queue[0]]) + queue[1..] == consumed + queue
  {
    assert queue == [queue[0]] + queue[1..];
  }

  /** Appending to the queue appends to everything enqueued. */
  lemma Enqueue(consumed: seq<Path>, queue: seq<Path>, entry: Path, pushed: seq<Path>, values: seq<Path>)
    requires consumed + queue == [entry] + pushed
    ensures consumed + (queue + values) == [entry] + (pushed + values)
  {
    assert consumed + (queue + values) == (consumed + queue) + values;
    assert [entry] + (pushed + values) == ([entry] + pushed) + values;
  }

  /** Skipping paths that are already seen does not change which path is next. */
  lemma {:induction false} FirstUnseenAfterSeen(consumed: seq<Path>, queue: seq<Path>, seen: seq<Path>)
    requires forall i :: 0 <= i < |consumed| ==> consumed[i] in seen
    ensures FirstUnseen(consumed + queue, seen) == FirstUnseen(queue, seen)
  {
    if consumed != [] {
      assert (consumed + queue)[1..] == consumed[1..] + queue;
      FirstUnseenAfterSeen(consumed[1..], queue, seen);
    } else {
      assert consumed + queue == queue;
    }
  }

  /**
   * Recording an unseen queue head keeps the loop's bookkeeping: the consumed
   * part and the queue, with the new module's dependencies appended, still
   * spell out everything enqueued, and every consumed path is a module.
   */
  lemma VisitKeepsQueue(entry: Path, modules: Modules, consumed: seq<Path>, queue: seq<Path>, metadata: Module)
    requires WellFormed(modules) && metadata.dependencyMap.Valid()
    requires consumed + queue == Enqueued(entry, modules, |modules.keys|)
    requires forall i :: 0 <= i < |consumed| ==> consumed[i] in modules.keys
    requires queue != [] && queue[0] !in modules.entries
    ensures var next := modules.Set(queue[0], metadata);
      && WellFormed(next)
      && |next.keys| == |modules.keys| + 1
      && next.entries.Keys == modules.entries.Keys + {queue[0]}
      && (consumed + [queue[0]]) + (queue[1..] + metadata.dependencyMap.Values())
         == Enqueued(entry, next, |next.keys|)
      && (forall i :: 0 <= i < |consumed| + 1 ==> (consumed + [queue[0]])[i] in next.keys)
  {
    var path := queue[0];
    PushedAfterSet(modules, path, metadata);
    Dequeue(consumed, queue);
    Enqueue(consumed + [path], queue[1..], entry, Pushed(modules, |modules.keys|), metadata.dependencyMap.Values());
  }

  /**
   * The traversal loop's invariant. `consumed` (ghost) is what has been
   * dequeued so far: together with the queue it is everything ever enqueued,
   * and all of it has been seen. `seen` is the key set of `modules`, `id` its
   * size, and going on from `modules` reaches the same result as the whole
   * queue-free traversal.
   */
  ghost predicate LoopInvariant(project: Project, entry: Path, seen: set<Path>, modules: Modules,
                                queue: seq<Path>, id: nat, consumed: seq<Path>)
  {
    && WellFormed(modules)
    && id == |modules.keys|
    && seen == modules.entries.Keys
    && seen <= project.index.Keys
    && consumed + queue == Enqueued(entry, modules, |modules.keys|)
    && (forall i :: 0 <= i < |consumed| ==> consumed[i] in modules.keys)
    && Explore(project, entry, modules) == BuildSpec(project, entry)
  }

  /** The invariant holds before the first iteration. */
  lemma LoopInit(project: Project, entry: Path)
    requires entry in project.index
    ensures LoopInvariant(project, entry, {}, Empty(), [entry], 0, [])
  {
  }

  /** A dequeued path that was already seen is discarded. */
  lemma LoopSkip(project: Project, entry: Path, seen: set<Path>, modules: Modules,
                 queue: seq<Path>, id: nat, consumed: seq<Path>)
    requires LoopInvariant(project, entry, seen, modules, queue, id, consumed)
    requires queue != [] && queue[0] in seen
    ensures LoopInvariant(project, entry, seen, modules, queue[1..], id, consumed + [queue[0]])
  {
    Dequeue(consumed, queue);
  }

  /** A dequeued path whose visit fails ends the traversal with that failure. */
  lemma LoopAbort(project: Project, entry: Path, seen: set<Path>, modules: Modules,
                  queue: seq<Path>, id: nat, consumed: seq<Path>)
    requires LoopInvariant(project, entry, seen, modules, queue, id, consumed)
    requires queue != [] && queue[0] !in seen
    requires Visit(project, queue[0], id).Failure?
    ensures BuildSpec(project, entry) == Failure(Visit(project, queue[0], id).error)
  {
    QueueHeadIsNext(entry, modules, consumed, queue);
    ExploreAborts(project, entry, modules, queue[0]);
  }

  /**
   * A dequeued path that was not seen is marked seen, stored under the next
   * id, and its dependencies are enqueued; one more indexed path is seen.
   */
  lemma LoopVisit(project: Project, entry: Path, seen: set<Path>, modules: Modules,
                  queue: seq<Path>, id: nat, consumed: seq<Path>, metadata: Module)
    requires LoopInvariant(project, entry, seen, modules, queue, id, consumed)
    requires queue != [] && queue[0] !in seen
    requires Visit(project, queue[0], id) == Success(metadata)
    ensures WellFormed(modules) && metadata.dependencyMap.Valid()
    ensures LoopInvariant(project, entry, seen + {queue[0]}, modules.Set(queue[0], metadata),
                          queue[1..] + metadata.dependencyMap.Values(), id + 1, consumed + [queue[0]])
    ensures |project.index.Keys - (seen + {queue[0]})| < |project.index.Keys - seen|
  {
    VisitRecord(project, queue[0], id);
    FewerUnseen(project.index.Keys, seen, queue[0]);
    QueueHeadIsNext(entry, modules, consumed, queue);
    ExploreStep(project, entry, modules, queue[0], metadata);
    VisitKeepsQueue(entry, modules, consumed, queue, metadata);
  }

  /** With the queue empty, the table is the traversal's result. */
  lemma LoopDone(project: Project, entry: Path, seen: set<Path>, modules: Modules, id: nat, consumed: seq<Path>)
    requires LoopInvariant(project, entry, seen, modules, [], id, consumed)
    ensures BuildSpec(project, entry) == Success(modules)
  {
    assert consumed + [] == consumed;
    EmptyQueueIsComplete(project, entry, modules, consumed);
  }

  /**
   * The traversal loop (`seen`, `modules`, `queue`, `id`): the entry guard,
   * then repeatedly dequeue a path, skip it if seen, and otherwise record it
   * under the next id and enqueue all its resolved dependencies, duplicates
   * included. It terminates, because each iteration either sees one more
   * indexed path or shortens the queue, and it computes exactly the
   * queue-free traversal `BuildSpec`.
   */
  method Build(project: Project, entry: Path) returns (r: Result<Modules, BuildError>)
    ensures r == BuildSpec(project, entry)
  {
    if entry !in project.index {
      return Failure(EntryNotFound);
    }
    var seen: set<Path> := {};
    var modules: Modules := Empty();
    var queue: seq<Path> := [entry];
    var id: nat := 0;
    ghost var consumed: seq<Path> := [];
    LoopInit(project, entry);
    while |queue| > 0
      invariant LoopInvariant(project, entry, seen, modules, queue, id, consumed)
      decreases |project.index.Keys - seen|, |queue|
    {
      var path := queue[0];
      if path in seen {
        LoopSkip(project, entry, seen, modules, queue, id, consumed);
        queue, consumed := queue[1..], consumed + [path];
        continue;
      }
      var visited := Visit(project, path, id);
      if visited.Failure? {
        LoopAbort(project, entry, seen, modules, queue, id, consumed);
        return Failure(visited.error);
      }
      var metadata := visited.value;
      LoopVisit(project, entry, seen, modules, queue, id, consumed, metadata);
      seen := seen + {path};
      modules := modules.Set(path, metadata);
      id := id + 1;
      queue, consumed := queue[1..] + metadata.dependencyMap.Values(), consumed + [path];
    }
    LoopDone(project, entry, seen, modules, id, consumed);
    return Success(modules);
  }
}
