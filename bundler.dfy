/**
 * The whole build: the dependency graph of the entry point, then the
 * serialized bundle of its modules.
 */
module Bundler {
  import opened Wrappers
  import opened OrderedMaps
  import opened GraphBuilder
  import opened WrapSerializer

  /**
   * Every specifier listed by a file the build reaches is one the rewrite
   * pattern matches literally; files the build never reaches are not
   * constrained.
   */
  ghost predicate PlainReached(project: Project, entry: Path) {
    BuildSpec(project, entry).Success? ==>
      forall p, s :: p in BuildSpec(project, entry).value.entries && p in project.index && s in project.index[p] ==> PlainSpecifier(s)
  }

  /** A successful build whose reached specifiers are plain can be serialized. */
  lemma BuiltIsSerializable(project: Project, entry: Path)
    requires PlainReached(project, entry)
    requires BuildSpec(project, entry).Success?
    ensures Serializable(BuildSpec(project, entry).value)
  {
    var modules := BuildSpec(project, entry).value;
    BuildSpecSound(project, entry);
    forall p | p in modules.entries
      ensures Rewritable(modules, modules.entries[p])
    {
      BuildSpecRecords(project, entry, p);
      var m := modules.entries[p];
      forall s | s in m.dependencyMap.entries
        ensures PlainSpecifier(s)
      {
        assert s in m.dependencyMap.keys;
        var j :| 0 <= j < |m.dependencyMap.keys| && m.dependencyMap.keys[j] == s;
        assert s in project.index[p];
      }
    }
  }

  /** Every module's id is its position in the traversal. */
  ghost predicate Numbered(modules: Modules)
    requires modules.Valid()
  {
    forall i :: 0 <= i < |modules.keys| ==> modules.entries[modules.keys[i]].id == i
  }

  /** In a numbered table, unit `i` unwraps to id `i` and the rewritten code of module `i`. */
  lemma UnitAtPosition(modules: Modules, i: nat)
    requires Serializable(modules) && Numbered(modules)
    requires i < |modules.keys|
    ensures UnwrapModule(UnitsUpTo(modules, |modules.keys|)[i]) == Some((i, Rewritten(modules, modules.keys[i])))
  {
    UnitsUpToAt(modules, |modules.keys|, i);
    UnitRoundTrip(modules, modules.keys[i]);
  }

  /**
   * Every unit of a numbered table unwraps to its module's position and
   * rewritten code.
   */
  lemma BundleUnits(modules: Modules)
    requires Serializable(modules) && Numbered(modules)
    ensures forall i :: 0 <= i < |modules.keys| ==>
      UnwrapModule(UnitsUpTo(modules, |modules.keys|)[i]) == Some((i, Rewritten(modules, modules.keys[i])))
  {
    forall i | 0 <= i < |modules.keys|
      ensures UnwrapModule(UnitsUpTo(modules, |modules.keys|)[i]) == Some((i, Rewritten(modules, modules.keys[i])))
    {
      UnitAtPosition(modules, i);
    }
  }

  /**
   * The bundle of a numbered table holds one line per module besides the
   * preamble and the bootstrap call, and its last unit is the first
   * module's, under id 0.
   */
  lemma FirstModuleUnitIsLast(modules: Modules, preamble: string, lines: seq<string>)
    requires Serializable(modules) && Numbered(modules) && |modules.keys| > 0
    requires lines == [preamble] + Reversed(UnitsUpTo(modules, |modules.keys|)) + [Bootstrap]
    ensures |lines| == |modules.keys| + 2
    ensures UnwrapModule(lines[|modules.keys|]) == Some((0, Rewritten(modules, modules.keys[0])))
  {
    var units := UnitsUpTo(modules, |modules.keys|);
    FramedReversedAt(preamble, units, Bootstrap, 0);
    assert lines[|modules.keys|] == units[0];
    UnitAtPosition(modules, 0);
  }

  /**
   * Builds the graph and serializes it behind `preamble` (the runtime's
   * source). A build that aborts yields its error and no bundle; otherwise
   * the result is the bundle of the built table, whose first module is the
   * entry point.
   */
  method BuildBundle(project: Project, entry: Path, preamble: string) returns (r: Result<seq<string>, BuildError>)
    requires PlainReached(project, entry)
    ensures r == Failure(EntryNotFound) <==> entry !in project.index
    ensures r.Failure? <==> BuildSpec(project, entry).Failure?
    ensures r.Failure? ==> r.error == BuildSpec(project, entry).error
    ensures r.Success? ==>
      var modules := BuildSpec(project, entry).value;
      && Serializable(modules)
      && Numbered(modules)
      && |modules.keys| > 0 && modules.keys[0] == entry
      && r.value == [preamble] + Reversed(UnitsUpTo(modules, |modules.keys|)) + [Bootstrap]
  {
    var built := Build(project, entry);
    if built.Failure? {
      BuildSpecFailure(project, entry);
      return Failure(built.error);
    }
    assert entry in project.index;
    var modules := built.value;
    BuildSpecSound(project, entry);
    BuiltIsSerializable(project, entry);
    var output := Serialize(modules, preamble);
    return Success(output);
  }
}
