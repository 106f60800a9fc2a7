/** The in-memory solution file the service loads, edits and saves. */
module Solutions {

  import opened Linq
  import opened Paths

  /** A call the service makes on the solution file that changes it or persists it. */
  datatype Call = Added(path: Path) | Removed(path: Path) | Saved

  /** The calls that add each of `paths`, in order. */
  function AddedCalls(paths: seq<Path>): (r: seq<Call>)
    ensures |r| == |paths|
    ensures forall i :: 0 <= i < |r| ==> r[i] == Added(paths[i])
  {
    seq(|paths|, i requires 0 <= i < |paths| => Added(paths[i]))
  }

  /** The calls that remove each of `paths`, in order. */
  function RemovedCalls(paths: seq<Path>): (r: seq<Call>)
    ensures |r| == |paths|
    ensures forall i :: 0 <= i < |r| ==> r[i] == Removed(paths[i])
  {
    seq(|paths|, i requires 0 <= i < |paths| => Removed(paths[i]))
  }

  /** How many times the solution was saved. */
  function SaveCount(calls: seq<Call>): nat
  {
    if calls == [] then 0
    else SaveCount(calls[..|calls| - 1]) + (if calls[|calls| - 1] == Saved then 1 else 0)
  }

  /** A record that saves only at its end saves exactly once. */
  lemma {:induction false} SavedOnceAtEnd(changes: seq<Call>)
    requires Saved !in changes
    ensures SaveCount(changes + [Saved]) == 1
  {
    assert (changes + [Saved])[..|changes|] == changes;
    NeverSaved(changes);
  }

  lemma {:induction false} NeverSaved(changes: seq<Call>)
    requires Saved !in changes
    ensures SaveCount(changes) == 0
  {
    if changes != [] {
      NeverSaved(changes[..|changes| - 1]);
    }
  }

  /** A loaded solution: its project entries outside and inside the dependencies folder,
      and the record of the membership changes and saves made on it since loading. */
  class SolutionFile {
    var nonDependency: seq<Path>
    var dependency: seq<Path>
    ghost var calls: seq<Call>

    /** A solution lists each project once. */
    ghost predicate Valid()
      reads this
    {
      Distinct(nonDependency + dependency)
    }

    /** `SolutionFile.Load`: the entries read from disk; nothing changed or saved yet. */
    constructor Load(nonDependency: seq<Path>, dependency: seq<Path>)
      ensures this.nonDependency == nonDependency && this.dependency == dependency
      ensures calls == []
    {
      this.nonDependency := nonDependency;
      this.dependency := dependency;
      calls := [];
    }

    /** `GetProjectReferenceFilePaths`: every project of the solution. */
    function ProjectReferenceFilePaths(): (r: seq<Path>)
      reads this
      ensures forall p :: p in r <==> p in nonDependency || p in dependency
    {
      nonDependency + dependency
    }

    /** `AddProjectReferenceDependencyChecked`: lists `path` in the dependencies folder. */
    method AddProjectReferenceDependencyChecked(path: Path)
      modifies this
      ensures nonDependency == old(nonDependency)
      ensures dependency == old(dependency) + [path]
      ensures calls == old(calls) + [Added(path)]
    {
      dependency := dependency + [path];
      calls := calls + [Added(path)];
    }

    /** `RemoveProjectReference`: the solution no longer lists `path`. */
    method RemoveProjectReference(path: Path)
      modifies this
      ensures nonDependency == Without(old(nonDependency), {path})
      ensures dependency == Without(old(dependency), {path})
      ensures calls == old(calls) + [Removed(path)]
    {
      nonDependency := Without(nonDependency, {path});
      dependency := Without(dependency, {path});
      calls := calls + [Removed(path)];
    }

    /** `Save`: writes the solution back; its entries do not change. */
    method Save()
      modifies this
      ensures nonDependency == old(nonDependency) && dependency == old(dependency)
      ensures calls == old(calls) + [Saved]
    {
      calls := calls + [Saved];
    }
  }
}
