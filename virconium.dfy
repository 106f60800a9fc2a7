/** `DefaultVirconiumService`: reconciles a solution's project list with the projects its
    projects reference, directly or transitively.

    The recursive reference lookup (`GetProjectReferenceDependencyFilePathsRecursive`) reads
    project files from disk; here it is the parameter `closure`, and nothing is assumed of it
    beyond being a function of the paths it is given. */
module Virconium {

  import opened Linq
  import opened Paths
  import opened Solutions

  /** The paths the recursive lookup finds from `projects` that are not among `projects`, each
      once, in the order the lookup returned them: the missing dependencies of the add run
      (the lookup from every solution project) and the required dependencies of the remove
      run (the lookup from the non-dependency projects). */
  function DependenciesOutside(projects: seq<Path>, closure: seq<Path> -> seq<Path>): (found: seq<Path>)
    ensures Distinct(found)
    ensures forall p :: p in found <==> p in closure(projects) && p !in projects
  {
    Except(closure(projects), projects)
  }

  /** The projects of the dependencies folder that no target needs. */
  function ExtraneousDependencies(dependencyProjects: seq<Path>, required: seq<Path>): (extraneous: seq<Path>)
    ensures Distinct(extraneous)
    ensures forall p :: p in extraneous <==> p in dependencyProjects && p !in required
  {
    Except(dependencyProjects, required)
  }

  /** The calls a live add-missing run makes: one add per missing dependency, in the order
      found, each path once, then a single save. */
  function AdditionCalls(solutionProjects: seq<Path>, closure: seq<Path> -> seq<Path>): (calls: seq<Call>)
    ensures |calls| == |DependenciesOutside(solutionProjects, closure)| + 1
    ensures SaveCount(calls) == 1 && calls[|calls| - 1] == Saved
    ensures Distinct(calls)
    ensures forall i :: 0 <= i < |calls| - 1 ==>
      calls[i].Added? && calls[i].path in closure(solutionProjects) && calls[i].path !in solutionProjects
  {
    var missing := DependenciesOutside(solutionProjects, closure);
    var adds := AddedCalls(missing);
    SavedOnceAtEnd(adds);
    DistinctConcat(adds, [Saved]);
    adds + [Saved]
  }

  lemma AdditionCallsAre(solutionProjects: seq<Path>, closure: seq<Path> -> seq<Path>)
    ensures AdditionCalls(solutionProjects, closure) == AddedCalls(DependenciesOutside(solutionProjects, closure)) + [Saved]
  {
  }

  /** The calls a live remove-extraneous run makes: one removal per extraneous dependency,
      then a single save. */
  function RemovalCalls(targets: seq<Path>, dependencyProjects: seq<Path>, closure: seq<Path> -> seq<Path>): (calls: seq<Call>)
    ensures |calls| == |ExtraneousDependencies(dependencyProjects, DependenciesOutside(targets, closure))| + 1
    ensures SaveCount(calls) == 1 && calls[|calls| - 1] == Saved
    ensures forall i :: 0 <= i < |calls| - 1 ==>
      calls[i].Removed? && calls[i].path in dependencyProjects
      && calls[i].path !in DependenciesOutside(targets, closure)
  {
    var extraneous := ExtraneousDependencies(dependencyProjects, DependenciesOutside(targets, closure));
    var ordered := SortAlphabetically(extraneous);
    var removals := RemovedCalls(ordered);
    SortAlphabeticallyMembers(extraneous);
    SavedOnceAtEnd(removals);
    removals + [Saved]
  }

  lemma RemovalCallsAre(targets: seq<Path>, dependencyProjects: seq<Path>, closure: seq<Path> -> seq<Path>)
    ensures RemovalCalls(targets, dependencyProjects, closure)
         == RemovedCalls(SortAlphabetically(ExtraneousDependencies(dependencyProjects, DependenciesOutside(targets, closure)))) + [Saved]
  {
  }

  /** A live remove-extraneous run removes each path at most once, in strictly ascending
      alphabetical order. */
  lemma RemovalOrder(targets: seq<Path>, dependencyProjects: seq<Path>, closure: seq<Path> -> seq<Path>, i: nat, j: nat)
    requires i < j < |RemovalCalls(targets, dependencyProjects, closure)| - 1
    ensures var calls := RemovalCalls(targets, dependencyProjects, closure);
      AtMost(calls[i].path, calls[j].path) && calls[i].path != calls[j].path
  {
    var extraneous := ExtraneousDependencies(dependencyProjects, DependenciesOutside(targets, closure));
    var ordered := SortAlphabetically(extraneous);
    SortAlphabeticallyStrict(extraneous);
    AscendingOrdered(ordered, i, j);
  }

  /** Every path of `qs` is in `ps` or found by the lookup from `ps`. */
  ghost predicate Covered(ps: seq<Path>, qs: seq<Path>, closure: seq<Path> -> seq<Path>)
  {
    forall q :: q in qs ==> q in ps || q in closure(ps)
  }

  /** What a transitive lookup guarantees for any inputs: starting from paths that `ps` and its
      lookup already cover, the lookup finds nothing they do not cover. */
  ghost predicate TransitiveLookup(closure: seq<Path> -> seq<Path>)
  {
    forall ps, qs :: Covered(ps, qs, closure) ==> Covered(ps, closure(qs), closure)
  }

  /** After a live add-missing run, a second run finds nothing missing, for any lookup that is
      transitive in the sense above. */
  lemma AddMissingIdempotent(solutionProjects: seq<Path>, closure: seq<Path> -> seq<Path>)
    requires TransitiveLookup(closure)
    ensures DependenciesOutside(solutionProjects + DependenciesOutside(solutionProjects, closure), closure) == []
  {
    var grown := solutionProjects + DependenciesOutside(solutionProjects, closure);
    assert Covered(solutionProjects, grown, closure);
    assert Covered(solutionProjects, closure(grown), closure);
    HeadIsMember(DependenciesOutside(grown, closure));
  }

  /** After a live remove-extraneous run (targets unchanged, as a solution listing each
      project once guarantees), a second run finds nothing extraneous. */
  lemma RemoveExtraneousIdempotent(targets: seq<Path>, dependencyProjects: seq<Path>, closure: seq<Path> -> seq<Path>)
    ensures var required := DependenciesOutside(targets, closure);
      var remaining := Without(dependencyProjects, Elements(ExtraneousDependencies(dependencyProjects, required)));
      ExtraneousDependencies(remaining, required) == []
  {
    var required := DependenciesOutside(targets, closure);
    var remaining := Without(dependencyProjects, Elements(ExtraneousDependencies(dependencyProjects, required)));
    HeadIsMember(ExtraneousDependencies(remaining, required));
  }

  /** `AddMissingProjectDependencies`: lists every missing dependency in the solution's
      dependencies folder, in the order found, then saves once; a dry run changes nothing. */
  method AddMissingProjectDependencies(solution: SolutionFile, closure: seq<Path> -> seq<Path>, dryRun: bool := true)
    modifies solution
    ensures solution.nonDependency == old(solution.nonDependency)
    ensures dryRun ==> solution.dependency == old(solution.dependency) && solution.calls == old(solution.calls)
    ensures !dryRun ==>
      var missing := DependenciesOutside(old(solution.ProjectReferenceFilePaths()), closure);
      && solution.dependency == old(solution.dependency) + missing
      && solution.ProjectReferenceFilePaths() == old(solution.ProjectReferenceFilePaths()) + missing
      && solution.calls == old(solution.calls) + AdditionCalls(old(solution.ProjectReferenceFilePaths()), closure)
    ensures old(solution.Valid()) ==> solution.Valid()
  {
    // The solution's project list, copied before anything is added.
    var solutionProjects := solution.ProjectReferenceFilePaths();
    var missing := DependenciesOutside(solutionProjects, closure);
    if !dryRun {
      AddEach(solution, missing);
      solution.Save();
      AdditionCallsAre(solutionProjects, closure);
      assert solution.calls == old(solution.calls) + (AddedCalls(missing) + [Saved]);
      ConcatAssociative(old(solution.nonDependency), old(solution.dependency), missing);
      if old(solution.Valid()) {
        DistinctConcat(solutionProjects, missing);
      }
    }
  }

  lemma ConcatAssociative(a: seq<Path>, b: seq<Path>, c: seq<Path>)
    ensures a + (b + c) == (a + b) + c
  {
  }

  /** The addition loop: lists each path of `missing` in the dependencies folder, in that order. */
  method AddEach(solution: SolutionFile, missing: seq<Path>)
    modifies solution
    ensures solution.nonDependency == old(solution.nonDependency)
    ensures solution.dependency == old(solution.dependency) + missing
    ensures solution.calls == old(solution.calls) + AddedCalls(missing)
  {
    for i := 0 to |missing|
      invariant solution.nonDependency == old(solution.nonDependency)
      invariant solution.dependency == old(solution.dependency) + missing[..i]
      invariant solution.calls == old(solution.calls) + AddedCalls(missing[..i])
    {
      solution.AddProjectReferenceDependencyChecked(missing[i]);
      assert missing[..i + 1] == missing[..i] + [missing[i]];
      AddedCallsNext(missing, i);
    }
    assert missing[..|missing|] == missing;
  }

  lemma AddedCallsNext(missing: seq<Path>, i: nat)
    requires i < |missing|
    ensures AddedCalls(missing[..i + 1]) == AddedCalls(missing[..i]) + [Added(missing[i])]
  {
  }

  /** `RemoveExtraneousDependencies`: removes, in alphabetical order, every project of the
      dependencies folder that the non-dependency projects do not need, then saves once;
      a dry run changes nothing. */
  method RemoveExtraneousDependencies(solution: SolutionFile, closure: seq<Path> -> seq<Path>, dryRun: bool := true)
    modifies solution
    ensures dryRun ==>
      && solution.nonDependency == old(solution.nonDependency)
      && solution.dependency == old(solution.dependency)
      && solution.calls == old(solution.calls)
    ensures !dryRun ==>
      var required := DependenciesOutside(old(solution.nonDependency), closure);
      var extraneous := ExtraneousDependencies(old(solution.dependency), required);
      && solution.nonDependency == Without(old(solution.nonDependency), Elements(extraneous))
      && solution.dependency == Without(old(solution.dependency), Elements(extraneous))
      && solution.calls == old(solution.calls) + RemovalCalls(old(solution.nonDependency), old(solution.dependency), closure)
    ensures old(solution.Valid()) ==> solution.Valid() && solution.nonDependency == old(solution.nonDependency)
  {
    // The target projects, copied before anything is removed.
    var targets := solution.nonDependency;
    var required := DependenciesOutside(targets, closure);
    // The dependencies folder, copied before anything is removed.
    var dependencyProjects := solution.dependency;
    var extraneous := ExtraneousDependencies(dependencyProjects, required);
    if !dryRun {
      var ordered := SortAlphabetically(extraneous);
      RemoveEach(solution, ordered);
      SortAlphabeticallyMembers(extraneous);
      assert Elements(ordered) == Elements(extraneous);
      solution.Save();
      RemovalCallsAre(targets, dependencyProjects, closure);
      assert solution.calls == old(solution.calls) + (RemovedCalls(ordered) + [Saved]);
      if old(solution.Valid()) {
        ValidAfterRemoval(targets, dependencyProjects, Elements(extraneous));
      }
    }
  }

  /** The removal loop: removes each path of `ordered` from the solution, in that order. */
  method RemoveEach(solution: SolutionFile, ordered: seq<Path>)
    modifies solution
    ensures solution.nonDependency == Without(old(solution.nonDependency), Elements(ordered))
    ensures solution.dependency == Without(old(solution.dependency), Elements(ordered))
    ensures solution.calls == old(solution.calls) + RemovedCalls(ordered)
  {
    WithoutNone(solution.nonDependency, ordered);
    WithoutNone(solution.dependency, ordered);
    for i := 0 to |ordered|
      invariant solution.nonDependency == Without(old(solution.nonDependency), Elements(ordered[..i]))
      invariant solution.dependency == Without(old(solution.dependency), Elements(ordered[..i]))
      invariant solution.calls == old(solution.calls) + RemovedCalls(ordered[..i])
    {
      solution.RemoveProjectReference(ordered[i]);
      WithoutNext(old(solution.nonDependency), ordered, i);
      WithoutNext(old(solution.dependency), ordered, i);
      RemovedCallsNext(ordered, i);
    }
    assert ordered[..|ordered|] == ordered;
  }

  /** Removing projects of the dependencies folder from a solution that lists each project once
      leaves the other projects alone and still lists each project once. */
  lemma ValidAfterRemoval(nonDependency: seq<Path>, dependency: seq<Path>, drop: set<Path>)
    requires Distinct(nonDependency + dependency)
    requires forall p :: p in drop ==> p in dependency
    ensures Without(nonDependency, drop) == nonDependency
    ensures Distinct(nonDependency + Without(dependency, drop))
  {
    DistinctSplit(nonDependency, dependency);
    WithoutAbsent(nonDependency, drop);
    WithoutDistinct(dependency, drop);
    DistinctConcat(nonDependency, Without(dependency, drop));
  }

  /** Removing the first `0` paths of `ordered` leaves a sequence as it was. */
  lemma WithoutNone(s: seq<Path>, ordered: seq<Path>)
    ensures Without(s, Elements(ordered[..0])) == s
  {
    assert Elements(ordered[..0]) == {};
    WithoutAbsent(s, {});
  }

  /** Removing the next path of `ordered` after the first `i` extends the removed prefix. */
  lemma WithoutNext(s: seq<Path>, ordered: seq<Path>, i: nat)
    requires i < |ordered|
    ensures Without(Without(s, Elements(ordered[..i])), {ordered[i]}) == Without(s, Elements(ordered[..i + 1]))
  {
    assert Elements(ordered[..i + 1]) == Elements(ordered[..i]) + {ordered[i]} by {
      assert ordered[..i + 1] == ordered[..i] + [ordered[i]];
    }
    WithoutTwice(s, Elements(ordered[..i]), {ordered[i]});
  }

  lemma RemovedCallsNext(ordered: seq<Path>, i: nat)
    requires i < |ordered|
    ensures RemovedCalls(ordered[..i + 1]) == RemovedCalls(ordered[..i]) + [Removed(ordered[i])]
  {
  }
}
