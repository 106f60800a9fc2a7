# Virconium: solution dependency reconciliation

`DefaultVirconiumService` (R5T.Virconium.Default) keeps a Visual Studio solution in line with the
project references of its projects, in two ways:

- **Add missing project dependencies.** It takes every project the solution lists. It asks the
  recursive reference lookup for all projects those projects depend on, directly or
  transitively. It lists each one the solution does not list yet in the solution's dependencies
  folder. Then it saves the solution once.
- **Remove extraneous dependencies.** It takes the solution's non-dependency ("target")
  projects. It asks the recursive lookup what they depend on, minus the targets themselves:
  these are the required dependencies. It removes every project of the dependencies folder that
  is not required, in alphabetical order. Then it saves the solution once.

Both take a `dryRun` flag. A dry run computes and reports everything and changes nothing.

The model has four modules:

- `Paths` (`paths.dfy`): project paths, the ordinal string order, and `SortAlphabetically`
  (an insertion sort proved ascending and a permutation).
- `Linq` (`linq.dfy`): `Except` with the semantics of .NET's `Enumerable.Except`: the
  distinct elements of the first sequence that are not in the second, in order of first
  occurrence. Also `Without`, the order-keeping removal of a set of entries.
- `Solutions` (`solution.dfy`): the loaded solution file as a class. Its fields are the
  non-dependency entries and the dependencies-folder entries. It also has a ghost record of
  every add, remove and save call made on it.
- `Virconium` (`virconium.dfy`): the three set computations as functions, the two service
  operations as methods with their loops, and the lemmas about them.

The recursive reference lookup `GetProjectReferenceDependencyFilePathsRecursive` reads project
files. It is not part of this model. Each operation takes it as a parameter
`closure: seq<Path> -> seq<Path>`, and no lemma assumes anything about it except
`AddMissingIdempotent`. That lemma assumes `TransitiveLookup`, a property of the lookup over
all inputs: whatever the lookup finds from paths already covered by a list and that list's
lookup is itself covered.

Two details of the code shape the model:

- The add loop visits the missing paths in `Except` order, the order the lookup returned them.
  Only the remove loop sorts.
- Remove mode compares the required set with the dependencies-folder projects only (line 109
  of `DefaultVirconiumService.cs`), not with the whole solution.

Both operations default to a dry run: `dryRun` is `true` unless the caller says otherwise
(lines 18 and 80), and the model's methods take the same default.

## Model

| member | source | states |
|---|---|---|
| `Linq.Except` | source/R5T.Virconium.Default/Code/Services/Implementations/DefaultVirconiumService.cs:48 | the result holds a path iff the first sequence holds it and the second does not, and it holds no path twice |
| `Linq.ExceptSnoc` | source/R5T.Virconium.Default/Code/Services/Implementations/DefaultVirconiumService.cs:98 | order of first occurrence: appending `x` to the first sequence appends `x` to the result exactly when `x` is new to the first sequence and absent from the second |
| `Linq.ExceptOfDistinct` | source/R5T.Virconium.Default/Code/Services/Implementations/DefaultVirconiumService.cs:120 | on a first sequence without repeats, `Except` is the order-keeping filter that drops the second sequence's elements |
| `Paths.SortAlphabetically` | source/R5T.Virconium.Default/Code/Services/Implementations/DefaultVirconiumService.cs:141 | the result is ascending in ordinal order and is a permutation of the input |
| `Paths.SortAlphabeticallyMembers` | source/R5T.Virconium.Default/Code/Services/Implementations/DefaultVirconiumService.cs:141 | sorting keeps exactly the paths it was given: a path is in the sorted sequence iff it is in the input |
| `Paths.SortAlphabeticallyStrict` | source/R5T.Virconium.Default/Code/Services/Implementations/DefaultVirconiumService.cs:125 | sorting paths without repeats (the `Except` result at line 120) still lists each path once |
| `Paths.AscendingOrdered` | source/R5T.Virconium.Default/Code/Services/Implementations/DefaultVirconiumService.cs:141 | in a sorted sequence every path sorts no later than every path after it, not just its neighbour |
| `Paths.AtMostTotal` | source/R5T.Virconium.Default/Code/Services/Implementations/DefaultVirconiumService.cs:141 | any two paths are comparable, so the sort order is total |
| `Paths.AtMostAntisymmetric` | source/R5T.Virconium.Default/Code/Services/Implementations/DefaultVirconiumService.cs:141 | two paths that each sort no later than the other are equal |
| `Paths.AtMostTransitive` | source/R5T.Virconium.Default/Code/Services/Implementations/DefaultVirconiumService.cs:141 | the sort order is transitive |
| `Virconium.DependenciesOutside` | source/R5T.Virconium.Default/Code/Services/Implementations/DefaultVirconiumService.cs:26-48 | a path is missing iff the recursive lookup from the solution's projects returns it and the solution's project list (copied at line 26) does not hold it; no path is missing twice. Applied to the targets (lines 84-98) it gives the required set, which therefore holds no target |
| `Virconium.ExtraneousDependencies` | source/R5T.Virconium.Default/Code/Services/Implementations/DefaultVirconiumService.cs:109-120 | a path is extraneous iff the dependencies folder (copied at line 109) holds it and it is not required: a subset of the folder, disjoint from the required set, no path twice |
| `Virconium.AdditionCalls` | source/R5T.Virconium.Default/Code/Services/Implementations/DefaultVirconiumService.cs:67-76 | a live add run makes one add call per missing path and then one save, the last call; no call repeats; every added path comes from the lookup and was not in the solution |
| `Virconium.RemovalCalls` | source/R5T.Virconium.Default/Code/Services/Implementations/DefaultVirconiumService.cs:139-148 | a live remove run makes one remove call per extraneous path and then one save, the last call; every removed path is in the dependencies folder and is not required |
| `Virconium.RemovalOrder` | source/R5T.Virconium.Default/Code/Services/Implementations/DefaultVirconiumService.cs:141-146 | of any two removal calls, the earlier removes a path strictly before the later's in alphabetical order, so no path is removed twice |
| `Virconium.AddMissingProjectDependencies` | source/R5T.Virconium.Default/Code/Services/Implementations/DefaultVirconiumService.cs:18-78 | dry run: entries and calls unchanged; live: the project list becomes the old list followed by exactly the missing paths in `Except` order, the dependencies folder gains exactly those, the calls are `AdditionCalls` of the old list; non-dependency entries never change; a solution listing each project once still does |
| `Virconium.AddEach` | source/R5T.Virconium.Default/Code/Services/Implementations/DefaultVirconiumService.cs:69-74 | the add loop appends the given paths to the dependencies folder in order, one add call each, and leaves the other entries alone |
| `Virconium.RemoveExtraneousDependencies` | source/R5T.Virconium.Default/Code/Services/Implementations/DefaultVirconiumService.cs:80-150 | dry run: entries and calls unchanged; live: both entry lists lose exactly the extraneous paths (computed from the state before any removal), the calls are `RemovalCalls` of the old state; on a solution listing each project once, non-dependency entries are unchanged and the solution still lists each project once |
| `Virconium.RemoveEach` | source/R5T.Virconium.Default/Code/Services/Implementations/DefaultVirconiumService.cs:141-146 | the remove loop drops the given paths from both entry lists, keeping the order of the rest, one remove call each, in the given order |
| `Virconium.ValidAfterRemoval` | source/R5T.Virconium.Default/Code/Services/Implementations/DefaultVirconiumService.cs:141-146 | removing dependencies-folder paths from a solution that lists each project once leaves the non-dependency entries as they were and keeps every project listed once |
| `Virconium.AddMissingIdempotent` | source/R5T.Virconium.Default/Code/Services/Implementations/DefaultVirconiumService.cs:26-76 | for any lookup that is transitive (`TransitiveLookup`: from paths covered by a list and its lookup, the lookup finds only covered paths), a second add run over the grown project list finds nothing missing |
| `Virconium.RemoveExtraneousIdempotent` | source/R5T.Virconium.Default/Code/Services/Implementations/DefaultVirconiumService.cs:84-148 | with the targets unchanged, a second remove run over the remaining dependencies folder finds nothing extraneous |
| `Solutions.SolutionFile.Load` | source/R5T.Virconium.Default/Code/Services/Implementations/DefaultVirconiumService.cs:24 | a freshly loaded solution holds the given entries and has had no call made on it |
| `Solutions.SolutionFile.ProjectReferenceFilePaths` | source/R5T.Virconium.Default/Code/Services/Implementations/DefaultVirconiumService.cs:26 | the solution's projects are exactly its non-dependency and its dependencies-folder entries |
| `Solutions.SolutionFile.AddProjectReferenceDependencyChecked` | source/R5T.Virconium.Default/Code/Services/Implementations/DefaultVirconiumService.cs:71 | appends the path to the dependencies folder, records one add call, leaves the other entries alone |
| `Solutions.SolutionFile.RemoveProjectReference` | source/R5T.Virconium.Default/Code/Services/Implementations/DefaultVirconiumService.cs:143 | the solution no longer lists the path in either list, the rest keep their order, one remove call is recorded |
| `Solutions.SolutionFile.Save` | source/R5T.Virconium.Default/Code/Services/Implementations/DefaultVirconiumService.cs:76 | records one save call and changes no entry |

## Left out

- Writing to the `TextWriter`: the headings, counts and sorted listings are reporting output and are not modelled.
- `SolutionFile.Load` and `Save` read and write the solution file on disk. Loading is a constructor given the entries; saving is a recorded call.
- `GetProjectReferenceFilePaths`, `GetNonDependencyProjectFilePaths` and `GetProjectReferenceDependencyFilePaths` parse the solution text. Their results are the class's fields. The full project list is modelled as the non-dependency entries followed by the dependencies-folder entries, because the order the solution file interleaves them in is not known.
- `GetProjectReferenceDependencyFilePathsRecursive` reads project files. It is a parameter of each operation, so its traversal, its cycle handling and its failures are not modelled.
- Exceptions thrown by the file reading, the lookup or the solution-file calls are not modelled. Every operation here runs to the end.
- `Solutions.SolutionFile.AddProjectReferenceDependencyChecked`: models only that the path is appended to the dependencies folder, not what the "checked" variant does with a path already listed. The service never passes one, because missing paths are not in the solution.
- `Solutions.SolutionFile.RemoveProjectReference`: models only the solution's project list, not the project blocks or the nesting entries the solution file also holds.
- `Paths.SortAlphabetically`: `SortAlphabetically` (line 141) is an extension method from R5T.Magyar. Its source is not part of this model and its comparer is unknown, so the model fixes ordinal (character-code) order. A culture-aware comparer could order some paths differently.
- `Linq.Except` is computed eagerly. In the source the calls at lines 48 and 120 are lazy and are enumerated several times. Both of their operands are fixed before the loops, so every enumeration yields the same sequence.
- Path normalisation (case, separators, relative versus absolute paths) is left to the external path helpers. Paths are compared as plain strings.
- `ServiceImplementationMarker`, the `IVirconiumService` interface and dependency injection do not affect behaviour.
