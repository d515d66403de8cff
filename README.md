# Duplicate throws, imported-module placeholders and pull-members-up rules

This project models three IDE plug-in components in Dafny and proves what they promise.

- **`DuplicateThrowsInspection`** (`DuplicateThrows.dfy`) is the Java inspection that reports a `throws` clause listing the same exception twice. Unless `ignoreSubclassing` is set, it also reports an exception together with one of its superclasses.
  - `VisitMethod` is the nested loop over index pairs `i < j`, proved equal to `Reports`.
  - `Reports` concatenates the per-pair verdicts `PairReport` in visiting order.
  - The lemmas characterise which reports exist, which entry each one flags and which type its quick fix removes.
- **`PyImportedModule`** (`ImportedModule.dfy`) is the placeholder the Python support creates for a partially written dotted import. After `import a.b.c`, the name `a` is a placeholder with prefix `a`, and a lookup of `b` inside it extends the prefix.
  - The search loops are methods proved equal to functions:
    - the scan of a list of import elements equals the first-match function `FirstMatch`;
    - the walk over the enclosing stub scopes (`CollectImportTargets`) equals the concatenation `ImportTargets`, and `TargetsSearchOrder` proves that a first match over it is the match of the innermost scope that has one;
    - the nested scan of the `from` statements equals the first-match function `FirstFromImport`.
  - `ElementNamed` decides between a resolved element, a deeper placeholder, a `from`-import result and null.
- **`PullUpDialog`** (`PullUp.dfy`) is the "Pull Members Up" dialog of the Java refactorings. It covers:
  - the member model's enablement, abstractness and problem rules;
  - the statistics-driven preselection of the target superclass (`GetPreselection`);
  - what confirming the dialog records (`DoAction`, over the classes `StatisticsStore` and `RefactoringSettings`);
  - the loop that sets the initial "make abstract" flags in place over an `array` of member infos (`SetAbstractFlags`).

`Wrappers.dfy` holds `Option`, which stands for a nullable reference.

Host services are parameters or plain values:
- type assignability is a function `isAssignableFrom(a, b)`, meaning `a.isAssignableFrom(b)`;
- import resolution is an oracle returning `Option`;
- the member storage and signature lookups are sets on the `SuperClass` record;
- the inherited problem check is a function parameter;
- the conflict-check callback is a boolean argument.

Qualified names are sequences of components:
- appending a component is concatenation;
- "matches prefix `p`" means `p` is a prefix of the components;
- "matches `name`" means the name is the single component `name`;
- the text form joins the components with `.`.

## Model

| member | source | states |
|---|---|---|
| DuplicateThrowsInspection.PairReport | java/java-analysis-impl/src/com/intellij/codeInspection/duplicateThrows/DuplicateThrowsInspection.java:54-70 | A pair yields at most one report. It flags entry i or entry j, and the fix removes the flagged entry's own type. Entry j is flagged only when subclassing is considered and the message names a more general type. A pair yields no report exactly when its types differ and either subclassing is ignored or neither is assignable from the other. |
| DuplicateThrowsInspection.ComparePair | java/java-analysis-impl/src/com/intellij/codeInspection/duplicateThrows/DuplicateThrowsInspection.java:54-71 | The loop body gives exactly the pair's verdict, with `problem`, `ref` and `type` reassigned as in the source. |
| DuplicateThrowsInspection.CompareRow | java/java-analysis-impl/src/com/intellij/codeInspection/duplicateThrows/DuplicateThrowsInspection.java:53-74 | The inner loop for entry i registers the verdicts of (i, i+1), …, (i, n-1), in that order. |
| DuplicateThrowsInspection.VisitMethod | java/java-analysis-impl/src/com/intellij/codeInspection/duplicateThrows/DuplicateThrowsInspection.java:48-76 | The registered problems are exactly the per-pair verdicts over all pairs, in visiting order. |
| DuplicateThrowsInspection.PairsMembership | java/java-analysis-impl/src/com/intellij/codeInspection/duplicateThrows/DuplicateThrowsInspection.java:52-53 | The loops compare exactly the index pairs 0 <= i < j < n. |
| DuplicateThrowsInspection.PairsLength | java/java-analysis-impl/src/com/intellij/codeInspection/duplicateThrows/DuplicateThrowsInspection.java:52-53 | They compare n(n-1)/2 pairs, each unordered pair once. |
| DuplicateThrowsInspection.PairsSorted | java/java-analysis-impl/src/com/intellij/codeInspection/duplicateThrows/DuplicateThrowsInspection.java:52-53 | Pairs are visited in strictly increasing lexicographic order. |
| DuplicateThrowsInspection.ReportsMembership | java/java-analysis-impl/src/com/intellij/codeInspection/duplicateThrows/DuplicateThrowsInspection.java:52-73 | A report is registered if and only if some pair i < j yields it. |
| DuplicateThrowsInspection.ReportsBound | java/java-analysis-impl/src/com/intellij/codeInspection/duplicateThrows/DuplicateThrowsInspection.java:52-53 | There are at most n(n-1)/2 reports, and none for fewer than two types. |
| DuplicateThrowsInspection.FixRemovesFlagged | java/java-analysis-impl/src/com/intellij/codeInspection/duplicateThrows/DuplicateThrowsInspection.java:57-72 | Every report's fix removes exactly the highlighted entry's type. |
| DuplicateThrowsInspection.DuplicateFlagsEarlier | java/java-analysis-impl/src/com/intellij/codeInspection/duplicateThrows/DuplicateThrowsInspection.java:57-59 | For identical types at i < j, the earlier entry is reported as a duplicate and its type is removed. |
| DuplicateThrowsInspection.NarrowerEarlierFlagged | java/java-analysis-impl/src/com/intellij/codeInspection/duplicateThrows/DuplicateThrowsInspection.java:61-63 | When types[j] is assignable from a different types[i], entry i is flagged and the message names types[j]. This holds even when the types are assignable both ways. |
| DuplicateThrowsInspection.NarrowerLaterFlagged | java/java-analysis-impl/src/com/intellij/codeInspection/duplicateThrows/DuplicateThrowsInspection.java:65-68 | Otherwise, when types[i] is assignable from types[j], entry j is flagged, its type is removed and the message names types[i]. |
| DuplicateThrowsInspection.IgnoreSubclassingOnlyDuplicates | java/java-analysis-impl/src/com/intellij/codeInspection/duplicateThrows/DuplicateThrowsInspection.java:58-61 | With `ignoreSubclassing`, every report is a duplicate of a later identical entry. |
| DuplicateThrowsInspection.UnrelatedNoReports | java/java-analysis-impl/src/com/intellij/codeInspection/duplicateThrows/DuplicateThrowsInspection.java:56-71 | No report is registered if and only if the types are pairwise distinct and, unless subclassing is ignored, pairwise unrelated by assignability. |
| DuplicateThrowsInspection.ReportsJustified | java/java-analysis-impl/src/com/intellij/codeInspection/duplicateThrows/DuplicateThrowsInspection.java:56-71 | Every registered report is justified: a duplicate has an equal entry at another index, and a "more general" report occurs only when subclassing is considered and names a different type, declared at another index, that the flagged entry's type is assignable to. |
| DuplicateThrowsInspection.ThreeDuplicates | java/java-analysis-impl/src/com/intellij/codeInspection/duplicateThrows/DuplicateThrowsInspection.java:52-72 | A type listed three times gives three reports: entry 0 twice, then entry 1. |
| PyImportedModule.FindMatchingImportElementInList | python/src/com/jetbrains/python/psi/impl/PyImportedModule.java:117-126 | The scan returns the first element whose non-null name starts with the prefix, or null. |
| PyImportedModule.FirstMatchSpec | python/src/com/jetbrains/python/psi/impl/PyImportedModule.java:118-126 | The match is at the least matching index, and the search fails exactly when no element matches. |
| PyImportedModule.FirstMatchAppend | python/src/com/jetbrains/python/psi/impl/PyImportedModule.java:85-89 | Searching two lists in turn gives the first list's match if it has one, and otherwise the second's. |
| PyImportedModule.CollectImports | python/src/com/jetbrains/python/psi/impl/PyImportedModule.java:109-115 | Appends the elements of every import statement of one scope, in order. |
| PyImportedModule.CollectImportTargets | python/src/com/jetbrains/python/psi/impl/PyImportedModule.java:92-107 | The walk collects the container's imports, then each stub parent's outward, then the file's last. |
| PyImportedModule.TargetsSearchOrder | python/src/com/jetbrains/python/psi/impl/PyImportedModule.java:92-107 | The innermost scope with a match decides, and the file's imports are tried only after every stub scope. |
| PyImportedModule.MatchingImportElement | python/src/com/jetbrains/python/psi/impl/PyImportedModule.java:83-90 | A found element starts with the prefix and is a local or a transitive target of the file. |
| PyImportedModule.FindMatchingImportElement | python/src/com/jetbrains/python/psi/impl/PyImportedModule.java:83-90 | The local targets are searched before the file's transitive targets. |
| PyImportedModule.MatchingImportElementNone | python/src/com/jetbrains/python/psi/impl/PyImportedModule.java:84-90 | The import search fails exactly when no local or transitive target starts with the prefix. |
| PyImportedModule.FindMatchingFromImport | python/src/com/jetbrains/python/psi/impl/PyImportedModule.java:65-81 | The nested scan with early return returns the first `from` element importing `name` out of a statement whose source is the prefix. |
| PyImportedModule.FirstNamedSpec | python/src/com/jetbrains/python/psi/impl/PyImportedModule.java:72-77 | The element found imports exactly `name` and is at the least such index. There is none exactly when no element does. |
| PyImportedModule.FirstFromImportSpec | python/src/com/jetbrains/python/psi/impl/PyImportedModule.java:66-80 | Only statements whose source equals the un-extended prefix are considered. The result is the first element importing `name` in the first such statement that has one; every earlier statement has another source or no such element. The search fails exactly when none of them imports `name`. |
| PyImportedModule.ElementNamed | python/src/com/jetbrains/python/psi/impl/PyImportedModule.java:47-63 | A returned placeholder has the same container and the prefix extended by exactly `name`, and it arises only from a matching import. |
| PyImportedModule.GetElementNamed | python/src/com/jetbrains/python/psi/impl/PyImportedModule.java:47-63 | Run with the search loops, the lookup equals `ElementNamed`. |
| PyImportedModule.ExactImportResolves | python/src/com/jetbrains/python/psi/impl/PyImportedModule.java:49-55 | If the first matching import names exactly `prefix.name`, the result is its resolution. If its name is longer, the result is the deeper placeholder. |
| PyImportedModule.ImportBeforeFromImport | python/src/com/jetbrains/python/psi/impl/PyImportedModule.java:49-60 | With a matching import, neither the `from` statements nor `from` resolution changes the result, apart from the container a placeholder carries. |
| PyImportedModule.NullLookup | python/src/com/jetbrains/python/psi/impl/PyImportedModule.java:47-63 | Null comes only when both searches fail, or when the element found resolves to null. |
| PyImportedModule.FromImportLookup | python/src/com/jetbrains/python/psi/impl/PyImportedModule.java:57-60 | Without a matching import, the lookup is the `from` resolution of the element the `from` search finds and never a placeholder. It is null when no `from` statement with the element's prefix as source imports `name`. |
| PyImportedModule.NavigationElement | python/src/com/jetbrains/python/psi/impl/PyImportedModule.java:150-160 | Navigation goes to the resolution of the first import matching the element's own prefix, or else to the element itself. It is a resolved target exactly when that import exists and resolves. |
| PyImportedModule.GetNavigationElement | python/src/com/jetbrains/python/psi/impl/PyImportedModule.java:150-160 | Run with the search loops, navigation equals `NavigationElement`. |
| PyImportedModule.PlaceholderNavigatesToItsImport | python/src/com/jetbrains/python/psi/impl/PyImportedModule.java:151-157 | A placeholder from a lookup navigates to the resolution of the import that produced it. |
| PyImportedModule.Copy | python/src/com/jetbrains/python/psi/impl/PyImportedModule.java:140-142 | A copy has the same container and prefix. |
| PyImportedModule.CopyBehavesAlike | python/src/com/jetbrains/python/psi/impl/PyImportedModule.java:140-142 | A copy answers every lookup as the original does and has the same navigation target. |
| PyImportedModule.Text | python/src/com/jetbrains/python/psi/impl/PyImportedModule.java:132-134 | The text starts with "import ". |
| PyImportedModule.TextDeterminesPrefix | python/src/com/jetbrains/python/psi/impl/PyImportedModule.java:132-134 | For dot-free components, equal texts mean equal prefixes: the text is "import " followed by the joined prefix. |
| PyImportedModule.SplitJoin | python/src/com/jetbrains/python/psi/impl/PyImportedModule.java:133 | Splitting the joined text form of a dot-free name at '.' gives back its components. |
| PyImportedModule.ToString | python/src/com/jetbrains/python/psi/impl/PyImportedModule.java:144-147 | The debug string starts with "PyImportedModule:". |
| PyImportedModule.IterateNames | python/src/com/jetbrains/python/psi/impl/PyImportedModule.java:42-45 | Listing names always fails as unsupported. |
| PullUpDialog.MemberEnabledRules | java/java-impl/src/com/intellij/refactoring/memberPullUp/PullUpDialog.java:181-203 | With no target, every member is enabled. With a target, a member is enabled if and only if it is neither duplicated in nor extending the target, and it fits an interface when the target is one. |
| PullUpDialog.InterfaceTargetRules | java/java-impl/src/com/intellij/refactoring/memberPullUp/PullUpDialog.java:186-202 | Against an interface: inner interfaces and initializers are enabled; fields if and only if static; a method is disabled when its signature is already declared, and otherwise enabled if and only if non-static. |
| PullUpDialog.AbstractRules | java/java-impl/src/com/intellij/refactoring/memberPullUp/PullUpDialog.java:205-223 | With the "make abstract" box disabled, exactly the methods are abstract. With no target or a class target, the box is editable and no member is forced abstract. The box is editable unless the target is an interface below language level 8. |
| PullUpDialog.EnabledInterfaceMethodIsAbstract | java/java-impl/src/com/intellij/refactoring/memberPullUp/PullUpDialog.java:193-223 | An enabled method pulled into an interface is non-static and abstract when disabled. |
| PullUpDialog.ProblemsComeFromBaseCheck | java/java-impl/src/com/intellij/refactoring/memberPullUp/PullUpDialog.java:225-239 | A checked member gets OK, and so does a non-static member pulled into an interface. Every other member gets exactly the inherited check's verdict. |
| PullUpDialog.IsFixedAbstract | java/java-impl/src/com/intellij/refactoring/memberPullUp/PullUpDialog.java:241-243 | Always true. |
| PullUpDialog.StatKey | java/java-impl/src/com/intellij/refactoring/memberPullUp/PullUpDialog.java:109 | The statistics key starts with "pull.up##". |
| PullUpDialog.StatKeyInjective | java/java-impl/src/com/intellij/refactoring/memberPullUp/PullUpDialog.java:109 | Different class names (other than the literal "null") give different keys. |
| PullUpDialog.Inc | java/java-impl/src/com/intellij/refactoring/memberPullUp/PullUpDialog.java:137-138 | A use adds one to exactly one (key, value) count and leaves every other count unchanged. |
| PullUpDialog.Record | java/java-impl/src/com/intellij/refactoring/memberPullUp/PullUpDialog.java:137-138 | A used value is afterwards listed under its key. Other keys are unchanged, and old values keep their order. |
| PullUpDialog.StatisticsStore.IncUseCount | java/java-impl/src/com/intellij/refactoring/memberPullUp/PullUpDialog.java:137-138 | Incrementing updates the counts and the recorded values as `Inc` and `Record` say. |
| PullUpDialog.FindCandidateSpec | java/java-impl/src/com/intellij/refactoring/memberPullUp/PullUpDialog.java:113-118 | The inner search finds a candidate with that exact qualified name, and fails exactly when none has it. |
| PullUpDialog.StatisticsChoiceSpec | java/java-impl/src/com/intellij/refactoring/memberPullUp/PullUpDialog.java:110-123 | A statistics-driven choice is the candidate named by the first recorded value that names a candidate and has a positive count. Every earlier value names no candidate or has a zero count. There is none exactly when no such value names a candidate. |
| PullUpDialog.StatisticsChoiceFirst | java/java-impl/src/com/intellij/refactoring/memberPullUp/PullUpDialog.java:110-122 | The recorded value behind a statistics-driven choice is the first that names a candidate and has a positive count. |
| PullUpDialog.PreselectionIsCandidateOrNearest | java/java-impl/src/com/intellij/refactoring/memberPullUp/PullUpDialog.java:106-125 | The preselection is the nearest base class or an element of the candidate list. |
| PullUpDialog.GetPreselection | java/java-impl/src/com/intellij/refactoring/memberPullUp/PullUpDialog.java:106-125 | The nested search with `break` returns the statistics' choice under the class's key, or else the nearest base class. |
| PullUpDialog.DoAction | java/java-impl/src/com/intellij/refactoring/memberPullUp/PullUpDialog.java:131-145 | If the conflict check fails, nothing changes. Otherwise the javadoc policy is saved, and the count under "pull.up##" + class name is incremented when the superclass has a name. The refactoring then starts with the selected members. |
| PullUpDialog.RecordedChoiceIsPreselected | java/java-impl/src/com/intellij/refactoring/memberPullUp/PullUpDialog.java:106-139 | After a recorded choice that is a candidate, the next preselection comes from the statistics. If no other used value is recorded, it is that superclass. |
| PullUpDialog.OnlyUsedValueChosen | java/java-impl/src/com/intellij/refactoring/memberPullUp/PullUpDialog.java:110-122 | When one recorded value alone has been used, the statistics choose its candidate. |
| PullUpDialog.FirstStop | java/java-impl/src/com/intellij/refactoring/memberPullUp/PullUpDialog.java:152-160 | The loop stops at the first eligible member with a doc comment, and at no earlier member. |
| PullUpDialog.SetAbstractFlags | java/java-impl/src/com/intellij/refactoring/memberPullUp/PullUpDialog.java:151-162 | In place, each eligible member up to and including the stopping one gets "abstract when disabled" as its flag. The javadoc panel is enabled if and only if the loop stopped. |
| PullUpDialog.AbstractFlagsKeepRest | java/java-impl/src/com/intellij/refactoring/memberPullUp/PullUpDialog.java:152-161 | The loop changes no member and no check box, and leaves every member after the stopping one untouched. |
| PullUpDialog.AbstractFlagsOnlyInterfaceMethods | java/java-impl/src/com/intellij/refactoring/memberPullUp/PullUpDialog.java:154-155 | A flag is turned on only for a method pulled into an interface of level 8 or higher, at or before the stop. |
| PullUpDialog.BreakSkipsLaterMembers | java/java-impl/src/com/intellij/refactoring/memberPullUp/PullUpDialog.java:156-159 | With two methods, the first documented, pulled into a level-8 interface, only the first is made abstract, although the second is abstract when disabled. |
| PullUpDialog.SetAbstractFlagsCorrected | java/java-impl/src/com/intellij/refactoring/memberPullUp/PullUpDialog.java:151-162 | Without the early exit, every eligible member gets its flag. The javadoc panel is enabled if and only if some eligible member has a doc comment. |
| PullUpDialog.CorrectedFlagsAllInterfaceMethods | java/java-impl/src/com/intellij/refactoring/memberPullUp/PullUpDialog.java:154-155 | Without the early exit, every method pulled into a level-8 interface is made abstract, with member and check box unchanged. |

## Left out

- User interface: the options panel, the class combo box and its listener, the member selection table, the javadoc panel layout, help, dimension keys and all message texts. A problem's message is its `Problem` value: a duplicate, or a more general type (standing for its canonical text).
- Quick-fix and highlighting internals: the highlight type and the workings of the method-throws fix. Only the type handed to the fix is modelled.
- Throws list shape: its references and its types are assumed to be parallel arrays of equal length, so one index names both.
- Python element plumbing: the light-element constructor (manager, language), `getContainingFile`, `getImportedPrefix`, `accept`, `mustResolveOutside` (a constant `true`) and `isAncestorOf`. The last is a host tree query.
- Stub-tree traversal: the walk up the stub-or-PSI parents is given as the list of enclosing stub scopes, and the stub children of a scope as its import statements. The file's transitive import targets are a field of the file.
- Resolution: `ResolveImportUtil.resolveImportElement` and `PyUtil.turnDirIntoInit` are oracle parameters. The inherited `getNavigationElement` fallback is taken to be the element itself.
- Qualified names: `PyQualifiedName` is not part of this model. Its `append`, `matchesPrefix`, `matches`, `equals` and `toString` are assumed to be concatenation, prefix, single-component equality, component equality and '.'-joining.
- Java PSI queries: member-storage answers (duplicated, extending), the signature lookup in the superclass, language level and doc comments are fields of the `SuperClass` and `Member` records. Member-info identity is the member's id.
- Inherited problem check: `super.checkForProblems` is an oracle parameter, and the interface-containment verifier is not modelled.
- Confirmation flow: the conflict callback is a boolean argument, and the javadoc policy and the selected member infos are arguments. The refactoring executor and closing the dialog are reduced to the returned `PullUpRequest`.
- Statistics ordering: the order of the statistics manager's `getAllValues` is its own. The model appends a value the first time it is used, and `RecordedChoiceIsPreselected` therefore promises a statistics-driven preselection rather than a specific superclass when other used values exist.
- Copy: the source creates a new element object. A value model cannot tell a copy from the original by identity, so `Copy` and `CopyBehavesAlike` only show that the copy has the same container and prefix and answers alike.
- Aliasing: a member info shared with other lists is not modelled. The member infos form one array of values, and the flag loop updates its elements in place.

## Findings

| source | as written | input that shows it | evidently intended | confidence | as-written member | corrected member |
|---|---|---|---|---|---|---|
| java/java-impl/src/com/intellij/refactoring/memberPullUp/PullUpDialog.java:151-162 | The `break` that records the first doc comment leaves the whole loop, so no member after it gets its "make abstract" flag set. | A target interface at language level 8 and two methods, the first with a doc comment: only the first is made abstract, although the second is abstract when disabled. | Every eligible member gets its flag; the early exit only serves to find whether some doc comment exists. | medium; not executed | PullUpDialog.BreakSkipsLaterMembers | PullUpDialog.SetAbstractFlagsCorrected |
