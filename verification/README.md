# Verified models of PolyORB's build, test and start-up machinery

This project models the parts of PolyORB that decide what gets generated, what gets
started and what counts as a passed test, and proves for all inputs and all runs what
those parts guarantee. `dafny verify dfyconfig.toml` checks everything.

**The node generator** (`compilers/idlac/make_nodes.py`) is a small compiler: it reads a
hierarchy of node kinds with single inheritance and emits an Ada package with one flat
record for all kinds. `SchemaReader` is the reader with its two class dictionaries;
`SchemaRoundTrip` shows that any layout of a hierarchy, comments and blank lines included,
reads back as that hierarchy. `Inheritance`, `SortedNames` and `FieldTables` are
`get_fields`, the sorted kinds and the tables of field names. `ClassTests` gives the
generated `Is_X` functions a semantics as mutually recursive calls over the inverted
`children` dictionary and relates them to the `parent` links. `AssertionText` and
`GeneratedAccessors` read the printed kind assertions back as Ada. `NodeLists` is the list
package the generated code calls, chains of cells changed in place. `NodeStore` runs the
generated `Make_`, `Set_`, getter and `Append_Node_To_` operations over the table of flat
records and those cells, and proves that they refine a store of per-kind typed objects;
from this follows that a node accepted by `Is_X` may be given to every accessor of X.
`FreshNodes` says what a new node holds, `NodeFraming` what each call leaves alone. `DeclarationOrder` shows that permuting the
blocks changes nothing, `Generator` joins the parts from the printed text to the accessors,
and `Counterexamples` holds the descriptions on which the package surprises its callers.

**Module initialisation** (`src/polyorb-initialization.adb`): `ModuleDeps` resolves the
dependency lists, `ModuleInit` is the depth-first traversal, `ModuleInitProofs` its
invariants, `ModuleInitTheorems` the promises of `Initialize_World` and `ModuleInitExact`
the exact condition of its success.

**Distribution checks** (`utils/chk_distrib.py`): `AliClosure`, `Subdirectories` and
`CompareLists`. **The process supervisor** (`utils/rungroup.c`): `RunGroup`, a step system
in which the handlers interrupt the main program, and `hnd` interrupts `hndcld`, at every
point. **Test verdicts and references**: `TestReport` (printer and search pattern),
`IorText` (hexadecimal references and the extraction pattern) and `ServerOutput` (the loop
that assembles lines from partial reads). **Smaller parts**: `Scenario` and
`ScenarioRoundTrip` (the scenario parser, and a printer it inverts), `Install` and
`ListStream`.

Where the code falls short of what is expected of it:

- A node declared a second time under another parent stays in the first parent's
  `children` list, so `Is_X` answers True for a kind that no longer descends from X, and
  the accessors of X then fail their assertion (`Counterexamples.RedeclarationMisleads`).
  The tests are right exactly when every `children` entry properly descends from its owner
  (`ClassTests.TestsExactIff`).
- A description may give Kind an initialiser, and `Make_X` then builds a record of another
  kind (`Counterexamples.KindInitialiserMisleads`); it builds kind X exactly when the last
  initialiser on the way from Root is absent or K_X (`NodeStore.MakeKindIff`).
- After `Set_G (M, F (N))` two fields share list cells, and `Append_Node_To_F (N, V)` also
  lengthens what `G (M)` returns (`Counterexamples.SharingRun`). This happens exactly when
  both lists are non-empty and end in the same cell (`NodeFraming.AppendShowsIff`), and
  never in a run that copies no list (`NodeFraming.ListsHoldWhatWasAppended`).
- `src/polyorb-initialization.ads` says that implicit modules are added to the
  dependencies of every module that is not implicit itself. The code adds them inside the
  loop over the Depends list, so a module with an empty list gets none
  (`ModuleDeps.EmptyDependsMissesImplicit`; `ModuleDeps.ImplicitsIff` has the exact condition).
- A mandatory dependency upon a virtual module none of whose providers came up is
  accepted silently if the virtual module was visited earlier for another module
  (`ModuleInitTheorems.UnmetDependencyAccepted`). `ModuleInitTheorems.DependenciesMetIff`
  says exactly when this cannot happen, and `ModuleInitExact.SuccessIff` exactly when
  initialisation succeeds.
- `rungroup` can lose a SIGTERM to a dying child and exit with code 0, can sleep on a
  signal that arrived just before `pause ()`, and can report "aborted on signal 17"
  (`RunGroup.TerminationLost`, `RunGroup.WakeupLost`, `RunGroup.AbortMisreported`);
  `RunGroup.TerminationLostIff`, `RunGroup.SleepsOnNews` and `RunGroup.AbortMessage` have
  the exact conditions.
- The verdict search accepts a test whose name imitates the final line
  (`TestReport.NameImitatesVerdict`); `TestReport.VerdictExact` has the exact condition.

## Model

| member | source | states |
|---|---|---|
| SchemaReader.Reader.NewNode | compilers/idlac/make_nodes.py:11-22 | a declaration replaces the node of that name and appends the name to its parent's children, Root being the default parent of everything but Root |
| SchemaReader.Reader.NewField | compilers/idlac/make_nodes.py:24-25 | a field line appends to the fields of the current node and changes nothing else |
| SchemaReader.Reader.ReadAll | compilers/idlac/make_nodes.py:51-74 | the loop with its skip, start and stop rules gives the meaning of the significant lines, and dies on a field before any node |
| SchemaReader.ReadFile | compilers/idlac/make_nodes.py:50-74 | the same on a whole text cut into lines |
| Text.SeparatorsAre | compilers/idlac/make_nodes.py:27-28 | exactly the six white-space characters separate words |
| SchemaReader.CommentIff | compilers/idlac/make_nodes.py:52-53 | a line is a comment exactly if it is two dashes behind nothing but white space |
| SchemaReader.LastCharacterDropped | compilers/idlac/make_nodes.py:27-28 | the last character of a line is dropped unseen |
| SchemaRoundTrip.NoiseIsIgnored | compilers/idlac/make_nodes.py:27-55 | comments, blank lines and spacing carry no meaning: the significant word lists are exactly those printed |
| SchemaRoundTrip.InterpretDocument | compilers/idlac/make_nodes.py:51-71 | whatever precedes START and follows END, the word lists of a hierarchy rebuild it |
| SchemaRoundTrip.BuildRepresents | compilers/idlac/make_nodes.py:11-25 | with distinct names every block has its parent and its fields in order, and every parent its children in declaration order |
| SchemaRoundTrip.SchemaRoundTrip | compilers/idlac/make_nodes.py:47-74 | any printed form of a hierarchy reads back as the same parents, children, field order, types and initialisers |
| Inheritance.ReadIsReadable | compilers/idlac/make_nodes.py:11-74 | after reading any input at all, every declared node is listed under its parent, every listed child is declared, and only Root has no parent |
| Inheritance.StepUp | compilers/idlac/make_nodes.py:30-32 | a node's fields are its parent's followed by its own, and its parent is one level closer to the root |
| Inheritance.InheritedPrefix | compilers/idlac/make_nodes.py:30-32 | what an ancestor sees is a prefix of what its descendant sees |
| Inheritance.VisibleIffDeclaredAbove | compilers/idlac/make_nodes.py:30-32 | a field is visible in a node exactly when the node is, or descends from, a node declaring it |
| Inheritance.ErrorsAreTrue | compilers/idlac/make_nodes.py:30-32 | a kind without fields fails for the reason given: a name above it that is not declared, or a node above it that is its own ancestor |
| SortedNames.SortedIncreases | compilers/idlac/make_nodes.py:76-77 | the sorted keys are strictly increasing, each once |
| SortedNames.LessIffAt | compilers/idlac/make_nodes.py:76-77 | the order is that of the first different character, by its code, a beginning coming before the whole |
| FieldTables.FieldTable.Append | compilers/idlac/make_nodes.py:34-42 | a use is refused exactly when the name already has another type; otherwise the tables are those of all uses so far |
| FieldTables.FieldTable.AppendAll | compilers/idlac/make_nodes.py:90-91 | all visible fields of one kind enter the tables, or the reported name has two types |
| FieldTables.Collect | compilers/idlac/make_nodes.py:83-91 | the loop over the kinds builds the tables of all uses, or stops at a real conflict or a kind without a way to the root |
| FieldTables.Elaborate | compilers/idlac/make_nodes.py:83-92 | generation gets past its checks exactly when every kind is rooted and no name has two types; then every name has the one type of all its declarations; each error is true: a real conflict, an undeclared name above some kind, or a cycle above it |
| FieldTables.TableOfTabulates | compilers/idlac/make_nodes.py:34-42 | incremental acceptance is the same as pairwise agreement of types, and then kind lists and types are those of the uses |
| FieldTables.ConsistentIffNoClash | compilers/idlac/make_nodes.py:34-42 | types agree exactly when no two kinds see one name with different types |
| FieldTables.KindListExact | compilers/idlac/make_nodes.py:83-91 | the kind list of a field holds each kind as often as the field occurs in its visible fields, and no other kind |
| ClassTests.IsExact | compilers/idlac/make_nodes.py:111-118 | with climbing edges every Is function returns within as many nested calls as there are nodes plus one, True exactly for the kind itself and its descendants |
| ClassTests.TestsExactIff | compilers/idlac/make_nodes.py:111-118 | all Is functions return the right answer if and only if every children entry properly descends from its owner |
| ClassTests.DistinctNamesClimb | compilers/idlac/make_nodes.py:17-22 | distinct names and rooted kinds make every edge climb |
| AssertionText.BuildAssertion | compilers/idlac/make_nodes.py:137-148 | the loop produces one line per kind, opened and closed at the right places |
| AssertionText.AssertionReadsBack | compilers/idlac/make_nodes.py:137-149 | the printed assertion parses as the disjunction over exactly the listed kinds, repetitions included |
| GeneratedAccessors.PrintedGuardExact | compilers/idlac/make_nodes.py:137-149 | read back as Ada, the guard of a field admits a kind exactly when the kind is or descends from a node declaring the field |
| NodeStore.MakeCarries | compilers/idlac/make_nodes.py:98-109 | the record built by a Make function has the right kind, and every visible field holds its last initialiser, the location argument or the default of its type |
| NodeStore.MakeKindIff | compilers/idlac/make_nodes.py:102-106 | the record built by Make_X is of kind X if and only if the last initialiser of Kind on the way from Root is absent or K_X |
| FreshNodes.KindKeptIff | compilers/idlac/make_nodes.py:103-106 | Kind survives construction if and only if it has no initialiser or lastly that of the kind itself |
| FreshNodes.NewNodeHolds | compilers/idlac/make_nodes.py:98-109 | after any run, the getters of the node just made reply the kind, the location argument, No_Node or Nil_List for uninitialised fields of those types, and otherwise the value of the last initialiser |
| FreshNodes.NewListIsEmpty | compilers/idlac/make_nodes.py:195-200 | a list field without initialiser, or with Nil_List, reads as empty |
| NodeStore.AssertionExact | compilers/idlac/make_nodes.py:137-149 | on a record of some kind the assertion of a field passes exactly when the kind sees the field |
| NodeStore.StepRefines | compilers/idlac/make_nodes.py:132-173 | each operation on flat records and list cells answers as on typed objects and keeps the correspondence |
| NodeStore.FlatRefinesTyped | compilers/idlac/make_nodes.py:98-173 | no sequence of operations that leaves Kind alone, list cells shared or not, can tell the flat records from per-kind typed objects |
| NodeStore.KindsAreStable | compilers/idlac/make_nodes.py:98-109 | later operations never remove a record, and its Kind component stays the concrete kind it was made with |
| NodeStore.SubtypeSoundness | compilers/idlac/make_nodes.py:111-158 | after any such run, if Is_X, applied to the reply of the Kind getter, returns True on a node, then the getter and setter of every field visible in X succeed on it |
| NodeLists.Cells.AppendNode | compilers/idlac/idl_fe-types.adb:318-333 | the walk to the last cell and the link behind it compute the specified cells and list |
| NodeLists.AppendExact | compilers/idlac/idl_fe-types.adb:318-333 | the node is added to its own list and to exactly the lists that end in the same cell; all others keep their nodes and their end |
| NodeFraming.GetAfterSet | compilers/idlac/make_nodes.py:132-160 | a getter returns what its setter stored, and every other field of every node and every other list is untouched |
| NodeFraming.SetterAccepts | compilers/idlac/make_nodes.py:151-160 | after any run, where the getter replies the setter takes the empty list and every list some getter returns for a list field, and everything but lists for another |
| NodeFraming.GetAfterAppend | compilers/idlac/make_nodes.py:162-173 | an append changes the answer of no other getter; its own getter returns the list Append_Node returned |
| NodeFraming.ReadAfterAppend | compilers/idlac/make_nodes.py:162-173 | after an append through a field, its list and those ending in the same cell have the node at their end, every other list is what it was |
| NodeFraming.AppendShowsIff | compilers/idlac/idl_fe-types.adb:318-333 | an append through one field shows in the list of another if and only if both are non-empty and end in the same cell |
| NodeFraming.ListsHoldWhatWasAppended | compilers/idlac/make_nodes.py:98-173 | over every run that copies no list, each list holds exactly the nodes appended through its field since the node was made or the field set |
| Counterexamples.RedeclarationMisleads | compilers/idlac/make_nodes.py:17-22 | a concrete description with a redeclared node whose package compiles: Is_A is True on a node of kind B, and the getter of A's field fails on it |
| Counterexamples.KindInitialiserMisleads | compilers/idlac/make_nodes.py:104-106 | a concrete description that initialises Kind: Make_B builds a record of kind A |
| Counterexamples.SharingRun | compilers/idlac/idl_fe-types.adb:318-333 | in every package with a list field: after a list is stored into a second node, an append through the first node shows in the second |
| Counterexamples.SharingHappens | compilers/idlac/make_nodes.py:162-173 | a concrete description whose package has such a field |
| Generator.Generate | compilers/idlac/make_nodes.py:50-92 | the script on a whole text gets past its checks exactly when the text reads as a hierarchy whose kinds are rooted and whose field types agree, and then has its tables |
| Generator.PrintedDescriptionIsSound | compilers/idlac/make_nodes.py:50-173 | subtype soundness from end to end: for any layout of a hierarchy with the required Root fields, through reading, elaboration and any run |
| DeclarationOrder.OrderIrrelevant | compilers/idlac/make_nodes.py:76-91 | permuting blocks with distinct names keeps the nodes, each parent's children up to order, the accept or reject outcome, and the kind list and type of every accessor |
| DeclarationOrder.TestsSurvivePermutation | compilers/idlac/make_nodes.py:111-118 | every Is function returns the same answer after a permutation of the blocks |
| ModuleDeps.Resolve | src/polyorb-initialization.adb:354-410 | stops at the first entry that is mandatory and unknown; otherwise the list is exactly what the prepends of entries and implicit dependencies build, in their order |
| ModuleDeps.OptionalEntry | src/polyorb-initialization.adb:374-388 | an entry s? never stops resolution, and stands for the first module called s, as an optional dependency, exactly if there is one |
| ModuleDeps.MandatoryEntry | src/polyorb-initialization.adb:374-394 | any other entry stops resolution exactly if no module has its name, and otherwise stands for the first one, as a mandatory dependency |
| ModuleDeps.InDepsOf | src/polyorb-initialization.adb:364-404 | the list holds the modules the entries stand for, and the implicit dependencies exactly if the module is not implicit and has an entry |
| ModuleDeps.ImplicitsIff | src/polyorb-initialization.adb:396-402 | a module that is not implicit has all implicit dependencies if and only if it has an entry or there are none |
| ModuleDeps.OptionalIsFound | src/polyorb-initial_references.adb:212-220 | the entry references? finds the module references as an optional dependency |
| ModuleDeps.EmptyDependsMissesImplicit | src/polyorb-initialization.adb:364-402 | a concrete module without Depends entries does not get the implicit dependency |
| ModuleDeps.PrependAll | src/polyorb-initialization.adb:396-402 | the implicit dependencies end up in front, in reverse order |
| ModuleInit.Initializer.VisitModule | src/polyorb-initialization.adb:416-522 | the traversal with its flags, loop and early returns computes the specified state and outcome, and terminates on cyclic graphs |
| ModuleInit.Initializer.RunInitializers | src/polyorb-initialization.adb:528-547 | the loop over the world stops at the first failure and visits whatever is not visited |
| ModuleInitProofs.VisitKeeps | src/polyorb-initialization.adb:416-522 | a successful visit keeps the completion order topological, the flags determined by the dependencies, and the calls in completion order |
| ModuleInitProofs.InitializedIffUp | src/polyorb-initialization.adb:492-500 | among processed modules exactly those that can come up are initialised, through any chain of virtual modules |
| ModuleInitProofs.VisitJustified | src/polyorb-initialization.adb:424-468 | a module reported as circular lies on a cycle and is real or virtual as the report says, a reported dependency cannot come up |
| ModuleInitProofs.PathPrecedes | src/polyorb-initialization.adb:436-479 | along any path of dependencies the end was completed before the start |
| ModuleInitTheorems.SuccessMeansOrdered | src/polyorb-initialization.adb:528-547 | success means every module completed once and after all its dependencies, exactly the modules that come up initialised, no raising Init, and no cycle even through optional or disabled modules |
| ModuleInitTheorems.InitAfterDependencies | src/polyorb-initialization.adb:498-500 | along any chain of dependencies the Init of the dependency is called first and never again later |
| ModuleInitTheorems.EachCalledOnce | src/polyorb-initialization.adb:482-500 | Init is called exactly once for each enabled real module and for no other |
| ModuleInitTheorems.ShutdownBeforeDependencies | src/polyorb-initialization.adb:513-517 | a module is shut down before what it depends on |
| ModuleInitTheorems.FailuresAreJustified | src/polyorb-initialization.adb:416-547 | every failure has its cause in the graph, so without cycles, unmet mandatory dependencies and raising Init procedures the run succeeds |
| ModuleInitTheorems.MetInFullIff | src/polyorb-initialization.adb:416-547 | the run succeeds with every mandatory dependency initialised if and only if there is no cycle, no raising Init and no mandatory dependency that stays down |
| ModuleInitExact.SuccessIff | src/polyorb-initialization.adb:416-547 | the run succeeds if and only if there is no cycle, no raising Init, and every mandatory edge through which the traversal enters a module leads to one that comes up |
| ModuleInitTheorems.DependenciesMetIff | src/polyorb-initialization.adb:446-470 | after success all mandatory dependencies are initialised if and only if none is an enabled virtual module without a provider that comes up |
| ModuleInitTheorems.UnmetDependencyAccepted | src/polyorb-initialization.adb:446-470 | a concrete world that initialises successfully with an unmet mandatory dependency |
| AliClosure.AliReader.ReadOne | utils/chk_distrib.py:71-91 | terminates on any graph; the files entered are new, distinct, reachable and fully processed, each contributes its units once next to the argument's, and the script dies if and only if one of them has a malformed unit line |
| AliClosure.AliReader.ReadLine | utils/chk_distrib.py:79-90 | one line adds its unit, or the units of everything first reached through it, or dies on a malformed unit line |
| AliClosure.AliReader.Enter | utils/chk_distrib.py:86-90 | a file met for the first time is recorded before it is read |
| AliClosure.ReadAllsrc | utils/chk_distrib.py:93-94 | the script dies if and only if a file reachable from allsrc.ali has a malformed unit line; otherwise the units are exactly those of the reachable files, one contribution per reachable file and one more for the root |
| CompareLists.Subtract | utils/chk_distrib.py:100-105 | the two leftovers are the surplus of each list over the other, in their original order |
| CompareLists.ExcessCount | utils/chk_distrib.py:100-105 | a surplus is the multiset difference |
| CompareLists.Compare | utils/chk_distrib.py:96-115 | both differences are printed exactly; with reverse nothing is printed if and only if the lists are equal as multisets |
| Subdirectories.Merge | utils/chk_distrib.py:40-42 | new entries are appended once |
| Subdirectories.VisitWords | utils/chk_distrib.py:27-42 | the words of one variable add exactly the directories below the children they name |
| Subdirectories.GetSubdirs | utils/chk_distrib.py:8-44 | terminates on every finite set of paths with Makefiles, succeeds exactly if every directory reached through the words of the seven variables has a Makefile with defined variables, lists the argument first and each directory reached once, and each error is true |
| Subdirectories.ChildrenExact | utils/chk_distrib.py:11-37 | the children visited are the directory, a slash and a word of SUBDIRS or one of the six other variables, other than the empty word, the dot and words beginning with @, with its references replaced |
| Subdirectories.SplitJoins | utils/chk_distrib.py:27-28 | joined by single spaces the words give the value back, and none contains a space |
| Subdirectories.SplitMembers | utils/chk_distrib.py:27-28 | the words are exactly the stretches without a space between two spaces or the ends |
| Subdirectories.VarsMeaning | utils/chk_distrib.py:14-16 | a variable has the last non-empty value assigned to it so far |
| Subdirectories.ExpandPlain | utils/chk_distrib.py:37 | a word without a closed reference stands for itself |
| Subdirectories.ExpandReference | utils/chk_distrib.py:37 | the first reference is replaced by the value of its variable, if defined, and expansion goes on behind it |
| RunGroup.Globals.Hndcld | utils/rungroup.c:20-28 | run without interruption, only the first child's status can be stored, and only if sig was 0 |
| RunGroup.PassIsHndcld | utils/rungroup.c:20-28 | the steps of the handler taken in a row, in any order of the children, do to the globals what that method does |
| RunGroup.StepKeeps | utils/rungroup.c:13-57 | every step of main program, handlers and environment keeps the invariant, and sig never goes back to 0 |
| RunGroup.SigStaysSet | utils/rungroup.c:13-28 | in every run sig, once set, stays set |
| RunGroup.NormalExit | utils/rungroup.c:51-57 | in every interleaving status is assigned at most once, and a normal exit reports the first examined child's code if it exited normally and nothing was recorded before, else 0 |
| RunGroup.ExitCode | utils/rungroup.c:51-57 | if the first event is the examination of a child that exited with code c the exit code is c, if that child was killed by a signal or something else came first it is 0 |
| RunGroup.EveryCodeReported | utils/rungroup.c:20-28 | for every code a run that reports it |
| RunGroup.EndsAsLastLoopWrite | utils/rungroup.c:51-63 | in every run the loop is left for a normal exit only if hndcld made the last write inside it, for an abort only if hnd did, hence only with SIGTERM or SIGINT recorded |
| RunGroup.TerminationLostIff | utils/rungroup.c:51-57 | in every run that has ended, a recorded SIGTERM or SIGINT is lost to a normal exit if and only if the last write to sig inside the loop was that of hndcld; without one no run aborts |
| RunGroup.AbortMessage | utils/rungroup.c:59-63 | the abort message names the last signal written, and names SIGCHLD if and only if a child was reaped between the end of the loop and the message |
| RunGroup.SleepsOnNews | utils/rungroup.c:51-52 | the program sleeps on a recorded event exactly when the last write to sig came between two pauses |
| RunGroup.TerminationLost | utils/rungroup.c:51-57 | a run in which SIGTERM was recorded and the program exits normally with 0 |
| RunGroup.WakeupLost | utils/rungroup.c:51-52 | a reachable state in which SIGTERM is recorded, the program paused, and only an event from outside can move anything |
| RunGroup.AbortMisreported | utils/rungroup.c:59-63 | a run whose abort message names SIGCHLD |
| TestReport.Reporter.Print | testsuite/corba/interop/cpp/common/report.cc:10-24 | the buffer loop prints the name cut or padded to 60 columns with its verdict, and the flag accumulates |
| TestReport.Reporter.Perform | testsuite/corba/interop/cpp/common/report.cc:10-34 | any sequence of calls prints the specified lines and leaves the conjunction of all results |
| TestReport.CheckByLine | testsuite/tests/test_utils.py:260-261 | the search on the whole output is a search line by line |
| TestReport.VerdictExact | testsuite/tests/test_utils.py:253-266 | for names without newline the verdict is True exactly when the report ended with all results passed, or a name imitates that line within the printed columns |
| TestReport.VerdictAgrees | testsuite/tests/test_utils.py:253-266 | for names without END TESTS the verdict is True exactly when end_report was called and every result before it was a pass |
| TestReport.PassedMeansAll | testsuite/corba/interop/cpp/common/report.cc:23 | the flag is the conjunction of all results so far |
| TestReport.NameImitatesVerdict | testsuite/tests/test_utils.py:260-261 | concrete calls with a failed test on which the verdict is True |
| IorText.SeaToHex | src/polyorb-utils.adb:98-109 | the loop writes the two digits of each element at their place |
| IorText.HexRoundTrip | src/polyorb-utils.adb:98-126 | decoding the hexadecimal form gives back the octets |
| IorText.DigitsAre | src/polyorb-utils.adb:46-92 | the sixteen digits decode to their values in either case |
| IorText.OnlyDigits | src/polyorb-utils.adb:46-92 | no other character decodes |
| IorText.OddDigitIgnored | src/polyorb-utils.adb:115-126 | a last digit without a partner is ignored |
| IorText.StringifyRoundTrip | src/polyorb-references-ior.adb:347-372 | so does removing the prefix and decoding a stringified reference |
| IorText.LastGroupIsLast | testsuite/tests/test_utils.py:172-173 | the greedy pattern takes the last position at which prefix, digits and terminator match |
| IorText.TerminatorsAre | testsuite/tests/test_utils.py:172-173 | behind the digits exactly a quote, a bar, a newline or a carriage return ends the match |
| IorText.ExtractInverts | testsuite/tests/test_utils.py:170-174 | the pattern recovers a printed reference whatever precedes it on the line, if nothing later matches |
| IorText.PrintedReferenceReturns | doc/server.adb:82-85 | extraction from the line a server prints gives the reference, whose decoding gives the octets |
| ServerOutput.AssembleLine | testsuite/tests/test_utils.py:161-168 | the inner loop consumes the output up to the end of a line, the death of the server or the end of the schedule |
| ServerOutput.WaitForIor | testsuite/tests/test_utils.py:159-181 | for every schedule of partial reads it stops at the first turn at which the server is found dead or the first line with the prefix is complete; the reference is found exactly if every turn was alive and the line matches, the server reported dead exactly if a turn was not and the line read last is not malformed, and with the output available for more turns than it has lines, waiting ends |
| ServerOutput.ReadLineExact | testsuite/tests/test_utils.py:165 | a partial read gives the rest of the line as far as it has reached the file |
| ServerOutput.FirstReferenceUnique | testsuite/tests/test_utils.py:159-174 | the line depends on the output alone, so no two schedules disagree |
| ServerOutput.ReferenceReachesClient | testsuite/tests/test_utils.py:159-189 | the octets of the server's reference are those the client decodes |
| Scenario.ParseScenario | testsuite/tests/convert_scenario.py:33-58 | the loop computes the state after all lines, or stops at a definition for an unknown test |
| Scenario.HeaderIff | testsuite/tests/convert_scenario.py:42-46 | a line is a header exactly if it is a bracket, a section, a space, a name without space, a bracket, and anything without a bracket |
| Scenario.DefineIff | testsuite/tests/convert_scenario.py:50-55 | a line is a definition exactly if it does not begin with a bracket and has an equals sign, the last one separating the sides |
| Scenario.NewlineIgnored | testsuite/tests/convert_scenario.py:41-55 | a last line without newline is understood like one with it |
| Scenario.TableIsLastDefinition | testsuite/tests/convert_scenario.py:41-58 | each entry of the table is the last definition under its header since the latest header of its test |
| Scenario.TestsAreIntroduced | testsuite/tests/convert_scenario.py:47-48 | the tests of the table are exactly those introduced by a test header |
| ScenarioRoundTrip.TableRoundTrip | testsuite/tests/convert_scenario.py:37-58 | printing any expressible table and parsing the text gives the same table |
| ScenarioRoundTrip.ExpressibleIff | testsuite/tests/convert_scenario.py:37-58 | some scenario file denotes a table if and only if it has no empty section, no section named scenario, no space in a test name, no equals sign in a value, no key that begins like a header, and no newline in any name |
| Install.InstallAll | bldtools/install.py:54-82 | the loop over the list it extends terminates and copies the files of the extended list in order |
| Install.LastWriterWins | bldtools/install.py:61-82 | each destination holds the last file whose target it is |
| Install.TargetOf | bldtools/install.py:62-74 | where a file goes, for a plain destination, a directory, and kept paths |
| Install.DashReadsInput | bldtools/install.py:54-56 | an argument - brings the lines of standard input and is no file itself |
| ListStream.DecodeEncoded | doc/glade-sources:226-250 | decoding inverts encoding whatever follows in the stream |
| ListStream.DecodedIsEncoded | doc/glade-sources:226-237 | whatever decodes is the encoding of the list obtained |
| ListStream.EncodingPrefixFree | doc/glade-sources:239-250 | no two different lists have encodings one of which begins the other |
| ListStream.EncodedLayout | doc/glade-sources:239-250 | a True before every string, its bounds and characters, a False at the end |
| ListStream.Write | doc/glade-sources:239-250 | walking the linked cells appends the encoding of their contents |
| ListStream.Read | doc/glade-sources:226-237 | consumes exactly one encoded list and rebuilds it in new cells, failing exactly when the stream does not begin with one |
| ListStream.RoundTrip | doc/glade-sources:226-250 | Read after Write rebuilds an equal list and leaves exactly what followed |

## Left out

- make_nodes.py: the text of the generated package other than the kind assertions; Make, Is and accessor bodies are modelled as syntax with a semantics. The recursion limit of the interpreter on very deep hierarchies.
- NodeStore.StepRefines: assertions are taken as enabled; initialisers other than Nil_List, No_Node and the kinds stay symbolic, so an append to a list given by such an initialiser is not followed.
- idl_fe-types.adb: the list operations that the generated code does not call, such as Insert_Before, Insert_After and Remove_Node.
- AssertionText.AssertionReadsBack: node names are Ada identifiers; the generator does not check this and the Ada compiler rejects the rest.
- polyorb-initialization.adb: registration, the creation of virtual modules and the conflict check; the model starts from the world they leave. The answer of the configuration hook is fixed per module.
- chk_distrib.py: the patterns that split ALI and Makefile lines (lines arrive as units, references and assignments), the MANIFEST and directory listings, directory names with regular-expression or `$(` characters, and the name `files` that line 119 evaluates before any assignment to it (`CompareLists` takes the two lists as arguments).
- Subdirectories.GetSubdirs: directories are path strings, so one reached under ever longer names, through a word ".." or a variable equal to ".", is a set of many entries, which termination takes as finite.
- rungroup.c: the child's behaviour when execve fails, a child that dies before the handlers are installed, and everything after the handlers are reset.
- test_utils.py: timeouts, process handling and output with carriage returns.
- report.cc: names containing a newline.
- convert_scenario.py: the test directories written from the table.
- install.py: directory creation, permissions, stripping and verbose output.
- PolyORB's run-time core (ORB controllers, GIOP, object adapters) beyond module initialisation.
