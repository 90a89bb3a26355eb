# Verified model of parts of the Asymptote compiler

This project models seven pieces of the Asymptote compiler and its geometry
code, and proves what each of them is for. Code that updates objects is modelled
by classes and loops, each method proved equal to a function of the old state;
the properties are lemmas about those functions.

| pieces | files |
|---|---|
| types and their equivalence | Types |
| overload resolution: matching a call to one function | Application, MatchProofs, MatchPlan, OpenCall |
| most specific candidates; the exact and half-exact shortcuts | Maximizer, Multimatch, MultimatchProofs, Resolution, ShortcutTest |
| left-to-right evaluation of reordered arguments | Machine, Sequencer, SequencerProofs |
| the hash table of variables | CoreVenv, Remainder |
| scopes, per-name summaries, guessing by signature | Scopes, Venv, SignatureGuess |
| whole runs of the environment | VenvRun, TombRun |
| short-circuit code, labels and back-patching | BooleanCode, Coder, IfStatement |
| static links and variable access | Frames |
| incremental triangulation | Delaunay, Survivors |
| bounding Bezier patches and triangles | Bound, BoundTri |
| cyclic slices and delete | Slice |
| line comments in the history | HistoryLine |
| shared helpers | Options, Lists |

`Machine` gives the few instructions used a step semantics. An expression whose
code is not modelled is one instruction `Eval(id)`; its value may depend on
everything evaluated before, and the trace of evaluations is part of the state,
so "same evaluations in the same order" is an equation between traces.

Main results:

- A call, with or without names and a rest argument, matches a function if and only
  if it has a plan: each formal is taken by name, or by the next unnamed argument if
  that fits, or else by its default, and what is left is packed. The plan gives every
  argument and score of the match.
- The translated arguments are evaluated left to right whatever slots they fill; an
  open function gets one array of them.
- Resolution keeps exactly the matches that no match beats. The exact
  shortcut always agrees with it. The half-exact shortcut misleads if and only if
  no overload takes both arguments exactly or only casts the second, while one
  only casts the first and one packs the second; this is told from signatures and
  argument types alone, and a call where it happens is given.
- The hash table is a finite map by name and signature (by name and type for
  special names); a search stops if and only if its key is present or some cell
  is empty, and growth restores an empty cell.
- The environment refines a stack of finite maps with ordered type lists: it
  carries out every run that a count of cells allows, and ending a scope then
  restores all of it as it was. The count allows every run that ends no scope,
  however long. A run is given at whose end the count refuses exactly the entries
  for which the search never stops.
- Looking a function up by the signature of a call yields what full resolution
  yields.
- The code emitted for conditions, once every label is defined, stands in the
  finished program with every jump at its label's place; running it evaluates what
  short-circuit evaluation does and reaches the label if and only if the value is
  the wanted one. An if statement executes the chosen branch and no other.
- Variable access reads and writes the intended variable from any nesting depth.
- Whatever the geometric tests answer, inserting a point in the triangulation keeps
  the oriented boundary of the mesh; the triangles that stay are exactly those that
  are finished or do not hold the point, and the new ones exactly those to the sides
  left over of the others.
- The subdivision bounds are attained by the surface and miss it by no more than
  max(fuzz * 2^depth, 2 * D / 2^depth), D being the largest difference of
  adjacent control values.
- Assigning a slice and reading it back agree, for any number of elements and
  around the end of a cyclic array, and touch nothing else; a delete removes exactly
  the positions of its range.
- The scanner for line comments agrees with a lexer on every line, and the
  rewritten line means the same if and only if no line feed follows the comment.

Four places where the code does less than its documentation says, each with the
exact condition:

- `ShortcutTests.AgreesIffNotMisleading`, `MultimatchProofs.HalfExactCanMislead`: the assertion
  at asymptote/application.cc:667-683 fails for the overloads `f(real, int)` and
  `f(int ... int[])` called with two integers.
- `CoreVenvs.SearchStopsIff`, `TombRun.SearchForever`: growth counts live entries
  only (asymptote/entry.cc:219-221), so the tombs of ended scopes can take up every
  cell.
- `SequencerProofs.TransArgsSucceedsIff`, `KeyRemovedFails`: a rest argument placed past the end of
  the argument list makes the assertions of the sequencer fail. Removing a `KEY`
  argument (asymptote/exp.cc:886-899) leaves the rest position as it was.
- `HistoryLine.LexersAgreeIff`, `OverlapMisleads`: inside a comment the lexer of
  the compiler reads `/*` as a token (asymptote/camp.l:214), so `/*/` does not
  close the comment there, while the scanner takes it to.

Two comments of the source do not describe its code, and the code is followed:
the helper at asymptote/bound.h:28-66 subdivides cubic triangles, not quadratic
ones; and the stripping loop at asymptote/Delaunay.cc:187-198 removes triangles
with a vertex number of at least, not only greater than, the number of points.

## Model

| member | source | states |
|---|---|---|
| Types.EquivalentIffCanon | asymptote/types.cc:616-620 | two types that are not overloaded are equivalent exactly when they have the same canonical form |
| Types.SigEquivalentIffCanon | asymptote/types.cc:468-495 | the same for signatures: names, defaults and keyword marks do not matter, and open signatures are all equivalent |
| Types.OptSigEquivalentIffCanon | asymptote/types.cc:468-477 | the same when either signature may be absent |
| Types.EquivalenceRelation | asymptote/types.cc:616-620 | among types that are not overloaded equivalence is reflexive, symmetric and transitive |
| Types.BareEquivalentIff | asymptote/types.cc:616-620 | equivalence is equality among types without open signatures, names or marks |
| Types.MarksIgnored | asymptote/types.cc:468-495 | signatures of the same types are equivalent whatever their names and marks; open ones are equivalent to open ones only |
| Types.ArgEquivalentIff | asymptote/types.cc:603-621 | argument types, overloaded or not, are equivalent exactly when some members of them are |
| Types.ArgEquivalentSymmetric | asymptote/types.cc:609-613 | so equivalence is symmetric for them too, and reflexive where there are members |
| Types.OverloadedNotTransitive | asymptote/types.h:540-546 | but not transitive |
| Applications.Application.AddArg | asymptote/application.h:168-172 | the argument is registered under its time of evaluation, growing the table |
| Applications.Application.AdvanceIndex | asymptote/application.h:226-230 | the index moves to the next unfilled formal |
| Applications.Application.Find | asymptote/application.cc:146-152 | the first unfilled formal of that name, from the index on |
| Applications.Application.TryDefault | asymptote/application.cc:154-167 | the formal at the index takes its default, or nothing changes |
| Applications.Application.TryRestPacking | asymptote/application.cc:169-181 | packs an argument that fits the cells of the rest array, scored as packed, or nothing changes |
| Applications.Application.TrySpot | asymptote/application.cc:183-203 | fills one formal with an argument that fits it, or nothing changes |
| Applications.Application.TryArgument | asymptote/application.cc:205-218 | an unnamed argument goes to the first formal from the index on that it fits, defaults filling those passed over, or into the rest |
| Applications.Application.TryNamedArgument | asymptote/application.cc:220-227 | a named argument goes to the formal of its name |
| Applications.Application.TryComplete | asymptote/application.cc:229-236 | every formal left takes its default, or the match fails |
| Applications.Application.TryRest | asymptote/application.cc:238-254 | completes the formals and matches the rest argument |
| Applications.Application.TryNamedPass | asymptote/application.cc:274-278 | the pass over the named arguments |
| Applications.Application.TryUnnamedPass | asymptote/application.cc:280-284 | the pass over the unnamed arguments |
| Applications.Application.TrySignature | asymptote/application.cc:263-293 | the whole match of a call, with its failures |
| Applications.Application.TryOpen | asymptote/application.cc:295-312 | an open signature packs all arguments, and refuses names unless it takes them |
| Applications.MatchCall | asymptote/application.cc:314-326 | the application matched, or none |
| MatchProofs.FillDefaultKeeps | asymptote/application.cc:154-167 | filling a default keeps the invariant of matching: each slot holds a fitting argument or its own default, no argument is placed twice, the sequencer knows exactly those placed, one score each, unnamed ones in order, index first unfilled |
| MatchProofs.PlaceKeeps | asymptote/application.cc:183-203 | so does filling a formal, and the argument placed is added once |
| MatchProofs.PackKeeps | asymptote/application.cc:169-181 | so does packing |
| MatchProofs.MatchArgumentKeeps | asymptote/application.cc:205-218 | so does matching an unnamed argument |
| MatchProofs.CompleteKeeps | asymptote/application.cc:229-236 | so does completing, which adds no argument and no score |
| MatchProofs.MatchRestKeeps | asymptote/application.cc:238-254 | so does matching the rest argument |
| MatchProofs.MatchNamedKeeps | asymptote/application.cc:274-278 | the named pass places exactly the named arguments |
| MatchProofs.MatchUnnamedKeeps | asymptote/application.cc:280-284 | the unnamed pass places exactly the unnamed arguments, in increasing order |
| MatchProofs.MatchSignatureSound | asymptote/application.cc:263-293 | a successful match fills every formal with one fitting argument or its own default, uses every argument of the call exactly once, keeps unnamed arguments in order and has as many scores as arguments |
| MatchProofs.DueTimesExact | asymptote/application.cc:258-293 | the evaluation times are 0, ..., n - 1, each used once, exactly when the rest position is at most the number of arguments |
| MatchPlans.TakesIffFits | asymptote/application.cc:183-203 | a formal takes an argument of an equivalent or castable type, casts only if not explicit, and keyword-only formals only by name; the score is 1 without a cast and 2 with one |
| MatchPlans.FindsPlanned | asymptote/application.cc:146-152 | the search for a name finds the formal that the plan gives the argument |
| MatchPlans.ArgumentPlanned | asymptote/application.cc:205-218 | an unnamed argument goes where the plan says, with its score |
| MatchPlans.ArgumentExtends | asymptote/application.cc:205-218 | an unnamed argument that matches extends the plan so far |
| MatchPlans.PlanMatches | asymptote/application.cc:263-293 | a call with a plan matches, with the arguments and scores of the plan |
| MatchPlans.MatchPlans | asymptote/application.cc:263-293 | a call that matches has a plan |
| MatchPlans.MatchIffPlan | asymptote/application.cc:263-326 | a call, with or without names and a rest argument, matches exactly when it has a plan: each formal taken by name, or by the next unnamed argument if it fits, or else by its default, the others packed; the plan gives the argument of every formal, what is packed, and all scores |
| OpenCalls.OpenMatches | asymptote/application.cc:295-312 | an open signature packs the arguments as given, in the order of the call, the rest argument after them, without scores |
| OpenCalls.OpenMatchIff | asymptote/application.cc:295-312 | an open function matches every call, unless it names arguments and the function does not take names |
| Maximizers.AsGoodIsPreorder | asymptote/application.cc:62-78 | the comparison of score vectors, open signatures last, is a preorder |
| Maximizers.BetterIsStrictPartialOrder | asymptote/application.cc:80-82 | being better is a strict partial order |
| Maximizers.SurvivorsDecide | asymptote/application.cc:98-111 | comparing with the survivors only is comparing with every candidate seen |
| Maximizers.UnbeatenIgnores | asymptote/application.cc:108-111 | a newcomer that some candidate beats changes nothing |
| Maximizers.UnbeatenGains | asymptote/application.cc:87-95 | any other newcomer drives out exactly what it beats |
| Maximizers.Maximizer.Maximal | asymptote/application.cc:98-103 | tells whether no candidate seen beats this one |
| Maximizers.Maximizer.RemoveBeaten | asymptote/application.cc:88-93 | erases exactly what the newcomer beats, in place |
| Maximizers.Maximizer.AddMaximal | asymptote/application.cc:87-95 | the list again holds exactly the unbeaten candidates |
| Maximizers.Maximizer.Add | asymptote/application.cc:108-111 | keeps that invariant for any candidate |
| Maximizers.Maximize | asymptote/application.cc:648-656 | for any order of insertion, what is left are the candidates no candidate beats |
| Resolutions.BetterIff | asymptote/application.cc:62-82 | better is: a normal signature against an open one, or no worse in any score and better in one |
| Resolutions.CandidateCounts | asymptote/application.cc:606-631 | the candidates are the matches, each as often as its overload is listed |
| Resolutions.ResolveCounts | asymptote/application.cc:587-659 | full resolution gives each match that no match is better than, as often as its overload is listed, and nothing else |
| Resolutions.ResultCounts | asymptote/application.cc:685-712 | so does resolution with the shortcuts, for every call that does not mislead them |
| Multimatch.TestExactMightMatch | asymptote/application.cc:374-439 | the two-index loop decides whether the walk of formals and arguments succeeds |
| Multimatch.ExactMultimatch | asymptote/application.cc:444-497 | the exact matches among the overloads |
| Multimatch.HalfExactMultimatch | asymptote/application.cc:528-574 | the half-exact matches of a call with two plain arguments, else none |
| MultimatchProofs.MatchScores | asymptote/application.cc:72-78 | every match of a call has one score per argument, so the compared vectors have equal length |
| MultimatchProofs.MatchedNotTooMany | asymptote/application.cc:580-583 | the count test rejects no function that matches |
| MultimatchProofs.ExactMightMatchComplete | asymptote/application.cc:374-439 | the quick test rejects no function that matches exactly |
| MultimatchProofs.HalfExactMightMatchComplete | asymptote/application.cc:499-521 | the half-exact test rejects no function that matches half-exactly |
| MultimatchProofs.ExactSelects | asymptote/application.cc:444-497 | the exact list is the selection of exact candidates from all candidates |
| MultimatchProofs.HalfExactSelects | asymptote/application.cc:528-574 | the half-exact list is the selection of half-exact candidates |
| MultimatchProofs.ExactBeatsAllOthers | asymptote/application.cc:60-116 | beside an exact candidate, the beaten ones are those not exact |
| MultimatchProofs.ExactFastPath | asymptote/application.cc:690-698 | a non-empty exact list is the result of full resolution, in the opposite order |
| MultimatchProofs.HalfExactFastPath | asymptote/application.cc:701-707 | so is a non-empty half-exact list unless a candidate escapes by packing |
| MultimatchProofs.HalfExactEscape | asymptote/application.cc:701-707 | if one escapes, full resolution has a candidate that the half-exact list lacks |
| MultimatchProofs.MultimatchAgreesIff | asymptote/application.cc:685-712 | resolution with the shortcuts equals full resolution as a multiset if and only if the half-exact shortcut is not taken past an escaping candidate |
| MultimatchProofs.NoRestNeverMisled | asymptote/application.cc:685-712 | without rest formals the shortcuts always agree |
| MultimatchProofs.InexactMultimatch | asymptote/application.cc:587-659 | full resolution: the matches that no match beats |
| MultimatchProofs.ResolveCall | asymptote/application.cc:685-712 | the three stages in turn, equal to full resolution unless misled |
| MultimatchProofs.HalfExactCanMislead | asymptote/application.cc:701-707 | an overload set and a call for which the shortcut differs from full resolution |
| ShortcutTests.MatchIsWalk | asymptote/application.cc:205-293 | plain arguments match exactly when a walk over formals and argument types succeeds, with the scores of the walk |
| ShortcutTests.MatchIsWalkThenRest | asymptote/application.cc:205-293 | with a rest argument too, which must fit and adds its score |
| ShortcutTests.ExactMightMatchIff | asymptote/application.cc:371-439 | the quick test decides whether the call would match exactly with no casting or packing, error types and formals for names only aside |
| ShortcutTests.OffersIff | asymptote/application.cc:587-627 | the scores the candidates have are those the walks give |
| ShortcutTests.MisledIff | asymptote/application.cc:701-707 | the half-exact shortcut misleads exactly when the walks give (CAST, EXACT) and a first argument exact with a second one packed, but neither (EXACT, EXACT) nor (EXACT, CAST) |
| ShortcutTests.AgreesIffNotMisleading | asymptote/application.cc:667-712 | resolution with the shortcuts equals full resolution as a multiset for exactly the calls not of this kind |
| Machine.ExecConcat | asymptote/stack.cc:370-545 | executing two stretches of straight code is executing one after the other |
| Machine.ExecRuns | asymptote/stack.cc:370-545 | straight code runs the same wherever it is placed in a program |
| Machine.ReachesTransitive | asymptote/stack.cc:370-545 | runs of the machine compose |
| Sequencers.Translator.MakeAlias | asymptote/application.h:132-140 | evaluates the next argument into a new local; fails where the assertions do |
| Sequencers.Translator.AdvanceTo | asymptote/application.h:144-147 | makes temporaries up to argument i |
| Sequencers.Translator.TranslateSlot | asymptote/application.h:149-165 | one slot: the temporary if there is one, else evaluation in place |
| Sequencers.TranslateArgs | asymptote/application.cc:328-336 | all formals, then the rest array |
| SequencerProofs.AdvanceKeeps | asymptote/application.h:144-147 | making temporaries leaves the stack, evaluates the arguments skipped in call order and keeps them readable |
| SequencerProofs.SlotKeeps | asymptote/application.h:149-165 | translating a slot pushes the value its argument has in call order |
| SequencerProofs.TransArgsCorrect | asymptote/application.cc:328-336 | the code emitted for a matched call evaluates arguments 0, ..., n - 1 once each in call order, leaves their values in slot order with the packed ones in an array, and changes only new locals |
| SequencerProofs.TransArgsSucceedsIff | asymptote/application.h:133-165 | the assertions of the sequencer hold if and only if the rest position is at most the number of arguments |
| SequencerProofs.TransArgsRuns | asymptote/application.cc:328-336 | the same of the machine that runs a program in which the code stands |
| SequencerProofs.KeyRemovedFails | asymptote/exp.cc:886-899 | a call that matches and whose arguments cannot be translated |
| OpenCalls.OpenArgsCorrect | asymptote/application.cc:328-336 | the code for the arguments of an open function evaluates them once each, in order and the rest argument last, and leaves exactly one array of their values in that order followed by the elements of the rest argument; nothing else changes |
| OpenCalls.GivenIsCallOrder | asymptote/application.cc:48-58 | that is the order of the call when the rest argument is last |
| CoreVenvs.MatchesIffSameKey | asymptote/entry.h:219-238 | the test of a cell is equality of canonical keys: name and signature, or name and type for special names |
| CoreVenvs.SameKeyIff | asymptote/entry.h:219-238 | two variables have the same key exactly when they have the same name and equivalent signatures or none, or equivalent types if the name is special |
| CoreVenvs.SearchStopsIff | asymptote/entry.cc:343-372 | a search stops if and only if its key is present or some cell is empty |
| CoreVenvs.RoomLeft | asymptote/entry.cc:161-192 | a table without tombs that is not full has an empty cell |
| CoreVenvs.FillKeeps | asymptote/entry.cc:212-225 | filling the first free cell of a search, tomb or empty, keeps keys unique and every search path clear |
| CoreVenvs.ReplaceKeeps | asymptote/entry.h:247-253 | so does replacing an entry by one of the same key |
| CoreVenvs.RemoveKeeps | asymptote/entry.h:255-257 | so does leaving a tomb |
| CoreVenvs.UsedRoom | asymptote/entry.h:206-217 | some cell is empty exactly when fewer are in use, by entries or tombs, than there are |
| CoreVenvs.StoredUsed | asymptote/entry.cc:212-225 | storing uses no cell for a known key, at most one for a new one, and after growth only those of the entries |
| CoreVenvs.CoreVenv.constructor | asymptote/entry.h:282-284 | an empty table |
| CoreVenvs.CoreVenv.Clear | asymptote/entry.cc:154-159 | the empty map; tombs stay if there were no entries |
| CoreVenvs.CoreVenv.Seek | asymptote/entry.cc:228-333 | the probe loops: the first cell that is empty, holds the key, or is a tomb if tombs count |
| CoreVenvs.CoreVenv.Lookup | asymptote/entry.cc:343-379 | the entry of the key in the finite map |
| CoreVenvs.CoreVenv.Remove | asymptote/entry.cc:381-423 | removes the key from the map, leaving a tomb in its cell and nothing else changed |
| CoreVenvs.CoreVenv.StoreNew | asymptote/entry.cc:212-225 | adds a key, and grows the table when more than half full |
| CoreVenvs.CoreVenv.StoreAfterTomb | asymptote/entry.cc:228-266 | goes on past a tomb to replace an entry of the key, else reuses the tomb |
| CoreVenvs.CoreVenv.Store | asymptote/entry.cc:291-341 | updates the map at the key and returns the entry shadowed |
| CoreVenvs.CoreVenv.Resize | asymptote/entry.cc:161-192 | keeps the map, drops all tombs, leaves an empty cell, and does not grow again while it rebuilds |
| Scopes.EnteredOk | asymptote/entry.cc:681-705 | entering a name keeps the summaries listing exactly the live entries, one per key |
| Scopes.EnteredMeans | asymptote/entry.cc:681-705 | entering binds the key and adds the type at the end of the list of the name, or puts it in place of the type of the same key; other names are untouched |
| Scopes.UndoneEntered | asymptote/entry.cc:609-634 | taking back an addition restores the table and the order of every list |
| Scopes.LogGrows | asymptote/entry.cc:691-693 | logging an addition leaves the undo of everything below as it was |
| Scopes.LogEntered | asymptote/entry.cc:681-705 | entering keeps the log able to restore every open scope |
| Scopes.LogBegun | asymptote/entry.cc:636-643 | so does opening a scope, counted separately while nothing is bound |
| Scopes.LogCollapsed | asymptote/entry.cc:667-678 | so does collapsing one |
| Scopes.LogUndone | asymptote/entry.cc:655-660 | so does each step of ending one, and its addition can be taken back |
| Scopes.LogEnded | asymptote/entry.cc:655-661 | once the additions are gone the scope is as it was saved |
| Scopes.LogCleared | asymptote/entry.cc:646-653 | a scope opened while empty is restored by clearing everything |
| Scopes.NeverEmptyAbove | asymptote/entry.cc:637-638 | the environment is never empty above a recorded scope, as the assertion says |
| Scopes.EndRestores | asymptote/entry.cc:636-663 | of the stack of maps: begin, any well-nested run, end gives it back; `VenvRuns.RunScope` says it of the environment |
| Scopes.CollapseMerges | asymptote/entry.cc:665-678 | of the stack of maps: begin, any well-nested run, collapse keeps what was entered; `VenvRuns.RunCollapsed` says it of the environment |
| Venvs.ReplaceFirst | asymptote/entry.cc:546-562 | replaces the first equivalent type; fails exactly when there is none |
| Venvs.ReplaceType | asymptote/entry.cc:538-568 | for an entry of the same key the replacement is found, and the summary stays right |
| Venvs.PopType | asymptote/entry.cc:571-607 | drops the last type and stops overloading when one is left |
| Venvs.SameKeyBounded | asymptote/entry.cc:426-429 | the bound on the number of formals survives a replacement |
| Venvs.Venv.Enter | asymptote/entry.cc:681-705 | one Enter step of the stack of maps; at most one cell more is in use, none for a known key |
| Venvs.Venv.Remove | asymptote/entry.cc:609-634 | undoes one addition; neither the store nor the removal can miss, and the empty cells stay empty |
| Venvs.Venv.BeginScope | asymptote/entry.cc:636-643 | one Begin step |
| Venvs.Venv.EndScope | asymptote/entry.cc:645-663 | one End step; a scope opened while empty is cleared with all cells, otherwise the empty cells stay empty; no more cells are in use than before |
| Venvs.Venv.CollapseScope | asymptote/entry.cc:665-678 | one Collapse step |
| Venvs.Venv.LookByType | asymptote/entry.h:500-503 | the entry of the name and type in the current map |
| Venvs.Venv.GetType | asymptote/entry.cc:809-812 | the ordered list of the types bound to a name |
| Venvs.Venv.LookBySignature | asymptote/entry.cc:708-737 | a guess is the entry of the key, takes no keyword-only formals, and no overload has more formals; there is none only if the name, a rest argument, the greatest number of formals, the table or keyword-only formals rule it out; the environment is unchanged |
| VenvRuns.Do | asymptote/entry.cc:636-705 | one operation follows one tick of the count of cells |
| VenvRuns.RunOps | asymptote/entry.cc:636-705 | the environment carries out any run that the count allows and then stands for what the run makes of the stack of maps |
| VenvRuns.RunScope | asymptote/entry.cc:645-663 | begin, a well-nested run, end: every entry and the order of every list of types are as they were |
| VenvRuns.RunCollapsed | asymptote/entry.cc:665-678 | begin, a well-nested run, collapse: what was entered stays, the scope is forgotten |
| VenvRuns.FewEnters | asymptote/entry.cc:212-225 | a run with no more entries than cells not in use is allowed |
| VenvRuns.NoEndsNeverStuck | asymptote/entry.cc:212-225 | so is any run that ends no scope, as the table grows in time |
| VenvRuns.RunFromNew | asymptote/entry.h:472-473 | a new environment carries out any such run and keeps an empty cell |
| TombRun.FillWithTombs | asymptote/entry.cc:212-225 | a global variable and three scopes with one variable each take up every cell of a new environment |
| TombRun.SearchForever | asymptote/entry.cc:359-372 | after it no search for an absent key stops |
| TombRun.TrackRefuses | asymptote/entry.cc:212-225 | the count allows this run, and after it refuses exactly the new keys |
| SignatureGuess.EquivalentMatchesExactly | asymptote/entry.cc:733-736 | a function with equivalent formals matches exactly |
| SignatureGuess.ExactHasSameKey | asymptote/entry.cc:719-731 | with no more formals than arguments, only a function of the same key matches exactly |
| SignatureGuess.OnlyGuessExact | asymptote/entry.cc:708-737 | among all overloads of the name the guess alone matches exactly |
| SignatureGuess.GuessIsResolution | asymptote/entry.h:505-517 | what the guess returns is the one candidate that full resolution, and resolution with shortcuts, returns |
| BooleanCode.AsCondMeans | asymptote/exp.cc:1568-1614 | the conditional that an operator is translated to has the operator's meaning and evaluations |
| BooleanCode.ValueCorrect | asymptote/exp.cc:1455-1470 | the value code makes the evaluations of short-circuit evaluation, in order, and pushes the value |
| BooleanCode.CondCorrect | asymptote/exp.cc:1455-1470 | the same for the three-part conditional |
| BooleanCode.StopMeans | asymptote/exp.cc:1580-1629 | when the left operand decides |
| BooleanCode.JumpCorrect | asymptote/exp.cc:1580-1629 | the jump code makes the same evaluations, leaves the stack as it was, and reaches the target if and only if the value is cond, else falls through |
| BooleanCode.PlainJumpCorrect | asymptote/exp.cc:132-135 | the same for an expression that is no operator |
| Coders.AllDefined | asymptote/coder.cc:235-262 | once all labels are defined every jump emitted goes to its label's place |
| Coders.JumpKeeps | asymptote/coder.cc:265-285 | a jump emitted to a defined label goes there, one to an undefined label waits |
| Coders.PatchKeeps | asymptote/coder.cc:235-262 | patching the waiting jumps leaves the intended program as it was |
| Coders.Coder.Encode | asymptote/coder.h:278-290 | appends one instruction |
| Coders.Coder.FwdLabel | asymptote/coder.cc:286-299 | a new label without a place |
| Coders.Coder.UseLabel | asymptote/coder.cc:265-285 | emits a jump that goes to wherever the label will be, before or after its definition |
| Coders.Coder.ReplaceEmptyJump | asymptote/coder.cc:219-222 | changes the target of one jump |
| Coders.Coder.PatchUses | asymptote/coder.cc:247-259 | patches exactly the jumps that wait for the label |
| Coders.Coder.DefLabel | asymptote/coder.cc:235-262 | defines the label here and changes no instruction but its recorded uses |
| Coders.Coder.TransBranch | asymptote/exp.cc:1455-1470 | emits the code of a conditional, wherever the labels will be, and defines every label it makes |
| Coders.Coder.TransValue | asymptote/exp.cc:1568-1614 | emits the value code, likewise |
| Coders.Coder.TransConditionalJump | asymptote/exp.cc:1580-1629 | emits the jump code for its target label, likewise |
| Coders.Coder.TransOr | asymptote/exp.cc:1580-1593 | the two ways for a disjunction |
| Coders.Coder.TransAnd | asymptote/exp.cc:1616-1629 | the two ways for a conjunction |
| Coders.BranchEmitted | asymptote/exp.cc:1455-1470 | with the two labels defined where they are, the parts emitted are the code of the conditional |
| Coders.SkippingEmitted | asymptote/exp.cc:1580-1629 | with the end label defined at the end, the operands emitted are the jump code that may skip the right one |
| Coders.CodeInPlace | asymptote/coder.cc:235-285 | with every label defined, code stands in the program where it was emitted, every jump at its label's place, whatever came after |
| Coders.ConditionRuns | asymptote/exp.cc:1580-1629 | running what was emitted for a condition in the finished program makes the evaluations of short-circuit evaluation and reaches the label if and only if the value is cond |
| Coders.ValueRuns | asymptote/exp.cc:1455-1470 | running what was emitted for a value pushes it after the same evaluations |
| IfStatements.TransIf | asymptote/stm.cc:186-207 | emits the code of an if statement and defines its labels |
| IfStatements.CompileIf | asymptote/stm.cc:186-207 | in an empty program the result, patched, is that code |
| IfStatements.IfCorrect | asymptote/stm.cc:186-207 | running it evaluates the test, executes the chosen branch and no other, and goes on after the statement |
| Frames.Frame.AccessFormal | asymptote/frame.h:73-77 | a formal lies below the parent link |
| Frames.Frame.AllocLocal | asymptote/frame.h:79-84 | a local lies above the parent link and everything allocated before |
| Frames.EncodeFrom | asymptote/coder.cc:183-206 | the loop emits the walk along the static chain |
| Frames.EncodeFrame | asymptote/coder.cc:165-181 | the code for a frame, from the active one |
| Frames.WalkIff | asymptote/coder.cc:183-206 | the walk succeeds if and only if the frame is on the static chain |
| Frames.ToFrameIff | asymptote/coder.cc:165-206 | encoding a frame succeeds if and only if it is null or on the active static chain |
| Frames.AccessIff | asymptote/access.cc:84-160 | a variable can be accessed exactly if every frame named is on the static chain it starts from; a frame cannot be written |
| Frames.WalkLeaves | asymptote/coder.cc:183-206 | the walk replaces a runtime frame by the ancestor's |
| Frames.ToFrameLeaves | asymptote/coder.cc:165-181 | the code pushes exactly that ancestor's runtime frame |
| Frames.NullLeaves | asymptote/coder.cc:169-189 | the null frame is pushed as null, or put in place of the frame on the stack |
| Frames.ReadFromCorrect | asymptote/access.cc:136-148 | reading from a frame on the stack replaces it by the variable's value |
| Frames.ReadCorrect | asymptote/access.cc:116-154 | reading pushes the intended variable's value from any depth and through any qualifiers |
| Frames.WriteFromCorrect | asymptote/access.cc:136-160 | writing through a frame on the stack |
| Frames.WriteCorrect | asymptote/access.cc:116-160 | writing changes the intended variable and no other, and leaves the value on the stack |
| Frames.ReadRuns | asymptote/access.cc:116-154 | the running machine goes on after the code with the value pushed |
| Frames.WriteRuns | asymptote/access.cc:116-160 | the running machine goes on after the code with the variable changed |
| Frames.WriteThenRead | asymptote/frame.h:61-84 | what is written is what is read back, as no variable shares its index with the parent link |
| Delaunay.ScanConserves | asymptote/Delaunay.cc:109-155 | removing triangles moves their boundary into the edge buffer |
| Delaunay.ScanCycles | asymptote/Delaunay.cc:129-143 | the edge buffer has as many edges into a vertex as out of it |
| Delaunay.TagConserves | asymptote/Delaunay.cc:161-170 | cancelling opposite edges changes no signed count |
| Delaunay.TagCancels | asymptote/Delaunay.cc:161-170 | afterwards no edge and its reverse are both left |
| Delaunay.FanBoundary | asymptote/Delaunay.cc:176-185 | the fan has the boundary of the edges it is built on |
| Delaunay.InsertConserves | asymptote/Delaunay.cc:100-186 | inserting a point keeps the signed count of every directed edge over the mesh, whatever the tests answer |
| Delaunay.BuildConserves | asymptote/Delaunay.cc:92-186 | after any number of points the mesh has the boundary of the supertriangle |
| Delaunay.BuildProper | asymptote/Delaunay.cc:92-186 | every triangle has three different vertices, all inserted so far or of the supertriangle |
| Survivors.ScanCounts | asymptote/Delaunay.cc:109-155 | the scan keeps each triangle that is complete or does not hold the point as often as it was there, and no other, and sets exactly the marks the test says |
| Survivors.ScanEdges | asymptote/Delaunay.cc:129-139 | the edge buffer has each edge as often as it is a side of a triangle driven out |
| Survivors.TagCounts | asymptote/Delaunay.cc:161-170 | after cancelling, an edge is left as often as it occurred more often than its reverse |
| Survivors.FanCounts | asymptote/Delaunay.cc:176-185 | one triangle to the point for each edge left |
| Survivors.InsertCounts | asymptote/Delaunay.cc:100-186 | how often each triangle is there after a point, marked and unmarked |
| Survivors.BuildMarks | asymptote/Delaunay.cc:144-153 | a triangle is marked complete exactly when a point tested against it was outside and finished it |
| Survivors.BuildClears | asymptote/Delaunay.cc:109-185 | an old triangle is there as often as before if its circumcircle does not hold the point or an earlier point finished it, and else not at all; a new one joins the point to a side that the triangles driven out have more often than its reverse, as often as that |
| Delaunay.StripKeeps | asymptote/Delaunay.cc:191-198 | stripping keeps exactly the triangles off the supertriangle, each as often as it occurred |
| Delaunay.TriangulationSound | asymptote/Delaunay.cc:92-198 | the result has triangles of points only, and with those stripped the boundary of the supertriangle |
| Delaunay.Grow | asymptote/Delaunay.cc:120-128 | a larger edge buffer with the same edges |
| Delaunay.PutEdges | asymptote/Delaunay.cc:129-139 | appends the edges of a triangle |
| Delaunay.SwapDeleteInPlace | asymptote/Delaunay.cc:140-142 | the last triangle takes the place of a deleted one |
| Delaunay.ScanInPlace | asymptote/Delaunay.cc:109-155 | the scan, in place, of which `Survivors.ScanCounts` says what it keeps; the edge buffer never overflows |
| Delaunay.TagInPlace | asymptote/Delaunay.cc:161-170 | the two nested cancelling loops, in place |
| Delaunay.FanInPlace | asymptote/Delaunay.cc:176-185 | the fan, in place; fails exactly when there is no room |
| Delaunay.InsertInPlace | asymptote/Delaunay.cc:100-186 | one turn of the main loop, of which `Survivors.InsertCounts` says what it leaves |
| Delaunay.StripInPlace | asymptote/Delaunay.cc:191-198 | the stripping loop, in place |
| Delaunay.Triangulate | asymptote/Delaunay.cc:92-200 | the routine from the supertriangle, point by point as `Survivors.BuildClears` tells, to the stripping; it fails exactly when some insertion exceeds the triangle buffer |
| Bounds.HalfIsBlossom | asymptote/bound.h:15-26 | the control values of a half are the blossom at its ends |
| Bounds.HalfCurve | asymptote/bound.h:15-26 | a half evaluates to the original on its half of the parameters |
| Bounds.QuarterIsHalves | asymptote/bound.cc:61-85 | the four sub-patches are halves of halves |
| Bounds.QuarterSurface | asymptote/bound.cc:61-85 | each sub-patch evaluates to the original on its quarter of the square |
| Bounds.QuarterSteps | asymptote/bound.cc:61-85 | the differences of adjacent control values are halved |
| Bounds.QuarterRange | asymptote/bound.cc:61-85 | the control values of each sub-patch stay in the range of the original's |
| Bounds.SurfaceAtMost | asymptote/bound.cc:38-50 | the surface stays below its control values |
| Bounds.BoundTaken | asymptote/bound.cc:52-86 | the upper bound is the old bound or a value the surface takes |
| Bounds.BoundCovers | asymptote/bound.cc:52-86 | no value of the surface exceeds it by more than max(fuzz * 2^depth, 2 * D / 2^depth) |
| Bounds.UpperBound | asymptote/bound.cc:52-86 | both, and the bound is at most the old one and the control values |
| Bounds.MinMirrorsMax | asymptote/bound.cc:52-86 | the lower bound is the upper bound of the negated patch, negated |
| Bounds.LowerBound | asymptote/bound.cc:52-86 | the lower bound is attained, at least every lower bound of the old one and the control values, and exceeds no value of the surface by more than the slack |
| BoundTris.PartIsBlossom | asymptote/bound.h:42-66 | the control values of the four sub-triangles are the blossom at their corners |
| BoundTris.BlossomSymmetric | asymptote/bound.h:42-66 | the blossom is symmetric |
| BoundTris.BlossomInPart | asymptote/bound.h:42-66 | the blossom of a sub-triangle is that of the whole, for any three corners |
| BoundTris.PartSurface | asymptote/bound.cc:111-127 | each sub-triangle evaluates to the original on its part |
| BoundTris.PartSteps | asymptote/bound.cc:111-127 | the differences of adjacent control values are halved |
| BoundTris.PartRange | asymptote/bound.cc:111-127 | the control values of each part stay in the range of the original's |
| BoundTris.PartsCover | asymptote/bound.cc:111-127 | the four parts cover the triangle |
| BoundTris.BoundTriTaken | asymptote/bound.cc:102-128 | the upper bound is the old bound or a value the surface takes |
| BoundTris.BoundTriCovers | asymptote/bound.cc:102-128 | no value of the surface exceeds it by more than the slack |
| BoundTris.UpperBoundTri | asymptote/bound.cc:102-128 | both, and the bound is at most the old one and the control values |
| BoundTris.MinMirrorsMaxTri | asymptote/bound.cc:102-128 | the lower bound is the upper bound of the negated triangle, negated |
| BoundTris.LowerBoundTri | asymptote/bound.cc:102-128 | the lower bound is attained, at least every lower bound of the old one and the control values, and exceeds no value of the surface by more than the slack |
| Slices.Array.Slice | asymptote/array.cc:37-75 | the elements of the slice, wrapping around in a cyclic array; None for an error |
| Slices.Array.SetNonBridgingSlice | asymptote/array.cc:77-102 | replaces a range by any number of elements |
| Slices.Array.SetBridgingSlice | asymptote/array.cc:104-113 | replaces the end and the start of the array |
| Slices.Array.SetSlice | asymptote/array.cc:115-159 | the array after an assignment, exactly when it is an error, and exactly when it would insert outside the array |
| Slices.Array.Delete | asymptote/builtin.cc:922-964 | the array after a delete, and exactly when it is an error |
| Slices.SetThenSlice | asymptote/array.cc:115-159 | as many elements as a cyclic slice has can be assigned, read back, and change no other position |
| Slices.SetThenSlicePlain | asymptote/array.cc:115-159 | in an array that is not cyclic the elements assigned read back, between what was before and after |
| Slices.AssignableIff | asymptote/array.cc:115-159 | when an assignment is no error: in a cyclic array for at most one turn, and past the end only with as many elements as the slice has |
| Slices.SetThenSliceCyclic | asymptote/array.cc:124-152 | any number of elements replace a cyclic slice that does not go past the end, between what was before and after it; an empty slice is a place to insert |
| Slices.WholeSlice | asymptote/array.cc:37-75 | the slice of a whole cyclic array is a rotation |
| Slices.CyclicSlice | asymptote/array.cc:37-66 | a cyclic slice of any length has its first turn from its left end and then repeats at the distance of the array's size |
| Slices.PlainSlice | asymptote/array.cc:15-75 | exactly when a slice is an error, and the elements of a slice of an array that is not cyclic |
| Slices.MetIff | asymptote/builtin.cc:940-954 | the positions removed are exactly those that the indices from i on reduce to, up to the first that reduces to what j does, which is j itself within one turn |
| Slices.DeleteCyclic | asymptote/builtin.cc:940-954 | a cyclic delete of a whole turn or more leaves nothing; otherwise the size and every element of what is left |
| Slices.DeletePlain | asymptote/builtin.cc:956-963 | a delete from an array that is not cyclic is an error exactly for a range outside it; what is before the range stays, what follows it moves up |
| Slices.DeleteDefaults | asymptote/builtin.cc:929-937 | without arguments everything goes, with one only that position |
| HistoryLine.StringEnds | asymptote/asyprocess.cc:414-425 | the end of a string is where the lexer leaves it |
| HistoryLine.CommentEnds | asymptote/asyprocess.cc:429-435 | the end of a comment is where the simple lexer leaves it |
| HistoryLine.SlashPosIsFirst | asymptote/asyprocess.cc:503-523 | the scanner finds the first line comment outside strings and comments, for every line |
| HistoryLine.EndComment | asymptote/asyprocess.cc:525-543 | the line with the comment rewritten, or none without a line comment |
| HistoryLine.RewrittenMeans | asymptote/asyprocess.cc:525-543 | the rewritten line ends in code; it has the code and strings of the line, then a space, if and only if no line feed follows the comment |
| HistoryLine.RewrittenKeeps | asymptote/asyprocess.cc:531-542 | the line keeps its text but for the second slash, which becomes a star, and the slash of every end of a comment after it |
| HistoryLine.LexersAgreeIff | asymptote/camp.l:213-224 | the simple lexer and that of the compiler read a line in the same modes if and only if no comment contains an overlap |
| HistoryLine.RecordedForCompiler | asymptote/asyprocess.cc:525-543 | without an overlap both statements hold for the lexer of the compiler |
| HistoryLine.OverlapMisleads | asymptote/asyprocess.cc:503-523 | a line that the compiler reads as an open comment and the scanner as code with a line comment |

## Left out

- Types.EquivalentIffCanon: overloaded types are not among these types; they are argument types, of which `Types.ArgEquivalentIff` speaks. Null and error types are primitive kinds.
- Types.EquivalenceRelation: the same.
- Types.ArgEquivalentSymmetric: types are values, so that an overloaded type without members is equivalent to itself as an object is not seen.
- Applications: equivalence, casts and error types are arbitrary relations in the environment of a match; only looking up by signature uses the equivalence of `Types`. The members of an overload set are function types with well-formed signatures.
- A rest formal that is not an array makes the compiler stop (asymptote/application.cc:133-134); here it is excluded by `WellFormed`.
- The custom handlers of open signatures and the cached overload data (asymptote/builtin_handlers.cc) are not modelled.
- Casting and error reporting around resolution (asymptote/exp.cc:925-1100) and `sameApplications`, whose claim is the theorem instead.
- OpenCalls.OpenArgsCorrect: for open signatures without formals, the only ones made (asymptote/types.h:367-369); assumes that the value of the rest argument is an array.
- SequencerProofs.TransArgsCorrect: assumes that the value of the rest argument is an array, since values carry no types here.
- Sequencers: the pop after a temporary is always a `pop` instruction; the merged form that `encodePop` may emit is not modelled.
- CoreVenvs.CoreVenv.Lookup: requires an empty cell or the key, as does store; that every run keeps one is false, as `TombRun` shows.
- VenvRuns.RunOps: the count takes a cell for every new key, although storing may reuse a tomb; which tombs are reused depends on the hash values. For a single operation the condition is exact (`CoreVenvs.SearchStopsIff`).
- CoreVenvs.CoreVenv.Seek: the six probe loops differ in what they compare and whether tombs stop them, and share one loop with those two parameters. Indices are taken modulo the capacity instead of masked, and do not wrap around at the width of a word.
- CoreVenvs: the hash value is an arbitrary function of the name and the canonical signature or type, so it respects equivalence.
- Venvs.Venv.LookBySignature: the bound on formals exempts open signatures, because replacing one tells nothing about the number of its formals; they cannot match exactly.
- Venvs: merging environments, unravelling, listing and completion (asymptote/entry.cc:739-869).
- SignatureGuess.GuessIsResolution: for calls without names, rest or overloaded arguments and environments without error types, as the compiler asks before it looks up by signature.
- BooleanCode: boolean leaves leave booleans; conditionals over arrays (asymptote/exp.cc:1472-1520) and statements other than if (asymptote/stm.cc) are not modelled.
- IfStatements.TransIf: the code of the branches is given and does not jump.
- Coders: labels live in a table of the coder instead of on the heap; static code that is delegated to the enclosing coder, and the merging of a comparison with the following jump, are not modelled.
- Frames: calling through an access (the CALL action), static code, and access to built-in functions.
- Delaunay.Triangulate: sorting, the place of the supertriangle and the renumbering after sorting are not part of it.
- Delaunay: the geometry. The two tests are an arbitrary oracle of the triangle and the point; empty circumcircles are not stated.
- Bounds and BoundTris: arithmetic over exact reals instead of floating point; bounds of curves through a perspective function (`ratiobound`).
- Slices.Array.SetSlice: what happens after an insertion outside an empty cyclic array, where the index is not reduced, is not modelled; the method says when it would happen.
- Slices: elements are values, so assigning an array to a slice of itself needs no copy; copying to a depth is left out.
- HistoryLine.EndComment: lines without a line comment go on to `endString` (asymptote/asyprocess.cc:473-500), which is not modelled.
- HistoryLine: names of operators written after the keyword `operator` are lexed as other code.
