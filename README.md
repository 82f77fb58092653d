# build2 test-script runtime and helpers, modelled in Dafny

This project models the core of the build2 build system in Dafny:

- The testscript object model: pre-parsed lines, regex lines, redirects and their effective value, cleanups, command exit expectations, commands, pipes and expressions, and the environment's cleanup registration.
- The lexical token.
- The test-script runner: entering and leaving a scope's working directory, and running one command with its redirects, exit-status check, output checks and cleanup bookkeeping.
- Target bookkeeping: target types and their base chains, the recipe state of a target, the depth of an original variable lookup, the target set, the printed form of a target key, path derivation, and the factories and extension functions of the built-in types.
- The bash module's rules: matching, the for-install handshake between the in rule and the install rule, the PATH scan for import-installed modules, and the substitution of `@import <path>@` with a `source` line.
- The `config` module's helpers `specified`, `unconfigured`, `omitted`, `optional` and `create_project`.
- The pure builtin functions `sort` (with its flags), `size`, `string`, `null`, `empty` and `quote`.

The shared modules are:

- `Wrappers`: `Option`, `Result` and `Outcome`.
- `Strings`: splitting, joining, trimming and decimal conversion.
- `Paths`: structured paths with parsing, printing and normalisation.
- `FileSystem`: the filesystem as a map from path components to a file (with its content) or a directory, with `mkdir`, `rmdir`, `rmfile` and open-for-write as functions, and a class `FS` whose methods apply them in place.

The runner, the environment's cleanup list, a target, the target set, the bash rule's match data and a chain of configuration scopes are classes. Their methods update fields in place, and each method is proved against a function of the old state. Everything else is datatypes, functions and lemmas.

Where the source files differ from one another, or leave a choice open, the model follows the code that implements the behaviour:

- Test runner API. `build2/test/script/runner.cxx` uses an older redirect API than `libbuild2/script/script.hxx`:
  - here-strings and here-documents are plain text;
  - a file redirect carries an append flag;
  - the exit expectation is called `status`;
  - command cleanups are plain paths.

  The runner is modelled with its own redirect and command types.
- Cleanup root. `environment::clean` ignores an implicit registration outside the "root directory" (libbuild2/script/script.hxx:367-369), which the header does not define further. The model takes that root to be the sandbox directory. An empty sandbox directory restricts nothing.
- Written `root.build` epilogue. When `rpos` is not empty, `create_project` writes `rpre` a second time instead of `rpos`. The model does the same, and `ConfigUtility.RootTextRepeatsPrologue` shows that the text of `rpos` never reaches `root.build`.

## Model

| member | source | states |
|---|---|---|
| Token.DefaultToken | libbuild2/token.hxx:121-122 | a default token is `eos`, not separated, at line 0 column 0, with an empty unquoted value and the standard printer |
| Token.TypedToken | libbuild2/token.hxx:124-125 | a typed token keeps its type, separation, location and printer, with an empty unquoted value |
| Token.QuotedToken | libbuild2/token.hxx:127-131 | the quoted constructor sets `qcomp` exactly when the quote type is not `unquoted` |
| Token.WordToken | libbuild2/token.hxx:133-136 | the string constructor always yields a `word` token keeping value, separation, quoting and location |
| Token.EqualIsEquivalence | libbuild2/token.hxx:157-161 | token equality is reflexive, symmetric and transitive |
| Token.EqualIgnoresPresentation | libbuild2/token.hxx:157-161 | equality ignores separation, quoting, location and printer |
| Token.WordTokensEqual | libbuild2/token.hxx:133-136 | two word tokens are equal exactly when their values are equal, whatever their presentation |
| Token.TokenEq | libbuild2/token.hxx:157-161 | `==` holds exactly when the tokens agree once separation, quoting, location and printer are cleared |
| Token.TokenNe | libbuild2/token.hxx:163-167 | `!=` holds exactly when the cleared tokens differ, and implies the tokens themselves differ |
| Token.NotEqualIsApartness | libbuild2/token.hxx:157-167 | `!=` is irreflexive and symmetric, and a token unequal to one of two equal tokens is unequal to the other |
| Token.ReplayToken.Location | libbuild2/token.hxx:192-193 | a replay token's location is its file with the token's line and column unchanged |
| Script.RegexLineRegex | libbuild2/script/script.hxx:101-108 | the regex constructor sets `regex`, keeps value, flags, special characters (empty by default) and location, and yields a valid regex line |
| Script.RegexLineLiteral | libbuild2/script/script.hxx:112-117 | the literal constructor clears `regex` and flags, and puts the text in exactly one of `value` (text) or `special` (special), so that the literal's text is the argument and the other field is empty |
| Script.NoneRedirect | libbuild2/script/script.hxx:164-165 | the default redirect has type `none`, no modifiers and no end marker |
| Script.MakeRef | libbuild2/script/script.hxx:169-176 | a reference redirect is built only over a non-reference; it is a `here_doc_ref` without chains whose effective redirect is the referenced one |
| Script.Effective | libbuild2/script/script.hxx:185-189 | `effective()` is the referenced redirect for `here_doc_ref` and the redirect itself otherwise |
| Script.EffectiveIsFinal | libbuild2/script/script.hxx:154-189 | without reference chains the effective redirect is never a reference, and taking it twice changes nothing |
| Script.Classify | libbuild2/script/script.hxx:201-215 | a cleanup with a trailing slash is one of the directory forms (`foo/`, `dir/*/`, `dir/**/`), and only such a cleanup is |
| Script.ClassifyWildcards | libbuild2/script/script.hxx:206-215 | a cleanup is a wildcard one exactly when its last component is `*`, `**`, or `***` without a trailing slash |
| Script.NewCommand | libbuild2/script/script.hxx:254-265 | a new command expects exit comparison `eq` with code 0, has `none` redirects and no cleanups |
| Script.Fold | libbuild2/script/script.hxx:293-299 | terms combine left to right with their operators; the value is the start value or one of the pipes' outcomes |
| Script.ExprValue | libbuild2/script/script.hxx:293-301 | the first term is OR-ed to an implied false; an empty expression is false, any other takes the outcome of one of its pipes |
| Script.FoldAllOr | libbuild2/script/script.hxx:293-299 | a chain of `||` terms is true exactly when the start value or some pipe is |
| Script.FoldAllAnd | libbuild2/script/script.hxx:293-299 | a chain of `&&` terms is true exactly when the start value and every pipe are |
| Script.ExprUniform | libbuild2/script/script.hxx:293-301 | with only `||` after the first term an expression holds exactly when some pipe succeeds; with only `&&`, exactly when all do |
| Script.FoldShortCircuit | libbuild2/script/script.hxx:293-299 | once the accumulated value is true, `||` terms leave it true; once false, `&&` terms leave it false |
| Script.ExprShortCircuit | libbuild2/script/script.hxx:295-301 | an expression whose first term is OR-ed to an implied false, and whose later terms cannot change that value, evaluates to the first pipe's outcome |
| Script.IndexOfPath | libbuild2/script/script.hxx:364-372 | the position of the first cleanup registered for a path, or the list length when there is none |
| Script.Registered | libbuild2/script/script.hxx:367-372 | registration grows the list by at most one, by appending `c` for a new path; an existing entry stays or is replaced by `c` at its own path |
| Script.RegisteredShape | libbuild2/script/script.hxx:367-372 | registration keeps paths unique, adds the path unless it is an ignored implicit one, grows the list by at most one, keeps existing positions, leaves other paths' entries unchanged, and an implicit re-registration keeps the existing entry |
| Script.ExplicitOverrides | libbuild2/script/script.hxx:367-369 | an explicit registration of an already registered path overrides its cleanup type |
| Script.ImplicitOutsideIgnored | libbuild2/script/script.hxx:327-372 | an implicit registration of a path outside a non-empty sandbox directory is ignored |
| Script.RegisteredIdempotent | libbuild2/script/script.hxx:367-372 | registering the same cleanup twice is the same as registering it once |
| Script.Environment.constructor | libbuild2/script/script.hxx:339-350 | the environment keeps its working and sandbox directories and names, with no cleanups |
| Script.Environment.WithoutSandbox | libbuild2/script/script.hxx:352-359 | without a sandbox, the sandbox directory and its name are empty |
| Script.Environment.Clean | libbuild2/script/script.hxx:367-372 | `clean` replaces the cleanup list by the registration of the cleanup in the old list |
| Script.Environment.CleanSpecial | libbuild2/script/script.hxx:374-379 | `clean_special` appends the path to the special cleanups |
| Runner.Resolve | build2/test/script/runner.cxx:255-272 | `normalize` keeps an absolute path and completes a relative one against the working directory; the result is normal, and it is absolute when either the path or the working directory is; only an invalid path fails |
| Runner.ResolveIdempotent | build2/test/script/runner.cxx:258-272 | normalizing an already normalized absolute path gives it back, whatever the working directory |
| Runner.ResolveInsideWorkDir | build2/test/script/runner.cxx:258-272 | a relative path without `..` resolves to a path inside an absolute working directory |
| Runner.ResolveAllElementwise | build2/test/script/runner.cxx:421-424 | normalizing a command's cleanup list succeeds exactly when each path does, element by element |
| Runner.CaptureName | build2/test/script/runner.cxx:358-366 | the capture file is named `stdout` or `stderr`, with `-<ci>` appended exactly when `ci > 0` |
| Runner.CaptureNamesDistinct | build2/test/script/runner.cxx:358-366 | different stream and command numbers give different capture files |
| Runner.OrigNotCapture | build2/test/script/runner.cxx:358-366 | an expected-output `.orig` file never coincides with a capture file |
| Runner.StdinDescriptor | build2/test/script/runner.cxx:277-305 | stdin is 0 for `pass`, -1 for a here-string or here-document, -2 for `null` or `none`, and the opened file for `file` exactly when it resolves to an existing file; `merge` is excluded |
| Runner.OpenOutput | build2/test/script/runner.cxx:329-385 | `pass`, `null` and `merge` give dfd, -2 and the merge fd without touching cleanups or files; every other redirect opens its file (the named file, or the capture file) and registers exactly that path for cleanup, or fails and changes nothing |
| Runner.ExitDiag | build2/test/script/runner.cxx:429-469 | a missing status is reported as abnormal termination first, then an out-of-range status, then a mismatch; no report exactly when the status is correct |
| Runner.CorrectStatus | build2/test/script/runner.cxx:429-434 | a correct status exists and is in [0,256), equals the expected one under `==` and differs from it under `!=` |
| Runner.CorrectStatusMeaning | build2/test/script/runner.cxx:429-434 | with `==` the status is correct exactly when it equals the expected one; with `!=` exactly when it is in [0,256) and differs |
| Runner.NonEmpty | build2/test/script/runner.cxx:19-43 | `non_empty` is true exactly for an existing non-empty file at a non-empty path, and false for an empty or missing path |
| Runner.StripCR | build2/test/script/runner.cxx:95-100 | dropping line-ending carriage returns never lengthens a text, and a text of the same length is unchanged |
| Runner.StripCRNoCR | build2/test/script/runner.cxx:95-100 | the comparison ignoring trailing carriage returns leaves a text without them unchanged |
| Runner.StripCRLineEnds | build2/test/script/runner.cxx:95-100 | under that comparison a CRLF line end equals an LF one |
| Runner.CheckOutput | build2/test/script/runner.cxx:45-66 | `check_output` does nothing for redirects other than `none`, here-string and here-document; for `none` it passes exactly when the saved output is empty or missing |
| Runner.CheckExpected | build2/test/script/runner.cxx:67-100 | for a here-string or here-document the expected text is written to `<output>.orig`, that file is registered for cleanup, and the check passes exactly when the output matches it |
| Runner.RegisterCleanups | build2/test/script/runner.cxx:421-424 | command cleanups are normalized and appended in order, or the run fails on an invalid path |
| Runner.OpenOutputs | build2/test/script/runner.cxx:386-392 | stdout is opened first and stderr only when stdout succeeded, each as `OpenOutput` opens it in the state the previous one left; descriptors, paths, files and cleanups are given in full, and redirects that open no file change nothing |
| Runner.CheckOutputs | build2/test/script/runner.cxx:478-481 | stdout is checked first and stderr only when stdout passed, each as `CheckOutput` checks it in the state the previous one left; the outcome, files and cleanups are given in full, and redirects that compare nothing pass and change nothing |
| Runner.Destination | build2/test/script/runner.cxx:329-392 | a stream merged into the other goes wherever the other goes; a stream opened to a file, or not merged, keeps its own descriptor |
| Runner.Emits | build2/test/script/runner.cxx:396-400 | the child's text is appended to the file its stream goes to, and the files are otherwise unchanged |
| Runner.Run | build2/test/script/runner.cxx:220-503 | the outcome, the files and the cleanups after running a command are those of the staged run specification (stdin, both openings, the child's writes, cleanup registration, exit status, both output checks); a pass needs stdin set up, a child that ran with a correct status; a child that cannot be started fails; cleanups only grow |
| Runner.RegisterOfResolves | build2/test/script/runner.cxx:421-424 | registration passes exactly when every cleanup normalizes, appends exactly the normalized list, and never drops earlier cleanups |
| Runner.OpenOutputsGrows | build2/test/script/runner.cxx:386-392 | opening the outputs never drops a registered cleanup |
| Runner.CheckOutputsGrows | build2/test/script/runner.cxx:478-481 | checking the outputs never drops a registered cleanup |
| Runner.RunExitedPass | build2/test/script/runner.cxx:419-481 | after the child exited, a pass needs every cleanup to normalize and the status to be correct, and registers all the cleanups after those already present |
| Runner.RunPassRequires | build2/test/script/runner.cxx:220-503 | a passing command had stdin set up, a child that exited with a correct status and cleanups that all normalize; every one of them is registered and no earlier cleanup is dropped |
| Runner.CaptureOpened | build2/test/script/runner.cxx:329-392 | capturing stdout for a check creates an empty capture file under an existing directory, while stderr passed, discarded or merged opens nothing |
| Runner.CaptureWritten | build2/test/script/runner.cxx:396-400 | the capture file then holds exactly the child's stdout, followed by its stderr when stderr is merged into stdout |
| Runner.CheckedCapture | build2/test/script/runner.cxx:45-100 | a passing check of a capture found it empty for `none`, and equal to the expected text up to line-ending carriage returns otherwise |
| Runner.RunChecksCapturedOutput | build2/test/script/runner.cxx:220-503 | a passing command with checked stdout wrote nothing to it when `none` was expected, and otherwise exactly the expected text (with stderr merged in when redirected so), up to line-ending carriage returns |
| Runner.RunPlainPasses | build2/test/script/runner.cxx:220-503 | a command whose outputs are passed through or discarded, with a correct exit status and cleanups that normalize, passes, registers exactly its cleanups and changes no file |
| Runner.Enter | build2/test/script/runner.cxx:164-181 | `enter` fails on an existing non-empty working directory, creates a missing one, and on success appends the working directory to the cleanups; on failure the files and cleanups are unchanged |
| Runner.LastIndex | build2/test/script/runner.cxx:196-200 | a registration of the path, or -1 |
| Runner.LastIndexIsLast | build2/test/script/runner.cxx:196-200 | no registration of the path comes after the one `LastIndex` finds, and it finds one exactly when the path was registered: it is the one the reverse walk meets first |
| Runner.FirstSeenMembers | build2/test/script/runner.cxx:196-200 | the reverse walk visits exactly the registered paths not already seen |
| Runner.FirstSeenOrder | build2/test/script/runner.cxx:196-200 | the reverse walk visits paths in the order of their last registration, latest first |
| Runner.FirstSeenShape | build2/test/script/runner.cxx:196-200 | the reverse walk visits each path not yet seen once, ordered by last registration, latest first |
| Runner.VisitsOrder | build2/test/script/runner.cxx:186-200 | the visited paths are exactly the registered ones, each once, in reverse order of their last registration |
| Runner.RemovalOf | build2/test/script/runner.cxx:201-217 | a visited path that can be removed (an empty directory, or an existing file) is removed, and otherwise nothing changes |
| Runner.TeardownOf | build2/test/script/runner.cxx:196-218 | removal in order only ever removes entries, and a failure carries the diagnostic of one of the visited paths |
| Runner.TeardownRemoves | build2/test/script/runner.cxx:196-218 | after a successful teardown every visited path is gone and every other entry is unchanged |
| Runner.LeaveRemovesAll | build2/test/script/runner.cxx:183-218 | after a successful `leave` no registered path remains |
| Runner.EnterLeaveRestores | build2/test/script/runner.cxx:164-218 | entering a fresh working directory and leaving it restores the filesystem |
| Runner.Leave | build2/test/script/runner.cxx:183-218 | `leave` walks the cleanups in reverse, removes each distinct path once, and fails on a directory that is not empty or is missing, or on a missing file |
| Targets.Chain | build2/target.cxx:20-28 | a type's base chain starts with the type itself |
| Targets.IsA | build2/target.cxx:20-28 | `is_a(tt)` holds exactly when `tt` is in the base chain starting at this type |
| Targets.ChainClosed | build2/target.cxx:20-28 | the chain of any type in a chain is contained in that chain |
| Targets.IsATransitive | build2/target.cxx:20-28 | `is_a` is transitive |
| Targets.BuiltinHierarchy | build2/target.cxx:459-600 | man1 is a file, man is a doc, buildfile is a file, dir is an alias but not a file, fsdir is a target |
| Targets.SetRecipeOf | build2/target.cxx:51-85 | setting a recipe records the action and recipe, marks the state `unchanged` for noop and `unknown` otherwise, and resets dependents unless it is an override |
| Targets.OnlyNoopOverridden | build2/target.cxx:54-64 | after setting a recipe, the same action can set another only if the first was noop |
| Targets.OverrideKeepsDependents | build2/target.cxx:56-84 | overriding a noop recipe keeps the dependents count |
| Targets.Target.SetRecipe | build2/target.cxx:51-85 | `recipe()` updates the target's action, recipe, state and dependents as above |
| Targets.FindOriginal | build2/target.cxx:120-154 | a value in the target is found at depth 1, one in the group at depth 2, and otherwise the scope's lookup with its depth offset by 2 when found |
| Targets.LookupDepthOrder | build2/target.cxx:120-154 | a value in the target or its group is found at a smaller depth than one found in a scope |
| Targets.TargetSet.Find | build2/target.cxx:179-210 | `find` returns the target with the key, if any, and sets its extension to the key's extension when that is specified; the set, the target's path and its recipe slot (action, recipe, state, dependents) stay as they were |
| Targets.TargetSet.Insert | build2/target.cxx:212-233 | `insert` reports true exactly when no target with the key existed; a repeated key returns the same target, and a new one is built by the type's factory; every existing target keeps its path and recipe slot |
| Targets.FactoryExtension | build2/target.cxx:470-577 | `file_factory` maps an unspecified extension to empty; `man_factory` fails without an extension; `target_factory` keeps it |
| Targets.FileFactoryAlwaysSpecified | build2/target.cxx:478-596 | file targets always have a specified extension; man needs one and man1 does not |
| Targets.BuildfileExt | build2/target.cxx:535-542 | the name `buildfile` has no extension and every other name has `build` |
| Targets.TypeExtension | build2/target.cxx:535-596 | the null extension function gives none, the fixed one its extension, the buildfile one as above, and the variable-driven one the variable's value or else its default |
| Targets.ExtensionText | build2/target.cxx:259-274 | no extension is printed for a type without extensions or at `ev` 0; at 1 only a non-empty assigned one; from 2 always, with `?` for an unassigned one |
| Targets.ExtensionTextDistinguishes | build2/target.cxx:264-271 | from `ev` 2 the printed extension tells extensions apart, except that an unassigned one prints like the extension `?` |
| Targets.ExtensionTextMonotone | build2/target.cxx:264-271 | a higher verbosity prints the same extension once a lower one does |
| Targets.PrintVerbosity | build2/target.cxx:420-432 | the default printer uses the stream verbosity as is; the 0-extension printer maps verbosity 1 to 0, the 1-extension printer maps 0 to 1, and from 2 up both keep it |
| Targets.ToStream | build2/target.cxx:236-283 | a named key prints the directory (relative below verbosity 2), the type, `{` and the name, and ends with the name, the extension text and `}` when there is no out directory; a key without a name prints `type{dir}`; a non-empty out directory ends the text with `}@` and the relative out directory |
| Targets.NamedKeyText | build2/target.cxx:243-283 | the printed form of a named key starts with the lead, the type, `{` and the name, and ends with the name, extension and `}` or with `}@` and the out directory |
| Targets.DirKeyText | build2/target.cxx:253-283 | the printed form of a key without a name starts with `type{dir}` and ends with `}@` and the out directory when there is one |
| Targets.Print | build2/target.cxx:286-295 | `operator<<` prints the key as `to_stream` does at the printer's extension verbosity: a named key without out directory ends with the name, that extension text and `}`, and a non-empty out directory ends it with `}@` and the relative out directory |
| Targets.PrintShowsExtension | build2/target.cxx:259-295 | a non-empty extension shows under the 1-extension printer, under the default printer from verbosity 1, and under any printer from 2; none shows for a type without extensions, under the 0-extension printer below 2 or the default printer at 0; an unassigned extension shows as `.?` from 2 |
| Targets.PrintedExtensions | build2/target.cxx:491-600 | file and man show a non-empty extension at every verbosity; man1 hides it below 2 |
| Targets.DerivedName | build2/target.cxx:305-345 | the derived name is prefix, name and suffix, with `.` and the extension appended exactly when the extension is not empty |
| Targets.DerivedNameDeterminesExtension | build2/target.cxx:305-345 | two extensions that derive the same name from the same prefix, name and suffix are equal |
| Targets.ResolvedExtension | build2/target.cxx:320-337 | an existing extension is kept, otherwise the type's extension function, otherwise the default; none only when all are absent |
| Targets.DerivedPath | build2/target.cxx:347 | the derived path is the target directory joined with the derived name |
| Targets.Target.DerivePath | build2/target.cxx:302-356 | `derive_path` resolves the extension, sets the path when empty, and fails on no extension or on a different assigned path |
| BashRule.Match | libbuild2/bash/rule.cxx:43-70 | the rule matches exactly when a normal in{} prerequisite exists and the target is bash{} or has a normal bash{} prerequisite |
| BashRule.MatchData.constructor | libbuild2/bash/rule.cxx:78 | fresh match data has no for-install value |
| BashRule.AfterPerformUpdate | libbuild2/bash/rule.cxx:89-92 | perform_update sets for-install to false only when unset, never overwriting it |
| BashRule.AfterInstallApply | libbuild2/bash/rule.cxx:402-424 | install apply on update sets for-install to true when unset and fails when it is already false; other operations leave it |
| BashRule.HandshakeOrders | libbuild2/bash/rule.cxx:407-421 | install apply before the update leaves for-install true; an update before install apply makes install apply fail |
| BashRule.HandshakeStable | libbuild2/bash/rule.cxx:89-92 | once set, neither rule changes for-install |
| BashRule.MatchData.PerformUpdate | libbuild2/bash/rule.cxx:83-95 | `perform_update` updates the match data as above |
| BashRule.MatchData.InstallApply | libbuild2/bash/rule.cxx:402-424 | `install_rule::apply` updates the match data as above, or fails and leaves it |
| BashRule.SearchPathEntries | libbuild2/bash/rule.cxx:134-147 | the PATH scan yields the colon-separated entries, skipping empty ones |
| BashRule.PathStep | libbuild2/bash/rule.cxx:136-147 | one step of the scan: the entry up to the next separator, if not empty, followed by the rest |
| BashRule.ImportSearchPath | libbuild2/bash/rule.cxx:116-130 | the import path is relative: the project base, then the prerequisite's directory, then a leaf of the name with `.bash` when no extension is given, with nothing when it is given empty, and with `.` and the extension otherwise |
| BashRule.Candidate | libbuild2/bash/rule.cxx:147-153 | a candidate is exactly the PATH entry joined with the import path and normalized; it is normal, and exists whenever the entry is relative |
| BashRule.Route | libbuild2/bash/rule.cxx:196-206 | a name goes to `substitute_import` exactly when it starts with `import` followed by a space or tab, passing the trimmed remainder |
| BashRule.RouteExamples | libbuild2/bash/rule.cxx:203-205 | `import x` and `import<TAB>x` are directives; `import` alone and `imports x` are not |
| BashRule.ImportPath | libbuild2/bash/rule.cxx:216-233 | an empty or absolute import path fails; otherwise the result is relative and normal |
| BashRule.ImportPathExtension | libbuild2/bash/rule.cxx:216-231 | a valid import path without an extension (no dot in the leaf after its first character and before its last) gets `.bash` appended to its leaf; one with an extension is kept as parsed |
| BashRule.ImportPathPlainName | libbuild2/bash/rule.cxx:216-231 | a single-component name is kept when it has an extension and gets `.bash` otherwise |
| Paths.HasExtensionExamples | libbuild2/bash/rule.cxx:225-226 | `a.b` has an extension; `.b`, `a.` and `a.b.` do not, so they get `.bash` |
| BashRule.MatchRoot | libbuild2/bash/rule.cxx:285-287 | the match starts at the project's src root when the path lies inside it, and at its out root otherwise |
| BashRule.Consider | libbuild2/bash/rule.cxx:238-299 | a prerequisite is taken exactly when it is a present, non-ad hoc bash{} target whose path ends with the import path and, for an import-installed one, whose printed path ends with the printed import path, or otherwise whose path below its project's src root (or else out root) is the import path; a bash{} candidate outside any project that was not import-installed is rejected as out of project |
| BashRule.ConsiderFromRoot | libbuild2/bash/rule.cxx:248-295 | a project prerequisite is taken exactly when it lies below its root with exactly the import path's components after it, so a deeper path with the same tail is skipped; a taken path is the root joined with the import path |
| BashRule.ResolveImportOf | libbuild2/bash/rule.cxx:235-303 | a resolved import is the path of a prerequisite that was taken, and it ends with the import path |
| BashRule.ResolveImportFirst | libbuild2/bash/rule.cxx:238-300 | the first prerequisite taken wins |
| BashRule.ResolveImport | libbuild2/bash/rule.cxx:235-303 | the loop over prerequisite targets computes that resolution |
| BashRule.Offset | libbuild2/bash/rule.cxx:372-376 | the offset is one `../` per directory component |
| BashRule.SourceLine | libbuild2/bash/rule.cxx:357-385 | a `source` line for an installed script ends with the import path and a closing quote |
| BashRule.SubstituteImportOf | libbuild2/bash/rule.cxx:208-389 | a successful substitution had a valid import path that resolved; when not installing it is `source` followed by the resolved path; when installing it is the executable form, or the module form climbing one `../` per component of the target directory below the out root |
| BashRule.SubstituteImport | libbuild2/bash/rule.cxx:208-389 | `substitute_import` computes that substitution |
| BashRule.SubstituteImportSucceeds | libbuild2/bash/rule.cxx:208-389 | the substitution succeeds exactly when the import path is valid, it resolves, and, for an installed module, the target directory is below the out root |
| BashRule.NotInstallingSourcesPrerequisite | libbuild2/bash/rule.cxx:387-388 | when not installing, the substitution is `source ` followed by a bash prerequisite's path |
| BashRule.InstalledModuleOffset | libbuild2/bash/rule.cxx:366-385 | for an installed module the line is the module prefix, three characters (`../`) per component of the target directory below the out root, the import path and a closing quote |
| ConfigUtility.Namespace | libbuild2/config/utility.cxx:77 | a module's namespace is `config.<n>` |
| ConfigUtility.FlagName | libbuild2/config/utility.cxx:103-117 | the flag variable lies in the namespace and ends in `.configured` |
| ConfigUtility.Lookup | libbuild2/config/utility.cxx:107 | a lookup finds nothing exactly when no scope has the variable, otherwise the innermost scope's value |
| ConfigUtility.Unconfigured | libbuild2/config/utility.cxx:97-109 | `unconfigured(rs, n)` holds exactly when the flag is found and is false |
| ConfigUtility.SetUnconfiguredOf | libbuild2/config/utility.cxx:111-130 | `unconfigured(rs, n, v)` stores `!v` and reports a change exactly when the old value was absent, null or different |
| ConfigUtility.SetUnconfiguredReadBack | libbuild2/config/utility.cxx:97-130 | after storing `v`, reading the flag back gives `v` |
| ConfigUtility.SetUnconfiguredIdempotent | libbuild2/config/utility.cxx:123-129 | storing the same value a second time reports no change |
| ConfigUtility.SetUnconfiguredKeepsSpecified | libbuild2/config/utility.cxx:86-125 | storing the flag never changes whether any module counts as specified |
| ConfigUtility.Omitted | libbuild2/config/utility.cxx:20-53 | the found value is the override when it differs from the original; the new flag is set exactly when the original is a default or an override applies (lookups compared by value, see "## Left out") |
| ConfigUtility.OmittedPlain | libbuild2/config/utility.cxx:26-34 | without override and without a default value the original is returned as not new |
| ConfigUtility.Scopes.Specified | libbuild2/config/utility.cxx:66-95 | `specified` holds exactly when some scope up the chain has a variable in `config.<n>` whose name does not end in `.configured` |
| ConfigUtility.Scopes.SetUnconfigured | libbuild2/config/utility.cxx:111-130 | the method updates the root scope as above, and the flag then reads back as `v` |
| ConfigUtility.Scopes.Optional | libbuild2/config/utility.cxx:55-64 | `optional` returns the found value, or assigns null in the root scope; afterwards the lookup finds the returned value |
| ConfigUtility.Header | libbuild2/config/utility.cxx:158-160 | the header names the generating tool and ends with `#` |
| ConfigUtility.AmalgamationLine | libbuild2/config/utility.cxx:193-204 | the line is absent exactly without an amalgamation, and otherwise starts with `amalgamation =` and ends the line |
| ConfigUtility.AmalgamationLineCases | libbuild2/config/utility.cxx:193-204 | the `amalgamation =` line appears only with an amalgamation, with a value only when it is non-empty, and that value parses back to it |
| ConfigUtility.Without | libbuild2/config/utility.cxx:212-215 | the bootstrap modules other than `config` are kept and `config` is dropped |
| ConfigUtility.BootstrapModulesLoaded | libbuild2/config/utility.cxx:208-215 | with `config` set, `using config` appears once and the other modules follow; otherwise the modules are as given |
| ConfigUtility.BootstrapText | libbuild2/config/utility.cxx:180-223 | `bootstrap.build` is the header, `project =`, the amalgamation line and the `using` lines |
| ConfigUtility.EntryModule | libbuild2/config/utility.cxx:247-248 | a leading `?` marks an optional entry and is dropped |
| ConfigUtility.RootModule | libbuild2/config/utility.cxx:250-256 | a trailing `.` is stripped, otherwise `.config` is appended |
| ConfigUtility.ModuleLine | libbuild2/config/utility.cxx:243-259 | the line is `using?` exactly for an optional entry, followed by the module |
| ConfigUtility.RootText | libbuild2/config/utility.cxx:225-264 | `root.build` starts with the header; it ends with the module lines when `rpos` is empty, and with `rpre` on its own line otherwise |
| ConfigUtility.RootTextRepeatsPrologue | libbuild2/config/utility.cxx:261-263 | with a non-empty `rpos` the written text does not depend on it and ends with `rpre` |
| ConfigUtility.BuildfileText | libbuild2/config/utility.cxx:286-287 | the root buildfile is the header and `./: {*/ -build/}` |
| ConfigUtility.MkdirPOf | libbuild2/config/utility.cxx:170 | `mkdir_p` keeps every existing entry and, when it succeeds, leaves the path a directory |
| ConfigUtility.MkdirPFailureSticks | libbuild2/config/utility.cxx:170 | once `mkdir_p` fails on a prefix it fails on the whole path with the same state |
| ConfigUtility.MkdirPShape | libbuild2/config/utility.cxx:170 | `mkdir_p` succeeds exactly when no prefix is a file, then every prefix is a directory, and it only adds those prefixes |
| ConfigUtility.MkdirP | libbuild2/config/utility.cxx:170 | the loop creates each prefix in turn |
| ConfigUtility.ProjectPathsDistinct | libbuild2/config/utility.cxx:176-277 | `build/`, the two build files and `buildfile` are distinct and lie below the project directory |
| ConfigUtility.WriteFilesOf | libbuild2/config/utility.cxx:176-295 | writing the project files removes no entry and no directory, and fails only on creating `build/` or on writing one of the three files, the buildfile only when it is written |
| ConfigUtility.WriteFilesState | libbuild2/config/utility.cxx:176-295 | writes that pass leave `build/` a directory and then each file set to its text, over the entries before them |
| ConfigUtility.WrittenContents | libbuild2/config/utility.cxx:176-295 | those entries hold `build/` as a directory and each file with its text, and keep every other entry |
| ConfigUtility.WriteFilesContents | libbuild2/config/utility.cxx:176-295 | when writing succeeds, each file holds its text and nothing else changes |
| ConfigUtility.WriteFilesSucceed | libbuild2/config/utility.cxx:176-295 | writing into an empty directory succeeds |
| ConfigUtility.WriteFiles | libbuild2/config/utility.cxx:172-295 | the method performs those writes |
| ConfigUtility.AncestorsExist | libbuild2/config/utility.cxx:164-170 | in a rooted filesystem every ancestor of an entry is a directory |
| ConfigUtility.AbsentHasNoChildren | libbuild2/config/utility.cxx:164-170 | in a rooted filesystem a missing directory has no children |
| ConfigUtility.CreateProjectOf | libbuild2/config/utility.cxx:146-296 | `create_project` removes no entry and no directory, and when the directory is not empty it changes nothing |
| ConfigUtility.CreateProjectOutcome | libbuild2/config/utility.cxx:162-176 | `create_project` fails as not empty exactly for an existing non-empty directory, succeeds exactly when the directory has no children and no prefix is a file, and fails otherwise only in `mkdir_p` |
| ConfigUtility.CreateProjectContents | libbuild2/config/utility.cxx:146-296 | on success the project directory and `build/` exist and the three files hold the generated texts; only those paths and the created directories are new |
| ConfigUtility.CreateProject | libbuild2/config/utility.cxx:146-296 | the method writes the bootstrap, root and optional buildfile texts as above |
| BuiltinFunctions.SortFlags | libbuild2/functions-builtin.cxx:16-33 | absent flags mean no dedup, `dedup` asks for it, and the first other flag is rejected by name |
| BuiltinFunctions.InsertSorted | libbuild2/functions-builtin.cxx:118-126 | inserting into a sorted sequence keeps it sorted and adds the element |
| BuiltinFunctions.SortAscending | libbuild2/functions-builtin.cxx:118-126 | the sort yields an ascending permutation |
| BuiltinFunctions.Dedup | libbuild2/functions-builtin.cxx:120-123 | `unique` collapses adjacent duplicates: the result has no two equal neighbours, the same elements, and the same first and last element |
| BuiltinFunctions.DedupFixed | libbuild2/functions-builtin.cxx:120-123 | a sequence is left unchanged exactly when it has no adjacent repeats, so collapsing twice equals collapsing once |
| BuiltinFunctions.DedupFixedOfRepeatFree | libbuild2/functions-builtin.cxx:120-123 | a sequence without adjacent repeats is its own deduplication |
| BuiltinFunctions.DedupSorted | libbuild2/functions-builtin.cxx:114-123 | deduplicating a sorted sequence leaves it strictly ascending |
| BuiltinFunctions.Unique | libbuild2/functions-builtin.cxx:120-123 | the loop computes that deduplication |
| BuiltinFunctions.SortedUnique | libbuild2/functions-builtin.cxx:118-126 | two ascending permutations of each other are equal, so the sorted result is determined |
| BuiltinFunctions.Elements | libbuild2/functions-builtin.cxx:114-135 | the set of distinct elements |
| BuiltinFunctions.DistinctCount | libbuild2/functions-builtin.cxx:114-135 | a strictly ascending sequence has as many distinct elements as it is long |
| BuiltinFunctions.Size | libbuild2/functions-builtin.cxx:107-108 | `size` is the element count, duplicates included |
| BuiltinFunctions.Sort | libbuild2/functions-builtin.cxx:110-136 | `sort` rejects invalid flags; without dedup it yields an ascending permutation, with dedup the distinct elements strictly ascending |
| BuiltinFunctions.SortAscendingFixed | libbuild2/functions-builtin.cxx:118-126 | sorting a sorted sequence gives it back |
| BuiltinFunctions.BoolString | libbuild2/functions-builtin.cxx:78 | `string(bool)` is `true` or `false` |
| BuiltinFunctions.IntString | libbuild2/functions-builtin.cxx:79-80 | an integer's string is its decimal value in digits only, without a leading zero (except `0` itself), with a leading `-` when negative |
| BuiltinFunctions.IntStringInjective | libbuild2/functions-builtin.cxx:79-80 | different integers give different strings |
| BuiltinFunctions.Quote | libbuild2/functions-builtin.cxx:87-101 | `quote` of null is the empty string, otherwise the rendering of the names |
| BuiltinFunctions.Empty | libbuild2/functions-builtin.cxx:72 | `empty` is true for null, and for a non-null value exactly when it has no names |
| BuiltinFunctions.EmptyQuotesEmpty | libbuild2/functions-builtin.cxx:72-101 | a null value is empty, and an empty value quotes to `""` when rendering no names writes nothing |

## Left out

- Process spawning, pipes, waiting and the external `diff` run in the runner: the child is a parameter (could not start, or its exit status and outputs), and the output match is equality after stripping carriage returns before line feeds.
- Runner.CheckExpected: the diff's exact line-based behaviour and its unified-diff report are not modelled.
- Writing a here-string or here-document to the child's stdin (runner.cxx lines 409-415): the child is opaque, so what it reads is not modelled.
- The interleaving of the child's stdout and stderr into one file for `merge` redirects: each stream is one text.
- Regex matching of output lines: only the regex line representation is modelled.
- Runner.Run: on an incorrect exit status the source also dumps the saved stderr and adds notes naming the non-empty capture files (which may themselves fail to read); the model keeps only the status diagnostic. An I/O error while the child runs is not modelled.
- Runner.NonEmpty: a path naming a directory counts as a read error, and I/O errors on an existing file are not modelled.
- Runner.Leave: the source moves each path out of the cleanup list while walking it; the model leaves the list as it was, so its contents after `leave` are not modelled.
- `libbuild2/script/script.cxx` is not part of this model: `environment::clean` is modelled from its documented contract in `script.hxx`.
- Scheduling of script scopes across workers, diagnostics, verbosity printing and `diag_relative`: the relative renderings of directories are parameters of `Targets.ToStream`.
- Targets.SetRecipeOf: the action ordering (`action::operator<`) is not shown, so whether a new action comes later is the parameter `later`.
- Targets.TypeExtension: `target_extension_var` is not shown; the value it reads from the `extension` variable is a parameter.
- Targets.TargetSet.Insert: the target key does not include the extension, because `target_key`'s ordering is not shown; the factory's construction of the concrete target class is not modelled.
- Targets.FindOriginal: the scope's own `find_original` is a parameter.
- `target::append`, `reset`, `group_members`, `base_scope`, `root_scope`, `load_mtime` and the search functions of `target.cxx`: these are glue over scopes and the filesystem.
- BashRule.Candidate: the mtime probe and target insertion of the PATH search are filesystem queries; the model stops at the candidate path.
- `install_rule::match`, `install_rule::filter` and the base rule's `apply`: these delegate to the file rule and the in module, which are not part of this model.
- BashRule.SubstituteImport: the exe and module `source` prefixes are constant texts; the model states where the import path and the climb stand in the line, not the shell text of the prefixes.
- Paths.HasExtension: libbutl's extension rule is not part of this model; it is taken as "a dot in the leaf that is neither its first nor its last character", so a leaf ending in `.` gets `.bash` appended.
- The PATH separator is `:`, and Windows path separators are not modelled.
- `save_variable` and `save_module`: the config module's saving is not part of this model.
- ConfigUtility.Omitted: variable overrides are parameters; they are not looked up. The source compares the original and override lookups by identity (same variable in the same scope); the model compares what they found (value, default flag, depth).
- ConfigUtility.CreateProject: `rpos` as written is never emitted; I/O errors on writes and the verbosity output are not modelled.
- ConfigUtility.MkdirP: an existing file on the path is a failure, as in libbutl's `mkdir`.
- BuiltinFunctions.Sort: the signed and unsigned 64-bit overloads are one model over unbounded integers; sorting only moves elements, so no width matters.
- BuiltinFunctions.Quote: rendering a non-null value's names with escaping (`to_stream`) is a parameter.
- The other builtins (`type`, `identity`, `defined`, `visibility`, `getenv`, `$empty` of typed values): they depend on the variable pool, the process environment or value types that are not part of this model.
