# Snask core, modelled in Dafny

Snask is a small dynamically typed scripting language written in Rust. This project
models its core and proves properties of the model:

- **the tree-walking evaluator** (`snask_compiler/src/interpreter.rs`). Modules
  `Syntax`, `Scopes`, `Operators`, `Evaluator`, `EvaluatorFuel`,
  `EvaluatorFacts` and `EvaluatorCollections` cover:
  - the value domain (number, string, boolean, nil, list, dictionary and
    user-defined function);
  - the stack of scopes with `let` / `mut` / `const` bindings;
  - the arithmetic, comparison and indexing rules;
  - statements: conditionals, `while` loops, `print`, `input`;
  - function calls, where a `return` travels as the text
    `"RETURN_VALUE:<value>"` and is decoded again at the call site;
- **the type keywords** (`snask_compiler/src/types.rs`, module `SnaskTypes`);
- **the Blaze web library**:
  - `blaze.rs`, module `Blaze`: users and sessions, routes, responses,
    redirects and `create_dict`;
  - the route matcher of `blaze.rs`, module `BlazeRoutes`;
  - `blaze_auth.rs`, module `BlazeAuth`: registration, login, session
    checks, password change and deactivation;
  - `blaze_db.rs`, module `BlazeDb`: the SQL text and parameters each
    database helper builds;
- **the package installer's edits of `src/stdlib.rs`** and its
  repository-name extraction (`snask_compiler/src/packages.rs`, module
  `Packages`);
- **the VS Code extension's document formatter**
  (`snask_vscode_extension/snask-lang/src/extension.ts`, module `Formatter`).

Helper modules:

- `Base`: `Option`, `Result`, and map iteration;
- `Text`: split, join, containment, trimming and repetition, as Rust and
  TypeScript define them;
- `StdValue`: successive `HashMap::insert`s.

## Modelling choices

- **Numbers (`f64`) are `real`.**
  - Rendering a number, parsing a float or an integer, and the iteration order of
    a `HashMap` cannot be computed here. They are parameters of the model:
    `Syntax.Fmt`, `Evaluator.Host` and `BlazeDb.DbHost`.
  - Properties that depend on them take them as hypotheses. An example is
    "parsing the rendering of n gives n back".
- **Console input and output are part of the evaluator's state.** `print`
  appends a line to the output. `input` reads the next line of a given list of
  stdin lines.
- **The clock, UUID generation and bcrypt are parameters of the Blaze
  operations.** These are `now`, `freshId` / `freshSession`, and a `Hasher`
  with `hash` and `verify`. The `lazy_static` globals become an explicit store
  that each operation returns.
- **SQLite is not executed.** Each `blaze_db` helper yields the statement it
  would run: SQL text plus parameters, or the error it returns first.
- **Fuel.**
  - Evaluation terminates on one unit of fuel per function call and per loop
    iteration.
  - Running out of fuel is its own outcome, distinct from any outcome of the
    source.
  - `EvaluatorFuel` proves that a result reached with some fuel is the result
    with any larger amount.
- **Three behaviours of the evaluator that a reader of the language may not
  expect.** The model reproduces each of them as the code does:
  - a function call pushes its scope on the caller's scope stack, so a callee
    sees the caller's loop locals;
  - a returned value goes back through its text rendering, so
    `return "true"` yields the boolean `true`;
  - a call whose argument fails leaves its scope on the stack.

  `EvaluatorFacts.IdentityCall`, `EvaluatorFacts.IdentityCallCoerces` and
  `Operators.DecodeIsLossy` state the textual return, and
  `EvaluatorFacts.ScopeLeakExample` states the leaked scope.

## Model

| member | source | states |
|---|---|---|
| SnaskTypes.FromStr | snask_compiler/src/types.rs:26-38 | Parsing accepts exactly the eight keywords, and never yields a function type. Each keyword maps to its own type; anything else is a parse error. |
| SnaskTypes.IsNumericExactly | snask_compiler/src/types.rs:15-17 | A type is numeric if and only if it is `int` or `float`. |
| SnaskTypes.FromStrInjective | snask_compiler/src/types.rs:27-36 | Two accepted keywords that parse to the same type are the same keyword. |
| SnaskTypes.FromStrNumeric | snask_compiler/src/types.rs:15-36 | A parsed type is numeric exactly when its keyword is `int` or `float`. |
| Scopes.EnterScope | snask_compiler/src/interpreter.rs:363-368 | Entering a scope pushes one empty frame and keeps every existing frame. |
| Scopes.ExitScope | snask_compiler/src/interpreter.rs:363-368 | Leaving a scope pops the innermost frame; the global frame is never popped. |
| Scopes.EnterExit | snask_compiler/src/interpreter.rs:436-442 | Entering and then leaving a scope gives back the table unchanged. |
| Scopes.Define | snask_compiler/src/interpreter.rs:216-232 | A declaration binds the name in the innermost frame only, with the given flags, and keeps the depth. |
| Scopes.FindFrame | snask_compiler/src/interpreter.rs:209-214 | The frame found is the innermost one that binds the name; none is found exactly when no frame binds it. |
| Scopes.Lookup | snask_compiler/src/interpreter.rs:209-214 | A name resolves exactly when some frame binds it. |
| Scopes.DefineThenLookup | snask_compiler/src/interpreter.rs:216-232 | After a declaration the name resolves to the new binding, shadowing outer ones, and every other name resolves as before. |
| Scopes.AssignSpec | snask_compiler/src/interpreter.rs:234-246 | Assignment fails for an unbound name and for a non-reassignable binding, leaving the table unchanged. Otherwise it changes that name's value, keeps its flags, and leaves all other names and the depth as they were. |
| Scopes.UpdateThenLookup | snask_compiler/src/interpreter.rs:236-243 | Writing through the innermost binding changes what that name resolves to and nothing else. |
| Scopes.Update | snask_compiler/src/interpreter.rs:236-243 | An in-place write keeps the depth of the scope stack. |
| Scopes.EnterThenLookup | snask_compiler/src/interpreter.rs:363-364 | A freshly entered scope hides no name. |
| Scopes.AssignThroughInnerScope | snask_compiler/src/interpreter.rs:359-374 | From inside a loop's scope, assigning an outer `mut` writes through to the outer binding. Leaving the scope keeps that write and drops the inner bindings. |
| Operators.ToUsize | snask_compiler/src/interpreter.rs:160 | `f64 as usize` truncates toward zero, sends negatives to 0, and gives exactly `usize::MAX` for every value at or above it. |
| Operators.Negate | snask_compiler/src/interpreter.rs:261-272 | Unary minus succeeds exactly on numbers and negates them; other operands give the negation error. |
| Operators.NegateTwice | snask_compiler/src/interpreter.rs:264-269 | Negating a number twice gives it back. |
| Operators.AddValues | snask_compiler/src/interpreter.rs:292-300 | Addition sums two numbers. It concatenates when either side is a string, rendering the other side. It fails exactly when neither operand is a string and they are not both numbers. |
| Operators.SubtractValues | snask_compiler/src/interpreter.rs:302-307 | Subtraction succeeds exactly on two numbers and yields their difference; other operands give the unsupported-operands error. |
| Operators.MultiplyValues | snask_compiler/src/interpreter.rs:309-314 | Multiplication succeeds exactly on two numbers and yields their product; other operands give the unsupported-operands error. |
| Operators.DivideValues | snask_compiler/src/interpreter.rs:316-327 | Division succeeds exactly on two numbers with a non-zero divisor, and the result is then their quotient. A zero divisor is the division-by-zero error; non-numbers are the unsupported-operand error. |
| Operators.CompareValues | snask_compiler/src/interpreter.rs:285-337 | An ordering comparison succeeds exactly on two numbers, and its boolean is true exactly when the numbers are in the relation the operator names (`>`, `<`, `>=`, `<=`); other operands give the comparison error. |
| Operators.ApplyBinary | snask_compiler/src/interpreter.rs:274-290 | `==` and `!=` are structural equality and its negation, on any operands. |
| Operators.IndexValue | snask_compiler/src/interpreter.rs:153-179 | Indexing covers every case:<br>- a list at a number reads the truncated position, or gives the out-of-bounds error with the length and position;<br>- a non-numeric list index is an error;<br>- a dictionary reads its key, or gives the missing-key error;<br>- any other target is not indexable. |
| Operators.DecodeReturn | snask_compiler/src/interpreter.rs:447-457 | A decoded return is a number exactly when float parsing accepts the text, and then the parsed number. It is a boolean exactly when the text is `true` or `false` and not a float, nil exactly for `nil`, and otherwise the text itself as a string. It is never a list, dictionary or function. |
| Operators.DivisionByZeroNeverNumber | snask_compiler/src/interpreter.rs:316-327 | Dividing anything by zero fails; a number divided by zero gives the division-by-zero error. |
| Operators.EqualityTotal | snask_compiler/src/interpreter.rs:283-284 | Equality and inequality never fail, are each other's negation, and every value equals itself. |
| Operators.OnlyAddCoerces | snask_compiler/src/interpreter.rs:274-300 | With a non-number operand, only `+` with a string operand succeeds. |
| Operators.NegativeIndexReadsFirst | snask_compiler/src/interpreter.rs:159-162 | A negative index reads the first element of a non-empty list. |
| Operators.FractionalIndexTruncates | snask_compiler/src/interpreter.rs:159-162 | A fractional index reads the element at its integer part. |
| Operators.DecodeRoundTripsScalars | snask_compiler/src/interpreter.rs:447-457 | A returned boolean or nil comes back as itself. |
| Operators.DecodeRoundTripsNumbers | snask_compiler/src/interpreter.rs:447-450 | A returned number comes back intact when float parsing inverts its rendering. |
| Operators.DecodeIsLossy | snask_compiler/src/interpreter.rs:447-457 | The text encoding loses information: the string "true" comes back as the boolean true, and a list comes back as the string of its rendering. |
| Operators.DecodeStringRoundTrip | snask_compiler/src/interpreter.rs:447-457 | A returned string comes back as the same string exactly when it is not a float and is none of `true`, `false` and `nil`. |
| Syntax.Entries | snask_compiler/src/interpreter.rs:56-66 | A dictionary's entries are its own pairs, and every key the iteration visits appears. |
| StdValue.InsertAll | snask_compiler/src/stdlib/blaze.rs:619-629 | After successive inserts, the keys are the old ones plus the inserted ones. Each key holds its last inserted value, and untouched keys keep their values. |
| Evaluator.EvalExpr | snask_compiler/src/interpreter.rs:141-150 | Evaluating an expression never shrinks the output, the stdin cursor or the scope depth, and never changes stdin. |
| Evaluator.EvalListItems | snask_compiler/src/interpreter.rs:186-195 | A list literal has one element per item expression and never fails; what each element holds is stated by `EvaluatorCollections.ListItemAt`. |
| Evaluator.EvalDictEntries | snask_compiler/src/interpreter.rs:197-205 | A dictionary literal never fails; which entries it keeps is stated by `EvaluatorCollections.DictLastEntryWins`. |
| Evaluator.EvalArgs | snask_compiler/src/interpreter.rs:390-393 | Evaluating arguments keeps the state invariants; on success there is one value per argument. Order and the first failure are stated by `EvaluatorCollections.ArgsFirstFailure` and `ArgsItemAt`. |
| Evaluator.EvalCall | snask_compiler/src/interpreter.rs:388-466 | A function call keeps the evaluator's state invariants. |
| Evaluator.Invoke | snask_compiler/src/interpreter.rs:436-462 | Running a call with matching arity keeps the evaluator's state invariants. |
| Evaluator.BindArgs | snask_compiler/src/interpreter.rs:436-440 | Binding the arguments inside the call's scope keeps the evaluator's state invariants. |
| Evaluator.CallMethod | snask_compiler/src/interpreter.rs:389-427 | A method call changes neither output, stdin nor depth and yields nil on success. A non-variable target is the complex-target error. What `push` and `set` write is stated by `EvaluatorCollections.MethodCallEffects`. |
| Evaluator.InputValue | snask_compiler/src/interpreter.rs:128-134 | Input gives a `str` target the trimmed line. A `float` target gets the number float parsing finds, an `int` target the integer parsing finds as a number; text they reject is the invalid-input error. A `bool` target accepts exactly `true`/`false`. Any other type is the unsupported-type error. |
| Evaluator.ExecStmt | snask_compiler/src/interpreter.rs:102-120 | Executing a statement keeps the evaluator's state invariants. |
| Evaluator.Declare | snask_compiler/src/interpreter.rs:216-232 | A declaration completes exactly when its value is produced, and the name then resolves to that value with the declaration's flags, at the same depth, with output and input untouched. A failing evaluation is the declaration's failure in the state it reached. |
| Evaluator.ExecBranches | snask_compiler/src/interpreter.rs:345-354 | Executing the `elif` arms and `else` keeps the evaluator's state invariants. |
| Evaluator.ExecWhile | snask_compiler/src/interpreter.rs:359-374 | Executing a `while` keeps the evaluator's state invariants. |
| Evaluator.ExecBlock | snask_compiler/src/interpreter.rs:376-381 | Executing a block keeps the evaluator's state invariants. |
| EvaluatorFuel.RunFuel | snask_compiler/src/interpreter.rs:92-100 | A program's outcome, once reached, does not depend on how much more fuel is given. |
| EvaluatorFuel.ExecWhileFuel | snask_compiler/src/interpreter.rs:359-374 | A loop's outcome, once reached, is the same with more fuel. |
| EvaluatorFuel.EvalCallFuel | snask_compiler/src/interpreter.rs:388-466 | A call's outcome, once reached, is the same with more fuel. |
| EvaluatorFacts.DeclarationsBind | snask_compiler/src/interpreter.rs:216-232 | `let`, `mut` and `const` bind the value with flags (false, true), (true, true) and (false, false). Every other name is left as evaluation left it. |
| EvaluatorFacts.OnlyMutIsReassignable | snask_compiler/src/interpreter.rs:216-246 | Assigning right after `let` or `const` is the constant-reassignment error; after `mut` it replaces the value. |
| EvaluatorFacts.SingleArg | snask_compiler/src/interpreter.rs:390-393 | A one-element argument list evaluates as its element does. |
| EvaluatorFacts.PushStep | snask_compiler/src/interpreter.rs:398-406 | `push` appends to the bound list in place and keeps the binding's flags. |
| EvaluatorFacts.PushIgnoresConstness | snask_compiler/src/interpreter.rs:396-406 | `push` appends even to a list bound by `const`. |
| EvaluatorFacts.IdentityCall | snask_compiler/src/interpreter.rs:430-457 | Calling `fun id(x) { return x }` yields the argument's rendering decoded again, and leaves the scope stack as it was. |
| EvaluatorFacts.IdentityCallCoerces | snask_compiler/src/interpreter.rs:447-450 | Through the identity function, a number survives when parsing inverts rendering, and a numeric string becomes a number. |
| EvaluatorFacts.ArityCheckedFirst | snask_compiler/src/interpreter.rs:430-434 | A call with the wrong number of arguments fails with the arity error before any scope is entered. |
| EvaluatorFacts.BranchesPickFirstTrue | snask_compiler/src/interpreter.rs:345-354 | With boolean-literal conditions, the `elif` chain runs exactly the first arm whose literal is `true`, or the `else` block. |
| EvaluatorFacts.ConditionalPicksFirstTrue | snask_compiler/src/interpreter.rs:339-357 | A conditional with boolean-literal conditions runs exactly the first arm whose literal is `true`, or else the `else` block, with no scope of its own. |
| EvaluatorFacts.ConditionalIsBranches | snask_compiler/src/interpreter.rs:339-357 | A conditional tries its `if` arm first and then its `elif` arms, in order. |
| EvaluatorFacts.BranchesSkip | snask_compiler/src/interpreter.rs:345-350 | Arms whose conditions evaluate to values other than `true` are passed over, and the effects of evaluating those conditions are kept. |
| EvaluatorFacts.ArmDecides | snask_compiler/src/interpreter.rs:339-357 | Once the earlier conditions fall through, an arm's body runs exactly when its condition evaluates to `true`. Any other value passes on to the next arm, and a condition that fails is the conditional's failure. |
| EvaluatorFacts.ElseRuns | snask_compiler/src/interpreter.rs:352-354 | When every condition falls through, the `else` block runs in the state the conditions left. |
| EvaluatorFacts.WhileFalseSkips | snask_compiler/src/interpreter.rs:362 | A loop whose condition is not `true` runs no iteration and enters no scope. |
| EvaluatorFacts.WhileRestoresDepth | snask_compiler/src/interpreter.rs:362-370 | Each iteration's scope is exited, also when the body fails. A loop whose condition and body keep the depth therefore ends at the depth it started at. |
| EvaluatorFacts.CallOutcomes | snask_compiler/src/interpreter.rs:441-462 | After a call's arguments are bound, its scope is always left. Its result is one of:<br>- nil when the body completes;<br>- the decoded text of a `return`;<br>- any other failure, unchanged. |
| EvaluatorFacts.TopLevelReturnFails | snask_compiler/src/interpreter.rs:92-100 | A `return` outside any function ends the program as a runtime error. |
| EvaluatorFacts.LoopScopeExample | snask_compiler/src/interpreter.rs:359-374 | A binding made in a loop body is gone after the loop, while an assignment to an outer `mut` persists. |
| EvaluatorFacts.ScopeLeakExample | snask_compiler/src/interpreter.rs:436-442 | A call whose argument fails leaves its scope entered. The list literal hides the failure, so the program continues one scope deeper. |
| EvaluatorCollections.ArgsSplit | snask_compiler/src/interpreter.rs:390-393 | Arguments are evaluated left to right: the first i, then the rest from the state they left. A failure among the first i is the whole outcome. |
| EvaluatorCollections.ArgsFirstFailure | snask_compiler/src/interpreter.rs:390-393 | The first argument that fails decides the outcome, with its error and state; no later argument is evaluated. |
| EvaluatorCollections.ArgsItemAt | snask_compiler/src/interpreter.rs:390-393 | When all arguments succeed, value i is argument i evaluated in the state the earlier arguments left. |
| EvaluatorCollections.TwoProducedArgs | snask_compiler/src/interpreter.rs:390-393 | Two arguments that produce values without effects give exactly those two values. |
| EvaluatorCollections.ListSplit | snask_compiler/src/interpreter.rs:186-195 | A list literal's items are evaluated left to right: the first i, then the rest from the state they left. |
| EvaluatorCollections.ListItemAt | snask_compiler/src/interpreter.rs:186-195 | Element i of a list literal is item i's value in the state the earlier items left, or nil when that item fails; the evaluation goes on either way. |
| EvaluatorCollections.FailingItemBecomesNil | snask_compiler/src/interpreter.rs:189-193 | `[missing, 1]` with `missing` unbound is `[nil, 1]`. |
| EvaluatorCollections.DictSplit | snask_compiler/src/interpreter.rs:197-205 | A dictionary literal's entries are evaluated left to right, each from the map and state the earlier ones left. |
| EvaluatorCollections.DictLastEntryWins | snask_compiler/src/interpreter.rs:199-203 | When the last entry's key and value both evaluate, the key maps to that value whatever earlier entries said. When either fails, the entry is dropped. |
| EvaluatorCollections.PrintAppendsLine | snask_compiler/src/interpreter.rs:248-259 | `print` appends exactly one line, the renderings of its arguments joined by single spaces. A failing argument prints nothing and is the statement's failure. |
| EvaluatorCollections.PrintTwoStrings | snask_compiler/src/interpreter.rs:248-259 | Printing the strings `a` and `b` appends the one line `a b`. |
| EvaluatorCollections.InputConsumesLine | snask_compiler/src/interpreter.rs:122-137 | `input` consumes the next console line, or reads the empty line at end of input. On success the name is bound as a `mut` binding to the converted value; on failure nothing is bound. |
| EvaluatorCollections.InputFloatParses | snask_compiler/src/interpreter.rs:130 | A `float` input binds the number float parsing finds in the trimmed line; a rejected line is the invalid-input error. |
| EvaluatorCollections.MethodCallEffects | snask_compiler/src/interpreter.rs:396-424 | `push` with one argument on a list and `set` with two on a dict replace the binding's value in place, keeping its flags and every other name. An unbound name, a wrong method, a wrong argument count or a non-collection is the matching error. |
| EvaluatorCollections.SetStep | snask_compiler/src/interpreter.rs:411-420 | `d.set(k, v)` on a dict binding inserts the pair, replacing any earlier value under that key, whatever the binding's flags. |
| Blaze.Register | snask_compiler/src/stdlib/blaze.rs:41-78 | Registration stores the user under a fresh id with the hashed password exactly when the name is new and hashing succeeds. A taken name answers false and changes nothing. Sessions are never touched. |
| Blaze.Login | snask_compiler/src/stdlib/blaze.rs:104-144 | Login yields a fresh session id exactly when the user exists and the password verifies. The session records the user's id and expires a day after `now`. Otherwise the answer is nil and nothing changes. |
| Blaze.Logout | snask_compiler/src/stdlib/blaze.rs:147-171 | Logout removes the session. The reply says whether the session existed. |
| Blaze.IsAuthenticated | snask_compiler/src/stdlib/blaze.rs:952-970 | A session authenticates its user exactly while it is unexpired. An expired session is removed. |
| Blaze.RegisterThenLogin | snask_compiler/src/stdlib/blaze.rs:41-144 | A freshly registered user logs in with their password. The session authenticates them for exactly one day. |
| Blaze.LogoutEndsSession | snask_compiler/src/stdlib/blaze.rs:147-171 | After logout the session authenticates no one. |
| Blaze.IsAuthenticatedIdempotent | snask_compiler/src/stdlib/blaze.rs:952-970 | Checking a session twice at the same instant changes nothing the second time. |
| Blaze.AddRoute | snask_compiler/src/stdlib/blaze.rs:458-463 | A route is appended to the `routes` list; every other entry is kept, and an app without such a list is unchanged. |
| Blaze.Route | snask_compiler/src/stdlib/blaze.rs:414-467 | `route` accepts exactly 4 or 5 arguments of the right kinds. It appends a record with the path, the upper-cased method, the handler and the protection flag (false when absent). |
| Blaze.RouteOnCreatedApp | snask_compiler/src/stdlib/blaze.rs:91-101 | A route on a fresh app is its only route, unprotected unless asked. |
| Blaze.RoutesAccumulate | snask_compiler/src/stdlib/blaze.rs:414-467 | Two route registrations append their two records, in registration order, after the existing routes. |
| Blaze.ServeStatic | snask_compiler/src/stdlib/blaze.rs:683-719 | `serve_static` appends a pseudo-route with method `_STATIC_ROUTE_` and the directory as its handler. |
| Blaze.Response | snask_compiler/src/stdlib/blaze.rs:722-741 | A response has exactly status 200, empty headers and the given body (empty by default). |
| Blaze.Redirect | snask_compiler/src/stdlib/blaze.rs:174-203 | A redirect sets status 302 and adds a Location header. It keeps every other entry and header, and accepts only a dictionary and a string. |
| Blaze.RedirectFreshResponse | snask_compiler/src/stdlib/blaze.rs:174-203 | Redirecting a fresh response carries only the Location header and keeps the body. |
| Blaze.RedirectTwice | snask_compiler/src/stdlib/blaze.rs:174-203 | Redirecting twice is redirecting to the second address. |
| Blaze.Pairs | snask_compiler/src/stdlib/blaze.rs:619-620 | The arguments are read two at a time, key then value. |
| Blaze.CreateDict | snask_compiler/src/stdlib/blaze.rs:611-632 | `create_dict` succeeds exactly for an even number of arguments with string keys. It yields the dictionary of the pairs, later pairs winning. |
| Blaze.InsertPairs | snask_compiler/src/stdlib/blaze.rs:619-629 | The pair loop fails with the string-key error exactly when some key is not a string. |
| Blaze.StringKeysAtEvenPositions | snask_compiler/src/stdlib/blaze.rs:619-628 | All keys are strings exactly when every argument at an even position is a string. |
| Blaze.CreateDictLookup | snask_compiler/src/stdlib/blaze.rs:619-630 | Each key holds the value of its last pair. |
| Blaze.ResponseIsNative | snask_compiler/src/stdlib/blaze.rs:411-741 | The later insert of `response` replaces the response sub-module, so scripts see the native function. |
| BlazeRoutes.NonEmpty | snask_compiler/src/stdlib/blaze.rs:973-974 | Filtering keeps every non-empty segment as many times as it occurs, drops every empty one, and keeps or drops a single segment as a one-element filter does. |
| BlazeRoutes.NonEmptyMembers | snask_compiler/src/stdlib/blaze.rs:973-974 | A segment survives the filter exactly when it is non-empty and among the parts. |
| BlazeRoutes.NonEmptyConcat | snask_compiler/src/stdlib/blaze.rs:973-974 | Filtering distributes over concatenation, so with the single-segment case it keeps the non-empty segments in their order. |
| BlazeRoutes.SegmentsIgnoreExtraSlashes | snask_compiler/src/stdlib/blaze.rs:973-974 | Leading, trailing and doubled slashes do not change a path's segments. |
| BlazeRoutes.SegmentsOfJoin | snask_compiler/src/stdlib/blaze.rs:973-974 | A path written from slash-free, non-empty segments splits back into them. |
| BlazeRoutes.MatchSegmentsSpec | snask_compiler/src/stdlib/blaze.rs:982-989 | The segment loop succeeds exactly when the literal segments agree. Each parameter then holds its last matching segment. |
| BlazeRoutes.MatchRouteSpec | snask_compiler/src/stdlib/blaze.rs:972-990 | A route matches exactly when the segment counts agree and the literals agree. Each `:param` captures its request segment, and nothing else is captured. |
| BlazeRoutes.StaticRouteMatch | snask_compiler/src/stdlib/blaze.rs:972-990 | A route without parameters matches, with no captures, exactly when its segments equal the request's. |
| BlazeRoutes.MatchIgnoresSlashes | snask_compiler/src/stdlib/blaze.rs:972-990 | A leading or trailing slash on either side does not change the match. |
| BlazeAuth.Registrar | snask_compiler/src/stdlib/blaze_auth.rs:39-135 | Registration checks, in order:<br>- the username has at least 3 bytes;<br>- the password has at least 6 bytes;<br>- the email contains `@`;<br>- the username is not taken;<br>- the email is not taken.<br>The first failing check is the answer. It succeeds exactly when all pass and hashing works, storing an active user. A failure stores nothing. |
| BlazeAuth.Login | snask_compiler/src/stdlib/blaze_auth.rs:140-198 | A deactivated account is refused first. Login succeeds exactly for an active user whose password verifies, opening a seven-day session. Any other case is the bad-credentials reply. Malformed arguments are an error that leaves the store unchanged, and the users are never changed. |
| BlazeAuth.Logout | snask_compiler/src/stdlib/blaze_auth.rs:203-219 | Logout removes the session; `sucesso` says whether it existed. |
| BlazeAuth.FindById | snask_compiler/src/stdlib/blaze_auth.rs:245 | The search returns the first visited user with that id, or none exactly when no visited user has it. |
| BlazeAuth.FindByIdUnique | snask_compiler/src/stdlib/blaze_auth.rs:245 | With distinct ids, the search finds the one user whatever the order. |
| BlazeAuth.VerificarSessao | snask_compiler/src/stdlib/blaze_auth.rs:224-262 | A session is valid exactly while it is unexpired and its user exists, and the reply then gives the user's id, name and email. An expired session is removed. |
| BlazeAuth.UsuarioAtual | snask_compiler/src/stdlib/blaze_auth.rs:267-299 | The current user is returned as a dictionary, or nil exactly when there is no live user. The store is not changed. |
| BlazeAuth.AlterarSenha | snask_compiler/src/stdlib/blaze_auth.rs:304-354 | The new password's length is checked first. The change succeeds exactly when the user exists, the old password verifies and hashing works. It changes only that user's hash, and inactive accounts are allowed. |
| BlazeAuth.ListarUsuarios | snask_compiler/src/stdlib/blaze_auth.rs:359-375 | The listing holds one summary per stored user and nothing else. When the order enumerates the stored usernames, item i is the summary of the i-th user, so there is exactly one item per user. |
| BlazeAuth.DesativarUsuario | snask_compiler/src/stdlib/blaze_auth.rs:380-404 | Deactivation clears only the named user's active flag. An unknown name gives the not-found reply. |
| BlazeAuth.RegistrarKeepsValid | snask_compiler/src/stdlib/blaze_auth.rs:87-106 | Registration keeps the store well formed: users are keyed by their username, and emails are unique. |
| BlazeAuth.ReplaceKeepsValid | snask_compiler/src/stdlib/blaze_auth.rs:335-342 | Replacing a user's non-identifying fields keeps the store well formed. |
| BlazeAuth.UpdatesKeepValid | snask_compiler/src/stdlib/blaze_auth.rs:157-404 | Login, password change and deactivation keep the store well formed. |
| BlazeAuth.RegistrarStores | snask_compiler/src/stdlib/blaze_auth.rs:115-127 | A registration that passes every check stores exactly the new active user. |
| BlazeAuth.LoginSessionLive | snask_compiler/src/stdlib/blaze_auth.rs:157-258 | After a successful login, the session is live exactly for seven days. |
| BlazeAuth.RegistrarThenLogin | snask_compiler/src/stdlib/blaze_auth.rs:39-198 | A fresh registration logs in with its password. The session is valid for exactly seven days. |
| BlazeAuth.DeactivatedCannotLogin | snask_compiler/src/stdlib/blaze_auth.rs:157-166 | After deactivation, login is refused whatever the password. |
| BlazeAuth.ChangedPasswordLogsIn | snask_compiler/src/stdlib/blaze_auth.rs:304-354 | After a password change, the new password logs in. |
| BlazeAuth.LogoutInvalidates | snask_compiler/src/stdlib/blaze_auth.rs:203-299 | After logout the session is invalid and has no current user. |
| BlazeAuth.QueriesAgree | snask_compiler/src/stdlib/blaze_auth.rs:224-299 | `verificar_sessao` says valid exactly when `usuario_atual` names a user. |
| BlazeDb.StringKeyed | snask_compiler/src/stdlib/blaze_db.rs:162-166 | Every string-keyed entry is kept and nothing else, with a single entry kept exactly when its key is a string. Together with StringKeyedConcat this fixes the result as the in-order filter. |
| BlazeDb.StringPairs | snask_compiler/src/stdlib/blaze_db.rs:103-107 | Every string-to-string entry is kept and nothing else, with a single entry kept exactly when both sides are strings. Together with StringPairsConcat this fixes the result as the in-order filter. |
| BlazeDb.StringKeyedConcat | snask_compiler/src/stdlib/blaze_db.rs:162-166 | Keeping string-keyed entries distributes over concatenation, so the entries kept are in their original order. |
| BlazeDb.StringPairsConcat | snask_compiler/src/stdlib/blaze_db.rs:103-107 | Keeping string-to-string entries distributes over concatenation, so the entries kept are in their original order. |
| BlazeDb.Conectar | snask_compiler/src/stdlib/blaze_db.rs:17-45 | The connection opens exactly when the path is a string and SQLite accepts it. `sucesso` reports that, and a failure keeps the previous connection. |
| BlazeDb.Executar | snask_compiler/src/stdlib/blaze_db.rs:50-82 | The SQL text runs as given only when connected; otherwise it is the not-connected error. |
| BlazeDb.CriarTabela | snask_compiler/src/stdlib/blaze_db.rs:87-137 | The statement is `CREATE TABLE IF NOT EXISTS` with one definition per string-to-string column. An unconnected database is an error. |
| BlazeDb.Inserir | snask_compiler/src/stdlib/blaze_db.rs:142-210 | An insert has one column, one `?` and one converted parameter per string key. |
| BlazeDb.ParamTextCollisions | snask_compiler/src/stdlib/blaze_db.rs:167-172 | Parameters tell strings apart and booleans apart, but `true` binds the same text as the string "1" and `false` the same as "0". |
| BlazeDb.Consultar | snask_compiler/src/stdlib/blaze_db.rs:215-235 | A query selects from the table, with a WHERE clause only for a string condition. |
| BlazeDb.Atualizar | snask_compiler/src/stdlib/blaze_db.rs:293-336 | An update has `col = ?` and one parameter per string key. A non-string condition is an error. |
| BlazeDb.Deletar | snask_compiler/src/stdlib/blaze_db.rs:367-384 | A delete needs a string condition. |
| BlazeDb.Contar | snask_compiler/src/stdlib/blaze_db.rs:410-430 | A count selects `COUNT(*)`, with a WHERE clause only for a string condition. |
| BlazeDb.WhereOnlyForStringCondition | snask_compiler/src/stdlib/blaze_db.rs:226-235 | The filter is added exactly when a string condition is given; otherwise the whole table is covered. |
| BlazeDb.ConnectionGuard | snask_compiler/src/stdlib/blaze_db.rs:28-36 | Before `conectar`, every builder gives the not-connected error; after a successful one, each builds its statement. |
| BlazeDb.FailedConnectKeepsState | snask_compiler/src/stdlib/blaze_db.rs:37-43 | A failed connect leaves the connection as it was. |
| BlazeDb.InsertBindsEveryStringKey | snask_compiler/src/stdlib/blaze_db.rs:162-175 | Every string key's converted value is bound as a parameter. |
| BlazeDb.OnlyStringColumns | snask_compiler/src/stdlib/blaze_db.rs:103-107 | The column definitions are exactly the `name type` strings of the string-to-string entries. |
| Packages.AfterLastSet | snask_compiler/src/packages.rs:153-159 | The index found is just after the last set flag, or 0 when none is set. |
| Packages.DeclarationSlot | snask_compiler/src/packages.rs:152-159 | The insertion point is just after the last `pub mod …;` line, or 0 when there is none. |
| Packages.IntegrateDeclaration | snask_compiler/src/packages.rs:136-170 | Nothing changes when the declaration already occurs. Otherwise exactly one line is inserted: the declaration, at the slot. |
| Packages.DeclarationPresent | snask_compiler/src/packages.rs:145-165 | After the edit, the declaration is in the text. |
| Packages.DeclarationIdempotent | snask_compiler/src/packages.rs:145-165 | Running the edit twice is running it once. |
| Packages.DeclarationKeepsLines | snask_compiler/src/packages.rs:161-165 | The edit only adds one line; removing it gives back the original lines. |
| Packages.ScanDefinesSpec | snask_compiler/src/packages.rs:189-204 | The scan finds the position after the last `globals.define(` line inside or after `register_stdlib`, or 0 when there is none. |
| Packages.RegistrationSlot | snask_compiler/src/packages.rs:189-204 | The slot is just after the last eligible line, or 0 when there is none. |
| Packages.IntegrateRegistration | snask_compiler/src/packages.rs:173-216 | Nothing changes when `name::create_module()` already occurs or there is no define line. Otherwise the indented registration is inserted after the last one. |
| Packages.RegistrationHasMarker | snask_compiler/src/packages.rs:183-184 | The inserted line contains the marker the edit checks for. |
| Packages.RegistrationIdempotent | snask_compiler/src/packages.rs:182-209 | Running the edit twice is running it once. |
| Packages.RepoName | snask_compiler/src/packages.rs:34-36 | The name is slash-free and the URL ends with it plus `.git`. Otherwise the answer is the invalid-URL error. |
| Packages.RepoNameOfGitUrl | snask_compiler/src/packages.rs:34-36 | A URL ending in `/name.git` yields the name. |
| Packages.RepoNameOfBareName | snask_compiler/src/packages.rs:34-36 | A URL without any slash is its own last piece, so `name.git` yields the name. |
| Packages.RepoNameNeedsSuffix | snask_compiler/src/packages.rs:34-36 | A last piece without `.git` is refused. |
| Text.Split | snask_compiler/src/packages.rs:34 | Splitting gives separator-free pieces that join back to the text. |
| Text.SplitJoin | snask_compiler/src/packages.rs:34 | Split undoes a join of separator-free pieces. |
| Text.SplitConcat | snask_compiler/src/stdlib/blaze.rs:973 | Splitting around a separator splits each side. |
| Text.Utf8Len | snask_compiler/src/stdlib/blaze_auth.rs:61-70 | A string's byte length is between one and four times its character count. |
| Text.LeadingCountSpec | snask_vscode_extension/snask-lang/src/extension.ts:184 | The leading run is all whitespace and stops at the first other character. |
| Text.TrimStartDrops | snask_vscode_extension/snask-lang/src/extension.ts:178 | Trimming the start drops exactly the leading run. |
| Text.Upper | snask_compiler/src/stdlib/blaze.rs:427 | Upper-casing keeps the length, leaves no lower-case ASCII letter, maps each lower-case letter to its capital and leaves every other character unchanged. |
| Text.UpperIdempotent | snask_compiler/src/stdlib/blaze.rs:427 | Upper-casing twice is upper-casing once. |
| Formatter.IndentUnit | snask_vscode_extension/snask-lang/src/extension.ts:169-172 | The unit is `tabSize` spaces, or a tab when spaces are off; it is blank. |
| Formatter.LineLevel | snask_vscode_extension/snask-lang/src/extension.ts:180-182 | A line's level is its level before or one less, never below zero, and one less exactly when the line closes a bracket and the level before is positive. |
| Formatter.LineEdits | snask_vscode_extension/snask-lang/src/extension.ts:176-189 | A line produces at most one edit, and it is for that line. |
| Formatter.LineEditsSpec | snask_vscode_extension/snask-lang/src/extension.ts:184-189 | A line gets an edit exactly when it needs one. The edit replaces its current indentation with the target. |
| Formatter.EditsFrom | snask_vscode_extension/snask-lang/src/extension.ts:174-194 | The edits are for lines in range and come in strictly increasing line order. |
| Formatter.FormatLine | snask_vscode_extension/snask-lang/src/extension.ts:175-193 | The loop body pushes the line's edits and moves to the next level. |
| Formatter.ProvideEdits | snask_vscode_extension/snask-lang/src/extension.ts:164-196 | The provider's loop yields exactly the edits of the document. |
| Formatter.EditsFromLines | snask_vscode_extension/snask-lang/src/extension.ts:174-194 | From a given line on, each line has an edit exactly when it needs one. |
| Formatter.EditsFromContents | snask_vscode_extension/snask-lang/src/extension.ts:184-189 | Each edit puts the target indentation in place of the current one. |
| Formatter.EditsSpec | snask_vscode_extension/snask-lang/src/extension.ts:174-194 | The document's edits have one per line that needs one, none for blank lines, in line order, each fitting its line. |
| Formatter.EditAt | snask_vscode_extension/snask-lang/src/extension.ts:188 | The edit found is one for that line, and none is found exactly when there is no edit for the line. |
| Formatter.ApplyEdits | snask_vscode_extension/snask-lang/src/extension.ts:188 | Applying edits keeps the number of lines. |
| Formatter.Formatted | snask_vscode_extension/snask-lang/src/extension.ts:185-188 | Formatting keeps the number of lines. |
| Formatter.ApplyingFormats | snask_vscode_extension/snask-lang/src/extension.ts:174-194 | Applying the edits re-indents every non-blank line to its target and touches nothing else. |
| Formatter.Reindent | snask_vscode_extension/snask-lang/src/extension.ts:184-188 | Re-indenting keeps the trimmed text and gives exactly the new indentation. |
| Formatter.FormattedLine | snask_vscode_extension/snask-lang/src/extension.ts:176-191 | A formatted line keeps its blankness and trimmed text. |
| Formatter.FormattedShapes | snask_vscode_extension/snask-lang/src/extension.ts:176-193 | The formatted document has the original's shapes. |
| Formatter.FormatIdempotent | snask_vscode_extension/snask-lang/src/extension.ts:174-194 | Formatting a formatted document yields no edits. |
| Formatter.ProvideEditsSettle | snask_vscode_extension/snask-lang/src/extension.ts:164-196 | With the editor's settings, applying the edits and asking again yields none. |
| Base.EntriesOf | snask_compiler/src/stdlib/blaze_auth.rs:362-372 | Iteration visits only stored pairs, and every stored key the order visits. When every key of the order is stored, the i-th pair is the i-th key's. |

## Left out

- The lexer, parser and semantic analyser. The program is given as an abstract
  syntax tree.
- `symbol_table.rs` is not part of this model. The scope operations follow how
  `interpreter.rs` uses them, and `exit_scope` on the global frame is modelled
  as doing nothing.
- `value.rs` is not part of this model. `blaze.boolean`, which calls
  `is_truthy`, is listed in the module table and nothing more.
- Number rendering, `f64`/`i64` parsing and `HashMap` iteration order are host
  parameters. They cannot be computed without floating point and hashing.
- Numbers are exact reals. `f64` rounding, overflow to infinity and signed
  zeros are not modelled, so identities that hold only for reals, such as
  `(a - b) + b == a`, are not claimed for the source.
- The `Hash` impl of values, and `NaN`: dictionary keys use structural equality,
  and `NaN` is not modelled.
- Evaluator.EvalCall: fuel bounds the number of function calls and loop
  iterations. A program that needs more fuel than given ends in an out-of-fuel
  outcome that the source does not have.
- Evaluator.ExecWhile: an infinite loop is modelled only up to its fuel.
- Console I/O is modelled as a list of stdin lines and a list of output lines.
  A failing read of stdin is not modelled.
- `listen` (the HTTP server), `render_template`, `include_css`,
  `set_templates_dir` and `set_static_dir` are left out. They need the file
  system and the network.
- `build_request_object` and `to_rouille_response` convert to and from the HTTP
  library, and are left out.
- `create_list` is listed in the module table only. It returns its arguments as
  a list.
- bcrypt, UUIDs and the clock are parameters. A `u64` overflow of `now` plus
  the session lifetime is not modelled.
- SQLite execution, result rows and `last_insert_rowid` are left out. The model
  stops at the statement text and parameters.
- Blaze.Route: upper-casing is modelled for ASCII letters only, where Rust's
  `to_uppercase` handles all of Unicode.
- Text.Upper: upper-cases ASCII letters only. Rust's `to_uppercase` also maps
  other letters, such as "é", and can lengthen a string ("ß" becomes "SS"). So
  the clause that the length is kept holds for the model, not for the source.
- Packages.IntegrateDeclaration: works on the list of lines. How `str::lines`
  treats a trailing newline or `\r\n` is not modelled.
- Packages.IntegrateRegistration: the source rewrites the file even when it
  inserts nothing, and drops a trailing newline when it does so. Only the lines
  are modelled.
- `install_package`'s choice between a URL and a package name (`Url::parse`),
  `git clone`, HTTP downloads, `recompile_snask` and the package directory are
  left out. Only the edits of `src/stdlib.rs` and the repository name are
  modelled.
- Formatter.IndentUnit: `tabSize` is a natural number. A negative or fractional
  setting is not modelled.
- The editor's line splitting is not modelled. The formatter works on the
  document's lines and on VS Code's whitespace test.
- Evaluator.EvalListItems: its own contract gives the length and that a list
  literal never fails. The value of each element, including `nil` for a failing
  item, is proved separately in `EvaluatorCollections.ListItemAt`.
- Evaluator.EvalDictEntries: its own contract says only that a dictionary
  literal never fails. Dropped entries and the last entry winning are proved in
  `EvaluatorCollections.DictSplit` and `DictLastEntryWins`.
- Evaluator.EvalArgs: its own contract gives the length on success.
  Left-to-right order and the first failure deciding the outcome are proved in
  `EvaluatorCollections.ArgsSplit`, `ArgsFirstFailure` and `ArgsItemAt`.
- Evaluator.CallMethod: its own contract gives the frame (output, input and
  depth) only. The writes of `push` and `set` are proved in
  `EvaluatorCollections.MethodCallEffects`.
- EvaluatorFacts.BranchesPickFirstTrue: stated for boolean-literal conditions
  only. Conditions in general are covered by `EvaluatorFacts.BranchesSkip`,
  `ArmDecides` and `ElseRuns`.
- EvaluatorFacts.ConditionalPicksFirstTrue: stated for boolean-literal
  conditions only. Conditions in general are covered by
  `EvaluatorFacts.ConditionalIsBranches` together with `ArmDecides` and
  `ElseRuns`.
- EvaluatorFacts.WhileRestoresDepth: the depth is restored only when the
  condition and body themselves keep it. A call with a failing argument can
  leak a scope (`EvaluatorFacts.ScopeLeakExample`).
