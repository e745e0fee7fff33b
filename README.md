# transform.rb, modelled in Dafny

`transform.rb` is the middle end of a self-hosted Ruby compiler. Between the parser and the code generator, `preprocess` runs these steps over the program's tree of nested arrays:
- it builds the class and module scopes (`setup_global_scope`, `build_class_scopes`);
- it rewrites the tree in a fixed order: destructuring assignments, string concatenation, ranges, string and integer literals, operators, `yield`, the per-method environments of captured variables (`find_vars`, `rewrite_let_env`, `rewrite_env_vars`), and finally closures (`rewrite_lambda`, `rewrite_proc_return`).

This project models each of those passes and proves what it guarantees. The usual guarantees are:
- no node of the shape the pass removes is left where the traversal reaches (`...Done`);
- a tree that holds no such node comes back unchanged, so the pass is idempotent (`...Fixed`, `...Idempotent`);
- the rewrite does what the block in the source does (`...Faithful`, `...Shape`);
- there is an inverse where the rewrite loses nothing (`DestructRoundTrip`, `UnslotRewriteEnvVars`).

Modules, one per file:

- `Ast` (ast.dfy)
  - The tree is a value: `Node = Sym | Str | Int | Nil | List(items)`.
  - `depth_first` is the pre-order traversal `Visited`. A tag at which the descent stops plays the part of `:skip`.
  - `Everywhere(n, skip, P)` says that `P` holds of every node the traversal reaches.
  - Ruby's insertion-ordered `Set` is a duplicate-free sequence, with `Add`, `Union` and `Minus`.
  - A label of the emitter's counter is `".L"` followed by the counter in decimal.
- `Resolver` (resolver.dfy): `find_vars` and its helpers.
  - The `Set` objects `find_vars` mutates are shared between caller and callee. So they live in an explicit store addressed by id, and every `<<`, `delete` and `+` of the source is an operation on one store entry.
- `Materializer` (materializer.dfy): `rewrite_env_vars` and `rewrite_let_env`.
- `Closures` (closures.dfy): `rewrite_proc_return` and `rewrite_lambda`.
- `Literals` (literals.dfy): `rewrite_fixnumconst` and `rewrite_strconst`.
  - Both are specification functions on values.
  - Both also appear as methods with the source's loops. The string pass is a method of the class `StringTable`, which holds `@string_constants` and the emitter's label counter.
- `Desugar` (desugar.dfy): `rewrite_yield`, `rewrite_range`, `create_concat`/`rewrite_concat`, `rewrite_destruct` and `rewrite_operators`.
- `ClassScopes` (classscopes.dfy): `build_class_scopes` and `setup_global_scope`.
  - Scope objects are shared and updated in place, so they live in a store (`State`).
  - The class `ScopeBuilder` holds `@classes` and `@global_scope`. Its methods are proved equal to the specification functions on `State`.
- `Pipeline` (pipeline.dfy): `preprocess`, the passes composed in the source's order.

Two behaviours of the source are easy to misread; the model follows the code:
- **`:next` in `rewrite_range` and `rewrite_concat`.** The traversal stops descending only on `:skip`, so after a `:next` it goes on into the replacement. The model walks on into the replacement too, so a nested `range` or `concat` among the operands is rewritten as well.
- **The `env.size > 0` test (transform.rb:326-333).** By the time of the test, `env` always holds `__closure__` and `__stackframe__`, so every method is materialized (`Materializer.SlotLayout`).

A few walks in the source also descend into a node the block has just built. The model leaves that node out of the walk, and each time a lemma proves the descent would change nothing:
- `rewrite_fixnumconst` and `rewrite_strconst` descend into the `sexp` reference they built (`FixnumRefWalk`, `StrRefWalk`);
- `rewrite_env_vars` descends into an `(index __env__ k)` slot reference (`EnvRefUnchanged`);
- `rewrite_yield` descends into the new element `[:call, :yield]` (`CallYieldUnchanged`).

## Model

| member | source | states |
|---|---|---|
| Ast.LabelNameInjective | transform.rb:78 | two different counter values give two different labels, so every label `get_local` hands out is new |
| Resolver.SpecialNameRule | transform.rb:149-157 | a name is special exactly when it is `nil`, `self`, `true` or `false`, or its first character sorts below `a`; the `@` test adds nothing |
| Resolver.InternalNamesSpecial | transform.rb:149-157 | `__env__`, `__closure__`, `__stackframe__`, `__tmp_proc`, `__splat`, `__destruct` and every label are special, so they are never bound, counted or captured |
| Resolver.InScopes | transform.rb:145-147 | the result names exactly the scopes of the stack that hold `n` |
| Resolver.InScopesNearest | transform.rb:145-147 | when some scope holds `n`, the first scope named is the innermost one that holds it |
| Resolver.InScopesLast | transform.rb:231-233 | when no enclosing scope holds `n`, the stack holds it exactly when the innermost scope does |
| Resolver.PushVar | transform.rb:159-164 | the innermost scope gains `v` exactly when no scope holds it, the capture set does not and it is not special; it only grows at its end, every other set is unchanged, and duplicate-freedom is kept |
| Resolver.Tally | transform.rb:232 | the count of `n` goes up by one unless `n` is special; no other count changes and no set changes |
| Resolver.Capture | transform.rb:236-237 | `n` leaves scope `s` and nothing else does; it joins the capture set at its end; no other set changes |
| Resolver.VisitSymbol | transform.rb:230-238 | a symbol is counted unless special; duplicate-freedom is kept and no special name enters the store |
| Resolver.VisitFree | transform.rb:233-234 | with no enclosing scope holding the name, only the innermost scope can change, by binding the name exactly when it is an assignment target, not special and not captured |
| Resolver.VisitHeld | transform.rb:235 | a name held by an enclosing scope, met outside a lambda, changes no set |
| Resolver.VisitCaptured | transform.rb:235-238 | a name held by an enclosing scope, met inside a lambda, leaves the nearest scope holding it and joins the capture set; no other set changes |
| Resolver.FindVars | transform.rb:167-247 | `nil` yields nothing and changes nothing; otherwise the variables returned are the innermost scope's; the store only changes as `Evolves` allows (sets only added, the caller's unrelated sets untouched, the capture set only grown at its end); the tree keeps its shape |
| Resolver.FindVarsItems | transform.rb:170-240 | walking the elements in turn, threading `env`, changes the state only as `Evolves` allows |
| Resolver.AssignStep | transform.rb:172-177 | the assignment step changes the state only as `Evolves` allows and keeps the node's length |
| Resolver.FreshScope | transform.rb:173 | a call given `scopes + [Set.new]` changes no more than a call on `scopes` may |
| Resolver.Merge | transform.rb:175 | `env1 + env2` is a new set that starts with everything the capture set held |
| Resolver.Sequenced | transform.rb:194-198 | after two calls both given `env`, the first one's capture set still starts with what `env` held |
| Resolver.LambdaStep | transform.rb:178-186 | the capture set handed back starts with `env` as the body's walk left it; the parameters are removed only from the set the body hands back, so a declared parameter is in the result only if `env` itself held it by then (which `Resolver.ParameterCaptured` shows can happen); a lambda without a body is unchanged |
| Resolver.LambdaLet | transform.rb:179-186 | the `let` put around a lambda's body lists exactly the body scope's variables that are not declared parameters; the rest of the lambda node is unchanged |
| Resolver.MergedEnv | transform.rb:182-184 | `env + (env2 - params)` holds a declared parameter only if `env` did |
| Resolver.FindVarsNoCapture | transform.rb:230-237 | a name that no `lambda` or `proc` of the walked tree holds, walked outside any lambda, is in the capture set handed back exactly when it was in `env` before: only names met inside a lambda are ever captured |
| Resolver.FindVarsConfined | transform.rb:167-247 | every name that `env` or the capture set handed back gains during a walk is one the walk can capture (`Walked`) |
| Resolver.ItemsConfined | transform.rb:170-240 | the same for a walk of the elements in turn, threading `env` |
| Resolver.ItemConfined | transform.rb:171-239 | the same for one element: a symbol adds at most itself to `env`, and only inside a lambda |
| Resolver.AssignConfined | transform.rb:172-177 | the merged set `env1 + env2` and `env` gain only names the two walks can capture |
| Resolver.MergeConfined | transform.rb:175 | `env1 + env2`, after two walks both given `env`, holds only names `env` held or the walks can capture |
| Resolver.PushConfined | transform.rb:159-164 | pushing variables changes no capture set |
| Resolver.LambdaConfined | transform.rb:178-184 | a lambda adds to the capture sets only names of its own array |
| Resolver.CallConfined | transform.rb:188-223 | a call adds to the capture sets only names its receiver, arguments and block can capture |
| Resolver.CallArgsConfined | transform.rb:191-199 | the same for the arguments of a call |
| Resolver.CallBlockConfined | transform.rb:219-223 | the same for the block of a call |
| Resolver.BlockConfined | transform.rb:202-206 | the same for a block and the merge `env += env3` |
| Resolver.ArgsConfined | transform.rb:194-198 | the same for each argument and its merge |
| Resolver.OtherConfined | transform.rb:224-228 | the same for any other array |
| Resolver.CapturedWhenMet | transform.rb:235-237 | inside a lambda, a symbol that a scope of the enclosing stack still holds when the walk meets it ends in the capture set the walk of the elements hands back |
| Resolver.LambdaCaptures | transform.rb:178-184 | a lambda whose body meets a name that an enclosing scope still holds at that point, and that is not a parameter, hands back a capture set holding that name |
| Resolver.ParameterCaptured | transform.rb:178-184 | a lambda whose body is one name that an enclosing scope holds puts that name into `env` itself, parameter or not, and the nearest scope holding it loses it |
| Resolver.ParameterCapturedExample | transform.rb:178-184 | `def f(x); lambda {|x| x}; end`: the capture set handed back holds the lambda's own parameter `x`, and the method's scope no longer does |
| Resolver.OneSymbolWalk | transform.rb:167-170 | walking the array `[n]` is meeting the symbol `n` and nothing else |
| Resolver.InScopesAlloc | transform.rb:145-147 | a new set in the store does not change which scopes hold a name |
| Resolver.LetWrap | transform.rb:186 | `(let vars ...body)`: the tag, the variable list, then the body's statements, or the body itself when it is an atom |
| Resolver.SymsMembers | transform.rb:186 | the variable list declares a name exactly when the name is among the variables |
| Resolver.SymbolsOf | transform.rb:182-183 | `vars - n[1]` removes exactly the symbols among the parameters |
| Resolver.CallStep | transform.rb:188-223 | a `call`/`callm` step changes the state only as `Evolves` allows and keeps the node's length |
| Resolver.CallArgs | transform.rb:191-199 | the arguments are walked one by one, a bare argument as a one-element array; the state changes only as `Evolves` allows |
| Resolver.CallBlock | transform.rb:219-223 | the block is walked on the current stack; the state changes only as `Evolves` allows |
| Resolver.BlockStep | transform.rb:202-206 | the block's capture set is merged into the capture set; the state changes only as `Evolves` allows |
| Resolver.Args | transform.rb:194-198 | each argument with its own fresh scope; the state changes only as `Evolves` allows; one walked node per argument |
| Resolver.OtherStep | transform.rb:224-228 | the other elements are walked on the current stack; the state changes only as `Evolves` allows and the node keeps its length |
| Materializer.ExpandYield | transform.rb:251-258 | `(call yield args ...)` becomes `(callm __closure__ call args ...)` with the elements after index 3 kept; any other node is unchanged |
| Materializer.RewriteEnvVars | transform.rb:249-273 | an atom is unchanged; a node keeps its length after the `yield` expansion |
| Materializer.EnvElems | transform.rb:262-272 | each element that names an environment entry becomes its slot reference, except a tag `index`; arrays are walked |
| Materializer.EnvRefUnchanged | transform.rb:266-270 | descending into a slot reference just inserted changes nothing, as `__env__` is never an environment entry |
| Materializer.RewriteEnvVarsMaterializes | transform.rb:249-273 | afterwards no node the traversal reaches names an environment entry, except a tag `index`, or calls `yield` |
| Materializer.TopMaterialized | transform.rb:252-272 | the node being rewritten itself is left with no environment name and no `yield` call |
| Materializer.UnslotRewriteEnvVars | transform.rb:249-273 | turning each slot reference back into the name its slot holds gives back the original tree: no reference stands for a name other than the one it replaced |
| Materializer.RestIndex | transform.rb:306-315 | the rest parameter, when there is one, is an array ending in `:rest` among the last two parameters; when there is none, neither of the last two ends in `:rest` |
| Materializer.RestName | transform.rb:313-315 | a rest name exists exactly when a rest parameter does |
| Materializer.Renamed | transform.rb:316-318 | renaming keeps the number of parameters |
| Materializer.RestRenamed | transform.rb:306-319 | the rest parameter is renamed `__splat` and nothing else of the parameter list changes; without a rest parameter the list is unchanged |
| Materializer.Analysed | transform.rb:324 | the capture set `find_vars` hands back is duplicate-free and holds no special name other than a parameter, and neither does the method's scope |
| Materializer.SlotLayout | transform.rb:326-333 | the slots are `__stackframe__`, the captured names in capture order, then `__closure__`; no name has two slots and `__env__` has none; so `env.size > 0` always holds |
| Materializer.PlanConsistent | transform.rb:324-332 | for a method without internal names as parameters, every captured name has exactly one slot and `__env__` has none |
| Materializer.PlanNotCaptured | transform.rb:324-331 | a name that occurs in no `lambda` or `proc` of the method body is not captured and has no environment slot unless it is `__closure__` or `__stackframe__` |
| Materializer.KeptNames | transform.rb:337-338 | `env - notargs` is exactly the captured parameters and `__closure__` |
| Materializer.CopyInOwnSlot | transform.rb:339 | each copy stores its name into the slot that holds it |
| Materializer.CopyInAllNames | transform.rb:338-340 | exactly the names given are copied |
| Materializer.CopyInsExact | transform.rb:337-340 | the copy-in stores exactly the captured parameters and `__closure__`, each into its own slot |
| Materializer.LetHeadVars | transform.rb:341-366 | the `let` declares exactly the method's remaining locals, `__env__`, `__tmp_proc` and the rest parameter, and its first statement allocates `4 * aenv.size` bytes into `__env__` |
| Materializer.LetVarsMembers | transform.rb:351-355 | the `let` variables are the locals, `__env__`, `__tmp_proc` and the rest parameter |
| Materializer.LetVarsNoParams | transform.rb:332 | the locals are the method scope's names that are not parameters: no parameter is declared again |
| Materializer.BodyMaterialized | transform.rb:334-346 | the statements after the copy-in are the rewritten body, or a lone `nil`, with every node materialized |
| Materializer.RewriteDefm | transform.rb:295-370 | a rebuilt method keeps its length and its tag |
| Materializer.LetNodeDone | transform.rb:341-366 | the new body is a `let` that declares `__env__` and `__tmp_proc` |
| Materializer.DefmDone | transform.rb:294-372 | a well-formed method is rebuilt around such a `let` |
| Materializer.RewriteLetEnv | transform.rb:294-373 | an atom stays an atom and a node a node |
| Materializer.RewriteLetEnvDone | transform.rb:294-373 | afterwards every method the traversal reaches has a body that is such a `let` |
| Closures.ProcReturn | transform.rb:28-36 | only tags change: an atom is unchanged and every node keeps its length and size |
| Closures.ProcReturnDone | transform.rb:28-36 | afterwards no node outside `sexp` is tagged `return` |
| Closures.ProcReturnFixed | transform.rb:28-36 | a tree without `return` outside `sexp` is unchanged |
| Closures.ProcReturnIdempotent | transform.rb:28-36 | running the pass twice is running it once |
| Closures.RewriteLambda | transform.rb:42-64 | an atom is unchanged and takes no label; the label counter never goes back |
| Closures.SlotFaithful | transform.rb:56-57 | walking a parameter `[a, :default, :nil]` is what the model does with it, including a parameter that is itself a closure literal |
| Closures.LambdaFaithful | transform.rb:45-61 | a closure is rewritten by the source's block with label `k`, and the traversal then walks the new node with the counter at `k + 1` |
| Closures.LambdaShape | transform.rb:46-61 | a converted closure is `(do save-frame (assign __tmp_proc (defun label (self __closure__ __env__ params...) body)) (sexp (call __new_proc ... argc)))` with the label taken at `k`; the params are the walked `[a, :default, :nil]` slots, one per argument, and the body is the walked body, holding no closure; a `proc` body has no `return` left outside `sexp` before the walk |
| Closures.LambdaDone | transform.rb:42-64 | afterwards no `lambda` or `proc` node is left outside `sexp` |
| Closures.LambdaFixed | transform.rb:42-64 | a tree with no closure outside `sexp` is unchanged and takes no label |
| Closures.LambdaIdempotent | transform.rb:42-64 | running the pass again changes nothing and takes no label |
| Closures.ProcReturnLabels | transform.rb:28-36 | `rewrite_proc_return` keeps every `defun` label of the tree, and adds none |
| Closures.ClosureDoLabels | transform.rb:53-61 | the `do` block a closure becomes holds the `defun` label taken for it, and otherwise only the labels of its parameters and body |
| Closures.ClosurePartsLabels | transform.rb:46-51 | a closure's arguments and body, `proc` returns rewritten, hold no `defun` label the closure does not |
| Closures.LambdaLabels | transform.rb:42-64 | every `defun` label in the result was in the input or was handed out by `get_local` while the counter moved from `k` to where the walk leaves it |
| Closures.LambdaNodeLabels | transform.rb:45-61 | the same for one converted closure: its labels are its own, the one taken at `k`, and those taken while its parameters and body are walked |
| Closures.WalkListLabels | transform.rb:42-64 | the same for the elements of a node walked in turn; atoms among them are unchanged and arrays stay arrays |
| Closures.SlotsWalkLabels | transform.rb:56-57 | the same for the parameters `[a, :default, :nil]` of a closure |
| Closures.SlotWalkLabels | transform.rb:56-57 | the same for one parameter, including one that is itself a closure literal |
| Literals.Wrap | transform.rb:113-114 | a replacement at position 2 or later of a `call`/`callm` is wrapped in a one-element array; anywhere else it stands as it is |
| Literals.RewriteFixnum | transform.rb:99-118 | an atom is unchanged; a node keeps its length |
| Literals.FixnumRefWalk | transform.rb:109-114 | walking into an integer reference just built changes nothing |
| Literals.FixnumFaithful | transform.rb:102-116 | each element is what the block makes of it, then walked |
| Literals.RewriteFixnumConst | transform.rb:99-118 | the method with the source's loops computes `RewriteFixnum` |
| Literals.FixnumBlock | transform.rb:106-115 | the loop replaces each integer element by its reference, wrapped where the block wraps it, and keeps every other element |
| Literals.FixnumWalk | transform.rb:99-118 | the walk over the block's elements computes the specification's elements |
| Literals.FixnumDone | transform.rb:99-118 | afterwards no node outside `sexp` holds an integer |
| Literals.FixnumFixed | transform.rb:99-118 | a tree with no integer outside `sexp` is unchanged |
| Literals.FixnumIdempotent | transform.rb:99-118 | running the pass twice is running it once |
| Literals.Intern | transform.rb:77-81 | afterwards the table holds `s` under the label returned; a known string keeps the table, a new one takes the counter's next label |
| Literals.InternTable | transform.rb:77-81 | interning only adds the entry for `s`, and the counter moves on by one exactly when `s` is new |
| Literals.InternValid | transform.rb:77-81 | if every label in the table came from the counter and no two strings share one, that still holds afterwards |
| Literals.StrPrefix | transform.rb:75-95 | the block's loop yields one element per element |
| Literals.StrPrefixTable | transform.rb:75-95 | the block adds exactly the strings among the node's elements, one label per new string |
| Literals.StrNode | transform.rb:69-96 | an atom and the table are unchanged; a node keeps its length |
| Literals.StrNodeTable | transform.rb:69-96 | the table only gains entries, and the counter moves on by exactly the number of entries added |
| Literals.StrNodeKeys | transform.rb:69-96 | afterwards the table's keys are exactly the old keys and the strings the traversal meets |
| Literals.StrNodeValid | transform.rb:69-96 | a valid table stays valid: labels from the counter, no two strings sharing one |
| Literals.StrconstInterns | transform.rb:69-96 | every string met is replaced by the reference to the label the final table holds for it, so identical strings share one label |
| Literals.StrconstDone | transform.rb:69-96 | afterwards no node outside `sexp` holds a string |
| Literals.StrFixed | transform.rb:69-96 | a tree with no string outside `sexp` is unchanged, and so is the table |
| Literals.StrconstIdempotent | transform.rb:69-96 | running the pass again changes neither the tree nor the table |
| Literals.StrRefWalk | transform.rb:84-89 | walking into a string reference just built changes neither it nor the table |
| Literals.StringTable.GetLocal | transform.rb:78 | the label of the counter's current value, the counter moving on by one; the table is unchanged |
| Literals.StringTable.InternString | transform.rb:77-81 | the object's table and counter change as `Intern` says |
| Literals.StringTable.StrconstBlock | transform.rb:72-94 | the loop over a node's elements computes `StrPrefix` on the object's state |
| Literals.StringTable.RewriteStrconst | transform.rb:69-96 | the method with the source's loops computes `StrNode` on the object's state |
| Literals.StringTable.StrconstWalk | transform.rb:69-96 | the walk over the block's elements computes the specification's walk |
| Desugar.RewriteYield | transform.rb:520-524 | an atom is unchanged; a node keeps its length |
| Desugar.YieldDone | transform.rb:520-524 | afterwards no node is tagged `yield` |
| Desugar.YieldFixed | transform.rb:520-524 | a tree with no `yield` node is unchanged |
| Desugar.RewriteRange | transform.rb:375-382 | an atom is unchanged and a node stays a node |
| Desugar.RangeCall | transform.rb:377-379 | `(range a b ...)` becomes `(callm Range new (a' b' ...))`, the arguments rewritten in place |
| Desugar.RangeDone | transform.rb:375-382 | afterwards no node is tagged `range`, also under `sexp` |
| Desugar.RangeFixed | transform.rb:375-382 | a tree with no `range` node is unchanged |
| Desugar.CreateConcat | transform.rb:384-389 | the chain is a `callm` node |
| Desugar.ConcatOperands | transform.rb:384-389 | reading the chain back gives the operands, all of them and in order (`nil` for none) |
| Desugar.RewriteConcat | transform.rb:391-398 | an atom is unchanged and a node stays a node |
| Desugar.ConcatFaithful | transform.rb:393-395 | a `concat` node is rewritten as the walk of `create_concat` of its operands |
| Desugar.ConcatDone | transform.rb:391-398 | afterwards no node is tagged `concat` |
| Desugar.ConcatFixed | transform.rb:391-398 | a tree with no `concat` node is unchanged |
| Desugar.RewriteDestruct | transform.rb:501-518 | an atom is unchanged, and a node is tagged `destruct` after the rewrite exactly when it was before |
| Desugar.DestructAssigns | transform.rb:513-515 | the `i`-th target is assigned element `i` of `__destruct` |
| Desugar.DestructFaithful | transform.rb:503-516 | a destructuring assignment is rewritten as the walk of the block's result |
| Desugar.DestructRoundTrip | transform.rb:503-516 | reading the assignments back from the `let` gives the original assignment: no target is lost, moved or duplicated |
| Desugar.UndestructLet | transform.rb:508-516 | the `let` built from a value, targets and the following elements reads back as them |
| Desugar.DestructDone | transform.rb:501-518 | afterwards no destructuring assignment is left, nested targets included |
| Desugar.DestructFixed | transform.rb:501-518 | a tree with no destructuring assignment is unchanged |
| Desugar.OperatorShape | transform.rb:128-132 | `(op a b)` becomes `(callm a op (b))` and `(op a)` becomes `(callm a op)` |
| Desugar.RewriteOperators | transform.rb:124-134 | an atom is unchanged and a node stays a node |
| Desugar.OperatorsDone | transform.rb:124-134 | afterwards no node outside `sexp` is tagged with an operator, as long as `callm` and `sexp` are not operators |
| Desugar.OperatorsFixed | transform.rb:124-134 | a tree with no operator node outside `sexp` is unchanged |
| ClassScopes.ItemIvarsSpec | transform.rb:431-433 | the ivars collected from a node are exactly its `@` symbols that are not `@@` |
| ClassScopes.NodesIvarsSpec | transform.rb:430-434 | the ivars of the visited nodes are exactly the ivar symbols among their elements |
| ClassScopes.AddAllSpec | transform.rb:445-446 | adding a sequence to a set gives exactly the old and the new names, the old ones first and in their order |
| ClassScopes.AttrNames | transform.rb:445 | one method name per entry: the entry's text (an integer's in decimal, with its sign) without its first character |
| ClassScopes.AttrIvars | transform.rb:446 | one instance variable per entry: `@` and the method name |
| ClassScopes.Open | transform.rb:469-471 | after opening `c` the state is well formed, `c` names a scope and no scope is lost |
| ClassScopes.OpenClass | transform.rb:467-471 | afterwards the class name names a scope |
| ClassScopes.OpenModule | transform.rb:476-479 | afterwards the module name names a scope |
| ClassScopes.Build | transform.rb:422-490 | the state stays well formed and no scope object is lost |
| ClassScopes.BuildItems | transform.rb:425-489 | one element per element handled; the state stays well formed |
| ClassScopes.BuildChildren | transform.rb:484-487 | element 0 is kept and the elements after it are built in turn |
| ClassScopes.Setup | transform.rb:526-529 | the state afterwards is well formed |
| ClassScopes.RegisterStep | transform.rb:471-473 | registering `c` makes it name `id` in `@classes`, in the global scope and in the opening scope, and keeps every constant in agreement with `@classes`; when every scope in `@classes` is named by its key and `id` is named `c`, that stays so |
| ClassScopes.OpenStep | transform.rb:469-473 | a known name re-uses its scope; a new name gets a new scope of the right kind, opened in `s`, with the superclass given; either way no scope is lost and constants keep agreeing with `@classes`; when every scope in `@classes` is named by its key, the scope `c` names is named `c`, so the source's key `cscope.name` is `c` |
| ClassScopes.BuildStep | transform.rb:422-490 | the builder never loses a scope object or a registered name, only appends to method tables and ivar sets, drops no constant, keeps every constant in agreement with `@classes`, and keeps every scope in `@classes` named by its key |
| ClassScopes.DefmRegisters | transform.rb:427-434 | a `defm` in a class or module leaves the tree and every other scope unchanged; its name joins the method table, and the ivar set gains exactly the ivar symbols anywhere in its body |
| ClassScopes.AttrRegisters | transform.rb:435-466 | an attribute declaration becomes `(do ...)` of its accessors; no other scope changes; the method table and ivar set gain exactly the declared names |
| ClassScopes.AccessorDefsSpec | transform.rb:457-465 | the expansion holds exactly the methods of each entry |
| ClassScopes.EntryDefsSpec | transform.rb:458-464 | one entry gives a getter `m` exactly for a reader and a setter `m=` exactly for a writer |
| ClassScopes.AccessorMethods | transform.rb:457-465 | a getter `m` exists exactly when the declaration reads and an entry names `m`; a setter `m=` exactly when it writes and an entry names `m` |
| ClassScopes.BareAttrEntry | transform.rb:444-465 | on `attr_reader :foo` the expansion as written fails while the registration registers `foo`; the intended expansion is the getter `foo` |
| ClassScopes.ClassRegistered | transform.rb:467-475 | a `class` element re-uses the scope of a known name or opens a new class scope in the current scope with the superclass looked up first; the name becomes a constant of the global and the current scope naming that scope; when every scope in `@classes` was named by its key, the scope registered is named by the class name, so `cscope.name` (transform.rb:471-472) and `e[1]` give the same key; only the body is rewritten |
| ClassScopes.ModuleRegistered | transform.rb:476-482 | as for a class, with a new module's superclass the scope of `Object`; `cscope.name` (transform.rb:478-479) and `e[1]` give the same key under the same condition |
| ClassScopes.BuildKeeps | transform.rb:422-490 | a program with no attribute declaration comes back unchanged from the builder |
| ClassScopes.SetupSpec | transform.rb:526-529 | a fresh global scope, in which the program is built; scopes and names known before keep their identity, and agreement of constants with `@classes` is kept, and so is the naming of every scope in `@classes` by its key |
| ClassScopes.ScopeBuilder.AddVtableEntry | transform.rb:428 | the object's state changes as `WithMethod` says |
| ClassScopes.ScopeBuilder.AddIvar | transform.rb:432 | the object's state changes as `WithIvars` with one name says |
| ClassScopes.ScopeBuilder.AddConstant | transform.rb:472-473 | the object's state changes as `WithConstant` says |
| ClassScopes.ScopeBuilder.AddNodeIvars | transform.rb:431-433 | the scope gains the ivar symbols of one node, in order |
| ClassScopes.ScopeBuilder.ScanIvars | transform.rb:430-434 | the scope gains the ivar symbols of every node of the body, in traversal order |
| ClassScopes.ScopeBuilder.RegisterAttrs | transform.rb:444-447 | the registration loop leaves the scope as `AttrRegister` says and changes nothing else |
| ClassScopes.ScopeBuilder.RegisterScope | transform.rb:471-473 | the object's state changes as `Register` says |
| ClassScopes.ScopeBuilder.OpenScope | transform.rb:469-473 | the object's state changes as `Open` says, and the scope returned is the one `c` names |
| ClassScopes.ScopeBuilder.BuildClassScopes | transform.rb:422-490 | the method computes `Build` on the object's state |
| ClassScopes.ScopeBuilder.BuildElement | transform.rb:426-486 | the method computes `BuildNode` on the object's state |
| ClassScopes.ScopeBuilder.BuildEach | transform.rb:484-487 | the method computes `Children` on the object's state |
| ClassScopes.ScopeBuilder.BuildBody | transform.rb:474 | the method computes `BodyIn` on the object's state |
| ClassScopes.ScopeBuilder.SetupGlobalScope | transform.rb:526-529 | the method computes `Setup` on the object's state |
| ClassScopes.EntryMethods | transform.rb:458-464 | the loop body appends exactly `EntryDefs` |
| ClassScopes.ExpandAccessors | transform.rb:457-465 | the expansion loop collects exactly `AccessorDefs` |
| Pipeline.PreprocessNoClosures | transform.rb:531-544 | after `preprocess` no `lambda` or `proc` node is left outside `sexp` |
| Pipeline.PreprocessStrings | transform.rb:531-544 | the string table only grows and stays valid; a `defun` label that `rewrite_lambda` adds is the label of no string in the table |
| Pipeline.PreprocessScopes | transform.rb:531-544 | `preprocess` makes one new global scope; earlier scopes and names keep their identity, and agreement of constants with `@classes` is kept, and so is the naming of every scope in `@classes` by its key |

## Left out

- **In-place mutation.**
  - The passes mutate the tree in place (`e[i] =`, `e.replace`, `e.clear`, `e <<`). The model writes them as functions from the old tree to the new one.
  - No node is shared between two parents in these passes, so aliasing of nodes is not modelled.
  - The loops of `rewrite_fixnumconst`, `rewrite_strconst` and `build_class_scopes` are also written as methods and proved equal to those functions.
- **`depth_first`.**
  - `AST#depth_first` and `E[]` live in `ast.rb`, which is not part of this model. The traversal is defined here.
  - It visits nodes in pre-order. A tag at which it stops plays the part of `:skip`.
  - Any other value returned by the block, `:next` included, continues into the node's elements as the block left them.
  - A tag filter (`depth_first(:defm)`, `:assign`, `:yield`) is a guard inside the block.
- **Positions and the side table.**
  - Node positions (`exp.position`) are not modelled.
  - The `extra[:varfreq]` annotation is not modelled. The frequency hash `find_vars` fills is modelled as a map, but the ranking by descending frequency is not.
- **`scope.rb` and vtable offsets.**
  - `scope.rb`, `@vtableoffsets` and the emitter (`@e`) are not part of this model.
  - A method table is an ordered set of names, and offsets are not assigned.
  - A scope records its kind, name, parent, superclass, methods, ivars and constants. The global scope's parent is its own index.
  - A re-opened name re-uses its scope whatever kind it was created with.
  - `get_local` is the counter plus `LabelName`.
- **Label freshness.** No lemma states that labels are fresh over a whole program. What is proved: the string table's labels are distinct and come from the counter, a `defun` label that the closure pass adds is the label of no string (`Pipeline.PreprocessStrings`), and the counter only moves on. That two closures never share a label is not stated.
- **Initial state.** The initial `@classes`, scope store and string table are parameters of `Preprocess`, and so is `OPER_METHOD` (`ops`).
- **`rewrite_let_env` on malformed methods.** The source raises on a `defm` whose parameter list or body is not an array. `Materializer.RewriteLetEnv` requires every `defm` to be well formed, and `Pipeline.Preprocess` returns `None` when one is not.
- Materializer.DefmShape: narrower than the source. It also refuses three kinds of parameter that the source takes (transform.rb:296, 302, 309): an integer or a string, an empty array, and an array whose element 0 is not a symbol. `Pipeline.Preprocess` returns `None` on a program holding one. The model assumes the parser never produces these: it gives each parameter as a symbol, or as an array headed by the parameter's name.
- **Other shapes on which the source raises.** The model gives these a value instead:
  - a lambda whose element 1 is an atom other than `nil` is taken as having no arguments;
  - a `proc` body that is an atom is taken as the body unchanged;
  - a `class` whose superclass element is `nil`, a number or an array is looked up by the empty name (`superclass.to_sym`, transform.rb:468);
  - a `class` or `module` whose name element is `nil`, a number or an array is given the empty name (`e[1].to_sym`, transform.rb:469 and 476);
  - a `defm` in a class without a body contributes no instance variables;
  - a `nil` or empty-string attribute entry gives the empty name (its text is empty, and the source's slice `[1..-1]` of an empty text is `nil`).
- ClassScopes.EntryText: an attribute entry that is an array is given the empty text. The source uses the text after the first character of the array's printed form. An integer entry is modelled: `42` declares `2`.
- ClassScopes.Register: registers a scope in `@classes` and the global scope under the name it was opened by, `e[1]`. The source uses `cscope.name` there (transform.rb:471-472, 478-479) and `e[1]` only for the opening scope's constant. The two agree whenever every scope in `@classes` is named by its key (`ClassScopes.Named`). The builder and `setup_global_scope` keep that (`ClassScopes.BuildStep`, `ClassScopes.SetupSpec`, `Pipeline.PreprocessScopes`), and a scope the builder opens is named by its key (`ClassScopes.OpenStep`). An initial state that breaks it is outside what the model promises, and so is a `ClassScope#name` that differs from the name given to the constructor, since `scope.rb` is not part of this model.
- ClassScopes.EntryDefs: weaker than the source for an empty name. An attribute entry whose name is empty (`:":"`) gives a setter but no getter, because a `Sym` holds a non-empty name. The source would emit `(defm  () (@))`.
- **`Pipeline.Preprocess`.** It and `Pipeline.BeforeClosures`, the passes up to `rewrite_lambda`, are ghost functions because `Everywhere` quantifies over the visited nodes. The passes they compose are compiled functions. `Preprocess` carries no contract of its own: `PreprocessNoClosures`, `PreprocessStrings` and `PreprocessScopes` state what it does.
- **Integer widths.** The `aenv.size * 4` allocation size and integer literals are unbounded integers. The source works on Ruby integers, which do not overflow either.
- **The comment on `rewrite_operators`.** It says `(+ 1 2)` becomes `(callm 1 + 2)`. The code builds `(callm 1 + (2))`, which is what the model does (`OperatorShape`).
- Resolver.FindVars: the tree returned is stated only by its shape. Its full content (the `let` put into each lambda) is stated by `Resolver.LambdaLet`, one lambda at a time. The capture direction is stated for a name met by the walk of one array's elements (`Resolver.CapturedWhenMet`) and lifted to a lambda's body (`Resolver.LambdaCaptures`), not over a whole tree. Over a whole tree it does not hold, because of the behaviour under `Resolver.LambdaStep` below. The non-capture direction is stated over a whole tree (`Resolver.FindVarsNoCapture`, `Materializer.PlanNotCaptured`). That a captured name is not also a `let` variable of the method is not stated. It would need an invariant over the whole store: no scope set shares a name with any capture set. That invariant is not proved.
- Resolver.LambdaStep: the model keeps the source's order of effects. A name met in the body is added to the shared `env` (transform.rb:236-237) before the parameters are subtracted from the body's own capture set (transform.rb:183). So a parameter that also names a variable of an enclosing scope is captured out of that scope (`Resolver.ParameterCapturedExample`). And when a nested lambda captures such a name into a set that an assignment in the body built, line 183 removes it again, so it ends in neither the method's scope nor its environment. No corrected step is modelled, because the source's intended treatment of a parameter that shadows a local is not evident from the code.

## Findings

| source | as written | input that shows it | evidently intended | confidence | as-written member | corrected member |
|---|---|---|---|---|---|---|
| transform.rb:444-465 | the registration loop treats a bare single entry as a one-element list, but the expansion iterates over the bare entry itself, and a symbol cannot be iterated | `(call attr_reader :":foo")`, the parser's bare single argument of `attr_reader :foo` | the expansion runs over the same entries as the registration and gives the getter `foo` | medium; not executed | ClassScopes.AttrDefsAsWritten, ClassScopes.BareAttrEntry | ClassScopes.AttrDefs |
