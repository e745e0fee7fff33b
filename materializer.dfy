/** The environment materializer of transform.rb (`rewrite_env_vars`,
    `rewrite_let_env`): every method body gets a heap environment, the
    captured names are rewritten into slots of it, and the body is wrapped in
    the `let` that declares the method's locals. */
module Materializer {
  import opened Ast
  import opened Resolver

  // ---------------------------------------------------------------------
  // rewrite_env_vars

  /** `E[:index, :__env__, k]`: slot `k` of the environment. */
  function EnvRef(k: nat): Node {
    List([Sym("index"), Sym("__env__"), Int(k)])
  }

  /** The elements of a node of the shape `EnvRef(k)`. */
  predicate IsEnvRef(items: seq<Node>) {
    |items| == 3 && items[0] == Sym("index") && items[1] == Sym("__env__") && items[2].Int? && items[2].i >= 0
  }

  /** `(call yield ...)` */
  predicate IsYieldCall(items: seq<Node>) {
    Tagged(items, "call") && IsSym(At(items, 1), "yield")
  }

  /** `e[0] = :callm; e[1] = :__closure__; e[2] = :call; e[3] = args`: a call
      of `yield` becomes a call of the block in `__closure__`, the arguments
      moving to element 3 (over what was there) and the array growing to at
      least four elements. */
  function ExpandYield(items: seq<Node>): (r: seq<Node>)
    ensures IsYieldCall(items) ==> |r| >= 4 && r[..4] == [Sym("callm"), Sym("__closure__"), Sym("call"), At(items, 2)]
    ensures IsYieldCall(items) ==> forall i :: 4 <= i < |r| ==> i < |items| && r[i] == items[i]
    ensures !IsYieldCall(items) ==> r == items
  {
    if IsYieldCall(items) then
      [Sym("callm"), Sym("__closure__"), Sym("call"), At(items, 2)] + (if |items| > 4 then items[4..] else [])
    else items
  }

  /** Every array among the expanded elements was an element of the node. */
  lemma ExpandChild(items: seq<Node>, i: nat)
    requires i < |ExpandYield(items)| && ExpandYield(items)[i].List?
    ensures Size(ExpandYield(items)[i]) < Size(List(items))
  {
    var ex := ExpandYield(items);
    if IsYieldCall(items) {
      if i == 3 {
        assert ex[i] == At(items, 2);
        ChildSmaller(items, 2);
      } else {
        assert i >= 4 && ex[i] == items[i];
        ChildSmaller(items, i);
      }
    } else {
      ChildSmaller(items, i);
    }
  }

  /** `next if i == 0 && ex == :index; num = env.index(ex); eary[i] = E[:index, :__env__, num] if num` */
  function EnvSlot(x: Node, i: nat, aenv: seq<Name>): Node {
    if x.Sym? && !(i == 0 && x.name == "index") && x.name in aenv then EnvRef(IndexOf(aenv, x.name)) else x
  }

  /** `rewrite_env_vars(exp, aenv)` (transform.rb:249-272): at every node of
      the tree, first a `yield` call is expanded, then every element that is
      one of the names in `aenv` becomes a reference to its slot, and the
      walk goes on into the node's (new) elements. Descending into a slot
      reference changes nothing (`EnvRefUnchanged`), so the walk is written
      here over the elements that were arrays before the step. */
  function RewriteEnvVars(n: Node, aenv: seq<Name>): (r: Node)
    ensures r.List? <==> n.List?
    ensures !n.List? ==> r == n
    ensures n.List? ==> |r.items| == |ExpandYield(n.items)|
    decreases Size(n), 1
  {
    match n
    case List(items) =>
      var ex := ExpandYield(items);
      assert forall j :: 0 <= j < |ex| && ex[j].List? ==> Size(ex[j]) < Size(n) by {
        forall j | 0 <= j < |ex| && ex[j].List? ensures Size(ex[j]) < Size(n) { ExpandChild(items, j); }
      }
      List(EnvElems(ex, 0, aenv, Size(n)))
    case _ => n
  }

  /** The elements from `i` on, each array walked, each other element
      looked up in `aenv`. */
  function EnvElems(ex: seq<Node>, i: nat, aenv: seq<Name>, bound: nat): (r: seq<Node>)
    requires i <= |ex| && forall j :: i <= j < |ex| && ex[j].List? ==> Size(ex[j]) < bound
    ensures |r| == |ex| - i
    ensures forall j :: i <= j < |ex| ==>
      r[j - i] == if ex[j].List? then RewriteEnvVars(ex[j], aenv) else EnvSlot(ex[j], j, aenv)
    decreases bound, 0, |ex| - i
  {
    if i == |ex| then []
    else [if ex[i].List? then RewriteEnvVars(ex[i], aenv) else EnvSlot(ex[i], i, aenv)] + EnvElems(ex, i + 1, aenv, bound)
  }

  /** The traversal would also descend into each slot reference it has just
      inserted: doing so leaves it unchanged, as long as `__env__` itself is
      not a captured name. */
  lemma EnvRefUnchanged(k: nat, aenv: seq<Name>)
    requires "__env__" !in aenv
    ensures RewriteEnvVars(EnvRef(k), aenv) == EnvRef(k)
  {
    var items := EnvRef(k).items;
    assert ExpandYield(items) == items;
    assert EnvSlot(items[1], 1, aenv) == items[1];
  }

  /** What holds of every node after the rewrite: no element is an
      environment name any more, except a tag `index`, and no `yield` call
      is left. */
  predicate Materialized(items: seq<Node>, aenv: seq<Name>) {
    && (forall i :: 0 <= i < |items| && items[i].Sym? && items[i].name in aenv ==> i == 0 && items[i].name == "index")
    && !IsYieldCall(items)
  }

  function MaterializedIn(aenv: seq<Name>): seq<Node> -> bool {
    items => Materialized(items, aenv)
  }

  lemma EnvRefMaterialized(k: nat, aenv: seq<Name>)
    requires "__env__" !in aenv
    ensures Everywhere(EnvRef(k), "", MaterializedIn(aenv))
  {
    var P := MaterializedIn(aenv);
    var items := EnvRef(k).items;
    forall j | 0 <= j < |items| ensures Everywhere(items[j], "", P) {
      AtomEverywhere(items[j], "", P);
    }
    EverywhereListAll(items, "", P);
    EverywhereNode(items, "", P);
  }

  /** After `rewrite_env_vars` no node the traversal reaches names an
      environment entry or calls `yield`. */
  lemma {:induction false} RewriteEnvVarsMaterializes(n: Node, aenv: seq<Name>)
    requires "__env__" !in aenv
    ensures Everywhere(RewriteEnvVars(n, aenv), "", MaterializedIn(aenv))
    decreases Size(n)
  {
    var P := MaterializedIn(aenv);
    match n
    case List(items) =>
      var ex := ExpandYield(items);
      var rs := RewriteEnvVars(n, aenv).items;
      TopMaterialized(items, aenv);
      forall i | 0 <= i < |rs| ensures Everywhere(rs[i], "", P) {
        if ex[i].List? {
          ExpandChild(items, i);
          RewriteEnvVarsMaterializes(ex[i], aenv);
        } else if rs[i] != ex[i] {
          EnvRefMaterialized(IndexOf(aenv, ex[i].name), aenv);
        } else {
          AtomEverywhere(rs[i], "", P);
        }
      }
      EverywhereListAll(rs, "", P);
      EverywhereNode(rs, "", P);
    case _ =>
      AtomEverywhere(n, "", P);
  }

  /** The node itself: after the step no element names an environment
      entry, and the `yield` call is gone. */
  lemma TopMaterialized(items: seq<Node>, aenv: seq<Name>)
    requires "__env__" !in aenv
    ensures MaterializedIn(aenv)(RewriteEnvVars(List(items), aenv).items)
  {
    var ex := ExpandYield(items);
    var rs := RewriteEnvVars(List(items), aenv).items;
    forall j | 0 <= j < |ex| && ex[j].List? ensures Size(ex[j]) < Size(List(items)) {
      ExpandChild(items, j);
    }
    assert rs == EnvElems(ex, 0, aenv, Size(List(items)));
    forall i | 0 <= i < |rs| && rs[i].Sym? && rs[i].name in aenv ensures i == 0 && rs[i].name == "index" {
      assert rs[i] == if ex[i].List? then RewriteEnvVars(ex[i], aenv) else EnvSlot(ex[i], i, aenv);
    }
    assert !IsYieldCall(rs) by {
      if |rs| > 1 && rs[0] == Sym("call") && rs[1] == Sym("yield") {
        assert rs[0] == EnvSlot(ex[0], 0, aenv) && rs[1] == EnvSlot(ex[1], 1, aenv);
        assert ex[0] == Sym("call") && ex[1] == Sym("yield");
        assert ex == items;
      }
    }
  }

  /** Turns every slot reference back into the name its slot holds: the
      inverse of the rewrite. */
  function Unslot(n: Node, aenv: seq<Name>): Node
    decreases Size(n), 1
  {
    match n
    case List(items) =>
      if IsEnvRef(items) && items[2].i < |aenv| then Sym(aenv[items[2].i])
      else
        assert forall j :: 0 <= j < |items| ==> Size(items[j]) < Size(n) by {
          forall j | 0 <= j < |items| ensures Size(items[j]) < Size(n) { ChildSmaller(items, j); }
        }
        List(UnslotAll(items, 0, aenv, Size(n)))
    case _ => n
  }

  function UnslotAll(items: seq<Node>, i: nat, aenv: seq<Name>, bound: nat): (r: seq<Node>)
    requires i <= |items| && forall j :: i <= j < |items| ==> Size(items[j]) < bound
    ensures |r| == |items| - i
    ensures forall j :: i <= j < |items| ==> r[j - i] == Unslot(items[j], aenv)
    decreases bound, 0, |items| - i
  {
    if i == |items| then [] else [Unslot(items[i], aenv)] + UnslotAll(items, i + 1, aenv, bound)
  }

  /** A tree as the parser hands it over: no `yield` call is left unexpanded
      and no slot reference exists yet. */
  predicate Unmaterialized(items: seq<Node>) {
    !IsYieldCall(items) && !IsEnvRef(items)
  }

  /** Each slot reference the rewrite puts in stands for exactly the name it
      replaced: undoing the references gives back the original tree. */
  lemma {:induction false} UnslotRewriteEnvVars(n: Node, aenv: seq<Name>)
    requires "__env__" !in aenv
    requires Everywhere(n, "", Unmaterialized)
    ensures Unslot(RewriteEnvVars(n, aenv), aenv) == n
    decreases Size(n)
  {
    match n
    case List(items) =>
      EverywhereNode(items, "", Unmaterialized);
      assert ExpandYield(items) == items;
      var rs := RewriteEnvVars(n, aenv).items;
      assert !IsEnvRef(rs);
      var back := Unslot(List(rs), aenv).items;
      forall i | 0 <= i < |items| ensures back[i] == items[i] {
        assert back[i] == Unslot(rs[i], aenv);
        if items[i].List? {
          EverywhereListEach(items, "", Unmaterialized, i);
          ChildSmaller(items, i);
          UnslotRewriteEnvVars(items[i], aenv);
        } else if rs[i] != items[i] {
          var k := IndexOf(aenv, items[i].name);
          assert rs[i] == EnvRef(k) && IsEnvRef(EnvRef(k).items);
        }
      }
      assert back == items;
    case _ =>
  }

  // ---------------------------------------------------------------------
  // rewrite_let_env

  /** A parameter as the parser gives it: a name, or an array `[name, ...]`
      (a default value, `:rest`, `:block`). */
  predicate ParamShape(a: Node) {
    a.Sym? || (a.List? && |a.items| > 0 && a.items[0].Sym?)
  }

  /** The `defm` nodes `rewrite_let_env` can handle: `(defm name params body)`
      with an array of parameters and an array of statements. */
  predicate DefmShape(items: seq<Node>) {
    && |items| >= 4
    && items[2].List? && (forall a :: a in items[2].items ==> ParamShape(a))
    && items[3].List?
  }

  /** `a.kind_of?(Array) ? a[0] : a` */
  function ParamName(a: Node): Name
    requires ParamShape(a)
  {
    if a.Sym? then a.name else a.items[0].name
  }

  function ParamNames(ps: seq<Node>): (r: seq<Name>)
    requires forall a :: a in ps ==> ParamShape(a)
    ensures |r| == |ps| && forall i :: 0 <= i < |ps| ==> r[i] == ParamName(ps[i])
  {
    if ps == [] then [] else [ParamName(ps[0])] + ParamNames(ps[1..])
  }

  /** `ac`: how many parameters are plain names. */
  function PlainCount(ps: seq<Node>): (r: nat)
    ensures r <= |ps|
  {
    if ps == [] then 0 else (if ps[0].List? then 0 else 1) + PlainCount(ps[1..])
  }

  /** `r[-1] == :rest` */
  predicate EndsInRest(a: Node) {
    a.List? && |a.items| > 0 && a.items[|a.items| - 1] == Sym("rest")
  }

  /** Where the rest parameter is: the last parameter when it is an array
      ending in `:rest`, otherwise the one before it (a block parameter may
      follow the rest one), otherwise none. */
  function RestIndex(ps: seq<Node>): (r: Option<nat>)
    ensures r.Some? ==> r.value < |ps| && EndsInRest(ps[r.value])
    ensures r.Some? ==> r.value + 2 >= |ps|
    ensures r.None? ==> forall k :: 0 <= k < |ps| && k + 2 >= |ps| ==> !EndsInRest(ps[k])
  {
    if |ps| == 0 then None
    else if EndsInRest(ps[|ps| - 1]) then Some(|ps| - 1)
    else if |ps| >= 2 && EndsInRest(ps[|ps| - 2]) then Some(|ps| - 2)
    else None
  }

  /** What `rewrite_let_env` works out for one method before it rebuilds it. */
  datatype Layout = Layout(
    args: seq<Name>,      // the declared parameter names, in order, once each
    ac: nat,              // how many parameters are plain names
    rest: Option<Name>,   // the rest parameter's name
    params: seq<Node>,    // the parameters, the rest one renamed `__splat`
    found: Found,         // find_vars over the body
    captured: seq<Name>,  // the capture set find_vars returned
    env: seq<Name>,       // the capture set with `__closure__` and `__stackframe__`
    aenv: seq<Name>,      // the slot order
    vars: seq<Name>)      // the body's locals, parameters removed

  /** The store `find_vars` starts from: the parameters' copy as the one
      scope (id 0) and an empty capture set (id 1). */
  function StartStore(args: seq<Name>): (r: Store)
    ensures Frame([0], 1, r)
  {
    Store([args, []], map[])
  }

  /** The rest parameter's name, `r[0]`. */
  function RestName(ps: seq<Node>): (r: Option<Name>)
    requires forall a :: a in ps ==> ParamShape(a)
    ensures r.Some? <==> RestIndex(ps).Some?
  {
    var ri := RestIndex(ps);
    if ri.Some? then Some(ParamName(ps[ri.value])) else None
  }

  /** `r[0] = :__splat`: the parameters with the rest one renamed. */
  function Renamed(ps: seq<Node>): (r: seq<Node>)
    requires forall a :: a in ps ==> ParamShape(a)
    ensures |r| == |ps|
  {
    var ri := RestIndex(ps);
    if ri.Some? then ps[ri.value := List([Sym("__splat")] + ps[ri.value].items[1..])] else ps
  }

  /** `find_vars(e[3], [args.dup], Set.new, freq)` */
  function Analyse(args: seq<Name>, body: Node): (r: Found)
    ensures r.env < |r.st.sets|
  {
    FindVars(body, [0], 1, StartStore(args), false, false)
  }

  /** `env << :__closure__; aenv = [:__stackframe__] + env.to_a`: the slot order. */
  function SlotOrder(captured: seq<Name>): seq<Name> {
    ["__stackframe__"] + Add<Name>(captured, "__closure__")
  }

  function Plan(items: seq<Node>): (l: Layout)
    requires DefmShape(items)
  {
    var ps := items[2].items;
    var args := Union<Name>([], ParamNames(ps));
    PlanFrom(ps, args, Analyse(args, items[3]))
  }

  /** The layout, once `find_vars` has run over the body. */
  function PlanFrom(ps: seq<Node>, args: seq<Name>, found: Found): (l: Layout)
    requires forall a :: a in ps ==> ParamShape(a)
    requires found.env < |found.st.sets|
  {
    var captured := found.st.sets[found.env];
    var closure: Name := "__closure__";
    var frame: Name := "__stackframe__";
    var env := Add(Add(captured, closure), frame);
    Layout(args, PlainCount(ps), RestName(ps), Renamed(ps), found, captured, env, SlotOrder(captured),
           Minus<Name>(found.vars, args))
  }

  /** `(assign (index __env__ k) a)`: the copy of `a` into its slot. */
  function CopyIn(a: Name, aenv: seq<Name>): Node {
    List([Sym("assign"), EnvRef(if a in aenv then IndexOf(aenv, a) else 0), Sym(a)])
  }

  /** `(env - notargs).to_a.collect { ... }` with `notargs = env - args -
      [:__closure__]`: the captured parameters and `__closure__`, in
      capture order. */
  function CopyIns(env: seq<Name>, args: seq<Name>, aenv: seq<Name>): (r: seq<Node>)
    ensures |r| <= |env|
  {
    CopyInAll(Kept(env, args), aenv)
  }

  /** `env - notargs` */
  function Kept(env: seq<Name>, args: seq<Name>): seq<Name> {
    var closure: seq<Name> := ["__closure__"];
    Minus<Name>(env, Minus<Name>(Minus<Name>(env, args), closure))
  }

  function CopyInAll(kept: seq<Name>, aenv: seq<Name>): (r: seq<Node>)
    ensures |r| == |kept| && forall j :: 0 <= j < |kept| ==> r[j] == CopyIn(kept[j], aenv)
  {
    if kept == [] then [] else [CopyIn(kept[0], aenv)] + CopyInAll(kept[1..], aenv)
  }

  /** `(sexp (assign __env__ (call malloc (4·|aenv|))))` */
  function Allocation(slots: nat): Node {
    List([Sym("sexp"), List([Sym("assign"), Sym("__env__"),
      List([Sym("call"), Sym("malloc"), List([Int(slots * 4)])])])])
  }

  /** `[(sexp (assign rest (__splat_to_Array __splat (sub numargs ac))))]` */
  function RestFunc(rest: Option<Name>, ac: nat): seq<Node> {
    if rest.Some? then
      [List([Sym("sexp"), List([Sym("assign"), Sym(rest.value),
        List([Sym("__splat_to_Array"), Sym("__splat"), List([Sym("sub"), Sym("numargs"), Int(ac)])])])])]
    else []
  }

  /** The `let` variables: the locals, `__env__`, `__tmp_proc`, and the rest
      parameter when there is one. */
  function LetVars(l: Layout): seq<Name> {
    l.vars + ["__env__", "__tmp_proc"] + (if l.rest.Some? then [l.rest.value] else [])
  }

  /** The body's statements with every environment name materialized, or a
      lone `nil` for an empty body. */
  function BodyStmts(l: Layout): seq<Node> {
    var body := RewriteEnvVars(l.found.node, l.aenv);
    if body.List? && body.items != [] then body.items else [Sym("nil")]
  }

  /** `rewrite_let_env` on one `(defm name params body)` (transform.rb:295-370):
      the rest parameter is renamed, the body rebuilt as
      `(let vars rest_func ...new_body)`. */
  function RewriteDefm(items: seq<Node>): (r: seq<Node>)
    requires DefmShape(items)
    ensures |r| == |items| && r[0] == items[0]
  {
    var l := Plan(items);
    items[2 := List(l.params)][3 := LetNode(l)]
  }

  /** `E[:let, vars, rest_func, *e[3]]` */
  function LetNode(l: Layout): Node {
    List(LetHead(l) + CopyIns(l.env, l.args, l.aenv) + BodyStmts(l))
  }

  /** `:let`, the variables, the rest function, then the allocation, which is
      the first statement of the new body. The `env.size > 0` test of the
      source always holds (`SlotLayout`), so the body is always
      materialized. */
  function LetHead(l: Layout): seq<Node> {
    [Sym("let"), List(Syms(LetVars(l))), List(RestFunc(l.rest, l.ac)), Allocation(|l.aenv|)]
  }

  /** Where the three parts of a node's elements lie. */
  lemma Parts(h: seq<Node>, cs: seq<Node>, st: seq<Node>)
    ensures var b := h + cs + st;
      && |b| == |h| + |cs| + |st| && b[..|h|] == h && b[|h|..|h| + |cs|] == cs
      && forall j :: |h| + |cs| <= j < |b| ==> b[j] == st[j - |h| - |cs|]
  {
  }

  /** The nodes `rewrite_let_env` may meet: every `defm` it reaches is well formed. */
  predicate DefmOk(items: seq<Node>) {
    Tagged(items, "defm") ==> DefmShape(items)
  }

  /** The block of `rewrite_let_env` on the nodes it meets: a well-formed
      `defm` is rebuilt; the source fails on any other `defm`, which the
      precondition of `RewriteLetEnv` rules out. */
  function RebuildDefm(items: seq<Node>): seq<Node> {
    if DefmShape(items) then RewriteDefm(items) else items
  }

  /** `rewrite_let_env(exp)` (transform.rb:294-373): every `defm` the
      traversal reaches is rebuilt, and the traversal does not go into it. */
  function RewriteLetEnv(n: Node): (r: Node)
    requires Everywhere(n, "defm", DefmOk)
    ensures r.List? <==> n.List?
  {
    RewriteTagged(n, "defm", RebuildDefm)
  }

  // ---------------------------------------------------------------------
  // What rewrite_let_env promises

  /** The compiler's own names that a method must not use as parameters. */
  predicate NoInternalParams(ps: seq<Node>)
    requires forall a :: a in ps ==> ParamShape(a)
  {
    var names := ParamNames(ps);
    "__stackframe__" !in names && "__closure__" !in names && "__env__" !in names
  }

  /** What `find_vars` hands back to `rewrite_let_env`: the method's scope
      without special names other than parameters, a duplicate-free capture
      set holding no special name that is not a parameter. */
  lemma Analysed(args: seq<Name>, body: Node)
    requires NoDup(args)
    ensures var f := Analyse(args, body);
      && f.env < |f.st.sets| && 0 < |f.st.sets|
      && NoDup(f.st.sets[f.env])
      && (forall v :: IsSpecialName(v) && v !in args ==> v !in f.st.sets[f.env] && v !in f.st.sets[0])
      && (body.List? ==> f.vars == f.st.sets[0])
  {
    var f := Analyse(args, body);
    var s0 := StartStore(args);
    assert Good(s0);
    forall v | IsSpecialName(v) && v !in args ensures v !in f.st.sets[f.env] && v !in f.st.sets[0] {
      assert Absent(s0, v);
    }
  }

  /** The slot order is `__stackframe__`, then the captured names in the
      order they were captured, then `__closure__`; when the capture set is
      duplicate-free and holds none of these internal names, no name has two
      slots and `__env__` has none. */
  lemma SlotLayout(captured: seq<Name>)
    requires NoDup(captured)
    requires "__stackframe__" !in captured && "__closure__" !in captured && "__env__" !in captured
    ensures SlotOrder(captured) == ["__stackframe__"] + captured + ["__closure__"]
    ensures NoDup(SlotOrder(captured)) && "__env__" !in SlotOrder(captured)
  {
    var tail := captured + ["__closure__"];
    assert NoDup(tail) by {
      forall i, j | 0 <= i < j < |tail| ensures tail[i] != tail[j] {
        if j == |tail| - 1 { assert tail[i] in captured; }
      }
    }
    assert NoDup(["__stackframe__"] + tail) by {
      forall i, j | 0 <= i < j < |tail| + 1 ensures (["__stackframe__"] + tail)[i] != (["__stackframe__"] + tail)[j] {
        if i == 0 { assert (["__stackframe__"] + tail)[j] == tail[j - 1]; }
      }
    }
  }

  /** A layout as `Plan` computes it, in the terms the properties below need:
      every name of `env` has exactly one slot, `__env__` has none, and
      `env` is the capture set with `__closure__` and `__stackframe__`,
      the last of which is not a parameter. */
  ghost predicate Consistent(l: Layout) {
    && NoDup(l.aenv) && "__env__" !in l.aenv && "__stackframe__" !in l.args
    && (forall a :: a in l.env <==> a in l.captured || a == "__closure__" || a == "__stackframe__")
    && (forall a :: a in l.env ==> a in l.aenv)
  }

  lemma PlanConsistent(items: seq<Node>)
    requires DefmShape(items) && NoInternalParams(items[2].items)
    ensures Consistent(Plan(items))
  {
    var ps := items[2].items;
    var args := Union<Name>([], ParamNames(ps));
    Analysed(args, items[3]);
    InternalNamesSpecial();
    var l := Plan(items);
    SlotLayout(l.captured);
  }

  /** A name that occurs in no `lambda` or `proc` of the method body is not
      captured, so it has no environment slot unless it is `__closure__` or
      `__stackframe__`: it stays a local of the method's stack frame. */
  lemma PlanNotCaptured(items: seq<Node>, x: Name)
    requires DefmShape(items) && x !in Capturable(items[3], false)
    ensures x !in Plan(items).captured
    ensures x in Plan(items).aenv <==> x == "__closure__" || x == "__stackframe__"
  {
    var ps := items[2].items;
    var args := Union<Name>([], ParamNames(ps));
    FindVarsNoCapture(items[3], [0], 1, StartStore(args), false, false, x);
  }

  /** `(assign (index __env__ k) a)` with `k` the slot of `a`. */
  predicate StoresInOwnSlot(c: Node, aenv: seq<Name>) {
    c.List? && |c.items| == 3 && c.items[0] == Sym("assign") && c.items[2].Sym? &&
    c.items[1].List? && IsEnvRef(c.items[1].items) &&
    c.items[1].items[2].i < |aenv| && aenv[c.items[1].items[2].i] == c.items[2].name
  }

  /** A copy stores its name into the slot that holds it. */
  lemma CopyInOwnSlot(a: Name, aenv: seq<Name>)
    requires a in aenv
    ensures StoresInOwnSlot(CopyIn(a, aenv), aenv)
  {
  }

  /** Exactly the names given are copied. */
  lemma CopyInAllNames(kept: seq<Name>, aenv: seq<Name>)
    ensures forall a :: CopyIn(a, aenv) in CopyInAll(kept, aenv) <==> a in kept
  {
    var cs := CopyInAll(kept, aenv);
    forall a ensures CopyIn(a, aenv) in cs <==> a in kept {
      if CopyIn(a, aenv) in cs {
        var j := IndexOf(cs, CopyIn(a, aenv));
        assert cs[j].items[2] == Sym(kept[j]);
      }
      if a in kept {
        assert cs[IndexOf(kept, a)] == CopyIn(a, aenv);
      }
    }
  }

  /** Every name copied has a slot. */
  lemma CopyInAllSlots(kept: seq<Name>, aenv: seq<Name>)
    requires forall a :: a in kept ==> a in aenv
    ensures var cs := CopyInAll(kept, aenv); forall j :: 0 <= j < |cs| ==> StoresInOwnSlot(cs[j], aenv)
  {
    var cs := CopyInAll(kept, aenv);
    forall j | 0 <= j < |cs| ensures StoresInOwnSlot(cs[j], aenv) {
      assert kept[j] in aenv;
      CopyInOwnSlot(kept[j], aenv);
    }
  }

  /** The names kept for copying are the captured parameters and `__closure__`. */
  lemma KeptNames(l: Layout)
    requires Consistent(l)
    ensures forall a :: a in Kept(l.env, l.args) <==> (a in l.captured && a in l.args) || a == "__closure__"
  {
  }

  /** The copy-in stores exactly the captured parameters and `__closure__`,
      each into its own slot. */
  lemma CopyInsExact(l: Layout)
    requires Consistent(l)
    ensures var cs := CopyIns(l.env, l.args, l.aenv);
      && (forall j :: 0 <= j < |cs| ==> StoresInOwnSlot(cs[j], l.aenv))
      && (forall a :: CopyIn(a, l.aenv) in cs <==> (a in l.captured && a in l.args) || a == "__closure__")
  {
    var kept := Kept(l.env, l.args);
    assert CopyIns(l.env, l.args, l.aenv) == CopyInAll(kept, l.aenv);
    KeptInSlots(l);
    CopyInAllSlots(kept, l.aenv);
    CopyInAllNames(kept, l.aenv);
    KeptNames(l);
  }

  lemma KeptInSlots(l: Layout)
    requires Consistent(l)
    ensures forall a :: a in Kept(l.env, l.args) ==> a in l.aenv
  {
  }

  /** The `let` declares the body's locals that are not parameters,
      `__env__`, `__tmp_proc` and the rest parameter, and nothing else; its
      last element allocates four bytes per environment slot into `__env__`. */
  lemma LetHeadVars(l: Layout)
    ensures var h := LetHead(l);
      && |h| == 4 && h[0] == Sym("let") && h[1].List?
      && (forall x :: Sym(x) in h[1].items <==>
            (x in l.vars) || x == "__env__" || x == "__tmp_proc" || l.rest == Some(x))
      && h[3] == List([Sym("sexp"), List([Sym("assign"), Sym("__env__"),
           List([Sym("call"), Sym("malloc"), List([Int(4 * |l.aenv|)])])])])
    ensures Sym("__env__") in LetHead(l)[1].items && Sym("__tmp_proc") in LetHead(l)[1].items
  {
    var vs := LetVars(l);
    assert LetHead(l)[1] == List(Syms(vs));
    SymsMembers(vs);
    LetVarsMembers(l);
  }

  lemma LetVarsMembers(l: Layout)
    ensures forall x :: x in LetVars(l) <==> x in l.vars || x == "__env__" || x == "__tmp_proc" || l.rest == Some(x)
  {
  }

  /** The statements that follow the copy-in are the rewritten body (or a
      lone `nil`), every node of which is materialized. */
  lemma BodyMaterialized(l: Layout)
    requires "__env__" !in l.aenv
    ensures forall k :: 0 <= k < |BodyStmts(l)| ==> Everywhere(BodyStmts(l)[k], "", MaterializedIn(l.aenv))
  {
    var body := RewriteEnvVars(l.found.node, l.aenv);
    var stmts := BodyStmts(l);
    RewriteEnvVarsMaterializes(l.found.node, l.aenv);
    if body.List? && body.items != [] {
      EverywhereNode(body.items, "", MaterializedIn(l.aenv));
      forall k | 0 <= k < |stmts| ensures Everywhere(stmts[k], "", MaterializedIn(l.aenv)) {
        EverywhereListEach(body.items, "", MaterializedIn(l.aenv), k);
      }
    } else {
      AtomEverywhere(Sym("nil"), "", MaterializedIn(l.aenv));
    }
  }

  /** The method's locals in the `let` are what `find_vars` left in its
      scope less the parameters: no declared parameter is ever declared
      again, except the rest parameter. */
  lemma LetVarsNoParams(items: seq<Node>)
    requires DefmShape(items)
    ensures var l := Plan(items);
      forall x :: x in l.vars <==> x in l.found.st.sets[0] && x !in ParamNames(items[2].items)
  {
    var ps := items[2].items;
    Analysed(Union<Name>([], ParamNames(ps)), items[3]);
  }

  /** The rest parameter: renamed `__splat` in the parameter list, declared
      in the `let`, and rebuilt from `__splat` less the `ac` plain
      parameters; with no rest parameter nothing of this happens. */
  lemma RestRenamed(ps: seq<Node>)
    requires forall a :: a in ps ==> ParamShape(a)
    ensures var ri := RestIndex(ps); var r := Renamed(ps);
      && (ri.Some? ==>
            var k := ri.value;
            && Sym(RestName(ps).value) == ps[k].items[0]
            && r[k].List? && r[k].items[0] == Sym("__splat") && r[k].items[1..] == ps[k].items[1..]
            && (forall j :: 0 <= j < |ps| && j != k ==> r[j] == ps[j]))
      && (ri.None? ==> r == ps && RestName(ps) == None)
  {
    var ri := RestIndex(ps);
    if ri.Some? {
      assert ps[ri.value] in ps;
    }
  }

  /** What a rebuilt method looks like from outside. */
  predicate LetEnvDone(items: seq<Node>) {
    Tagged(items, "defm") ==> |items| >= 4 && DeclaresEnv(items[3])
  }

  /** A `let` that declares `__env__` and `__tmp_proc`. */
  predicate DeclaresEnv(n: Node) {
    n.List? && Tagged(n.items, "let") && |n.items| >= 4 && n.items[1].List? &&
    Sym("__env__") in n.items[1].items && Sym("__tmp_proc") in n.items[1].items
  }

  /** The new body is a `let` that declares `__env__` and `__tmp_proc`. */
  lemma LetNodeDone(l: Layout)
    ensures DeclaresEnv(LetNode(l))
  {
    var h := LetHead(l);
    var b := LetNode(l).items;
    Parts(h, CopyIns(l.env, l.args, l.aenv), BodyStmts(l));
    assert b[0] == h[0] && b[1] == h[1];
    LetHeadVars(l);
  }

  lemma LetEnvDoneOf(items: seq<Node>, ps: Node, l: Layout)
    requires |items| >= 4 && Tagged(items, "defm")
    ensures LetEnvDone(items[2 := ps][3 := LetNode(l)])
  {
    LetNodeDone(l);
  }

  lemma DefmDone(items: seq<Node>)
    requires DefmShape(items) && Tagged(items, "defm")
    ensures LetEnvDone(RewriteDefm(items))
  {
    var l := Plan(items);
    LetEnvDoneOf(items, List(l.params), l);
  }

  /** Every method the traversal reaches is rebuilt. */
  lemma {:induction false} RewriteLetEnvDone(n: Node)
    requires Everywhere(n, "defm", DefmOk)
    ensures Everywhere(RewriteLetEnv(n), "defm", LetEnvDone)
    decreases Size(n)
  {
    match n
    case List(items) =>
      EverywhereNode(items, "defm", DefmOk);
      var rs := RewriteLetEnv(n).items;
      if Tagged(items, "defm") {
        DefmDone(items);
        assert rs == RewriteDefm(items);
        assert Stops(rs, "defm");
      } else {
        forall i | 0 <= i < |rs| ensures Everywhere(rs[i], "defm", LetEnvDone) {
          ChildSmaller(items, i);
          EverywhereListEach(items, "defm", DefmOk, i);
          RewriteLetEnvDone(items[i]);
        }
        EverywhereListAll(rs, "defm", LetEnvDone);
      }
      EverywhereNode(rs, "defm", LetEnvDone);
    case _ =>
      AtomEverywhere(n, "defm", LetEnvDone);
  }
}
