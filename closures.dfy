/** Closure conversion: `rewrite_proc_return` and `rewrite_lambda`
    (transform.rb:28-64). Every `lambda`/`proc` literal the traversal reaches
    outside `sexp` becomes a `do` block that saves the stack frame into the
    environment, assigns a `defun` named by a fresh label to `__tmp_proc` and
    builds the `Proc` object with `__new_proc`. A `proc` body has its
    `return`s turned into `preturn` first. Labels come from the emitter's
    counter, threaded through the pass as `k`. */
module Closures {
  import opened Ast

  // ---------------------------------------------------------------------
  // rewrite_proc_return

  /** `rewrite_proc_return(exp)` (transform.rb:28-36): the traversal stops at
      `sexp`; every other node tagged `return` is retagged `preturn`, and the
      walk goes on into its elements. Only tags change, so the size is kept. */
  function ProcReturn(n: Node): (r: Node)
    ensures r.List? <==> n.List?
    ensures !n.List? ==> r == n
    ensures n.List? ==> |r.items| == |n.items|
    ensures Size(r) == Size(n)
    decreases Size(n), 1
  {
    match n
    case List(items) =>
      if Stops(items, "sexp") then n
      else
        ChildrenSmaller(items);
        assert items[0..] == items;
        List(ProcAll(items, 0, Size(n)))
    case _ => n
  }

  function ProcAll(items: seq<Node>, i: nat, bound: nat): (r: seq<Node>)
    requires i <= |items| && forall j :: i <= j < |items| ==> Size(items[j]) < bound
    ensures |r| == |items| - i
    ensures SizeList(r) == SizeList(items[i..])
    ensures forall j :: i <= j < |items| ==>
      r[j - i] == if j == 0 && Tagged(items, "return") then Sym("preturn") else ProcReturn(items[j])
    decreases bound, 0, |items| - i
  {
    if i == |items| then []
    else
      var x := if i == 0 && Tagged(items, "return") then Sym("preturn") else ProcReturn(items[i]);
      var rest := ProcAll(items, i + 1, bound);
      assert ([x] + rest)[1..] == rest;
      assert items[i..][1..] == items[i + 1..];
      [x] + rest
  }

  /** After `rewrite_proc_return` no node the traversal reaches outside `sexp`
      is tagged `return`. */
  lemma {:induction false} ProcReturnDone(n: Node)
    ensures Everywhere(ProcReturn(n), "sexp", Untagged("return"))
    decreases Size(n)
  {
    var P := Untagged("return");
    match n
    case List(items) =>
      if Stops(items, "sexp") {
        EverywhereBuild(items, "sexp", P);
      } else {
        var rs := ProcReturn(n).items;
        ChildrenSmaller(items);
        forall j | 0 <= j < |rs| ensures Everywhere(rs[j], "sexp", P) {
          if j == 0 && Tagged(items, "return") {
            AtomEverywhere(rs[j], "sexp", P);
          } else {
            ProcReturnDone(items[j]);
          }
        }
        EverywhereBuild(rs, "sexp", P);
      }
    case _ =>
      AtomEverywhere(n, "sexp", P);
  }

  /** A tree without `return` outside `sexp` is left as it is. */
  lemma {:induction false} ProcReturnFixed(n: Node)
    requires Everywhere(n, "sexp", Untagged("return"))
    ensures ProcReturn(n) == n
    decreases Size(n)
  {
    match n
    case List(items) =>
      if !Stops(items, "sexp") {
        EverywhereSplit(items, "sexp", Untagged("return"));
        ChildrenSmaller(items);
        forall j | 0 <= j < |items| ensures ProcReturn(items[j]) == items[j] {
          ProcReturnFixed(items[j]);
        }
        assert ProcReturn(n).items == items;
      }
    case _ =>
  }

  lemma ProcReturnIdempotent(n: Node)
    ensures ProcReturn(ProcReturn(n)) == ProcReturn(n)
  {
    ProcReturnDone(n);
    ProcReturnFixed(ProcReturn(n));
  }

  // ---------------------------------------------------------------------
  // The pieces of a converted closure

  /** `e[0] == :lambda || e[0] == :proc` */
  predicate IsClosure(items: seq<Node>) {
    Tagged(items, "lambda") || Tagged(items, "proc")
  }

  /** `args = e[1] || E[]`. An atom other than nil there has no `collect`
      in Ruby; the model takes it as no argument. */
  function ArgsOf(items: seq<Node>): seq<Node> {
    if At(items, 1).List? then At(items, 1).items else []
  }

  /** `body = e[2] || nil`, a `proc`'s body with its returns turned into `preturn`. */
  function ClosureBody(items: seq<Node>): Node {
    var body := At(items, 2);
    if Tagged(items, "proc") && Truthy(body) then ProcReturn(body) else body
  }

  /** `[a, :default, :nil]`, the parameter a closure argument becomes. */
  function Slot(a: Node): Node {
    List([a, Sym("default"), Sym("nil")])
  }

  function Slots(args: seq<Node>): (r: seq<Node>)
    ensures |r| == |args| && forall j :: 0 <= j < |args| ==> r[j] == Slot(args[j])
  {
    seq(|args|, j requires 0 <= j < |args| => Slot(args[j]))
  }

  /** `(assign (index __env__ 0) (stackframe))` */
  function EnvSave(): Node {
    List([Sym("assign"), List([Sym("index"), Sym("__env__"), Int(0)]), List([Sym("stackframe")])])
  }

  /** `(sexp (call __new_proc (__tmp_proc __env__ self argc)))` */
  function NewProc(argc: nat): Node {
    List([Sym("sexp"), List([Sym("call"), Sym("__new_proc"),
      List([Sym("__tmp_proc"), Sym("__env__"), Sym("self"), Int(argc)])])])
  }

  /** `[:self, :__closure__, :__env__]`, the hidden parameters of every closure. */
  function Hidden(): seq<Node> {
    [Sym("self"), Sym("__closure__"), Sym("__env__")]
  }

  /** `(defun lab (self __closure__ __env__ params...) body)`; the label
      is the string the emitter's `get_local` hands out. */
  function Defun(lab: string, params: seq<Node>, body: Node): Node {
    List([Sym("defun"), Str(lab), List(Hidden() + params), body])
  }

  /** The `do` block a closure literal becomes. */
  function ClosureDo(lab: string, params: seq<Node>, body: Node, argc: nat): Node {
    List([Sym("do"), EnvSave(), List([Sym("assign"), Sym("__tmp_proc"), Defun(lab, params, body)]), NewProc(argc)])
  }

  /** What the block leaves in place of a closure node when the counter
      stands at `k` (transform.rb:45-61), before the walk goes into it. */
  function ClosureStep(items: seq<Node>, k: nat): Node {
    var args := ArgsOf(items);
    ClosureDo(LabelName(k), Slots(args), ClosureBody(items), |args|)
  }

  lemma SizeCons(s: seq<Node>)
    requires s != []
    ensures Size(s[0]) <= SizeList(s) && SizeList(s[1..]) < SizeList(s)
  {
    match s[0]
    case List(_) =>
    case _ =>
  }

  /** The arguments and the body of a closure are smaller than the closure. */
  lemma ClosurePartsSmaller(items: seq<Node>)
    requires IsClosure(items)
    ensures SizeList(ArgsOf(items)) < Size(List(items))
    ensures Size(ClosureBody(items)) < Size(List(items))
  {
    SizeCons(items);
    if |items| > 1 { ChildSmaller(items, 1); }
    if |items| > 2 { ChildSmaller(items, 2); }
  }

  // ---------------------------------------------------------------------
  // rewrite_lambda

  /** `rewrite_lambda(exp)` with the label counter at `k`: the result and the
      counter after the walk. The traversal stops at `sexp`; a closure is
      converted (`LambdaNode`); any other node has its elements walked in
      turn. That this is the walk of the source is `LambdaFaithful`. */
  function RewriteLambda(n: Node, k: nat): (r: (Node, nat))
    ensures r.0.List? <==> n.List?
    ensures !n.List? ==> r == (n, k)
    ensures k <= r.1
    decreases Size(n), 1
  {
    match n
    case List(items) =>
      if Stops(items, "sexp") then (n, k)
      else if IsClosure(items) then LambdaNode(items, k)
      else
        var w := WalkList(items, k);
        (List(w.0), w.1)
    case _ => (n, k)
  }

  /** A closure takes label `k`; the walk then goes into the new parameters
      and the body, with the counter after that label. */
  function LambdaNode(items: seq<Node>, k: nat): (r: (Node, nat))
    requires IsClosure(items)
    ensures r.0.List? && k < r.1
    decreases Size(List(items)), 0
  {
    var args := ArgsOf(items);
    ClosurePartsSmaller(items);
    var ps := SlotsWalk(args, k + 1);
    var b := RewriteLambda(ClosureBody(items), ps.1);
    (ClosureDo(LabelName(k), ps.0, b.0, |args|), b.1)
  }

  /** The walk over the elements of a node, left to right. */
  function WalkList(s: seq<Node>, k: nat): (r: (seq<Node>, nat))
    ensures |r.0| == |s| && k <= r.1
    decreases SizeList(s), 2
  {
    if s == [] then ([], k)
    else
      SizeCons(s);
      var x := RewriteLambda(s[0], k);
      var rest := WalkList(s[1..], x.1);
      ([x.0] + rest.0, rest.1)
  }

  /** The walk over the parameters `[a, :default, :nil]` built from `args`. */
  function SlotsWalk(args: seq<Node>, k: nat): (r: (seq<Node>, nat))
    ensures |r.0| == |args| && k <= r.1
    decreases SizeList(args), 3
  {
    if args == [] then ([], k)
    else
      SizeCons(args);
      var x := SlotWalk(args[0], k);
      var rest := SlotsWalk(args[1..], x.1);
      ([x.0] + rest.0, rest.1)
  }

  /** The walk of one parameter `[a, :default, :nil]`. When `a` is the symbol
      `lambda` or `proc` the parameter is itself a closure node (with no
      arguments and the symbol `nil` as body), converted on the spot. */
  function SlotWalk(a: Node, k: nat): (r: (Node, nat))
    ensures k <= r.1
    decreases Size(a), 2
  {
    if IsSym(a, "lambda") || IsSym(a, "proc") then (ClosureStep(Slot(a).items, k), k + 1)
    else
      var y := RewriteLambda(a, k);
      (Slot(y.0), y.1)
  }

  // ---------------------------------------------------------------------
  // The model is the walk of the source

  lemma WalkCons(x: Node, s: seq<Node>, k: nat)
    ensures WalkList([x] + s, k) ==
      (var a := RewriteLambda(x, k); var b := WalkList(s, a.1); ([a.0] + b.0, b.1))
  {
    assert ([x] + s)[0] == x && ([x] + s)[1..] == s;
  }

  /** The walk over a three-element list. */
  lemma Walk3(x: Node, y: Node, z: Node, k: nat)
    ensures WalkList([x, y, z], k) ==
      (var a := RewriteLambda(x, k); var b := RewriteLambda(y, a.1); var c := RewriteLambda(z, b.1);
       ([a.0, b.0, c.0], c.1))
  {
    var a := RewriteLambda(x, k);
    var b := RewriteLambda(y, a.1);
    assert [x, y, z] == [x] + [y, z];
    assert [y, z] == [y] + [z];
    assert [z] == [z] + [];
    WalkCons(x, [y, z], k);
    WalkCons(y, [z], a.1);
    WalkCons(z, [], b.1);
    var c := RewriteLambda(z, b.1);
    assert WalkList([], c.1) == ([], c.1);
    assert [a.0] + ([b.0] + ([c.0] + [])) == [a.0, b.0, c.0];
  }

  /** The walk over a four-element list. */
  lemma Walk4(w: Node, x: Node, y: Node, z: Node, k: nat)
    ensures WalkList([w, x, y, z], k) ==
      (var a := RewriteLambda(w, k); var t := WalkList([x, y, z], a.1); ([a.0] + t.0, t.1))
  {
    assert [w, x, y, z] == [w] + [x, y, z];
    WalkCons(w, [x, y, z], k);
  }

  /** A node that is neither stopped at nor a closure has its elements walked. */
  lemma WalkPlain(items: seq<Node>, k: nat)
    requires !Stops(items, "sexp") && !IsClosure(items)
    ensures RewriteLambda(List(items), k) == (List(WalkList(items, k).0), WalkList(items, k).1)
  {
  }

  /** A parameter as the walk meets it is what `SlotWalk` makes of it. */
  lemma SlotFaithful(a: Node, k: nat)
    ensures RewriteLambda(Slot(a), k) == SlotWalk(a, k)
  {
    var s := [a, Sym("default"), Sym("nil")];
    if IsSym(a, "lambda") || IsSym(a, "proc") {
      assert ArgsOf(s) == [] && SlotsWalk([], k + 1) == ([], k + 1);
      assert Slots([]) == [];
    } else if !IsSym(a, "sexp") {
      WalkPlain(s, k);
      Walk3(a, Sym("default"), Sym("nil"), k);
    }
  }

  lemma {:induction false} SlotsFaithful(args: seq<Node>, k: nat)
    ensures WalkList(Slots(args), k) == SlotsWalk(args, k)
    decreases |args|
  {
    if args != [] {
      var x := SlotWalk(args[0], k);
      SlotFaithful(args[0], k);
      assert Slots(args) == [Slot(args[0])] + Slots(args[1..]);
      WalkCons(Slot(args[0]), Slots(args[1..]), k);
      SlotsFaithful(args[1..], x.1);
    }
  }

  /** The hidden parameters are atoms; the walk goes on into the others. */
  lemma ParamsFaithful(args: seq<Node>, k: nat)
    ensures RewriteLambda(List(Hidden() + Slots(args)), k) ==
      (List(Hidden() + SlotsWalk(args, k).0), SlotsWalk(args, k).1)
  {
    var ss := Slots(args);
    var ps := SlotsWalk(args, k);
    WalkPlain(Hidden() + ss, k);
    assert Hidden() + ss == [Sym("self")] + ([Sym("__closure__")] + ([Sym("__env__")] + ss));
    WalkCons(Sym("self"), [Sym("__closure__")] + ([Sym("__env__")] + ss), k);
    WalkCons(Sym("__closure__"), [Sym("__env__")] + ss, k);
    WalkCons(Sym("__env__"), ss, k);
    SlotsFaithful(args, k);
    assert [Sym("self")] + ([Sym("__closure__")] + ([Sym("__env__")] + ps.0)) == Hidden() + ps.0;
  }

  lemma DefunFaithful(lab: string, args: seq<Node>, body: Node, k: nat)
    ensures RewriteLambda(Defun(lab, Slots(args), body), k) ==
      (var ps := SlotsWalk(args, k); var b := RewriteLambda(body, ps.1); (Defun(lab, ps.0, b.0), b.1))
  {
    var params := List(Hidden() + Slots(args));
    ParamsFaithful(args, k);
    WalkPlain([Sym("defun"), Str(lab), params, body], k);
    Walk4(Sym("defun"), Str(lab), params, body, k);
    Walk3(Str(lab), params, body, k);
    var ps := SlotsWalk(args, k);
    var b := RewriteLambda(body, ps.1);
    assert [Sym("defun")] + [Str(lab), List(Hidden() + ps.0), b.0] == Defun(lab, ps.0, b.0).items;
  }

  lemma AssignFaithful(x: Node, k: nat)
    ensures RewriteLambda(List([Sym("assign"), Sym("__tmp_proc"), x]), k) ==
      (List([Sym("assign"), Sym("__tmp_proc"), RewriteLambda(x, k).0]), RewriteLambda(x, k).1)
  {
    WalkPlain([Sym("assign"), Sym("__tmp_proc"), x], k);
    Walk3(Sym("assign"), Sym("__tmp_proc"), x, k);
  }

  /** The stack-frame save holds no closure. */
  lemma EnvSaveFixed(k: nat)
    ensures RewriteLambda(EnvSave(), k) == (EnvSave(), k)
  {
    EnvSaveDone();
    LambdaFixed(EnvSave(), k);
  }

  lemma NewProcFixed(argc: nat, k: nat)
    ensures RewriteLambda(NewProc(argc), k) == (NewProc(argc), k)
  {
  }

  /** The walk of a four-element node whose elements other than the third
      are left as they are. */
  lemma WalkThird(w: Node, y: Node, x: Node, z: Node, k: nat)
    requires !Stops([w, y, x, z], "sexp") && !IsClosure([w, y, x, z])
    requires RewriteLambda(w, k) == (w, k) && RewriteLambda(y, k) == (y, k)
    requires RewriteLambda(z, RewriteLambda(x, k).1) == (z, RewriteLambda(x, k).1)
    ensures RewriteLambda(List([w, y, x, z]), k) ==
      (List([w, y, RewriteLambda(x, k).0, z]), RewriteLambda(x, k).1)
  {
    WalkPlain([w, y, x, z], k);
    Walk4(w, y, x, z, k);
    Walk3(y, x, z, k);
    assert [w] + [y, RewriteLambda(x, k).0, z] == [w, y, RewriteLambda(x, k).0, z];
  }

  /** The walk of a `do` block of the converted shape goes into its `__tmp_proc` assignment only. */
  lemma DoWalk(x: Node, argc: nat, k: nat)
    ensures RewriteLambda(List([Sym("do"), EnvSave(), x, NewProc(argc)]), k) ==
      (List([Sym("do"), EnvSave(), RewriteLambda(x, k).0, NewProc(argc)]), RewriteLambda(x, k).1)
  {
    EnvSaveFixed(k);
    NewProcFixed(argc, RewriteLambda(x, k).1);
    WalkThird(Sym("do"), EnvSave(), x, NewProc(argc), k);
  }

  lemma DoFaithful(lab: string, args: seq<Node>, body: Node, argc: nat, k: nat)
    ensures RewriteLambda(ClosureDo(lab, Slots(args), body, argc), k) ==
      (var ps := SlotsWalk(args, k); var b := RewriteLambda(body, ps.1); (ClosureDo(lab, ps.0, b.0, argc), b.1))
  {
    var d := Defun(lab, Slots(args), body);
    DefunFaithful(lab, args, body, k);
    AssignFaithful(d, k);
    DoWalk(List([Sym("assign"), Sym("__tmp_proc"), d]), argc, k);
  }

  /** The conversion of a closure is the source's: the block replaces the
      node by `ClosureStep` after taking label `k`, and the traversal then
      walks the new node with the counter at `k + 1`. */
  lemma LambdaFaithful(items: seq<Node>, k: nat)
    requires IsClosure(items)
    ensures RewriteLambda(List(items), k) == RewriteLambda(ClosureStep(items, k), k + 1)
  {
    var args := ArgsOf(items);
    DoFaithful(LabelName(k), args, ClosureBody(items), |args|, k + 1);
  }

  /** The shape of a converted closure: a four-element `do` block saving the
      frame, assigning `__tmp_proc` a `defun` named by label `k` whose
      parameters are the hidden three followed by the walked slots of the
      arguments, and whose body is the walked body, free of closures; then
      building the `Proc` with the argument count. The counter has moved past
      `k`. A `proc` body has no `return` left outside `sexp` before it is
      walked. */
  lemma LambdaShape(items: seq<Node>, k: nat)
    requires IsClosure(items)
    ensures var r := RewriteLambda(List(items), k);
      && k < r.1
      && r.0.List? && |r.0.items| == 4
      && r.0.items[0] == Sym("do") && r.0.items[1] == EnvSave()
      && r.0.items[3] == NewProc(|ArgsOf(items)|)
      && r.0.items[2].List? && |r.0.items[2].items| == 3
      && r.0.items[2].items[..2] == [Sym("assign"), Sym("__tmp_proc")]
      && var d := r.0.items[2].items[2];
         d.List? && |d.items| == 4 && d.items[0] == Sym("defun") && d.items[1] == Str(LabelName(k))
         && d.items[2].List? && |d.items[2].items| == 3 + |ArgsOf(items)|
         && d.items[2].items[..3] == Hidden()
         && d.items[2].items[3..] == SlotsWalk(ArgsOf(items), k + 1).0
         && d.items[3] == RewriteLambda(ClosureBody(items), SlotsWalk(ArgsOf(items), k + 1).1).0
         && Everywhere(d.items[3], "sexp", NoClosure())
    ensures Tagged(items, "proc") && Truthy(At(items, 2)) ==>
      Everywhere(ClosureBody(items), "sexp", Untagged("return"))
  {
    var ps := SlotsWalk(ArgsOf(items), k + 1);
    assert (Hidden() + ps.0)[..3] == Hidden();
    assert (Hidden() + ps.0)[3..] == ps.0;
    LambdaDone(ClosureBody(items), ps.1);
    ProcReturnDone(At(items, 2));
  }

  // ---------------------------------------------------------------------
  // What the pass leaves behind

  /** The property of a node of not being a closure literal. */
  function NoClosure(): seq<Node> -> bool {
    (items: seq<Node>) => !IsClosure(items)
  }

  lemma EnvSaveDone()
    ensures Everywhere(EnvSave(), "sexp", NoClosure())
  {
    var P := NoClosure();
    EverywhereBuild([Sym("index"), Sym("__env__"), Int(0)], "sexp", P);
    EverywhereBuild([Sym("stackframe")], "sexp", P);
    EverywhereBuild(EnvSave().items, "sexp", P);
  }

  /** A converted closure holds no closure when its parameters and body hold none. */
  lemma ClosureDoDone(lab: string, params: seq<Node>, body: Node, argc: nat)
    requires forall j :: 0 <= j < |params| ==> Everywhere(params[j], "sexp", NoClosure())
    requires Everywhere(body, "sexp", NoClosure())
    ensures Everywhere(ClosureDo(lab, params, body, argc), "sexp", NoClosure())
  {
    var P := NoClosure();
    var ps := Hidden() + params;
    forall j | 0 <= j < |ps| ensures Everywhere(ps[j], "sexp", P) {
      if j >= 3 { assert ps[j] == params[j - 3]; }
    }
    EverywhereBuild(ps, "sexp", P);
    var d := Defun(lab, params, body);
    EverywhereBuild(d.items, "sexp", P);
    EverywhereBuild([Sym("assign"), Sym("__tmp_proc"), d], "sexp", P);
    EnvSaveDone();
    EverywhereBuild(NewProc(argc).items, "sexp", P);
    EverywhereBuild(ClosureDo(lab, params, body, argc).items, "sexp", P);
  }

  /** After `rewrite_lambda` no node the traversal reaches outside `sexp`
      is a `lambda` or a `proc`. */
  lemma {:induction false} LambdaDone(n: Node, k: nat)
    ensures Everywhere(RewriteLambda(n, k).0, "sexp", NoClosure())
    decreases Size(n), 1
  {
    var P := NoClosure();
    match n
    case List(items) =>
      if Stops(items, "sexp") {
        EverywhereBuild(items, "sexp", P);
      } else if IsClosure(items) {
        LambdaNodeDone(items, k);
      } else {
        var w := WalkList(items, k);
        WalkListDone(items, k);
        if items != [] {
          WalkCons(items[0], items[1..], k);
          assert [items[0]] + items[1..] == items;
          assert w.0[0] == RewriteLambda(items[0], k).0;
        }
        EverywhereBuild(w.0, "sexp", P);
      }
    case _ =>
      AtomEverywhere(n, "sexp", P);
  }

  lemma {:induction false} LambdaNodeDone(items: seq<Node>, k: nat)
    requires IsClosure(items)
    ensures Everywhere(LambdaNode(items, k).0, "sexp", NoClosure())
    decreases Size(List(items)), 0
  {
    var args := ArgsOf(items);
    ClosurePartsSmaller(items);
    var ps := SlotsWalk(args, k + 1);
    SlotsDone(args, k + 1);
    LambdaDone(ClosureBody(items), ps.1);
    ClosureDoDone(LabelName(k), ps.0, RewriteLambda(ClosureBody(items), ps.1).0, |args|);
  }

  lemma {:induction false} WalkListDone(s: seq<Node>, k: nat)
    ensures forall j :: 0 <= j < |s| ==> Everywhere(WalkList(s, k).0[j], "sexp", NoClosure())
    decreases SizeList(s), 2
  {
    if s != [] {
      SizeCons(s);
      var x := RewriteLambda(s[0], k);
      LambdaDone(s[0], k);
      WalkListDone(s[1..], x.1);
    }
  }

  lemma {:induction false} SlotsDone(args: seq<Node>, k: nat)
    ensures forall j :: 0 <= j < |args| ==> Everywhere(SlotsWalk(args, k).0[j], "sexp", NoClosure())
    decreases SizeList(args), 3
  {
    if args != [] {
      SizeCons(args);
      var x := SlotWalk(args[0], k);
      SlotDone(args[0], k);
      SlotsDone(args[1..], x.1);
    }
  }

  lemma {:induction false} SlotDone(a: Node, k: nat)
    ensures Everywhere(SlotWalk(a, k).0, "sexp", NoClosure())
    decreases Size(a), 2
  {
    if IsSym(a, "lambda") || IsSym(a, "proc") {
      ClosureDoDone(LabelName(k), [], Sym("nil"), 0);
      assert ClosureStep(Slot(a).items, k) == ClosureDo(LabelName(k), [], Sym("nil"), 0);
    } else {
      var y := RewriteLambda(a, k);
      LambdaDone(a, k);
      EverywhereBuild(Slot(y.0).items, "sexp", NoClosure());
    }
  }

  /** A tree without closures outside `sexp` is left as it is, and no label is taken. */
  lemma {:induction false} LambdaFixed(n: Node, k: nat)
    requires Everywhere(n, "sexp", NoClosure())
    ensures RewriteLambda(n, k) == (n, k)
    decreases Size(n), 1
  {
    match n
    case List(items) =>
      if !Stops(items, "sexp") {
        EverywhereSplit(items, "sexp", NoClosure());
        WalkListFixed(items, k);
      }
    case _ =>
  }

  lemma {:induction false} WalkListFixed(s: seq<Node>, k: nat)
    requires forall j :: 0 <= j < |s| ==> Everywhere(s[j], "sexp", NoClosure())
    ensures WalkList(s, k) == (s, k)
    decreases SizeList(s), 2
  {
    if s != [] {
      SizeCons(s);
      LambdaFixed(s[0], k);
      WalkListFixed(s[1..], k);
      assert [s[0]] + s[1..] == s;
    }
  }

  lemma LambdaIdempotent(n: Node, k: nat, k2: nat)
    ensures RewriteLambda(RewriteLambda(n, k).0, k2) == (RewriteLambda(n, k).0, k2)
  {
    LambdaDone(n, k);
    LambdaFixed(RewriteLambda(n, k).0, k2);
  }

  // ---------------------------------------------------------------------
  // The labels the pass takes

  /** The label of `(defun "lab" ...)`, when `items` is such a node. */
  function OwnLabel(items: seq<Node>): set<string> {
    if Tagged(items, "defun") && |items| > 1 && items[1].Str? then {items[1].s} else {}
  }

  /** The labels of every `defun` anywhere in `n`, under `sexp` too. */
  function DefunLabels(n: Node): set<string>
    decreases n, 1
  {
    match n
    case List(items) => OwnLabel(items) + DefunLabelsList(items)
    case _ => {}
  }

  function DefunLabelsList(s: seq<Node>): set<string>
    decreases s, 0
  {
    if s == [] then {} else DefunLabels(s[0]) + DefunLabelsList(s[1..])
  }

  /** The labels `get_local` hands out while the counter moves from `k` to `k2`. */
  function Issued(k: nat, k2: nat): set<string> {
    set j: nat | k <= j < k2 :: LabelName(j)
  }

  lemma IssuedWithin(k1: nat, k2: nat, k3: nat, k4: nat)
    requires k1 <= k3 && k4 <= k2
    ensures Issued(k3, k4) <= Issued(k1, k2)
  {
  }

  lemma DefunLabelsCons(x: Node, s: seq<Node>)
    ensures DefunLabelsList([x] + s) == DefunLabels(x) + DefunLabelsList(s)
  {
    assert ([x] + s)[0] == x && ([x] + s)[1..] == s;
  }

  lemma DefunLabels3(x: Node, y: Node, z: Node)
    ensures DefunLabelsList([x, y, z]) == DefunLabels(x) + DefunLabels(y) + DefunLabels(z)
  {
    DefunLabelsCons(z, []);
    DefunLabelsCons(y, [z]);
    DefunLabelsCons(x, [y, z]);
    assert [x, y, z] == [x] + [y, z] && [y, z] == [y] + [z] && [z] == [z] + [];
  }

  lemma {:induction false} DefunLabelsConcat(a: seq<Node>, b: seq<Node>)
    ensures DefunLabelsList(a + b) == DefunLabelsList(a) + DefunLabelsList(b)
  {
    if a != [] {
      DefunLabelsConcat(a[1..], b);
      assert a + b == [a[0]] + (a[1..] + b);
      DefunLabelsCons(a[0], a[1..] + b);
    } else {
      assert a + b == b;
    }
  }

  lemma {:induction false} DefunLabelsAt(s: seq<Node>, i: nat)
    requires i < |s|
    ensures DefunLabels(s[i]) <= DefunLabelsList(s)
  {
    if i > 0 {
      DefunLabelsAt(s[1..], i - 1);
    }
  }

  /** Lists whose elements carry the same labels carry the same labels. */
  lemma {:induction false} DefunLabelsPointwise(a: seq<Node>, b: seq<Node>)
    requires |a| == |b| && forall i :: 0 <= i < |a| ==> DefunLabels(a[i]) == DefunLabels(b[i])
    ensures DefunLabelsList(a) == DefunLabelsList(b)
  {
    if a != [] {
      DefunLabelsPointwise(a[1..], b[1..]);
    }
  }

  /** `rewrite_proc_return` changes tags only, never a `defun` or its label. */
  lemma {:induction false} ProcReturnLabels(n: Node)
    ensures DefunLabels(ProcReturn(n)) == DefunLabels(n)
    decreases Size(n)
  {
    match n
    case List(items) =>
      if !Stops(items, "sexp") {
        ChildrenSmaller(items);
        var p := ProcAll(items, 0, Size(n));
        forall i | 0 <= i < |items| ensures DefunLabels(p[i]) == DefunLabels(items[i]) {
          if !(i == 0 && Tagged(items, "return")) {
            ProcReturnLabels(items[i]);
          }
        }
        DefunLabelsPointwise(p, items);
        assert OwnLabel(p) == OwnLabel(items);
      }
    case _ =>
  }

  lemma DefunLabels4(w: Node, x: Node, y: Node, z: Node)
    ensures DefunLabelsList([w, x, y, z]) == DefunLabels(w) + DefunLabels(x) + DefunLabels(y) + DefunLabels(z)
  {
    DefunLabels3(x, y, z);
    DefunLabelsCons(w, [x, y, z]);
    assert [w, x, y, z] == [w] + [x, y, z];
  }

  lemma DefunOwnLabels(lab: string, params: seq<Node>, body: Node)
    ensures DefunLabels(Defun(lab, params, body)) == {lab} + DefunLabelsList(params) + DefunLabels(body)
  {
    DefunLabelsConcat(Hidden(), params);
    DefunLabels3(Sym("self"), Sym("__closure__"), Sym("__env__"));
    assert DefunLabels(List(Hidden() + params)) == DefunLabelsList(params);
    DefunLabels4(Sym("defun"), Str(lab), List(Hidden() + params), body);
  }

  lemma EnvSaveLabels()
    ensures DefunLabels(EnvSave()) == {}
  {
    DefunLabels3(Sym("index"), Sym("__env__"), Int(0));
    DefunLabelsCons(Sym("stackframe"), []);
    assert [Sym("stackframe")] == [Sym("stackframe")] + [];
    DefunLabels3(Sym("assign"), List([Sym("index"), Sym("__env__"), Int(0)]), List([Sym("stackframe")]));
  }

  lemma NewProcLabels(argc: nat)
    ensures DefunLabels(NewProc(argc)) == {}
  {
    var call := List([Sym("__tmp_proc"), Sym("__env__"), Sym("self"), Int(argc)]);
    DefunLabels4(Sym("__tmp_proc"), Sym("__env__"), Sym("self"), Int(argc));
    DefunLabels3(Sym("call"), Sym("__new_proc"), call);
    var inner := List([Sym("call"), Sym("__new_proc"), call]);
    DefunLabelsCons(inner, []);
    DefunLabelsCons(Sym("sexp"), [inner]);
    assert [Sym("sexp"), inner] == [Sym("sexp")] + [inner] && [inner] == [inner] + [];
  }

  /** A converted closure holds its own label and those of its parameters and body. */
  lemma ClosureDoLabels(lab: string, params: seq<Node>, body: Node, argc: nat)
    ensures DefunLabels(ClosureDo(lab, params, body, argc)) == {lab} + DefunLabelsList(params) + DefunLabels(body)
  {
    var d := Defun(lab, params, body);
    DefunOwnLabels(lab, params, body);
    DefunLabels3(Sym("assign"), Sym("__tmp_proc"), d);
    EnvSaveLabels();
    NewProcLabels(argc);
    DefunLabels4(Sym("do"), EnvSave(), List([Sym("assign"), Sym("__tmp_proc"), d]), NewProc(argc));
  }

  /** The arguments and the body of a closure hold no label the closure does not. */
  lemma ClosurePartsLabels(items: seq<Node>)
    requires IsClosure(items)
    ensures DefunLabelsList(ArgsOf(items)) <= DefunLabelsList(items)
    ensures DefunLabels(ClosureBody(items)) <= DefunLabelsList(items)
  {
    if |items| > 1 { DefunLabelsAt(items, 1); }
    if |items| > 2 { DefunLabelsAt(items, 2); }
    ProcReturnLabels(At(items, 2));
  }

  /** Every `defun` label in the result of `rewrite_lambda` was in the input or
      is one of the labels the counter handed out during the walk. */
  lemma {:induction false} LambdaLabels(n: Node, k: nat)
    ensures DefunLabels(RewriteLambda(n, k).0) <= DefunLabels(n) + Issued(k, RewriteLambda(n, k).1)
    decreases Size(n), 1
  {
    match n
    case List(items) =>
      if Stops(items, "sexp") {
      } else if IsClosure(items) {
        LambdaNodeLabels(items, k);
      } else {
        var w := WalkList(items, k);
        WalkListLabels(items, k);
        assert OwnLabel(w.0) == OwnLabel(items);
      }
    case _ =>
  }

  lemma {:induction false} LambdaNodeLabels(items: seq<Node>, k: nat)
    requires IsClosure(items)
    ensures DefunLabels(LambdaNode(items, k).0) <= DefunLabelsList(items) + Issued(k, LambdaNode(items, k).1)
    decreases Size(List(items)), 0
  {
    var args := ArgsOf(items);
    ClosurePartsSmaller(items);
    var ps := SlotsWalk(args, k + 1);
    var b := RewriteLambda(ClosureBody(items), ps.1);
    SlotsWalkLabels(args, k + 1);
    LambdaLabels(ClosureBody(items), ps.1);
    ClosureDoLabels(LabelName(k), ps.0, b.0, |args|);
    ClosurePartsLabels(items);
    IssuedWithin(k, b.1, k + 1, ps.1);
    IssuedWithin(k, b.1, ps.1, b.1);
    assert LabelName(k) in Issued(k, b.1);
  }

  lemma {:induction false} WalkListLabels(s: seq<Node>, k: nat)
    ensures var w := WalkList(s, k);
      DefunLabelsList(w.0) <= DefunLabelsList(s) + Issued(k, w.1)
    ensures var w := WalkList(s, k);
      forall i :: 0 <= i < |s| ==> (w.0[i].List? <==> s[i].List?) && (!s[i].List? ==> w.0[i] == s[i])
    decreases SizeList(s), 2
  {
    if s != [] {
      SizeCons(s);
      var x := RewriteLambda(s[0], k);
      var rest := WalkList(s[1..], x.1);
      LambdaLabels(s[0], k);
      WalkListLabels(s[1..], x.1);
      DefunLabelsCons(x.0, rest.0);
      IssuedWithin(k, rest.1, k, x.1);
      IssuedWithin(k, rest.1, x.1, rest.1);
      var w := WalkList(s, k);
      forall i | 0 <= i < |s| ensures (w.0[i].List? <==> s[i].List?) && (!s[i].List? ==> w.0[i] == s[i]) {
        if i > 0 {
          assert w.0[i] == rest.0[i - 1] && s[i] == s[1..][i - 1];
        }
      }
    }
  }

  lemma {:induction false} SlotsWalkLabels(args: seq<Node>, k: nat)
    ensures DefunLabelsList(SlotsWalk(args, k).0) <= DefunLabelsList(args) + Issued(k, SlotsWalk(args, k).1)
    decreases SizeList(args), 3
  {
    if args != [] {
      SizeCons(args);
      var x := SlotWalk(args[0], k);
      var rest := SlotsWalk(args[1..], x.1);
      SlotWalkLabels(args[0], k);
      SlotsWalkLabels(args[1..], x.1);
      DefunLabelsCons(x.0, rest.0);
      IssuedWithin(k, rest.1, k, x.1);
      IssuedWithin(k, rest.1, x.1, rest.1);
    }
  }

  lemma {:induction false} SlotWalkLabels(a: Node, k: nat)
    ensures DefunLabels(SlotWalk(a, k).0) <= DefunLabels(a) + Issued(k, SlotWalk(a, k).1)
    decreases Size(a), 2
  {
    if IsSym(a, "lambda") || IsSym(a, "proc") {
      assert ClosureStep(Slot(a).items, k) == ClosureDo(LabelName(k), [], Sym("nil"), 0);
      ClosureDoLabels(LabelName(k), [], Sym("nil"), 0);
      assert LabelName(k) in Issued(k, k + 1);
    } else {
      var y := RewriteLambda(a, k);
      LambdaLabels(a, k);
      DefunLabels3(y.0, Sym("default"), Sym("nil"));
      assert DefunLabels(Slot(y.0)) == DefunLabels(y.0);
    }
  }
}
