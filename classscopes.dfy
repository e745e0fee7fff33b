/** The class-scope builder: `build_class_scopes` and `setup_global_scope`
    (transform.rb:422-490, 526-529). Before any rewrite the compiler walks the
    class and module bodies of the program once: every method a class or
    module defines joins its method table, every instance variable its
    methods mention joins its instance-variable set, attribute declarations
    become explicit getter and setter methods, and every class or module name
    gets one persistent scope object, found again whenever the name is
    re-opened, and registered as a constant in the global scope and in the
    scope it was opened in.

    Scope objects are shared and updated in place, so they live in a store
    (`State.scopes`) and are named by their index there. */
module ClassScopes {
  import opened Ast

  datatype Kind = GlobalKind | ModuleKind | ClassKind

  /** A scope object. `parent` is the scope it was opened in, `superclass`
      the scope of a class's superclass (of `Object` for a module) when one
      was known at creation; `vtable` holds method names and `ivars`
      instance-variable names, in the order they were first added;
      `constants` maps a constant name to the scope registered under it. */
  datatype Scope = Scope(kind: Kind, name: string, parent: nat, superclass: Option<nat>,
                         vtable: seq<string>, ivars: seq<string>, constants: map<string, nat>)

  /** The store of scope objects, the compiler's `@classes` table (name to
      scope) and the current `@global_scope`. */
  datatype State = State(scopes: seq<Scope>, classes: map<string, nat>, global: nat)

  /** Every scope the builder can reach exists. */
  predicate Inv(st: State) {
    st.global < |st.scopes| && forall c :: c in st.classes ==> st.classes[c] < |st.scopes|
  }

  /** `scope.is_a?(ModuleScope)`: a class or a module, not the global scope. */
  predicate InModule(st: State, s: nat)
    requires s < |st.scopes|
  {
    st.scopes[s].kind != GlobalKind
  }

  /** `x.to_s` of a symbol or a string. */
  function ToS(n: Node): string {
    match n
    case Sym(x) => x
    case Str(x) => x
    case _ => ""
  }

  /** `entry.to_s` of an attribute entry: a symbol's or a string's own text,
      an integer's decimal text with its sign. `nil.to_s` is empty (the
      source then raises); an array's printed form is not modelled. */
  function EntryText(n: Node): string {
    match n
    case Sym(x) => x
    case Str(x) => x
    case Int(i) => if i < 0 then "-" + Decimal(-i) else Decimal(i)
    case _ => ""
  }

  /** `t[1..-1]` */
  function Drop1(t: string): string {
    if |t| == 0 then "" else t[1..]
  }

  // ---------------------------------------------------------------------
  // Updates of one scope object

  /** `scope.add_vtable_entry(m)` */
  function WithMethod(st: State, s: nat, m: string): State
    requires s < |st.scopes|
  {
    st.(scopes := st.scopes[s := st.scopes[s].(vtable := Add<string>(st.scopes[s].vtable, m))])
  }

  /** `scope.add_ivar(v)` for each `v` of `vs` in turn. */
  function WithIvars(st: State, s: nat, vs: seq<string>): State
    requires s < |st.scopes|
  {
    st.(scopes := st.scopes[s := st.scopes[s].(ivars := AddAll(st.scopes[s].ivars, vs))])
  }

  /** `scope.add_constant(c, id)` */
  function WithConstant(st: State, s: nat, c: string, id: nat): State
    requires s < |st.scopes|
  {
    st.(scopes := st.scopes[s := st.scopes[s].(constants := st.scopes[s].constants[c := id])])
  }

  // ---------------------------------------------------------------------
  // Instance variables of a method body

  /** A symbol naming an instance variable: a leading `@`, but not `@@`. */
  predicate IsIvar(n: Node) {
    n.Sym? && n.name[0] == '@' && (|n.name| == 1 || n.name[1] != '@')
  }

  /** The instance-variable symbols among the elements of one node, in order. */
  function ItemIvars(items: seq<Node>): seq<string> {
    if items == [] then []
    else
      var x := items[|items| - 1];
      ItemIvars(items[..|items| - 1]) + (if IsIvar(x) then [x.name] else [])
  }

  lemma {:induction false} ItemIvarsSpec(items: seq<Node>)
    ensures forall v :: v in ItemIvars(items) <==>
      exists j :: 0 <= j < |items| && IsIvar(items[j]) && items[j].name == v
  {
    if items != [] {
      var p := items[..|items| - 1];
      ItemIvarsSpec(p);
      assert forall j :: 0 <= j < |p| ==> p[j] == items[j];
    }
  }

  /** The instance-variable symbols of a sequence of visited nodes. */
  function NodesIvars(vs: seq<seq<Node>>): seq<string> {
    if vs == [] then [] else NodesIvars(vs[..|vs| - 1]) + ItemIvars(vs[|vs| - 1])
  }

  /** What `e[3].depth_first { |exp| exp.each { |n| ... } }` meets: every
      element of every node of the body, the body's own elements first. */
  function IvarNames(body: Node): seq<string> {
    NodesIvars(Visited(body, ""))
  }

  /** `xs.each { |x| set << x }` */
  function AddAll(s: seq<string>, xs: seq<string>): seq<string> {
    if xs == [] then s else Add<string>(AddAll(s, xs[..|xs| - 1]), xs[|xs| - 1])
  }

  /** Adding a sequence of names gives exactly the old and the new names,
      the old ones first and in their old order. */
  lemma {:induction false} AddAllSpec(s: seq<string>, xs: seq<string>)
    ensures forall v :: v in AddAll(s, xs) <==> v in s || v in xs
    ensures |s| <= |AddAll(s, xs)| && AddAll(s, xs)[..|s|] == s
  {
    if xs != [] {
      var p := AddAll(s, xs[..|xs| - 1]);
      AddAllSpec(s, xs[..|xs| - 1]);
      var r := Add<string>(p, xs[|xs| - 1]);
      assert r[..|s|] == r[..|p|][..|s|];
      assert xs == xs[..|xs| - 1] + [xs[|xs| - 1]];
    }
  }

  /** A `defm` in a class or module (transform.rb:426-433): the method name
      joins the method table, the body's instance variables the ivar set. */
  function ScanDefm(e: seq<Node>, s: nat, st: State): State
    requires s < |st.scopes|
  {
    WithIvars(WithMethod(st, s, ToS(At(e, 1))), s, IvarNames(At(e, 3)))
  }

  // ---------------------------------------------------------------------
  // attr_accessor, attr_reader, attr_writer

  predicate IsAttrKind(n: Node) {
    IsSym(n, "attr_accessor") || IsSym(n, "attr_reader") || IsSym(n, "attr_writer")
  }

  /** `(call attr_* entries)` */
  predicate IsAttrCall(e: seq<Node>) {
    Tagged(e, "call") && IsAttrKind(At(e, 1))
  }

  /** `arr`: the entries, a single bare entry taken as a one-element list. */
  function AttrEntries(e: seq<Node>): seq<Node> {
    if At(e, 2).List? then At(e, 2).items else [At(e, 2)]
  }

  /** The method name an entry declares: `:":foo"` declares `foo`. */
  function AttrName(entry: Node): string {
    Drop1(EntryText(entry))
  }

  /** The method names the entries declare, in order. */
  function AttrNames(arr: seq<Node>): (r: seq<string>)
    ensures |r| == |arr| && forall i :: 0 <= i < |arr| ==> r[i] == AttrName(arr[i])
  {
    seq(|arr|, i requires 0 <= i < |arr| => AttrName(arr[i]))
  }

  /** The instance variables the entries declare, `@` and the method name. */
  function AttrIvars(arr: seq<Node>): (r: seq<string>)
    ensures |r| == |arr| && forall i :: 0 <= i < |arr| ==> r[i] == "@" + AttrName(arr[i])
  {
    seq(|arr|, i requires 0 <= i < |arr| => "@" + AttrName(arr[i]))
  }

  /** The registration loop (transform.rb:444-447) on the scope object `sc`
      it updates. Each turn adds to the method table and to the ivar set, and
      neither addition looks at the other table, so the loop leaves each
      table as if it had been filled on its own. */
  function AttrRegister(arr: seq<Node>, sc: Scope): Scope {
    sc.(vtable := AddAll(sc.vtable, AttrNames(arr)), ivars := AddAll(sc.ivars, AttrIvars(arr)))
  }

  /** `(defm m () (@m))` */
  function Getter(m: Name): Node {
    List([Sym("defm"), Sym(m), List([]), List([Sym("@" + m)])])
  }

  /** `(defm m= (value) ((assign @m value)))` */
  function Setter(m: string): Node {
    List([Sym("defm"), Sym(m + "="), List([Sym("value")]),
      List([List([Sym("assign"), Sym("@" + m), Sym("value")])])])
  }

  predicate Reads(kind: string) { kind == "attr_reader" || kind == "attr_accessor" }
  predicate Writes(kind: string) { kind == "attr_writer" || kind == "attr_accessor" }

  /** The methods one entry expands into. */
  function EntryDefs(kind: string, m: string): seq<Node> {
    (if Reads(kind) && |m| > 0 then [Getter(m)] else []) + (if Writes(kind) then [Setter(m)] else [])
  }

  /** The expansion loop (transform.rb:457-465) over `syms`. */
  function AccessorDefs(kind: string, syms: seq<Node>): seq<Node> {
    if syms == [] then []
    else AccessorDefs(kind, syms[..|syms| - 1]) + EntryDefs(kind, AttrName(syms[|syms| - 1]))
  }

  /** The expansion as written: `syms = e[2]` and `syms.each`, which raises
      (None) unless `e[2]` is an array. */
  function AttrDefsAsWritten(e: seq<Node>): Option<seq<Node>>
    requires IsAttrCall(e)
  {
    if At(e, 2).List? then Some(AccessorDefs(At(e, 1).name, At(e, 2).items)) else None
  }

  /** The expansion as intended: over the same entries the registration uses. */
  function AttrDefs(e: seq<Node>): seq<Node>
    requires IsAttrCall(e)
  {
    AccessorDefs(At(e, 1).name, AttrEntries(e))
  }

  /** An attribute declaration (transform.rb:435-466): its entries are
      registered, and the node becomes `(do getters-and-setters...)`. */
  function AttrNode(e: seq<Node>, s: nat, st: State): (Node, State)
    requires IsAttrCall(e) && s < |st.scopes|
  {
    var arr := AttrEntries(e);
    (List([Sym("do")] + AttrDefs(e)), st.(scopes := st.scopes[s := AttrRegister(arr, st.scopes[s])]))
  }

  // ---------------------------------------------------------------------
  // class and module

  /** Registration of scope `id` under name `c` (transform.rb:471-473):
      in `@classes`, in the global scope's constants and in the constants of
      the scope `s` it was opened in. */
  function Register(st: State, s: nat, c: string, id: nat): (r: State)
    requires Inv(st) && s < |st.scopes| && id < |st.scopes|
  {
    var st1 := st.(classes := st.classes[c := id]);
    WithConstant(WithConstant(st1, st1.global, c, id), s, c, id)
  }

  /** `@classes[c]`, or a new scope of kind `kind` made by `fresh`. */
  function Open(st: State, s: nat, kind: Kind, c: string, sup: Option<nat>): (r: State)
    requires Inv(st) && s < |st.scopes|
    ensures Inv(r) && c in r.classes && |st.scopes| <= |r.scopes|
  {
    if c in st.classes then Register(st, s, c, st.classes[c])
    else
      var st1 := st.(scopes := st.scopes + [Scope(kind, c, s, sup, [], [], map[])]);
      Register(st1, s, c, |st.scopes|)
  }

  /** `@classes[e[2].to_sym]`: the scope of a class's superclass, when known. */
  function ClassSuper(e: seq<Node>, st: State): Option<nat> {
    var sname := ToS(At(e, 2));
    if sname in st.classes then Some(st.classes[sname]) else None
  }

  /** `@classes[:Object]`: the superclass scope of a new module. */
  function ModuleSuper(st: State): Option<nat> {
    if "Object" in st.classes then Some(st.classes["Object"]) else None
  }

  /** `class` (transform.rb:467-475): the superclass is looked up before the
      class itself, which is re-used when its name is known. */
  function OpenClass(e: seq<Node>, s: nat, st: State): (r: State)
    requires Inv(st) && s < |st.scopes|
    ensures Inv(r) && ToS(At(e, 1)) in r.classes && |st.scopes| <= |r.scopes|
  {
    Open(st, s, ClassKind, ToS(At(e, 1)), ClassSuper(e, st))
  }

  /** `module` (transform.rb:476-482). */
  function OpenModule(e: seq<Node>, s: nat, st: State): (r: State)
    requires Inv(st) && s < |st.scopes|
    ensures Inv(r) && ToS(At(e, 1)) in r.classes && |st.scopes| <= |r.scopes|
  {
    Open(st, s, ModuleKind, ToS(At(e, 1)), ModuleSuper(st))
  }

  // ---------------------------------------------------------------------
  // build_class_scopes

  /** `build_class_scopes(exps, scope)`: nothing for an atom; otherwise every
      element of `exps` that is an array is handled in turn (`BuildNode`).
      The result is the tree as the pass leaves it and the new state. */
  function Build(exps: Node, s: nat, st: State): (r: (Node, State))
    requires Inv(st) && s < |st.scopes|
    ensures Inv(r.1) && |st.scopes| <= |r.1.scopes|
    decreases Size(exps), 3
  {
    match exps
    case List(items) =>
      ChildrenSmaller(items);
      var p := BuildItems(items, |items|, s, st, Size(exps));
      (List(p.0), p.1)
    case _ => (exps, st)
  }

  /** The loop `exps.each` over the first `k` elements. */
  function BuildItems(items: seq<Node>, k: nat, s: nat, st: State, bound: nat): (r: (seq<Node>, State))
    requires k <= |items| && forall j :: 0 <= j < |items| ==> Size(items[j]) < bound
    requires Inv(st) && s < |st.scopes|
    ensures |r.0| == k && Inv(r.1) && |st.scopes| <= |r.1.scopes|
    decreases bound, 2, k
  {
    if k == 0 then ([], st)
    else
      var p := BuildItems(items, k - 1, s, st, bound);
      var x := if items[k - 1].List? then BuildNode(items[k - 1].items, s, p.1) else (items[k - 1], p.1);
      (p.0 + [x.0], x.1)
  }

  /** The block on one array element `e` (transform.rb:426-486). */
  function BuildNode(e: seq<Node>, s: nat, st: State): (r: (Node, State))
    requires Inv(st) && s < |st.scopes|
    ensures Inv(r.1) && |st.scopes| <= |r.1.scopes|
    decreases Size(List(e)), 2
  {
    if Tagged(e, "defm") && InModule(st, s) then (List(e), ScanDefm(e, s, st))
    else if IsAttrCall(e) then AttrNode(e, s, st)
    else if Tagged(e, "class") then ClassNode(e, s, st)
    else if Tagged(e, "module") then ModuleNode(e, s, st)
    else if Tagged(e, "sexp") then (List(e), st)
    else Children(e, s, st)
  }

  /** Any other array: its elements after the first, each built in turn. */
  function Children(e: seq<Node>, s: nat, st: State): (r: (Node, State))
    requires Inv(st) && s < |st.scopes|
    ensures Inv(r.1) && |st.scopes| <= |r.1.scopes|
    decreases Size(List(e)), 1
  {
    ChildrenSmaller(e);
    var p := BuildChildren(e, |e|, s, st, Size(List(e)));
    (List(p.0), p.1)
  }

  /** `(e[1..-1] || []).each { |x| build_class_scopes(x, scope) }` over
      positions 1 to `k - 1`; element 0 is kept. */
  function BuildChildren(e: seq<Node>, k: nat, s: nat, st: State, bound: nat): (r: (seq<Node>, State))
    requires k <= |e| && forall j :: 0 <= j < |e| ==> Size(e[j]) < bound
    requires Inv(st) && s < |st.scopes|
    ensures |r.0| == k && Inv(r.1) && |st.scopes| <= |r.1.scopes|
    decreases bound, 0, k
  {
    if k <= 1 then (e[..k], st)
    else
      var p := BuildChildren(e, k - 1, s, st, bound);
      var x := Build(e[k - 1], s, p.1);
      (p.0 + [x.0], x.1)
  }

  /** The body `e[3]` is built in the class's scope and put back in place. */
  function ClassNode(e: seq<Node>, s: nat, st: State): (r: (Node, State))
    requires Inv(st) && s < |st.scopes| && Tagged(e, "class")
    ensures Inv(r.1) && |st.scopes| <= |r.1.scopes|
    decreases Size(List(e)), 1
  {
    var st1 := OpenClass(e, s, st);
    BodyIn(e, st1.classes[ToS(At(e, 1))], st1)
  }

  function ModuleNode(e: seq<Node>, s: nat, st: State): (r: (Node, State))
    requires Inv(st) && s < |st.scopes| && Tagged(e, "module")
    ensures Inv(r.1) && |st.scopes| <= |r.1.scopes|
    decreases Size(List(e)), 1
  {
    var st1 := OpenModule(e, s, st);
    BodyIn(e, st1.classes[ToS(At(e, 1))], st1)
  }

  /** `build_class_scopes(e[3], cscope)`. */
  function BodyIn(e: seq<Node>, id: nat, st: State): (r: (Node, State))
    requires Inv(st) && id < |st.scopes| && |e| > 0
    ensures Inv(r.1) && |st.scopes| <= |r.1.scopes|
    decreases Size(List(e)), 0
  {
    if |e| > 3 then
      ChildSmaller(e, 3);
      var b := Build(e[3], id, st);
      (List(e[3 := b.0]), b.1)
    else (List(e), st)
  }

  /** `setup_global_scope(exp)` (transform.rb:526-529): a fresh global scope,
      then the builder over the whole program in it. */
  function Setup(exp: Node, st: State): (r: (Node, State))
    requires forall c :: c in st.classes ==> st.classes[c] < |st.scopes|
    ensures Inv(r.1)
  {
    var st1 := State(st.scopes + [Scope(GlobalKind, "", |st.scopes|, None, [], [], map[])], st.classes, |st.scopes|);
    Build(exp, st1.global, st1)
  }

  // ---------------------------------------------------------------------
  // What the builder keeps

  /** Scope `y` is scope `x` later: the same kind, name, parent and
      superclass, its tables extended at the end, no constant dropped. */
  predicate Kept(x: Scope, y: Scope) {
    && y.kind == x.kind && y.name == x.name && y.parent == x.parent && y.superclass == x.superclass
    && |x.vtable| <= |y.vtable| && y.vtable[..|x.vtable|] == x.vtable
    && |x.ivars| <= |y.ivars| && y.ivars[..|x.ivars|] == x.ivars
    && forall c :: c in x.constants ==> c in y.constants
  }

  /** State `b` is state `a` later: no scope object is lost or changes
      identity, and a name in `@classes` keeps its scope. */
  predicate Grows(a: State, b: State) {
    && |a.scopes| <= |b.scopes| && b.global == a.global
    && (forall c :: c in a.classes ==> c in b.classes && b.classes[c] == a.classes[c])
    && forall i {:trigger Kept(a.scopes[i], b.scopes[i])} :: 0 <= i < |a.scopes| ==> Kept(a.scopes[i], b.scopes[i])
  }

  /** Every constant any scope holds names the scope `@classes` gives for it. */
  predicate Agree(st: State) {
    forall i, c :: 0 <= i < |st.scopes| && c in st.scopes[i].constants ==>
      c in st.classes && st.scopes[i].constants[c] == st.classes[c]
  }

  /** Every scope `@classes` gives for a name carries that name, so that
      `cscope.name.to_sym`, the key the source registers a scope under
      (transform.rb:471-472, 478-479), is the name it was opened by. */
  predicate Named(st: State) {
    forall c :: c in st.classes && st.classes[c] < |st.scopes| ==> st.scopes[st.classes[c]].name == c
  }

  /** One step of the builder: it grows the state and keeps the agreement
      and the naming. */
  predicate Step(a: State, b: State) {
    Grows(a, b) && (Agree(a) ==> Agree(b)) && (Named(a) ==> Named(b))
  }

  lemma KeptTrans(x: Scope, y: Scope, z: Scope)
    requires Kept(x, y) && Kept(y, z)
    ensures Kept(x, z)
  {
    assert z.vtable[..|x.vtable|] == z.vtable[..|y.vtable|][..|x.vtable|];
    assert z.ivars[..|x.ivars|] == z.ivars[..|y.ivars|][..|x.ivars|];
  }

  lemma StepTrans(a: State, b: State, c: State)
    requires Step(a, b) && Step(b, c)
    ensures Step(a, c)
  {
    forall i | 0 <= i < |a.scopes| ensures Kept(a.scopes[i], c.scopes[i]) {
      KeptTrans(a.scopes[i], b.scopes[i], c.scopes[i]);
    }
  }

  lemma StepRefl(a: State)
    ensures Step(a, a)
  {
  }

  lemma WithMethodStep(st: State, s: nat, m: string)
    requires s < |st.scopes|
    ensures Step(st, WithMethod(st, s, m))
  {
  }

  lemma ScanDefmStep(e: seq<Node>, s: nat, st: State)
    requires s < |st.scopes|
    ensures Step(st, ScanDefm(e, s, st))
  {
    var st1 := WithMethod(st, s, ToS(At(e, 1)));
    WithMethodStep(st, s, ToS(At(e, 1)));
    AddAllSpec(st1.scopes[s].ivars, IvarNames(At(e, 3)));
    UpdateStep(st1, s, ScanDefm(e, s, st).scopes[s]);
    assert ScanDefm(e, s, st) == st1.(scopes := st1.scopes[s := ScanDefm(e, s, st).scopes[s]]);
    StepTrans(st, st1, ScanDefm(e, s, st));
  }

  /** Replacing a scope object by a later one with the same constants is a step. */
  lemma UpdateStep(st: State, s: nat, sc: Scope)
    requires s < |st.scopes| && Kept(st.scopes[s], sc) && sc.constants == st.scopes[s].constants
    ensures Step(st, st.(scopes := st.scopes[s := sc]))
  {
  }

  /** Registering `c` keeps the agreement when `c` is new or already names `id`. */
  lemma RegisterStep(st: State, s: nat, c: string, id: nat)
    requires Inv(st) && s < |st.scopes| && id < |st.scopes|
    requires c in st.classes ==> st.classes[c] == id
    requires Named(st) ==> st.scopes[id].name == c
    ensures Step(st, Register(st, s, c, id))
    ensures var r := Register(st, s, c, id);
      && c in r.classes && r.classes[c] == id
      && c in r.scopes[r.global].constants && c in r.scopes[s].constants
  {
    var r := Register(st, s, c, id);
    if Agree(st) {
      forall i, x | 0 <= i < |r.scopes| && x in r.scopes[i].constants
        ensures x in r.classes && r.scopes[i].constants[x] == r.classes[x]
      {
        if x != c {
          assert x in st.scopes[i].constants;
        }
      }
    }
  }

  lemma OpenStep(st: State, s: nat, kind: Kind, c: string, sup: Option<nat>)
    requires Inv(st) && s < |st.scopes|
    ensures Step(st, Open(st, s, kind, c, sup))
    ensures var r := Open(st, s, kind, c, sup);
      && c in r.scopes[r.global].constants && c in r.scopes[s].constants
      && (Named(st) ==> r.scopes[r.classes[c]].name == c)
      && (c in st.classes ==> |r.scopes| == |st.scopes|)
      && (c !in st.classes ==>
            |r.scopes| == |st.scopes| + 1 && r.classes[c] == |st.scopes|
            && r.scopes[|st.scopes|] == Scope(kind, c, s, sup, [], [], map[]))
  {
    if c in st.classes {
      RegisterStep(st, s, c, st.classes[c]);
    } else {
      var st1 := st.(scopes := st.scopes + [Scope(kind, c, s, sup, [], [], map[])]);
      assert Step(st, st1);
      RegisterStep(st1, s, c, |st.scopes|);
      StepTrans(st, st1, Open(st, s, kind, c, sup));
    }
  }

  lemma {:induction false} BuildStep(exps: Node, s: nat, st: State)
    requires Inv(st) && s < |st.scopes|
    ensures Step(st, Build(exps, s, st).1)
    decreases Size(exps), 3
  {
    match exps
    case List(items) =>
      ChildrenSmaller(items);
      BuildItemsStep(items, |items|, s, st, Size(exps));
    case _ =>
      StepRefl(st);
  }

  lemma {:induction false} BuildItemsStep(items: seq<Node>, k: nat, s: nat, st: State, bound: nat)
    requires k <= |items| && forall j :: 0 <= j < |items| ==> Size(items[j]) < bound
    requires Inv(st) && s < |st.scopes|
    ensures Step(st, BuildItems(items, k, s, st, bound).1)
    decreases bound, 2, k
  {
    if k == 0 {
      StepRefl(st);
    } else {
      var p := BuildItems(items, k - 1, s, st, bound);
      BuildItemsStep(items, k - 1, s, st, bound);
      if items[k - 1].List? {
        BuildNodeStep(items[k - 1].items, s, p.1);
        StepTrans(st, p.1, BuildNode(items[k - 1].items, s, p.1).1);
      }
    }
  }

  lemma {:induction false} BuildNodeStep(e: seq<Node>, s: nat, st: State)
    requires Inv(st) && s < |st.scopes|
    ensures Step(st, BuildNode(e, s, st).1)
    decreases Size(List(e)), 2
  {
    var r := BuildNode(e, s, st).1;
    if Tagged(e, "defm") && InModule(st, s) {
      ScanDefmStep(e, s, st);
    } else if IsAttrCall(e) {
      AttrNodeStep(e, s, st);
    } else if Tagged(e, "class") {
      ClassNodeStep(e, s, st);
    } else if Tagged(e, "module") {
      ModuleNodeStep(e, s, st);
    } else if Tagged(e, "sexp") {
      StepRefl(st);
    } else {
      ChildrenSmaller(e);
      BuildChildrenStep(e, |e|, s, st, Size(List(e)));
    }
  }

  lemma AttrNodeStep(e: seq<Node>, s: nat, st: State)
    requires Inv(st) && s < |st.scopes| && IsAttrCall(e)
    ensures Step(st, AttrNode(e, s, st).1)
  {
    var arr := AttrEntries(e);
    AddAllSpec(st.scopes[s].vtable, AttrNames(arr));
    AddAllSpec(st.scopes[s].ivars, AttrIvars(arr));
    UpdateStep(st, s, AttrRegister(arr, st.scopes[s]));
  }

  lemma {:induction false} ClassNodeStep(e: seq<Node>, s: nat, st: State)
    requires Inv(st) && s < |st.scopes| && Tagged(e, "class")
    ensures Step(st, ClassNode(e, s, st).1)
    decreases Size(List(e)), 1
  {
    var st1 := OpenClass(e, s, st);
    OpenStep(st, s, ClassKind, ToS(At(e, 1)), ClassSuper(e, st));
    BodyInStep(e, st1.classes[ToS(At(e, 1))], st1);
    StepTrans(st, st1, ClassNode(e, s, st).1);
  }

  lemma {:induction false} ModuleNodeStep(e: seq<Node>, s: nat, st: State)
    requires Inv(st) && s < |st.scopes| && Tagged(e, "module")
    ensures Step(st, ModuleNode(e, s, st).1)
    decreases Size(List(e)), 1
  {
    var st1 := OpenModule(e, s, st);
    OpenStep(st, s, ModuleKind, ToS(At(e, 1)), ModuleSuper(st));
    BodyInStep(e, st1.classes[ToS(At(e, 1))], st1);
    StepTrans(st, st1, ModuleNode(e, s, st).1);
  }

  lemma {:induction false} BuildChildrenStep(e: seq<Node>, k: nat, s: nat, st: State, bound: nat)
    requires k <= |e| && forall j :: 0 <= j < |e| ==> Size(e[j]) < bound
    requires Inv(st) && s < |st.scopes|
    ensures Step(st, BuildChildren(e, k, s, st, bound).1)
    decreases bound, 0, k
  {
    if k <= 1 {
      StepRefl(st);
    } else {
      var p := BuildChildren(e, k - 1, s, st, bound);
      BuildChildrenStep(e, k - 1, s, st, bound);
      BuildStep(e[k - 1], s, p.1);
      StepTrans(st, p.1, Build(e[k - 1], s, p.1).1);
    }
  }

  lemma {:induction false} BodyInStep(e: seq<Node>, id: nat, st: State)
    requires Inv(st) && id < |st.scopes| && |e| > 0
    ensures Step(st, BodyIn(e, id, st).1)
    decreases Size(List(e)), 0
  {
    if |e| > 3 {
      ChildSmaller(e, 3);
      BuildStep(e[3], id, st);
    } else {
      StepRefl(st);
    }
  }

  /** `setup_global_scope` makes a fresh global scope, which the whole
      program is built in; the scopes and the names known before keep their
      identity, and when every constant agreed with `@classes` before, every
      constant still does afterwards. */
  lemma SetupSpec(exp: Node, st: State)
    requires forall c :: c in st.classes ==> st.classes[c] < |st.scopes|
    ensures var r := Setup(exp, st).1;
      && r.global == |st.scopes| < |r.scopes| && r.scopes[r.global].kind == GlobalKind
      && (forall c :: c in st.classes ==> c in r.classes && r.classes[c] == st.classes[c])
      && (forall i :: 0 <= i < |st.scopes| ==> Kept(st.scopes[i], r.scopes[i]))
      && (Agree(st) ==> Agree(r))
      && (Named(st) ==> Named(r))
  {
    var st1 := State(st.scopes + [Scope(GlobalKind, "", |st.scopes|, None, [], [], map[])], st.classes, |st.scopes|);
    BuildStep(exp, st1.global, st1);
    var r := Setup(exp, st).1;
    assert Grows(st1, r);
    forall i | 0 <= i < |st.scopes| ensures Kept(st.scopes[i], r.scopes[i]) {
      assert st1.scopes[i] == st.scopes[i];
      assert Kept(st1.scopes[i], r.scopes[i]);
    }
    assert Kept(st1.scopes[st1.global], r.scopes[st1.global]);
  }

  // ---------------------------------------------------------------------
  // What each kind of element does

  /** What opening `c` in scope `s` leaves in the later state `r`: `c` names a
      scope, the one it named before when it was known, else a new scope of
      `kind` opened in `s` with superclass `sup`; `c` is a constant of the
      global scope and of `s`, and, when every constant agreed with
      `@classes` before, both constants name that scope. When every scope
      was named by its key before, the scope `c` names is named `c`: the
      source's key `cscope.name` is `c`, and `Named` holds after. */
  predicate Opened(st: State, r: State, s: nat, kind: Kind, c: string, sup: Option<nat>) {
    && c in r.classes && r.classes[c] < |r.scopes| && r.global < |r.scopes| && s < |r.scopes|
    && (c in st.classes ==> r.classes[c] == st.classes[c])
    && (c !in st.classes ==>
          && r.classes[c] == |st.scopes|
          && r.scopes[|st.scopes|].kind == kind && r.scopes[|st.scopes|].name == c
          && r.scopes[|st.scopes|].parent == s && r.scopes[|st.scopes|].superclass == sup)
    && c in r.scopes[r.global].constants && c in r.scopes[s].constants
    && (Agree(st) ==>
          r.scopes[r.global].constants[c] == r.classes[c] && r.scopes[s].constants[c] == r.classes[c])
    && (Named(st) ==> r.scopes[r.classes[c]].name == c && Named(r))
  }

  lemma OpenedBody(e: seq<Node>, s: nat, kind: Kind, c: string, sup: Option<nat>, st: State)
    requires Inv(st) && s < |st.scopes| && |e| > 0
    ensures var st1 := Open(st, s, kind, c, sup);
      Opened(st, BodyIn(e, st1.classes[c], st1).1, s, kind, c, sup)
  {
    var st1 := Open(st, s, kind, c, sup);
    OpenStep(st, s, kind, c, sup);
    var r := BodyIn(e, st1.classes[c], st1).1;
    BodyInStep(e, st1.classes[c], st1);
    var id := st1.classes[c];
    assert Kept(st1.scopes[id], r.scopes[id]);
    assert Kept(st1.scopes[st1.global], r.scopes[st1.global]);
    assert Kept(st1.scopes[s], r.scopes[s]);
  }

  /** A `class` element (transform.rb:467-475): its name is registered as
      `Opened` says, and only its body `e[3]` is rewritten. */
  lemma ClassRegistered(e: seq<Node>, s: nat, st: State)
    requires Inv(st) && s < |st.scopes| && Tagged(e, "class")
    ensures Opened(st, BuildNode(e, s, st).1, s, ClassKind, ToS(At(e, 1)), ClassSuper(e, st))
    ensures var t := BuildNode(e, s, st).0;
      t.List? && |t.items| == |e| && forall j :: 0 <= j < |e| && j != 3 ==> t.items[j] == e[j]
  {
    assert BuildNode(e, s, st) == ClassNode(e, s, st);
    OpenedBody(e, s, ClassKind, ToS(At(e, 1)), ClassSuper(e, st), st);
  }

  /** A `module` element (transform.rb:476-482): as for a class, with a new
      module's superclass the scope of `Object`. */
  lemma ModuleRegistered(e: seq<Node>, s: nat, st: State)
    requires Inv(st) && s < |st.scopes| && Tagged(e, "module")
    ensures Opened(st, BuildNode(e, s, st).1, s, ModuleKind, ToS(At(e, 1)), ModuleSuper(st))
    ensures var t := BuildNode(e, s, st).0;
      t.List? && |t.items| == |e| && forall j :: 0 <= j < |e| && j != 3 ==> t.items[j] == e[j]
  {
    assert BuildNode(e, s, st) == ModuleNode(e, s, st);
    OpenedBody(e, s, ModuleKind, ToS(At(e, 1)), ModuleSuper(st), st);
  }

  /** Some node of `vs` holds an ivar symbol named `v`. */
  predicate HoldsIvar(vs: seq<seq<Node>>, v: string) {
    exists xs: seq<Node>, j :: xs in vs && 0 <= j < |xs| && IsIvar(xs[j]) && xs[j].name == v
  }

  /** The instance variables of a sequence of visited nodes are exactly the
      names of the ivar symbols among their elements. */
  lemma {:induction false} NodesIvarsSpec(vs: seq<seq<Node>>)
    ensures forall v :: v in NodesIvars(vs) <==> HoldsIvar(vs, v)
  {
    if vs != [] {
      var p := vs[..|vs| - 1];
      var x := vs[|vs| - 1];
      NodesIvarsSpec(p);
      ItemIvarsSpec(x);
      assert vs == p + [x];
      forall v | v in NodesIvars(vs) ensures HoldsIvar(vs, v) {
        if v in NodesIvars(p) {
          var xs: seq<Node>, j :| xs in p && 0 <= j < |xs| && IsIvar(xs[j]) && xs[j].name == v;
          assert xs in vs;
        } else {
          assert v in ItemIvars(x);
          var j :| 0 <= j < |x| && IsIvar(x[j]) && x[j].name == v;
          assert x in vs;
        }
      }
      forall v | HoldsIvar(vs, v) ensures v in NodesIvars(vs) {
        var xs: seq<Node>, j :| xs in vs && 0 <= j < |xs| && IsIvar(xs[j]) && xs[j].name == v;
        if xs in p {
          assert HoldsIvar(p, v);
        } else {
          assert xs == x;
          assert v in ItemIvars(x);
        }
      }
    }
  }

  /** A `defm` in a class or module (transform.rb:427-434): the tree is kept,
      no other scope changes, the method joins the method table and the ivar
      set gains exactly the ivar symbols found anywhere in the body `e[3]`. */
  lemma DefmRegisters(e: seq<Node>, s: nat, st: State)
    requires Inv(st) && s < |st.scopes| && Tagged(e, "defm") && InModule(st, s)
    ensures var r := BuildNode(e, s, st);
      && r.0 == List(e) && r.1.classes == st.classes && r.1.global == st.global
      && |r.1.scopes| == |st.scopes|
      && (forall i :: 0 <= i < |st.scopes| && i != s ==> r.1.scopes[i] == st.scopes[i])
      && r.1.scopes[s].constants == st.scopes[s].constants
      && (forall m :: m in r.1.scopes[s].vtable <==> m in st.scopes[s].vtable || m == ToS(At(e, 1)))
      && forall v :: v in r.1.scopes[s].ivars <==>
           v in st.scopes[s].ivars || HoldsIvar(Visited(At(e, 3), ""), v)
  {
    NodesIvarsSpec(Visited(At(e, 3), ""));
    AddAllSpec(WithMethod(st, s, ToS(At(e, 1))).scopes[s].ivars, IvarNames(At(e, 3)));
  }

  lemma AttrNamesIn(arr: seq<Node>)
    ensures forall m :: m in AttrNames(arr) <==> exists i :: 0 <= i < |arr| && m == AttrName(arr[i])
    ensures forall v :: v in AttrIvars(arr) <==> exists i :: 0 <= i < |arr| && v == "@" + AttrName(arr[i])
  {
    var names := AttrNames(arr);
    var ivs := AttrIvars(arr);
    forall m ensures m in names <==> exists i :: 0 <= i < |arr| && m == AttrName(arr[i]) {
      if m in names {
        var i :| 0 <= i < |names| && names[i] == m;
      }
    }
    forall v ensures v in ivs <==> exists i :: 0 <= i < |arr| && v == "@" + AttrName(arr[i]) {
      if v in ivs {
        var i :| 0 <= i < |ivs| && ivs[i] == v;
      }
    }
  }

  /** An attribute declaration (transform.rb:435-466): the node becomes
      `(do ...)` of the accessor methods, no other scope changes, and the
      method table and the ivar set gain exactly the declared names. */
  lemma AttrRegisters(e: seq<Node>, s: nat, st: State)
    requires Inv(st) && s < |st.scopes| && IsAttrCall(e)
    ensures var r := BuildNode(e, s, st); var arr := AttrEntries(e);
      && r.0 == List([Sym("do")] + AttrDefs(e)) && r.1.classes == st.classes && r.1.global == st.global
      && |r.1.scopes| == |st.scopes|
      && (forall i :: 0 <= i < |st.scopes| && i != s ==> r.1.scopes[i] == st.scopes[i])
      && r.1.scopes[s].constants == st.scopes[s].constants
      && (forall m :: m in r.1.scopes[s].vtable <==>
            m in st.scopes[s].vtable || exists i :: 0 <= i < |arr| && m == AttrName(arr[i]))
      && forall v :: v in r.1.scopes[s].ivars <==>
           v in st.scopes[s].ivars || exists i :: 0 <= i < |arr| && v == "@" + AttrName(arr[i])
  {
    var arr := AttrEntries(e);
    assert BuildNode(e, s, st) == AttrNode(e, s, st);
    AddAllSpec(st.scopes[s].vtable, AttrNames(arr));
    AddAllSpec(st.scopes[s].ivars, AttrIvars(arr));
    AttrNamesIn(arr);
  }

  // ---------------------------------------------------------------------
  // The accessor methods

  /** The expansion is exactly the methods of each entry, in turn. */
  lemma {:induction false} AccessorDefsFrom(kind: string, syms: seq<Node>, d: Node)
    requires d in AccessorDefs(kind, syms)
    ensures exists i :: 0 <= i < |syms| && d in EntryDefs(kind, AttrName(syms[i]))
  {
    var p := syms[..|syms| - 1];
    if d in AccessorDefs(kind, p) {
      AccessorDefsFrom(kind, p, d);
      var i :| 0 <= i < |p| && d in EntryDefs(kind, AttrName(p[i]));
      assert p[i] == syms[i];
    } else {
      assert d in EntryDefs(kind, AttrName(syms[|syms| - 1]));
    }
  }

  lemma {:induction false} AccessorDefsHas(kind: string, syms: seq<Node>, i: nat, d: Node)
    requires i < |syms| && d in EntryDefs(kind, AttrName(syms[i]))
    ensures d in AccessorDefs(kind, syms)
  {
    var p := syms[..|syms| - 1];
    if i < |p| {
      assert p[i] == syms[i];
      AccessorDefsHas(kind, p, i, d);
    }
  }

  lemma AccessorDefsSpec(kind: string, syms: seq<Node>)
    ensures forall d :: d in AccessorDefs(kind, syms) <==>
      exists i :: 0 <= i < |syms| && d in EntryDefs(kind, AttrName(syms[i]))
  {
    forall d ensures d in AccessorDefs(kind, syms) <==>
      exists i :: 0 <= i < |syms| && d in EntryDefs(kind, AttrName(syms[i]))
    {
      if d in AccessorDefs(kind, syms) {
        AccessorDefsFrom(kind, syms, d);
      }
      if exists i :: 0 <= i < |syms| && d in EntryDefs(kind, AttrName(syms[i])) {
        var i :| 0 <= i < |syms| && d in EntryDefs(kind, AttrName(syms[i]));
        AccessorDefsHas(kind, syms, i, d);
      }
    }
  }

  lemma SetterInjective(a: string, b: string)
    requires Setter(a) == Setter(b)
    ensures a == b
  {
    assert a + "=" == b + "=";
    assert a == (a + "=")[..|a|];
  }

  /** One entry's methods: a getter `m` exactly for a reader with a
      non-empty name, a setter `m=` exactly for a writer. */
  lemma EntryDefsSpec(kind: string, x: string, m: Name)
    ensures Getter(m) in EntryDefs(kind, x) <==> Reads(kind) && x == m
    ensures Setter(m) in EntryDefs(kind, x) <==> Writes(kind) && x == m
  {
    assert Getter(m) != Setter(x) by {
      assert Getter(m).items[2] != Setter(x).items[2];
    }
    if Setter(m) in EntryDefs(kind, x) {
      assert Setter(m) == Setter(x) by {
        if |x| > 0 {
          assert Setter(m) != Getter(x) by {
            assert Getter(x).items[2] != Setter(m).items[2];
          }
        }
      }
      SetterInjective(m, x);
    }
  }

  /** The accessors of an attribute declaration: `m` gets a getter exactly
      when the declaration reads and some entry names `m`, and a setter
      `m=` exactly when it writes and some entry names `m`. */
  lemma AccessorMethods(kind: string, syms: seq<Node>, m: Name)
    ensures Getter(m) in AccessorDefs(kind, syms) <==>
      Reads(kind) && exists i :: 0 <= i < |syms| && AttrName(syms[i]) == m
    ensures Setter(m) in AccessorDefs(kind, syms) <==>
      Writes(kind) && exists i :: 0 <= i < |syms| && AttrName(syms[i]) == m
  {
    AccessorDefsSpec(kind, syms);
    forall i | 0 <= i < |syms| {
      EntryDefsSpec(kind, AttrName(syms[i]), m);
    }
  }

  /** A declaration with a single bare entry, `attr_reader :foo`: the
      expansion as written raises, though the registration loop just before
      it treats the entry as a one-element list and registers `foo`; the
      intended expansion is the getter `foo`. */
  lemma BareAttrEntry()
    ensures var e := [Sym("call"), Sym("attr_reader"), Sym(":foo")];
      && AttrDefsAsWritten(e) == None
      && AttrDefs(e) == [Getter("foo")]
      && "foo" in AttrRegister(AttrEntries(e), Scope(ClassKind, "C", 0, None, [], [], map[])).vtable
  {
    var e := [Sym("call"), Sym("attr_reader"), Sym(":foo")];
    assert AttrEntries(e) == [Sym(":foo")];
    assert AttrName(Sym(":foo")) == "foo";
    assert AttrDefs(e) == AccessorDefs("attr_reader", [Sym(":foo")]);
    assert AccessorDefs("attr_reader", [Sym(":foo")]) == AccessorDefs("attr_reader", []) + EntryDefs("attr_reader", "foo");
    assert AttrNames([Sym(":foo")])[0] == "foo";
  }

  // ---------------------------------------------------------------------
  // The tree the builder leaves

  /** The property of a node of not being an attribute declaration. */
  function NoAttrCall(): seq<Node> -> bool {
    items => !IsAttrCall(items)
  }

  /** Attribute declarations are the only nodes the builder replaces: a
      program without any is left exactly as it was. */
  lemma {:induction false} BuildKeeps(exps: Node, s: nat, st: State)
    requires Inv(st) && s < |st.scopes| && Everywhere(exps, "", NoAttrCall())
    ensures Build(exps, s, st).0 == exps
    decreases Size(exps), 3
  {
    match exps
    case List(items) =>
      ChildrenSmaller(items);
      EverywhereSplit(items, "", NoAttrCall());
      BuildItemsKeeps(items, |items|, s, st, Size(exps));
      assert items[..|items|] == items;
    case _ =>
  }

  lemma {:induction false} BuildItemsKeeps(items: seq<Node>, k: nat, s: nat, st: State, bound: nat)
    requires k <= |items| && forall j :: 0 <= j < |items| ==> Size(items[j]) < bound
    requires Inv(st) && s < |st.scopes|
    requires forall j :: 0 <= j < |items| ==> Everywhere(items[j], "", NoAttrCall())
    ensures BuildItems(items, k, s, st, bound).0 == items[..k]
    decreases bound, 2, k
  {
    if k > 0 {
      var p := BuildItems(items, k - 1, s, st, bound);
      BuildItemsKeeps(items, k - 1, s, st, bound);
      if items[k - 1].List? {
        BuildNodeKeeps(items[k - 1].items, s, p.1);
      }
      assert items[..k] == items[..k - 1] + [items[k - 1]];
    }
  }

  lemma {:induction false} BuildNodeKeeps(e: seq<Node>, s: nat, st: State)
    requires Inv(st) && s < |st.scopes| && Everywhere(List(e), "", NoAttrCall())
    ensures BuildNode(e, s, st).0 == List(e)
    decreases Size(List(e)), 2
  {
    EverywhereSplit(e, "", NoAttrCall());
    assert !IsAttrCall(e);
    if Tagged(e, "defm") && InModule(st, s) {
    } else if Tagged(e, "class") {
      var st1 := OpenClass(e, s, st);
      assert BuildNode(e, s, st) == ClassNode(e, s, st);
      BodyInKeeps(e, st1.classes[ToS(At(e, 1))], st1);
    } else if Tagged(e, "module") {
      var st1 := OpenModule(e, s, st);
      assert BuildNode(e, s, st) == ModuleNode(e, s, st);
      BodyInKeeps(e, st1.classes[ToS(At(e, 1))], st1);
    } else if Tagged(e, "sexp") {
    } else {
      ChildrenSmaller(e);
      BuildChildrenKeeps(e, |e|, s, st, Size(List(e)));
      assert e[..|e|] == e;
    }
  }

  lemma {:induction false} BuildChildrenKeeps(e: seq<Node>, k: nat, s: nat, st: State, bound: nat)
    requires k <= |e| && forall j :: 0 <= j < |e| ==> Size(e[j]) < bound
    requires Inv(st) && s < |st.scopes|
    requires forall j :: 0 <= j < |e| ==> Everywhere(e[j], "", NoAttrCall())
    ensures BuildChildren(e, k, s, st, bound).0 == e[..k]
    decreases bound, 0, k
  {
    if k > 1 {
      var p := BuildChildren(e, k - 1, s, st, bound);
      BuildChildrenKeeps(e, k - 1, s, st, bound);
      BuildKeeps(e[k - 1], s, p.1);
      assert e[..k] == e[..k - 1] + [e[k - 1]];
    }
  }

  lemma {:induction false} BodyInKeeps(e: seq<Node>, id: nat, st: State)
    requires Inv(st) && id < |st.scopes| && |e| > 0
    requires forall j :: 0 <= j < |e| ==> Everywhere(e[j], "", NoAttrCall())
    ensures BodyIn(e, id, st).0 == List(e)
    decreases Size(List(e)), 0
  {
    if |e| > 3 {
      ChildSmaller(e, 3);
      BuildKeeps(e[3], id, st);
      assert e[3 := e[3]] == e;
    }
  }

  // ---------------------------------------------------------------------
  // The builder as the compiler runs it, updating its tables in place

  lemma AddAllSnoc(a: seq<string>, p: seq<string>, x: string)
    ensures AddAll(a, p + [x]) == Add<string>(AddAll(a, p), x)
  {
    assert (p + [x])[..|p|] == p;
  }

  lemma {:induction false} AddAllAppend(a: seq<string>, xs: seq<string>, ys: seq<string>)
    ensures AddAll(AddAll(a, xs), ys) == AddAll(a, xs + ys)
  {
    if ys == [] {
      assert xs + ys == xs;
    } else {
      var q := ys[..|ys| - 1];
      var y := ys[|ys| - 1];
      AddAllAppend(a, xs, q);
      assert ys == q + [y];
      assert xs + ys == (xs + q) + [y];
      calc {
        AddAll(AddAll(a, xs), ys);
        { AddAllSnoc(AddAll(a, xs), q, y); }
        Add<string>(AddAll(AddAll(a, xs), q), y);
        Add<string>(AddAll(a, xs + q), y);
        { AddAllSnoc(a, xs + q, y); }
        AddAll(a, (xs + q) + [y]);
      }
    }
  }

  lemma WithIvarsAppend(st: State, s: nat, p: seq<string>, q: seq<string>)
    requires s < |st.scopes|
    ensures WithIvars(WithIvars(st, s, p), s, q) == WithIvars(st, s, p + q)
  {
    AddAllAppend(st.scopes[s].ivars, p, q);
  }

  lemma ItemIvarsSnoc(xs: seq<Node>, j: nat)
    requires j < |xs|
    ensures ItemIvars(xs[..j + 1]) == ItemIvars(xs[..j]) + (if IsIvar(xs[j]) then [xs[j].name] else [])
  {
    assert xs[..j + 1][..j] == xs[..j];
  }

  lemma AttrRegisterSnoc(arr: seq<Node>, i: nat, sc: Scope)
    requires i < |arr|
    ensures var m := AttrName(arr[i]); var r := AttrRegister(arr[..i], sc);
      AttrRegister(arr[..i + 1], sc) == r.(vtable := Add<string>(r.vtable, m), ivars := Add<string>(r.ivars, "@" + m))
  {
    var m := AttrName(arr[i]);
    assert AttrNames(arr[..i + 1]) == AttrNames(arr[..i]) + [m];
    assert AttrIvars(arr[..i + 1]) == AttrIvars(arr[..i]) + ["@" + m];
    AddAllSnoc(sc.vtable, AttrNames(arr[..i]), m);
    AddAllSnoc(sc.ivars, AttrIvars(arr[..i]), "@" + m);
  }

  /** The compiler's `@classes` and `@global_scope`, with the scope objects
      they reach held in a store. */
  class ScopeBuilder {
    var scopes: seq<Scope>
    var classes: map<string, nat>
    var global: nat

    function St(): State
      reads this
    {
      State(scopes, classes, global)
    }

    constructor ()
      ensures scopes == [] && classes == map[] && global == 0
    {
      scopes := [];
      classes := map[];
      global := 0;
    }

    /** `scope.add_vtable_entry(m)` */
    method AddVtableEntry(s: nat, m: string)
      requires s < |scopes|
      modifies this
      ensures St() == WithMethod(old(St()), s, m)
    {
      scopes := scopes[s := scopes[s].(vtable := Add<string>(scopes[s].vtable, m))];
    }

    /** `scope.add_ivar(v)` */
    method AddIvar(s: nat, v: string)
      requires s < |scopes|
      modifies this
      ensures St() == WithIvars(old(St()), s, [v])
    {
      assert AddAll(scopes[s].ivars, [v]) == Add<string>(scopes[s].ivars, v) by {
        AddAllSnoc(scopes[s].ivars, [], v);
      }
      scopes := scopes[s := scopes[s].(ivars := Add<string>(scopes[s].ivars, v))];
    }

    /** `scope.add_constant(c, cscope)` */
    method AddConstant(s: nat, c: string, id: nat)
      requires s < |scopes|
      modifies this
      ensures St() == WithConstant(old(St()), s, c, id)
    {
      scopes := scopes[s := scopes[s].(constants := scopes[s].constants[c := id])];
    }

    /** `exp.each { |n| scope.add_ivar(n) if ... }` on one visited node. */
    method AddNodeIvars(s: nat, xs: seq<Node>)
      requires s < |scopes|
      modifies this
      ensures St() == WithIvars(old(St()), s, ItemIvars(xs))
    {
      ghost var st0 := St();
      var j := 0;
      while j < |xs|
        invariant j <= |xs| && s < |scopes|
        invariant St() == WithIvars(st0, s, ItemIvars(xs[..j]))
      {
        ItemIvarsSnoc(xs, j);
        if IsIvar(xs[j]) {
          AddIvar(s, xs[j].name);
          WithIvarsAppend(st0, s, ItemIvars(xs[..j]), [xs[j].name]);
        } else {
          assert ItemIvars(xs[..j]) + [] == ItemIvars(xs[..j]);
        }
        j := j + 1;
      }
      assert xs[..j] == xs;
    }

    /** `e[3].depth_first { |exp| ... }` (transform.rb:430-434). */
    method ScanIvars(s: nat, body: Node)
      requires s < |scopes|
      modifies this
      ensures St() == WithIvars(old(St()), s, IvarNames(body))
    {
      ghost var st0 := St();
      var vs := Visited(body, "");
      var i := 0;
      while i < |vs|
        invariant i <= |vs| && s < |scopes|
        invariant St() == WithIvars(st0, s, NodesIvars(vs[..i]))
      {
        assert vs[..i + 1][..i] == vs[..i];
        AddNodeIvars(s, vs[i]);
        WithIvarsAppend(st0, s, NodesIvars(vs[..i]), ItemIvars(vs[i]));
        i := i + 1;
      }
      assert vs[..i] == vs;
    }

    /** The registration loop of an attribute declaration (transform.rb:444-447),
        on the scope object `scopes[s]`. */
    method RegisterAttrs(s: nat, arr: seq<Node>)
      requires s < |scopes|
      modifies this
      ensures scopes == old(scopes)[s := AttrRegister(arr, old(scopes)[s])]
      ensures classes == old(classes) && global == old(global)
    {
      var sc0 := scopes[s];
      var sc := sc0;
      var i := 0;
      while i < |arr|
        invariant i <= |arr| && sc == AttrRegister(arr[..i], sc0)
        invariant unchanged(this)
      {
        var m := AttrName(arr[i]);
        AttrRegisterSnoc(arr, i, sc0);
        sc := sc.(vtable := Add<string>(sc.vtable, m), ivars := Add<string>(sc.ivars, "@" + m));
        i := i + 1;
      }
      assert arr[..i] == arr;
      scopes := scopes[s := sc];
    }

    /** Registration of `cscope` under `c` (transform.rb:471-473, 479-481). */
    method RegisterScope(s: nat, c: string, id: nat)
      requires Inv(St()) && s < |scopes| && id < |scopes|
      modifies this
      ensures St() == Register(old(St()), s, c, id)
    {
      classes := classes[c := id];
      AddConstant(global, c, id);
      AddConstant(s, c, id);
    }

    /** `@classes[c]`, or a new scope object; then its registration. */
    method OpenScope(s: nat, kind: Kind, c: string, sup: Option<nat>) returns (id: nat)
      requires Inv(St()) && s < |scopes|
      modifies this
      ensures St() == Open(old(St()), s, kind, c, sup) && c in classes && id == classes[c]
    {
      if c in classes {
        id := classes[c];
      } else {
        id := |scopes|;
        scopes := scopes + [Scope(kind, c, s, sup, [], [], map[])];
      }
      RegisterScope(s, c, id);
    }

    /** `build_class_scopes(exps, scope)` (transform.rb:422-490). */
    method BuildClassScopes(exps: Node, s: nat) returns (r: Node)
      requires Inv(St()) && s < |scopes|
      modifies this
      ensures (r, St()) == Build(exps, s, old(St()))
      decreases Size(exps), 3
    {
      if !exps.List? {
        return exps;
      }
      var items := exps.items;
      ChildrenSmaller(items);
      ghost var st0 := St();
      var out := [];
      var i := 0;
      while i < |items|
        invariant i <= |items|
        invariant (out, St()) == BuildItems(items, i, s, st0, Size(exps))
      {
        var x := items[i];
        if x.List? {
          x := BuildElement(x.items, s);
        }
        out := out + [x];
        i := i + 1;
      }
      r := List(out);
    }

    /** The block on one array element (transform.rb:426-486). */
    method BuildElement(e: seq<Node>, s: nat) returns (r: Node)
      requires Inv(St()) && s < |scopes|
      modifies this
      ensures (r, St()) == BuildNode(e, s, old(St()))
      decreases Size(List(e)), 2
    {
      if Tagged(e, "defm") && scopes[s].kind != GlobalKind {
        AddVtableEntry(s, ToS(At(e, 1)));
        ScanIvars(s, At(e, 3));
        r := List(e);
      } else if IsAttrCall(e) {
        var arr := AttrEntries(e);
        RegisterAttrs(s, arr);
        var defs := ExpandAccessors(At(e, 1).name, arr);
        r := List([Sym("do")] + defs);
      } else if Tagged(e, "class") {
        var sname := ToS(At(e, 2));
        var sup := if sname in classes then Some(classes[sname]) else None;
        var id := OpenScope(s, ClassKind, ToS(At(e, 1)), sup);
        r := BuildBody(e, id);
      } else if Tagged(e, "module") {
        var sup := if "Object" in classes then Some(classes["Object"]) else None;
        var id := OpenScope(s, ModuleKind, ToS(At(e, 1)), sup);
        r := BuildBody(e, id);
      } else if Tagged(e, "sexp") {
        r := List(e);
      } else {
        r := BuildEach(e, s);
      }
    }

    /** `(e[1..-1] || []).each { |x| build_class_scopes(x, scope) }` */
    method BuildEach(e: seq<Node>, s: nat) returns (r: Node)
      requires Inv(St()) && s < |scopes|
      modifies this
      ensures (r, St()) == Children(e, s, old(St()))
      decreases Size(List(e)), 1
    {
      ChildrenSmaller(e);
      ghost var st0 := St();
      var i := if |e| < 1 then |e| else 1;
      var out := e[..i];
      while i < |e|
        invariant 1 <= i <= |e| || i == |e| == 0
        invariant (out, St()) == BuildChildren(e, i, s, st0, Size(List(e)))
      {
        var x := BuildClassScopes(e[i], s);
        out := out + [x];
        i := i + 1;
      }
      r := List(out);
    }

    /** `build_class_scopes(e[3], cscope)`, the body put back in place. */
    method BuildBody(e: seq<Node>, id: nat) returns (r: Node)
      requires Inv(St()) && id < |scopes| && |e| > 0
      modifies this
      ensures (r, St()) == BodyIn(e, id, old(St()))
      decreases Size(List(e)), 0
    {
      if |e| > 3 {
        ChildSmaller(e, 3);
        var b := BuildClassScopes(e[3], id);
        r := List(e[3 := b]);
      } else {
        r := List(e);
      }
    }

    /** `setup_global_scope(exp)` (transform.rb:526-529). */
    method SetupGlobalScope(exp: Node) returns (r: Node)
      requires forall c :: c in classes ==> classes[c] < |scopes|
      modifies this
      ensures (r, St()) == Setup(exp, old(St()))
    {
      global := |scopes|;
      scopes := scopes + [Scope(GlobalKind, "", |scopes|, None, [], [], map[])];
      r := BuildClassScopes(exp, global);
    }
  }

  lemma AccessorDefsSnoc(kind: string, syms: seq<Node>, i: nat)
    requires i < |syms|
    ensures AccessorDefs(kind, syms[..i + 1]) == AccessorDefs(kind, syms[..i]) + EntryDefs(kind, AttrName(syms[i]))
  {
    assert syms[..i + 1][..i] == syms[..i];
  }

  /** The methods of one entry (transform.rb:458-464). */
  method EntryMethods(kind: string, m: string) returns (defs: seq<Node>)
    ensures defs == EntryDefs(kind, m)
  {
    defs := [];
    if Reads(kind) && |m| > 0 {
      defs := defs + [Getter(m)];
    }
    if Writes(kind) {
      defs := defs + [Setter(m)];
    }
  }

  /** The expansion loop (transform.rb:457-465), collecting the methods. */
  method ExpandAccessors(kind: string, syms: seq<Node>) returns (defs: seq<Node>)
    ensures defs == AccessorDefs(kind, syms)
  {
    defs := [];
    var i := 0;
    while i < |syms|
      invariant i <= |syms| && defs == AccessorDefs(kind, syms[..i])
    {
      AccessorDefsSnoc(kind, syms, i);
      var d := EntryMethods(kind, AttrName(syms[i]));
      defs := defs + d;
      i := i + 1;
    }
    assert syms[..i] == syms;
  }
}
