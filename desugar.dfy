/** The desugaring passes of transform.rb that rewrite one node shape into
    another without any table: `rewrite_yield`, `rewrite_range`,
    `rewrite_concat` (with `create_concat`), `rewrite_destruct` and
    `rewrite_operators`.

    Each pass is a depth-first walk that rewrites a node and then goes on
    into the elements the node has after the rewrite. For each pass the
    model proves that no node of the shape it removes is left (`...Done`)
    and that a tree without such a node comes back unchanged (`...Fixed`). */
module Desugar {
  import opened Ast

  // ---------------------------------------------------------------------
  // rewrite_yield

  /** `[:call, :yield]`, the element 0 given to every `yield` node. */
  function CallYield(): Node {
    List([Sym("call"), Sym("yield")])
  }

  /** `rewrite_yield` (transform.rb:520-524): `e[0] = [:call, :yield]` at
      every node tagged `yield`; all nodes are walked. The walk would also
      descend into the new element 0, which holds no `yield` node
      (`CallYieldUnchanged`), so it is written over the old elements 1.. . */
  function RewriteYield(n: Node): (r: Node)
    ensures r.List? <==> n.List?
    ensures !n.List? ==> r == n
    ensures n.List? ==> |r.items| == |n.items|
    decreases Size(n), 1
  {
    match n
    case List(items) =>
      ChildrenSmaller(items);
      if Tagged(items, "yield") then List([CallYield()] + YieldAll(items, 1, Size(n)))
      else List(YieldAll(items, 0, Size(n)))
    case _ => n
  }

  function YieldAll(items: seq<Node>, i: nat, bound: nat): (r: seq<Node>)
    requires i <= |items| && forall j :: i <= j < |items| ==> Size(items[j]) < bound
    ensures |r| == |items| - i
    ensures forall j :: i <= j < |items| ==> r[j - i] == RewriteYield(items[j])
    decreases bound, 0, |items| - i
  {
    if i == |items| then [] else [RewriteYield(items[i])] + YieldAll(items, i + 1, bound)
  }

  lemma CallYieldUnchanged()
    ensures RewriteYield(CallYield()) == CallYield()
  {
    var items := CallYield().items;
    assert YieldAll(items, 0, Size(CallYield())) == items;
  }

  /** After `rewrite_yield` no node is tagged `yield`. */
  lemma {:induction false} YieldDone(n: Node)
    ensures Everywhere(RewriteYield(n), "", Untagged("yield"))
    decreases Size(n)
  {
    var P := Untagged("yield");
    match n
    case List(items) =>
      var rs := RewriteYield(n).items;
      ChildrenSmaller(items);
      forall j | 0 <= j < |rs| ensures Everywhere(rs[j], "", P) {
        if Tagged(items, "yield") && j == 0 {
          var cs := CallYield().items;
          forall i | 0 <= i < |cs| ensures Everywhere(cs[i], "", P) { AtomEverywhere(cs[i], "", P); }
          EverywhereBuild(cs, "", P);
        } else {
          YieldDone(items[j]);
        }
      }
      EverywhereBuild(rs, "", P);
    case _ =>
      AtomEverywhere(n, "", P);
  }

  /** A tree with no `yield` node is left as it is. */
  lemma {:induction false} YieldFixed(n: Node)
    requires Everywhere(n, "", Untagged("yield"))
    ensures RewriteYield(n) == n
    decreases Size(n)
  {
    match n
    case List(items) =>
      EverywhereSplit(items, "", Untagged("yield"));
      ChildrenSmaller(items);
      var rs := RewriteYield(n).items;
      forall j | 0 <= j < |items| ensures rs[j] == items[j] {
        YieldFixed(items[j]);
      }
      assert rs == items;
    case _ =>
  }

  // ---------------------------------------------------------------------
  // rewrite_range

  /** `rewrite_range` (transform.rb:375-382): `(range a b ...)` becomes
      `(callm Range new (a b ...))` and the walk goes on into the new node,
      of which only the argument array is not an atom. Nodes under `sexp`
      are rewritten too: this pass does not stop there. */
  function RewriteRange(n: Node): (r: Node)
    ensures r.List? <==> n.List?
    ensures !n.List? ==> r == n
    decreases Size(n), 1
  {
    match n
    case List(items) =>
      if Tagged(items, "range") then
        FromSmaller(items, 1);
        List([Sym("callm"), Sym("Range"), Sym("new"), RewriteRange(List(items[1..]))])
      else
        ChildrenSmaller(items);
        List(RangeAll(items, 0, Size(n)))
    case _ => n
  }

  function RangeAll(items: seq<Node>, i: nat, bound: nat): (r: seq<Node>)
    requires i <= |items| && forall j :: i <= j < |items| ==> Size(items[j]) < bound
    ensures |r| == |items| - i
    ensures forall j :: i <= j < |items| ==> r[j - i] == RewriteRange(items[j])
    decreases bound, 0, |items| - i
  {
    if i == |items| then [] else [RewriteRange(items[i])] + RangeAll(items, i + 1, bound)
  }

  /** The arguments of a range survive, rewritten, as the argument array of
      the `Range.new` call (unless the first argument is itself the symbol
      `range`, which makes that array a range node in turn). */
  lemma RangeCall(items: seq<Node>)
    requires Tagged(items, "range") && !Tagged(items[1..], "range")
    ensures RewriteRange(List(items)).items[..3] == [Sym("callm"), Sym("Range"), Sym("new")]
    ensures |RewriteRange(List(items)).items| == 4
    ensures |RewriteRange(List(items)).items[3].items| == |items| - 1
    ensures forall j :: 1 <= j < |items| ==>
      RewriteRange(List(items)).items[3].items[j - 1] == RewriteRange(items[j])
  {
    var args := items[1..];
    FromSmaller(items, 1);
    ChildrenSmaller(args);
  }

  /** After `rewrite_range` no node is tagged `range`. */
  lemma {:induction false} RangeDone(n: Node)
    ensures Everywhere(RewriteRange(n), "", Untagged("range"))
    decreases Size(n)
  {
    var P := Untagged("range");
    match n
    case List(items) =>
      var rs := RewriteRange(n).items;
      if Tagged(items, "range") {
        assert forall j :: 0 <= j < |rs| ==> Everywhere(rs[j], "", P) by {
          FromSmaller(items, 1);
          RangeDone(List(items[1..]));
          AtomsEverywhere(rs, "", P);
        }
        EverywhereBuild(rs, "", P);
      } else {
        assert forall j :: 0 <= j < |rs| ==> Everywhere(rs[j], "", P) by {
          ChildrenSmaller(items);
          forall j | 0 <= j < |rs| ensures Everywhere(rs[j], "", P) { RangeDone(items[j]); }
        }
        EverywhereBuild(rs, "", P);
      }
    case _ =>
      AtomEverywhere(n, "", P);
  }

  /** A tree with no `range` node is left as it is. */
  lemma {:induction false} RangeFixed(n: Node)
    requires Everywhere(n, "", Untagged("range"))
    ensures RewriteRange(n) == n
    decreases Size(n)
  {
    match n
    case List(items) =>
      EverywhereSplit(items, "", Untagged("range"));
      ChildrenSmaller(items);
      var rs := RewriteRange(n).items;
      forall j | 0 <= j < |items| ensures rs[j] == items[j] {
        RangeFixed(items[j]);
      }
      assert rs == items;
    case _ =>
  }

  // ---------------------------------------------------------------------
  // rewrite_concat

  /** `E[:callm, x, :to_s]` */
  function ToS(x: Node): Node {
    List([Sym("callm"), x, Sym("to_s")])
  }

  /** `create_concat(sub)` (transform.rb:384-389): the last operand,
      converted with `to_s`, is appended with `concat` to the chain built
      from the operands before it; one operand is just converted. An empty
      list gives `nil.to_s`, as `pop` on an empty array gives nil. */
  function CreateConcat(sub: seq<Node>): (r: Node)
    ensures r.List? && |r.items| >= 3 && r.items[0] == Sym("callm")
    decreases |sub|
  {
    if |sub| <= 1 then ToS(At(sub, 0))
    else List([Sym("callm"), CreateConcat(sub[..|sub| - 1]), Sym("concat"), List([ToS(sub[|sub| - 1])])])
  }

  /** `ToS(x)` read back: `x`. */
  predicate IsToS(n: Node) {
    n.List? && |n.items| == 3 && n.items[0] == Sym("callm") && n.items[2] == Sym("to_s")
  }

  /** A concatenation chain read back: the operands it converts, in order. */
  function Operands(r: Node): seq<Node>
    decreases Size(r)
  {
    if IsToS(r) then [r.items[1]]
    else if r.List? && |r.items| == 4 && r.items[0] == Sym("callm") && r.items[2] == Sym("concat")
         && r.items[3].List? && |r.items[3].items| == 1 && IsToS(r.items[3].items[0]) then
      ChildSmaller(r.items, 1);
      Operands(r.items[1]) + [r.items[3].items[0].items[1]]
    else []
  }

  /** `create_concat` keeps every operand, in order. */
  lemma {:induction false} ConcatOperands(sub: seq<Node>)
    ensures Operands(CreateConcat(sub)) == if sub == [] then [Nil] else sub
    decreases |sub|
  {
    if |sub| <= 1 {
      assert IsToS(ToS(At(sub, 0)));
      assert sub != [] ==> sub == [sub[0]];
    } else {
      var init, last := sub[..|sub| - 1], sub[|sub| - 1];
      assert Operands(CreateConcat(init)) == init by {
        ConcatOperands(init);
      }
      assert CreateConcat(sub) == List([Sym("callm"), CreateConcat(init), Sym("concat"), List([ToS(last)])]);
      OperandsLink(CreateConcat(init), last);
      assert init + [last] == sub;
    }
  }

  lemma OperandsLink(c: Node, x: Node)
    ensures Operands(List([Sym("callm"), c, Sym("concat"), List([ToS(x)])])) == Operands(c) + [x]
  {
    var l := List([Sym("callm"), c, Sym("concat"), List([ToS(x)])]);
    assert !IsToS(l) && IsToS(l.items[3].items[0]);
  }

  /** `rewrite_concat` (transform.rb:391-398): a node tagged `concat`
      becomes `create_concat` of its operands, and the walk goes on into the
      new node; it does not stop at `sexp`. Going on into the new node
      rewrites exactly its operands (`ConcatFaithful`), so the operands are
      written here as rewritten before the chain is built. */
  function RewriteConcat(n: Node): (r: Node)
    ensures r.List? <==> n.List?
    ensures !n.List? ==> r == n
    decreases Size(n), 1
  {
    match n
    case List(items) =>
      ChildrenSmaller(items);
      if Tagged(items, "concat") then
        assert forall j :: 0 <= j < |items[1..]| ==> items[1..][j] == items[j + 1];
        CreateConcat(ConcatAll(items[1..], 0, Size(n)))
      else List(ConcatAll(items, 0, Size(n)))
    case _ => n
  }

  function ConcatAll(items: seq<Node>, i: nat, bound: nat): (r: seq<Node>)
    requires i <= |items| && forall j :: i <= j < |items| ==> Size(items[j]) < bound
    ensures |r| == |items| - i
    ensures forall j :: i <= j < |items| ==> r[j - i] == RewriteConcat(items[j])
    decreases bound, 0, |items| - i
  {
    if i == |items| then [] else [RewriteConcat(items[i])] + ConcatAll(items, i + 1, bound)
  }

  lemma ToSDescends(x: Node)
    ensures RewriteConcat(ToS(x)) == ToS(RewriteConcat(x))
  {
    var items := ToS(x).items;
    ChildrenSmaller(items);
    var lr := RewriteConcat(ToS(x)).items;
    assert lr[0] == RewriteConcat(items[0]) && lr[1] == RewriteConcat(items[1]) && lr[2] == RewriteConcat(items[2]);
    assert lr == ToS(RewriteConcat(x)).items;
  }

  /** The middle of a chain: the walk goes into the earlier chain and the
      wrapped last operand. */
  lemma LinkDescends(c: Node, x: Node)
    ensures RewriteConcat(List([Sym("callm"), c, Sym("concat"), List([ToS(x)])])) ==
            List([Sym("callm"), RewriteConcat(c), Sym("concat"), List([ToS(RewriteConcat(x))])])
  {
    var w := [ToS(x)];
    ChildrenSmaller(w);
    ToSDescends(x);
    assert RewriteConcat(List(w)).items == [RewriteConcat(ToS(x))];
    var items := [Sym("callm"), c, Sym("concat"), List(w)];
    ConcatWalkTo(items, [Sym("callm"), RewriteConcat(c), Sym("concat"), List([ToS(RewriteConcat(x))])]);
  }

  /** Walking a node that is not a `concat` with known results for its elements. */
  lemma ConcatWalkTo(items: seq<Node>, want: seq<Node>)
    requires !Tagged(items, "concat") && |want| == |items|
    requires forall j :: 0 <= j < |items| ==> RewriteConcat(items[j]) == want[j]
    ensures RewriteConcat(List(items)) == List(want)
  {
    ChildrenSmaller(items);
  }

  /** Walking into a chain built by `create_concat` rewrites its operands
      and nothing else. */
  lemma {:induction false} ConcatDescends(xs: seq<Node>, bound: nat)
    requires forall j :: 0 <= j < |xs| ==> Size(xs[j]) < bound
    ensures RewriteConcat(CreateConcat(xs)) == CreateConcat(ConcatAll(xs, 0, bound))
    decreases |xs|
  {
    var ys := ConcatAll(xs, 0, bound);
    if |xs| <= 1 {
      ToSDescends(At(xs, 0));
    } else {
      var init := xs[..|xs| - 1];
      ConcatDescends(init, bound);
      var zs := ConcatAll(init, 0, bound);
      assert forall j :: 0 <= j < |zs| ==> zs[j] == RewriteConcat(init[j]) && init[j] == xs[j];
      assert ys[..|ys| - 1] == zs;
      LinkDescends(CreateConcat(init), xs[|xs| - 1]);
    }
  }

  /** The model is the walk of the source: replacing a `concat` node by its
      chain and then walking into the chain. */
  lemma ConcatFaithful(items: seq<Node>)
    requires Tagged(items, "concat")
    ensures RewriteConcat(List(items)) == RewriteConcat(CreateConcat(items[1..]))
  {
    ChildrenSmaller(items);
    ConcatDescends(items[1..], Size(List(items)));
  }

  /** A chain built from operands with no `concat` node has none. */
  lemma {:induction false} CreateConcatDone(ys: seq<Node>)
    requires forall j :: 0 <= j < |ys| ==> Everywhere(ys[j], "", Untagged("concat"))
    ensures Everywhere(CreateConcat(ys), "", Untagged("concat"))
    decreases |ys|
  {
    var P := Untagged("concat");
    if |ys| <= 1 {
      ToSDone(At(ys, 0));
    } else {
      CreateConcatDone(ys[..|ys| - 1]);
      var last := ToS(ys[|ys| - 1]);
      ToSDone(ys[|ys| - 1]);
      EverywhereBuild([last], "", P);
      var cs := CreateConcat(ys).items;
      forall j | 0 <= j < 4 ensures Everywhere(cs[j], "", P) {
        if j == 0 || j == 2 { AtomEverywhere(cs[j], "", P); }
      }
      EverywhereBuild(cs, "", P);
    }
  }

  lemma ToSDone(x: Node)
    requires Everywhere(x, "", Untagged("concat"))
    ensures Everywhere(ToS(x), "", Untagged("concat"))
  {
    var cs := ToS(x).items;
    AtomEverywhere(cs[0], "", Untagged("concat"));
    AtomEverywhere(cs[2], "", Untagged("concat"));
    EverywhereBuild(cs, "", Untagged("concat"));
  }

  /** After `rewrite_concat` no node is tagged `concat`. */
  lemma {:induction false} ConcatDone(n: Node)
    ensures Everywhere(RewriteConcat(n), "", Untagged("concat"))
    decreases Size(n)
  {
    var P := Untagged("concat");
    match n
    case List(items) =>
      ChildrenSmaller(items);
      if Tagged(items, "concat") {
        var ys := ConcatAll(items[1..], 0, Size(n));
        forall j | 0 <= j < |ys| ensures Everywhere(ys[j], "", P) {
          assert items[1..][j] == items[j + 1];
          ConcatDone(items[j + 1]);
        }
        CreateConcatDone(ys);
      } else {
        var rs := RewriteConcat(n).items;
        forall j | 0 <= j < |rs| ensures Everywhere(rs[j], "", P) { ConcatDone(items[j]); }
        EverywhereBuild(rs, "", P);
      }
    case _ =>
      AtomEverywhere(n, "", P);
  }

  /** A tree with no `concat` node is left as it is. */
  lemma {:induction false} ConcatFixed(n: Node)
    requires Everywhere(n, "", Untagged("concat"))
    ensures RewriteConcat(n) == n
    decreases Size(n)
  {
    match n
    case List(items) =>
      EverywhereSplit(items, "", Untagged("concat"));
      ChildrenSmaller(items);
      var rs := RewriteConcat(n).items;
      forall j | 0 <= j < |items| ensures rs[j] == items[j] {
        ConcatFixed(items[j]);
      }
      assert rs == items;
    case _ =>
  }

  // ---------------------------------------------------------------------
  // rewrite_destruct

  /** `(assign (destruct v0 ...) r)` */
  predicate IsDestructAssign(items: seq<Node>) {
    Tagged(items, "assign") && At(items, 1).List? && Tagged(At(items, 1).items, "destruct")
  }

  /** `[:callm, :__destruct, :[], [i]]`: element `i` of the value being taken apart. */
  function DestructIndex(i: nat): Node {
    List([Sym("callm"), Sym("__destruct"), Sym("[]"), List([Int(i)])])
  }

  /** `(let (__destruct) (do (assign __destruct r) assigns...) rest...)` */
  function DestructLet(r: Node, assigns: seq<Node>, rest: seq<Node>): Node {
    List(LetHead(List(DoHead(r) + assigns)) + rest)
  }

  /** `let (__destruct) body`: the start of the node a step builds. */
  function LetHead(body: Node): seq<Node> {
    [Sym("let"), List([Sym("__destruct")]), body]
  }

  /** `do (assign __destruct r)`: the start of the `do` node of a step. */
  function DoHead(r: Node): seq<Node> {
    [Sym("do"), List([Sym("assign"), Sym("__destruct"), r])]
  }

  /** `(assign v (callm __destruct [] (i)))` */
  function DestructAssign(v: Node, i: nat): Node {
    List([Sym("assign"), v, DestructIndex(i)])
  }

  /** The assignments `vars.each_with_index` appends, from index `i` on. */
  function DestructAssigns(vars: seq<Node>, i: nat): (r: seq<Node>)
    requires i <= |vars|
    ensures |r| == |vars| - i
    ensures forall j :: i <= j < |vars| ==> r[j - i] == DestructAssign(vars[j], j)
    decreases |vars| - i
  {
    if i == |vars| then [] else [DestructAssign(vars[i], i)] + DestructAssigns(vars, i + 1)
  }

  /** Ruby's `e[3..]` after `e[2]` has been assigned: the elements past 2. */
  function Rest(items: seq<Node>): seq<Node> {
    if |items| > 3 then items[3..] else []
  }

  /** The block of `rewrite_destruct` at one destructuring assignment
      (transform.rb:503-516): elements 0 to 2 are replaced, the ones after
      them kept. */
  function DestructStep(items: seq<Node>): (r: seq<Node>)
    requires IsDestructAssign(items)
  {
    DestructLet(At(items, 2), DestructAssigns(At(items, 1).items[1..], 0), Rest(items)).items
  }

  /** `rewrite_destruct` (transform.rb:501-518): the walk visits every node;
      a destructuring assignment is replaced by `DestructStep` and the walk
      goes on into the new node. Going on into it walks the value, the
      elements kept and each new assignment, and an assignment to a nested
      `(destruct ...)` is itself a destructuring assignment; `DestructFaithful`
      shows that the pieces below are that walk. */
  function RewriteDestruct(n: Node): (r: Node)
    ensures r.List? <==> n.List?
    ensures !n.List? ==> r == n
    ensures n.List? ==> (Tagged(r.items, "destruct") <==> Tagged(n.items, "destruct"))
    decreases Size(n), 2
  {
    match n
    case List(items) =>
      ChildrenSmaller(items);
      if IsDestructAssign(items) then
        var l := items[1].items;
        ChildrenSmaller(l);
        assert forall j :: 0 <= j < |l[1..]| ==> l[1..][j] == l[j + 1];
        assert forall j :: 0 <= j < |Rest(items)| ==> Rest(items)[j] == items[j + 3];
        DestructLet(if |items| > 2 then RewriteDestruct(items[2]) else Nil,
                    DestructPieces(l[1..], 0, Size(n)),
                    DestructAll(Rest(items), 0, Size(n)))
      else List(DestructAll(items, 0, Size(n)))
    case _ => n
  }

  function DestructAll(items: seq<Node>, i: nat, bound: nat): (r: seq<Node>)
    requires i <= |items| && forall j :: i <= j < |items| ==> Size(items[j]) < bound
    ensures |r| == |items| - i
    ensures forall j :: i <= j < |items| ==> r[j - i] == RewriteDestruct(items[j])
    decreases bound, 0, |items| - i
  {
    if i == |items| then [] else [RewriteDestruct(items[i])] + DestructAll(items, i + 1, bound)
  }

  /** The walked assignments of `vars` from index `i` on. */
  function DestructPieces(vars: seq<Node>, i: nat, bound: nat): (r: seq<Node>)
    requires i <= |vars| && forall j :: i <= j < |vars| ==> Size(vars[j]) < bound
    ensures |r| == |vars| - i
    ensures forall j :: i <= j < |vars| ==> r[j - i] == DestructPiece(vars[j], j)
    decreases bound, 1, |vars| - i
  {
    if i == |vars| then [] else [DestructPiece(vars[i], i)] + DestructPieces(vars, i + 1, bound)
  }

  /** `DestructAssign(v, i)` walked: a nested `(destruct ...)` target is
      taken apart in turn, any other target is walked. */
  function DestructPiece(v: Node, i: nat): (r: Node)
    decreases Size(v), 3
  {
    if v.List? && Tagged(v.items, "destruct") then
      ChildrenSmaller(v.items);
      assert forall j :: 0 <= j < |v.items[1..]| ==> v.items[1..][j] == v.items[j + 1];
      DestructLet(DestructIndex(i), DestructPieces(v.items[1..], 0, Size(v)), [])
    else DestructAssign(RewriteDestruct(v), i)
  }

  lemma DestructIndexUnchanged(i: nat)
    ensures RewriteDestruct(DestructIndex(i)) == DestructIndex(i)
  {
    var w := [Int(i)];
    ChildrenSmaller(w);
    assert RewriteDestruct(List(w)).items == w;
    var items := DestructIndex(i).items;
    ChildrenSmaller(items);
    var rs := RewriteDestruct(List(items)).items;
    assert rs[3] == RewriteDestruct(items[3]);
    assert rs == items;
  }

  /** One new assignment, walked, is its piece. */
  lemma DestructPieceFaithful(v: Node, i: nat)
    ensures DestructPiece(v, i) == RewriteDestruct(DestructAssign(v, i))
  {
    if v.List? && Tagged(v.items, "destruct") {
      NestedPieceFaithful(v, i);
    } else {
      DestructIndexUnchanged(i);
      WalkTo(DestructAssign(v, i).items, [Sym("assign"), RewriteDestruct(v), DestructIndex(i)]);
    }
  }

  lemma NestedPieceFaithful(v: Node, i: nat)
    requires v.List? && Tagged(v.items, "destruct")
    ensures DestructPiece(v, i) == RewriteDestruct(DestructAssign(v, i))
  {
    var a := DestructAssign(v, i);
    ChildrenSmaller(a.items);
    ChildrenSmaller(v.items);
    assert a.items[1] == v;
    assert forall j :: 0 <= j < |v.items[1..]| ==> v.items[1..][j] == v.items[j + 1];
    DestructIndexUnchanged(i);
    PiecesAnyBound(v.items[1..], Size(v), Size(a));
    assert Rest(a.items) == [];
  }

  /** The bound passed down only serves termination. */
  lemma PiecesAnyBound(vars: seq<Node>, b1: nat, b2: nat)
    requires forall j :: 0 <= j < |vars| ==> Size(vars[j]) < b1 && Size(vars[j]) < b2
    ensures DestructPieces(vars, 0, b1) == DestructPieces(vars, 0, b2)
  {
    var p1 := DestructPieces(vars, 0, b1);
    var p2 := DestructPieces(vars, 0, b2);
    assert forall j :: 0 <= j < |p1| ==> p1[j] == DestructPiece(vars[j], j) == p2[j];
  }

  /** A node that is not a destructuring assignment is walked element by element. */
  lemma DestructWalk(items: seq<Node>)
    requires !IsDestructAssign(items)
    ensures |RewriteDestruct(List(items)).items| == |items|
    ensures forall j :: 0 <= j < |items| ==> RewriteDestruct(List(items)).items[j] == RewriteDestruct(items[j])
  {
    ChildrenSmaller(items);
  }

  lemma ValueDescends(r: Node)
    ensures RewriteDestruct(List([Sym("assign"), Sym("__destruct"), r])) ==
            List([Sym("assign"), Sym("__destruct"), RewriteDestruct(r)])
  {
    var items := [Sym("assign"), Sym("__destruct"), r];
    DestructWalk(items);
    var rs := RewriteDestruct(List(items)).items;
    assert rs[0] == RewriteDestruct(items[0]) && rs[1] == RewriteDestruct(items[1]) && rs[2] == RewriteDestruct(r);
  }

  /** The `do` node of a step, walked: the value and each assignment. */
  lemma DoDescends(r: Node, vars: seq<Node>, bound: nat)
    requires forall j :: 0 <= j < |vars| ==> Size(vars[j]) < bound
    ensures RewriteDestruct(List(DoHead(r) + DestructAssigns(vars, 0))) ==
            List(DoHead(RewriteDestruct(r)) + DestructPieces(vars, 0, bound))
  {
    var items := DoHead(r) + DestructAssigns(vars, 0);
    DoHeadDescends(r);
    AssignsDescend(vars, bound);
    ElementsAppend(DoHead(r), DoHead(RewriteDestruct(r)), DestructAssigns(vars, 0), DestructPieces(vars, 0, bound));
    assert items[0] == Sym("do");
    WalkTo(items, DoHead(RewriteDestruct(r)) + DestructPieces(vars, 0, bound));
  }

  lemma DoHeadDescends(r: Node)
    ensures forall j :: 0 <= j < 2 ==> RewriteDestruct(DoHead(r)[j]) == DoHead(RewriteDestruct(r))[j]
  {
    ValueDescends(r);
  }

  /** Elementwise walk results of two parts give those of their concatenation. */
  lemma ElementsAppend(x: seq<Node>, y: seq<Node>, a: seq<Node>, p: seq<Node>)
    requires |x| == |y| && |a| == |p|
    requires forall j :: 0 <= j < |x| ==> RewriteDestruct(x[j]) == y[j]
    requires forall j :: 0 <= j < |a| ==> RewriteDestruct(a[j]) == p[j]
    ensures forall j :: 0 <= j < |x + a| ==> RewriteDestruct((x + a)[j]) == (y + p)[j]
  {
    forall j | 0 <= j < |x + a| ensures RewriteDestruct((x + a)[j]) == (y + p)[j] {
      if j >= |x| {
        assert (x + a)[j] == a[j - |x|] && (y + p)[j] == p[j - |x|];
      }
    }
  }

  /** Each new assignment, walked, is its piece. */
  lemma AssignsDescend(vars: seq<Node>, bound: nat)
    requires forall j :: 0 <= j < |vars| ==> Size(vars[j]) < bound
    ensures forall j :: 0 <= j < |vars| ==> RewriteDestruct(DestructAssigns(vars, 0)[j]) == DestructPieces(vars, 0, bound)[j]
  {
    forall j | 0 <= j < |vars| ensures RewriteDestruct(DestructAssigns(vars, 0)[j]) == DestructPieces(vars, 0, bound)[j] {
      DestructPieceFaithful(vars[j], j);
    }
  }

  /** Walking a non-destructuring node with known results for its elements. */
  lemma WalkTo(items: seq<Node>, want: seq<Node>)
    requires !IsDestructAssign(items) && |want| == |items|
    requires forall j :: 0 <= j < |items| ==> RewriteDestruct(items[j]) == want[j]
    ensures RewriteDestruct(List(items)) == List(want)
  {
    DestructWalk(items);
  }

  lemma LetDescends(r: Node, vars: seq<Node>, rest: seq<Node>, bound: nat)
    requires forall j :: 0 <= j < |vars| ==> Size(vars[j]) < bound
    requires forall j :: 0 <= j < |rest| ==> Size(rest[j]) < bound
    ensures RewriteDestruct(DestructLet(r, DestructAssigns(vars, 0), rest)) ==
            DestructLet(RewriteDestruct(r), DestructPieces(vars, 0, bound), DestructAll(rest, 0, bound))
  {
    var body := List(DoHead(r) + DestructAssigns(vars, 0));
    var body' := List(DoHead(RewriteDestruct(r)) + DestructPieces(vars, 0, bound));
    DoDescends(r, vars, bound);
    LetHeadDescends(body, body');
    ElementsAppend(LetHead(body), LetHead(body'), rest, DestructAll(rest, 0, bound));
    var step := LetHead(body) + rest;
    assert step[0] == Sym("let");
    WalkTo(step, LetHead(body') + DestructAll(rest, 0, bound));
  }

  lemma LetHeadDescends(body: Node, body': Node)
    requires RewriteDestruct(body) == body'
    ensures forall j :: 0 <= j < 3 ==> RewriteDestruct(LetHead(body)[j]) == LetHead(body')[j]
  {
    var t := Sym("__destruct");
    assert RewriteDestruct(t) == t;
    WalkTo([t], [t]);
    forall j | 0 <= j < 3 ensures RewriteDestruct(LetHead(body)[j]) == LetHead(body')[j] {
      if j == 0 {
        assert LetHead(body)[j] == Sym("let") == LetHead(body')[j];
      } else if j == 1 {
        assert LetHead(body)[j] == List([t]) == LetHead(body')[j];
      } else {
        assert LetHead(body)[j] == body && LetHead(body')[j] == body';
      }
    }
  }

  /** The model is the walk of the source: the step at a destructuring
      assignment, then the walk into the node it built. */
  lemma DestructFaithful(items: seq<Node>)
    requires IsDestructAssign(items)
    ensures RewriteDestruct(List(items)) == RewriteDestruct(List(DestructStep(items)))
  {
    var vars := items[1].items[1..];
    ChildrenSmaller(items);
    ChildrenSmaller(items[1].items);
    assert forall j :: 0 <= j < |vars| ==> vars[j] == items[1].items[j + 1];
    assert forall j :: 0 <= j < |Rest(items)| ==> Rest(items)[j] == items[j + 3];
    LetDescends(At(items, 2), vars, Rest(items), Size(List(items)));
  }

  /** The property of a node of not being a destructuring assignment. */
  function NoDestruct(): seq<Node> -> bool {
    items => !IsDestructAssign(items)
  }

  lemma DestructIndexDone(i: nat)
    ensures Everywhere(DestructIndex(i), "", NoDestruct())
  {
    var P := NoDestruct();
    var w := [Int(i)];
    AtomEverywhere(w[0], "", P);
    EverywhereBuild(w, "", P);
    var items := DestructIndex(i).items;
    forall j | 0 <= j < 3 ensures Everywhere(items[j], "", P) { AtomEverywhere(items[j], "", P); }
    EverywhereBuild(items, "", P);
  }

  /** `(assign __destruct r)` holds no destructuring assignment when `r` holds none. */
  lemma AssignValueDone(r: Node)
    requires Everywhere(r, "", NoDestruct())
    ensures Everywhere(List([Sym("assign"), Sym("__destruct"), r]), "", NoDestruct())
  {
    var a := [Sym("assign"), Sym("__destruct"), r];
    AtomsEverywhere(a, "", NoDestruct());
    EverywhereBuild(a, "", NoDestruct());
  }

  /** The `do` node of a step holds no destructuring assignment when its parts hold none. */
  lemma DoNodeDone(head: Node, assigns: seq<Node>)
    requires Everywhere(head, "", NoDestruct())
    requires forall j :: 0 <= j < |assigns| ==> Everywhere(assigns[j], "", NoDestruct())
    ensures Everywhere(List([Sym("do"), head] + assigns), "", NoDestruct())
  {
    var d := [Sym("do"), head] + assigns;
    assert forall j :: 2 <= j < |d| ==> d[j] == assigns[j - 2];
    AtomsEverywhere(d, "", NoDestruct());
    EverywhereBuild(d, "", NoDestruct());
  }

  /** A `let` node of a step holds no destructuring assignment when its parts hold none. */
  lemma LetShellDone(body: Node, rest: seq<Node>)
    requires Everywhere(body, "", NoDestruct())
    requires forall j :: 0 <= j < |rest| ==> Everywhere(rest[j], "", NoDestruct())
    ensures Everywhere(List([Sym("let"), List([Sym("__destruct")]), body] + rest), "", NoDestruct())
  {
    var P := NoDestruct();
    var t := [Sym("__destruct")];
    AtomsEverywhere(t, "", P);
    EverywhereBuild(t, "", P);
    var items := [Sym("let"), List(t), body] + rest;
    assert forall j :: 3 <= j < |items| ==> items[j] == rest[j - 3];
    AtomsEverywhere(items, "", P);
    EverywhereBuild(items, "", P);
  }

  /** A `let` built by the step holds no destructuring assignment when its
      parts hold none. */
  lemma LetDone(r: Node, assigns: seq<Node>, rest: seq<Node>)
    requires Everywhere(r, "", NoDestruct())
    requires forall j :: 0 <= j < |assigns| ==> Everywhere(assigns[j], "", NoDestruct())
    requires forall j :: 0 <= j < |rest| ==> Everywhere(rest[j], "", NoDestruct())
    ensures Everywhere(DestructLet(r, assigns, rest), "", NoDestruct())
  {
    AssignValueDone(r);
    var head := List([Sym("assign"), Sym("__destruct"), r]);
    DoNodeDone(head, assigns);
    LetShellDone(List([Sym("do"), head] + assigns), rest);
  }

  /** After `rewrite_destruct` no destructuring assignment is left. */
  lemma {:induction false} DestructDone(n: Node)
    ensures Everywhere(RewriteDestruct(n), "", NoDestruct())
    decreases Size(n), 1
  {
    var P := NoDestruct();
    match n
    case List(items) =>
      ChildrenSmaller(items);
      if IsDestructAssign(items) {
        var l := items[1].items;
        ChildrenSmaller(l);
        var vars := l[1..];
        var pieces := DestructPieces(vars, 0, Size(n));
        var rest := DestructAll(Rest(items), 0, Size(n));
        if |items| > 2 { DestructDone(items[2]); } else { AtomEverywhere(Nil, "", P); }
        forall j | 0 <= j < |pieces| ensures Everywhere(pieces[j], "", P) {
          assert vars[j] == l[j + 1];
          DestructPieceDone(vars[j], j);
        }
        forall j | 0 <= j < |rest| ensures Everywhere(rest[j], "", P) {
          assert Rest(items)[j] == items[j + 3];
          DestructDone(items[j + 3]);
        }
        LetDone(if |items| > 2 then RewriteDestruct(items[2]) else Nil, pieces, rest);
      } else {
        var rs := RewriteDestruct(n).items;
        forall j | 0 <= j < |rs| ensures Everywhere(rs[j], "", P) { DestructDone(items[j]); }
        assert !IsDestructAssign(rs);
        EverywhereBuild(rs, "", P);
      }
    case _ =>
      AtomEverywhere(n, "", P);
  }

  lemma {:induction false} DestructPieceDone(v: Node, i: nat)
    ensures Everywhere(DestructPiece(v, i), "", NoDestruct())
    decreases Size(v), 2
  {
    var P := NoDestruct();
    DestructIndexDone(i);
    if v.List? && Tagged(v.items, "destruct") {
      ChildrenSmaller(v.items);
      var vars := v.items[1..];
      var pieces := DestructPieces(vars, 0, Size(v));
      forall j | 0 <= j < |pieces| ensures Everywhere(pieces[j], "", P) {
        assert vars[j] == v.items[j + 1];
        DestructPieceDone(vars[j], j);
      }
      LetDone(DestructIndex(i), pieces, []);
    } else {
      var items := DestructAssign(RewriteDestruct(v), i).items;
      DestructDone(v);
      AtomEverywhere(items[0], "", P);
      EverywhereBuild(items, "", P);
    }
  }

  /** A tree with no destructuring assignment is left as it is. */
  lemma {:induction false} DestructFixed(n: Node)
    requires Everywhere(n, "", NoDestruct())
    ensures RewriteDestruct(n) == n
    decreases Size(n)
  {
    match n
    case List(items) =>
      EverywhereSplit(items, "", NoDestruct());
      DestructWalk(items);
      ChildrenSmaller(items);
      var rs := RewriteDestruct(n).items;
      forall j | 0 <= j < |items| ensures rs[j] == items[j] {
        DestructFixed(items[j]);
      }
      assert rs == items;
    case _ =>
  }

  /** The targets of the assignments a step appended, in order. */
  function Targets(assigns: seq<Node>): (r: seq<Node>)
    ensures |r| == |assigns|
  {
    if assigns == [] then []
    else [if assigns[0].List? then At(assigns[0].items, 1) else Nil] + Targets(assigns[1..])
  }

  /** The destructuring assignment a step's result was built from: the
      value is read back from the first assignment in the `do`, the targets
      from the others. */
  function Undestruct(ss: seq<Node>): seq<Node>
  {
    if |ss| >= 3 && ss[2].List? && |ss[2].items| >= 2 && ss[2].items[1].List? then
      [Sym("assign"), List([Sym("destruct")] + Targets(ss[2].items[2..])), At(ss[2].items[1].items, 2)] + ss[3..]
    else ss
  }

  lemma {:induction false} TargetsOfAssigns(vars: seq<Node>, i: nat)
    requires i <= |vars|
    ensures Targets(DestructAssigns(vars, i)) == vars[i..]
    decreases |vars| - i
  {
    if i < |vars| {
      TargetsOfAssigns(vars, i + 1);
      assert DestructAssigns(vars, i)[1..] == DestructAssigns(vars, i + 1);
      assert vars[i..] == [vars[i]] + vars[i + 1..];
    }
  }

  /** The step loses nothing: a destructuring assignment with its value
      present is recovered from what the step builds. */
  lemma DestructRoundTrip(items: seq<Node>)
    requires IsDestructAssign(items) && |items| >= 3
    ensures Undestruct(DestructStep(items)) == items
  {
    var l := items[1].items;
    assert [Sym("destruct")] + l[1..] == l;
    UndestructLet(items[2], l[1..], Rest(items));
    assert items == [items[0], items[1], items[2]] + Rest(items);
  }

  /** Reading back the node a step builds gives the targets, the value and
      the elements kept. */
  lemma UndestructLet(r: Node, vars: seq<Node>, rest: seq<Node>)
    ensures Undestruct(DestructLet(r, DestructAssigns(vars, 0), rest).items) ==
            [Sym("assign"), List([Sym("destruct")] + vars), r] + rest
  {
    var a := DestructAssigns(vars, 0);
    var ss := DestructLet(r, a, rest).items;
    var d := DoHead(r) + a;
    assert ss[2] == List(d) && ss[3..] == rest;
    assert d[1] == List([Sym("assign"), Sym("__destruct"), r]) && d[2..] == a;
    TargetsOfAssigns(vars, 0);
  }

  // ---------------------------------------------------------------------
  // rewrite_operators

  /** A node whose tag is one of the operator names `ops` (the compiler's
      `OPER_METHOD`, a parameter of this model). */
  predicate IsOperator(items: seq<Node>, ops: set<string>) {
    |items| > 0 && items[0].Sym? && items[0].name in ops
  }

  /** The block of `rewrite_operators` (transform.rb:128-132), in the
      order the source assigns: the second operand, when there is one, moves
      wrapped in an array to element 3, the operator to element 2, and the
      tag becomes `callm`. */
  function OperatorStep(items: seq<Node>): (r: seq<Node>)
    requires |items| > 0
  {
    var e := if Truthy(At(items, 2)) then SetAt(items, 3, List([items[2]])) else items;
    SetAt(SetAt(e, 2, items[0]), 0, Sym("callm"))
  }

  /** `(op a b)` becomes `(callm a op (b))`, `(op a)` becomes `(callm a op)`. */
  lemma OperatorShape(items: seq<Node>)
    requires |items| > 0
    ensures |items| <= 3 && Truthy(At(items, 2)) ==>
      OperatorStep(items) == [Sym("callm"), items[1], items[0], List([items[2]])]
    ensures |items| <= 3 && !Truthy(At(items, 2)) ==>
      OperatorStep(items) == [Sym("callm"), At(items, 1), items[0]]
  {
  }

  /** Every array among the new elements is smaller than the node. */
  lemma OperatorChildSmaller(items: seq<Node>, j: nat)
    requires |items| > 0 && !items[0].List? && j < |OperatorStep(items)|
    ensures Size(OperatorStep(items)[j]) < Size(List(items))
  {
    ChildSmaller(items, 0);
    var e := if Truthy(At(items, 2)) then SetAt(items, 3, List([items[2]])) else items;
    var e2 := SetAt(e, 2, items[0]);
    var r := SetAt(e2, 0, Sym("callm"));
    if j == 0 || j == 2 || !r[j].List? { return; }
    assert r[j] == (if j < |e2| then e2[j] else Nil);
    assert r[j] == (if j < |e| then e[j] else Nil);
    if j == 3 && Truthy(At(items, 2)) {
      assert r[j] == List([items[2]]);
      assert SizeList([items[2]]) == Size(items[2]) + SizeList([items[2]][1..]);
      assert SizeList(items) == Size(items[0]) + SizeList(items[1..]);
      assert SizeList(items[1..]) == Size(items[1]) + SizeList(items[1..][1..]);
      assert items[1..][1..] == items[2..];
      assert SizeList(items[2..]) == Size(items[2]) + SizeList(items[2..][1..]);
    } else {
      assert r[j] == items[j];
      ChildSmaller(items, j);
    }
  }

  /** `rewrite_operators(exp, ops)` (transform.rb:124-134): the walk stops at
      `sexp`; an operator node is rewritten by `OperatorStep` and the walk
      goes on into its new elements. */
  function RewriteOperators(n: Node, ops: set<string>): (r: Node)
    ensures r.List? <==> n.List?
    ensures !n.List? ==> r == n
    decreases Size(n), 2
  {
    match n
    case List(items) =>
      if Tagged(items, "sexp") then n
      else if IsOperator(items, ops) then OperatorNode(items, ops)
      else
        ChildrenSmaller(items);
        List(OperatorsAll(items, 0, ops, Size(n)))
    case _ => n
  }

  /** An operator node, rewritten and then walked. */
  function OperatorNode(items: seq<Node>, ops: set<string>): (r: Node)
    requires IsOperator(items, ops)
    ensures r.List?
    decreases Size(List(items)), 1
  {
    var es := OperatorStep(items);
    assert forall j :: 0 <= j < |es| ==> Size(es[j]) < Size(List(items)) by {
      forall j | 0 <= j < |es| ensures Size(es[j]) < Size(List(items)) { OperatorChildSmaller(items, j); }
    }
    List(OperatorsAll(es, 0, ops, Size(List(items))))
  }

  function OperatorsAll(es: seq<Node>, i: nat, ops: set<string>, bound: nat): (r: seq<Node>)
    requires i <= |es| && forall j :: i <= j < |es| ==> Size(es[j]) < bound
    ensures |r| == |es| - i
    ensures forall j :: i <= j < |es| ==> r[j - i] == RewriteOperators(es[j], ops)
    decreases bound, 0, |es| - i
  {
    if i == |es| then [] else [RewriteOperators(es[i], ops)] + OperatorsAll(es, i + 1, ops, bound)
  }

  /** The property of a node of not being an operator node. */
  function NoOperator(ops: set<string>): seq<Node> -> bool {
    items => !IsOperator(items, ops)
  }

  /** After `rewrite_operators` no node the walk reaches is tagged with an
      operator (as long as neither `callm` nor `sexp` is itself one). */
  lemma {:induction false} OperatorsDone(n: Node, ops: set<string>)
    requires "callm" !in ops && "sexp" !in ops
    ensures Everywhere(RewriteOperators(n, ops), "sexp", NoOperator(ops))
    decreases Size(n)
  {
    var P := NoOperator(ops);
    match n
    case List(items) =>
      if Tagged(items, "sexp") {
        EverywhereBuild(items, "sexp", P);
      } else {
        var es := if IsOperator(items, ops) then OperatorStep(items) else items;
        var rs := if IsOperator(items, ops) then OperatorNode(items, ops).items else RewriteOperators(n, ops).items;
        assert rs == RewriteOperators(n, ops).items;
        forall j | 0 <= j < |rs| ensures Everywhere(rs[j], "sexp", P) {
          if IsOperator(items, ops) { OperatorChildSmaller(items, j); } else { ChildSmaller(items, j); }
          OperatorsDone(es[j], ops);
        }
        assert |rs| > 0 ==> rs[0] == es[0] || rs[0].List?;
        EverywhereBuild(rs, "sexp", P);
      }
    case _ =>
      AtomEverywhere(n, "sexp", P);
  }

  /** A tree with no operator node outside `sexp` is left as it is. */
  lemma {:induction false} OperatorsFixed(n: Node, ops: set<string>)
    requires Everywhere(n, "sexp", NoOperator(ops))
    ensures RewriteOperators(n, ops) == n
    decreases Size(n)
  {
    match n
    case List(items) =>
      EverywhereSplit(items, "sexp", NoOperator(ops));
      if !Tagged(items, "sexp") {
        ChildrenSmaller(items);
        var rs := RewriteOperators(n, ops).items;
        forall j | 0 <= j < |items| ensures rs[j] == items[j] {
          OperatorsFixed(items[j], ops);
        }
        assert rs == items;
      }
    case _ =>
  }
}
