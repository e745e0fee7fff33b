/** Literal interning: `rewrite_fixnumconst` and `rewrite_strconst`
    (transform.rb:66-118). Outside `sexp` subtrees, every integer element of a
    node becomes `(sexp (call __get_fixnum v))` and every string element
    becomes `(sexp (call __get_string label))`, where the label comes from the
    compiler's table of string constants, allocated from the emitter's label
    counter the first time a string is met. */
module Literals {
  import opened Ast

  /** `e[0] == :call || e[0] == :callm` */
  predicate IsCall(items: seq<Node>) {
    Tagged(items, "call") || Tagged(items, "callm")
  }

  /** The parser leaves the single argument of a call bare; a replacement at
      position 2 or later of a `call`/`callm` node is wrapped in an array. */
  function Wrap(x: Node, call: bool, i: nat): (r: Node)
    ensures x.List? ==> r.List?
    ensures call && i > 1 ==> r.List? && r.items == [x]
    ensures !(call && i > 1) ==> r == x
  {
    if call && i > 1 then List([x]) else x
  }

  // ---------------------------------------------------------------------
  // rewrite_fixnumconst

  /** `(sexp (call __get_fixnum v))` */
  function FixnumRef(v: int): Node {
    List([Sym("sexp"), List([Sym("call"), Sym("__get_fixnum"), Int(v)])])
  }

  /** What the block does to element `i` of a node. */
  function FixnumElem(x: Node, call: bool, i: nat): Node {
    if x.Int? then Wrap(FixnumRef(x.i), call, i) else x
  }

  /** `rewrite_fixnumconst(exp)` (transform.rb:99-118): the traversal stops at
      `sexp`; at every other node each integer element is replaced by its
      reference and the walk goes on into the elements. A reference just built
      is left as it is by the walk (`FixnumRefWalk`), so it is not walked here. */
  function RewriteFixnum(n: Node): (r: Node)
    ensures r.List? <==> n.List?
    ensures !n.List? ==> r == n
    ensures n.List? ==> |r.items| == |n.items|
    decreases Size(n), 1
  {
    match n
    case List(items) =>
      if Stops(items, "sexp") then n
      else
        ChildrenSmaller(items);
        List(FixnumAll(items, IsCall(items), 0, Size(n)))
    case _ => n
  }

  function FixnumAll(items: seq<Node>, call: bool, i: nat, bound: nat): (r: seq<Node>)
    requires i <= |items| && forall j :: i <= j < |items| ==> Size(items[j]) < bound
    ensures |r| == |items| - i
    ensures forall j :: i <= j < |items| ==>
      r[j - i] == if items[j].Int? then Wrap(FixnumRef(items[j].i), call, j) else RewriteFixnum(items[j])
    decreases bound, 0, |items| - i
  {
    if i == |items| then []
    else
      [if items[i].Int? then Wrap(FixnumRef(items[i].i), call, i) else RewriteFixnum(items[i])]
      + FixnumAll(items, call, i + 1, bound)
  }

  /** The traversal leaves a reference as it is: the `sexp` node stops it and
      the wrapping array holds no integer. */
  lemma FixnumRefWalk(v: int, call: bool, i: nat)
    ensures RewriteFixnum(Wrap(FixnumRef(v), call, i)) == Wrap(FixnumRef(v), call, i)
  {
    if call && i > 1 {
      var w := [FixnumRef(v)];
      ChildrenSmaller(w);
      assert RewriteFixnum(List(w)).items[0] == RewriteFixnum(FixnumRef(v));
    }
  }

  /** The model is the walk of the source: the block on a node's elements,
      then the walk of each element as the block left it. */
  lemma FixnumFaithful(items: seq<Node>)
    requires !Stops(items, "sexp")
    ensures |RewriteFixnum(List(items)).items| == |items|
    ensures forall j :: 0 <= j < |items| ==>
      RewriteFixnum(List(items)).items[j] == RewriteFixnum(FixnumElem(items[j], IsCall(items), j))
  {
    forall j | 0 <= j < |items|
      ensures RewriteFixnum(List(items)).items[j] == RewriteFixnum(FixnumElem(items[j], IsCall(items), j))
    {
      if items[j].Int? { FixnumRefWalk(items[j].i, IsCall(items), j); }
    }
  }

  /** The pass as the source runs it: the block on a node, then the walk
      into each element that is an array. */
  method RewriteFixnumConst(n: Node) returns (r: Node)
    ensures r == RewriteFixnum(n)
    decreases Size(n), 1
  {
    if !n.List? || Stops(n.items, "sexp") {
      return n;
    }
    var items := n.items;
    var e := FixnumBlock(items);
    ChildrenSmaller(items);
    e := FixnumWalk(items, e, Size(n));
    r := List(e);
  }

  /** The block of `rewrite_fixnumconst` on the elements of one node
      (transform.rb:102-116). */
  method FixnumBlock(items: seq<Node>) returns (e: seq<Node>)
    ensures |e| == |items|
    ensures forall j :: 0 <= j < |items| ==> e[j] == FixnumElem(items[j], IsCall(items), j)
  {
    var call := IsCall(items);
    e := items;
    var i := 0;
    while i < |e|
      invariant i <= |e| == |items|
      invariant forall j :: 0 <= j < i ==> e[j] == FixnumElem(items[j], call, j)
      invariant forall j :: i <= j < |e| ==> e[j] == items[j]
    {
      if e[i].Int? {
        e := e[i := FixnumRef(e[i].i)];
        if call && i > 1 {
          e := e[i := List([e[i]])];
        }
      }
      i := i + 1;
    }
  }

  /** The walk into the elements `es` the block left, `items` being those it was given. */
  method FixnumWalk(items: seq<Node>, es: seq<Node>, bound: nat) returns (e: seq<Node>)
    requires |es| == |items| && forall j :: 0 <= j < |items| ==> Size(items[j]) < bound
    requires forall j :: 0 <= j < |items| ==> es[j] == FixnumElem(items[j], IsCall(items), j)
    ensures e == FixnumAll(items, IsCall(items), 0, bound)
    decreases bound, 0
  {
    e := es;
    var i := 0;
    while i < |e|
      invariant i <= |e| == |items|
      invariant forall j :: 0 <= j < i ==>
        e[j] == if items[j].Int? then Wrap(FixnumRef(items[j].i), IsCall(items), j) else RewriteFixnum(items[j])
      invariant forall j :: i <= j < |e| ==> e[j] == es[j]
    {
      // a reference the block built is left as it is by the walk (FixnumRefWalk)
      if e[i].List? && !items[i].Int? {
        var x := RewriteFixnumConst(e[i]);
        e := e[i := x];
      }
      i := i + 1;
    }
  }

  /** The property of a node of holding no integer element, unless it is a
      `sexp` node, where the traversal stops. */
  function NoInt(): seq<Node> -> bool {
    (items: seq<Node>) => Stops(items, "sexp") || forall j :: 0 <= j < |items| ==> !items[j].Int?
  }

  lemma FixnumRefDone(v: int, call: bool, i: nat)
    ensures Everywhere(Wrap(FixnumRef(v), call, i), "sexp", NoInt())
  {
    var P := NoInt();
    EverywhereBuild(FixnumRef(v).items, "sexp", P);
    if call && i > 1 {
      EverywhereBuild([FixnumRef(v)], "sexp", P);
    }
  }

  /** After `rewrite_fixnumconst` no node the traversal reaches outside `sexp`
      holds an integer. */
  lemma {:induction false} FixnumDone(n: Node)
    ensures Everywhere(RewriteFixnum(n), "sexp", NoInt())
    decreases Size(n)
  {
    var P := NoInt();
    match n
    case List(items) =>
      if Stops(items, "sexp") {
        EverywhereBuild(items, "sexp", P);
      } else {
        var rs := RewriteFixnum(n).items;
        ChildrenSmaller(items);
        forall j | 0 <= j < |rs| ensures Everywhere(rs[j], "sexp", P) {
          if items[j].Int? { FixnumRefDone(items[j].i, IsCall(items), j); } else { FixnumDone(items[j]); }
        }
        forall j | 0 <= j < |rs| ensures !rs[j].Int? {
          if items[j].Int? { assert FixnumRef(items[j].i).List?; }
        }
        EverywhereBuild(rs, "sexp", P);
      }
    case _ =>
      AtomEverywhere(n, "sexp", P);
  }

  /** A tree with no integer outside `sexp` is left as it is. */
  lemma {:induction false} FixnumFixed(n: Node)
    requires Everywhere(n, "sexp", NoInt())
    ensures RewriteFixnum(n) == n
    decreases Size(n)
  {
    match n
    case List(items) =>
      EverywhereSplit(items, "sexp", NoInt());
      if !Stops(items, "sexp") {
        ChildrenSmaller(items);
        var rs := RewriteFixnum(n).items;
        forall j | 0 <= j < |items| ensures rs[j] == items[j] {
          FixnumFixed(items[j]);
        }
        assert rs == items;
      }
    case _ =>
  }

  /** Running the pass twice is running it once. */
  lemma FixnumIdempotent(n: Node)
    ensures RewriteFixnum(RewriteFixnum(n)) == RewriteFixnum(n)
  {
    FixnumDone(n);
    FixnumFixed(RewriteFixnum(n));
  }

  // ---------------------------------------------------------------------
  // rewrite_strconst

  /** `(sexp (call __get_string label))` */
  function StrRef(l: Name): Node {
    List([Sym("sexp"), List([Sym("call"), Sym("__get_string"), Sym(l)])])
  }

  /** `@string_constants` with the emitter's label counter. */
  datatype Table = Table(constants: map<string, Name>, next: nat)

  /** Every entry of `a` is in `b`, with the same label. */
  predicate Sub(a: map<string, Name>, b: map<string, Name>) {
    forall s :: s in a ==> s in b && b[s] == a[s]
  }

  /** `t2` keeps every entry of `t1`, and its counter has not gone back. */
  predicate Extends(t1: Table, t2: Table) {
    t1.next <= t2.next && Sub(t1.constants, t2.constants)
  }

  /** The counter moved on by exactly the number of entries added. */
  predicate Counted(t1: Table, t2: Table) {
    t2.next - t1.next == |t2.constants| - |t1.constants|
  }

  /** `l` is one of the labels the counter handed out before reaching `next`. */
  ghost predicate LabelBelow(l: Name, next: nat) {
    exists k: nat :: k < next && l == LabelName(k)
  }

  /** Every label in the table came from the counter, and no two strings share one. */
  ghost predicate ValidTable(t: Table) {
    (forall s :: s in t.constants ==> LabelBelow(t.constants[s], t.next)) &&
    (forall s1, s2 :: s1 in t.constants && s2 in t.constants && s1 != s2 ==> t.constants[s1] != t.constants[s2])
  }

  /** The lookup of the block (transform.rb:77-81): the label of `s`, taken
      from the counter and entered in the table when `s` is new. */
  function Intern(t: Table, s: string): (r: (Name, Table))
    ensures s in r.1.constants && r.1.constants[s] == r.0
    ensures s in t.constants ==> r.1 == t
    ensures s !in t.constants ==> r.0 == LabelName(t.next)
  {
    if s in t.constants then (t.constants[s], t)
    else (LabelName(t.next), Table(t.constants[s := LabelName(t.next)], t.next + 1))
  }

  /** Interning only adds: the entry for `s`, with one label taken from the counter when it is new. */
  lemma InternTable(t: Table, s: string)
    ensures Extends(t, Intern(t, s).1) && Counted(t, Intern(t, s).1)
    ensures forall v :: v in Intern(t, s).1.constants <==> v in t.constants || v == s
  {
  }

  /** A new label is one the table does not hold yet. */
  lemma InternValid(t: Table, s: string)
    requires ValidTable(t)
    ensures ValidTable(Intern(t, s).1)
  {
    if s !in t.constants {
      var l := LabelName(t.next);
      forall s1 | s1 in t.constants ensures t.constants[s1] != l {
        var k: nat :| k < t.next && t.constants[s1] == LabelName(k);
        LabelNameInjective(k, t.next);
      }
      var t2 := Intern(t, s).1;
      forall s1 | s1 in t2.constants ensures LabelBelow(t2.constants[s1], t2.next) {
        if s1 == s {
          assert t2.constants[s1] == LabelName(t.next);
        } else {
          var k: nat :| k < t.next && t.constants[s1] == LabelName(k);
          assert t2.constants[s1] == LabelName(k);
        }
      }
    }
  }

  /** What the block does to element `i` of a node: the new element and the table after it. */
  function StrElem(x: Node, call: bool, i: nat, t: Table): (Node, Table) {
    if x.Str? then
      var p := Intern(t, x.s);
      (Wrap(StrRef(p.0), call, i), p.1)
    else (x, t)
  }

  /** The block's loop over the first `k` elements (transform.rb:75-95). */
  function StrPrefix(items: seq<Node>, call: bool, k: nat, t: Table): (r: (seq<Node>, Table))
    requires k <= |items|
    ensures |r.0| == k
  {
    if k == 0 then ([], t)
    else
      var p := StrPrefix(items, call, k - 1, t);
      var x := StrElem(items[k - 1], call, k - 1, p.1);
      (p.0 + [x.0], x.1)
  }

  /** `rewrite_strconst(exp)` (transform.rb:69-96): the traversal stops at
      `sexp`; at every other node the block first interns the strings among
      its elements, then the walk goes on into the elements, left to right,
      with the table threaded through. A reference the block built is left
      as it is by the walk (`StrRefWalk`), so it is not walked here. */
  function StrNode(n: Node, t: Table): (r: (Node, Table))
    ensures r.0.List? <==> n.List?
    ensures !n.List? ==> r == (n, t)
    ensures n.List? ==> |r.0.items| == |n.items|
    decreases Size(n), 1
  {
    match n
    case List(items) =>
      if Stops(items, "sexp") then (n, t)
      else
        var b := StrPrefix(items, IsCall(items), |items|, t);
        ChildrenSmaller(items);
        var w := StrKids(items, b.0, |items|, b.1, Size(n));
        (List(w.0), w.1)
    case _ => (n, t)
  }

  /** The walk into the first `k` elements, `es` being the elements the block left. */
  function StrKids(items: seq<Node>, es: seq<Node>, k: nat, t: Table, bound: nat): (r: (seq<Node>, Table))
    requires |es| == |items| && k <= |items|
    requires forall j :: 0 <= j < |items| ==> Size(items[j]) < bound
    ensures |r.0| == k
    decreases bound, 0, k
  {
    if k == 0 then ([], t)
    else
      var p := StrKids(items, es, k - 1, t, bound);
      if items[k - 1].Str? then (p.0 + [es[k - 1]], p.1)
      else
        var x := StrNode(items[k - 1], p.1);
        (p.0 + [x.0], x.1)
  }

  /** The strings among the first `k` elements. */
  function DirectStrings(items: seq<Node>, k: nat): set<string>
    requires k <= |items|
  {
    if k == 0 then {}
    else DirectStrings(items, k - 1) + (if items[k - 1].Str? then {items[k - 1].s} else {})
  }

  /** The strings the traversal of `n` meets: every string element of a node it visits. */
  function Strings(n: Node): set<string>
    decreases Size(n), 1
  {
    match n
    case List(items) =>
      if Stops(items, "sexp") then {}
      else
        ChildrenSmaller(items);
        DirectStrings(items, |items|) + KidStrings(items, |items|, Size(n))
    case _ => {}
  }

  /** The strings met inside the first `k` elements. */
  function KidStrings(items: seq<Node>, k: nat, bound: nat): set<string>
    requires k <= |items|
    requires forall j :: 0 <= j < |items| ==> Size(items[j]) < bound
    decreases bound, 0, k
  {
    if k == 0 then {}
    else KidStrings(items, k - 1, bound) + (if items[k - 1].Str? then {} else Strings(items[k - 1]))
  }

  lemma ExtendsTrans(t1: Table, t2: Table, t3: Table)
    requires Extends(t1, t2) && Counted(t1, t2) && Extends(t2, t3) && Counted(t2, t3)
    ensures Extends(t1, t3) && Counted(t1, t3)
  {
  }

  /** The block's loop: entries are only added, one label per new string,
      and exactly the strings among the elements become keys. */
  lemma {:induction false} StrPrefixTable(items: seq<Node>, call: bool, k: nat, t: Table)
    requires k <= |items|
    ensures Extends(t, StrPrefix(items, call, k, t).1) && Counted(t, StrPrefix(items, call, k, t).1)
    ensures forall v :: v in StrPrefix(items, call, k, t).1.constants <==> v in t.constants || v in DirectStrings(items, k)
  {
    if k > 0 {
      StrPrefixTable(items, call, k - 1, t);
      var p := StrPrefix(items, call, k - 1, t);
      var x := StrElem(items[k - 1], call, k - 1, p.1);
      assert StrPrefix(items, call, k, t).1 == x.1;
      if items[k - 1].Str? { InternTable(p.1, items[k - 1].s); }
      ExtendsTrans(t, p.1, x.1);
    }
  }

  lemma {:induction false} StrPrefixValid(items: seq<Node>, call: bool, k: nat, t: Table)
    requires k <= |items| && ValidTable(t)
    ensures ValidTable(StrPrefix(items, call, k, t).1)
  {
    if k > 0 {
      StrPrefixValid(items, call, k - 1, t);
      var p := StrPrefix(items, call, k - 1, t);
      if items[k - 1].Str? {
        InternValid(p.1, items[k - 1].s);
      }
      assert StrPrefix(items, call, k, t).1 == StrElem(items[k - 1], call, k - 1, p.1).1;
    }
  }

  /** The whole pass on the table: entries are only added, and the counter
      moves on by one label per new string. */
  lemma {:induction false} StrNodeTable(n: Node, t: Table)
    ensures Extends(t, StrNode(n, t).1) && Counted(t, StrNode(n, t).1)
    decreases Size(n), 1
  {
    match n
    case List(items) =>
      if !Stops(items, "sexp") {
        var b := StrPrefix(items, IsCall(items), |items|, t);
        StrPrefixTable(items, IsCall(items), |items|, t);
        ChildrenSmaller(items);
        StrKidsTable(items, b.0, |items|, b.1, Size(n));
        ExtendsTrans(t, b.1, StrKids(items, b.0, |items|, b.1, Size(n)).1);
      }
    case _ =>
  }

  lemma {:induction false} StrKidsTable(items: seq<Node>, es: seq<Node>, k: nat, t: Table, bound: nat)
    requires |es| == |items| && k <= |items|
    requires forall j :: 0 <= j < |items| ==> Size(items[j]) < bound
    ensures Extends(t, StrKids(items, es, k, t, bound).1) && Counted(t, StrKids(items, es, k, t, bound).1)
    decreases bound, 0, k
  {
    if k > 0 {
      StrKidsTable(items, es, k - 1, t, bound);
      var p := StrKids(items, es, k - 1, t, bound);
      if !items[k - 1].Str? {
        var x := StrNode(items[k - 1], p.1);
        assert StrKids(items, es, k, t, bound).1 == x.1;
        StrNodeTable(items[k - 1], p.1);
        ExtendsTrans(t, p.1, x.1);
      }
    }
  }

  /** Every string the traversal meets becomes a key, and no other. */
  lemma {:induction false} StrNodeKeys(n: Node, t: Table)
    ensures forall v :: v in StrNode(n, t).1.constants <==> v in t.constants || v in Strings(n)
    decreases Size(n), 1
  {
    match n
    case List(items) =>
      if !Stops(items, "sexp") {
        var b := StrPrefix(items, IsCall(items), |items|, t);
        StrPrefixTable(items, IsCall(items), |items|, t);
        ChildrenSmaller(items);
        StrKidsKeys(items, b.0, |items|, b.1, Size(n));
      }
    case _ =>
  }

  lemma {:induction false} StrKidsKeys(items: seq<Node>, es: seq<Node>, k: nat, t: Table, bound: nat)
    requires |es| == |items| && k <= |items|
    requires forall j :: 0 <= j < |items| ==> Size(items[j]) < bound
    ensures forall v :: v in StrKids(items, es, k, t, bound).1.constants <==> v in t.constants || v in KidStrings(items, k, bound)
    decreases bound, 0, k
  {
    if k > 0 {
      StrKidsKeys(items, es, k - 1, t, bound);
      var p := StrKids(items, es, k - 1, t, bound);
      if !items[k - 1].Str? {
        var x := StrNode(items[k - 1], p.1);
        assert StrKids(items, es, k, t, bound).1 == x.1;
        StrNodeKeys(items[k - 1], p.1);
      }
    }
  }

  /** A valid table stays valid through the pass. */
  lemma {:induction false} StrNodeValid(n: Node, t: Table)
    requires ValidTable(t)
    ensures ValidTable(StrNode(n, t).1)
    decreases Size(n), 1
  {
    match n
    case List(items) =>
      if !Stops(items, "sexp") {
        var b := StrPrefix(items, IsCall(items), |items|, t);
        StrPrefixValid(items, IsCall(items), |items|, t);
        ChildrenSmaller(items);
        StrKidsValid(items, b.0, |items|, b.1, Size(n));
      }
    case _ =>
  }

  lemma {:induction false} StrKidsValid(items: seq<Node>, es: seq<Node>, k: nat, t: Table, bound: nat)
    requires |es| == |items| && k <= |items| && ValidTable(t)
    requires forall j :: 0 <= j < |items| ==> Size(items[j]) < bound
    ensures ValidTable(StrKids(items, es, k, t, bound).1)
    decreases bound, 0, k
  {
    if k > 0 {
      StrKidsValid(items, es, k - 1, t, bound);
      if !items[k - 1].Str? {
        StrNodeValid(items[k - 1], StrKids(items, es, k - 1, t, bound).1);
      }
    }
  }

  lemma SubTrans(a: map<string, Name>, b: map<string, Name>, c: map<string, Name>)
    requires Sub(a, b) && Sub(b, c)
    ensures Sub(a, c)
  {
  }

  /** The tree with every string the traversal meets replaced by the
      reference to its label in `m` (a string `m` does not hold is left). */
  function Interned(n: Node, m: map<string, Name>): (r: Node)
    ensures r.List? <==> n.List?
    ensures !n.List? ==> r == n
    decreases Size(n), 1
  {
    match n
    case List(items) =>
      if Stops(items, "sexp") then n
      else
        ChildrenSmaller(items);
        List(InternedAll(items, IsCall(items), m, 0, Size(n)))
    case _ => n
  }

  function InternedAll(items: seq<Node>, call: bool, m: map<string, Name>, i: nat, bound: nat): (r: seq<Node>)
    requires i <= |items| && forall j :: i <= j < |items| ==> Size(items[j]) < bound
    ensures |r| == |items| - i
    ensures forall j :: i <= j < |items| ==>
      r[j - i] == if items[j].Str? && items[j].s in m then Wrap(StrRef(m[items[j].s]), call, j) else Interned(items[j], m)
    decreases bound, 0, |items| - i
  {
    if i == |items| then []
    else
      [if items[i].Str? && items[i].s in m then Wrap(StrRef(m[items[i].s]), call, i) else Interned(items[i], m)]
      + InternedAll(items, call, m, i + 1, bound)
  }

  /** The block's loop puts at each string the reference to the label the
      final table holds for it, and leaves every other element. */
  lemma {:induction false} StrPrefixElems(items: seq<Node>, call: bool, k: nat, t: Table, m: map<string, Name>)
    requires k <= |items| && Sub(StrPrefix(items, call, k, t).1.constants, m)
    ensures forall j :: 0 <= j < k && items[j].Str? ==> items[j].s in m
    ensures forall j :: 0 <= j < k ==>
      StrPrefix(items, call, k, t).0[j] == if items[j].Str? then Wrap(StrRef(m[items[j].s]), call, j) else items[j]
  {
    if k > 0 {
      var p := StrPrefix(items, call, k - 1, t);
      var x := StrElem(items[k - 1], call, k - 1, p.1);
      assert StrPrefix(items, call, k, t) == (p.0 + [x.0], x.1);
      if items[k - 1].Str? { InternTable(p.1, items[k - 1].s); }
      SubTrans(p.1.constants, x.1.constants, m);
      StrPrefixElems(items, call, k - 1, t, m);
    }
  }

  /** The walk puts at each other element its interned tree, by the final table. */
  lemma {:induction false} StrNodeInterned(n: Node, t: Table, m: map<string, Name>)
    requires Sub(StrNode(n, t).1.constants, m)
    ensures StrNode(n, t).0 == Interned(n, m)
    decreases Size(n), 1
  {
    match n
    case List(items) =>
      if !Stops(items, "sexp") {
        var call := IsCall(items);
        var b := StrPrefix(items, call, |items|, t);
        ChildrenSmaller(items);
        var w := StrKids(items, b.0, |items|, b.1, Size(n));
        StrKidsTable(items, b.0, |items|, b.1, Size(n));
        SubTrans(b.1.constants, w.1.constants, m);
        StrPrefixElems(items, call, |items|, t, m);
        StrKidsInterned(items, b.0, |items|, b.1, Size(n), m);
        assert w.0 == InternedAll(items, call, m, 0, Size(n));
      }
    case _ =>
  }

  lemma {:induction false} StrKidsInterned(items: seq<Node>, es: seq<Node>, k: nat, t: Table, bound: nat, m: map<string, Name>)
    requires |es| == |items| && k <= |items|
    requires forall j :: 0 <= j < |items| ==> Size(items[j]) < bound
    requires Sub(StrKids(items, es, k, t, bound).1.constants, m)
    ensures forall j :: 0 <= j < k ==>
      StrKids(items, es, k, t, bound).0[j] == if items[j].Str? then es[j] else Interned(items[j], m)
    decreases bound, 0, k
  {
    if k > 0 {
      var p := StrKids(items, es, k - 1, t, bound);
      if !items[k - 1].Str? {
        var x := StrNode(items[k - 1], p.1);
        StrNodeTable(items[k - 1], p.1);
        SubTrans(p.1.constants, x.1.constants, m);
        StrNodeInterned(items[k - 1], p.1, m);
      }
      StrKidsInterned(items, es, k - 1, t, bound, m);
    }
  }

  /** `rewrite_strconst` replaces every string it meets by the reference to
      the label the table holds for it at the end: identical strings share
      one label, wherever they stand. */
  lemma StrconstInterns(n: Node, t: Table)
    ensures StrNode(n, t).0 == Interned(n, StrNode(n, t).1.constants)
  {
    StrNodeInterned(n, t, StrNode(n, t).1.constants);
  }

  /** The property of a node of holding no string element, unless it is a
      `sexp` node, where the traversal stops. */
  function NoStr(): seq<Node> -> bool {
    (items: seq<Node>) => Stops(items, "sexp") || forall j :: 0 <= j < |items| ==> !items[j].Str?
  }

  lemma StrRefDone(l: Name, call: bool, i: nat)
    ensures Everywhere(Wrap(StrRef(l), call, i), "sexp", NoStr())
  {
    var P := NoStr();
    EverywhereBuild(StrRef(l).items, "sexp", P);
    if call && i > 1 {
      EverywhereBuild([StrRef(l)], "sexp", P);
    }
  }

  lemma {:induction false} DirectMember(items: seq<Node>, k: nat, j: nat)
    requires j < k <= |items| && items[j].Str?
    ensures items[j].s in DirectStrings(items, k)
  {
    if j < k - 1 {
      DirectMember(items, k - 1, j);
    }
  }

  lemma {:induction false} KidMember(items: seq<Node>, k: nat, bound: nat, j: nat)
    requires j < k <= |items| && !items[j].Str?
    requires forall i :: 0 <= i < |items| ==> Size(items[i]) < bound
    ensures forall v :: v in Strings(items[j]) ==> v in KidStrings(items, k, bound)
  {
    if j < k - 1 {
      KidMember(items, k - 1, bound, j);
    }
  }

  /** Once every string met is in `m`, no node the traversal reaches outside
      `sexp` holds a string. */
  lemma {:induction false} InternedDone(n: Node, m: map<string, Name>)
    requires forall v :: v in Strings(n) ==> v in m
    ensures Everywhere(Interned(n, m), "sexp", NoStr())
    decreases Size(n)
  {
    var P := NoStr();
    match n
    case List(items) =>
      if Stops(items, "sexp") {
        EverywhereBuild(items, "sexp", P);
      } else {
        var rs := Interned(n, m).items;
        ChildrenSmaller(items);
        forall j | 0 <= j < |rs| ensures Everywhere(rs[j], "sexp", P) && !rs[j].Str? {
          if items[j].Str? {
            DirectMember(items, |items|, j);
            StrRefDone(m[items[j].s], IsCall(items), j);
          } else {
            KidMember(items, |items|, Size(n), j);
            InternedDone(items[j], m);
          }
        }
        EverywhereBuild(rs, "sexp", P);
      }
    case _ =>
      AtomEverywhere(n, "sexp", P);
  }

  /** After `rewrite_strconst` no node the traversal reaches outside `sexp`
      holds a string. */
  lemma StrconstDone(n: Node, t: Table)
    ensures Everywhere(StrNode(n, t).0, "sexp", NoStr())
  {
    StrconstInterns(n, t);
    StrNodeKeys(n, t);
    InternedDone(n, StrNode(n, t).1.constants);
  }

  lemma {:induction false} StrPrefixUnchanged(items: seq<Node>, call: bool, k: nat, t: Table)
    requires k <= |items| && forall j :: 0 <= j < |items| ==> !items[j].Str?
    ensures StrPrefix(items, call, k, t) == (items[..k], t)
  {
    if k > 0 {
      StrPrefixUnchanged(items, call, k - 1, t);
      assert items[..k] == items[..k - 1] + [items[k - 1]];
    }
  }

  /** A tree with no string outside `sexp` is left as it is, and so is the table. */
  lemma {:induction false} StrFixed(n: Node, t: Table)
    requires Everywhere(n, "sexp", NoStr())
    ensures StrNode(n, t) == (n, t)
    decreases Size(n), 1
  {
    match n
    case List(items) =>
      EverywhereSplit(items, "sexp", NoStr());
      if !Stops(items, "sexp") {
        StrPrefixUnchanged(items, IsCall(items), |items|, t);
        assert items[..|items|] == items;
        ChildrenSmaller(items);
        StrKidsFixed(items, items, |items|, t, Size(n));
      }
    case _ =>
  }

  lemma {:induction false} StrKidsFixed(items: seq<Node>, es: seq<Node>, k: nat, t: Table, bound: nat)
    requires |es| == |items| && k <= |items|
    requires forall j :: 0 <= j < |items| ==> Size(items[j]) < bound
    requires forall j :: 0 <= j < |items| ==> !items[j].Str? && Everywhere(items[j], "sexp", NoStr())
    ensures StrKids(items, es, k, t, bound) == (items[..k], t)
    decreases bound, 0, k
  {
    if k > 0 {
      StrKidsFixed(items, es, k - 1, t, bound);
      StrFixed(items[k - 1], t);
      assert items[..k] == items[..k - 1] + [items[k - 1]];
    }
  }

  /** Running the pass again changes neither the tree nor the table. */
  lemma StrconstIdempotent(n: Node, t: Table, t2: Table)
    ensures StrNode(StrNode(n, t).0, t2) == (StrNode(n, t).0, t2)
  {
    StrconstDone(n, t);
    StrFixed(StrNode(n, t).0, t2);
  }

  /** The walk leaves a reference the block built as it is. */
  lemma StrRefWalk(l: Name, call: bool, i: nat, t: Table)
    ensures StrNode(Wrap(StrRef(l), call, i), t) == (Wrap(StrRef(l), call, i), t)
  {
    StrRefDone(l, call, i);
    StrFixed(Wrap(StrRef(l), call, i), t);
  }

  /** The compiler's state the pass updates: `@string_constants` and the
      emitter's label counter behind `@e.get_local`. */
  class StringTable {
    var constants: map<string, Name>
    var next: nat

    function Tab(): Table
      reads this
    {
      Table(constants, next)
    }

    constructor (next0: nat)
      ensures constants == map[] && next == next0
    {
      constants := map[];
      next := next0;
    }

    /** `@e.get_local`: the next label of the counter. */
    method GetLocal() returns (l: Name)
      modifies this
      ensures l == LabelName(old(next)) && next == old(next) + 1
      ensures constants == old(constants)
    {
      l := LabelName(next);
      next := next + 1;
    }

    /** transform.rb:77-81 */
    method InternString(s: string) returns (l: Name)
      modifies this
      ensures (l, Tab()) == Intern(old(Tab()), s)
    {
      if s in constants {
        l := constants[s];
      } else {
        l := GetLocal();
        constants := constants[s := l];
      }
    }

    /** The block of `rewrite_strconst` on the elements of one node
        (transform.rb:72-94). */
    method StrconstBlock(items: seq<Node>) returns (e: seq<Node>)
      modifies this
      ensures (e, Tab()) == StrPrefix(items, IsCall(items), |items|, old(Tab()))
    {
      var call := IsCall(items);
      e := items;
      var i := 0;
      while i < |e|
        invariant i <= |e| == |items|
        invariant (e[..i], Tab()) == StrPrefix(items, call, i, old(Tab()))
        invariant forall j :: i <= j < |e| ==> e[j] == items[j]
      {
        if e[i].Str? {
          var lab := InternString(e[i].s);
          e := e[i := StrRef(lab)];
          if call && i > 1 {
            e := e[i := List([e[i]])];
          }
        }
        assert e[..i + 1] == e[..i] + [e[i]];
        i := i + 1;
      }
      assert e[..i] == e;
    }

    /** `rewrite_strconst(exp)` as the source runs it: the block on a node,
        then the walk into each element that is an array. */
    method RewriteStrconst(n: Node) returns (r: Node)
      modifies this
      ensures (r, Tab()) == StrNode(n, old(Tab()))
      decreases Size(n), 1
    {
      if !n.List? || Stops(n.items, "sexp") {
        return n;
      }
      var items := n.items;
      ghost var t0 := Tab();
      var e := StrconstBlock(items);
      StrPrefixElems(items, IsCall(items), |items|, t0, Tab().constants);
      ChildrenSmaller(items);
      e := StrconstWalk(items, e, Size(n));
      r := List(e);
    }

    /** The walk into the elements `es` the block left, `items` being those it was given. */
    method StrconstWalk(items: seq<Node>, es: seq<Node>, bound: nat) returns (e: seq<Node>)
      requires |es| == |items|
      requires forall j :: 0 <= j < |items| ==> Size(items[j]) < bound
      requires forall j :: 0 <= j < |items| && !items[j].Str? ==> es[j] == items[j]
      modifies this
      ensures (e, Tab()) == StrKids(items, es, |items|, old(Tab()), bound)
      decreases bound, 0
    {
      e := es;
      var i := 0;
      while i < |e|
        invariant i <= |e| == |items|
        invariant (e[..i], Tab()) == StrKids(items, es, i, old(Tab()), bound)
        invariant forall j :: i <= j < |e| ==> e[j] == es[j]
      {
        ghost var p := StrKids(items, es, i, old(Tab()), bound);
        // a reference the block built is left as it is by the walk (StrRefWalk)
        if e[i].List? && !items[i].Str? {
          var x := RewriteStrconst(e[i]);
          e := e[i := x];
          assert (x, Tab()) == StrNode(items[i], p.1);
        }
        assert e[..i + 1] == e[..i] + [e[i]];
        assert (e[..i + 1], Tab()) == StrKids(items, es, i + 1, old(Tab()), bound);
        i := i + 1;
      }
      assert e[..i] == e;
    }
  }
}
