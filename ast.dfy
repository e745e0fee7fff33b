/** Expression trees of the compiler, the depth-first traversal the passes run
    on, the ordered sets the resolver keeps, and the label generator.

    In the compiler an expression node is a Ruby array whose element 0 is
    normally a symbol tag (`:assign`, `:callm`, `:lambda`, ...) and whose
    other elements are nested arrays or atoms. Here a node is a value. */
module Ast {

  /** A Ruby symbol's text. The parser never produces an empty symbol. */
  type Name = s: string | |s| > 0 witness "a"

  datatype Node =
    | Sym(name: Name)
    | Str(s: string)
    | Int(i: int)
    | Nil
    | List(items: seq<Node>)

  datatype Option<T> = None | Some(value: T)

  /** `n == :t` */
  predicate IsSym(n: Node, t: string) {
    n.Sym? && n.name == t
  }

  /** `items[0] == :t`: the node whose elements are `items` carries tag `t`. */
  predicate Tagged(items: seq<Node>, t: string) {
    |items| > 0 && IsSym(items[0], t)
  }

  /** Ruby's `a[i]`: nil past the end. */
  function At(items: seq<Node>, i: nat): (r: Node)
    ensures i < |items| ==> r == items[i]
    ensures i >= |items| ==> r == Nil
  {
    if i < |items| then items[i] else Nil
  }

  /** Ruby's `a[k..-1]`: nil when `k` is past the end, a fresh array otherwise. */
  function From(items: seq<Node>, k: nat): (r: Node)
    ensures k <= |items| <==> r.List?
    ensures k <= |items| ==> r.items == items[k..]
  {
    if k <= |items| then List(items[k..]) else Nil
  }

  /** Ruby truthiness of an element (this tree has no `false` atom). */
  predicate Truthy(n: Node) {
    !n.Nil?
  }

  // ---------------------------------------------------------------------
  // Size, the termination measure of every recursive pass

  function Size(n: Node): nat
    decreases n, 1
  {
    match n
    case List(items) => 1 + SizeList(items)
    case _ => 1
  }

  function SizeList(s: seq<Node>): nat
    decreases s, 0
  {
    if s == [] then 0 else Size(s[0]) + SizeList(s[1..])
  }

  lemma {:induction false} SizeListAt(s: seq<Node>, i: nat)
    requires i < |s|
    ensures Size(s[i]) <= SizeList(s)
  {
    if i > 0 {
      SizeListAt(s[1..], i - 1);
    }
  }

  lemma {:induction false} SizeListFrom(s: seq<Node>, k: nat)
    requires k <= |s|
    ensures SizeList(s[k..]) <= SizeList(s)
  {
    if k > 0 {
      SizeListFrom(s[1..], k - 1);
      assert s[1..][k - 1..] == s[k..];
    }
  }

  lemma {:induction false} SizeListAppend(a: seq<Node>, b: seq<Node>)
    ensures SizeList(a + b) == SizeList(a) + SizeList(b)
  {
    if a == [] {
      assert a + b == b;
    } else {
      assert (a + b)[0] == a[0] && (a + b)[1..] == a[1..] + b;
      SizeListAppend(a[1..], b);
    }
  }

  /** Every element of a list node is smaller than the node. */
  lemma ChildSmaller(items: seq<Node>, i: nat)
    requires i < |items|
    ensures Size(items[i]) < Size(List(items))
  {
    SizeListAt(items, i);
  }

  /** A slice of a list node's elements is smaller than the node. */
  lemma FromSmaller(items: seq<Node>, k: nat)
    requires 0 < k <= |items|
    ensures 1 + SizeList(items[k..]) < Size(List(items))
  {
    assert SizeList(items) == Size(items[0]) + SizeList(items[1..]);
    SizeListFrom(items[1..], k - 1);
    assert items[1..][k - 1..] == items[k..];
  }

  // ---------------------------------------------------------------------
  // The depth-first traversal

  /** Whether the traversal stops at a node with elements `items`:
      its tag is `skip` (the empty string stops nowhere, as no symbol is empty). */
  predicate Stops(items: seq<Node>, skip: string) {
    Tagged(items, skip)
  }

  /** The element sequences of the list nodes a depth-first, pre-order
      traversal of `n` visits: a list node is visited, then, unless it stops
      there, each of its elements that is itself a list, left to right.
      Atoms are never visited. */
  function Visited(n: Node, skip: string): (r: seq<seq<Node>>)
    decreases n, 1
    ensures n.List? ==> |r| > 0 && r[0] == n.items
    ensures !n.List? ==> r == []
  {
    match n
    case List(items) =>
      [items] + (if Stops(items, skip) then [] else VisitedList(items, skip))
    case _ => []
  }

  function VisitedList(s: seq<Node>, skip: string): seq<seq<Node>>
    decreases s, 0
  {
    if s == [] then [] else Visited(s[0], skip) + VisitedList(s[1..], skip)
  }

  /** Every node a traversal visits satisfies `P`. */
  ghost predicate Everywhere(n: Node, skip: string, P: seq<Node> -> bool) {
    forall k :: 0 <= k < |Visited(n, skip)| ==> P(Visited(n, skip)[k])
  }

  /** Everywhere over a list of nodes, each traversed in turn. */
  ghost predicate EverywhereList(s: seq<Node>, skip: string, P: seq<Node> -> bool) {
    forall k :: 0 <= k < |VisitedList(s, skip)| ==> P(VisitedList(s, skip)[k])
  }

  /** `P` holds of every node of `a + b` exactly when it holds of every node of each. */
  lemma AllAppend(a: seq<seq<Node>>, b: seq<seq<Node>>, P: seq<Node> -> bool)
    ensures (forall k :: 0 <= k < |a + b| ==> P((a + b)[k])) <==>
            (forall k :: 0 <= k < |a| ==> P(a[k])) && (forall k :: 0 <= k < |b| ==> P(b[k]))
  {
    if (forall k :: 0 <= k < |a| ==> P(a[k])) && (forall k :: 0 <= k < |b| ==> P(b[k])) {
      forall k | 0 <= k < |a + b| ensures P((a + b)[k]) {
        if k < |a| { assert (a + b)[k] == a[k]; } else { assert (a + b)[k] == b[k - |a|]; }
      }
    }
    if forall k :: 0 <= k < |a + b| ==> P((a + b)[k]) {
      forall k | 0 <= k < |a| ensures P(a[k]) { assert (a + b)[k] == a[k]; }
      forall k | 0 <= k < |b| ensures P(b[k]) { assert (a + b)[|a| + k] == b[k]; }
    }
  }

  lemma {:induction false} EverywhereListCons(s: seq<Node>, skip: string, P: seq<Node> -> bool)
    requires s != []
    ensures EverywhereList(s, skip, P) <==>
            Everywhere(s[0], skip, P) && EverywhereList(s[1..], skip, P)
  {
    var a, b := Visited(s[0], skip), VisitedList(s[1..], skip);
    assert VisitedList(s, skip) == a + b;
    AllAppend(a, b, P);
  }

  /** A list node satisfies Everywhere exactly when it satisfies `P` itself and,
      unless the traversal stops there, every element does. */
  lemma {:induction false} EverywhereNode(items: seq<Node>, skip: string, P: seq<Node> -> bool)
    ensures Everywhere(List(items), skip, P) <==>
            P(items) && (Stops(items, skip) || EverywhereList(items, skip, P))
  {
    var rest := if Stops(items, skip) then [] else VisitedList(items, skip);
    assert Visited(List(items), skip) == [items] + rest;
    if P(items) && (Stops(items, skip) || EverywhereList(items, skip, P)) {
      forall k | 0 <= k < |[items] + rest| ensures P(([items] + rest)[k]) {
        if k > 0 { assert ([items] + rest)[k] == rest[k - 1]; }
      }
    }
    if Everywhere(List(items), skip, P) {
      assert ([items] + rest)[0] == items;
      forall k | 0 <= k < |rest| ensures P(rest[k]) { assert ([items] + rest)[k + 1] == rest[k]; }
    }
  }

  /** EverywhereList holds of a list whose every element satisfies Everywhere. */
  lemma {:induction false} EverywhereListAll(s: seq<Node>, skip: string, P: seq<Node> -> bool)
    requires forall i :: 0 <= i < |s| ==> Everywhere(s[i], skip, P)
    ensures EverywhereList(s, skip, P)
  {
    if s != [] {
      EverywhereListAll(s[1..], skip, P);
      EverywhereListCons(s, skip, P);
    }
  }

  /** And conversely every element of a list satisfying EverywhereList satisfies Everywhere. */
  lemma {:induction false} EverywhereListEach(s: seq<Node>, skip: string, P: seq<Node> -> bool, i: nat)
    requires EverywhereList(s, skip, P) && i < |s|
    ensures Everywhere(s[i], skip, P)
  {
    EverywhereListCons(s, skip, P);
    if i > 0 {
      EverywhereListEach(s[1..], skip, P, i - 1);
    }
  }

  /** Atoms are never visited. */
  lemma AtomEverywhere(n: Node, skip: string, P: seq<Node> -> bool)
    requires !n.List?
    ensures Everywhere(n, skip, P)
  {
  }

  /** A list node satisfies Everywhere when it satisfies `P` and, unless the
      traversal stops there, each of its elements does. */
  lemma EverywhereBuild(items: seq<Node>, skip: string, P: seq<Node> -> bool)
    requires P(items)
    requires !Stops(items, skip) ==> forall i :: 0 <= i < |items| ==> Everywhere(items[i], skip, P)
    ensures Everywhere(List(items), skip, P)
  {
    if !Stops(items, skip) {
      EverywhereListAll(items, skip, P);
    }
    EverywhereNode(items, skip, P);
  }

  /** The converse: what Everywhere of a list node says of the node and its elements. */
  lemma EverywhereSplit(items: seq<Node>, skip: string, P: seq<Node> -> bool)
    requires Everywhere(List(items), skip, P)
    ensures P(items)
    ensures !Stops(items, skip) ==> forall i :: 0 <= i < |items| ==> Everywhere(items[i], skip, P)
  {
    EverywhereNode(items, skip, P);
    if !Stops(items, skip) {
      forall i | 0 <= i < |items| ensures Everywhere(items[i], skip, P) {
        EverywhereListEach(items, skip, P, i);
      }
    }
  }

  /** Atoms are never visited, wherever they stand. */
  lemma AtomsEverywhere(items: seq<Node>, skip: string, P: seq<Node> -> bool)
    ensures forall j :: 0 <= j < |items| && !items[j].List? ==> Everywhere(items[j], skip, P)
  {
  }

  /** The property of a node of not carrying tag `t`. */
  function Untagged(t: string): seq<Node> -> bool {
    items => !Tagged(items, t)
  }

  /** Every element of a list node is smaller than the node. */
  lemma ChildrenSmaller(items: seq<Node>)
    ensures forall j :: 0 <= j < |items| ==> Size(items[j]) < Size(List(items))
  {
    forall j | 0 <= j < |items| ensures Size(items[j]) < Size(List(items)) {
      ChildSmaller(items, j);
    }
  }

  /** Ruby's `a[i] = x`: past the end the array grows, the gap filled with nil. */
  function SetAt(s: seq<Node>, i: nat, x: Node): (r: seq<Node>)
    ensures |r| == if i < |s| then |s| else i + 1
    ensures r[i] == x
    ensures forall j :: 0 <= j < |r| && j != i ==> r[j] == (if j < |s| then s[j] else Nil)
  {
    if i < |s| then s[i := x] else s + seq(i - |s|, _ => Nil) + [x]
  }

  /** `depth_first(tag) { |e| ...; :skip }` when the block rebuilds what it
      is given: every node tagged `tag` that the traversal reaches becomes `f`
      of its elements and is not descended into; every other list node has
      its elements rewritten in turn. */
  function RewriteTagged(n: Node, tag: string, f: seq<Node> -> seq<Node>): (r: Node)
    ensures r.List? <==> n.List?
    ensures !n.List? ==> r == n
    ensures n.List? && !Tagged(n.items, tag) ==> |r.items| == |n.items|
    decreases Size(n), 1
  {
    match n
    case List(items) =>
      if Tagged(items, tag) then List(f(items))
      else
        assert forall j :: 0 <= j < |items| ==> Size(items[j]) < Size(n) by {
          forall j | 0 <= j < |items| ensures Size(items[j]) < Size(n) { ChildSmaller(items, j); }
        }
        List(RewriteTaggedAll(items, 0, tag, f, Size(n)))
    case _ => n
  }

  function RewriteTaggedAll(items: seq<Node>, i: nat, tag: string, f: seq<Node> -> seq<Node>, bound: nat): (r: seq<Node>)
    requires i <= |items| && forall j :: i <= j < |items| ==> Size(items[j]) < bound
    ensures |r| == |items| - i
    ensures forall j :: i <= j < |items| ==> r[j - i] == RewriteTagged(items[j], tag, f)
    decreases bound, 0, |items| - i
  {
    if i == |items| then [] else [RewriteTagged(items[i], tag, f)] + RewriteTaggedAll(items, i + 1, tag, f, bound)
  }

  // ---------------------------------------------------------------------
  // Insertion-ordered sets (Ruby's Set) and the Array operations on them

  predicate NoDup<T(==)>(s: seq<T>) {
    forall i, j :: 0 <= i < j < |s| ==> s[i] != s[j]
  }

  /** `set << x`: appends `x` unless already present. */
  function Add<T(==,!new)>(s: seq<T>, x: T): (r: seq<T>)
    ensures forall y :: y in r <==> y in s || y == x
    ensures NoDup(s) ==> NoDup(r)
    ensures |s| <= |r| && r[..|s|] == s
  {
    if x in s then s else s + [x]
  }

  /** `set + other` (and `set += other`): a new set holding `a` in order, then
      the elements of `b` not yet present. */
  function Union<T(==,!new)>(a: seq<T>, b: seq<T>): (r: seq<T>)
    ensures forall y :: y in r <==> y in a || y in b
    ensures NoDup(a) ==> NoDup(r)
    ensures |a| <= |r| && r[..|a|] == a
    decreases |b|
  {
    if b == [] then a
    else
      var a' := Add(a, b[0]);
      var r := Union(a', b[1..]);
      assert r[..|a|] == r[..|a'|][..|a|];
      r
  }

  /** `a - b` on arrays and sets: the elements of `a` not in `b`, in order.
      `Minus(s, [x])` is `set.delete(x)`. */
  function Minus<T(==,!new)>(a: seq<T>, b: seq<T>): (r: seq<T>)
    ensures forall y :: y in r <==> y in a && y !in b
    ensures NoDup(a) ==> NoDup(r)
    ensures |r| <= |a|
  {
    if a == [] then []
    else if a[0] in b then Minus(a[1..], b)
    else [a[0]] + Minus(a[1..], b)
  }

  /** `array.index(x)`: the first position of `x`, or -1 (Ruby's nil). */
  function IndexOf<T(==)>(s: seq<T>, x: T): (r: int)
    ensures -1 <= r < |s|
    ensures r < 0 <==> x !in s
    ensures r >= 0 ==> s[r] == x && forall j :: 0 <= j < r ==> s[j] != x
  {
    if s == [] then -1
    else if s[0] == x then 0
    else
      var k := IndexOf(s[1..], x);
      if k < 0 then -1 else k + 1
  }

  /** In a duplicate-free sequence an element's index is its position. */
  lemma IndexOfNoDup<T>(s: seq<T>, k: nat)
    requires NoDup(s) && k < |s|
    ensures IndexOf(s, s[k]) == k
  {
  }

  // ---------------------------------------------------------------------
  // Labels: the emitter's `get_local` hands out `.L1`, `.L2`, ... from a counter

  function DigitChar(d: nat): char
    requires d < 10
  {
    "0123456789"[d]
  }

  /** Decimal digits of `k`, most significant first. */
  function Decimal(k: nat): (r: string)
    ensures |r| >= 1
    ensures k >= 10 ==> |r| >= 2
  {
    if k < 10 then [DigitChar(k)] else Decimal(k / 10) + [DigitChar(k % 10)]
  }

  function LabelName(k: nat): Name {
    ".L" + Decimal(k)
  }

  lemma {:induction false} DecimalInjective(a: nat, b: nat)
    requires Decimal(a) == Decimal(b)
    ensures a == b
  {
    if a >= 10 && b >= 10 {
      var da, db := Decimal(a), Decimal(b);
      assert da[|da| - 1] == DigitChar(a % 10) && db[|db| - 1] == DigitChar(b % 10);
      assert da[..|da| - 1] == Decimal(a / 10) && db[..|db| - 1] == Decimal(b / 10);
      DecimalInjective(a / 10, b / 10);
    }
  }

  /** Two different counter values never give the same label. */
  lemma LabelNameInjective(a: nat, b: nat)
    ensures LabelName(a) == LabelName(b) <==> a == b
  {
    if LabelName(a) == LabelName(b) {
      assert Decimal(a) == LabelName(a)[2..] && Decimal(b) == LabelName(b)[2..];
      DecimalInjective(a, b);
    }
  }
}
