/** The scope/closure resolver of transform.rb (`in_scopes`,
    `is_special_name?`, `push_var`, `find_vars`).

    `find_vars` works on Ruby `Set` objects that are shared by reference: the
    scope stack `scopes + [Set.new]` handed to a recursive call holds the very
    same set objects as the caller's, `sc.first.delete(n)` and `env << n`
    change a set in place, while `env + other` and `env - other` build new
    sets. Which object a name lands in therefore decides the result, so the
    sets live here in an explicit store, addressed by id, and every set
    operation of the source is an operation on one store entry. Sets keep
    their insertion order, as Ruby's do: the order of `env` later fixes the
    environment slots. */
module Resolver {
  import opened Ast

  /** The mutable state `find_vars` threads: every set object, by id, and the
      usage-frequency hash (`Hash.new(0)`). */
  datatype Store = Store(sets: seq<seq<Name>>, freq: map<Name, nat>)

  /** What `find_vars` returns (`vars`, `env`), the state after it, and the
      node it was given, with the lambda bodies inside it rewritten. */
  datatype Found = Found(vars: seq<Name>, env: nat, st: Store, node: Node)

  /** `freq[v]` of a hash whose default is 0. */
  function Count(freq: map<Name, nat>, v: Name): nat {
    if v in freq then freq[v] else 0
  }

  /** `is_special_name?`: `nil`, `self`, `true`, `false`, an instance
      variable, or a name whose first character sorts below `a` (constants,
      and every compiler-internal `__name`). */
  predicate IsSpecialName(v: Name) {
    v == "nil" || v == "self" || v[0] == '@' || v == "true" || v == "false" || v[0] < 'a'
  }

  /** The `@` test is subsumed by the comparison with `a`: a name is special
      exactly when it is one of the four keywords or does not start with a
      character from `a` upwards. */
  lemma SpecialNameRule(v: Name)
    ensures IsSpecialName(v) <==> v in {"nil", "self", "true", "false"} || v[0] < 'a'
  {
  }

  /** The names the compiler itself introduces are all special. */
  lemma InternalNamesSpecial()
    ensures IsSpecialName("__env__") && IsSpecialName("__closure__")
    ensures IsSpecialName("__stackframe__") && IsSpecialName("__tmp_proc")
    ensures IsSpecialName("__splat") && IsSpecialName("__destruct")
    ensures forall k: nat :: IsSpecialName(LabelName(k))
  {
  }

  function Innermost(scopes: seq<nat>): nat
    requires |scopes| > 0
  {
    scopes[|scopes| - 1]
  }

  /** `scopes[0..-2]`: every scope but the innermost. */
  function Enclosing(scopes: seq<nat>): seq<nat>
    requires |scopes| > 0
  {
    scopes[..|scopes| - 1]
  }

  predicate ValidIds(sets: seq<seq<Name>>, scopes: seq<nat>) {
    forall k :: 0 <= k < |scopes| ==> scopes[k] < |sets|
  }

  /** The shape `find_vars` is always called in: a non-empty scope stack of
      existing sets, and an existing `env` set that is not one of the scopes. */
  predicate Frame(scopes: seq<nat>, env: nat, st: Store) {
    |scopes| > 0 && ValidIds(st.sets, scopes) && env < |st.sets| && env !in scopes
  }

  /** Every set object is duplicate-free. */
  ghost predicate Good(st: Store) {
    forall id :: 0 <= id < |st.sets| ==> NoDup(st.sets[id])
  }

  /** No set of the store holds `v`. */
  ghost predicate Absent(st: Store, v: Name) {
    forall id :: 0 <= id < |st.sets| ==> v !in st.sets[id]
  }

  predicate Prefix(a: seq<Name>, b: seq<Name>) {
    |a| <= |b| && b[..|a|] == a
  }

  lemma PrefixTrans(a: seq<Name>, b: seq<Name>, c: seq<Name>)
    requires Prefix(a, b) && Prefix(b, c)
    ensures Prefix(a, c)
  {
    assert c[..|a|] == c[..|b|][..|a|];
  }

  /** Counts only grow, and a special name's count never changes. */
  ghost predicate CountsGrow(f: map<Name, nat>, f': map<Name, nat>) {
    forall v :: Count(f, v) <= Count(f', v) && (IsSpecialName(v) ==> Count(f', v) == Count(f, v))
  }

  /** How the state may change while `find_vars` runs with scope stack
      `scopes` and capture set `env`: sets are only ever added to the store,
      duplicate-freedom is kept, a set that is neither a scope on the stack
      nor `env` is untouched, `env` only grows at its end, and counts only
      grow. */
  ghost predicate Changes(st: Store, st': Store, scopes: seq<nat>, env: nat)
    requires env < |st.sets|
  {
    && |st.sets| <= |st'.sets|
    && (Good(st) ==> Good(st'))
    && (forall v :: IsSpecialName(v) && Absent(st, v) ==> Absent(st', v))
    && (forall id :: 0 <= id < |st.sets| && id !in scopes && id != env ==> st'.sets[id] == st.sets[id])
    && Prefix(st.sets[env], st'.sets[env])
    && CountsGrow(st.freq, st'.freq)
  }

  /** `Changes`, and the capture set `env'` handed back is `env` itself or a
      new set that starts with everything `env` held. */
  ghost predicate Evolves(st: Store, st': Store, scopes: seq<nat>, env: nat, env': nat)
    requires env < |st.sets|
  {
    && Changes(st, st', scopes, env)
    && (env' == env || |st.sets| <= env')
    && env' < |st'.sets|
    && Prefix(st.sets[env], st'.sets[env'])
  }

  /** `Set.new`: a fresh empty set, whose id is returned. */
  function Alloc(st: Store, s: seq<Name>): (r: (nat, Store))
    ensures r.0 == |st.sets| && r.1.sets == st.sets + [s] && r.1.freq == st.freq
  {
    (|st.sets|, Store(st.sets + [s], st.freq))
  }

  // ---------------------------------------------------------------------
  // in_scopes, push_var

  /** `in_scopes(scopes, n)`: the scopes holding `n`, innermost first. */
  function InScopes(sets: seq<seq<Name>>, scopes: seq<nat>, n: Name): (r: seq<nat>)
    requires ValidIds(sets, scopes)
    ensures forall id :: id in r <==> id in scopes && n in sets[id]
    ensures forall k :: 0 <= k < |r| ==> r[k] < |sets| && n in sets[r[k]]
    decreases |scopes|
  {
    if scopes == [] then []
    else
      var last := scopes[|scopes| - 1];
      var outer := scopes[..|scopes| - 1];
      assert forall id :: id in scopes <==> id in outer || id == last;
      (if n in sets[last] then [last] else []) + InScopes(sets, outer, n)
  }

  /** The first scope `in_scopes` names is the innermost one holding `n`. */
  lemma {:induction false} InScopesNearest(sets: seq<seq<Name>>, scopes: seq<nat>, n: Name, j: nat)
    requires ValidIds(sets, scopes) && j < |scopes| && n in sets[scopes[j]]
    ensures InScopes(sets, scopes, n) != [] && InScopes(sets, scopes, n)[0] in scopes[j..]
    decreases |scopes|
  {
    var last := scopes[|scopes| - 1];
    var outer := scopes[..|scopes| - 1];
    if n !in sets[last] {
      assert j < |outer| && outer[j] == scopes[j];
      InScopesNearest(sets, outer, n, j);
      assert outer[j..] <= scopes[j..];
    }
  }

  /** `push_var(scopes, env, v)`: `v` joins the innermost scope when no scope
      holds it yet, it is not captured, and it is not special. */
  function PushVar(st: Store, scopes: seq<nat>, env: nat, v: Name): (r: Store)
    requires Frame(scopes, env, st)
    ensures r.freq == st.freq && |r.sets| == |st.sets|
    ensures forall id :: 0 <= id < |st.sets| && id != Innermost(scopes) ==> r.sets[id] == st.sets[id]
    ensures Prefix(st.sets[Innermost(scopes)], r.sets[Innermost(scopes)])
    ensures forall x :: x in r.sets[Innermost(scopes)] <==>
      x in st.sets[Innermost(scopes)] ||
      (x == v && InScopes(st.sets, scopes, v) == [] && v !in st.sets[env] && !IsSpecialName(v))
    ensures Good(st) ==> Good(r)
    ensures forall x :: IsSpecialName(x) && Absent(st, x) ==> Absent(r, x)
  {
    if InScopes(st.sets, scopes, v) == [] && v !in st.sets[env] && !IsSpecialName(v) then
      var i := Innermost(scopes);
      AddKeeps(st, i, v);
      Store(st.sets[i := Add<Name>(st.sets[i], v)], st.freq)
    else st
  }

  /** Adding `v` to one set keeps every set duplicate-free, and keeps every
      other name out of the store that was out of it. */
  lemma AddKeeps(st: Store, i: nat, v: Name)
    requires i < |st.sets|
    ensures var r := Store(st.sets[i := Add<Name>(st.sets[i], v)], st.freq);
      && (Good(st) ==> Good(r))
      && (forall x :: x != v && Absent(st, x) ==> Absent(r, x))
  {
    var r := Store(st.sets[i := Add<Name>(st.sets[i], v)], st.freq);
    forall x | x != v && Absent(st, x) ensures Absent(r, x) {
      forall id | 0 <= id < |r.sets| ensures x !in r.sets[id] {
        if id != i { assert r.sets[id] == st.sets[id]; }
      }
    }
  }

  /** `vars.each { |v| push_var(scopes, env, v) }` */
  function PushVars(st: Store, scopes: seq<nat>, env: nat, vars: seq<Name>): (r: Store)
    requires Frame(scopes, env, st)
    ensures r.freq == st.freq && |r.sets| == |st.sets|
    ensures forall id :: 0 <= id < |st.sets| && id != Innermost(scopes) ==> r.sets[id] == st.sets[id]
    ensures Prefix(st.sets[Innermost(scopes)], r.sets[Innermost(scopes)])
    ensures Good(st) ==> Good(r)
    ensures forall x :: IsSpecialName(x) && Absent(st, x) ==> Absent(r, x)
    decreases |vars|
  {
    if vars == [] then st
    else
      var s1 := PushVar(st, scopes, env, vars[0]);
      var r := PushVars(s1, scopes, env, vars[1..]);
      var i := Innermost(scopes);
      PrefixTrans(st.sets[i], s1.sets[i], r.sets[i]);
      r
  }

  // ---------------------------------------------------------------------
  // find_vars

  /** `freq[n] += 1 if !is_special_name?(n)` */
  function Tally(st: Store, n: Name): (r: Store)
    ensures r.sets == st.sets
    ensures Count(r.freq, n) == Count(st.freq, n) + (if IsSpecialName(n) then 0 else 1)
    ensures forall v :: v != n ==> Count(r.freq, v) == Count(st.freq, v)
  {
    if IsSpecialName(n) then st else Store(st.sets, st.freq[n := Count(st.freq, n) + 1])
  }

  /** `sc.first.delete(n); env << n`: `n` leaves scope `s` and is captured. */
  function Capture(st: Store, s: nat, env: nat, n: Name): (r: Store)
    requires s < |st.sets| && env < |st.sets| && s != env
    ensures r.freq == st.freq && |r.sets| == |st.sets|
    ensures forall x :: x in r.sets[s] <==> x in st.sets[s] && x != n
    ensures n in r.sets[env] && Prefix(st.sets[env], r.sets[env]) && |r.sets[env]| <= |st.sets[env]| + 1
    ensures forall x :: x in r.sets[env] <==> x in st.sets[env] || x == n
    ensures forall id :: 0 <= id < |st.sets| && id != s && id != env ==> r.sets[id] == st.sets[id]
    ensures Good(st) ==> Good(r)
    ensures forall x :: x != n && Absent(st, x) ==> Absent(r, x)
  {
    var sets1 := st.sets[s := Minus<Name>(st.sets[s], [n])];
    Store(sets1[env := Add<Name>(sets1[env], n)], st.freq)
  }

  /** A symbol met by `find_vars` (transform.rb:230-238). It is counted unless
      special, and the sets change only as the three lemmas below say. */
  function VisitSymbol(st: Store, scopes: seq<nat>, env: nat, n: Name, inLambda: bool, inAssign: bool): (r: Store)
    requires Frame(scopes, env, st)
    ensures |r.sets| == |st.sets|
    ensures Count(r.freq, n) == Count(st.freq, n) + (if IsSpecialName(n) then 0 else 1)
    ensures forall v :: v != n ==> Count(r.freq, v) == Count(st.freq, v)
    ensures Good(st) ==> Good(r)
    ensures forall x :: IsSpecialName(x) && Absent(st, x) ==> Absent(r, x)
  {
    var st1 := Tally(st, n);
    var sc := InScopes(st.sets, Enclosing(scopes), n);
    assert ValidIds(st.sets, Enclosing(scopes));
    if sc == [] then
      if inAssign && !IsSpecialName(n) then PushVar(st1, scopes, env, n) else st1
    else if inLambda then
      assert sc[0] in scopes by { assert Enclosing(scopes) <= scopes; }
      Capture(st1, sc[0], env, n)
    else st1
  }

  /** Not held by an enclosing scope: at most the innermost scope changes, by
      binding the name when it is met on the left of an assignment, is not
      special and is not already captured. */
  lemma VisitFree(st: Store, scopes: seq<nat>, env: nat, n: Name, inLambda: bool, inAssign: bool)
    requires Frame(scopes, env, st) && InScopes(st.sets, Enclosing(scopes), n) == []
    ensures var r := VisitSymbol(st, scopes, env, n, inLambda, inAssign); var k := Innermost(scopes);
      && (forall id :: 0 <= id < |st.sets| && id != k ==> r.sets[id] == st.sets[id])
      && Prefix(st.sets[k], r.sets[k])
      && (forall x :: x in r.sets[k] <==> x in st.sets[k] || (x == n && inAssign && !IsSpecialName(n) && n !in st.sets[env]))
  {
    var st1 := Tally(st, n);
    var r := VisitSymbol(st, scopes, env, n, inLambda, inAssign);
    if inAssign && !IsSpecialName(n) {
      assert r == PushVar(st1, scopes, env, n);
      InScopesLast(st1.sets, scopes, n);
    } else {
      assert r == st1;
    }
  }

  /** With no enclosing scope holding `n`, the stack holds it exactly when
      the innermost scope does. */
  lemma InScopesLast(sets: seq<seq<Name>>, scopes: seq<nat>, n: Name)
    requires |scopes| > 0 && ValidIds(sets, scopes)
    requires ValidIds(sets, Enclosing(scopes)) && InScopes(sets, Enclosing(scopes), n) == []
    ensures InScopes(sets, scopes, n) == [] <==> n !in sets[Innermost(scopes)]
  {
  }

  /** Held by an enclosing scope, outside a lambda: only the count changes. */
  lemma VisitHeld(st: Store, scopes: seq<nat>, env: nat, n: Name, inAssign: bool)
    requires Frame(scopes, env, st) && InScopes(st.sets, Enclosing(scopes), n) != []
    ensures VisitSymbol(st, scopes, env, n, false, inAssign).sets == st.sets
  {
  }

  /** Held by an enclosing scope, inside a lambda: taken out of the nearest
      scope that holds it and added to the capture set. */
  lemma VisitCaptured(st: Store, scopes: seq<nat>, env: nat, n: Name, inAssign: bool)
    requires Frame(scopes, env, st) && InScopes(st.sets, Enclosing(scopes), n) != []
    ensures var r := VisitSymbol(st, scopes, env, n, true, inAssign);
      var sc := InScopes(st.sets, Enclosing(scopes), n);
      && sc[0] in scopes
      && (forall x :: x in r.sets[sc[0]] <==> x in st.sets[sc[0]] && x != n)
      && n in r.sets[env] && Prefix(st.sets[env], r.sets[env])
      && |r.sets[env]| <= |st.sets[env]| + 1
      && (forall x :: x in r.sets[env] <==> x in st.sets[env] || x == n)
      && (forall id :: 0 <= id < |st.sets| && id != sc[0] && id != env ==> r.sets[id] == st.sets[id])
  {
    var sc := InScopes(st.sets, Enclosing(scopes), n);
    assert ValidIds(st.sets, Enclosing(scopes));
    assert sc[0] in Enclosing(scopes);
    assert sc[0] in scopes by { assert Enclosing(scopes) <= scopes; }
  }

  function Syms(vars: seq<Name>): (r: seq<Node>)
    ensures |r| == |vars| && forall i :: 0 <= i < |vars| ==> r[i] == Sym(vars[i])
  {
    seq(|vars|, i requires 0 <= i < |vars| => Sym(vars[i]))
  }

  /** A name is declared by `Syms(vs)` exactly when it is in `vs`. */
  lemma SymsMembers(vs: seq<Name>)
    ensures forall x :: Sym(x) in Syms(vs) <==> x in vs
  {
    forall x ensures Sym(x) in Syms(vs) <==> x in vs {
      if x in vs {
        var j :| 0 <= j < |vs| && vs[j] == x;
        assert Syms(vs)[j] == Sym(x);
      }
    }
  }

  /** The symbols among a parameter list (`vars - n[1]` compares by equality,
      so only symbol elements can remove anything). */
  function SymbolsOf(params: Node): (r: seq<Name>)
    ensures forall x :: x in r <==> params.List? && Sym(x) in params.items
  {
    if params.List? then SymbolsIn(params.items) else []
  }

  function SymbolsIn(s: seq<Node>): (r: seq<Name>)
    ensures forall x :: x in r <==> Sym(x) in s
  {
    if s == [] then []
    else
      assert s == [s[0]] + s[1..];
      (if s[0].Sym? then [s[0].name] else []) + SymbolsIn(s[1..])
  }


  // ---------------------------------------------------------------------
  // How the store evolves, step by step

  /** `scopes + [Set.new]`: a fresh empty scope on top keeps the frame. */
  lemma PushScope(scopes: seq<nat>, env: nat, st: Store)
    requires Frame(scopes, env, st)
    ensures Frame(scopes + [|st.sets|], env, Alloc(st, []).1)
  {
    var st1 := Alloc(st, []).1;
    forall k | 0 <= k < |scopes + [|st.sets|]| ensures (scopes + [|st.sets|])[k] < |st1.sets| {
      if k < |scopes| { assert (scopes + [|st.sets|])[k] == scopes[k]; }
    }
  }

  /** After a call on the same stack the frame still holds, for `env` and for
      the capture set handed back. */
  lemma EvolvesFrame(st: Store, x: Store, scopes: seq<nat>, env: nat, e': nat)
    requires Frame(scopes, env, st) && Evolves(st, x, scopes, env, e')
    ensures Frame(scopes, env, x) && Frame(scopes, e', x)
  {
    if e' != env {
      assert forall k :: 0 <= k < |scopes| ==> scopes[k] < |st.sets| <= e';
    }
  }

  lemma EvolvesRefl(st: Store, scopes: seq<nat>, env: nat)
    requires Frame(scopes, env, st)
    ensures Evolves(st, st, scopes, env, env)
  {
    assert st.sets[env][..|st.sets[env]|] == st.sets[env];
  }

  /** A call made with one fresh scope on top of `scopes` changes no more
      than a call on `scopes` itself may. */
  lemma FreshScope(st: Store, x: Store, scopes: seq<nat>, env: nat, e': nat)
    requires Frame(scopes, env, st)
    requires Evolves(Alloc(st, []).1, x, scopes + [|st.sets|], env, e')
    ensures Evolves(st, x, scopes, env, e')
  {
    var st1 := Alloc(st, []).1;
    if Good(st) {
      forall id | 0 <= id < |st1.sets| ensures NoDup(st1.sets[id]) {
        if id < |st.sets| { assert st1.sets[id] == st.sets[id]; }
      }
    }
    forall id | 0 <= id < |st.sets| && id !in scopes && id != env ensures x.sets[id] == st.sets[id] {
      assert id !in scopes + [|st.sets|];
      assert st1.sets[id] == st.sets[id];
    }
  }

  /** Two successive calls, the second given the capture set the first
      handed back, compose. */
  lemma EvolvesTrans(a: Store, b: Store, c: Store, scopes: seq<nat>, e0: nat, e1: nat, e2: nat)
    requires Frame(scopes, e0, a)
    requires Evolves(a, b, scopes, e0, e1) && Evolves(b, c, scopes, e1, e2)
    ensures Evolves(a, c, scopes, e0, e2)
  {
    assert c.sets[e0][..|a.sets[e0]|] == c.sets[e0][..|b.sets[e0]|][..|a.sets[e0]|] by {
      if e1 != e0 { assert c.sets[e0] == b.sets[e0]; }
    }
    assert c.sets[e2][..|a.sets[e0]|] == c.sets[e2][..|b.sets[e1]|][..|a.sets[e0]|];
  }

  /** Two successive calls both given `env`: the first one's capture set
      survives the second untouched, or is `env` and only grew. */
  lemma Sequenced(a: Store, b: Store, c: Store, scopes: seq<nat>, env: nat, e1: nat, e2: nat)
    requires Frame(scopes, env, a)
    requires Evolves(a, b, scopes, env, e1) && Evolves(b, c, scopes, env, e2)
    ensures Changes(a, c, scopes, env) && e1 < |c.sets| && Prefix(a.sets[env], c.sets[e1])
  {
    assert c.sets[env][..|a.sets[env]|] == c.sets[env][..|b.sets[env]|][..|a.sets[env]|];
    if e1 != env {
      assert forall k :: 0 <= k < |scopes| ==> scopes[k] < |a.sets| <= e1;
      assert c.sets[e1] == b.sets[e1];
    }
  }

  /** A new set object that does not touch the others. */
  lemma AllocKeeps(st: Store, x: Store, scopes: seq<nat>, env: nat, s: seq<Name>)
    requires Frame(scopes, env, st) && Changes(st, x, scopes, env)
    requires Good(x) ==> NoDup(s)
    requires forall v :: IsSpecialName(v) && Absent(x, v) ==> v !in s
    ensures Changes(st, Alloc(x, s).1, scopes, env)
  {
    var y := Alloc(x, s).1;
    if Good(st) {
      forall id | 0 <= id < |y.sets| ensures NoDup(y.sets[id]) {
        if id < |x.sets| { assert y.sets[id] == x.sets[id]; }
      }
    }
    assert y.sets[env] == x.sets[env];
  }

  /** `env = a + b`: the merged capture set is a new set that starts with
      `a`, which itself starts with everything `env` held. */
  lemma Merge(st: Store, x: Store, scopes: seq<nat>, env: nat, a: nat, b: nat)
    requires Frame(scopes, env, st) && Changes(st, x, scopes, env)
    requires a < |x.sets| && b < |x.sets| && Prefix(st.sets[env], x.sets[a])
    ensures Evolves(st, Alloc(x, Union<Name>(x.sets[a], x.sets[b])).1, scopes, env, |x.sets|)
  {
    var un := Union<Name>(x.sets[a], x.sets[b]);
    AllocKeeps(st, x, scopes, env, un);
    assert un[..|st.sets[env]|] == un[..|x.sets[a]|][..|st.sets[env]|];
  }

  /** `vars.each { |v| push_var(scopes, env, v) }` after a call keeps the
      call's bounds. */
  lemma Pushed(st: Store, x: Store, scopes: seq<nat>, env: nat, e': nat, vars: seq<Name>)
    requires Frame(scopes, env, st) && Evolves(st, x, scopes, env, e')
    ensures Frame(scopes, e', x)
    ensures Evolves(st, PushVars(x, scopes, e', vars), scopes, env, e')
  {
    EvolvesFrame(st, x, scopes, env, e');
    var y := PushVars(x, scopes, e', vars);
    assert Innermost(scopes) in scopes;
    assert y.sets[env] == x.sets[env];
    assert y.sets[e'] == x.sets[e'];
  }

  // ---------------------------------------------------------------------
  // find_vars

  /** `find_vars(e, scopes, env, freq, in_lambda, in_assign)`: `nil` yields
      nothing; an array is walked element by element; any other atom is
      walked as the one-element array `[e]`. The variables returned are
      those of the innermost scope. */
  function FindVars(e: Node, scopes: seq<nat>, env: nat, st: Store, inLambda: bool, inAssign: bool): (r: Found)
    requires Frame(scopes, env, st)
    ensures Evolves(st, r.st, scopes, env, r.env)
    ensures e.Nil? ==> r.vars == [] && r.env == env && r.st == st
    ensures !e.Nil? ==> r.vars == r.st.sets[Innermost(scopes)]
    ensures r.node.List? <==> e.List?
    ensures e.List? ==> |r.node.items| == |e.items|
    ensures !e.List? ==> r.node == e
    decreases Size(e), 4
  {
    match e
    case Nil =>
      EvolvesRefl(st, scopes, env);
      Found([], env, st, e)
    case List(items) =>
      var w := FindVarsItems(items, scopes, env, st, inLambda, inAssign);
      Found(w.st.sets[Innermost(scopes)], w.env, w.st, List(w.node.items))
    case _ =>
      assert [e][1..] == [];
      assert SizeList([e]) == Size(e);
      var w := FindVarsItems([e], scopes, env, st, inLambda, inAssign);
      Found(w.st.sets[Innermost(scopes)], w.env, w.st, e)
  }

  /** `e.each do |n| ... end`, threading the local `env` from one element to the next. */
  function FindVarsItems(items: seq<Node>, scopes: seq<nat>, env: nat, st: Store, inLambda: bool, inAssign: bool): (r: Found)
    requires Frame(scopes, env, st)
    ensures Evolves(st, r.st, scopes, env, r.env)
    ensures r.node.List? && |r.node.items| == |items|
    decreases SizeList(items), 3
  {
    if items == [] then
      EvolvesRefl(st, scopes, env);
      Found([], env, st, List([]))
    else
      var h := FindVarsItem(items[0], scopes, env, st, inLambda, inAssign);
      EvolvesFrame(st, h.st, scopes, env, h.env);
      var t := FindVarsItems(items[1..], scopes, h.env, h.st, inLambda, inAssign);
      EvolvesTrans(st, h.st, t.st, scopes, env, h.env, t.env);
      Found([], t.env, t.st, List([h.node] + t.node.items))
  }

  /** One element of the walked array. */
  function FindVarsItem(n: Node, scopes: seq<nat>, env: nat, st: Store, inLambda: bool, inAssign: bool): (r: Found)
    requires Frame(scopes, env, st)
    ensures Evolves(st, r.st, scopes, env, r.env)
    ensures r.node.List? <==> n.List?
    ensures n.List? ==> |r.node.items| == |n.items|
    ensures !n.List? ==> r.node == n
    decreases Size(n), 2
  {
    match n
    case Sym(x) =>
      var s := VisitSymbol(st, scopes, env, x, inLambda, inAssign);
      SymbolEvolves(st, s, scopes, env, x, inLambda, inAssign);
      Found([], env, s, n)
    case List(ns) =>
      if Tagged(ns, "assign") then AssignStep(ns, scopes, env, st, inLambda)
      else if Tagged(ns, "lambda") || Tagged(ns, "proc") then LambdaStep(ns, scopes, env, st)
      else if Tagged(ns, "callm") then CallStep(ns, 3, true, scopes, env, st, inLambda)
      else if Tagged(ns, "call") then CallStep(ns, 2, false, scopes, env, st, inLambda)
      else OtherStep(ns, scopes, env, st, inLambda)
    case _ =>
      EvolvesRefl(st, scopes, env);
      Found([], env, st, n)
  }

  lemma SymbolEvolves(st: Store, s: Store, scopes: seq<nat>, env: nat, x: Name, inLambda: bool, inAssign: bool)
    requires Frame(scopes, env, st) && s == VisitSymbol(st, scopes, env, x, inLambda, inAssign)
    ensures Evolves(st, s, scopes, env, env)
  {
    var sc := InScopes(st.sets, Enclosing(scopes), x);
    if sc == [] {
      VisitFree(st, scopes, env, x, inLambda, inAssign);
    } else if inLambda {
      VisitCaptured(st, scopes, env, x, inAssign);
    } else {
      VisitHeld(st, scopes, env, x, inAssign);
    }
    assert Innermost(scopes) in scopes;
  }

  /** `(assign lhs rhs...)` (transform.rb:172-177): the target is walked as a
      binding site and the value without, each with one fresh scope on top of
      the stack; the two capture sets are merged into a new set, and what
      either side bound is pushed into the current innermost scope. */
  function AssignStep(ns: seq<Node>, scopes: seq<nat>, env: nat, st: Store, inLambda: bool): (r: Found)
    requires Frame(scopes, env, st) && Tagged(ns, "assign")
    ensures Evolves(st, r.st, scopes, env, r.env)
    ensures r.node.List? && |r.node.items| == |ns|
    decreases Size(List(ns)), 0
  {
    var (s1, st1) := Alloc(st, []);
    PushScope(scopes, env, st);
    ChildOrNilSmaller(ns, 1);
    var r1 := FindVars(At(ns, 1), scopes + [s1], env, st1, inLambda, true);
    FreshScope(st, r1.st, scopes, env, r1.env);
    EvolvesFrame(st, r1.st, scopes, env, r1.env);
    var (s2, st2) := Alloc(r1.st, []);
    PushScope(scopes, env, r1.st);
    FromOrNilSmaller(ns, 2);
    var r2 := FindVars(From(ns, 2), scopes + [s2], env, st2, inLambda, false);
    FreshScope(r1.st, r2.st, scopes, env, r2.env);
    Sequenced(st, r1.st, r2.st, scopes, env, r1.env, r2.env);
    Merge(st, r2.st, scopes, env, r1.env, r2.env);
    var (u, st3) := Alloc(r2.st, Union<Name>(r2.st.sets[r1.env], r2.st.sets[r2.env]));
    Pushed(st, st3, scopes, env, u, r1.vars + r2.vars);
    var st4 := PushVars(st3, scopes, u, r1.vars + r2.vars);
    var items := if |ns| <= 1 then ns else ns[..1] + [r1.node] + r2.node.items;
    Found([], u, st4, List(items))
  }

  lemma ChildOrNilSmaller(ns: seq<Node>, i: nat)
    requires |ns| > 0
    ensures Size(At(ns, i)) < Size(List(ns))
  {
    if i < |ns| { ChildSmaller(ns, i); } else { SizeListAt(ns, 0); }
  }

  lemma FromOrNilSmaller(ns: seq<Node>, k: nat)
    requires 0 < k && |ns| > 0
    ensures Size(From(ns, k)) < Size(List(ns))
  {
    if k <= |ns| { FromSmaller(ns, k); } else { SizeListAt(ns, 0); }
  }

  /** `(lambda params body)` / `(proc params body)` (transform.rb:178-186):
      the body is walked with one fresh scope on top and `in_lambda` set; the
      declared parameters are removed from the body's variables and from the
      capture set returned, that set is merged into a new capture set, and
      the body becomes `(let vars ...body)`. */
  function LambdaStep(ns: seq<Node>, scopes: seq<nat>, env: nat, st: Store): (r: Found)
    requires Frame(scopes, env, st) && (Tagged(ns, "lambda") || Tagged(ns, "proc"))
    ensures Evolves(st, r.st, scopes, env, r.env)
    ensures r.node.List? && |r.node.items| == |ns|
    // the body's own scope is the set allocated first; the `let` lists what
    // it holds, less the declared parameters
    ensures |st.sets| < |r.st.sets|
    ensures !Truthy(At(ns, 2)) ==> r.node == List(ns)
    // the new capture set extends env; a declared parameter is in it only
    // when env itself holds it
    ensures Prefix(r.st.sets[env], r.st.sets[r.env])
    ensures forall x :: x in r.st.sets[r.env] && Declared(At(ns, 1), x) ==> x in r.st.sets[env]
    decreases Size(List(ns)), 0
  {
    var (s, st1) := Alloc(st, []);
    PushScope(scopes, env, st);
    ChildOrNilSmaller(ns, 2);
    var body := FindVars(At(ns, 2), scopes + [s], env, st1, true, false);
    FreshScope(st, body.st, scopes, env, body.env);
    var params := SymbolsOf(At(ns, 1));
    var vars := Minus<Name>(body.vars, params);
    var (e2, st2) := Alloc(body.st, Minus<Name>(body.st.sets[body.env], params));
    AllocKeeps(st, body.st, scopes, env, Minus<Name>(body.st.sets[body.env], params));
    Merge(st, st2, scopes, env, env, e2);
    var (u, st3) := Alloc(st2, Union<Name>(st2.sets[env], st2.sets[e2]));
    var items := if Truthy(At(ns, 2)) then ns[2 := LetWrap(vars, body.node)] else ns;
    MergedEnv(st2.sets[env], body.st.sets[body.env], At(ns, 1));
    assert st3.sets[env] == st2.sets[env] == body.st.sets[env];
    Found([], u, st3, List(items))
  }

  /** The body's own scope is the set allocated first; the `let` wrapped
      around a non-empty body lists what that scope holds, less the declared
      parameters, and nothing else of the lambda changes. */
  lemma LambdaLet(ns: seq<Node>, scopes: seq<nat>, env: nat, st: Store)
    requires Frame(scopes, env, st) && (Tagged(ns, "lambda") || Tagged(ns, "proc"))
    requires Truthy(At(ns, 2))
    ensures var r := LambdaStep(ns, scopes, env, st); var b := r.node.items[2];
      && b.List? && |b.items| >= 2 && b.items[0] == Sym("let") && b.items[1].List?
      && (forall x :: Sym(x) in b.items[1].items <==> x in r.st.sets[|st.sets|] && !Declared(At(ns, 1), x))
      && r.node.items[..2] == ns[..2] && r.node.items[3..] == ns[3..]
  {
    var (s, st1) := Alloc(st, []);
    PushScope(scopes, env, st);
    ChildOrNilSmaller(ns, 2);
    var body := FindVars(At(ns, 2), scopes + [s], env, st1, true, false);
    FreshScope(st, body.st, scopes, env, body.env);
    var vars := Minus<Name>(body.vars, SymbolsOf(At(ns, 1)));
    SymsMembers(vars);
  }

  /** `x` is among the declared parameters `params` of a lambda. */
  predicate Declared(params: Node, x: Name) {
    params.List? && Sym(x) in params.items
  }

  /** The capture set a lambda hands back holds a declared parameter only
      when the enclosing capture set did. */
  lemma MergedEnv(env: seq<Name>, inner: seq<Name>, params: Node)
    ensures forall x :: x in Union<Name>(env, Minus<Name>(inner, SymbolsOf(params))) && Declared(params, x) ==> x in env
  {
  }

  /** `E[:let, vars, *body]` */
  function LetWrap(vars: seq<Name>, body: Node): (r: Node)
    ensures r.List? && |r.items| >= 2 && r.items[0] == Sym("let") && r.items[1] == List(Syms(vars))
    ensures body.List? ==> r.items[2..] == body.items
    ensures !body.List? ==> r.items[2..] == [body]
  {
    List([Sym("let"), List(Syms(vars))] + (if body.List? then body.items else [body]))
  }

  /** The argument list of a call: the array itself, or a bare argument
      wrapped (`nodes = [nodes] if !nodes.is_a?(Array)`). */
  function ArgNodes(n: Node): seq<Node> {
    if n.List? then n.items else [n]
  }

  /** An element after the tag is smaller than its node by more than one. */
  lemma LaterChildSmaller(ns: seq<Node>, i: nat)
    requires 0 < i < |ns|
    ensures Size(ns[i]) + 1 < Size(List(ns))
  {
    var rest := ns[1..];
    assert SizeList(ns) == Size(ns[0]) + SizeList(rest);
    SizeListAt(rest, i - 1);
  }

  lemma ArgNodesSmaller(ns: seq<Node>, i: nat)
    requires 0 < i < |ns|
    ensures 1 + SizeList(ArgNodes(ns[i])) < Size(List(ns))
  {
    LaterChildSmaller(ns, i);
    if !ns[i].List? { assert SizeList([ns[i]]) == Size(ns[i]); }
  }

  /** `(callm recv meth args block)` (transform.rb:188-206) and `(call f args
      block)` (transform.rb:207-223), with the arguments at element `a` (3 and
      2) and the block right after them: the receiver is walked on the
      current stack, each argument with a fresh scope on top (`callm` walks
      it as `[n2]`, `call` as it stands), the block as `[block]` on the
      current stack; capture sets are merged, and the variables found are
      pushed into the innermost scope. */
  function CallStep(ns: seq<Node>, a: nat, wrap: bool, scopes: seq<nat>, env: nat, st: Store, inLambda: bool): (r: Found)
    requires Frame(scopes, env, st) && |ns| > 0 && a > 1
    ensures Evolves(st, r.st, scopes, env, r.env)
    ensures r.node.List? && |r.node.items| == |ns|
    decreases Size(List(ns)), 1
  {
    ChildOrNilSmaller(ns, 1);
    var recv := FindVars(At(ns, 1), scopes, env, st, inLambda, false);
    EvolvesFrame(st, recv.st, scopes, env, recv.env);
    var args := CallArgs(ns, a, wrap, scopes, recv.env, recv.st, inLambda);
    EvolvesTrans(st, recv.st, args.st, scopes, env, recv.env, args.env);
    EvolvesFrame(st, args.st, scopes, env, args.env);
    var blk := CallBlock(ns, a + 1, scopes, args.env, args.st, inLambda);
    EvolvesTrans(st, args.st, blk.st, scopes, env, args.env, blk.env);
    var vars := recv.vars + args.vars + blk.vars;
    Pushed(st, blk.st, scopes, env, blk.env, vars);
    var st' := PushVars(blk.st, scopes, blk.env, vars);
    var items := if |ns| > 1 then ns[1 := recv.node] else ns;
    var items := if Truthy(At(ns, a)) then items[a := Rejoin(ns[a], args.node.items)] else items;
    var items := if Truthy(At(ns, a + 1)) then items[a + 1 := blk.node] else items;
    Found([], blk.env, st', List(items))
  }

  /** The arguments of a call, when there are any. */
  function CallArgs(ns: seq<Node>, a: nat, wrap: bool, scopes: seq<nat>, env: nat, st: Store, inLambda: bool): (r: Found)
    requires Frame(scopes, env, st) && |ns| > 0 && a > 0
    ensures Evolves(st, r.st, scopes, env, r.env)
    ensures Truthy(At(ns, a)) ==> r.node.List? && |r.node.items| == |ArgNodes(ns[a])|
    decreases Size(List(ns)), 0
  {
    if Truthy(At(ns, a)) then
      ArgNodesSmaller(ns, a);
      Args(ArgNodes(ns[a]), wrap, scopes, env, st, inLambda)
    else
      ChildSmaller(ns, 0);
      Args([], wrap, scopes, env, st, inLambda)
  }

  /** The block of a call, when there is one. */
  function CallBlock(ns: seq<Node>, b: nat, scopes: seq<nat>, env: nat, st: Store, inLambda: bool): (r: Found)
    requires Frame(scopes, env, st) && b > 0
    ensures Evolves(st, r.st, scopes, env, r.env)
    decreases Size(List(ns)), 0
  {
    if Truthy(At(ns, b)) then
      LaterChildSmaller(ns, b);
      BlockStep(ns[b], scopes, env, st, inLambda)
    else NoBlock(scopes, env, st)
  }

  /** Puts walked arguments back where they came from. */
  function Rejoin(orig: Node, walked: seq<Node>): Node {
    if orig.List? then List(walked) else orig
  }

  /** No block given: nothing found, nothing changed. */
  function NoBlock(scopes: seq<nat>, env: nat, st: Store): (r: Found)
    requires Frame(scopes, env, st)
    ensures Evolves(st, r.st, scopes, env, r.env)
    ensures r.vars == [] && r.env == env && r.st == st
  {
    EvolvesRefl(st, scopes, env);
    Found([], env, st, Nil)
  }

  /** The block argument, walked as `[block]` on the current stack, and the
      capture sets merged (`env += env3`). */
  function BlockStep(b: Node, scopes: seq<nat>, env: nat, st: Store, inLambda: bool): (r: Found)
    requires Frame(scopes, env, st)
    ensures Evolves(st, r.st, scopes, env, r.env)
    decreases Size(b) + 1, 5
  {
    assert [b][1..] == [];
    assert SizeList([b]) == Size(b);
    var w := FindVars(List([b]), scopes, env, st, inLambda, false);
    Merge(st, w.st, scopes, env, env, w.env);
    var (u, st') := Alloc(w.st, Union<Name>(w.st.sets[env], w.st.sets[w.env]));
    Found(w.vars, u, st', w.node.items[0])
  }

  /** `nodes.each do |n2| ... end` over a call's arguments: each with a fresh
      scope on top, its variables collected and its capture set merged. */
  function Args(nodes: seq<Node>, wrap: bool, scopes: seq<nat>, env: nat, st: Store, inLambda: bool): (r: Found)
    requires Frame(scopes, env, st)
    ensures Evolves(st, r.st, scopes, env, r.env)
    ensures r.node.List? && |r.node.items| == |nodes|
    decreases 1 + SizeList(nodes), 5
  {
    if nodes == [] then
      EvolvesRefl(st, scopes, env);
      Found([], env, st, List([]))
    else
      var (s, st1) := Alloc(st, []);
      PushScope(scopes, env, st);
      SizeListAt(nodes, 0);
      assert [nodes[0]][1..] == [];
      assert SizeList([nodes[0]]) == Size(nodes[0]);
      var w := if wrap then FindVars(List([nodes[0]]), scopes + [s], env, st1, inLambda, false)
               else FindVars(nodes[0], scopes + [s], env, st1, inLambda, false);
      FreshScope(st, w.st, scopes, env, w.env);
      Merge(st, w.st, scopes, env, env, w.env);
      var (u, st2) := Alloc(w.st, Union<Name>(w.st.sets[env], w.st.sets[w.env]));
      EvolvesFrame(st, st2, scopes, env, u);
      var n0 := if wrap then w.node.items[0] else w.node;
      var rest := Args(nodes[1..], wrap, scopes, u, st2, inLambda);
      EvolvesTrans(st, st2, rest.st, scopes, env, u, rest.env);
      Found(w.vars + rest.vars, rest.env, rest.st, List([n0] + rest.node.items))
  }

  /** Any other array (transform.rb:224-228): its elements after the tag are
      walked on the current stack; the variables pushed back are those of
      the innermost scope itself. An empty array is left alone. */
  function OtherStep(ns: seq<Node>, scopes: seq<nat>, env: nat, st: Store, inLambda: bool): (r: Found)
    requires Frame(scopes, env, st)
    ensures Evolves(st, r.st, scopes, env, r.env)
    ensures r.node.List? && |r.node.items| == |ns|
    decreases Size(List(ns)), 0
  {
    if ns == [] then
      EvolvesRefl(st, scopes, env);
      Found([], env, st, List(ns))
    else
      FromOrNilSmaller(ns, 1);
      var w := FindVars(From(ns, 1), scopes, env, st, inLambda, false);
      Pushed(st, w.st, scopes, env, w.env, w.vars);
      var st' := PushVars(w.st, scopes, w.env, w.vars);
      var items := ns[..1] + w.node.items;
      Found([], w.env, st', List(items))
  }

  // ---------------------------------------------------------------------
  // Which names a walk captures

  /** The names a walk of `n` can capture: every symbol met with
      `inLambda`, and every symbol of a `lambda` or `proc` array. */
  function Capturable(n: Node, inLambda: bool): set<Name>
    decreases n, 1
  {
    match n
    case Sym(x) => if inLambda then {x} else {}
    case List(ns) => CapturableList(ns, inLambda || Tagged(ns, "lambda") || Tagged(ns, "proc"))
    case _ => {}
  }

  function CapturableList(ns: seq<Node>, inLambda: bool): set<Name>
    decreases ns, 0
  {
    if ns == [] then {} else Capturable(ns[0], inLambda) + CapturableList(ns[1..], inLambda)
  }

  /** What `find_vars` itself can capture in `e`: an array is walked element
      by element, whatever its tag. */
  function Walked(e: Node, inLambda: bool): set<Name> {
    if e.List? then CapturableList(e.items, inLambda) else Capturable(e, inLambda)
  }

  lemma {:induction false} CapturableMono(n: Node)
    ensures Capturable(n, false) <= Capturable(n, true)
    decreases n, 1
  {
    if n.List? {
      CapturableListMono(n.items);
    }
  }

  lemma {:induction false} CapturableListMono(ns: seq<Node>)
    ensures CapturableList(ns, false) <= CapturableList(ns, true)
    decreases ns, 0
  {
    if ns != [] {
      CapturableMono(ns[0]);
      CapturableListMono(ns[1..]);
    }
  }

  /** A walk of `e` captures no more than the walk of an element `e` would. */
  lemma WalkedCapturable(e: Node, inLambda: bool)
    ensures Walked(e, inLambda) <= Capturable(e, inLambda)
  {
    if e.List? {
      CapturableListMono(e.items);
    }
  }

  lemma {:induction false} CapturableAt(ns: seq<Node>, k: nat, inLambda: bool)
    requires k < |ns|
    ensures Capturable(ns[k], inLambda) <= CapturableList(ns, inLambda)
    decreases k
  {
    if k > 0 {
      CapturableAt(ns[1..], k - 1, inLambda);
    }
  }

  lemma {:induction false} CapturableFrom(ns: seq<Node>, k: nat, inLambda: bool)
    requires k <= |ns|
    ensures CapturableList(ns[k..], inLambda) <= CapturableList(ns, inLambda)
    decreases k
  {
    if k > 0 {
      CapturableFrom(ns[1..], k - 1, inLambda);
      assert ns[1..][k - 1..] == ns[k..];
    }
  }

  lemma CapturableOne(n: Node, inLambda: bool)
    ensures CapturableList([n], inLambda) == Capturable(n, inLambda)
  {
    assert [n][1..] == [];
  }

  /** Every name that `env`, or the capture set `e'` handed back, holds in
      `st'` was in `env` in `st` or is one of `c`. */
  ghost predicate Confined(st: Store, st': Store, env: nat, e': nat, c: set<Name>)
    requires env < |st.sets| && env < |st'.sets| && e' < |st'.sets|
  {
    forall x :: x in st'.sets[env] || x in st'.sets[e'] ==> x in st.sets[env] || x in c
  }

  lemma ConfinedTrans(a: Store, b: Store, d: Store, scopes: seq<nat>, e0: nat, e1: nat, e2: nat, c: set<Name>)
    requires Frame(scopes, e0, a)
    requires Evolves(a, b, scopes, e0, e1) && Evolves(b, d, scopes, e1, e2)
    requires Confined(a, b, e0, e1, c) && Confined(b, d, e1, e2, c)
    ensures Confined(a, d, e0, e2, c)
  {
    if e0 != e1 {
      assert d.sets[e0] == b.sets[e0];
    }
  }

  /** The walk of `e` adds to the capture sets only names of `c`, when `c`
      holds every name the walk can capture. */
  lemma FindVarsConfined(e: Node, scopes: seq<nat>, env: nat, st: Store, inLambda: bool, inAssign: bool, c: set<Name>)
    requires Frame(scopes, env, st) && Walked(e, inLambda) <= c
    ensures var r := FindVars(e, scopes, env, st, inLambda, inAssign); Confined(st, r.st, env, r.env, c)
    decreases Size(e), 4
  {
    match e
    case Nil =>
    case List(items) =>
      ItemsConfined(items, scopes, env, st, inLambda, inAssign, c);
    case _ =>
      assert [e][1..] == [];
      assert SizeList([e]) == Size(e);
      CapturableOne(e, inLambda);
      ItemsConfined([e], scopes, env, st, inLambda, inAssign, c);
  }

  lemma ItemsConfined(items: seq<Node>, scopes: seq<nat>, env: nat, st: Store, inLambda: bool, inAssign: bool, c: set<Name>)
    requires Frame(scopes, env, st) && CapturableList(items, inLambda) <= c
    ensures var r := FindVarsItems(items, scopes, env, st, inLambda, inAssign); Confined(st, r.st, env, r.env, c)
    decreases SizeList(items), 3
  {
    if items != [] {
      var h := FindVarsItem(items[0], scopes, env, st, inLambda, inAssign);
      ItemConfined(items[0], scopes, env, st, inLambda, inAssign, c);
      EvolvesFrame(st, h.st, scopes, env, h.env);
      ItemsConfined(items[1..], scopes, h.env, h.st, inLambda, inAssign, c);
      var t := FindVarsItems(items[1..], scopes, h.env, h.st, inLambda, inAssign);
      ConfinedTrans(st, h.st, t.st, scopes, env, h.env, t.env, c);
    }
  }

  lemma ItemConfined(n: Node, scopes: seq<nat>, env: nat, st: Store, inLambda: bool, inAssign: bool, c: set<Name>)
    requires Frame(scopes, env, st) && Capturable(n, inLambda) <= c
    ensures var r := FindVarsItem(n, scopes, env, st, inLambda, inAssign); Confined(st, r.st, env, r.env, c)
    decreases Size(n), 2
  {
    match n
    case Sym(x) =>
      if InScopes(st.sets, Enclosing(scopes), x) == [] {
        VisitFree(st, scopes, env, x, inLambda, inAssign);
        assert Innermost(scopes) in scopes;
      } else if inLambda {
        VisitCaptured(st, scopes, env, x, inAssign);
      } else {
        VisitHeld(st, scopes, env, x, inAssign);
      }
    case List(ns) =>
      if Tagged(ns, "assign") {
        AssignConfined(ns, scopes, env, st, inLambda, c);
      } else if Tagged(ns, "lambda") || Tagged(ns, "proc") {
        LambdaConfined(ns, scopes, env, st, c);
      } else if Tagged(ns, "callm") {
        CallConfined(ns, 3, true, scopes, env, st, inLambda, c);
      } else if Tagged(ns, "call") {
        CallConfined(ns, 2, false, scopes, env, st, inLambda, c);
      } else {
        OtherConfined(ns, scopes, env, st, inLambda, c);
      }
    case _ =>
  }

  lemma AssignConfined(ns: seq<Node>, scopes: seq<nat>, env: nat, st: Store, inLambda: bool, c: set<Name>)
    requires Frame(scopes, env, st) && Tagged(ns, "assign") && CapturableList(ns, inLambda) <= c
    ensures var r := AssignStep(ns, scopes, env, st, inLambda); Confined(st, r.st, env, r.env, c)
    decreases Size(List(ns)), 0
  {
    var (s1, st1) := Alloc(st, []);
    PushScope(scopes, env, st);
    ChildOrNilSmaller(ns, 1);
    if 1 < |ns| {
      CapturableAt(ns, 1, inLambda);
      WalkedCapturable(ns[1], inLambda);
    }
    FindVarsConfined(At(ns, 1), scopes + [s1], env, st1, inLambda, true, c);
    var r1 := FindVars(At(ns, 1), scopes + [s1], env, st1, inLambda, true);
    FreshScope(st, r1.st, scopes, env, r1.env);
    EvolvesFrame(st, r1.st, scopes, env, r1.env);
    var (s2, st2) := Alloc(r1.st, []);
    PushScope(scopes, env, r1.st);
    FromOrNilSmaller(ns, 2);
    if 2 <= |ns| {
      CapturableFrom(ns, 2, inLambda);
    }
    FindVarsConfined(From(ns, 2), scopes + [s2], env, st2, inLambda, false, c);
    var r2 := FindVars(From(ns, 2), scopes + [s2], env, st2, inLambda, false);
    FreshScope(r1.st, r2.st, scopes, env, r2.env);
    MergeConfined(st, r1.st, r2.st, scopes, env, r1.env, r2.env, c);
    Sequenced(st, r1.st, r2.st, scopes, env, r1.env, r2.env);
    Merge(st, r2.st, scopes, env, r1.env, r2.env);
    var (u, st3) := Alloc(r2.st, Union<Name>(r2.st.sets[r1.env], r2.st.sets[r2.env]));
    Pushed(st, st3, scopes, env, u, r1.vars + r2.vars);
    PushConfined(st, st3, scopes, env, u, r1.vars + r2.vars, c);
  }

  /** `env1 + env2` after two walks both given `env` (the first walk's
      results taken against the state before its fresh scope). */
  lemma MergeConfined(st: Store, x: Store, y: Store, scopes: seq<nat>, env: nat, e1: nat, e2: nat, c: set<Name>)
    requires Frame(scopes, env, st)
    requires Evolves(st, x, scopes, env, e1) && Confined(Alloc(st, []).1, x, env, e1, c)
    requires Evolves(x, y, scopes, env, e2) && Confined(Alloc(x, []).1, y, env, e2, c)
    ensures e1 < |y.sets| && Confined(st, Alloc(y, Union<Name>(y.sets[e1], y.sets[e2])).1, env, |y.sets|, c)
  {
    assert Alloc(st, []).1.sets[env] == st.sets[env];
    assert Alloc(x, []).1.sets[env] == x.sets[env];
    if e1 != env {
      assert forall k :: 0 <= k < |scopes| ==> scopes[k] < |st.sets| <= e1;
      assert y.sets[e1] == x.sets[e1];
    }
  }

  /** Pushing variables into the innermost scope changes no capture set. */
  lemma PushConfined(st: Store, x: Store, scopes: seq<nat>, env: nat, e': nat, vars: seq<Name>, c: set<Name>)
    requires Frame(scopes, env, st) && Frame(scopes, e', x) && env < |x.sets| && Confined(st, x, env, e', c)
    ensures Confined(st, PushVars(x, scopes, e', vars), env, e', c)
  {
    assert Innermost(scopes) in scopes;
  }

  lemma LambdaConfined(ns: seq<Node>, scopes: seq<nat>, env: nat, st: Store, c: set<Name>)
    requires Frame(scopes, env, st) && (Tagged(ns, "lambda") || Tagged(ns, "proc")) && CapturableList(ns, true) <= c
    ensures var r := LambdaStep(ns, scopes, env, st); Confined(st, r.st, env, r.env, c)
    decreases Size(List(ns)), 0
  {
    var (s, st1) := Alloc(st, []);
    PushScope(scopes, env, st);
    ChildOrNilSmaller(ns, 2);
    if 2 < |ns| {
      CapturableAt(ns, 2, true);
      WalkedCapturable(ns[2], true);
    }
    FindVarsConfined(At(ns, 2), scopes + [s], env, st1, true, false, c);
    var body := FindVars(At(ns, 2), scopes + [s], env, st1, true, false);
    FreshScope(st, body.st, scopes, env, body.env);
    var params := SymbolsOf(At(ns, 1));
    var (e2, st2) := Alloc(body.st, Minus<Name>(body.st.sets[body.env], params));
    var (u, st3) := Alloc(st2, Union<Name>(st2.sets[env], st2.sets[e2]));
    assert st3.sets[env] == body.st.sets[env];
  }

  lemma CallConfined(ns: seq<Node>, a: nat, wrap: bool, scopes: seq<nat>, env: nat, st: Store, inLambda: bool, c: set<Name>)
    requires Frame(scopes, env, st) && |ns| > 0 && a > 1 && CapturableList(ns, inLambda) <= c
    ensures var r := CallStep(ns, a, wrap, scopes, env, st, inLambda); Confined(st, r.st, env, r.env, c)
    decreases Size(List(ns)), 1
  {
    ChildOrNilSmaller(ns, 1);
    if 1 < |ns| {
      CapturableAt(ns, 1, inLambda);
      WalkedCapturable(ns[1], inLambda);
    }
    FindVarsConfined(At(ns, 1), scopes, env, st, inLambda, false, c);
    var recv := FindVars(At(ns, 1), scopes, env, st, inLambda, false);
    EvolvesFrame(st, recv.st, scopes, env, recv.env);
    CallArgsConfined(ns, a, wrap, scopes, recv.env, recv.st, inLambda, c);
    var args := CallArgs(ns, a, wrap, scopes, recv.env, recv.st, inLambda);
    ConfinedTrans(st, recv.st, args.st, scopes, env, recv.env, args.env, c);
    EvolvesTrans(st, recv.st, args.st, scopes, env, recv.env, args.env);
    EvolvesFrame(st, args.st, scopes, env, args.env);
    CallBlockConfined(ns, a + 1, scopes, args.env, args.st, inLambda, c);
    var blk := CallBlock(ns, a + 1, scopes, args.env, args.st, inLambda);
    ConfinedTrans(st, args.st, blk.st, scopes, env, args.env, blk.env, c);
    EvolvesTrans(st, args.st, blk.st, scopes, env, args.env, blk.env);
    var vars := recv.vars + args.vars + blk.vars;
    Pushed(st, blk.st, scopes, env, blk.env, vars);
    PushConfined(st, blk.st, scopes, env, blk.env, vars, c);
  }

  lemma CallArgsConfined(ns: seq<Node>, a: nat, wrap: bool, scopes: seq<nat>, env: nat, st: Store, inLambda: bool, c: set<Name>)
    requires Frame(scopes, env, st) && |ns| > 0 && a > 0 && CapturableList(ns, inLambda) <= c
    ensures var r := CallArgs(ns, a, wrap, scopes, env, st, inLambda); Confined(st, r.st, env, r.env, c)
    decreases Size(List(ns)), 0
  {
    if Truthy(At(ns, a)) {
      ArgNodesSmaller(ns, a);
      CapturableAt(ns, a, inLambda);
      if ns[a].List? {
        WalkedCapturable(ns[a], inLambda);
      } else {
        CapturableOne(ns[a], inLambda);
      }
      ArgsConfined(ArgNodes(ns[a]), wrap, scopes, env, st, inLambda, c);
    } else {
      ChildSmaller(ns, 0);
      ArgsConfined([], wrap, scopes, env, st, inLambda, c);
    }
  }

  lemma CallBlockConfined(ns: seq<Node>, b: nat, scopes: seq<nat>, env: nat, st: Store, inLambda: bool, c: set<Name>)
    requires Frame(scopes, env, st) && b > 0 && CapturableList(ns, inLambda) <= c
    ensures var r := CallBlock(ns, b, scopes, env, st, inLambda); Confined(st, r.st, env, r.env, c)
    decreases Size(List(ns)), 0
  {
    if Truthy(At(ns, b)) {
      LaterChildSmaller(ns, b);
      CapturableAt(ns, b, inLambda);
      BlockConfined(ns[b], scopes, env, st, inLambda, c);
    }
  }

  lemma BlockConfined(b: Node, scopes: seq<nat>, env: nat, st: Store, inLambda: bool, c: set<Name>)
    requires Frame(scopes, env, st) && Capturable(b, inLambda) <= c
    ensures var r := BlockStep(b, scopes, env, st, inLambda); Confined(st, r.st, env, r.env, c)
    decreases Size(b) + 1, 5
  {
    assert [b][1..] == [];
    assert SizeList([b]) == Size(b);
    CapturableOne(b, inLambda);
    FindVarsConfined(List([b]), scopes, env, st, inLambda, false, c);
    var w := FindVars(List([b]), scopes, env, st, inLambda, false);
    Merge(st, w.st, scopes, env, env, w.env);
    var (u, st') := Alloc(w.st, Union<Name>(w.st.sets[env], w.st.sets[w.env]));
    assert st'.sets[env] == w.st.sets[env];
  }

  lemma ArgsConfined(nodes: seq<Node>, wrap: bool, scopes: seq<nat>, env: nat, st: Store, inLambda: bool, c: set<Name>)
    requires Frame(scopes, env, st) && CapturableList(nodes, inLambda) <= c
    ensures var r := Args(nodes, wrap, scopes, env, st, inLambda); Confined(st, r.st, env, r.env, c)
    decreases 1 + SizeList(nodes), 5
  {
    if nodes != [] {
      var (s, st1) := Alloc(st, []);
      PushScope(scopes, env, st);
      SizeListAt(nodes, 0);
      assert [nodes[0]][1..] == [];
      assert SizeList([nodes[0]]) == Size(nodes[0]);
      CapturableOne(nodes[0], inLambda);
      WalkedCapturable(nodes[0], inLambda);
      if wrap {
        FindVarsConfined(List([nodes[0]]), scopes + [s], env, st1, inLambda, false, c);
      } else {
        FindVarsConfined(nodes[0], scopes + [s], env, st1, inLambda, false, c);
      }
      var w := if wrap then FindVars(List([nodes[0]]), scopes + [s], env, st1, inLambda, false)
               else FindVars(nodes[0], scopes + [s], env, st1, inLambda, false);
      FreshScope(st, w.st, scopes, env, w.env);
      Merge(st, w.st, scopes, env, env, w.env);
      var (u, st2) := Alloc(w.st, Union<Name>(w.st.sets[env], w.st.sets[w.env]));
      EvolvesFrame(st, st2, scopes, env, u);
      assert st2.sets[env] == w.st.sets[env] && st1.sets[env] == st.sets[env];
      assert Confined(st, st2, env, u, c);
      ArgsConfined(nodes[1..], wrap, scopes, u, st2, inLambda, c);
      var rest := Args(nodes[1..], wrap, scopes, u, st2, inLambda);
      ConfinedTrans(st, st2, rest.st, scopes, env, u, rest.env, c);
    }
  }

  lemma OtherConfined(ns: seq<Node>, scopes: seq<nat>, env: nat, st: Store, inLambda: bool, c: set<Name>)
    requires Frame(scopes, env, st) && CapturableList(ns, inLambda) <= c
    ensures var r := OtherStep(ns, scopes, env, st, inLambda); Confined(st, r.st, env, r.env, c)
    decreases Size(List(ns)), 0
  {
    if ns != [] {
      FromOrNilSmaller(ns, 1);
      CapturableFrom(ns, 1, inLambda);
      FindVarsConfined(From(ns, 1), scopes, env, st, inLambda, false, c);
      var w := FindVars(From(ns, 1), scopes, env, st, inLambda, false);
      Pushed(st, w.st, scopes, env, w.env, w.vars);
      PushConfined(st, w.st, scopes, env, w.env, w.vars, c);
    }
  }

  /** A name that the walk of `e` cannot capture (no `lambda` or `proc` of
      `e` holds it, and `e` is not walked inside a lambda) is in the capture
      set handed back exactly when it was in `env` before. */
  lemma FindVarsNoCapture(e: Node, scopes: seq<nat>, env: nat, st: Store, inLambda: bool, inAssign: bool, x: Name)
    requires Frame(scopes, env, st) && x !in Capturable(e, inLambda)
    ensures var r := FindVars(e, scopes, env, st, inLambda, inAssign); x in r.st.sets[r.env] <==> x in st.sets[env]
  {
    WalkedCapturable(e, inLambda);
    FindVarsConfined(e, scopes, env, st, inLambda, inAssign, Capturable(e, inLambda));
    var r := FindVars(e, scopes, env, st, inLambda, inAssign);
    if x in st.sets[env] {
      assert x in r.st.sets[r.env][..|st.sets[env]|];
    }
  }

  /** A symbol met inside a lambda while a scope of the enclosing stack holds
      it is captured: the capture set the walk of the elements hands back
      holds it. `m` is the state the walk is in when it meets the symbol, as
      element `j`. */
  lemma {:induction false} CapturedWhenMet(items: seq<Node>, j: nat, scopes: seq<nat>, env: nat, st: Store, inAssign: bool, n: Name)
    requires Frame(scopes, env, st) && j < |items| && items[j] == Sym(n)
    requires var m := FindVarsItems(items[..j], scopes, env, st, true, inAssign);
      InScopes(m.st.sets, Enclosing(scopes), n) != []
    ensures var r := FindVarsItems(items, scopes, env, st, true, inAssign); n in r.st.sets[r.env]
    decreases j
  {
    var h := FindVarsItem(items[0], scopes, env, st, true, inAssign);
    EvolvesFrame(st, h.st, scopes, env, h.env);
    var t := FindVarsItems(items[1..], scopes, h.env, h.st, true, inAssign);
    if j == 0 {
      assert items[..0] == [];
      VisitCaptured(st, scopes, env, n, inAssign);
      assert n in t.st.sets[t.env][..|h.st.sets[h.env]|];
    } else {
      assert items[..j][0] == items[0] && items[..j][1..] == items[1..][..j - 1];
      CapturedWhenMet(items[1..], j - 1, scopes, h.env, h.st, inAssign, n);
    }
  }

  /** A lambda whose body meets, as its element `j`, a name that a scope of
      the enclosing stack still holds at that point and that is not one of
      the lambda's parameters, hands back a capture set holding that name. */
  lemma LambdaCaptures(ns: seq<Node>, scopes: seq<nat>, env: nat, st: Store, j: nat, n: Name)
    requires Frame(scopes, env, st) && (Tagged(ns, "lambda") || Tagged(ns, "proc"))
    requires |ns| > 2 && ns[2].List? && j < |ns[2].items| && ns[2].items[j] == Sym(n)
    requires !Declared(At(ns, 1), n)
    requires Frame(scopes + [|st.sets|], env, Alloc(st, []).1)
    requires var m := FindVarsItems(ns[2].items[..j], scopes + [|st.sets|], env, Alloc(st, []).1, true, false);
      InScopes(m.st.sets, scopes, n) != []
    ensures var r := LambdaStep(ns, scopes, env, st); n in r.st.sets[r.env]
  {
    var (s, st1) := Alloc(st, []);
    assert Enclosing(scopes + [s]) == scopes;
    CapturedWhenMet(ns[2].items, j, scopes + [s], env, st1, false, n);
  }

  /** A lambda whose body is one name that an enclosing scope holds
      captures that name into the enclosing capture set itself, and the
      nearest scope holding it loses it. This holds for a declared parameter
      too: the parameters are taken out only of the set the body hands back
      (transform.rb:183), after line 237 has already added the name to
      `env`. */
  lemma ParameterCaptured(ns: seq<Node>, scopes: seq<nat>, env: nat, st: Store, n: Name)
    requires Frame(scopes, env, st) && (Tagged(ns, "lambda") || Tagged(ns, "proc"))
    requires |ns| > 2 && ns[2] == List([Sym(n)]) && InScopes(st.sets, scopes, n) != []
    ensures var r := LambdaStep(ns, scopes, env, st); var k := InScopes(st.sets, scopes, n)[0];
      && n in r.st.sets[env] && n in r.st.sets[r.env] && k < |r.st.sets| && n !in r.st.sets[k]
  {
    var (s, st1) := Alloc(st, []);
    PushScope(scopes, env, st);
    assert Enclosing(scopes + [s]) == scopes;
    assert InScopes(st1.sets, scopes, n) == InScopes(st.sets, scopes, n) by {
      InScopesAlloc(st.sets, [], scopes, n);
    }
    VisitCaptured(st1, scopes + [s], env, n, false);
    OneSymbolWalk(n, scopes + [s], env, st1, true, false);
    var body := FindVars(List([Sym(n)]), scopes + [s], env, st1, true, false);
    var params := SymbolsOf(At(ns, 1));
    var (e2, st2) := Alloc(body.st, Minus<Name>(body.st.sets[env], params));
    var (u, st3) := Alloc(st2, Union<Name>(st2.sets[env], st2.sets[e2]));
    assert LambdaStep(ns, scopes, env, st).st == st3;
  }

  /** Walking the one-element array `[n]` is meeting the symbol `n`. */
  lemma OneSymbolWalk(n: Name, scopes: seq<nat>, env: nat, st: Store, inLambda: bool, inAssign: bool)
    requires Frame(scopes, env, st)
    ensures var r := FindVars(List([Sym(n)]), scopes, env, st, inLambda, inAssign);
      r.env == env && r.st == VisitSymbol(st, scopes, env, n, inLambda, inAssign)
  {
    assert [Sym(n)][1..] == [] && [Sym(n)][0] == Sym(n);
    var h := FindVarsItem(Sym(n), scopes, env, st, inLambda, inAssign);
    EvolvesFrame(st, h.st, scopes, env, h.env);
    var t := FindVarsItems([], scopes, h.env, h.st, inLambda, inAssign);
    assert t.env == h.env && t.st == h.st;
  }

  /** Appending a set to the store does not change which scopes hold a name. */
  lemma {:induction false} InScopesAlloc(sets: seq<seq<Name>>, extra: seq<Name>, scopes: seq<nat>, n: Name)
    requires ValidIds(sets, scopes)
    ensures ValidIds(sets + [extra], scopes) && InScopes(sets + [extra], scopes, n) == InScopes(sets, scopes, n)
    decreases |scopes|
  {
    if scopes != [] {
      InScopesAlloc(sets, extra, scopes[..|scopes| - 1], n);
    }
  }

  /** `def f(x); lambda {|x| x}; end`: the capture set handed back holds
      `x`, which the lambda declares as its parameter, and the method's
      scope (id 0) no longer holds `x`. */
  lemma ParameterCapturedExample()
    ensures var ns := [Sym("lambda"), List([Sym("x")]), List([Sym("x")])];
      var r := LambdaStep(ns, [0], 1, Store([["x"], []], map[]));
      "x" in r.st.sets[r.env] && Declared(ns[1], "x") && "x" !in r.st.sets[0]
  {
    var st := Store([["x"], []], map[]);
    assert InScopes(st.sets, [0], "x") == [0];
    ParameterCaptured([Sym("lambda"), List([Sym("x")]), List([Sym("x")])], [0], 1, st, "x");
  }
}
