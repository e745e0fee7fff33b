/** `preprocess` (transform.rb:531-544): the class scopes are built first,
    then the rewrites run over the whole program in a fixed order. The string
    table and the closure labels draw on one label counter, so the counter
    the string pass leaves is where the closure pass starts. */
module Pipeline {
  import opened Ast
  import opened ClassScopes
  import opened Literals
  import opened Desugar
  import opened Materializer
  import opened Closures

  /** What `preprocess` leaves: the program, the class-scope state and the
      string table with its label counter. */
  datatype Preprocessed = Preprocessed(tree: Node, scopes: State, strings: Table)

  /** The passes in the order `preprocess` runs them, up to the closure
      pass: the program and the string table as `rewrite_lambda` receives
      them. `None` stands for the failure of `rewrite_let_env` on a `defm` it
      cannot take apart. */
  ghost function BeforeClosures(exp: Node, st: State, t: Table, ops: set<string>): Option<(Node, Table)>
    requires forall c :: c in st.classes ==> st.classes[c] < |st.scopes|
  {
    var n0 := Setup(exp, st).0;
    var n1 := RewriteDestruct(n0);
    var n2 := RewriteConcat(n1);
    var n3 := RewriteRange(n2);
    var (n4, t1) := StrNode(n3, t);
    var n5 := RewriteFixnum(n4);
    var n6 := RewriteOperators(n5, ops);
    var n7 := RewriteYield(n6);
    if !Everywhere(n7, "defm", DefmOk) then None
    else Some((RewriteLetEnv(n7), t1))
  }

  /** `preprocess`: the closure pass draws its labels from the counter the
      string pass left. */
  ghost function Preprocess(exp: Node, st: State, t: Table, ops: set<string>): Option<Preprocessed>
    requires forall c :: c in st.classes ==> st.classes[c] < |st.scopes|
  {
    match BeforeClosures(exp, st, t, ops)
    case None => None
    case Some((n8, t1)) =>
      var (n9, k) := RewriteLambda(n8, t1.next);
      Some(Preprocessed(n9, Setup(exp, st).1, Table(t1.constants, k)))
  }

  /** Once `preprocess` is through, no `lambda` or `proc` node is left
      where the traversal reaches. */
  lemma PreprocessNoClosures(exp: Node, st: State, t: Table, ops: set<string>)
    requires forall c :: c in st.classes ==> st.classes[c] < |st.scopes|
    requires Preprocess(exp, st, t, ops).Some?
    ensures Everywhere(Preprocess(exp, st, t, ops).value.tree, "sexp", NoClosure())
  {
    var (n8, t1) := BeforeClosures(exp, st, t, ops).value;
    LambdaDone(n8, t1.next);
  }

  /** The string table only grows, every label in it came from the counter
      and no two strings share one, before and after `preprocess`. The
      closure pass takes its labels after every string label: a `defun`
      label it adds is the label of no string. */
  lemma PreprocessStrings(exp: Node, st: State, t: Table, ops: set<string>)
    requires forall c :: c in st.classes ==> st.classes[c] < |st.scopes|
    requires Preprocess(exp, st, t, ops).Some? && ValidTable(t)
    ensures var u := Preprocess(exp, st, t, ops).value.strings;
      Extends(t, u) && ValidTable(u)
    ensures var v := Preprocess(exp, st, t, ops).value;
      forall lab :: lab in DefunLabels(v.tree) && lab !in DefunLabels(BeforeClosures(exp, st, t, ops).value.0) ==>
        lab !in v.strings.constants.Values
  {
    var n3 := RewriteRange(RewriteConcat(RewriteDestruct(Setup(exp, st).0)));
    StrNodeTable(n3, t);
    StrNodeValid(n3, t);
    var (n8, t1) := BeforeClosures(exp, st, t, ops).value;
    assert t1 == StrNode(n3, t).1;
    var (n9, k) := RewriteLambda(n8, t1.next);
    var u := Table(t1.constants, k);
    assert u == Preprocess(exp, st, t, ops).value.strings;
    forall s | s in u.constants ensures LabelBelow(u.constants[s], u.next) {
      var j: nat :| j < t1.next && t1.constants[s] == LabelName(j);
    }
    LambdaLabels(n8, t1.next);
    forall lab | lab in DefunLabels(n9) && lab !in DefunLabels(n8) ensures lab !in u.constants.Values {
      var j: nat :| t1.next <= j < k && lab == LabelName(j);
      if lab in u.constants.Values {
        var s :| s in u.constants && u.constants[s] == lab;
        var i: nat :| i < t1.next && t1.constants[s] == LabelName(i);
        LabelNameInjective(i, j);
      }
    }
  }

  /** `preprocess` makes one global scope for the program; the scopes and the
      class names known before keep their identity, and when every constant
      agreed with `@classes` before, every one still does; likewise when
      every scope was named by its key. */
  lemma PreprocessScopes(exp: Node, st: State, t: Table, ops: set<string>)
    requires forall c :: c in st.classes ==> st.classes[c] < |st.scopes|
    requires Preprocess(exp, st, t, ops).Some?
    ensures var r := Preprocess(exp, st, t, ops).value.scopes;
      && r.global == |st.scopes| < |r.scopes| && r.scopes[r.global].kind == GlobalKind
      && (forall c :: c in st.classes ==> c in r.classes && r.classes[c] == st.classes[c])
      && (Agree(st) ==> Agree(r))
      && (Named(st) ==> Named(r))
  {
    SetupSpec(exp, st);
  }
}
