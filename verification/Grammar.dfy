/** How the parser reads larger expressions built from smaller ones. */
module Grammar {
  import opened Visibility
  import opened NormalForm

  // ---------------------------------------------------------------------------
  // A successful parse does not look past what it needs.

  lemma {:induction false} LabelEndLocal(s: string, u: string)
    requires LabelEnd(s) < |s| || EndsLabel(u)
    ensures LabelEnd(s + u) == LabelEnd(s)
  {
    if s == [] {
      assert s + u == u;
    } else {
      assert (s + u)[0] == s[0];
      if IsLabelChar(s[0]) {
        assert (s + u)[1..] == s[1..] + u;
        LabelEndLocal(s[1..], u);
      }
    }
  }

  lemma {:induction false} PrimaryExtends(s: string, u: string)
    requires ParsePrimary(s).Yes? && (ParsePrimary(s).rest == [] ==> EndsLabel(u))
    ensures ParsePrimary(s + u) == Yes(ParsePrimary(s).expr, ParsePrimary(s).rest + u)
    decreases |s|, 0
  {
    assert (s + u)[0] == s[0];
    if StartsWith(s, '(') {
      var inner := ParseOr(s[1..]);
      OrExtends(s[1..], u);
      assert (s + u)[1..] == s[1..] + u;
      assert (inner.rest + u)[1..] == inner.rest[1..] + u;
    } else {
      var n := LabelEnd(s);
      LabelEndLocal(s, u);
      assert (s + u)[..n] == s[..n] && (s + u)[n..] == s[n..] + u;
    }
  }

  lemma {:induction false} AndsExtends(s: string, u: string)
    requires ParseAnds(s).Many? && (ParseAnds(s).rest == [] ==> EndsAnd(u))
    ensures ParseAnds(s + u) == Many(ParseAnds(s).exprs, ParseAnds(s).rest + u)
    decreases |s|, 1
  {
    var first := ParsePrimary(s);
    PrimaryExtends(s, u);
    if StartsWith(first.rest, '&') {
      assert (first.rest + u)[1..] == first.rest[1..] + u;
      AndsExtends(first.rest[1..], u);
    } else {
      assert first.rest != [] ==> (first.rest + u)[0] == first.rest[0];
      assert first.rest == [] ==> first.rest + u == u;
    }
  }

  lemma {:induction false} AndExtends(s: string, u: string)
    requires ParseAnd(s).Yes? && (ParseAnd(s).rest == [] ==> EndsAnd(u))
    ensures ParseAnd(s + u) == Yes(ParseAnd(s).expr, ParseAnd(s).rest + u)
    decreases |s|, 2
  {
    AndsExtends(s, u);
  }

  lemma {:induction false} OrsExtends(s: string, u: string)
    requires ParseOrs(s).Many? && (ParseOrs(s).rest == [] ==> EndsOr(u))
    ensures ParseOrs(s + u) == Many(ParseOrs(s).exprs, ParseOrs(s).rest + u)
    decreases |s|, 3
  {
    var first := ParseAnd(s);
    AndExtends(s, u);
    if StartsWith(first.rest, '|') {
      assert (first.rest + u)[1..] == first.rest[1..] + u;
      OrsExtends(first.rest[1..], u);
    } else {
      assert first.rest != [] ==> (first.rest + u)[0] == first.rest[0];
      assert first.rest == [] ==> first.rest + u == u;
    }
  }

  lemma {:induction false} OrExtends(s: string, u: string)
    requires ParseOr(s).Yes? && (ParseOr(s).rest == [] ==> EndsOr(u))
    ensures ParseOr(s + u) == Yes(ParseOr(s).expr, ParseOr(s).rest + u)
    decreases |s|, 4
  {
    OrsExtends(s, u);
  }

  // ---------------------------------------------------------------------------
  // Operators mean what they should.

  predicate Accepts(s: string) {
    s != [] && ParseRaw(s).Yes?
  }

  /** Who may see what `s` protects. */
  predicate Admits(s: string, auths: set<string>)
    requires Accepts(s)
  {
    Evaluate(ParseRaw(s).expr, auths)
  }

  lemma AcceptedOrs(s: string, auths: set<string>)
    requires Accepts(s)
    ensures ParseOrs(s).Many? && ParseOrs(s).rest == []
    ensures Admits(s, auths) <==> AnyOf(ParseOrs(s).exprs, auths)
  {
    hide Evaluate;
    OneOrMore(ParseOrs(s).exprs, auths);
  }

  lemma OneOrMore(es: seq<Expr>, auths: set<string>)
    requires es != []
    ensures Evaluate(if |es| == 1 then es[0] else Or(es), auths) <==> AnyOf(es, auths)
  {
    OperatorMeaning(es, auths);
    assert |es| == 1 ==> es == [es[0]] && es[0] in es;
  }

  lemma {:induction false} OrsJoin(s: string, t: string)
    requires ParseOrs(s).Many? && ParseOrs(s).rest == [] && ParseOrs(t).Many?
    ensures ParseOrs(s + "|" + t) == Many(ParseOrs(s).exprs + ParseOrs(t).exprs, ParseOrs(t).rest)
    decreases |s|
  {
    hide ParseAnd;
    var first := ParseAnd(s);
    var u := "|" + t;
    assert s + "|" + t == s + u;
    AndExtends(s, u);
    if first.rest == [] {
      assert first.rest + u == u;
      assert u[1..] == t;
    } else {
      OrsJoin(first.rest[1..], t);
      assert (first.rest + u)[1..] == first.rest[1..] + "|" + t;
      assert [first.expr] + (ParseOrs(first.rest[1..]).exprs + ParseOrs(t).exprs) == ParseOrs(s).exprs + ParseOrs(t).exprs;
    }
  }

  /** Writing `|` between any two expressions, without parentheses, gives their disjunction. */
  lemma BarIsDisjunction(s: string, t: string, auths: set<string>)
    requires Accepts(s) && Accepts(t)
    ensures Accepts(s + "|" + t) && (Admits(s + "|" + t, auths) <==> Admits(s, auths) || Admits(t, auths))
  {
    hide Evaluate;
    AcceptedOrs(s, auths);
    AcceptedOrs(t, auths);
    OrsJoin(s, t);
    AcceptedOrs(s + "|" + t, auths);
    CombineConcat(Disjunction, ParseOrs(s).exprs, ParseOrs(t).exprs, auths);
  }

  lemma ParenthesizedPrimary(s: string, u: string)
    requires Accepts(s)
    ensures ParsePrimary("(" + s + ")" + u) == Yes(ParseRaw(s).expr, u)
  {
    hide ParseOr, ParseOrs, LabelEnd;
    var close := ")" + u;
    var whole := "(" + s + ")" + u;
    OrExtends(s, close);
    assert ParseOr(s).rest + close == close;
    assert whole == "(" + (s + close);
    assert whole[1..] == s + close && close[1..] == u;
  }

  /** Writing `&` between two parenthesized expressions gives their conjunction. */
  lemma AmpersandIsConjunction(s: string, t: string, auths: set<string>)
    requires Accepts(s) && Accepts(t)
    ensures var whole := "(" + s + ")&(" + t + ")";
            Accepts(whole) && (Admits(whole, auths) <==> Admits(s, auths) && Admits(t, auths))
  {
    hide Evaluate;
    var whole, right := "(" + s + ")&(" + t + ")", "(" + t + ")";
    var d, e := ParseRaw(s).expr, ParseRaw(t).expr;
    assert whole == "(" + s + ")" + ("&" + right);
    ParenthesizedPrimary(s, "&" + right);
    assert right == "(" + t + ")" + [];
    ParenthesizedPrimary(t, []);
    assert [e] + [] == [e] && ("&" + right)[1..] == right;
    assert ParseAnds(right) == Many([e], []);
    assert [d] + [e] == [d, e];
    assert ParseAnds(whole) == Many([d, e], []);
    assert ParseAnd(whole) == Yes(And([d, e]), []);
    assert [And([d, e])] + [] == [And([d, e])];
    assert ParseOrs(whole) == Many([And([d, e])], []);
    PairMeaning(d, e, auths);
  }

  lemma PairMeaning(d: Expr, e: Expr, auths: set<string>)
    ensures Evaluate(And([d, e]), auths) <==> Evaluate(d, auths) && Evaluate(e, auths)
  {
    OperatorMeaning([d, e], auths);
    assert d in [d, e] && e in [d, e];
  }

  // ---------------------------------------------------------------------------
  // Leaves, parentheses and precedence.

  lemma {:induction false} LabelEndWhole(n: string)
    requires forall i :: 0 <= i < |n| ==> IsLabelChar(n[i])
    ensures LabelEnd(n) == |n|
  {
    if n != [] {
      LabelEndWhole(n[1..]);
    }
  }

  lemma LabelPrimary(n: string)
    requires ValidLabel(n)
    ensures ParsePrimary(n) == Yes(Label(n), [])
  {
    LabelEndWhole(n);
    assert n[..|n|] == n && n[|n|..] == [];
    assert IsLabelChar(n[0]);
  }

  /** A text without a bar outside parentheses. */
  predicate Barless(s: string) {
    Accepts(s) && ParseAnd(s).Yes? && ParseAnd(s).rest == []
  }

  lemma WholeConjunction(s: string)
    requires s != [] && ParseAnd(s).Yes? && ParseAnd(s).rest == []
    ensures Barless(s) && ParseRaw(s).expr == ParseAnd(s).expr
  {
    hide ParseAnd;
    var e := ParseAnd(s).expr;
    assert [e] + [] == [e];
    assert ParseOrs(s) == Many([e], []);
  }

  lemma PrimaryBarless(s: string)
    requires ParsePrimary(s).Yes? && ParsePrimary(s).rest == []
    ensures Barless(s) && ParseRaw(s).expr == ParsePrimary(s).expr
  {
    hide ParsePrimary, ParseRaw;
    var e := ParsePrimary(s).expr;
    assert [e] + [] == [e];
    assert ParseAnds(s) == Many([e], []);
    WholeConjunction(s);
  }

  /** The codes of the digits, the letters, and - . : _. */
  predicate LabelCode(code: int) {
    48 <= code <= 57 || 65 <= code <= 90 || 97 <= code <= 122 || code in {45, 46, 58, 95}
  }

  /** A label admits exactly those who hold it. */
  lemma LabelAdmitsHolders(n: string, auths: set<string>)
    requires n != [] && forall i :: 0 <= i < |n| ==> LabelCode(n[i] as int)
    ensures Barless(n) && Accepts(n) && (Admits(n, auths) <==> n in auths)
  {
    hide ParseRaw, ParseAnd, ParsePrimary;
    assert ValidLabel(n);
    LabelPrimary(n);
    PrimaryBarless(n);
  }

  /** Parentheses change nothing, and hide bars. */
  lemma ParenthesesIrrelevant(s: string, auths: set<string>)
    requires Accepts(s)
    ensures var whole := "(" + s + ")"; Barless(whole) && Accepts(whole) && (Admits(whole, auths) <==> Admits(s, auths))
  {
    hide Evaluate, ParseRaw, ParseAnd, ParsePrimary;
    var whole := "(" + s + ")";
    ParenthesizedPrimary(s, []);
    assert whole + [] == whole;
    PrimaryBarless(whole);
  }

  lemma {:induction false} AndsJoin(s: string, t: string)
    requires ParseAnds(s).Many? && ParseAnds(s).rest == [] && ParseAnds(t).Many?
    ensures ParseAnds(s + "&" + t) == Many(ParseAnds(s).exprs + ParseAnds(t).exprs, ParseAnds(t).rest)
    decreases |s|
  {
    hide ParsePrimary;
    var first := ParsePrimary(s);
    var u := "&" + t;
    assert s + "&" + t == s + u;
    PrimaryExtends(s, u);
    if first.rest == [] {
      assert first.rest + u == u;
      assert u[1..] == t;
    } else {
      AndsJoin(first.rest[1..], t);
      assert (first.rest + u)[1..] == first.rest[1..] + "&" + t;
      assert [first.expr] + (ParseAnds(first.rest[1..]).exprs + ParseAnds(t).exprs) == ParseAnds(s).exprs + ParseAnds(t).exprs;
    }
  }

  lemma BarlessAnds(s: string, auths: set<string>)
    requires Barless(s)
    ensures ParseAnds(s).Many? && ParseAnds(s).rest == []
    ensures Admits(s, auths) <==> Every(ParseAnds(s).exprs, auths)
  {
    hide Evaluate, ParseRaw;
    WholeConjunction(s);
    OneOrAll(ParseAnds(s).exprs, auths);
  }

  lemma OneOrAll(es: seq<Expr>, auths: set<string>)
    requires es != []
    ensures Evaluate(if |es| == 1 then es[0] else And(es), auths) <==> Every(es, auths)
  {
    OperatorMeaning(es, auths);
    assert |es| == 1 ==> es == [es[0]] && es[0] in es;
  }

  /** Ampersands bind more tightly than bars: between texts without a bar of their own they
      need no parentheses. */
  lemma AmpersandBindsTighter(s: string, t: string, auths: set<string>)
    requires Barless(s) && Barless(t)
    ensures var whole := s + "&" + t;
            Barless(whole) && Accepts(whole) && (Admits(whole, auths) <==> Admits(s, auths) && Admits(t, auths))
  {
    hide Evaluate, ParseRaw;
    BarlessAnds(s, auths);
    BarlessAnds(t, auths);
    AndsJoin(s, t);
    WholeConjunction(s + "&" + t);
    BarlessAnds(s + "&" + t, auths);
    CombineConcat(Conjunction, ParseAnds(s).exprs, ParseAnds(t).exprs, auths);
  }

  lemma {:induction false} MoreSee(e: Expr, auths: set<string>, more: set<string>)
    requires auths <= more && Evaluate(e, auths)
    ensures Evaluate(e, more)
    decreases e
  {
    match e
    case Public =>
    case Label(_) =>
    case And(cs) => forall i | 0 <= i < |cs| { MoreSee(cs[i], auths, more); }
    case Or(cs) =>
      var i :| 0 <= i < |cs| && Evaluate(cs[i], auths);
      MoreSee(cs[i], auths, more);
  }

  /** More authorizations never take access away, and the empty text admits everybody. */
  lemma MoreAuthorizationsSeeMore(s: string, auths: set<string>, more: set<string>)
    requires Accepts(s) && auths <= more && Admits(s, auths)
    ensures Admits(s, more)
    ensures ParseRaw("").Yes? && Evaluate(ParseRaw("").expr, auths)
  {
    MoreSee(ParseRaw(s).expr, auths, more);
  }

  // ---------------------------------------------------------------------------
  // What is not accepted, and why.

  /** A text that starts with neither a label nor a parenthesis. */
  lemma LabelExpected(s: string)
    requires s != [] && s[0] != '(' && !LabelCode(s[0] as int)
    ensures ParseRaw(s) == No(ExpectedLabel)
  {
    hide ParseOr;
    ParseOrFails(s);
  }

  /** An accepted text whose parenthesis is not closed. */
  lemma ClosingExpected(s: string)
    requires Accepts(s)
    ensures ParseRaw("(" + s) == No(ExpectedClosing)
  {
    hide ParseOr, LabelEnd;
    assert ("(" + s)[1..] == s;
    ParseOrFails("(" + s);
  }

  lemma ParseOrFails(s: string)
    requires ParsePrimary(s).No?
    ensures ParseOr(s) == No(ParsePrimary(s).error)
  {
    hide ParsePrimary;
    assert ParseAnds(s) == Never(ParsePrimary(s).error);
    assert ParseAnd(s) == No(ParsePrimary(s).error);
    assert ParseOrs(s) == Never(ParsePrimary(s).error);
  }

  /** An accepted text with something after it that continues neither label nor operator. */
  lemma TrailingRejected(s: string, u: string)
    requires Accepts(s) && u != [] && !LabelCode(u[0] as int) && u[0] != '&' && u[0] != '|'
    ensures ParseRaw(s + u) == No(Trailing)
  {
    hide ParseOr;
    OrExtends(s, u);
    assert ParseOr(s).rest + u == u;
  }
}
