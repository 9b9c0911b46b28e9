/** The parser's cursor, the printer's buffer and the normalizer's loop. */
module VisibilityLoops {
  import opened Visibility
  import opened NormalForm

  datatype Step = Got(expr: Expr) | Failed(error: Error)

  /** A cursor that stopped at `rest` agrees with a parse. */
  predicate Agrees(r: Step, rest: string, p: Parsed) {
    if p.Yes? then r == Got(p.expr) && rest == p.rest else r == Failed(p.error)
  }

  lemma PrependTwice(es: seq<Expr>, e: Expr, more: Several)
    ensures Prepend(es, Prepend([e], more)) == Prepend(es + [e], more)
  {
    if more.Many? {
      assert es + ([e] + more.exprs) == es + [e] + more.exprs;
    }
  }

  /** The remaining characters. */
  class Parser {
    var rest: string

    constructor (input: string)
      ensures rest == input
    {
      rest := input;
    }

    method Consume(expected: char) returns (ok: bool)
      modifies this
      ensures ok <==> StartsWith(old(rest), expected)
      ensures rest == if ok then old(rest)[1..] else old(rest)
    {
      ok := rest != [] && rest[0] == expected;
      if ok {
        rest := rest[1..];
      }
    }

    method TakeLabel() returns (name: string)
      modifies this
      ensures name == old(rest)[..LabelEnd(old(rest))] && rest == old(rest)[LabelEnd(old(rest))..]
    {
      name := [];
      while rest != [] && IsLabelChar(rest[0])
        invariant |name| + LabelEnd(rest) == LabelEnd(old(rest)) && |name| <= |old(rest)|
        invariant name == old(rest)[..|name|] && rest == old(rest)[|name|..]
        decreases |rest|
      {
        name := name + [rest[0]];
        rest := rest[1..];
      }
    }

    method TakePrimary() returns (r: Step)
      modifies this
      ensures Agrees(r, rest, ParsePrimary(old(rest)))
      decreases |rest|, 0
    {
      var open := Consume('(');
      if open {
        r := TakeOr();
        if r.Failed? {
          return;
        }
        var close := Consume(')');
        if !close {
          return Failed(ExpectedClosing);
        }
        return;
      }
      var name := TakeLabel();
      if name == [] {
        return Failed(ExpectedLabel);
      }
      return Got(Label(name));
    }

    method TakeAnd() returns (r: Step)
      modifies this
      ensures Agrees(r, rest, ParseAnd(old(rest)))
      decreases |rest|, 1
    {
      hide ParsePrimary;
      r := TakePrimary();
      if r.Failed? {
        return;
      }
      var children := [r.expr];
      var more := Consume('&');
      while more
        invariant children != [] && |rest| < |old(rest)|
        invariant ParseAnds(old(rest)) == Prepend(children, if more then ParseAnds(rest) else Many([], rest))
        decreases |rest|, more
      {
        r := TakePrimary();
        if r.Failed? {
          return;
        }
        PrependTwice(children, r.expr, MoreAnds(rest));
        children := children + [r.expr];
        more := Consume('&');
      }
      assert children + [] == children;
      r := Got(if |children| == 1 then children[0] else And(children));
    }

    method TakeOr() returns (r: Step)
      modifies this
      ensures Agrees(r, rest, ParseOr(old(rest)))
      decreases |rest|, 2
    {
      hide ParseAnd;
      r := TakeAnd();
      if r.Failed? {
        return;
      }
      var children := [r.expr];
      var more := Consume('|');
      while more
        invariant children != [] && |rest| < |old(rest)|
        invariant ParseOrs(old(rest)) == Prepend(children, if more then ParseOrs(rest) else Many([], rest))
        decreases |rest|, more
      {
        r := TakeAnd();
        if r.Failed? {
          return;
        }
        PrependTwice(children, r.expr, MoreOrs(rest));
        children := children + [r.expr];
        more := Consume('|');
      }
      assert children + [] == children;
      r := Got(if |children| == 1 then children[0] else Or(children));
    }
  }

  // ---------------------------------------------------------------------------
  // Printing into a buffer.

  lemma {:induction false} JoinedSnoc(cs: seq<Expr>, c: Expr, separator: char, precedence: nat)
    requires cs != []
    ensures Joined(cs + [c], separator, precedence) == Joined(cs, separator, precedence) + [separator] + Print(c, precedence)
  {
    hide Print;
    assert (cs + [c])[1..] == cs[1..] + [c];
    if |cs| == 1 {
      assert cs[1..] + [c] == [c];
      assert cs + [c] == [cs[0], c];
    } else {
      JoinedSnoc(cs[1..], c, separator, precedence);
      var front, tail := Print(cs[0], precedence) + [separator], Joined(cs[1..], separator, precedence);
      assert front + (tail + [separator] + Print(c, precedence)) == front + tail + [separator] + Print(c, precedence);
    }
  }

  method WriteCanonical(e: Expr, parent: nat, canonical: string) returns (canonical': string)
    ensures canonical' == canonical + Print(e, parent)
    decreases e, 1
  {
    canonical' := canonical;
    var wrap := Precedence(e) < parent;
    if wrap {
      canonical' := canonical' + "(";
    }
    match e {
      case Public =>
      case Label(name) => canonical' := canonical' + name;
      case And(cs) => canonical' := WriteJoined(cs, '&', Precedence(e), canonical');
      case Or(cs) => canonical' := WriteJoined(cs, '|', Precedence(e), canonical');
    }
    if wrap {
      canonical' := canonical' + ")";
    }
  }

  method WriteJoined(cs: seq<Expr>, separator: char, precedence: nat, canonical: string) returns (canonical': string)
    ensures canonical' == canonical + Joined(cs, separator, precedence)
    decreases cs, 0
  {
    hide Print;
    canonical' := canonical;
    var first := true;
    for i := 0 to |cs|
      invariant first <==> i == 0
      invariant canonical' == canonical + Joined(cs[..i], separator, precedence)
    {
      assert cs[..i + 1] == cs[..i] + [cs[i]];
      if first {
        assert cs[..i + 1] == [cs[i]];
        first := false;
      } else {
        JoinedSnoc(cs[..i], cs[i], separator, precedence);
        canonical' := canonical' + [separator];
      }
      canonical' := WriteCanonical(cs[i], precedence, canonical');
    }
    assert cs[..|cs|] == cs;
  }

  // ---------------------------------------------------------------------------
  // Normalizing.

  method Normalize(e: Expr) returns (n: Expr)
    ensures n == Normalized(e)
    decreases e, 1
  {
    hide Rebuilt;
    match e {
      case And(cs) => n := NormalizeChildren(cs, Conjunction);
      case Or(cs) => n := NormalizeChildren(cs, Disjunction);
      case _ => n := e;
    }
  }

  method NormalizeChildren(cs: seq<Expr>, op: Operator) returns (n: Expr)
    ensures n == Rebuilt(op, NormalizedAll(cs))
    decreases cs, 0
  {
    hide Normalized, Sorted, Dedup;
    ghost var ns := NormalizedAll(cs);
    var operands: seq<Expr> := [];
    for i := 0 to |cs|
      invariant operands == Flattened(op, ns[..i])
      invariant op == Disjunction ==> Public !in ns[..i]
    {
      assert ns[..i + 1][..i] == ns[..i];
      var normalized := Normalize(cs[i]);
      match (op, normalized) {
        case (Conjunction, And(grandchildren)) => operands := operands + grandchildren;
        case (Disjunction, Or(grandchildren)) => operands := operands + grandchildren;
        case (Conjunction, Public) =>
        case (Disjunction, Public) =>
          assert ns[i] == Public;
          return Public;
        case _ => operands := operands + [normalized];
      }
    }
    assert ns[..|cs|] == ns;
    n := Collapsed(op, Dedup(Sorted(operands)));
  }

  method ParseExpression(s: string) returns (r: Outcome)
    ensures r == Parse(s)
  {
    hide ParseOr, Normalized, Canonical;
    if s == [] {
      assert Normalized(Public) == Public by { PublicNormal(); NormalFixed(Public); }
      PrintsEmpty();
      return Accepted(VisibilityExpr(Public, ""));
    }
    var parser := new Parser(s);
    var step := parser.TakeOr();
    if step.Failed? {
      return Rejected(step.error);
    }
    if parser.rest != [] {
      return Rejected(Trailing);
    }
    var n := Normalize(step.expr);
    var canonical := WriteCanonical(n, 0, "");
    IsCanonical(n, canonical);
    r := Accepted(VisibilityExpr(n, canonical));
  }

  lemma PrintsEmpty()
    ensures Canonical(Public) == ""
  {
  }

  lemma IsCanonical(n: Expr, text: string)
    requires text == "" + Print(n, 0)
    ensures text == Canonical(n)
  {
  }
}
