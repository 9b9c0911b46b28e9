/** Visibility expressions: syntax, meaning, printing and parsing. */
module Visibility {

  datatype Expr = Public | Label(name: string) | And(children: seq<Expr>) | Or(children: seq<Expr>)

  /** Whether the holder of the labels `auths` may see it. */
  predicate Evaluate(e: Expr, auths: set<string>)
    decreases e
  {
    match e
    case Public => true
    case Label(name) => name in auths
    case And(cs) => forall i :: 0 <= i < |cs| ==> Evaluate(cs[i], auths)
    case Or(cs) => exists i :: 0 <= i < |cs| && Evaluate(cs[i], auths)
  }

  predicate IsLabelChar(c: char) {
    'a' <= c <= 'z' || 'A' <= c <= 'Z' || '0' <= c <= '9' || c == '_' || c == '-' || c == '.' || c == ':'
  }

  predicate ValidLabel(s: string) {
    s != [] && forall i :: 0 <= i < |s| ==> IsLabelChar(s[i])
  }

  // ---------------------------------------------------------------------------
  // Printing.

  function Precedence(e: Expr): nat {
    match e
    case Public => 3
    case Label(_) => 3
    case And(_) => 2
    case Or(_) => 1
  }

  function Print(e: Expr, parent: nat): string
    decreases e, 1
  {
    if Precedence(e) < parent then "(" + Body(e) + ")" else Body(e)
  }

  function Body(e: Expr): string
    decreases e, 0
  {
    match e
    case Public => ""
    case Label(name) => name
    case And(cs) => Joined(cs, '&', 2)
    case Or(cs) => Joined(cs, '|', 1)
  }

  function Joined(cs: seq<Expr>, separator: char, precedence: nat): string
    decreases cs, 0
  {
    if cs == [] then ""
    else if |cs| == 1 then Print(cs[0], precedence)
    else Print(cs[0], precedence) + [separator] + Joined(cs[1..], separator, precedence)
  }

  function Canonical(e: Expr): string {
    Print(e, 0)
  }

  // ---------------------------------------------------------------------------
  // Parsing.

  datatype Error = ExpectedLabel | ExpectedClosing | Trailing

  datatype Parsed = Yes(expr: Expr, rest: string) | No(error: Error)

  datatype Several = Many(exprs: seq<Expr>, rest: string) | Never(error: Error)

  function LabelEnd(s: string): (n: nat)
    ensures n <= |s|
  {
    if s == [] || !IsLabelChar(s[0]) then 0 else 1 + LabelEnd(s[1..])
  }

  predicate StartsWith(s: string, c: char) {
    s != [] && s[0] == c
  }

  function ParsePrimary(s: string): (r: Parsed)
    ensures r.Yes? ==> |r.rest| < |s|
    decreases |s|, 0
  {
    if StartsWith(s, '(') then
      match ParseOr(s[1..])
      case No(error) => No(error)
      case Yes(e, rest) => if StartsWith(rest, ')') then Yes(e, rest[1..]) else No(ExpectedClosing)
    else if LabelEnd(s) == 0 then No(ExpectedLabel)
    else Yes(Label(s[..LabelEnd(s)]), s[LabelEnd(s)..])
  }

  /** One or more primaries separated by `&`. */
  function ParseAnds(s: string): (r: Several)
    ensures r.Many? ==> |r.rest| < |s| && r.exprs != []
    decreases |s|, 1
  {
    match ParsePrimary(s)
    case No(error) => Never(error)
    case Yes(e, rest) => Prepend([e], MoreAnds(rest))
  }

  function MoreAnds(s: string): (r: Several)
    ensures r.Many? ==> |r.rest| <= |s|
    decreases |s|, 2
  {
    if StartsWith(s, '&') then ParseAnds(s[1..]) else Many([], s)
  }

  function ParseAnd(s: string): (r: Parsed)
    ensures r.Yes? ==> |r.rest| < |s|
    decreases |s|, 3
  {
    match ParseAnds(s)
    case Never(error) => No(error)
    case Many(es, rest) => Yes(if |es| == 1 then es[0] else And(es), rest)
  }

  /** One or more conjunctions separated by `|`. */
  function ParseOrs(s: string): (r: Several)
    ensures r.Many? ==> |r.rest| < |s| && r.exprs != []
    decreases |s|, 4
  {
    match ParseAnd(s)
    case No(error) => Never(error)
    case Yes(e, rest) => Prepend([e], MoreOrs(rest))
  }

  function MoreOrs(s: string): (r: Several)
    ensures r.Many? ==> |r.rest| <= |s|
    decreases |s|, 5
  {
    if StartsWith(s, '|') then ParseOrs(s[1..]) else Many([], s)
  }

  function ParseOr(s: string): (r: Parsed)
    ensures r.Yes? ==> |r.rest| < |s|
    decreases |s|, 6
  {
    match ParseOrs(s)
    case Never(error) => No(error)
    case Many(es, rest) => Yes(if |es| == 1 then es[0] else Or(es), rest)
  }

  function Prepend(es: seq<Expr>, more: Several): Several {
    match more
    case Never(error) => more
    case Many(fs, rest) => Many(es + fs, rest)
  }

  /** Parsing before normalization. The empty string is public. */
  function ParseRaw(s: string): Parsed {
    if s == [] then Yes(Public, [])
    else
      match ParseOr(s)
      case No(error) => No(error)
      case Yes(e, rest) => if rest == [] then Yes(e, []) else No(Trailing)
  }

  // ---------------------------------------------------------------------------
  // Printing and parsing are inverse.

  /** Trees that print unambiguously: labels are valid, every operator has at least two
      operands, and none of them is public or has the same operator. */
  predicate Shaped(e: Expr)
    decreases e
  {
    match e
    case Public => true
    case Label(name) => ValidLabel(name)
    case And(cs) => |cs| >= 2 && forall i :: 0 <= i < |cs| ==> Shaped(cs[i]) && (cs[i].Label? || cs[i].Or?)
    case Or(cs) => |cs| >= 2 && forall i :: 0 <= i < |cs| ==> Shaped(cs[i]) && (cs[i].Label? || cs[i].And?)
  }

  /** What may follow a printed expression at the three levels of the grammar. */
  predicate EndsLabel(t: string) {
    t == [] || !IsLabelChar(t[0])
  }

  predicate EndsAnd(t: string) {
    EndsLabel(t) && !StartsWith(t, '&')
  }

  predicate EndsOr(t: string) {
    EndsAnd(t) && !StartsWith(t, '|')
  }

  lemma {:induction false} LabelEndExact(l: string, t: string)
    requires EndsLabel(t) && forall i :: 0 <= i < |l| ==> IsLabelChar(l[i])
    ensures LabelEnd(l + t) == |l|
  {
    if l == [] {
      assert l + t == t;
    } else {
      assert (l + t)[1..] == l[1..] + t;
      LabelEndExact(l[1..], t);
    }
  }

  lemma ParseLabel(name: string, t: string)
    requires ValidLabel(name) && EndsLabel(t)
    ensures ParsePrimary(name + t) == Yes(Label(name), t)
  {
    LabelEndExact(name, t);
    assert (name + t)[0] == name[0];
    assert (name + t)[..|name|] == name && (name + t)[|name|..] == t;
  }

  lemma {:induction false} ParsePrintedPrimary(e: Expr, t: string)
    requires Shaped(e) && (e.Label? || e.Or?) && EndsLabel(t)
    ensures ParsePrimary(Print(e, 2) + t) == Yes(e, t)
    decreases e, 1
  {
    if e.Label? {
      ParseLabel(e.name, t);
    } else {
      var inner := Joined(e.children, '|', 1);
      ParsePrintedOrs(e.children, ")" + t);
      assert (Print(e, 2) + t)[1..] == inner + (")" + t);
      assert (")" + t)[1..] == t;
    }
  }

  lemma {:induction false} ParsePrintedAnds(cs: seq<Expr>, t: string)
    requires cs != [] && EndsAnd(t)
    requires forall i :: 0 <= i < |cs| ==> Shaped(cs[i]) && (cs[i].Label? || cs[i].Or?)
    ensures ParseAnds(Joined(cs, '&', 2) + t) == Many(cs, t)
    decreases cs, 0
  {
    if |cs| == 1 {
      ParsePrintedPrimary(cs[0], t);
      assert [cs[0]] + [] == cs;
    } else {
      var more := Joined(cs[1..], '&', 2) + t;
      assert Joined(cs, '&', 2) + t == Print(cs[0], 2) + ("&" + more);
      ParsePrintedPrimary(cs[0], "&" + more);
      ParsePrintedAnds(cs[1..], t);
      assert ("&" + more)[1..] == more;
      assert [cs[0]] + cs[1..] == cs;
    }
  }

  lemma {:induction false} ParsePrintedAnd(e: Expr, t: string)
    requires Shaped(e) && (e.Label? || e.And?) && EndsAnd(t)
    ensures ParseAnd(Print(e, 1) + t) == Yes(e, t)
    decreases e, 1
  {
    if e.Label? {
      ParseLabel(e.name, t);
      assert [e] + [] == [e];
      assert ParseAnds(e.name + t) == Many([e], t);
    } else {
      ParsePrintedAnds(e.children, t);
    }
  }

  lemma {:induction false} ParsePrintedOrs(cs: seq<Expr>, t: string)
    requires cs != [] && EndsOr(t)
    requires forall i :: 0 <= i < |cs| ==> Shaped(cs[i]) && (cs[i].Label? || cs[i].And?)
    ensures ParseOrs(Joined(cs, '|', 1) + t) == Many(cs, t)
    decreases cs, 0
  {
    if |cs| == 1 {
      ParsePrintedAnd(cs[0], t);
      assert [cs[0]] + [] == cs;
    } else {
      var more := Joined(cs[1..], '|', 1) + t;
      assert Joined(cs, '|', 1) + t == Print(cs[0], 1) + ("|" + more);
      ParsePrintedAnd(cs[0], "|" + more);
      ParsePrintedOrs(cs[1..], t);
      assert ("|" + more)[1..] == more;
      assert [cs[0]] + cs[1..] == cs;
    }
  }

  /** Printing an unambiguous tree and parsing the result gives the tree back. */
  lemma ParsePrinted(e: Expr)
    requires Shaped(e)
    ensures ParseRaw(Canonical(e)) == Yes(e, [])
  {
    if e != Public {
      var text := Canonical(e);
      assert text + [] == text;
      if e.Or? {
        ParsePrintedOrs(e.children, []);
        assert text == Body(e) == Joined(e.children, '|', 1);
      } else {
        ParsePrintedAnd(e, []);
        assert text == Print(e, 1);
        assert [e] + [] == [e];
        assert ParseOrs(text) == Many([e], []);
      }
    }
  }

  /** So different unambiguous trees print differently. */
  lemma CanonicalInjective(d: Expr, e: Expr)
    requires Shaped(d) && Shaped(e) && Canonical(d) == Canonical(e)
    ensures d == e
  {
    ParsePrinted(d);
    ParsePrinted(e);
  }
}
