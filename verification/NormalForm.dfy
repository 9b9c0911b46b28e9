/** Normalizing visibility expressions. */
module NormalForm {
  import opened Bytes
  import opened Visibility

  datatype Operator = Conjunction | Disjunction

  function Codes(s: string): (cs: seq<int>)
    ensures |cs| == |s| && forall i :: 0 <= i < |s| ==> cs[i] == s[i] as int
  {
    seq(|s|, i requires 0 <= i < |s| => s[i] as int)
  }

  function SortKey(e: Expr): seq<int> {
    Codes(Canonical(e))
  }

  // ---------------------------------------------------------------------------
  // Sorting by printed form and dropping repetitions.

  /** Stable insertion: after every element that does not sort above. */
  function Insert(x: Expr, ys: seq<Expr>): seq<Expr> {
    if ys == [] then [x]
    else if Less(SortKey(x), SortKey(ys[0])) then [x] + ys
    else [ys[0]] + Insert(x, ys[1..])
  }

  function Sorted(xs: seq<Expr>): seq<Expr> {
    if xs == [] then [] else Insert(xs[|xs| - 1], Sorted(xs[..|xs| - 1]))
  }

  /** Of adjacent elements that print alike only the first stays. */
  function Dedup(ys: seq<Expr>): seq<Expr>
    decreases |ys|
  {
    if |ys| <= 1 then ys
    else if Canonical(ys[0]) == Canonical(ys[1]) then Dedup([ys[0]] + ys[2..])
    else [ys[0]] + Dedup(ys[1..])
  }

  predicate Ascending(ys: seq<Expr>) {
    forall i, j :: 0 <= i < j < |ys| ==> AtMost(SortKey(ys[i]), SortKey(ys[j]))
  }

  predicate Strict(ys: seq<Expr>) {
    forall i, j :: 0 <= i < j < |ys| ==> Less(SortKey(ys[i]), SortKey(ys[j]))
  }

  lemma AtMostTransitive(a: seq<int>, b: seq<int>, c: seq<int>)
    requires AtMost(a, b) && AtMost(b, c)
    ensures AtMost(a, c)
  {
    if Less(a, b) && Less(b, c) {
      LessTransitive(a, b, c);
    }
  }

  lemma {:induction false} InsertMembers(x: Expr, ys: seq<Expr>, z: Expr)
    ensures z in Insert(x, ys) <==> z == x || z in ys
  {
    if ys != [] && !Less(SortKey(x), SortKey(ys[0])) {
      InsertMembers(x, ys[1..], z);
      assert ys == [ys[0]] + ys[1..];
    }
  }

  lemma {:induction false} SortedMembers(xs: seq<Expr>, z: Expr)
    ensures z in Sorted(xs) <==> z in xs
  {
    if xs != [] {
      var n := |xs| - 1;
      InsertMembers(xs[n], Sorted(xs[..n]), z);
      SortedMembers(xs[..n], z);
      assert xs == xs[..n] + [xs[n]];
    }
  }

  lemma AscendingCons(y: Expr, ys: seq<Expr>)
    requires Ascending(ys) && forall z :: z in ys ==> AtMost(SortKey(y), SortKey(z))
    ensures Ascending([y] + ys)
  {
    hide SortKey, AtMost;
    var all := [y] + ys;
    forall i, j | 0 <= i < j < |all|
      ensures AtMost(SortKey(all[i]), SortKey(all[j]))
    {
      assert all[j] == ys[j - 1];
      assert i > 0 ==> all[i] == ys[i - 1];
    }
  }

  lemma AscendingTail(ys: seq<Expr>)
    requires ys != [] && Ascending(ys)
    ensures Ascending(ys[1..]) && forall z :: z in ys[1..] ==> AtMost(SortKey(ys[0]), SortKey(z))
  {
    hide SortKey, AtMost;
    forall z | z in ys[1..]
      ensures AtMost(SortKey(ys[0]), SortKey(z))
    {
      var i :| 0 <= i < |ys[1..]| && ys[1..][i] == z;
      assert ys[i + 1] == z;
    }
  }

  lemma {:induction false} InsertAscending(x: Expr, ys: seq<Expr>)
    requires Ascending(ys)
    ensures Ascending(Insert(x, ys))
  {
    hide SortKey, AtMost, Ascending;
    if ys == [] {
      AscendingOne(x);
    } else {
      AscendingTail(ys);
      if Less(SortKey(x), SortKey(ys[0])) {
        forall z | z in ys
          ensures AtMost(SortKey(x), SortKey(z))
        {
          assert z == ys[0] || z in ys[1..];
          LessThenAtMost(SortKey(x), SortKey(ys[0]), SortKey(z));
        }
        AscendingCons(x, ys);
      } else {
        InsertAscending(x, ys[1..]);
        NotLess(SortKey(x), SortKey(ys[0]));
        forall z | z in Insert(x, ys[1..])
          ensures AtMost(SortKey(ys[0]), SortKey(z))
        {
          InsertMembers(x, ys[1..], z);
        }
        AscendingCons(ys[0], Insert(x, ys[1..]));
      }
    }
  }

  lemma AscendingOne(x: Expr)
    ensures Ascending([x])
  {
  }

  lemma LessThenAtMost(a: seq<int>, b: seq<int>, c: seq<int>)
    requires Less(a, b) && (b == c || AtMost(b, c))
    ensures AtMost(a, c)
  {
    AtMostTransitive(a, b, c);
  }

  lemma NotLess(a: seq<int>, b: seq<int>)
    requires !Less(a, b)
    ensures AtMost(b, a)
  {
    LessTotal(a, b);
  }

  lemma {:induction false} SortedAscending(xs: seq<Expr>)
    ensures Ascending(Sorted(xs))
  {
    if xs != [] {
      SortedAscending(xs[..|xs| - 1]);
      InsertAscending(xs[|xs| - 1], Sorted(xs[..|xs| - 1]));
    }
  }

  lemma {:induction false} DedupMembers(ys: seq<Expr>, z: Expr)
    ensures z in Dedup(ys) ==> z in ys
    ensures z in ys ==> exists y :: y in Dedup(ys) && Canonical(y) == Canonical(z)
    decreases |ys|
  {
    hide Canonical;
    if |ys| > 1 {
      if Canonical(ys[0]) == Canonical(ys[1]) {
        var rest := [ys[0]] + ys[2..];
        DedupMembers(rest, z);
        DedupMembers(rest, ys[0]);
        assert z in ys <==> z == ys[1] || z in rest by { assert ys == [ys[0], ys[1]] + ys[2..]; }
      } else {
        DedupMembers(ys[1..], z);
        assert ys == [ys[0]] + ys[1..];
        if z in ys[1..] {
          var y :| y in Dedup(ys[1..]) && Canonical(y) == Canonical(z);
          assert y in Dedup(ys);
        } else if z == ys[0] {
          assert z in Dedup(ys);
        }
      }
    } else {
      assert z in ys ==> z in Dedup(ys);
    }
  }

  lemma {:induction false} DedupStrict(ys: seq<Expr>)
    requires Ascending(ys)
    ensures Strict(Dedup(ys))
    decreases |ys|
  {
    hide SortKey;
    if |ys| > 1 {
      AscendingTail(ys);
      if Canonical(ys[0]) == Canonical(ys[1]) {
        var rest := [ys[0]] + ys[2..];
        assert ys[1..][1..] == ys[2..];
        AscendingTail(ys[1..]);
        forall z | z in ys[2..]
          ensures AtMost(SortKey(ys[0]), SortKey(z))
        {
          assert z in ys[1..][1..];
        }
        AscendingCons(ys[0], ys[2..]);
        DedupStrict(rest);
      } else {
        DedupStrict(ys[1..]);
        forall z | z in Dedup(ys[1..])
          ensures Less(SortKey(ys[0]), SortKey(z))
        {
          DedupMembers(ys[1..], z);
          AboveBoth(ys, z);
        }
        StrictCons(ys[0], Dedup(ys[1..]));
      }
    }
  }

  /** Past a first element that prints differently from the second, everything is strictly above. */
  lemma AboveBoth(ys: seq<Expr>, z: Expr)
    requires |ys| > 1 && Ascending(ys) && z in ys[1..] && Canonical(ys[0]) != Canonical(ys[1])
    ensures Less(SortKey(ys[0]), SortKey(z))
  {
    hide Canonical;
    CodesInjective(Canonical(ys[0]), Canonical(ys[1]));
    var i :| 0 <= i < |ys[1..]| && ys[1..][i] == z;
    assert ys[i + 1] == z;
    assert Less(SortKey(ys[0]), SortKey(ys[1]));
    if i > 0 && SortKey(ys[1]) != SortKey(z) {
      LessTransitive(SortKey(ys[0]), SortKey(ys[1]), SortKey(z));
    }
  }

  lemma CodesInjective(s: string, t: string)
    ensures Codes(s) == Codes(t) <==> s == t
  {
    if Codes(s) == Codes(t) {
      assert |s| == |t|;
      forall i | 0 <= i < |s|
        ensures s[i] == t[i]
      {
        assert Codes(s)[i] == Codes(t)[i];
      }
    }
  }

  lemma StrictCons(y: Expr, ys: seq<Expr>)
    requires Strict(ys) && forall z :: z in ys ==> Less(SortKey(y), SortKey(z))
    ensures Strict([y] + ys)
  {
    hide SortKey, Less;
    var all := [y] + ys;
    forall i, j | 0 <= i < j < |all|
      ensures Less(SortKey(all[i]), SortKey(all[j]))
    {
      assert all[j] == ys[j - 1];
      assert i > 0 ==> all[i] == ys[i - 1];
    }
  }

  /** There is only one strictly ascending arrangement of a set. */
  lemma {:induction false} StrictUnique(xs: seq<Expr>, ys: seq<Expr>)
    requires Strict(xs) && Strict(ys) && forall z :: z in xs <==> z in ys
    ensures xs == ys
    decreases |xs|
  {
    hide SortKey, Less;
    assert |ys| > 0 ==> ys[0] in ys;
    if xs != [] {
      assert xs[0] in ys && ys != [];
      assert ys[0] in xs;
      SameFirst(xs, ys);
      assert xs == [xs[0]] + xs[1..] && ys == [ys[0]] + ys[1..];
      forall z
        ensures z in xs[1..] <==> z in ys[1..]
      {
        NotRepeated(xs);
        NotRepeated(ys);
        assert z in xs <==> z == xs[0] || z in xs[1..];
        assert z in ys <==> z == ys[0] || z in ys[1..];
      }
      StrictUnique(xs[1..], ys[1..]);
    }
  }

  lemma SameFirst(xs: seq<Expr>, ys: seq<Expr>)
    requires xs != [] && ys != [] && Strict(xs) && Strict(ys) && xs[0] in ys && ys[0] in xs
    ensures xs[0] == ys[0]
  {
    hide SortKey, Less;
    var i :| 0 <= i < |ys| && ys[i] == xs[0];
    var j :| 0 <= j < |xs| && xs[j] == ys[0];
    if i > 0 && j > 0 {
      LessAsymmetric(SortKey(xs[0]), SortKey(ys[0]));
    }
  }

  lemma NotRepeated(xs: seq<Expr>)
    requires xs != [] && Strict(xs)
    ensures xs[0] !in xs[1..]
  {
    hide SortKey, Less;
    LessIrreflexive(SortKey(xs[0]));
    forall i | 0 <= i < |xs[1..]|
      ensures xs[1..][i] != xs[0]
    {
      assert xs[1..][i] == xs[i + 1];
    }
  }

  // ---------------------------------------------------------------------------
  // Normalization.

  predicate HasOperator(op: Operator, e: Expr) {
    if op == Conjunction then e.And? else e.Or?
  }

  /** Operands of nested equal operators are pulled up; a conjunction drops what is public. */
  function Flattened(op: Operator, ns: seq<Expr>): seq<Expr> {
    if ns == [] then []
    else Flattened(op, ns[..|ns| - 1]) + Pulled(op, ns[|ns| - 1])
  }

  function Pulled(op: Operator, n: Expr): seq<Expr> {
    if HasOperator(op, n) then n.children
    else if op == Conjunction && n == Public then []
    else [n]
  }

  function Collapsed(op: Operator, xs: seq<Expr>): Expr {
    if xs == [] then Public
    else if |xs| == 1 then xs[0]
    else if op == Conjunction then And(xs)
    else Or(xs)
  }

  /** Putting normalized operands together. A disjunction with something public is public. */
  function Rebuilt(op: Operator, ns: seq<Expr>): Expr {
    if op == Disjunction && Public in ns then Public
    else Collapsed(op, Dedup(Sorted(Flattened(op, ns))))
  }

  function Normalized(e: Expr): Expr
    decreases e
  {
    match e
    case And(cs) => Rebuilt(Conjunction, seq(|cs|, i requires 0 <= i < |cs| => Normalized(cs[i])))
    case Or(cs) => Rebuilt(Disjunction, seq(|cs|, i requires 0 <= i < |cs| => Normalized(cs[i])))
    case _ => e
  }

  function NormalizedAll(cs: seq<Expr>): (ns: seq<Expr>)
    ensures |ns| == |cs| && forall i :: 0 <= i < |cs| ==> ns[i] == Normalized(cs[i])
  {
    seq(|cs|, i requires 0 <= i < |cs| => Normalized(cs[i]))
  }

  /** Normal forms: unambiguous trees whose operands are sorted by printed form without
      repetition. */
  predicate Normal(e: Expr)
    decreases e
  {
    Shaped(e) &&
    match e
    case And(cs) => Strict(cs) && forall i :: 0 <= i < |cs| ==> Normal(cs[i])
    case Or(cs) => Strict(cs) && forall i :: 0 <= i < |cs| ==> Normal(cs[i])
    case _ => true
  }

  predicate AllNormal(ns: seq<Expr>) {
    forall i :: 0 <= i < |ns| ==> Normal(ns[i])
  }

  /** What the operands of `op` may be once pulled up. */
  predicate Operand(op: Operator, x: Expr) {
    Normal(x) && x != Public && !HasOperator(op, x)
  }

  predicate Operands(op: Operator, xs: seq<Expr>) {
    forall x :: x in xs ==> Operand(op, x)
  }

  lemma PulledOperands(op: Operator, n: Expr)
    requires Normal(n) && (op == Disjunction ==> n != Public)
    ensures Operands(op, Pulled(op, n))
  {
    if HasOperator(op, n) {
      forall x | x in n.children
        ensures Operand(op, x)
      {
        var i :| 0 <= i < |n.children| && n.children[i] == x;
        assert Shaped(n.children[i]);
      }
    }
  }

  lemma {:induction false} FlattenedOperands(op: Operator, ns: seq<Expr>)
    requires AllNormal(ns) && (op == Disjunction ==> Public !in ns)
    ensures Operands(op, Flattened(op, ns))
  {
    hide Normal, Pulled;
    if ns != [] {
      var n := |ns| - 1;
      FlattenedOperands(op, ns[..n]);
      PulledOperands(op, ns[n]);
    }
  }

  /** Sorting and deduplicating rearranges the set of operands without changing it. */
  lemma ArrangedMembers(op: Operator, xs: seq<Expr>, z: Expr)
    requires Operands(op, xs)
    ensures z in Dedup(Sorted(xs)) <==> z in xs
  {
    hide Normal, Canonical, Sorted, Dedup;
    DedupMembers(Sorted(xs), z);
    SortedMembers(xs, z);
    if z in xs {
      var y :| y in Dedup(Sorted(xs)) && Canonical(y) == Canonical(z);
      DedupMembers(Sorted(xs), y);
      SortedMembers(xs, y);
      NormalShaped(y);
      NormalShaped(z);
      CanonicalInjective(y, z);
    }
  }

  lemma NormalShaped(e: Expr)
    requires Normal(e)
    ensures Shaped(e)
  {
  }

  lemma ArrangedStrict(xs: seq<Expr>)
    ensures Strict(Dedup(Sorted(xs)))
  {
    SortedAscending(xs);
    DedupStrict(Sorted(xs));
  }

  lemma CollapsedNormal(op: Operator, xs: seq<Expr>)
    requires Operands(op, xs) && Strict(xs)
    ensures Normal(Collapsed(op, xs))
  {
    hide Strict;
    assert forall i :: 0 <= i < |xs| ==> xs[i] in xs;
  }

  lemma RebuiltNormal(op: Operator, ns: seq<Expr>)
    requires AllNormal(ns)
    ensures Normal(Rebuilt(op, ns))
  {
    hide Normal, Dedup, Sorted, Flattened, Collapsed, Strict;
    if op == Disjunction && Public in ns {
      PublicNormal();
    } else {
      var flat := Flattened(op, ns);
      FlattenedOperands(op, ns);
      ArrangedStrict(flat);
      forall x | x in Dedup(Sorted(flat)) { ArrangedMembers(op, flat, x); }
      CollapsedNormal(op, Dedup(Sorted(flat)));
    }
  }

  lemma PublicNormal()
    ensures Normal(Public)
  {
  }

  /** Trees whose labels are valid and whose disjunctions have an operand, as every parsed
      tree. */
  predicate Sound(e: Expr)
    decreases e
  {
    match e
    case Public => true
    case Label(name) => ValidLabel(name)
    case And(cs) => forall i :: 0 <= i < |cs| ==> Sound(cs[i])
    case Or(cs) => cs != [] && forall i :: 0 <= i < |cs| ==> Sound(cs[i])
  }

  lemma {:induction false} NormalizedNormal(e: Expr)
    requires Sound(e)
    ensures Normal(Normalized(e))
    decreases e
  {
    hide Rebuilt;
    if e.And? || e.Or? {
      var ns := NormalizedAll(e.children);
      forall i | 0 <= i < |ns|
        ensures Normal(ns[i])
      {
        NormalizedNormal(e.children[i]);
      }
      RebuiltNormal(if e.And? then Conjunction else Disjunction, ns);
    }
  }

  // ---------------------------------------------------------------------------
  // Normalizing keeps the meaning.

  predicate Every(xs: seq<Expr>, auths: set<string>) {
    forall x :: x in xs ==> Evaluate(x, auths)
  }

  predicate AnyOf(xs: seq<Expr>, auths: set<string>) {
    exists x :: x in xs && Evaluate(x, auths)
  }

  /** The meaning of `op` over operands. */
  predicate Combine(op: Operator, xs: seq<Expr>, auths: set<string>) {
    if op == Conjunction then Every(xs, auths) else AnyOf(xs, auths)
  }

  lemma OperatorMeaning(cs: seq<Expr>, auths: set<string>)
    ensures Evaluate(And(cs), auths) <==> Every(cs, auths)
    ensures Evaluate(Or(cs), auths) <==> AnyOf(cs, auths)
  {
    assert forall i :: 0 <= i < |cs| ==> cs[i] in cs;
  }

  lemma CombineConcat(op: Operator, xs: seq<Expr>, ys: seq<Expr>, auths: set<string>)
    ensures Combine(op, xs + ys, auths) <==>
            if op == Conjunction then Combine(op, xs, auths) && Combine(op, ys, auths)
            else Combine(op, xs, auths) || Combine(op, ys, auths)
  {
    hide Evaluate;
    assert forall x :: x in xs + ys <==> x in xs || x in ys;
  }

  lemma PulledMeaning(op: Operator, n: Expr, auths: set<string>)
    requires Normal(n) && (op == Disjunction ==> n != Public)
    ensures Combine(op, Pulled(op, n), auths) <==> Evaluate(n, auths)
  {
    hide Normal;
    if HasOperator(op, n) {
      OperatorMeaning(n.children, auths);
    } else if n != Public {
      assert n in [n];
    }
  }

  lemma {:induction false} FlattenedMeaning(op: Operator, ns: seq<Expr>, auths: set<string>)
    requires AllNormal(ns) && (op == Disjunction ==> Public !in ns)
    ensures Combine(op, Flattened(op, ns), auths) <==> Combine(op, ns, auths)
  {
    hide Normal, Pulled, Evaluate;
    if ns != [] {
      var n := |ns| - 1;
      FlattenedMeaning(op, ns[..n], auths);
      PulledMeaning(op, ns[n], auths);
      CombineConcat(op, Flattened(op, ns[..n]), Pulled(op, ns[n]), auths);
      CombineConcat(op, ns[..n], [ns[n]], auths);
      assert ns == ns[..n] + [ns[n]];
      assert ns[n] in [ns[n]];
    }
  }

  lemma {:induction false} FlattenedNonempty(ns: seq<Expr>)
    requires ns != [] && AllNormal(ns)
    ensures Flattened(Disjunction, ns) != []
  {
    NormalShaped(ns[|ns| - 1]);
  }

  lemma CollapsedMeaning(op: Operator, xs: seq<Expr>, auths: set<string>)
    requires op == Disjunction ==> xs != []
    ensures Evaluate(Collapsed(op, xs), auths) <==> Combine(op, xs, auths)
  {
    if |xs| == 1 {
      assert xs[0] in xs && forall x :: x in xs ==> x == xs[0];
    } else if |xs| > 1 {
      OperatorMeaning(xs, auths);
    }
  }

  lemma SameMembersCombine(op: Operator, xs: seq<Expr>, ys: seq<Expr>, auths: set<string>)
    requires forall z :: z in xs <==> z in ys
    ensures Combine(op, xs, auths) <==> Combine(op, ys, auths)
  {
    hide Evaluate;
  }

  lemma RebuiltMeaning(op: Operator, ns: seq<Expr>, auths: set<string>)
    requires AllNormal(ns) && (op == Disjunction ==> ns != [])
    ensures Evaluate(Rebuilt(op, ns), auths) <==> Combine(op, ns, auths)
  {
    if op == Disjunction && Public in ns {
      assert Evaluate(Public, auths);
    } else {
      hide Normal, Dedup, Sorted, Flattened, Collapsed, Evaluate, Combine;
      var flat := Flattened(op, ns);
      FlattenedOperands(op, ns);
      forall z
        ensures z in Dedup(Sorted(flat)) <==> z in flat
      {
        ArrangedMembers(op, flat, z);
      }
      if op == Disjunction {
        FlattenedNonempty(ns);
        assert flat[0] in Dedup(Sorted(flat));
      }
      CollapsedMeaning(op, Dedup(Sorted(flat)), auths);
      SameMembersCombine(op, Dedup(Sorted(flat)), flat, auths);
      FlattenedMeaning(op, ns, auths);
    }
  }

  /** Normalizing never changes who may see a cell. */
  lemma {:induction false} NormalizedMeaning(e: Expr, auths: set<string>)
    requires Sound(e)
    ensures Evaluate(Normalized(e), auths) <==> Evaluate(e, auths)
    decreases e
  {
    hide Rebuilt;
    if e.And? || e.Or? {
      var op := if e.And? then Conjunction else Disjunction;
      var ns := NormalizedAll(e.children);
      forall i | 0 <= i < |ns|
        ensures Normal(ns[i]) && (Evaluate(ns[i], auths) <==> Evaluate(e.children[i], auths))
      {
        NormalizedNormal(e.children[i]);
        NormalizedMeaning(e.children[i], auths);
      }
      RebuiltMeaning(op, ns, auths);
      PointwiseCombine(op, ns, e.children, auths);
      OperatorMeaning(e.children, auths);
    }
  }

  lemma PointwiseCombine(op: Operator, xs: seq<Expr>, ys: seq<Expr>, auths: set<string>)
    requires |xs| == |ys| && forall i :: 0 <= i < |xs| ==> (Evaluate(xs[i], auths) <==> Evaluate(ys[i], auths))
    ensures Combine(op, xs, auths) <==> Combine(op, ys, auths)
  {
    hide Evaluate;
    assert forall i :: 0 <= i < |xs| ==> xs[i] in xs && ys[i] in ys;
  }

  // ---------------------------------------------------------------------------
  // Normal forms are fixed, and do not depend on how the operands were arranged.

  /** Two arrangements of the same operands are rebuilt into the same expression. */
  lemma RebuiltUnique(op: Operator, ns: seq<Expr>, ms: seq<Expr>)
    requires AllNormal(ns) && AllNormal(ms)
    requires forall z :: z in Flattened(op, ns) <==> z in Flattened(op, ms)
    ensures Rebuilt(op, ns) == Rebuilt(op, ms)
  {
    hide Normal, Dedup, Sorted, Strict;
    if op == Disjunction {
      PublicPulled(ns);
      PublicPulled(ms);
    }
    if !(op == Disjunction && Public in ns) {
      var x, y := Flattened(op, ns), Flattened(op, ms);
      FlattenedOperands(op, ns);
      FlattenedOperands(op, ms);
      ArrangedStrict(x);
      ArrangedStrict(y);
      forall z
        ensures z in Dedup(Sorted(x)) <==> z in Dedup(Sorted(y))
      {
        ArrangedMembers(op, x, z);
        ArrangedMembers(op, y, z);
      }
      StrictUnique(Dedup(Sorted(x)), Dedup(Sorted(y)));
    }
  }

  lemma {:induction false} PublicPulled(ns: seq<Expr>)
    requires AllNormal(ns)
    ensures Public in Flattened(Disjunction, ns) <==> Public in ns
  {
    if ns != [] {
      var n := |ns| - 1;
      PublicPulled(ns[..n]);
      assert ns == ns[..n] + [ns[n]];
      if ns[n].Or? {
        PulledOperands(Disjunction, ns[n]);
      }
    }
  }

  /** The operands a conjunction or disjunction contributes after normalizing its children. */
  function Contributed(e: Expr): seq<Expr>
    requires e.And? || e.Or?
  {
    Flattened(if e.And? then Conjunction else Disjunction, NormalizedAll(e.children))
  }

  /** Order, grouping and repetition do not matter: conjunctions, or disjunctions, that
      contribute the same set of operands normalize to the same expression. */
  lemma ArrangementIrrelevant(d: Expr, e: Expr)
    requires Sound(d) && Sound(e) && ((d.And? && e.And?) || (d.Or? && e.Or?))
    requires forall z :: z in Contributed(d) <==> z in Contributed(e)
    ensures Normalized(d) == Normalized(e) && Canonical(Normalized(d)) == Canonical(Normalized(e))
  {
    hide Rebuilt, Normalized, Sound, Flattened;
    ChildrenNormal(d);
    ChildrenNormal(e);
    NormalizedIsRebuilt(d);
    NormalizedIsRebuilt(e);
    var op := if d.And? then Conjunction else Disjunction;
    assert Contributed(d) == Flattened(op, NormalizedAll(d.children)) && Contributed(e) == Flattened(op, NormalizedAll(e.children));
    RebuiltUnique(op, NormalizedAll(d.children), NormalizedAll(e.children));
  }

  lemma NormalizedIsRebuilt(e: Expr)
    requires e.And? || e.Or?
    ensures Normalized(e) == Rebuilt(if e.And? then Conjunction else Disjunction, NormalizedAll(e.children))
  {
    hide Rebuilt;
  }

  lemma ChildrenNormal(e: Expr)
    requires Sound(e) && (e.And? || e.Or?)
    ensures AllNormal(NormalizedAll(e.children))
  {
    forall i | 0 <= i < |e.children| { NormalizedNormal(e.children[i]); }
  }

  lemma OperandsSplit(op: Operator, xs: seq<Expr>)
    requires Operands(op, xs) && xs != []
    ensures Operands(op, xs[..|xs| - 1]) && Pulled(op, xs[|xs| - 1]) == [xs[|xs| - 1]]
  {
    hide Normal;
    assert xs[|xs| - 1] in xs;
  }

  lemma {:induction false} OperandsFlat(op: Operator, xs: seq<Expr>)
    requires Operands(op, xs)
    ensures Flattened(op, xs) == xs
  {
    hide Operands, Pulled;
    if xs != [] {
      OperandsSplit(op, xs);
      OperandsFlat(op, xs[..|xs| - 1]);
      assert xs == xs[..|xs| - 1] + [xs[|xs| - 1]];
    }
  }

  /** Normal forms normalize to themselves. */
  lemma {:induction false} NormalFixed(e: Expr)
    requires Normal(e)
    ensures Normalized(e) == e
    decreases e
  {
    if e.And? || e.Or? {
      var cs, op := e.children, if e.And? then Conjunction else Disjunction;
      forall i | 0 <= i < |cs| { NormalFixed(cs[i]); }
      assert NormalizedAll(cs) == cs;
      assert Normalized(e) == Rebuilt(op, cs);
      RebuiltSelf(op, cs);
    }
  }

  lemma RebuiltSelf(op: Operator, cs: seq<Expr>)
    requires |cs| >= 2 && Normal(if op == Conjunction then And(cs) else Or(cs))
    ensures Rebuilt(op, cs) == if op == Conjunction then And(cs) else Or(cs)
  {
    var e := if op == Conjunction then And(cs) else Or(cs);
    PulledOperands(op, e);
    hide Normal, Dedup, Sorted;
    OperandsFlat(op, cs);
    ArrangedStrict(cs);
    forall z
      ensures z in Dedup(Sorted(cs)) <==> z in cs
    {
      ArrangedMembers(op, cs, z);
    }
    StrictUnique(Dedup(Sorted(cs)), cs);
  }

  // ---------------------------------------------------------------------------
  // Parsed expressions.

  lemma {:induction false} LabelPrefix(s: string)
    ensures forall i :: 0 <= i < LabelEnd(s) ==> IsLabelChar(s[i])
  {
    if s != [] && IsLabelChar(s[0]) {
      LabelPrefix(s[1..]);
      assert forall i :: 0 < i < LabelEnd(s) ==> s[i] == s[1..][i - 1];
    }
  }

  predicate AllSound(es: seq<Expr>) {
    forall i :: 0 <= i < |es| ==> Sound(es[i])
  }

  lemma {:induction false} PrimarySound(s: string)
    ensures ParsePrimary(s).Yes? ==> Sound(ParsePrimary(s).expr)
    decreases |s|, 0
  {
    if StartsWith(s, '(') {
      OrSound(s[1..]);
    } else {
      LabelPrefix(s);
    }
  }

  lemma {:induction false} AndsSound(s: string)
    ensures ParseAnds(s).Many? ==> AllSound(ParseAnds(s).exprs)
    decreases |s|, 1
  {
    PrimarySound(s);
    if ParsePrimary(s).Yes? && StartsWith(ParsePrimary(s).rest, '&') {
      AndsSound(ParsePrimary(s).rest[1..]);
    }
  }

  lemma {:induction false} AndSound(s: string)
    ensures ParseAnd(s).Yes? ==> Sound(ParseAnd(s).expr)
    decreases |s|, 2
  {
    AndsSound(s);
  }

  lemma {:induction false} OrsSound(s: string)
    ensures ParseOrs(s).Many? ==> AllSound(ParseOrs(s).exprs)
    decreases |s|, 3
  {
    AndSound(s);
    if ParseAnd(s).Yes? && StartsWith(ParseAnd(s).rest, '|') {
      OrsSound(ParseAnd(s).rest[1..]);
    }
  }

  lemma {:induction false} OrSound(s: string)
    ensures ParseOr(s).Yes? ==> Sound(ParseOr(s).expr)
    decreases |s|, 4
  {
    OrsSound(s);
  }

  datatype VisibilityExpr = VisibilityExpr(expr: Expr, canonical: string)

  datatype Outcome = Accepted(value: VisibilityExpr) | Rejected(error: Error)

  function Parse(s: string): Outcome {
    match ParseRaw(s)
    case No(error) => Rejected(error)
    case Yes(e, _) => Accepted(VisibilityExpr(Normalized(e), Canonical(Normalized(e))))
  }

  lemma ParsedSound(s: string)
    requires ParseRaw(s).Yes?
    ensures Sound(ParseRaw(s).expr)
  {
    OrSound(s);
  }

  /** Parsing keeps the meaning of what was written. */
  lemma ParseKeepsMeaning(s: string, auths: set<string>)
    requires Parse(s).Accepted?
    ensures Evaluate(Parse(s).value.expr, auths) <==> Evaluate(ParseRaw(s).expr, auths)
  {
    hide Evaluate, Normalized;
    ParsedSound(s);
    NormalizedMeaning(ParseRaw(s).expr, auths);
  }

  /** Canonical strings are fixpoints: parsing one gives back the value it came from. */
  lemma CanonicalFixpoint(s: string)
    requires Parse(s).Accepted?
    ensures Parse(Parse(s).value.canonical) == Parse(s)
  {
    hide Normalized, Canonical;
    var v := Parse(s).value;
    ParsedSound(s);
    NormalizedNormal(ParseRaw(s).expr);
    NormalShaped(v.expr);
    ParsePrinted(v.expr);
    NormalFixed(v.expr);
  }

  /** Equal canonical strings mean equal values. */
  lemma CanonicalIdentifies(s: string, t: string)
    requires Parse(s).Accepted? && Parse(t).Accepted? && Parse(s).value.canonical == Parse(t).value.canonical
    ensures Parse(s) == Parse(t)
  {
    CanonicalFixpoint(s);
    CanonicalFixpoint(t);
  }
}
