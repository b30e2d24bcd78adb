/**
 Edit scripts, and the Levenshtein distance as their minimum cost
 (flt/string/levenshtein_distance.hpp, flt/string/levenshtein_path.hpp).
*/
module Levenshtein {

  datatype EditOp = Retention | Deletion | Insertion | Substitution

  type Comparison<!A, !B> = (A, B) -> bool

  // ------------------------------------------------------------------ edit scripts

  /** The script turns `a[i..]` into `b[j..]`. A retained element must match; with
      `exact`, a substituted one must not. */
  ghost predicate Turns<A, B>(ops: seq<EditOp>, a: seq<A>, b: seq<B>, eq: Comparison<A, B>, i: nat, j: nat, exact: bool)
    decreases |ops|
  {
    if ops == [] then i == |a| && j == |b|
    else
      match ops[0]
      case Retention => i < |a| && j < |b| && eq(a[i], b[j]) && Turns(ops[1..], a, b, eq, i + 1, j + 1, exact)
      case Substitution =>
        i < |a| && j < |b| && (exact ==> !eq(a[i], b[j])) && Turns(ops[1..], a, b, eq, i + 1, j + 1, exact)
      case Deletion => i < |a| && Turns(ops[1..], a, b, eq, i + 1, j, exact)
      case Insertion => j < |b| && Turns(ops[1..], a, b, eq, i, j + 1, exact)
  }

  function Price(op: EditOp): nat {
    if op == Retention then 0 else 1
  }

  function Cost(ops: seq<EditOp>): nat {
    if ops == [] then 0 else Price(ops[0]) + Cost(ops[1..])
  }

  // ----------------------------------------------------------------- the recurrence

  function Min3(x: nat, y: nat, z: nat): nat {
    var m := if y < x then y else x;
    if z < m then z else m
  }

  function Mismatch<A, B>(x: A, y: B, eq: Comparison<A, B>): nat {
    if eq(x, y) then 0 else 1
  }

  /** Distance of the prefixes of lengths `i` and `j`. */
  function Dist<A, B>(a: seq<A>, b: seq<B>, eq: Comparison<A, B>, i: nat, j: nat): nat
    requires i <= |a| && j <= |b|
  {
    if i == 0 then j
    else if j == 0 then i
    else
      Min3(Dist(a, b, eq, i - 1, j) + 1, Dist(a, b, eq, i, j - 1) + 1,
           Dist(a, b, eq, i - 1, j - 1) + Mismatch(a[i - 1], b[j - 1], eq))
  }

  function Distance<A, B>(a: seq<A>, b: seq<B>, eq: Comparison<A, B>): nat {
    Dist(a, b, eq, |a|, |b|)
  }

  // ---------------------------------------------------------------- minimum cost

  /** No script is cheaper than what the distance grows by along it. */
  lemma {:induction false} ScriptCostsEnough<A, B>(ops: seq<EditOp>, a: seq<A>, b: seq<B>, eq: Comparison<A, B>,
      i: nat, j: nat, exact: bool)
    requires i <= |a| && j <= |b| && Turns(ops, a, b, eq, i, j, exact)
    ensures Dist(a, b, eq, i, j) + Cost(ops) >= Distance(a, b, eq)
    decreases |ops|
  {
    if ops != [] {
      match ops[0]
      case Retention => ScriptCostsEnough(ops[1..], a, b, eq, i + 1, j + 1, exact);
      case Substitution => ScriptCostsEnough(ops[1..], a, b, eq, i + 1, j + 1, exact);
      case Deletion =>
        ScriptCostsEnough(ops[1..], a, b, eq, i + 1, j, exact);
        EdgeSteps(a, b, eq, i, j);
      case Insertion =>
        ScriptCostsEnough(ops[1..], a, b, eq, i, j + 1, exact);
        EdgeSteps(a, b, eq, i, j);
    }
  }

  lemma EdgeSteps<A, B>(a: seq<A>, b: seq<B>, eq: Comparison<A, B>, i: nat, j: nat)
    requires i <= |a| && j <= |b|
    ensures i < |a| ==> Dist(a, b, eq, i + 1, j) <= Dist(a, b, eq, i, j) + 1
    ensures j < |b| ==> Dist(a, b, eq, i, j + 1) <= Dist(a, b, eq, i, j) + 1
  {
  }

  /** The operation that reaches cell `(i, j)` most cheaply, as the trace-back picks it. */
  function BackStep(here: nat, up: nat, left: nat, diag: nat): EditOp {
    var best := if here == diag then Retention else Substitution;
    var op := if up < diag then Deletion else best;
    if left < (if up < diag then up else diag) then Insertion else op
  }

  /** What it picks where the cells hold the distances. */
  function BackOf<A, B>(a: seq<A>, b: seq<B>, eq: Comparison<A, B>, i: nat, j: nat): EditOp
    requires 0 < i <= |a| && 0 < j <= |b|
  {
    BackStep(Dist(a, b, eq, i, j), Dist(a, b, eq, i - 1, j), Dist(a, b, eq, i, j - 1), Dist(a, b, eq, i - 1, j - 1))
  }

  /** The step picked from four cell values alone is right: it costs the difference of
      the cells, retention comes exactly with a match and substitution exactly with a
      mismatch. */
  lemma BackStepIsRight<A, B>(a: seq<A>, b: seq<B>, eq: Comparison<A, B>, i: nat, j: nat)
    requires 0 < i <= |a| && 0 < j <= |b|
    ensures var op := BackOf(a, b, eq, i, j);
      match op
      case Retention => eq(a[i - 1], b[j - 1]) && Dist(a, b, eq, i, j) == Dist(a, b, eq, i - 1, j - 1)
      case Substitution => !eq(a[i - 1], b[j - 1]) && Dist(a, b, eq, i, j) == Dist(a, b, eq, i - 1, j - 1) + 1
      case Deletion => Dist(a, b, eq, i, j) == Dist(a, b, eq, i - 1, j) + 1
      case Insertion => Dist(a, b, eq, i, j) == Dist(a, b, eq, i, j - 1) + 1
  {
  }

  /** It goes to the cheapest of the three cells in front; of cells that cost the same it
      prefers the diagonal one, and the one above to the one on the left. */
  lemma BackStepPrefers<A, B>(a: seq<A>, b: seq<B>, eq: Comparison<A, B>, i: nat, j: nat)
    requires 0 < i <= |a| && 0 < j <= |b|
    ensures var up, left, diag := Dist(a, b, eq, i - 1, j), Dist(a, b, eq, i, j - 1), Dist(a, b, eq, i - 1, j - 1);
      && (BackOf(a, b, eq, i, j) in {Retention, Substitution} <==> diag <= up && diag <= left)
      && (BackOf(a, b, eq, i, j) == Deletion <==> up < diag && up <= left)
      && (BackOf(a, b, eq, i, j) == Insertion <==> left < diag && left < up)
  {
    hide Dist;
  }

  /** Cells next to each other differ by at most one, and along a diagonal the distance
      never falls. */
  lemma {:induction false} Neighbours<A, B>(a: seq<A>, b: seq<B>, eq: Comparison<A, B>, i: nat, j: nat)
    requires i <= |a| && j <= |b|
    ensures i > 0 ==> Dist(a, b, eq, i - 1, j) - 1 <= Dist(a, b, eq, i, j) <= Dist(a, b, eq, i - 1, j) + 1
    ensures j > 0 ==> Dist(a, b, eq, i, j - 1) - 1 <= Dist(a, b, eq, i, j) <= Dist(a, b, eq, i, j - 1) + 1
    ensures i > 0 && j > 0 ==> Dist(a, b, eq, i - 1, j - 1) <= Dist(a, b, eq, i, j) <= Dist(a, b, eq, i - 1, j - 1) + 1
    decreases i + j
  {
    if i > 0 && j > 0 {
      Neighbours(a, b, eq, i - 1, j);
      Neighbours(a, b, eq, i, j - 1);
      Neighbours(a, b, eq, i - 1, j - 1);
    }
  }

  // ---------------------------------------------------------- cheapest script exists

  /** Appending an operation to a script between prefixes. */
  lemma {:induction false} TurnsMore<A, B>(ops: seq<EditOp>, op: EditOp, a: seq<A>, b: seq<B>, eq: Comparison<A, B>,
                                          m: nat, n: nat, i: nat, j: nat)
    requires m <= |a| && n <= |b|
    requires Turns(ops, a[..m], b[..n], eq, i, j, true)
    requires match op
      case Retention => m < |a| && n < |b| && eq(a[m], b[n])
      case Substitution => m < |a| && n < |b| && !eq(a[m], b[n])
      case Deletion => m < |a|
      case Insertion => n < |b|
    ensures var m' := if op == Insertion then m else m + 1;
      var n' := if op == Deletion then n else n + 1;
      m' <= |a| && n' <= |b| && Turns(ops + [op], a[..m'], b[..n'], eq, i, j, true)
    ensures Cost(ops + [op]) == Cost(ops) + Price(op)
    decreases |ops|
  {
    if ops == [] {
      assert [op][1..] == [];
    } else {
      assert (ops + [op])[1..] == ops[1..] + [op];
      match ops[0]
      case Retention => TurnsMore(ops[1..], op, a, b, eq, m, n, i + 1, j + 1);
      case Substitution => TurnsMore(ops[1..], op, a, b, eq, m, n, i + 1, j + 1);
      case Deletion => TurnsMore(ops[1..], op, a, b, eq, m, n, i + 1, j);
      case Insertion => TurnsMore(ops[1..], op, a, b, eq, m, n, i, j + 1);
    }
  }

  lemma {:induction false} CheapestScript<A, B>(a: seq<A>, b: seq<B>, eq: Comparison<A, B>, i: nat, j: nat)
    returns (ops: seq<EditOp>)
    requires i <= |a| && j <= |b|
    ensures Turns(ops, a[..i], b[..j], eq, 0, 0, true) && Cost(ops) == Dist(a, b, eq, i, j)
    decreases i + j
  {
    if i == 0 && j == 0 {
      ops := [];
    } else {
      var op := if i == 0 then Insertion else if j == 0 then Deletion
        else BackOf(a, b, eq, i, j);
      if i > 0 && j > 0 { BackStepIsRight(a, b, eq, i, j); }
      var m, n := if op == Insertion then i else i - 1, if op == Deletion then j else j - 1;
      var rest := CheapestScript(a, b, eq, m, n);
      TurnsMore(rest, op, a, b, eq, m, n, 0, 0);
      ops := rest + [op];
    }
  }

  /** The distance is the minimum cost of a script, and is reached by a script that
      retains all matches it passes. */
  lemma DistanceIsMinimum<A, B>(a: seq<A>, b: seq<B>, eq: Comparison<A, B>)
    ensures exists ops :: Turns(ops, a, b, eq, 0, 0, true) && Cost(ops) == Distance(a, b, eq)
    ensures forall ops, exact :: Turns(ops, a, b, eq, 0, 0, exact) ==> Cost(ops) >= Distance(a, b, eq)
  {
    var best := CheapestScript(a, b, eq, |a|, |b|);
    assert a[..|a|] == a && b[..|b|] == b;
    forall ops, exact | Turns(ops, a, b, eq, 0, 0, exact) ensures Cost(ops) >= Distance(a, b, eq) {
      ScriptCostsEnough(ops, a, b, eq, 0, 0, exact);
    }
  }

  // ---------------------------------------------------------------- symmetry, metric

  function Flip<A, B>(eq: Comparison<A, B>): Comparison<B, A> {
    (y, x) => eq(x, y)
  }

  lemma {:induction false} DistFlip<A, B>(a: seq<A>, b: seq<B>, eq: Comparison<A, B>, i: nat, j: nat)
    requires i <= |a| && j <= |b|
    ensures Dist(b, a, Flip(eq), j, i) == Dist(a, b, eq, i, j)
    decreases i + j
  {
    hide *;
    if i == 0 || j == 0 {
      DistEdge(a, b, eq, i, j);
      DistEdge(b, a, Flip(eq), j, i);
    } else {
      DistFlip(a, b, eq, i - 1, j);
      DistFlip(a, b, eq, i, j - 1);
      DistFlip(a, b, eq, i - 1, j - 1);
      DistStep(a, b, eq, i, j);
      DistStep(b, a, Flip(eq), j, i);
      MismatchFlip(a[i - 1], b[j - 1], eq);
      Min3Flip(Dist(a, b, eq, i - 1, j) + 1, Dist(a, b, eq, i, j - 1) + 1,
               Dist(a, b, eq, i - 1, j - 1) + Mismatch(a[i - 1], b[j - 1], eq));
    }
  }

  lemma MismatchFlip<A, B>(x: A, y: B, eq: Comparison<A, B>)
    ensures Mismatch(y, x, Flip(eq)) == Mismatch(x, y, eq)
  {
  }

  lemma Min3Flip(x: nat, y: nat, z: nat)
    ensures Min3(x, y, z) == Min3(y, x, z)
  {
  }

  lemma DistEdge<A, B>(a: seq<A>, b: seq<B>, eq: Comparison<A, B>, i: nat, j: nat)
    requires i <= |a| && j <= |b|
    ensures i == 0 ==> Dist(a, b, eq, i, j) == j
    ensures j == 0 ==> Dist(a, b, eq, i, j) == i
  {
  }

  lemma DistStep<A, B>(a: seq<A>, b: seq<B>, eq: Comparison<A, B>, i: nat, j: nat)
    requires 0 < i <= |a| && 0 < j <= |b|
    ensures Dist(a, b, eq, i, j)
         == Min3(Dist(a, b, eq, i - 1, j) + 1, Dist(a, b, eq, i, j - 1) + 1,
                 Dist(a, b, eq, i - 1, j - 1) + Mismatch(a[i - 1], b[j - 1], eq))
  {
  }

  /** Comparing with another function that gives the same answers. */
  lemma {:induction false} DistSame<A, B>(a: seq<A>, b: seq<B>, eq: Comparison<A, B>, eq': Comparison<A, B>,
      i: nat, j: nat)
    requires i <= |a| && j <= |b| && forall x, y :: x in a && y in b ==> eq(x, y) == eq'(x, y)
    ensures Dist(a, b, eq, i, j) == Dist(a, b, eq', i, j)
    decreases i + j
  {
    hide Dist;
    if i > 0 && j > 0 {
      DistSame(a, b, eq, eq', i - 1, j);
      DistSame(a, b, eq, eq', i, j - 1);
      DistSame(a, b, eq, eq', i - 1, j - 1);
      DistStep(a, b, eq, i, j);
      DistStep(a, b, eq', i, j);
      assert a[i - 1] in a && b[j - 1] in b;
    } else {
      DistEdge(a, b, eq, i, j);
      DistEdge(a, b, eq', i, j);
    }
  }

  /** The distance is zero exactly between sequences that match element by element. */
  lemma {:induction false} ZeroIffMatching<A, B>(a: seq<A>, b: seq<B>, eq: Comparison<A, B>, i: nat, j: nat)
    requires i <= |a| && j <= |b|
    ensures Dist(a, b, eq, i, j) == 0 <==> i == j && forall k :: 0 <= k < i ==> eq(a[k], b[k])
    decreases i + j
  {
    if i > 0 && j > 0 {
      ZeroIffMatching(a, b, eq, i - 1, j - 1);
      Neighbours(a, b, eq, i, j);
    }
  }

  /** The first operation of a script, and the script behind it. */
  lemma FirstOp<A, B>(ops: seq<EditOp>, a: seq<A>, b: seq<B>, eq: Comparison<A, B>, i: nat, j: nat)
    requires Turns(ops, a, b, eq, i, j, false) && ops != []
    ensures Cost(ops) == Price(ops[0]) + Cost(ops[1..])
    ensures ops[0] != Insertion ==> i < |a| && a[i] in a
    ensures ops[0] != Deletion ==> j < |b| && b[j] in b
    ensures ops[0] == Retention ==> eq(a[i], b[j])
    ensures var i', j' := if ops[0] == Insertion then i else i + 1, if ops[0] == Deletion then j else j + 1;
      Turns(ops[1..], a, b, eq, i', j', false)
  {
  }

  lemma NoOp<A, B>(ops: seq<EditOp>, a: seq<A>, b: seq<B>, eq: Comparison<A, B>, i: nat, j: nat)
    requires ops == []
    ensures Turns(ops, a, b, eq, i, j, false) <==> i == |a| && j == |b|
    ensures Cost(ops) == 0
  {
  }

  lemma Prices()
    ensures forall op :: Price(op) == if op == Retention then 0 else 1
  {
  }

  /** One script after the other, as one script that costs no more. */
  lemma {:induction false} Compose<A, B, C>(p: seq<EditOp>, q: seq<EditOp>, a: seq<A>, b: seq<B>, c: seq<C>,
                                            ab: Comparison<A, B>, bc: Comparison<B, C>, ac: Comparison<A, C>,
                                            i: nat, j: nat, k: nat) returns (r: seq<EditOp>)
    requires Turns(p, a, b, ab, i, j, false) && Turns(q, b, c, bc, j, k, false)
    requires forall x, y, z :: x in a && y in b && z in c && ab(x, y) && bc(y, z) ==> ac(x, z)
    ensures Turns(r, a, c, ac, i, k, false) && Cost(r) <= Cost(p) + Cost(q)
    decreases |p| + |q|
  {
    hide *;
    Prices();
    if p == [] { NoOp(p, a, b, ab, i, j); } else { FirstOp(p, a, b, ab, i, j); }
    if q == [] { NoOp(q, b, c, bc, j, k); } else { FirstOp(q, b, c, bc, j, k); }
    if p != [] && p[0] == Deletion {
      r := Compose(p[1..], q, a, b, c, ab, bc, ac, i + 1, j, k);
      r := Prepend(Deletion, r, a, c, ac, i, k);
    } else if q != [] && q[0] == Insertion {
      r := Compose(p, q[1..], a, b, c, ab, bc, ac, i, j, k + 1);
      r := Prepend(Insertion, r, a, c, ac, i, k);
    } else if p == [] || q == [] {
      r := [];
      NoOp(r, a, c, ac, i, k);
    } else if p[0] == Insertion && q[0] == Deletion {
      r := Compose(p[1..], q[1..], a, b, c, ab, bc, ac, i, j + 1, k);
    } else if p[0] == Insertion {
      r := Compose(p[1..], q[1..], a, b, c, ab, bc, ac, i, j + 1, k + 1);
      r := Prepend(Insertion, r, a, c, ac, i, k);
    } else if q[0] == Deletion {
      r := Compose(p[1..], q[1..], a, b, c, ab, bc, ac, i + 1, j + 1, k);
      r := Prepend(Deletion, r, a, c, ac, i, k);
    } else {
      r := Compose(p[1..], q[1..], a, b, c, ab, bc, ac, i + 1, j + 1, k + 1);
      var op := if p[0] == Retention && q[0] == Retention then Retention else Substitution;
      r := Prepend(op, r, a, c, ac, i, k);
    }
  }

  lemma Prepend<A, B>(op: EditOp, ops: seq<EditOp>, a: seq<A>, b: seq<B>, eq: Comparison<A, B>, i: nat, j: nat)
    returns (r: seq<EditOp>)
    requires match op
      case Retention => i < |a| && j < |b| && eq(a[i], b[j]) && Turns(ops, a, b, eq, i + 1, j + 1, false)
      case Substitution => i < |a| && j < |b| && Turns(ops, a, b, eq, i + 1, j + 1, false)
      case Deletion => i < |a| && Turns(ops, a, b, eq, i + 1, j, false)
      case Insertion => j < |b| && Turns(ops, a, b, eq, i, j + 1, false)
    ensures Turns(r, a, b, eq, i, j, false) && Cost(r) == Price(op) + Cost(ops)
  {
    r := [op] + ops;
    assert r[1..] == ops;
  }

  lemma {:induction false} ExactScriptIsScript<A, B>(ops: seq<EditOp>, a: seq<A>, b: seq<B>,
      eq: Comparison<A, B>, i: nat, j: nat)
    requires Turns(ops, a, b, eq, i, j, true)
    ensures Turns(ops, a, b, eq, i, j, false)
    decreases |ops|
  {
    if ops != [] {
      match ops[0]
      case Retention => ExactScriptIsScript(ops[1..], a, b, eq, i + 1, j + 1);
      case Substitution => ExactScriptIsScript(ops[1..], a, b, eq, i + 1, j + 1);
      case Deletion => ExactScriptIsScript(ops[1..], a, b, eq, i + 1, j);
      case Insertion => ExactScriptIsScript(ops[1..], a, b, eq, i, j + 1);
    }
  }

  lemma TriangleInequality<A, B, C>(a: seq<A>, b: seq<B>, c: seq<C>,
                                    ab: Comparison<A, B>, bc: Comparison<B, C>, ac: Comparison<A, C>)
    requires forall x, y, z :: x in a && y in b && z in c && ab(x, y) && bc(y, z) ==> ac(x, z)
    ensures Distance(a, c, ac) <= Distance(a, b, ab) + Distance(b, c, bc)
  {
    var p := CheapestScript(a, b, ab, |a|, |b|);
    var q := CheapestScript(b, c, bc, |b|, |c|);
    assert a[..|a|] == a && b[..|b|] == b && c[..|c|] == c;
    ExactScriptIsScript(p, a, b, ab, 0, 0);
    ExactScriptIsScript(q, b, c, bc, 0, 0);
    var r := Compose(p, q, a, b, c, ab, bc, ac, 0, 0, 0);
    ScriptCostsEnough(r, a, c, ac, 0, 0, false);
  }

  /** Distance of two strings under equality of characters. */
  function StringDistance(a: string, b: string): nat {
    Distance(a, b, (x: char, y: char) => x == y)
  }

  /** Under equality the distance is a metric. */
  lemma StringDistanceIsMetric(a: string, b: string, c: string)
    ensures StringDistance(a, b) == 0 <==> a == b
    ensures StringDistance(a, b) == StringDistance(b, a)
    ensures StringDistance(a, c) <= StringDistance(a, b) + StringDistance(b, c)
  {
    var eq := (x: char, y: char) => x == y;
    ZeroIffMatching(a, b, eq, |a|, |b|);
    DistFlip(a, b, eq, |a|, |b|);
    DistSame(b, a, Flip(eq), eq, |b|, |a|);
    TriangleInequality(a, b, c, eq, eq, eq);
    assert forall x, y :: eq(x, y) == (x == y);
  }
}
