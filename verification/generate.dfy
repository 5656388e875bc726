/** The crossword solver: node consistency, `revise` and AC-3 over the
    candidate-word domains, then backtracking search with the
    minimum-remaining-values, degree and least-constraining-value
    heuristics.

    The first half states what the solver computes as functions and
    predicates on values; the class `CrosswordCreator` is the solver itself,
    whose methods change the `domains` field step by step and are proved
    against those functions. */
module Generate {

  import opened Wrappers
  import opened Crossword

  /** The candidate words of each variable (`self.domains`). */
  type Domains = map<Variable, set<string>>

  /** A partial assignment of words to variables. */
  type Mapping = map<Variable, string>

  // ---------------------------------------------------------------------
  // Node consistency

  /** Every candidate word has its variable's length. */
  ghost predicate NodeConsistent(d: Domains) {
    forall v, w :: v in d && w in d[v] ==> |w| == v.length
  }

  /** The domains with every word of the wrong length removed. */
  function NodeFilter(d: Domains): (r: Domains)
    ensures r.Keys == d.Keys
    ensures forall v :: v in d ==> r[v] <= d[v]
  {
    map v | v in d :: set w | w in d[v] && |w| == v.length
  }

  /** After the filter every word fits, and only words that did not fit
      were removed. */
  lemma NodeFilterSound(d: Domains)
    ensures NodeConsistent(NodeFilter(d))
    ensures forall v, w :: v in d && w in d[v] && w !in NodeFilter(d)[v] ==> |w| != v.length
  {
  }

  /** Filtering a second time changes nothing. */
  lemma NodeFilterIdempotent(d: Domains)
    ensures NodeFilter(NodeFilter(d)) == NodeFilter(d)
  {
    var once := NodeFilter(d);
    forall v | v in once
      ensures NodeFilter(once)[v] == once[v]
    {
    }
  }

  // ---------------------------------------------------------------------
  // Arc consistency

  /** Letter `a` of `w` equals letter `b` of `w2`. */
  predicate Agree(w: string, w2: string, a: int, b: int) {
    0 <= a < |w| && 0 <= b < |w2| && w[a] == w2[b]
  }

  /** Some word of `dy` agrees with `w` at the overlap. */
  ghost predicate HasSupport(w: string, dy: set<string>, a: int, b: int) {
    exists w2 :: w2 in dy && Agree(w, w2, a, b)
  }

  /** The words of `dx` that have support in `dy`. */
  ghost function Supported(dx: set<string>, dy: set<string>, a: int, b: int): (r: set<string>)
    ensures r <= dx
  {
    set w | w in dx && HasSupport(w, dy, a, b)
  }

  /** The domains after `revise(x, y)`: unchanged when `x` and `y` do not
      cross, otherwise `x` keeps only its supported words. */
  ghost function Revised(p: Puzzle, d: Domains, x: Variable, y: Variable): (r: Domains)
    requires (x, y) in p.overlaps && x in d && y in d
    ensures r.Keys == d.Keys && r[x] <= d[x]
    ensures forall v :: v in d && v != x ==> r[v] == d[v]
  {
    match p.overlaps[(x, y)]
    case None => d
    case Some((a, b)) => d[x := Supported(d[x], d[y], a, b)]
  }

  /** Every word of `x` has a partner in `y` (trivially true for variables
      that do not cross). */
  ghost predicate ArcConsistent(p: Puzzle, d: Domains, x: Variable, y: Variable) {
    (x, y) in p.overlaps && x in d && y in d && p.overlaps[(x, y)].Some? ==>
      forall w :: w in d[x] ==>
        HasSupport(w, d[y], p.overlaps[(x, y)].value.0, p.overlaps[(x, y)].value.1)
  }

  ghost predicate AllArcsConsistent(p: Puzzle, d: Domains) {
    forall x, y :: ArcConsistent(p, d, x, y)
  }

  /** Domains only lose words. */
  ghost predicate Shrunk(d: Domains, d2: Domains) {
    d2.Keys == d.Keys && forall v :: v in d ==> d2[v] <= d[v]
  }

  /** After `revise(x, y)` the arc `(x, y)` is consistent. */
  lemma ReviseMakesArcConsistent(p: Puzzle, d: Domains, x: Variable, y: Variable)
    requires WellFormed(p) && (x, y) in p.overlaps && x in d && y in d
    ensures ArcConsistent(p, Revised(p, d, x, y), x, y)
  {
  }

  /** `revise(x, y)` never removes a word that supports a word of `y`, so an
      arc `(y, x)` that was consistent stays consistent. */
  lemma ReviseKeepsSupporters(p: Puzzle, d: Domains, x: Variable, y: Variable)
    requires WellFormed(p) && (x, y) in p.overlaps && x in d && y in d
    requires ArcConsistent(p, d, y, x)
    ensures ArcConsistent(p, Revised(p, d, x, y), y, x)
  {
    var d2 := Revised(p, d, x, y);
    if p.overlaps[(y, x)].Some? {
      var (b, a) := p.overlaps[(y, x)].value;
      assert p.overlaps[(x, y)] == Some((a, b));
      forall wy | wy in d2[y]
        ensures HasSupport(wy, d2[x], b, a)
      {
        var wx :| wx in d[x] && Agree(wy, wx, b, a);
        assert Agree(wx, wy, a, b);
        assert wx in d2[x];
      }
    }
  }

  /** A word is removed exactly when nothing in `y` supports it. */
  lemma ReviseRemovesUnsupported(p: Puzzle, d: Domains, x: Variable, y: Variable, w: string)
    requires (x, y) in p.overlaps && x in d && y in d && w in d[x]
    requires p.overlaps[(x, y)].Some?
    ensures w !in Revised(p, d, x, y)[x] <==>
      !HasSupport(w, d[y], p.overlaps[(x, y)].value.0, p.overlaps[(x, y)].value.1)
  {
  }

  // ---------------------------------------------------------------------
  // Assignments

  /** No two variables share a word. */
  predicate AllDistinct(s: Mapping) {
    forall v1, v2 :: v1 in s && v2 in s && v1 != v2 ==> s[v1] != s[v2]
  }

  /** Every word has its variable's length. */
  predicate LengthsFit(s: Mapping) {
    forall v :: v in s ==> |s[v]| == v.length
  }

  /** Crossing variables agree on their shared letter. */
  ghost predicate OverlapsAgree(p: Puzzle, s: Mapping) {
    forall v1, v2 :: v1 in s && v2 in s && (v1, v2) in p.overlaps && p.overlaps[(v1, v2)].Some? ==>
      Agree(s[v1], s[v2], p.overlaps[(v1, v2)].value.0, p.overlaps[(v1, v2)].value.1)
  }

  /** A complete, consistent assignment: a solution of the puzzle. */
  ghost predicate IsSolution(p: Puzzle, s: Mapping) {
    && s.Keys == p.variables
    && (forall v :: v in s ==> s[v] != [])
    && AllDistinct(s) && LengthsFit(s) && OverlapsAgree(p, s)
  }

  /** Every word of `s` is a candidate of its variable. */
  ghost predicate DrawnFrom(s: Mapping, d: Domains) {
    forall v :: v in s ==> v in d && s[v] in d[v]
  }

  /** `s` agrees with `base` on every variable `base` assigns. */
  ghost predicate Extends(s: Mapping, base: Mapping) {
    forall v :: v in base ==> v in s && s[v] == base[v]
  }

  /** Every solution drawn from `d` is still drawn from `d2`. */
  ghost predicate KeepsSolutions(p: Puzzle, d: Domains, d2: Domains) {
    forall s :: IsSolution(p, s) && DrawnFrom(s, d) ==> DrawnFrom(s, d2)
  }

  /** A map has as many distinct values as keys exactly when no two keys
      share a value. */
  lemma {:induction false} ValuesCard(m: Mapping)
    ensures |m.Values| <= |m.Keys|
    ensures |m.Values| == |m.Keys| <==> AllDistinct(m)
    decreases |m|
  {
    if m != map[] {
      var k :| k in m;
      var rest := m - {k};
      ValuesCard(rest);
      assert m.Keys == rest.Keys + {k};
      assert |m.Keys| == |rest.Keys| + 1;
      if m[k] in rest.Values {
        var k2 :| k2 in rest && rest[k2] == m[k];
        assert m.Values == rest.Values;
        assert !AllDistinct(m) by { assert k != k2 && m[k] == m[k2]; }
      } else {
        assert m.Values == rest.Values + {m[k]};
        assert |m.Values| == |rest.Values| + 1;
        if AllDistinct(rest) {
          forall v1, v2 | v1 in m && v2 in m && v1 != v2
            ensures m[v1] != m[v2]
          {
            if v1 != k && v2 != k {
              assert rest[v1] != rest[v2];
            }
          }
        }
        if AllDistinct(m) {
          assert AllDistinct(rest);
        }
      }
    }
  }

  /** `consistent`: the words are pairwise distinct, each has its
      variable's length, and crossing variables agree on their shared
      letter. */
  function Consistent(p: Puzzle, s: Mapping): (r: bool)
    requires WellFormed(p) && s.Keys <= p.variables
    ensures r <==> AllDistinct(s) && LengthsFit(s) && OverlapsAgree(p, s)
  {
    ValuesCard(s);
    if |s.Keys| != |s.Values| then false
    else
      forall v1 | v1 in s ::
        && |s[v1]| == v1.length
        && forall v2 | v2 in s && v1 != v2 ::
             var ov := p.overlaps[(v1, v2)];
             ov.Some? ==> Agree(s[v1], s[v2], ov.value.0, ov.value.1)
  }

  /** `assignment_complete`: every variable has a non-empty word. */
  function AssignmentComplete(p: Puzzle, s: Mapping): (r: bool)
    ensures r ==> forall v :: v in p.variables ==> v in s && s[v] != []
    ensures r <==> s.Keys == p.variables && forall v :: v in s ==> s[v] != []
  {
    if p.variables != s.Keys then false
    else forall v | v in s :: s[v] != []
  }

  /** A consistent assignment that is not complete leaves a variable
      unassigned: its words all have their variable's positive length. */
  lemma IncompleteLeavesVariable(p: Puzzle, s: Mapping)
    requires WellFormed(p) && s.Keys <= p.variables
    requires Consistent(p, s) && !AssignmentComplete(p, s)
    ensures p.variables - s.Keys != {}
  {
    forall v | v in s
      ensures s[v] != []
    {
      assert |s[v]| == v.length;
    }
    assert !(p.variables <= s.Keys);
    var v :| v in p.variables && v !in s.Keys;
    assert v in p.variables - s.Keys;
  }

  /** A complete and consistent assignment is exactly a solution. */
  lemma CompleteAndConsistentIsSolution(p: Puzzle, s: Mapping)
    requires WellFormed(p) && s.Keys <= p.variables
    ensures AssignmentComplete(p, s) && Consistent(p, s) <==> IsSolution(p, s)
  {
  }

  /** Any part of a solution is consistent, so a partial assignment that is
      not consistent extends to no solution. */
  lemma SolutionPartsConsistent(p: Puzzle, s: Mapping, base: Mapping)
    requires WellFormed(p) && base.Keys <= p.variables
    requires IsSolution(p, s) && Extends(s, base)
    ensures Consistent(p, base)
  {
    forall v1, v2 | v1 in base && v2 in base && (v1, v2) in p.overlaps && p.overlaps[(v1, v2)].Some?
      ensures Agree(base[v1], base[v2], p.overlaps[(v1, v2)].value.0, p.overlaps[(v1, v2)].value.1)
    {
      assert s[v1] == base[v1] && s[v2] == base[v2];
    }
  }

  /** The filters of node consistency and `revise` never remove a word of
      a solution. */
  lemma NodeFilterKeepsSolutions(p: Puzzle, d: Domains)
    ensures KeepsSolutions(p, d, NodeFilter(d))
  {
  }

  lemma ReviseKeepsSolutions(p: Puzzle, d: Domains, x: Variable, y: Variable)
    requires WellFormed(p) && (x, y) in p.overlaps && x in d && y in d
    ensures KeepsSolutions(p, d, Revised(p, d, x, y))
  {
    var d2 := Revised(p, d, x, y);
    forall s | IsSolution(p, s) && DrawnFrom(s, d)
      ensures DrawnFrom(s, d2)
    {
      if p.overlaps[(x, y)].Some? {
        var (a, b) := p.overlaps[(x, y)].value;
        assert Agree(s[x], s[y], a, b);
        assert HasSupport(s[x], d[y], a, b);
      }
    }
  }

  /** No solution drawn from `d` that extends `base` gives `v` a word of
      `ws`. */
  ghost predicate NoSolutionTakes(p: Puzzle, d: Domains, base: Mapping, v: Variable, ws: seq<string>) {
    forall s :: IsSolution(p, s) && DrawnFrom(s, d) && Extends(s, base) && v in s ==> s[v] !in ws
  }

  /** Adding a candidate word keeps an assignment drawn from `d`. */
  lemma DrawnFromAdd(base: Mapping, d: Domains, v: Variable, w: string)
    requires DrawnFrom(base, d) && v in d && w in d[v]
    ensures DrawnFrom(base[v := w], d)
  {
  }

  /** Deleting a key just added restores the mapping. */
  lemma RemoveUndoesAdd(base: Mapping, v: Variable, w: string)
    requires v !in base
    ensures base[v := w] - {v} == base
  {
  }

  /** What extends `base` with `v` added also extends `base`. */
  lemma ExtendsRemove(s: Mapping, base: Mapping, v: Variable, w: string)
    requires v !in base && Extends(s, base[v := w])
    ensures Extends(s, base)
  {
  }

  /** No solution drawn from `d` extends `base`. */
  ghost predicate NoSolutionExtends(p: Puzzle, d: Domains, base: Mapping) {
    forall s :: IsSolution(p, s) && DrawnFrom(s, d) ==> !Extends(s, base)
  }

  /** A partial assignment that is not consistent extends to no solution. */
  lemma InconsistentExtendsToNothing(p: Puzzle, d: Domains, m: Mapping)
    requires WellFormed(p) && m.Keys <= p.variables && !Consistent(p, m)
    ensures NoSolutionExtends(p, d, m)
  {
    forall s | IsSolution(p, s) && DrawnFrom(s, d) && Extends(s, m)
      ensures false
    {
      SolutionPartsConsistent(p, s, m);
    }
  }

  /** A word that extends to no solution joins the words already ruled out. */
  lemma NoSolutionTakesStep(p: Puzzle, d: Domains, base: Mapping, v: Variable, ws: seq<string>, k: nat)
    requires k < |ws| && NoSolutionTakes(p, d, base, v, ws[..k])
    requires NoSolutionExtends(p, d, base[v := ws[k]])
    ensures NoSolutionTakes(p, d, base, v, ws[..k + 1])
  {
    var w := ws[k];
    assert ws[..k + 1] == ws[..k] + [w];
    forall s | IsSolution(p, s) && DrawnFrom(s, d) && Extends(s, base) && v in s
      ensures s[v] !in ws[..k] + [w]
    {
      assert s[v] == w ==> Extends(s, base[v := w]);
    }
  }

  /** When every candidate of an unassigned `v` is ruled out, `base`
      extends to no solution at all. */
  lemma NoSolutionTakesAll(p: Puzzle, d: Domains, base: Mapping, v: Variable, ws: seq<string>)
    requires v in p.variables && v in d && multiset(ws) == multiset(d[v])
    requires NoSolutionTakes(p, d, base, v, ws)
    ensures NoSolutionExtends(p, d, base)
  {
    forall s | IsSolution(p, s) && DrawnFrom(s, d)
      ensures !Extends(s, base)
    {
      assert s[v] in multiset(ws);
    }
  }

  // ---------------------------------------------------------------------
  // AC-3 bookkeeping

  /** Every arc of the worklist is an ordered pair of distinct variables. */
  ghost predicate ArcsOf(p: Puzzle, queue: seq<(Variable, Variable)>) {
    forall arc :: arc in queue ==> arc in p.overlaps
  }

  /** The loop invariant of AC-3: every arc not waiting in the queue is
      consistent. */
  ghost predicate ConsistentOutside(p: Puzzle, d: Domains, queue: seq<(Variable, Variable)>) {
    forall x, y :: (x, y) !in queue ==> ArcConsistent(p, d, x, y)
  }

  lemma KeepsSolutionsTransitive(p: Puzzle, d1: Domains, d2: Domains, d3: Domains)
    requires KeepsSolutions(p, d1, d2) && KeepsSolutions(p, d2, d3)
    ensures KeepsSolutions(p, d1, d3)
  {
  }

  lemma ShrunkTransitive(d1: Domains, d2: Domains, d3: Domains)
    requires Shrunk(d1, d2) && Shrunk(d2, d3)
    ensures Shrunk(d1, d3)
  {
  }

  /** The (variable, word) pairs still possible: the measure that AC-3
      shrinks whenever `revise` removes a word. */
  ghost function DomainPairs(d: Domains): set<(Variable, string)> {
    set v, w | v in d && w in d[v] :: (v, w)
  }

  lemma DomainPairsShrink(d: Domains, d2: Domains, x: Variable)
    requires Shrunk(d, d2) && x in d && d2[x] != d[x]
    ensures DomainPairs(d2) < DomainPairs(d)
  {
    var w :| w in d[x] && w !in d2[x];
    assert (x, w) in DomainPairs(d) - DomainPairs(d2);
  }

  /** One step of AC-3 keeps its loop invariant, "every arc that is not in
      the queue is consistent": the popped arc is made consistent, arcs into
      `x` other than from `y` are queued again when `x` lost a word, and
      `(y, x)` needs no re-check because of `ReviseKeepsSupporters`. */
  lemma AC3Step(p: Puzzle, d: Domains, queue: seq<(Variable, Variable)>,
                added: seq<(Variable, Variable)>)
    requires WellFormed(p) && d.Keys == p.variables
    requires |queue| > 0 && queue[0] in p.overlaps
    requires ConsistentOutside(p, d, queue)
    requires Revised(p, d, queue[0].0, queue[0].1)[queue[0].0] != d[queue[0].0] ==>
      forall z :: z in Neighbors(p, queue[0].0) && z != queue[0].1 ==> (z, queue[0].0) in added
    ensures ConsistentOutside(p, Revised(p, d, queue[0].0, queue[0].1), queue[1..] + added)
  {
    var (x, y) := queue[0];
    var d2 := Revised(p, d, x, y);
    forall u, v | (u, v) !in queue[1..] + added
      ensures ArcConsistent(p, d2, u, v)
    {
      if (u, v) in p.overlaps && p.overlaps[(u, v)].Some? {
        assert (u, v) !in queue[1..];
        if (u, v) == (x, y) {
          ReviseMakesArcConsistent(p, d, x, y);
        } else if v == x {
          assert (u, v) !in queue;
          if d2[x] != d[x] {
            NeighborsSymmetric(p, x, u);
            assert u in Neighbors(p, x);
            assert u == y by { assert (u, x) !in added; }
            ReviseKeepsSupporters(p, d, x, y);
          } else {
            assert d2 == d;
          }
        } else {
          assert (u, v) !in queue;
          assert ArcConsistent(p, d, u, v);
          assert d2[v] == d[v] && d2[u] <= d[u];
        }
      }
    }
  }

  // ---------------------------------------------------------------------
  // Least-constraining value

  /** The neighbours of `v` that are still unassigned and would lose `w`
      from their domain if `v` took it. */
  ghost function RuledOut(p: Puzzle, d: Domains, v: Variable, w: string, s: Mapping): nat {
    |Holders(Neighbors(p, v), d, w, s)|
  }

  /** The variables among `ns` that are unassigned in `s` and hold `w`. */
  ghost function Holders(ns: set<Variable>, d: Domains, w: string, s: Mapping): set<Variable> {
    set n | n in ns && n !in s && n in d && w in d[n]
  }

  lemma HoldersAdd(ns: set<Variable>, n: Variable, d: Domains, w: string, s: Mapping)
    ensures Holders(ns + {n}, d, w, s)
      == Holders(ns, d, w, s) + (if n !in s && n in d && w in d[n] then {n} else {})
  {
  }

  predicate SortedByKey(ws: seq<string>, key: map<string, nat>)
    requires forall w :: w in ws ==> w in key
  {
    forall i, j :: 0 <= i < j < |ws| ==> key[ws[i]] <= key[ws[j]]
  }

  /** A word no larger than everything in a sorted list can go in front. */
  lemma SortedCons(x: string, ws: seq<string>, key: map<string, nat>)
    requires x in key && forall u :: u in ws ==> u in key
    requires SortedByKey(ws, key)
    requires forall u :: u in ws ==> key[x] <= key[u]
    ensures SortedByKey([x] + ws, key)
  {
    var r := [x] + ws;
    forall i, j | 0 <= i < j < |r|
      ensures key[r[i]] <= key[r[j]]
    {
      assert r[j] == ws[j - 1];
      if i > 0 {
        assert r[i] == ws[i - 1];
      }
    }
  }

  /** `w` goes in front of a sorted list whose first key is no smaller. */
  lemma InsertFront(w: string, ws: seq<string>, key: map<string, nat>)
    requires w in key && forall u :: u in ws ==> u in key
    requires SortedByKey(ws, key) && ws != [] && key[w] <= key[ws[0]]
    ensures SortedByKey([w] + ws, key)
  {
    forall u | u in ws ensures key[w] <= key[u] {
      var k :| 0 <= k < |ws| && ws[k] == u;
      assert k == 0 || key[ws[0]] <= key[ws[k]];
    }
    SortedCons(w, ws, key);
  }

  /** The head of a sorted list stays in front of the rest with `w`
      inserted, when `w`'s key is larger. */
  lemma InsertBehind(w: string, ws: seq<string>, tail: seq<string>, key: map<string, nat>)
    requires w in key && forall u :: u in ws ==> u in key
    requires SortedByKey(ws, key) && ws != [] && key[ws[0]] < key[w]
    requires forall u :: u in tail ==> u in key
    requires SortedByKey(tail, key) && multiset(tail) == multiset(ws[1..]) + multiset{w}
    ensures multiset([ws[0]] + tail) == multiset(ws) + multiset{w}
    ensures SortedByKey([ws[0]] + tail, key)
  {
    assert ws == [ws[0]] + ws[1..];
    forall u | u in tail ensures key[ws[0]] <= key[u] {
      assert u in multiset(ws[1..]) + multiset{w};
      if u != w {
        var k :| 0 <= k < |ws[1..]| && ws[1..][k] == u;
        assert ws[k + 1] == u;
      }
    }
    SortedCons(ws[0], tail, key);
  }

  /** Insert `w` into a list sorted by `key`. */
  function InsertByKey(w: string, ws: seq<string>, key: map<string, nat>): (r: seq<string>)
    requires w in key && forall u :: u in ws ==> u in key
    requires SortedByKey(ws, key)
    ensures multiset(r) == multiset(ws) + multiset{w}
    ensures forall u :: u in r ==> u in key
    ensures SortedByKey(r, key)
  {
    if ws == [] then [w]
    else if key[w] <= key[ws[0]] then
      InsertFront(w, ws, key);
      [w] + ws
    else
      var tail := InsertByKey(w, ws[1..], key);
      InsertBehind(w, ws, tail, key);
      [ws[0]] + tail
  }

  /** `list.sort(key=...)`: a permutation of `ws`, ascending by `key`. */
  function SortByKey(ws: seq<string>, key: map<string, nat>): (r: seq<string>)
    requires forall u :: u in ws ==> u in key
    ensures multiset(r) == multiset(ws)
    ensures forall u :: u in r ==> u in key
    ensures SortedByKey(r, key)
  {
    if ws == [] then []
    else
      assert ws == [ws[0]] + ws[1..];
      InsertByKey(ws[0], SortByKey(ws[1..], key), key)
  }

  /** The keys of a dict, each once, in its iteration order. */
  method ListKeys(m: map<string, nat>) returns (list: seq<string>)
    ensures multiset(list) == multiset(m.Keys)
    ensures forall w :: w in list ==> w in m
  {
    list := [];
    var rest := m.Keys;
    while rest != {}
      invariant rest <= m.Keys
      invariant multiset(list) == multiset(m.Keys - rest)
      decreases rest
    {
      var w :| w in rest;
      assert m.Keys - (rest - {w}) == (m.Keys - rest) + {w};
      list := list + [w];
      rest := rest - {w};
    }
    assert forall w :: w in list ==> w in multiset(list);
  }

  // ---------------------------------------------------------------------
  // The solver

  /** The dict handed to `backtrack`: one object, shared by every recursive
      call and updated in place. */
  class Assignment {
    var entries: Mapping

    constructor ()
      ensures entries == map[]
    {
      entries := map[];
    }
  }

  class CrosswordCreator {
    const crossword: Puzzle
    var domains: Domains

    ghost predicate Valid()
      reads this
    {
      WellFormed(crossword) && domains.Keys == crossword.variables
    }

    /** Every variable starts with its own copy of the whole word list. */
    constructor (crossword: Puzzle)
      requires WellFormed(crossword)
      ensures Valid() && this.crossword == crossword
      ensures forall v :: v in crossword.variables ==> domains[v] == crossword.words
    {
      this.crossword := crossword;
      domains := map v | v in crossword.variables :: crossword.words;
    }

    /** `enforce_node_consistency`: collect the words of the wrong length,
        then delete them, one variable at a time. */
    method EnforceNodeConsistency()
      requires Valid()
      modifies this
      ensures Valid()
      ensures domains == NodeFilter(old(domains))
    {
      var todo := crossword.variables;
      while todo != {}
        invariant Valid() && todo <= crossword.variables
        invariant forall v :: v in domains ==>
          domains[v] == if v in todo then old(domains)[v] else NodeFilter(old(domains))[v]
        decreases todo
      {
        var v :| v in todo;
        var deleteWords: seq<string> := [];
        var scan := domains[v];
        while scan != {}
          invariant scan <= domains[v]
          invariant forall w :: w in deleteWords <==> w in domains[v] && w !in scan && |w| != v.length
          decreases scan
        {
          var word :| word in scan;
          if |word| != v.length {
            deleteWords := deleteWords + [word];
          }
          scan := scan - {word};
        }
        ghost var d0 := domains;
        for k := 0 to |deleteWords|
          invariant domains.Keys == d0.Keys
          invariant forall u :: u in domains && u != v ==> domains[u] == d0[u]
          invariant forall w :: w in domains[v] <==> w in d0[v] && w !in deleteWords[..k]
        {
          assert deleteWords[..k + 1] == deleteWords[..k] + [deleteWords[k]];
          domains := domains[v := domains[v] - {deleteWords[k]}];
        }
        assert deleteWords[..|deleteWords|] == deleteWords;
        assert domains[v] == NodeFilter(old(domains))[v];
        todo := todo - {v};
      }
    }

    /** `revise(x, y)`: delete from `x` every word that no word of `y`
        agrees with at the overlap; report whether anything was deleted. */
    method Revise(x: Variable, y: Variable) returns (revised: bool)
      requires Valid() && NodeConsistent(domains)
      requires (x, y) in crossword.overlaps
      modifies this
      ensures Valid() && NodeConsistent(domains)
      ensures domains == Revised(crossword, old(domains), x, y)
      ensures revised <==> domains[x] != old(domains)[x]
    {
      var overlaps := crossword.overlaps[(x, y)];
      revised := false;
      if overlaps.None? {
        assert Revised(crossword, domains, x, y) == domains;
        return;
      }
      var (a, b) := overlaps.value;
      ghost var d0 := domains;
      var tempDomX := domains[x];
      while tempDomX != {}
        invariant tempDomX <= d0[x]
        invariant domains.Keys == d0.Keys
        invariant domains == d0[x := domains[x]]
        invariant domains[x] == set w | w in d0[x] && (w in tempDomX || HasSupport(w, d0[y], a, b))
        invariant revised <==> domains[x] != d0[x]
        decreases tempDomX
      {
        var wordX :| wordX in tempDomX;
        var matchChecker := false;
        var scanY := domains[y];
        while scanY != {}
          invariant scanY <= d0[y]
          invariant matchChecker <==> exists wy :: wy in d0[y] && wy !in scanY && Agree(wordX, wy, a, b)
          decreases scanY
        {
          var wordY :| wordY in scanY;
          if wordX[a] == wordY[b] {
            matchChecker := true;
          }
          scanY := scanY - {wordY};
        }
        if !matchChecker {
          domains := domains[x := domains[x] - {wordX}];
          revised := true;
        }
        tempDomX := tempDomX - {wordX};
      }
      assert domains[x] == Supported(d0[x], d0[y], a, b);
    }

    /** The arcs `(z, x)` for every neighbour `z` of `x` other than `y`,
        each once, appended to `queue`. */
    method RequeueArcsInto(queue: seq<(Variable, Variable)>, x: Variable, y: Variable)
      returns (q: seq<(Variable, Variable)>)
      requires Valid()
      ensures |q| >= |queue| && q == queue + q[|queue|..]
      ensures forall arc :: arc in q[|queue|..] <==>
        arc.1 == x && arc.0 in Neighbors(crossword, x) && arc.0 != y
      ensures forall i, j :: |queue| <= i < j < |q| ==> q[i] != q[j]
      ensures forall arc :: arc in q[|queue|..] ==> arc in crossword.overlaps
    {
      q := queue;
      var ns := Neighbors(crossword, x) - {y};
      while ns != {}
        invariant |q| >= |queue| && q[..|queue|] == queue
        invariant ns <= Neighbors(crossword, x) - {y}
        invariant forall arc :: arc in q[|queue|..] <==>
          arc.1 == x && arc.0 in Neighbors(crossword, x) && arc.0 != y && arc.0 !in ns
        invariant forall i, j :: |queue| <= i < j < |q| ==> q[i] != q[j]
        decreases ns
      {
        var neighbor :| neighbor in ns;
        assert (neighbor, x) !in q[|queue|..];
        assert (q + [(neighbor, x)])[|queue|..] == q[|queue|..] + [(neighbor, x)];
        q := q + [(neighbor, x)];
        ns := ns - {neighbor};
      }
      assert q == queue + q[|queue|..];
      forall arc | arc in q[|queue|..]
        ensures arc in crossword.overlaps
      {
        NeighborsSymmetric(crossword, x, arc.0);
      }
    }

    /** Every arc `(v, n)` with `n` a neighbour of `v`, each once. */
    method AllArcs() returns (queue: seq<(Variable, Variable)>)
      requires Valid()
      ensures forall arc :: arc in queue <==> arc.0 in crossword.variables && arc.1 in Neighbors(crossword, arc.0)
      ensures forall i, j :: 0 <= i < j < |queue| ==> queue[i] != queue[j]
    {
      queue := [];
      var vs := crossword.variables;
      while vs != {}
        invariant vs <= crossword.variables
        invariant forall arc :: arc in queue <==>
          arc.0 in crossword.variables - vs && arc.1 in Neighbors(crossword, arc.0)
        invariant forall i, j :: 0 <= i < j < |queue| ==> queue[i] != queue[j]
        decreases vs
      {
        var v :| v in vs;
        var ns := Neighbors(crossword, v);
        while ns != {}
          invariant ns <= Neighbors(crossword, v)
          invariant forall arc :: arc in queue <==>
            (arc.0 in crossword.variables - vs && arc.1 in Neighbors(crossword, arc.0))
            || (arc.0 == v && arc.1 in Neighbors(crossword, v) - ns)
          invariant forall i, j :: 0 <= i < j < |queue| ==> queue[i] != queue[j]
          decreases ns
        {
          var neighbor :| neighbor in ns;
          queue := queue + [(v, neighbor)];
          ns := ns - {neighbor};
        }
        vs := vs - {v};
      }
    }

    /** `ac3(arcs)`: revise the arcs of a FIFO worklist, re-queueing the
        arcs into every variable whose domain shrank; `false` as soon as a
        domain becomes empty. */
    method AC3(arcs: Option<seq<(Variable, Variable)>>) returns (ok: bool)
      requires Valid() && NodeConsistent(domains)
      requires arcs.Some? ==> forall arc :: arc in arcs.value ==> arc in crossword.overlaps
      modifies this
      ensures Valid() && NodeConsistent(domains)
      ensures Shrunk(old(domains), domains)
      ensures KeepsSolutions(crossword, old(domains), domains)
      ensures !ok ==> exists v :: v in domains && domains[v] == {}
      ensures ok && arcs.None? ==> AllArcsConsistent(crossword, domains)
      ensures ok && arcs.Some? ==>
        (forall x, y :: (x, y) !in arcs.value ==> ArcConsistent(crossword, old(domains), x, y)) ==>
        AllArcsConsistent(crossword, domains)
    {
      var queue;
      if arcs.None? {
        queue := AllArcs();
      } else {
        queue := arcs.value;
      }
      ghost var tracked := ConsistentOutside(crossword, domains, queue);
      assert arcs.None? ==> tracked;
      while queue != []
        invariant Valid() && NodeConsistent(domains)
        invariant Shrunk(old(domains), domains)
        invariant KeepsSolutions(crossword, old(domains), domains)
        invariant ArcsOf(crossword, queue)
        invariant tracked ==> ConsistentOutside(crossword, domains, queue)
        decreases DomainPairs(domains), |queue|
      {
        ghost var d0, q0 := domains, queue;
        var arc := queue[0];
        queue := queue[1..];
        var (x, y) := arc;
        var revised := Revise(x, y);
        ReviseKeepsSolutions(crossword, d0, x, y);
        KeepsSolutionsTransitive(crossword, old(domains), d0, domains);
        ShrunkTransitive(old(domains), d0, domains);
        if revised {
          if |domains[x]| == 0 {
            return false;
          }
          var q := RequeueArcsInto(queue, x, y);
          assert ArcsOf(crossword, q) by {
            forall arc | arc in q ensures arc in crossword.overlaps {
              assert arc in queue || arc in q[|queue|..];
            }
          }
          if tracked {
            AC3Step(crossword, d0, q0, q[|queue|..]);
          }
          DomainPairsShrink(d0, domains, x);
          queue := q;
        } else {
          assert domains == d0;
          if tracked {
            AC3Step(crossword, d0, q0, []);
            assert queue + [] == queue;
          }
        }
      }
      return true;
    }

    /** `select_unassigned_variable`: an unassigned variable with the
        fewest remaining words and, among those, the most neighbours. Ties
        beyond that are left to the iteration order of the variable set. */
    method SelectUnassignedVariable(assignment: Mapping) returns (v: Variable)
      requires Valid()
      requires crossword.variables - assignment.Keys != {}
      ensures v in crossword.variables && v !in assignment
      ensures forall u :: u in crossword.variables && u !in assignment ==>
        |domains[v]| <= |domains[u]|
      ensures forall u :: u in crossword.variables && u !in assignment && |domains[u]| == |domains[v]| ==>
        |Neighbors(crossword, u)| <= |Neighbors(crossword, v)|
    {
      var unassignedVars := crossword.variables - assignment.Keys;
      var minDomVar := FewestWords(unassignedVars);
      var listMinVars := WithDomainSize(unassignedVars, |domains[minDomVar]|);
      assert minDomVar in listMinVars;
      if |listMinVars| > 1 {
        v := MostNeighbors(listMinVars);
      } else {
        v := minDomVar;
        assert listMinVars == [minDomVar];
      }
    }

    /** The first variable of `vs` once sorted by domain size. */
    method FewestWords(vs: set<Variable>) returns (m: Variable)
      requires Valid() && vs != {} && vs <= crossword.variables
      ensures m in vs && forall u :: u in vs ==> |domains[m]| <= |domains[u]|
    {
      m :| m in vs;
      var scan := vs - {m};
      while scan != {}
        invariant scan <= vs && m in vs
        invariant forall u :: u in vs && u !in scan ==> |domains[m]| <= |domains[u]|
        decreases scan
      {
        var u :| u in scan;
        if |domains[u]| < |domains[m]| {
          m := u;
        }
        scan := scan - {u};
      }
    }

    /** The variables of `vs` whose domain has `size` words, each once. */
    method WithDomainSize(vs: set<Variable>, size: nat) returns (list: seq<Variable>)
      requires Valid() && vs <= crossword.variables
      ensures forall u :: u in list <==> u in vs && |domains[u]| == size
      ensures forall i, j :: 0 <= i < j < |list| ==> list[i] != list[j]
    {
      list := [];
      var scan := vs;
      while scan != {}
        invariant scan <= vs
        invariant forall u :: u in list <==> u in vs && u !in scan && |domains[u]| == size
        invariant forall i, j :: 0 <= i < j < |list| ==> list[i] != list[j]
        decreases scan
      {
        var u :| u in scan;
        if |domains[u]| == size {
          list := list + [u];
        }
        scan := scan - {u};
      }
    }

    /** The first variable of `list` once sorted by degree, largest first. */
    method MostNeighbors(list: seq<Variable>) returns (m: Variable)
      requires list != []
      ensures m in list && forall u :: u in list ==>
        |Neighbors(crossword, u)| <= |Neighbors(crossword, m)|
    {
      m := list[0];
      for k := 1 to |list|
        invariant m in list
        invariant forall i :: 0 <= i < k ==>
          |Neighbors(crossword, list[i])| <= |Neighbors(crossword, m)|
      {
        if |Neighbors(crossword, list[k])| > |Neighbors(crossword, m)| {
          m := list[k];
        }
      }
    }

    /** `order_domain_values`: the words of `var`, each once, ordered by
        how many unassigned neighbours also hold that word. */
    method OrderDomainValues(v: Variable, assignment: Mapping) returns (values: seq<string>)
      requires Valid() && v in crossword.variables
      ensures multiset(values) == multiset(domains[v])
      ensures forall i, j :: 0 <= i < j < |values| ==>
        RuledOut(crossword, domains, v, values[i], assignment)
        <= RuledOut(crossword, domains, v, values[j], assignment)
    {
      var tempDict := RuledOutCounts(v, assignment);
      var tempList := ListKeys(tempDict);
      values := SortByKey(tempList, tempDict);
      forall i, j | 0 <= i < j < |values|
        ensures RuledOut(crossword, domains, v, values[i], assignment)
                <= RuledOut(crossword, domains, v, values[j], assignment)
      {
        assert values[i] in multiset(values) && values[j] in multiset(values);
      }
    }

    /** Each word of `v`'s domain, mapped to the number of unassigned
        neighbours it would rule out. */
    method RuledOutCounts(v: Variable, assignment: Mapping) returns (tempDict: map<string, nat>)
      requires Valid() && v in crossword.variables
      ensures tempDict.Keys == domains[v]
      ensures forall w :: w in tempDict ==> tempDict[w] == RuledOut(crossword, domains, v, w, assignment)
    {
      tempDict := map[];
      var scan := domains[v];
      while scan != {}
        invariant scan <= domains[v]
        invariant tempDict.Keys == domains[v] - scan
        invariant forall w :: w in tempDict ==> tempDict[w] == RuledOut(crossword, domains, v, w, assignment)
        decreases scan
      {
        var word :| word in scan;
        var numRuledOut := CountRuledOut(v, word, assignment);
        tempDict := tempDict[word := numRuledOut];
        scan := scan - {word};
      }
    }

    /** How many unassigned neighbours of `v` have `word` in their domain. */
    method CountRuledOut(v: Variable, word: string, assignment: Mapping) returns (numRuledOut: nat)
      requires Valid()
      ensures numRuledOut == RuledOut(crossword, domains, v, word, assignment)
    {
      numRuledOut := 0;
      var neighbors := Neighbors(crossword, v);
      ghost var seen: set<Variable> := {};
      while neighbors != {}
        invariant neighbors + seen == Neighbors(crossword, v) && neighbors !! seen
        invariant numRuledOut == |Holders(seen, domains, word, assignment)|
        decreases neighbors
      {
        var neighbor :| neighbor in neighbors;
        HoldersAdd(seen, neighbor, domains, word, assignment);
        if neighbor !in assignment {
          if word in domains[neighbor] {
            numRuledOut := numRuledOut + 1;
          }
        }
        seen, neighbors := seen + {neighbor}, neighbors - {neighbor};
      }
    }

    /** `backtrack`: extend the shared assignment one variable at a time,
        trying the words in least-constraining order and undoing each word
        that leads nowhere. A returned mapping is the assignment object's
        own contents; on failure the object is left as it was found. */
    method Backtrack(assignment: Assignment) returns (result: Option<Mapping>)
      requires Valid()
      requires assignment.entries.Keys <= crossword.variables
      requires Consistent(crossword, assignment.entries)
      requires DrawnFrom(assignment.entries, domains)
      modifies assignment
      decreases crossword.variables - assignment.entries.Keys, 1
      ensures result.Some? ==> result.value == assignment.entries
      ensures result.Some? ==> IsSolution(crossword, result.value)
      ensures result.Some? ==> DrawnFrom(result.value, domains)
      ensures result.Some? ==> Extends(result.value, old(assignment.entries))
      ensures result.None? ==> assignment.entries == old(assignment.entries)
      ensures result.None? ==> NoSolutionExtends(crossword, domains, old(assignment.entries))
    {
      if AssignmentComplete(crossword, assignment.entries) {
        CompleteAndConsistentIsSolution(crossword, assignment.entries);
        return Some(assignment.entries);
      }
      IncompleteLeavesVariable(crossword, assignment.entries);
      var variable := SelectUnassignedVariable(assignment.entries);
      var values := OrderDomainValues(variable, assignment.entries);
      result := TryValues(assignment, variable, values);
    }

    /** The loop of `backtrack` over the ordered words of `variable`: place
        each in turn, search on from every consistent placement, and take
        the word back out when the search fails. */
    method TryValues(assignment: Assignment, variable: Variable, values: seq<string>)
      returns (result: Option<Mapping>)
      requires Valid()
      requires assignment.entries.Keys <= crossword.variables
      requires Consistent(crossword, assignment.entries)
      requires DrawnFrom(assignment.entries, domains)
      requires variable in crossword.variables && variable !in assignment.entries
      requires multiset(values) == multiset(domains[variable])
      modifies assignment
      decreases crossword.variables - assignment.entries.Keys, 0
      ensures result.Some? ==> result.value == assignment.entries
      ensures result.Some? ==> IsSolution(crossword, result.value)
      ensures result.Some? ==> DrawnFrom(result.value, domains)
      ensures result.Some? ==> Extends(result.value, old(assignment.entries))
      ensures result.None? ==> assignment.entries == old(assignment.entries)
      ensures result.None? ==> NoSolutionExtends(crossword, domains, old(assignment.entries))
    {
      ghost var base := assignment.entries;
      for k := 0 to |values|
        invariant assignment.entries == base
        invariant NoSolutionTakes(crossword, domains, base, variable, values[..k])
      {
        var value := values[k];
        assert value in multiset(values);
        assignment.entries := assignment.entries[variable := value];
        if Consistent(crossword, assignment.entries) {
          DrawnFromAdd(base, domains, variable, value);
          result := Backtrack(assignment);
          if result.Some? {
            ExtendsRemove(result.value, base, variable, value);
            return result;
          }
        } else {
          InconsistentExtendsToNothing(crossword, domains, assignment.entries);
        }
        assignment.entries := assignment.entries - {variable};
        RemoveUndoesAdd(base, variable, value);
        NoSolutionTakesStep(crossword, domains, base, variable, values, k);
      }
      assert values[..|values|] == values;
      NoSolutionTakesAll(crossword, domains, base, variable, values);
      return None;
    }

    /** `solve`: prune the domains, then search from the empty assignment.
        The answer is a solution built from the original word lists, and
        there is none exactly when the search fails. */
    method Solve() returns (result: Option<Mapping>)
      requires Valid()
      modifies this
      ensures Valid()
      ensures NodeConsistent(domains) && Shrunk(old(domains), domains)
      ensures (forall v :: v in domains ==> domains[v] != {}) ==> AllArcsConsistent(crossword, domains)
      ensures result.Some? ==> IsSolution(crossword, result.value) && DrawnFrom(result.value, old(domains))
      ensures result.None? ==> forall s :: IsSolution(crossword, s) ==> !DrawnFrom(s, old(domains))
      ensures result.Some? ==> DrawnFrom(result.value, domains)
      ensures (exists v :: v in domains && domains[v] == {}) ==> result.None?
    {
      ghost var d0 := domains;
      EnforceNodeConsistency();
      NodeFilterSound(d0);
      NodeFilterKeepsSolutions(crossword, d0);
      ghost var d1 := domains;
      var _ := AC3(None);
      ShrunkTransitive(d0, d1, domains);
      var assignment := new Assignment();
      result := Backtrack(assignment);
      if result.Some? {
        assert DrawnFrom(result.value, d0);
      }
    }
  }
}
