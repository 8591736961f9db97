/** The constraint-satisfaction solver of csp/app.py: the consistency check,
    arc revision and the one-pass arc-consistency loop, value ordering,
    variable selection and backtracking search over the slots of a grid. */
module Csp {
  import opened Collections
  import opened Grid

  type Slot = GridCoordinate
  type Arc = (Slot, Slot)
  type Overlaps = map<Arc, Option<(nat, nat)>>
  type Assignment = map<Slot, string>
  type Domains = map<Slot, set<string>>

  /** What the solver relies on from the grid: well-formed slots and an
      overlap map with a valid entry for every ordered pair of distinct slots. */
  ghost predicate Topology(variables: set<Slot>, intersects: Overlaps)
  {
    (forall v :: v in variables ==> WellFormed(v)) && OverlapMap(variables, intersects)
  }

  /** The part of the overlap geometry the solver's own code relies on:
      the keys are exactly the ordered pairs of different slots, and each
      recorded overlap lies within both slots. */
  ghost predicate Shape(variables: set<Slot>, intersects: Overlaps)
  {
    && (forall a :: a in intersects ==> a.0 in variables && a.1 in variables && a.0 != a.1)
    && (forall v, u {:trigger (v, u) in intersects} :: v in variables && u in variables && v != u ==> (v, u) in intersects)
    && (forall a :: a in intersects && intersects[a].Some? ==>
          intersects[a].value.0 < a.0.length && intersects[a].value.1 < a.1.length)
  }

  lemma TopologyShape(variables: set<Slot>, intersects: Overlaps)
    requires Topology(variables, intersects)
    ensures Shape(variables, intersects)
  {
    forall a | a in intersects
      ensures a.0 in variables && a.1 in variables && a.0 != a.1
      ensures intersects[a].Some? ==> intersects[a].value.0 < a.0.length && intersects[a].value.1 < a.1.length
    {
      assert (a.0, a.1) in intersects;
      assert ValidEntry(a.0, a.1, intersects[(a.0, a.1)]);
    }
  }

  // ---------------------------------------------------------------------
  // Consistency of a partial assignment

  /** Every assigned word is as long as its slot. */
  predicate LengthsMatch(assignment: Assignment)
  {
    forall v :: v in assignment ==> v.length == |assignment[v]|
  }

  /** The two words hold the same letter at offsets `ix`. */
  predicate SameLetter(w1: string, w2: string, ix: (nat, nat))
  {
    ix.0 < |w1| && ix.1 < |w2| && w1[ix.0] == w2[ix.1]
  }

  /** Every pair of assigned slots that overlap agree on the shared cell. */
  ghost predicate OverlapsAgree(intersects: Overlaps, assignment: Assignment)
  {
    forall v, u :: v in assignment && u in assignment && (v, u) in intersects && intersects[(v, u)].Some? ==>
      SameLetter(assignment[v], assignment[u], intersects[(v, u)].value)
  }

  /** `is_consistent`: the values are distinct (compared by counting them),
      each word fits its slot, and assigned neighbours agree on their shared
      cell and differ as words. */
  function IsConsistent(variables: set<Slot>, intersects: Overlaps, assignment: Assignment): (r: bool)
    requires Shape(variables, intersects) && assignment.Keys <= variables
    ensures r ==> Injective(assignment)
    ensures r ==> LengthsMatch(assignment)
  {
    InjectiveIffDistinctCount(assignment);
    && |assignment| == |assignment.Values|
    && (forall v :: v in assignment ==> v.length == |assignment[v]|)
    && (forall v, u :: v in assignment && u in Neighbors(variables, intersects, v) && u in assignment ==>
          var ix := intersects[(v, u)].value;
          assignment[v][ix.0] == assignment[u][ix.1] && assignment[v] != assignment[u])
  }

  /** A consistent assignment is exactly one whose words are pairwise
      different, fit their slots and agree wherever two assigned slots
      overlap. */
  lemma IsConsistentMeans(variables: set<Slot>, intersects: Overlaps, assignment: Assignment)
    requires Shape(variables, intersects) && assignment.Keys <= variables
    ensures IsConsistent(variables, intersects, assignment) <==>
              Injective(assignment) && LengthsMatch(assignment) && OverlapsAgree(intersects, assignment)
  {
    InjectiveIffDistinctCount(assignment);
  }

  // ---------------------------------------------------------------------
  // Arc revision

  /** Two different words that hold the same letter at offsets (i, j). */
  predicate Compatible(w1: string, w2: string, i: nat, j: nat)
  {
    |w1| > i && |w2| > j && w1[i] == w2[j] && w1 != w2
  }

  /** Some word of `dy` is compatible with `w`. */
  predicate Supported(w: string, dy: set<string>, i: nat, j: nat)
  {
    exists w2 :: w2 in dy && Compatible(w, w2, i, j)
  }

  /** The domain of x after revising the arc (x, y). */
  function Revised(dx: set<string>, dy: set<string>, i: nat, j: nat): set<string>
  {
    set w | w in dx && Supported(w, dy, i, j)
  }

  /** The inner loop of `revise`: looks for a word of `dy` compatible with
      `w` and stops at the first one. */
  method FindSupport(w: string, dy: set<string>, i: nat, j: nat) returns (matched: bool)
    ensures matched <==> Supported(w, dy, i, j)
  {
    matched := false;
    var rest := dy;
    while rest != {}
      invariant rest <= dy
      invariant forall w2 :: w2 in dy && w2 !in rest ==> !Compatible(w, w2, i, j)
      decreases rest
    {
      var w2 :| w2 in rest;
      if Compatible(w, w2, i, j) {
        matched := true;
        return;
      }
      rest := rest - {w2};
    }
  }

  /** The arcs the overlap map records: ordered pairs of overlapping slots. */
  function ArcSet(intersects: Overlaps): set<Arc>
  {
    set a | a in intersects && intersects[a].Some?
  }

  /** Each arc of `arcs` is an overlapping pair of slots that have domains. */
  ghost predicate ArcsIn(intersects: Overlaps, keys: set<Slot>, arcs: seq<Arc>)
  {
    forall a :: a in arcs ==> a in intersects && intersects[a].Some? && a.0 in keys && a.1 in keys
  }

  /** The domains after revising one arc. */
  function ReviseArc(intersects: Overlaps, doms: Domains, arc: Arc): (r: Domains)
    requires arc in intersects && intersects[arc].Some? && arc.0 in doms && arc.1 in doms
    ensures r.Keys == doms.Keys
  {
    var ix := intersects[arc].value;
    doms[arc.0 := Revised(doms[arc.0], doms[arc.1], ix.0, ix.1)]
  }

  // ---------------------------------------------------------------------
  // The one-pass arc-consistency loop

  /** The domains after revising the first k arcs in order, without stopping. */
  ghost function Prefix(intersects: Overlaps, doms: Domains, arcs: seq<Arc>, k: nat): (r: Domains)
    requires ArcsIn(intersects, doms.Keys, arcs) && k <= |arcs|
    ensures r.Keys == doms.Keys
    decreases k
  {
    if k == 0 then doms
    else Prefix(intersects, ReviseArc(intersects, doms, arcs[0]), arcs[1..], k - 1)
  }

  /** Revising arcs[k], after the arcs before it, removes words from its
      first slot and leaves that slot with no word. */
  ghost predicate EmptiesAt(intersects: Overlaps, doms: Domains, arcs: seq<Arc>, k: nat)
    requires ArcsIn(intersects, doms.Keys, arcs) && k < |arcs|
  {
    var before := Prefix(intersects, doms, arcs, k);
    var after := ReviseArc(intersects, before, arcs[k]);
    after[arcs[k].0] != before[arcs[k].0] && after[arcs[k].0] == {}
  }

  /** `arc_consistency_ac3` on a given queue: revise each arc in turn, and
      stop with failure at the first revision that empties its slot. */
  ghost function Pass(intersects: Overlaps, doms: Domains, arcs: seq<Arc>): (bool, Domains)
    requires ArcsIn(intersects, doms.Keys, arcs)
    decreases |arcs|
  {
    if arcs == [] then (true, doms)
    else
      var next := ReviseArc(intersects, doms, arcs[0]);
      var x := arcs[0].0;
      if next[x] != doms[x] && next[x] == {} then (false, next)
      else Pass(intersects, next, arcs[1..])
  }

  lemma {:induction false} PrefixStep(intersects: Overlaps, doms: Domains, arcs: seq<Arc>, k: nat)
    requires ArcsIn(intersects, doms.Keys, arcs) && k < |arcs|
    ensures Prefix(intersects, doms, arcs, k + 1) == ReviseArc(intersects, Prefix(intersects, doms, arcs, k), arcs[k])
    decreases k
  {
    if k > 0 {
      var next := ReviseArc(intersects, doms, arcs[0]);
      PrefixStep(intersects, next, arcs[1..], k - 1);
    }
  }

  /** The pass never adds a word to any domain. */
  lemma {:induction false} PassShrinks(intersects: Overlaps, doms: Domains, arcs: seq<Arc>)
    requires ArcsIn(intersects, doms.Keys, arcs)
    ensures Pass(intersects, doms, arcs).1.Keys == doms.Keys
    ensures forall v :: v in doms ==> Pass(intersects, doms, arcs).1[v] <= doms[v]
    decreases |arcs|
  {
    if arcs != [] {
      var next := ReviseArc(intersects, doms, arcs[0]);
      var x := arcs[0].0;
      if !(next[x] != doms[x] && next[x] == {}) {
        PassShrinks(intersects, next, arcs[1..]);
      }
    }
  }

  /** No revision among the first `k` of `arcs` empties its slot. */
  ghost predicate NoneEmptiedBefore(intersects: Overlaps, doms: Domains, arcs: seq<Arc>, k: nat)
    requires ArcsIn(intersects, doms.Keys, arcs) && k <= |arcs|
  {
    forall t :: 0 <= t < k ==> !EmptiesAt(intersects, doms, arcs, t)
  }

  /** When no revision empties its slot, the pass succeeds after revising every arc. */
  lemma {:induction false} PassSucceeds(intersects: Overlaps, doms: Domains, arcs: seq<Arc>)
    requires ArcsIn(intersects, doms.Keys, arcs)
    requires NoneEmptiedBefore(intersects, doms, arcs, |arcs|)
    ensures Pass(intersects, doms, arcs) == (true, Prefix(intersects, doms, arcs, |arcs|))
    decreases |arcs|
  {
    if arcs != [] {
      var next := ReviseArc(intersects, doms, arcs[0]);
      assert !EmptiesAt(intersects, doms, arcs, 0);
      forall k | 0 <= k < |arcs| - 1 ensures !EmptiesAt(intersects, next, arcs[1..], k) {
        assert !EmptiesAt(intersects, doms, arcs, k + 1);
      }
      PassSucceeds(intersects, next, arcs[1..]);
    }
  }

  /** The pass fails at the first revision that empties its slot, with the
      domains as they are right after that revision. */
  lemma {:induction false} PassFailsAtFirstEmptying(intersects: Overlaps, doms: Domains, arcs: seq<Arc>, k: nat)
    requires ArcsIn(intersects, doms.Keys, arcs) && k < |arcs|
    requires EmptiesAt(intersects, doms, arcs, k)
    requires NoneEmptiedBefore(intersects, doms, arcs, k)
    ensures Pass(intersects, doms, arcs) == (false, Prefix(intersects, doms, arcs, k + 1))
    decreases k
  {
    var next := ReviseArc(intersects, doms, arcs[0]);
    if k > 0 {
      assert !EmptiesAt(intersects, doms, arcs, 0);
      forall t | 0 <= t < k - 1 ensures !EmptiesAt(intersects, next, arcs[1..], t) {
        assert !EmptiesAt(intersects, doms, arcs, t + 1);
      }
      PassFailsAtFirstEmptying(intersects, next, arcs[1..], k - 1);
    }
  }

  /** One revision of the pass: after the first `k` revisions emptied no
      slot, revision `k` either ends the pass with failure or extends the
      run of non-emptying revisions. */
  lemma PassAt(intersects: Overlaps, doms: Domains, arcs: seq<Arc>, k: nat)
    requires ArcsIn(intersects, doms.Keys, arcs) && k < |arcs|
    requires NoneEmptiedBefore(intersects, doms, arcs, k)
    ensures Prefix(intersects, doms, arcs, k + 1) == ReviseArc(intersects, Prefix(intersects, doms, arcs, k), arcs[k])
    ensures var before, after := Prefix(intersects, doms, arcs, k), Prefix(intersects, doms, arcs, k + 1);
            if after[arcs[k].0] != before[arcs[k].0] && after[arcs[k].0] == {}
            then Pass(intersects, doms, arcs) == (false, after)
            else NoneEmptiedBefore(intersects, doms, arcs, k + 1)
  {
    PrefixStep(intersects, doms, arcs, k);
    if EmptiesAt(intersects, doms, arcs, k) {
      PassFailsAtFirstEmptying(intersects, doms, arcs, k);
    }
  }

  /** The pass reports failure exactly when some revision empties its slot. */
  lemma PassFailsIff(intersects: Overlaps, doms: Domains, arcs: seq<Arc>)
    requires ArcsIn(intersects, doms.Keys, arcs)
    ensures !Pass(intersects, doms, arcs).0 <==> exists k :: 0 <= k < |arcs| && EmptiesAt(intersects, doms, arcs, k)
  {
    if exists k :: 0 <= k < |arcs| && EmptiesAt(intersects, doms, arcs, k) {
      var k :| 0 <= k < |arcs| && EmptiesAt(intersects, doms, arcs, k);
      while exists t :: 0 <= t < k && EmptiesAt(intersects, doms, arcs, t)
        invariant 0 <= k < |arcs| && EmptiesAt(intersects, doms, arcs, k)
        decreases k
      {
        var t :| 0 <= t < k && EmptiesAt(intersects, doms, arcs, t);
        k := t;
      }
      PassFailsAtFirstEmptying(intersects, doms, arcs, k);
    } else {
      PassSucceeds(intersects, doms, arcs);
    }
  }

  // ---------------------------------------------------------------------
  // Value ordering

  /** The inner loop of `order_domain_values` for one neighbour: count the
      words of its domain, in iteration order, that disagree with `w1` at
      the shared cell, and stop at the first pair too short to reach it. */
  function ConflictCount(w1: string, ws: seq<string>, i: nat, j: nat): (r: nat)
    ensures r <= |ws|
  {
    if ws == [] then 0
    else if |w1| > i && |ws[0]| > j then
      (if w1[i] != ws[0][j] then 1 else 0) + ConflictCount(w1, ws[1..], i, j)
    else 0
  }

  /** The words of `ws` that disagree with `w1` at offsets (i, j), by position. */
  function MismatchPositions(w1: string, ws: seq<string>, i: nat, j: nat): set<int>
    requires |w1| > i && forall w2 :: w2 in ws ==> |w2| > j
  {
    set k | 0 <= k < |ws| && w1[i] != ws[k][j]
  }

  /** When every word reaches the shared cell, the count is the number of
      words that disagree there. */
  lemma {:induction false} ConflictCountAllFit(w1: string, ws: seq<string>, i: nat, j: nat)
    requires |w1| > i && forall w2 :: w2 in ws ==> |w2| > j
    ensures ConflictCount(w1, ws, i, j) == |MismatchPositions(w1, ws, i, j)|
    decreases |ws|
  {
    if ws != [] {
      var tail := MismatchPositions(w1, ws[1..], i, j);
      ConflictCountAllFit(w1, ws[1..], i, j);
      ShiftedCardinality(tail);
      var all := MismatchPositions(w1, ws, i, j);
      forall k ensures k in all <==> (k == 0 && w1[i] != ws[0][j]) || k in Shifted(tail) {
        if 1 <= k < |ws| {
          assert ws[1..][k - 1] == ws[k];
          assert k in Shifted(tail) <==> k - 1 in tail;
        }
      }
      if w1[i] != ws[0][j] {
        assert all == {0} + Shifted(tail);
      } else {
        assert all == Shifted(tail);
      }
    }
  }

  /** A word too short for the shared cell ends the count: the words after it are never looked at. */
  lemma {:induction false} ConflictCountStopsAtShortWord(w1: string, ws: seq<string>, i: nat, j: nat, t: nat)
    requires t < |ws| && |ws[t]| <= j
    ensures ConflictCount(w1, ws, i, j) == ConflictCount(w1, ws[..t], i, j)
    decreases t
  {
    if t > 0 && |w1| > i && |ws[0]| > j {
      ConflictCountStopsAtShortWord(w1, ws[1..], i, j, t - 1);
      assert ws[..t][1..] == ws[1..][..t - 1];
    }
  }

  /** The least-constraining-value score of `w1` for slot `v`: the conflicts
      it has with every unassigned neighbour, visited in `slots` order. */
  function Heuristic(intersects: Overlaps, wordOrder: map<Slot, seq<string>>, assignment: Assignment,
                     v: Slot, w1: string, slots: seq<Slot>): nat
    requires forall u :: u in slots && u != v ==> (v, u) in intersects && u in wordOrder
  {
    if slots == [] then 0
    else
      var u := slots[0];
      var here := if u != v && u !in assignment && intersects[(v, u)].Some?
                  then ConflictCount(w1, wordOrder[u], intersects[(v, u)].value.0, intersects[(v, u)].value.1)
                  else 0;
      here + Heuristic(intersects, wordOrder, assignment, v, w1, slots[1..])
  }

  /** Keys never decrease along `s`. */
  predicate SortedByKey(s: seq<string>, key: map<string, nat>)
  {
    forall a, b :: 0 <= a < b < |s| && s[a] in key && s[b] in key ==> key[s[a]] <= key[s[b]]
  }

  /** Puts `x` before the first element whose key is not smaller. */
  function InsertByKey(x: string, s: seq<string>, key: map<string, nat>): (r: seq<string>)
    ensures multiset(r) == multiset(s) + multiset{x}
  {
    if s == [] then [x]
    else if x in key && s[0] in key && key[x] <= key[s[0]] then [x] + s
    else
      assert s == [s[0]] + s[1..];
      [s[0]] + InsertByKey(x, s[1..], key)
  }

  lemma SortedTail(s: seq<string>, key: map<string, nat>)
    requires s != [] && SortedByKey(s, key)
    ensures SortedByKey(s[1..], key)
  {
    forall a, b | 0 <= a < b < |s| - 1 && s[1..][a] in key && s[1..][b] in key
      ensures key[s[1..][a]] <= key[s[1..][b]]
    {
      assert s[1..][a] == s[a + 1] && s[1..][b] == s[b + 1];
    }
  }

  lemma HeadIsLeast(s: seq<string>, key: map<string, nat>)
    requires s != [] && SortedByKey(s, key) && forall y :: y in s ==> y in key
    ensures forall z :: z in s ==> key[s[0]] <= key[z]
  {
    forall z | z in s ensures key[s[0]] <= key[z] {
      var c :| 0 <= c < |s| && s[c] == z;
      if c > 0 { assert s[0] in key && s[c] in key; }
    }
  }

  lemma SortedCons(y: string, rest: seq<string>, key: map<string, nat>)
    requires y in key && SortedByKey(rest, key)
    requires forall z :: z in rest && z in key ==> key[y] <= key[z]
    ensures SortedByKey([y] + rest, key)
  {
    var r := [y] + rest;
    forall a, b | 0 <= a < b < |r| && r[a] in key && r[b] in key ensures key[r[a]] <= key[r[b]] {
      assert r[b] == rest[b - 1] && r[b] in rest;
      if a > 0 { assert r[a] == rest[a - 1]; }
    }
  }

  lemma {:induction false} InsertKeepsSorted(x: string, s: seq<string>, key: map<string, nat>)
    requires x in key && (forall y :: y in s ==> y in key) && SortedByKey(s, key)
    ensures SortedByKey(InsertByKey(x, s, key), key)
    decreases |s|
  {
    if s == [] {
    } else if key[x] <= key[s[0]] {
      HeadIsLeast(s, key);
      SortedCons(x, s, key);
    } else {
      HeadIsLeast(s, key);
      SortedTail(s, key);
      var rest := InsertByKey(x, s[1..], key);
      InsertKeepsSorted(x, s[1..], key);
      forall z | z in rest ensures z in key && key[s[0]] <= key[z] {
        assert z in multiset(rest);
        if z != x {
          assert z in multiset(s[1..]);
          assert z in s;
        }
      }
      SortedCons(s[0], rest, key);
    }
  }

  /** Python's `sorted(keys, key=...)`: a stable sort by a key. */
  function SortByKey(s: seq<string>, key: map<string, nat>): (r: seq<string>)
    requires forall y :: y in s ==> y in key
    ensures multiset(r) == multiset(s)
    ensures SortedByKey(r, key)
  {
    if s == [] then []
    else
      var rest := SortByKey(s[1..], key);
      assert s == [s[0]] + s[1..];
      assert forall y :: y in rest ==> y in key by {
        forall y | y in rest ensures y in key {
          assert y in multiset(rest);
        }
      }
      InsertKeepsSorted(s[0], rest, key);
      InsertByKey(s[0], rest, key)
  }

  /** `order_domain_values`: the domain of `v`, in its iteration order
      `wordOrder[v]`, stably sorted by the least-constraining-value score. */
  function OrderDomainValues(intersects: Overlaps, domains: Domains, assignment: Assignment, v: Slot,
                             slots: seq<Slot>, wordOrder: map<Slot, seq<string>>): (r: seq<string>)
    requires v in domains && v in wordOrder && IsEnumeration(wordOrder[v], domains[v])
    requires forall u :: u in slots && u != v ==> (v, u) in intersects && u in wordOrder
    ensures multiset(r) == multiset(domains[v])
    ensures forall a, b :: 0 <= a < b < |r| ==>
              Heuristic(intersects, wordOrder, assignment, v, r[a], slots) <= Heuristic(intersects, wordOrder, assignment, v, r[b], slots)
  {
    EnumerationMembers(wordOrder[v], domains[v]);
    var score := map w | w in domains[v] :: Heuristic(intersects, wordOrder, assignment, v, w, slots);
    var r := SortByKey(wordOrder[v], score);
    assert forall y :: y in r ==> y in domains[v] by {
      forall y | y in r ensures y in domains[v] { assert y in multiset(r); }
    }
    r
  }

  // ---------------------------------------------------------------------
  // Variable selection

  /** The slot at position k of the visiting order has a domain no larger
      than that of any unassigned slot visited before it. */
  ghost predicate PrefixMinimal(domains: Domains, assignment: Assignment, order: seq<Slot>, k: nat)
    requires k < |order|
  {
    forall t :: 0 <= t < k && order[t] !in assignment && order[t] in domains && order[k] in domains ==>
      |domains[order[k]]| <= |domains[order[t]]|
  }

  /** The running minimum of the first loop of `select_unassigned_variable`
      after visiting the first t slots of `order`, starting from `init`. */
  function RunMin(domains: Domains, assignment: Assignment, order: seq<Slot>, t: nat, init: nat): nat
    requires t <= |order| && forall k :: 0 <= k < |order| ==> order[k] in domains
  {
    if t == 0 then init
    else
      var m := RunMin(domains, assignment, order, t - 1, init);
      var w := order[t - 1];
      if w !in assignment && |domains[w]| <= m then |domains[w]| else m
  }

  /** The slots that loop has collected after visiting the first t slots. */
  function FewestUpTo(domains: Domains, assignment: Assignment, order: seq<Slot>, t: nat, init: nat): set<Slot>
    requires t <= |order| && forall k :: 0 <= k < |order| ==> order[k] in domains
  {
    if t == 0 then {}
    else
      var w := order[t - 1];
      FewestUpTo(domains, assignment, order, t - 1, init)
        + (if w !in assignment && |domains[w]| <= RunMin(domains, assignment, order, t - 1, init) then {w} else {})
  }

  /** The running minimum is a lower bound of every unassigned domain
      visited, strictly below every one not collected, and it is `init` or
      the size of a collected slot's domain. */
  lemma {:induction false} RunMinFacts(domains: Domains, assignment: Assignment, order: seq<Slot>, t: nat, init: nat)
    requires t <= |order| && forall k :: 0 <= k < |order| ==> order[k] in domains
    ensures var m := RunMin(domains, assignment, order, t, init);
            var f := FewestUpTo(domains, assignment, order, t, init);
            && (forall k :: 0 <= k < t && order[k] !in assignment ==> m <= |domains[order[k]]|)
            && (forall k :: 0 <= k < t && order[k] !in assignment && order[k] !in f ==> m < |domains[order[k]]|)
            && (f == {} ==> m == init)
            && (f != {} ==> exists k :: 0 <= k < t && order[k] in f && order[k] !in assignment && m == |domains[order[k]]|)
  {
    if t > 0 {
      RunMinFacts(domains, assignment, order, t - 1, init);
      var w := order[t - 1];
      var m := RunMin(domains, assignment, order, t - 1, init);
      if w !in assignment && |domains[w]| <= m {
        assert order[t - 1] in FewestUpTo(domains, assignment, order, t, init);
      }
    }
  }

  /** Every collected slot is among the first t visited. */
  lemma {:induction false} FewestVisited(domains: Domains, assignment: Assignment, order: seq<Slot>, t: nat, init: nat)
    requires t <= |order| && forall k :: 0 <= k < |order| ==> order[k] in domains
    ensures forall u :: u in FewestUpTo(domains, assignment, order, t, init) ==> exists k :: 0 <= k < t && order[k] == u
  {
    if t > 0 {
      FewestVisited(domains, assignment, order, t - 1, init);
    }
  }

  /** The slot visited at position t is collected exactly when it is
      unassigned and prefix-minimal there. */
  lemma CollectedAtVisit(domains: Domains, assignment: Assignment, order: seq<Slot>, t: nat, init: nat)
    requires t < |order| && forall k :: 0 <= k < |order| ==> order[k] in domains
    requires forall u :: u in domains ==> |domains[u]| <= init
    requires order[t] !in assignment
    ensures PrefixMinimal(domains, assignment, order, t) <==>
              |domains[order[t]]| <= RunMin(domains, assignment, order, t, init)
  {
    RunMinFacts(domains, assignment, order, t, init);
    var f := FewestUpTo(domains, assignment, order, t, init);
    if f != {} {
      var k :| 0 <= k < t && order[k] in f && order[k] !in assignment && RunMin(domains, assignment, order, t, init) == |domains[order[k]]|;
    }
  }

  /** With no domain larger than `init`, the slot visited at position k is
      collected (by any later point t) exactly when it is unassigned and
      prefix-minimal. */
  lemma {:induction false} FewestAt(domains: Domains, assignment: Assignment, order: seq<Slot>, t: nat, init: nat, k: nat)
    requires t <= |order| && forall j :: 0 <= j < |order| ==> order[j] in domains
    requires Distinct(order)
    requires forall u :: u in domains ==> |domains[u]| <= init
    requires k < t
    ensures order[k] in FewestUpTo(domains, assignment, order, t, init) <==>
              order[k] !in assignment && PrefixMinimal(domains, assignment, order, k)
    decreases t
  {
    var w := order[t - 1];
    var f := FewestUpTo(domains, assignment, order, t - 1, init);
    if k == t - 1 {
      FewestVisited(domains, assignment, order, t - 1, init);
      forall j | 0 <= j < t - 1 ensures order[j] != w { }
      assert w !in f;
      if w !in assignment {
        CollectedAtVisit(domains, assignment, order, t - 1, init);
      }
    } else {
      assert order[k] != w;
      FewestAt(domains, assignment, order, t - 1, init, k);
    }
  }

  /** What the first loop leaves behind, when no domain is larger than
      `init` and `order` visits every slot once: the collected slots are
      the unassigned prefix-minimal ones; there is one when some slot is
      unassigned; and a lone collected slot has the strictly smallest domain. */
  lemma FewestFacts(domains: Domains, assignment: Assignment, order: seq<Slot>, init: nat)
    requires forall k :: 0 <= k < |order| ==> order[k] in domains
    requires forall u :: u in domains ==> u in order && |domains[u]| <= init
    requires Distinct(order)
    ensures var f := FewestUpTo(domains, assignment, order, |order|, init);
            && Collected(domains, assignment, order, f)
            && (forall u :: u in f ==> u in domains && u !in assignment)
            && ((exists u :: u in domains && u !in assignment) ==> f != {})
            && (forall x :: f == {x} ==> StrictlySmallest(domains, assignment, x))
  {
    var f := FewestUpTo(domains, assignment, order, |order|, init);
    var m := RunMin(domains, assignment, order, |order|, init);
    forall k | 0 <= k < |order|
      ensures order[k] in f <==> order[k] !in assignment && PrefixMinimal(domains, assignment, order, k)
    {
      FewestAt(domains, assignment, order, |order|, init, k);
    }
    FewestVisited(domains, assignment, order, |order|, init);
    RunMinFacts(domains, assignment, order, |order|, init);
    if exists u :: u in domains && u !in assignment {
      var u :| u in domains && u !in assignment;
      var k :| 0 <= k < |order| && order[k] == u;
    }
    forall x | f == {x} ensures StrictlySmallest(domains, assignment, x) {
      forall u | u in domains && u !in assignment && u != x ensures |domains[x]| < |domains[u]| {
        var k :| 0 <= k < |order| && order[k] == u;
      }
    }
  }

  /** `after` keeps every entry of `before` and may hold more. */
  ghost predicate Extends(after: Assignment, before: Assignment)
  {
    before.Keys <= after.Keys && forall s :: s in before ==> after[s] == before[s]
  }

  lemma ExtendsTrans(a: Assignment, b: Assignment, c: Assignment)
    requires Extends(b, a) && Extends(c, b)
    ensures Extends(c, a)
  {
  }

  /** An assignment inside `variables` that extends `assignment` by a slot
      it lacked leaves fewer slots to fill. */
  lemma ExtensionShrinksMeasure(variables: set<Slot>, assignment: Assignment, v: Slot, next: Assignment)
    requires next.Keys <= variables && Extends(next, assignment)
    requires v in next && v !in assignment
    ensures |variables| - |next| < |variables| - |assignment|
    ensures 0 <= |variables| - |next|
  {
    SubsetCardinality(assignment.Keys + {v}, next.Keys);
    SubsetCardinality(next.Keys, variables);
  }

  /** `collected` holds exactly the slots of `visit` that are unassigned
      and prefix-minimal at their position. */
  ghost predicate Collected(domains: Domains, assignment: Assignment, visit: seq<Slot>, collected: set<Slot>)
  {
    forall t :: 0 <= t < |visit| ==>
      (visit[t] in collected <==> visit[t] !in assignment && PrefixMinimal(domains, assignment, visit, t))
  }

  /** Every other unassigned slot has a strictly larger domain than `v`. */
  ghost predicate StrictlySmallest(domains: Domains, assignment: Assignment, v: Slot)
  {
    v in domains && forall u :: u in domains && u !in assignment && u != v ==> |domains[v]| < |domains[u]|
  }

  // ---------------------------------------------------------------------
  // The solver object

  /** `CSP`: the grid's slots, overlap map and words, and one domain per slot. */
  class CSP {
    const variables: set<Slot>
    const intersects: Overlaps
    const words: set<string>
    var domains: Domains

    /** The domains cover exactly the slots and hold only words; every arc
        joins two different slots and every pair of slots has an entry. */
    ghost predicate Valid()
      reads this
    {
      && Shape(variables, intersects)
      && domains.Keys == variables
      && forall v :: v in domains ==> domains[v] <= words
    }

    /** `CSP.__init__`: every slot's domain starts as a copy of the whole word set. */
    constructor (g: CrosswordGrid)
      requires Topology(g.variables, g.intersects)
      ensures Valid()
      ensures variables == g.variables && intersects == g.intersects && words == g.words
      ensures forall v :: v in variables ==> domains[v] == words
    {
      var initial: Domains := map[];
      var rest := g.variables;
      while rest != {}
        invariant rest <= g.variables
        invariant initial.Keys == g.variables - rest
        invariant forall v :: v in initial ==> initial[v] == g.words
        decreases rest
      {
        var v :| v in rest;
        initial := initial[v := g.words];
        rest := rest - {v};
      }
      TopologyShape(g.variables, g.intersects);
      variables := g.variables;
      intersects := g.intersects;
      words := g.words;
      domains := initial;
    }

    /** `revise(x, y)`: removes from x's domain every word that no word of
        y's domain supports, and reports whether it removed any. */
    method Revise(x: Slot, y: Slot) returns (revised: bool)
      requires Valid() && (x, y) in intersects && intersects[(x, y)].Some?
      modifies this
      ensures Valid()
      ensures domains == ReviseArc(intersects, old(domains), (x, y))
      ensures revised <==> domains[x] != old(domains)[x]
    {
      var ix := intersects[(x, y)].value;
      var i, j := ix.0, ix.1;
      ghost var dx, dy := domains[x], domains[y];
      assert x != y && x in domains && y in domains;
      revised := false;
      var toVisit := domains[x];
      while toVisit != {}
        invariant toVisit <= dx
        invariant x in domains && domains == old(domains)[x := domains[x]]
        invariant forall w :: w in domains[x] <==> w in dx && (w in toVisit || Supported(w, dy, i, j))
        invariant revised <==> domains[x] != dx
        decreases toVisit
      {
        var w :| w in toVisit;
        var matched := FindSupport(w, domains[y], i, j);
        if !matched {
          domains := domains[x := domains[x] - {w}];
          revised := true;
        }
        toVisit := toVisit - {w};
      }
      assert domains[x] == Revised(dx, dy, i, j);
    }

    /** `get_all_arcs_csp`: every recorded overlap, in the map's iteration order. */
    method GetAllArcs() returns (arcs: seq<Arc>)
      ensures IsEnumeration(arcs, ArcSet(intersects))
    {
      arcs := [];
      var rest := intersects.Keys;
      while rest != {}
        invariant rest <= intersects.Keys
        invariant multiset(arcs) == multiset(ArcSet(intersects) - rest)
        decreases rest
      {
        var a :| a in rest;
        if intersects[a].Some? {
          assert ArcSet(intersects) - (rest - {a}) == (ArcSet(intersects) - rest) + {a};
          arcs := arcs + [a];
        } else {
          assert ArcSet(intersects) - (rest - {a}) == ArcSet(intersects) - rest;
        }
        rest := rest - {a};
      }
    }

    /** The `while not arcs` loop of `arc_consistency_ac3`: an empty queue
        is replaced by all arcs (and would be replaced forever if there were
        none); a given queue is kept. */
    method InitialQueue(arcs: seq<Arc>) returns (queue: seq<Arc>)
      requires Valid() && ArcsIn(intersects, variables, arcs)
      requires arcs != [] || ArcSet(intersects) != {}
      ensures if arcs != [] then queue == arcs else IsEnumeration(queue, ArcSet(intersects))
      ensures ArcsIn(intersects, variables, queue)
    {
      queue := arcs;
      while queue == []
        invariant arcs != [] ==> queue == arcs
        invariant queue != [] ==> queue == arcs || IsEnumeration(queue, ArcSet(intersects))
        decreases if queue == [] then 1 else 0
      {
        queue := GetAllArcs();
        EnumerationMembers(queue, ArcSet(intersects));
      }
      if queue != arcs {
        EnumerationMembers(queue, ArcSet(intersects));
      }
    }

    /** The `for` loop of `arc_consistency_ac3`: each arc of the queue is
        revised once, in order; the first revision that empties its slot
        ends the loop with failure. */
    method ReviseQueue(queue: seq<Arc>) returns (ok: bool)
      requires Valid() && ArcsIn(intersects, variables, queue)
      modifies this
      ensures Valid()
      ensures Pass(intersects, old(domains), queue) == (ok, domains)
      ensures !ok ==> exists v :: v in domains && domains[v] == {}
    {
      ghost var start := domains;
      var k := 0;
      while k < |queue|
        invariant 0 <= k <= |queue|
        invariant Valid()
        invariant domains == Prefix(intersects, start, queue, k)
        invariant NoneEmptiedBefore(intersects, start, queue, k)
      {
        var x, y := queue[k].0, queue[k].1;
        PassAt(intersects, start, queue, k);
        var revised := Revise(x, y);
        if revised && |domains[x]| == 0 {
          return false;
        }
        k := k + 1;
      }
      PassSucceeds(intersects, start, queue);
      return true;
    }

    /** `arc_consistency_ac3(arcs)`: the queue is the given arcs, or every
        arc when none are given, and one pass revises it. */
    method ArcConsistencyAc3(arcs: seq<Arc>) returns (ok: bool)
      requires Valid() && ArcsIn(intersects, variables, arcs)
      requires arcs != [] || ArcSet(intersects) != {}
      modifies this
      ensures Valid()
      ensures exists queue :: && (if arcs != [] then queue == arcs else IsEnumeration(queue, ArcSet(intersects)))
                              && ArcsIn(intersects, old(domains).Keys, queue)
                              && Pass(intersects, old(domains), queue) == (ok, domains)
      ensures forall v :: v in domains ==> domains[v] <= old(domains)[v]
      ensures !ok ==> exists v :: v in domains && domains[v] == {}
    {
      var queue := InitialQueue(arcs);
      PassShrinks(intersects, domains, queue);
      ok := ReviseQueue(queue);
    }

    /** The first loop of `select_unassigned_variable`: the slots are
        visited in the order `order`, and each unassigned slot whose domain
        is no larger than the running minimum is collected. The running
        minimum starts at the number of words, and the collected set is never
        cleared when a smaller domain turns up, so a slot is collected exactly
        when its domain is no larger than every unassigned domain visited
        before it. A lone collected slot has the strictly smallest domain. */
    method CollectFewest(assignment: Assignment) returns (order: seq<Slot>, fewest: set<Slot>)
      requires Valid() && assignment.Keys <= variables
      requires exists u :: u in variables && u !in assignment
      ensures IsEnumeration(order, variables)
      ensures fewest <= variables && fewest !! assignment.Keys && fewest != {}
      ensures Collected(domains, assignment, order, fewest)
      ensures forall x :: fewest == {x} ==> StrictlySmallest(domains, assignment, x)
    {
      order := Enumerate(variables);
      EnumerationMembers(order, variables);
      fewest := {};
      var mostConstrained := |words|;
      for t := 0 to |order|
        invariant fewest == FewestUpTo(domains, assignment, order, t, |words|)
        invariant mostConstrained == RunMin(domains, assignment, order, t, |words|)
      {
        var w := order[t];
        if w !in assignment {
          if |domains[w]| <= mostConstrained {
            fewest := fewest + {w};
            mostConstrained := |domains[w]|;
          } else if |domains[w]| == mostConstrained {
            fewest := fewest + {w};
          }
        }
      }
      forall u | u in domains ensures |domains[u]| <= |words| {
        SubsetCardinality(domains[u], words);
      }
      EnumerationDistinct(order, variables);
      FewestFacts(domains, assignment, order, |words|);
    }

    /** `select_unassigned_variable`: after `CollectFewest`, a lone collected
        slot is returned. Otherwise the degree pass collects, among the
        collected slots, each one with at least as many neighbours as every
        one visited before it, and one of those is popped. */
    method SelectUnassignedVariable(assignment: Assignment) returns (v: Slot, ghost visit: seq<Slot>, ghost collected: set<Slot>)
      requires Valid() && assignment.Keys <= variables
      requires exists u :: u in variables && u !in assignment
      ensures v in variables && v !in assignment
      ensures IsEnumeration(visit, variables)
      ensures collected <= variables && Collected(domains, assignment, visit, collected)
      ensures v in collected
      ensures |collected| == 1 ==> StrictlySmallest(domains, assignment, v)
    {
      var fewest;
      visit, fewest := CollectFewest(assignment);
      collected := fewest;

      var mostNeighbors := 0;
      var mostConstraining: set<Slot> := {};
      var toVisit := fewest;
      while toVisit != {}
        invariant toVisit <= fewest && mostConstraining <= fewest
        invariant mostConstraining == {} ==> toVisit == fewest && mostNeighbors == 0
        decreases toVisit
      {
        var w :| w in toVisit;
        var currentNeighbors := |Neighbors(variables, intersects, w)|;
        if currentNeighbors > mostNeighbors {
          mostConstraining := mostConstraining + {w};
          mostNeighbors := currentNeighbors;
        } else if currentNeighbors == mostNeighbors {
          mostConstraining := mostConstraining + {w};
        }
        toVisit := toVisit - {w};
      }

      if |fewest| == 1 {
        v :| v in fewest;
        assert fewest == {v} by {
          forall u | u in fewest ensures u == v {
            if u != v {
              assert {u, v} <= fewest;
              SubsetCardinality({u, v}, fewest);
            }
          }
        }
      } else {
        v :| v in mostConstraining;
      }
    }

    /** One iteration order for every domain (each `for word2 in
        self.domains[variable]` loop). */
    method EnumerateDomains() returns (orders: map<Slot, seq<string>>)
      requires Valid()
      ensures orders.Keys == variables
      ensures forall u :: u in orders ==> IsEnumeration(orders[u], domains[u])
    {
      orders := map[];
      var rest := variables;
      while rest != {}
        invariant rest <= variables
        invariant orders.Keys == variables - rest
        invariant forall u :: u in orders ==> IsEnumeration(orders[u], domains[u])
        decreases rest
      {
        var u :| u in rest;
        var order := Enumerate(domains[u]);
        orders := orders[u := order];
        rest := rest - {u};
      }
    }

    /** `order_domain_values(var, assignment)`: the slots and each domain
        are iterated in the orders this call happens to use. */
    method OrderDomainValuesOf(v: Slot, assignment: Assignment) returns (domain: seq<string>)
      requires Valid() && v in variables
      ensures multiset(domain) == multiset(domains[v])
      ensures exists slots: seq<Slot>, wordOrder: map<Slot, seq<string>> ::
                && IsEnumeration(slots, variables) && (forall u :: u in slots ==> u in variables)
                && wordOrder.Keys == variables && (forall u :: u in wordOrder ==> IsEnumeration(wordOrder[u], domains[u]))
                && domain == OrderDomainValues(intersects, domains, assignment, v, slots, wordOrder)
    {
      var slots := Enumerate(variables);
      EnumerationMembers(slots, variables);
      var wordOrder := EnumerateDomains();
      domain := OrderDomainValues(intersects, domains, assignment, v, slots, wordOrder);
    }

    /** `backtracking_search(assignment)`. The assignment is one dictionary
        shared by every level: `after` is its content when the call returns,
        including the entries a failed branch left behind. `calls` is the
        `RECURSIVE_CALLS` counter before the call, `callsAfter` after it. */
    method BacktrackingSearch(assignment: Assignment, calls: nat)
      returns (solution: Option<Assignment>, after: Assignment, callsAfter: nat)
      requires Valid() && assignment.Keys <= variables
      requires IsConsistent(variables, intersects, assignment)
      ensures Extends(after, assignment) && after.Keys <= variables
      ensures callsAfter >= calls
      ensures solution.Some? ==> solution.value == after && after.Keys == variables
      ensures solution.Some? ==> IsConsistent(variables, intersects, after)
      ensures solution.Some? && assignment.Keys != variables ==> callsAfter > calls
      decreases |variables| - |assignment|
    {
      SubsetCardinality(assignment.Keys, variables);
      if |assignment| == |variables| {
        return Some(assignment), assignment, calls;
      }
      ProperSubsetMisses(assignment.Keys, variables);
      var v, visit, collected := SelectUnassignedVariable(assignment);
      var domain := OrderDomainValuesOf(v, assignment);

      solution := None;
      after := assignment;
      callsAfter := calls;
      var k := 0;
      while k < |domain|
        invariant 0 <= k <= |domain|
        invariant Extends(after, assignment) && after.Keys <= variables
        invariant callsAfter >= calls
        invariant solution.None?
      {
        after := after[v := domain[k]];
        if IsConsistent(variables, intersects, after) {
          callsAfter := callsAfter + 1;
          ghost var before := after;
          ExtensionShrinksMeasure(variables, assignment, v, before);
          solution, after, callsAfter := BacktrackingSearch(after, callsAfter);
          ExtendsTrans(assignment, before, after);
        }
        if solution.Some? {
          return;
        }
        k := k + 1;
      }
    }

    /** `backtracking_search()` as the program starts it: a fresh empty
        assignment and the counter at zero. */
    method Solve() returns (solution: Option<Assignment>, calls: nat)
      requires Valid()
      ensures solution.Some? ==> solution.value.Keys == variables
      ensures solution.Some? ==> Injective(solution.value) && LengthsMatch(solution.value)
                                 && OverlapsAgree(intersects, solution.value)
    {
      var after;
      solution, after, calls := BacktrackingSearch(map[], 0);
      if solution.Some? {
        IsConsistentMeans(variables, intersects, solution.value);
      }
    }
  }
}
