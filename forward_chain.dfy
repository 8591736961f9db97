/** Propositional forward chaining over a knowledge base of text lines, as
    forward-chaining/forward_chain.py does it: facts are two-character
    lines, rules are lines of the form "<premise> THEN <conclusion>", and
    symbols are the `p<digits>` tokens found in the text. */
module ForwardChain {
  import Collections

  // ---------------------------------------------------------------------
  // Scanning for `p[0-9]+` tokens

  predicate IsDigit(c: char)
  {
    '0' <= c <= '9'
  }

  /** A `p` followed by one or more digits. */
  predicate IsSymbol(s: string)
  {
    |s| >= 2 && s[0] == 'p' && forall k :: 1 <= k < |s| ==> IsDigit(s[k])
  }

  /** The length of the run of digits that starts `s`. */
  function DigitRun(s: string): (n: nat)
    ensures n <= |s|
    ensures forall k :: 0 <= k < n ==> IsDigit(s[k])
    ensures n < |s| ==> !IsDigit(s[n])
  {
    if s != [] && IsDigit(s[0]) then 1 + DigitRun(s[1..]) else 0
  }

  /** `re.findall(r'p[0-9]+', s)`: scanning from the left, a `p` followed by
      a digit starts a token that takes every digit after it; the scan
      resumes after the token, and otherwise moves on by one character. */
  function Tokens(s: string): (r: seq<string>)
    ensures forall k :: 0 <= k < |r| ==> IsSymbol(r[k])
    decreases |s|
  {
    if |s| < 2 then []
    else if s[0] == 'p' && IsDigit(s[1]) then
      var n := 1 + DigitRun(s[1..]);
      [s[..n]] + Tokens(s[n..])
    else Tokens(s[1..])
  }

  lemma {:induction false} DigitRunOfDigits(s: string)
    requires forall k :: 0 <= k < |s| ==> IsDigit(s[k])
    ensures DigitRun(s) == |s|
    decreases |s|
  {
    if s != [] {
      DigitRunOfDigits(s[1..]);
    }
  }

  /** A symbol on its own scans to exactly itself. */
  lemma SymbolTokens(s: string)
    requires IsSymbol(s)
    ensures Tokens(s) == [s]
  {
    DigitRunOfDigits(s[1..]);
    assert s[..|s|] == s;
  }

  // ---------------------------------------------------------------------
  // Splitting on "THEN"

  /** "THEN" occurs in `s` at position `k`. */
  predicate ThenAt(s: string, k: int)
  {
    0 <= k && k + 4 <= |s| && s[k..k + 4] == "THEN"
  }

  function FirstThenFrom(s: string, i: nat): (k: nat)
    requires i <= |s|
    ensures i <= k <= |s|
    ensures k < |s| ==> ThenAt(s, k)
    ensures forall m :: i <= m < k ==> !ThenAt(s, m)
    ensures k == |s| ==> forall m :: i <= m ==> !ThenAt(s, m)
    decreases |s| - i
  {
    if i + 4 > |s| then |s|
    else if s[i..i + 4] == "THEN" then i
    else FirstThenFrom(s, i + 1)
  }

  /** The position of the first "THEN" in `s`, or |s| when there is none. */
  function FirstThen(s: string): (k: nat)
    ensures k <= |s|
    ensures k < |s| ==> ThenAt(s, k)
    ensures forall m :: 0 <= m < k ==> !ThenAt(s, m)
    ensures k == |s| ==> forall m :: !ThenAt(s, m)
  {
    FirstThenFrom(s, 0)
  }

  /** `'THEN' in s`. */
  predicate HasThen(s: string)
  {
    FirstThen(s) < |s|
  }

  /** `s.split('THEN')[0]`: the text before the first "THEN". */
  function BeforeThen(s: string): string
  {
    s[..FirstThen(s)]
  }

  /** `s.split('THEN')[1]`: the text between the first "THEN" and the next
      one, or the end. */
  function AfterThen(s: string): string
    requires HasThen(s)
  {
    var rest := s[FirstThen(s) + 4..];
    rest[..FirstThen(rest)]
  }

  /** `s[:-1]`. */
  function DropLast(s: string): string
  {
    if s == [] then [] else s[..|s| - 1]
  }

  /** `s[1:]`. */
  function DropFirst(s: string): string
  {
    if s == [] then [] else s[1..]
  }

  /** The premise of a rule: the text before "THEN" without its last character. */
  function Premise(clause: string): string
  {
    DropLast(BeforeThen(clause))
  }

  /** The conclusion of a rule: the text after "THEN" without its first character. */
  function Conclusion(clause: string): string
    requires HasThen(clause)
  {
    DropFirst(AfterThen(clause))
  }

  /** Python's substring test `p in s`. */
  predicate Contains(s: string, p: string)
    decreases |s|
  {
    p <= s || (s != [] && Contains(s[1..], p))
  }

  /** `p` occurs in `s` starting at position `i`. */
  predicate OccursAt(s: string, p: string, i: int)
  {
    0 <= i && i + |p| <= |s| && s[i..i + |p|] == p
  }

  lemma {:induction false} ContainsOccurs(s: string, p: string)
    requires Contains(s, p)
    ensures exists i :: OccursAt(s, p, i)
    decreases |s|
  {
    if p <= s {
      assert OccursAt(s, p, 0);
    } else {
      ContainsOccurs(s[1..], p);
      var i :| OccursAt(s[1..], p, i);
      assert s[i + 1..i + 1 + |p|] == s[1..][i..i + |p|];
      assert OccursAt(s, p, i + 1);
    }
  }

  lemma {:induction false} OccursContains(s: string, p: string, i: int)
    requires OccursAt(s, p, i)
    ensures Contains(s, p)
    decreases i
  {
    if i == 0 {
      assert p <= s;
    } else {
      assert s[1..][i - 1..i - 1 + |p|] == s[i..i + |p|];
      OccursContains(s[1..], p, i - 1);
    }
  }

  /** `Contains` is Python's substring test: `p` occurs in `s` at some position. */
  lemma ContainsMeans(s: string, p: string)
    ensures Contains(s, p) <==> exists i :: OccursAt(s, p, i)
  {
    if Contains(s, p) {
      ContainsOccurs(s, p);
    }
    if exists i :: OccursAt(s, p, i) {
      var i :| OccursAt(s, p, i);
      OccursContains(s, p, i);
    }
  }

  /** `s.split('THEN')` on a rule: the rule is the text before the first
      "THEN", then "THEN", then the rest; the first piece holds no "THEN",
      and the second piece is the start of the rest up to the next "THEN". */
  lemma ThenSplit(s: string)
    requires HasThen(s)
    ensures s == BeforeThen(s) + "THEN" + s[FirstThen(s) + 4..]
    ensures forall m :: !ThenAt(BeforeThen(s), m)
    ensures AfterThen(s) <= s[FirstThen(s) + 4..]
    ensures forall m :: !ThenAt(AfterThen(s), m)
  {
    var k := FirstThen(s);
    assert s == s[..k] + s[k..k + 4] + s[k + 4..];
    forall m | ThenAt(BeforeThen(s), m) ensures false {
      assert s[..k][m..m + 4] == s[m..m + 4];
      assert ThenAt(s, m);
    }
    var rest := s[k + 4..];
    var k' := FirstThen(rest);
    forall m | ThenAt(AfterThen(s), m) ensures false {
      assert rest[..k'][m..m + 4] == rest[m..m + 4];
      assert ThenAt(rest, m);
    }
  }

  // ---------------------------------------------------------------------
  // The tables built from the knowledge base

  /** The entries `display_clauses_symbols(variable, ...)` keeps. */
  predicate Keeps(variable: string, clause: string)
  {
    (variable == "clauses" && |clause| > 2) || (variable == "symbols" && |clause| == 2)
  }

  /** `display_clauses_symbols`: the rules (longer than two characters) or
      the facts (exactly two), in input order. */
  function DisplayClausesSymbols(variable: string, clauses: seq<string>): (r: seq<string>)
    ensures |r| <= |clauses|
    decreases |clauses|
  {
    if clauses == [] then []
    else (if Keeps(variable, clauses[0]) then [clauses[0]] else []) + DisplayClausesSymbols(variable, clauses[1..])
  }

  /** Each kept entry appears as often as in the input, every other not at all. */
  lemma {:induction false} DisplayKeepsExactly(variable: string, clauses: seq<string>)
    ensures forall x :: multiset(DisplayClausesSymbols(variable, clauses))[x] ==
                          if Keeps(variable, x) then multiset(clauses)[x] else 0
    decreases |clauses|
  {
    if clauses != [] {
      DisplayKeepsExactly(variable, clauses[1..]);
      assert clauses == [clauses[0]] + clauses[1..];
    }
  }

  /** Filtering keeps input order: the result for a concatenation is the
      concatenation of the results. */
  lemma {:induction false} DisplayAppend(variable: string, a: seq<string>, b: seq<string>)
    ensures DisplayClausesSymbols(variable, a + b) == DisplayClausesSymbols(variable, a) + DisplayClausesSymbols(variable, b)
    decreases |a|
  {
    if a != [] {
      assert (a + b)[0] == a[0];
      assert (a + b)[1..] == a[1..] + b;
      DisplayAppend(variable, a[1..], b);
    } else {
      assert a + b == b;
    }
  }

  /** `get_all_symbols`: the two-character entries, in input order. */
  function GetAllSymbols(kb: seq<string>): (r: seq<string>)
    ensures forall k :: 0 <= k < |r| ==> |r[k]| == 2
    decreases |kb|
  {
    if kb == [] then []
    else
      var rest := GetAllSymbols(kb[1..]);
      if |kb[0]| == 2 then [kb[0]] + rest else rest
  }

  /** The agenda's seed is the facts `display_clauses_symbols('symbols', ...)` shows. */
  lemma {:induction false} AllSymbolsAreDisplayedSymbols(kb: seq<string>)
    ensures GetAllSymbols(kb) == DisplayClausesSymbols("symbols", kb)
    decreases |kb|
  {
    if kb != [] {
      AllSymbolsAreDisplayedSymbols(kb[1..]);
    }
  }

  /** `get_symbol_count`: each entry maps to the number of tokens before its "THEN". */
  function GetSymbolCount(kb: seq<string>): (r: map<string, int>)
    ensures forall x :: x in r <==> x in kb
    ensures forall x :: x in r ==> r[x] == |Tokens(BeforeThen(x))|
    decreases |kb|
  {
    if kb == [] then map[]
    else
      var init := kb[..|kb| - 1];
      var x := kb[|kb| - 1];
      assert kb == init + [x];
      var r := GetSymbolCount(init);
      if x in r then r else r[x := |Tokens(BeforeThen(x))|]
  }

  /** Every token of every entry. */
  function AllTokens(kb: seq<string>): (r: set<string>)
    ensures forall t :: t in r <==> exists x :: x in kb && t in Tokens(x)
    decreases |kb|
  {
    if kb == [] then {}
    else
      var r := AllTokens(kb[1..]) + set t | t in Tokens(kb[0]);
      forall t ensures t in r <==> exists x :: x in kb && t in Tokens(x) {
        if t in AllTokens(kb[1..]) {
          var x :| x in kb[1..] && t in Tokens(x);
          assert x in kb;
        }
        if exists x :: x in kb && t in Tokens(x) {
          var x :| x in kb && t in Tokens(x);
          if x != kb[0] {
            assert x in kb[1..];
          }
        }
      }
      r
  }

  /** `initialize_inferred_table`: the query (when not empty) and every
      token of the knowledge base, all not yet inferred. */
  function InitializeInferredTable(kb: seq<string>, query: string): (r: map<string, bool>)
    ensures forall s :: s in r <==> (query != "" && s == query) || exists x :: x in kb && s in Tokens(x)
    ensures forall s :: s in r ==> !r[s]
  {
    var seeded: map<string, bool> := if query != "" then map[query := false] else map[];
    var symbols := AllTokens(kb);
    seeded + map s | s in symbols && s !in seeded :: false
  }

  // ---------------------------------------------------------------------
  // The agenda loop as a specification

  /** What `pl_fc_entails` ends with: an answer, or the `KeyError` raised
      when a popped symbol has no entry in the inferred table. */
  datatype Outcome = Answer(entailed: bool) | KeyError(symbol: string)

  datatype FcState = FcState(agenda: seq<string>, count: map<string, int>, inferred: map<string, bool>)

  /** `q` is the conclusion of some rule of the knowledge base. */
  ghost predicate IsConclusion(kb: seq<string>, q: string)
  {
    exists c :: c in kb && HasThen(c) && Conclusion(c) == q
  }

  /** `q` is the conclusion of a rule of `kb` whose count went from positive
      (in `before`) to zero or below (in `after`). */
  ghost predicate Pushed(kb: seq<string>, before: map<string, int>, after: map<string, int>, q: string)
  {
    exists c :: c in kb && HasThen(c) && Conclusion(c) == q && c in before && c in after && before[c] > 0 && after[c] <= 0
  }

  /** The inner `for clause in kb` loop for the popped symbol `p`: every rule
      whose premise contains `p` loses one from its count, and a rule whose
      count reaches exactly zero pushes its conclusion. */
  function Expand(kb: seq<string>, p: string, count: map<string, int>, agenda: seq<string>): (r: (map<string, int>, seq<string>))
    requires forall c :: c in kb ==> c in count
    ensures r.0.Keys == count.Keys
    ensures forall c :: c in count ==> r.0[c] <= count[c]
    ensures |agenda| <= |r.1| && r.1[..|agenda|] == agenda
    ensures forall k :: |agenda| <= k < |r.1| ==> Pushed(kb, count, r.0, r.1[k])
    decreases |kb|
  {
    if kb == [] then (count, agenda)
    else
      var c := kb[0];
      if HasThen(c) && Contains(Premise(c), p) then
        var n := count[c] - 1;
        var agenda' := if n == 0 then agenda + [Conclusion(c)] else agenda;
        var r := Expand(kb[1..], p, count[c := n], agenda');
        assert r.1[..|agenda'|] == agenda';
        forall k | |agenda| <= k < |r.1| ensures Pushed(kb, count, r.0, r.1[k]) {
          if k < |agenda'| {
            assert r.1[k] == agenda'[k] == Conclusion(c);
            assert c in kb;
          } else {
            assert Pushed(kb[1..], count[c := n], r.0, r.1[k]);
            var c' :| c' in kb[1..] && HasThen(c') && Conclusion(c') == r.1[k] && c' in count[c := n] && c' in r.0
                      && count[c := n][c'] > 0 && r.0[c'] <= 0;
            assert c' in kb;
          }
        }
        r
      else
        var r := Expand(kb[1..], p, count, agenda);
        forall k | |agenda| <= k < |r.1| ensures Pushed(kb, count, r.0, r.1[k]) {
          assert Pushed(kb[1..], count, r.0, r.1[k]);
          var c' :| c' in kb[1..] && HasThen(c') && Conclusion(c') == r.1[k] && c' in count && c' in r.0
                    && count[c'] > 0 && r.0[c'] <= 0;
          assert c' in kb;
        }
        r
  }

  /** The rules of `kb` whose count reaches exactly zero while `p` is
      expanded from `count`, in the order the loop meets them. */
  ghost function Fired(kb: seq<string>, p: string, count: map<string, int>): (r: seq<string>)
    requires forall c :: c in kb ==> c in count
    ensures forall c :: c in r ==> c in kb && HasThen(c)
    decreases |kb|
  {
    if kb == [] then []
    else
      var c := kb[0];
      if HasThen(c) && Contains(Premise(c), p) then
        var n := count[c] - 1;
        (if n == 0 then [c] else []) + Fired(kb[1..], p, count[c := n])
      else Fired(kb[1..], p, count)
  }

  /** The conclusions of the rules `cs`, in order. */
  function Conclusions(cs: seq<string>): (r: seq<string>)
    requires forall c :: c in cs ==> HasThen(c)
    ensures |r| == |cs| && forall k :: 0 <= k < |cs| ==> r[k] == Conclusion(cs[k])
  {
    if cs == [] then [] else [Conclusion(cs[0])] + Conclusions(cs[1..])
  }

  /** The count and agenda after the loop meets the first rule of `kb`. */
  function ExpandHead(kb: seq<string>, p: string, count: map<string, int>, agenda: seq<string>): (r: (map<string, int>, seq<string>))
    requires kb != [] && forall c :: c in kb ==> c in count
    ensures forall c :: c in kb[1..] ==> c in r.0
  {
    var c := kb[0];
    if HasThen(c) && Contains(Premise(c), p) then
      (count[c := count[c] - 1], if count[c] - 1 == 0 then agenda + [Conclusion(c)] else agenda)
    else (count, agenda)
  }

  lemma ExpandUnfold(kb: seq<string>, p: string, count: map<string, int>, agenda: seq<string>)
    requires kb != [] && forall c :: c in kb ==> c in count
    ensures var h := ExpandHead(kb, p, count, agenda);
            Expand(kb, p, count, agenda) == Expand(kb[1..], p, h.0, h.1)
  {
  }

  /** Expanding `p` pushes exactly the conclusions of the rules that fire, in order. */
  /** A count whose rule is not in `kb` is left as it was. */
  lemma {:induction false} ExpandKeepsOthers(kb: seq<string>, p: string, count: map<string, int>, agenda: seq<string>)
    requires forall c :: c in kb ==> c in count
    ensures forall c :: c in count && c !in kb ==> Expand(kb, p, count, agenda).0[c] == count[c]
    decreases |kb|
  {
    if kb != [] {
      var h := ExpandHead(kb, p, count, agenda);
      ExpandUnfold(kb, p, count, agenda);
      ExpandKeepsOthers(kb[1..], p, h.0, h.1);
    }
  }

  /** The first rule of `kb` fires exactly when the loop pushes its conclusion. */
  lemma FiredHead(kb: seq<string>, p: string, count: map<string, int>, agenda: seq<string>)
    requires kb != [] && forall c :: c in kb ==> c in count
    ensures var h := ExpandHead(kb, p, count, agenda);
            agenda + Conclusions(Fired(kb, p, count)) == h.1 + Conclusions(Fired(kb[1..], p, h.0))
  {
    var c := kb[0];
    var h := ExpandHead(kb, p, count, agenda);
    var f' := Fired(kb[1..], p, h.0);
    if HasThen(c) && Contains(Premise(c), p) && count[c] == 1 {
      assert Fired(kb, p, count) == [c] + f';
      assert Conclusions([c] + f') == [Conclusion(c)] + Conclusions(f');
    } else {
      assert Fired(kb, p, count) == f';
    }
  }

  lemma {:induction false} ExpandPushesFired(kb: seq<string>, p: string, count: map<string, int>, agenda: seq<string>)
    requires forall c :: c in kb ==> c in count
    ensures Expand(kb, p, count, agenda).1 == agenda + Conclusions(Fired(kb, p, count))
    decreases |kb|
  {
    if kb != [] {
      var h := ExpandHead(kb, p, count, agenda);
      ExpandUnfold(kb, p, count, agenda);
      ExpandPushesFired(kb[1..], p, h.0, h.1);
      FiredHead(kb, p, count, agenda);
    }
  }

  /** A rule fires exactly when its count goes from positive to zero or
      below in this pass: the count falls by one at a time, so it passes
      through zero. */
  lemma {:induction false} FiredIff(kb: seq<string>, p: string, count: map<string, int>, agenda: seq<string>)
    requires forall c :: c in kb ==> c in count
    ensures forall c :: c in kb && HasThen(c) ==>
              (c in Fired(kb, p, count) <==> count[c] > 0 && Expand(kb, p, count, agenda).0[c] <= 0)
    decreases |kb|
  {
    if kb != [] {
      var c := kb[0];
      var h := ExpandHead(kb, p, count, agenda);
      ExpandUnfold(kb, p, count, agenda);
      var r := Expand(kb[1..], p, h.0, h.1);
      var f' := Fired(kb[1..], p, h.0);
      FiredIff(kb[1..], p, h.0, h.1);
      ExpandKeepsOthers(kb[1..], p, h.0, h.1);
      assert Fired(kb, p, count) == if HasThen(c) && Contains(Premise(c), p) && count[c] == 1 then [c] + f' else f';
      forall c' | c' in kb && HasThen(c')
        ensures c' in Fired(kb, p, count) <==> count[c'] > 0 && r.0[c'] <= 0
      {
        if c' !in kb[1..] {
          assert c' == c;
        }
      }
    }
  }

  /** Within one pass a rule fires at most once, even when it occurs
      several times in the knowledge base. */
  lemma {:induction false} FiredOnce(kb: seq<string>, p: string, count: map<string, int>)
    requires forall c :: c in kb ==> c in count
    ensures Collections.Distinct(Fired(kb, p, count))
    decreases |kb|
  {
    if kb != [] {
      var c := kb[0];
      if HasThen(c) && Contains(Premise(c), p) {
        var n := count[c] - 1;
        var f' := Fired(kb[1..], p, count[c := n]);
        FiredOnce(kb[1..], p, count[c := n]);
        if n == 0 {
          FiredIff(kb[1..], p, count[c := n], []);
          assert c !in f';
          Collections.DistinctConcat([c], f');
          assert Fired(kb, p, count) == [c] + f';
        } else {
          assert Fired(kb, p, count) == f';
        }
      } else {
        FiredOnce(kb[1..], p, count);
        assert Fired(kb, p, count) == Fired(kb[1..], p, count);
      }
    }
  }

  datatype StepResult = Done(outcome: Outcome) | Continue(next: FcState)

  /** One iteration of the `while agenda != []` loop: pop the last symbol;
      it ends the search when it is the query; otherwise a symbol not yet
      inferred is marked and expanded. */
  function Step(kb: seq<string>, query: string, st: FcState): StepResult
    requires st.agenda != [] && forall c :: c in kb ==> c in st.count
  {
    var p := st.agenda[|st.agenda| - 1];
    var rest := st.agenda[..|st.agenda| - 1];
    if p == query then Done(Answer(true))
    else if p !in st.inferred then Done(KeyError(p))
    else if !st.inferred[p] then
      var r := Expand(kb, p, st.count, rest);
      Continue(FcState(r.1, r.0, st.inferred[p := true]))
    else Continue(FcState(rest, st.count, st.inferred))
  }

  /** The symbols not yet inferred: the loop's termination measure. */
  function Pending(inferred: map<string, bool>): set<string>
  {
    set s | s in inferred && !inferred[s]
  }

  lemma MarkShrinksPending(inferred: map<string, bool>, p: string)
    requires p in inferred && !inferred[p]
    ensures Pending(inferred[p := true]) == Pending(inferred) - {p}
    ensures |Pending(inferred[p := true])| < |Pending(inferred)|
  {
    assert Pending(inferred[p := true]) == Pending(inferred) - {p};
  }

  /** A step either infers a new symbol or shortens the agenda; it never
      forgets an inferred symbol and never raises a count. */
  lemma StepProgress(kb: seq<string>, query: string, st: FcState)
    requires st.agenda != [] && forall c :: c in kb ==> c in st.count
    ensures Step(kb, query, st).Continue? ==>
              var next := Step(kb, query, st).next;
              && next.inferred.Keys == st.inferred.Keys
              && (forall s :: s in st.inferred && st.inferred[s] ==> next.inferred[s])
              && next.count.Keys == st.count.Keys
              && (forall c :: c in st.count ==> next.count[c] <= st.count[c])
              && (|Pending(next.inferred)| < |Pending(st.inferred)| ||
                  (Pending(next.inferred) == Pending(st.inferred) && |next.agenda| < |st.agenda|))
  {
    var p := st.agenda[|st.agenda| - 1];
    if p != query && p in st.inferred && !st.inferred[p] {
      MarkShrinksPending(st.inferred, p);
    }
  }

  /** The rest of the search from state `st`. */
  function Run(kb: seq<string>, query: string, st: FcState): Outcome
    requires forall c :: c in kb ==> c in st.count
    decreases |Pending(st.inferred)|, |st.agenda|
  {
    if st.agenda == [] then Answer(false)
    else
      StepProgress(kb, query, st);
      match Step(kb, query, st)
      case Done(o) => o
      case Continue(next) => Run(kb, query, next)
  }

  /** The rules that fire in one step of the loop. */
  ghost function StepFired(kb: seq<string>, query: string, st: FcState): (r: seq<string>)
    requires st.agenda != [] && forall c :: c in kb ==> c in st.count
    ensures forall c :: c in r ==> c in kb && HasThen(c)
  {
    var p := st.agenda[|st.agenda| - 1];
    if p != query && p in st.inferred && !st.inferred[p] then Fired(kb, p, st.count) else []
  }

  /** The rules that fire over the rest of the search from `st`, step by step. */
  ghost function RunFired(kb: seq<string>, query: string, st: FcState): (r: seq<string>)
    requires forall c :: c in kb ==> c in st.count
    ensures forall c :: c in r ==> c in kb && HasThen(c)
    decreases |Pending(st.inferred)|, |st.agenda|
  {
    if st.agenda == [] then []
    else
      StepProgress(kb, query, st);
      match Step(kb, query, st)
      case Done(_) => []
      case Continue(next) => StepFired(kb, query, st) + RunFired(kb, query, next)
  }

  /** A step that goes on pops one symbol and pushes the conclusions of the
      rules that fire in it, each rule once; those rules had a positive
      count before the step and have none after it. */
  lemma StepFiredMeans(kb: seq<string>, query: string, st: FcState)
    requires st.agenda != [] && forall c :: c in kb ==> c in st.count
    requires Step(kb, query, st).Continue?
    ensures var next, f := Step(kb, query, st).next, StepFired(kb, query, st);
            && next.agenda == st.agenda[..|st.agenda| - 1] + Conclusions(f)
            && Collections.Distinct(f)
            && forall c :: c in f ==> st.count[c] > 0 && c in next.count && next.count[c] <= 0
  {
    var p := st.agenda[|st.agenda| - 1];
    var rest := st.agenda[..|st.agenda| - 1];
    if p != query && p in st.inferred && !st.inferred[p] {
      ExpandPushesFired(kb, p, st.count, rest);
      FiredIff(kb, p, st.count, rest);
      FiredOnce(kb, p, st.count);
    }
  }

  /** Over the whole search a rule fires at most once: its count only falls,
      so it reaches zero at most once, and the rules that fire, listed step
      by step, never repeat. Each of them had a positive count to begin with. */
  lemma {:induction false} RunFiresOnce(kb: seq<string>, query: string, st: FcState)
    requires forall c :: c in kb ==> c in st.count
    ensures Collections.Distinct(RunFired(kb, query, st))
    ensures forall c :: c in RunFired(kb, query, st) ==> st.count[c] > 0
    decreases |Pending(st.inferred)|, |st.agenda|
  {
    if st.agenda != [] {
      StepProgress(kb, query, st);
      match Step(kb, query, st)
      case Done(_) =>
      case Continue(next) =>
        StepFiredMeans(kb, query, st);
        RunFiresOnce(kb, query, next);
        var f, g := StepFired(kb, query, st), RunFired(kb, query, next);
        assert RunFired(kb, query, st) == f + g;
        Collections.DistinctConcat(f, g);
    }
  }

  /** The state `pl_fc_entails` starts from. */
  function Initial(kb: seq<string>, query: string): (st: FcState)
    ensures forall c :: c in kb ==> c in st.count
  {
    FcState(GetAllSymbols(kb), GetSymbolCount(kb), InitializeInferredTable(kb, query))
  }

  /** What `pl_fc_entails(kb, query)` returns (or raises). */
  function Entails(kb: seq<string>, query: string): Outcome
  {
    Run(kb, query, Initial(kb, query))
  }

  // ---------------------------------------------------------------------
  // The procedure itself

  /** `pl_fc_entails`: the agenda is a stack popped from its end; the
      inferred table and the counts are updated in place. */
  method PlFcEntails(kb: seq<string>, query: string) returns (result: Outcome)
    ensures result == Entails(kb, query)
  {
    var count := GetSymbolCount(kb);
    var inferred := InitializeInferredTable(kb, query);
    var agenda := GetAllSymbols(kb);
    while agenda != []
      invariant forall c :: c in kb ==> c in count
      invariant Run(kb, query, FcState(agenda, count, inferred)) == Entails(kb, query)
      decreases |Pending(inferred)|, |agenda|
    {
      ghost var st := FcState(agenda, count, inferred);
      StepProgress(kb, query, st);
      var p := agenda[|agenda| - 1];
      agenda := agenda[..|agenda| - 1];
      if p == query {
        return Answer(true);
      }
      if p !in inferred {
        return KeyError(p);
      }
      if !inferred[p] {
        inferred := inferred[p := true];
        ghost var count0, agenda0 := count, agenda;
        for i := 0 to |kb|
          invariant forall c :: c in kb ==> c in count
          invariant Expand(kb[i..], p, count, agenda) == Expand(kb, p, count0, agenda0)
        {
          assert kb[i..][1..] == kb[i + 1..];
          var clause := kb[i];
          if HasThen(clause) {
            var premise := Premise(clause);
            var conclusion := Conclusion(clause);
            if Contains(premise, p) {
              count := count[clause := count[clause] - 1];
              if count[clause] == 0 {
                agenda := agenda + [conclusion];
              }
            }
          }
        }
        assert kb[|kb|..] == [];
      }
    }
    return Answer(false);
  }

  // ---------------------------------------------------------------------
  // Properties of the search

  /** Each agenda entry is a fact of the knowledge base or a rule's conclusion. */
  ghost predicate AgendaFromKb(kb: seq<string>, agenda: seq<string>)
  {
    forall k :: 0 <= k < |agenda| ==> agenda[k] in GetAllSymbols(kb) || IsConclusion(kb, agenda[k])
  }

  lemma {:induction false} RunTrueOnlyForDerivable(kb: seq<string>, query: string, st: FcState)
    requires forall c :: c in kb ==> c in st.count
    requires AgendaFromKb(kb, st.agenda)
    requires Run(kb, query, st) == Answer(true)
    ensures query in GetAllSymbols(kb) || IsConclusion(kb, query)
    decreases |Pending(st.inferred)|, |st.agenda|
  {
    StepProgress(kb, query, st);
    var p := st.agenda[|st.agenda| - 1];
    var rest := st.agenda[..|st.agenda| - 1];
    if p == query {
    } else if p in st.inferred && !st.inferred[p] {
      var r := Expand(kb, p, st.count, rest);
      assert AgendaFromKb(kb, r.1) by {
        forall k | 0 <= k < |r.1| ensures r.1[k] in GetAllSymbols(kb) || IsConclusion(kb, r.1[k]) {
          if k < |rest| {
            assert r.1[k] == rest[k] == st.agenda[k];
          } else {
            assert Pushed(kb, st.count, r.0, r.1[k]);
          }
        }
      }
      RunTrueOnlyForDerivable(kb, query, FcState(r.1, r.0, st.inferred[p := true]));
    } else {
      RunTrueOnlyForDerivable(kb, query, FcState(rest, st.count, st.inferred));
    }
  }

  /** `pl_fc_entails` answers True only for a fact or a rule's conclusion. */
  lemma EntailedIsDerivable(kb: seq<string>, query: string)
    requires Entails(kb, query) == Answer(true)
    ensures query in GetAllSymbols(kb) || IsConclusion(kb, query)
  {
    RunTrueOnlyForDerivable(kb, query, Initial(kb, query));
  }

  /** While the query is on the agenda the search cannot answer False: it
      is popped before the agenda runs out. */
  lemma {:induction false} QueryOnAgendaNotFalse(kb: seq<string>, query: string, st: FcState)
    requires forall c :: c in kb ==> c in st.count
    requires query in st.agenda
    ensures Run(kb, query, st) != Answer(false)
    decreases |Pending(st.inferred)|, |st.agenda|
  {
    StepProgress(kb, query, st);
    var p := st.agenda[|st.agenda| - 1];
    var rest := st.agenda[..|st.agenda| - 1];
    if p != query && p in st.inferred {
      assert st.agenda == rest + [p];
      assert query in rest;
      if !st.inferred[p] {
        var r := Expand(kb, p, st.count, rest);
        assert query in r.1 by {
          var k :| 0 <= k < |rest| && rest[k] == query;
          assert r.1[k] == rest[k];
        }
        QueryOnAgendaNotFalse(kb, query, FcState(r.1, r.0, st.inferred[p := true]));
      } else {
        QueryOnAgendaNotFalse(kb, query, FcState(rest, st.count, st.inferred));
      }
    }
  }

  /** False is only answered for a query that is not among the facts. */
  lemma FalseOnlyForNonFacts(kb: seq<string>, query: string)
    requires Entails(kb, query) == Answer(false)
    ensures query !in GetAllSymbols(kb)
  {
    if query in GetAllSymbols(kb) {
      QueryOnAgendaNotFalse(kb, query, Initial(kb, query));
    }
  }

  /** Every entry the search can pop has an entry in the inferred table. */
  ghost predicate AgendaKnown(query: string, agenda: seq<string>, inferred: map<string, bool>)
  {
    forall k :: 0 <= k < |agenda| ==> agenda[k] == query || agenda[k] in inferred
  }

  lemma {:induction false} QueryOnAgendaAnswered(kb: seq<string>, query: string, st: FcState)
    requires forall c :: c in kb ==> c in st.count
    requires query in st.agenda && AgendaKnown(query, st.agenda, st.inferred)
    requires forall c :: c in kb && HasThen(c) ==> Conclusion(c) == query || Conclusion(c) in st.inferred
    ensures Run(kb, query, st) == Answer(true)
    decreases |Pending(st.inferred)|, |st.agenda|
  {
    StepProgress(kb, query, st);
    var p := st.agenda[|st.agenda| - 1];
    var rest := st.agenda[..|st.agenda| - 1];
    if p != query {
      assert st.agenda == rest + [p];
      assert query in rest;
      assert p in st.inferred;
      if !st.inferred[p] {
        var r := Expand(kb, p, st.count, rest);
        var inferred' := st.inferred[p := true];
        assert query in r.1 by {
          var k :| 0 <= k < |rest| && rest[k] == query;
          assert r.1[k] == rest[k];
        }
        assert AgendaKnown(query, r.1, inferred') by {
          forall k | 0 <= k < |r.1| ensures r.1[k] == query || r.1[k] in inferred' {
            if k < |rest| {
              assert r.1[k] == rest[k] == st.agenda[k];
            } else {
              assert Pushed(kb, st.count, r.0, r.1[k]);
              var c :| c in kb && HasThen(c) && Conclusion(c) == r.1[k] && c in st.count && c in r.0
                       && st.count[c] > 0 && r.0[c] <= 0;
            }
          }
        }
        QueryOnAgendaAnswered(kb, query, FcState(r.1, r.0, inferred'));
      } else {
        QueryOnAgendaAnswered(kb, query, FcState(rest, st.count, st.inferred));
      }
    }
  }

  /** A query that is one of the facts is entailed, provided every fact and
      every rule's conclusion is a `p<digits>` symbol (otherwise popping one
      of them before the query raises `KeyError`). */
  lemma FactIsEntailed(kb: seq<string>, query: string)
    requires query in GetAllSymbols(kb)
    requires forall x :: x in GetAllSymbols(kb) ==> IsSymbol(x)
    requires forall c :: c in kb && HasThen(c) ==> IsSymbol(Conclusion(c))
    ensures Entails(kb, query) == Answer(true)
  {
    var st := Initial(kb, query);
    AllSymbolsAreDisplayedSymbols(kb);
    DisplayKeepsExactly("symbols", kb);
    forall x | x in GetAllSymbols(kb) ensures x in st.inferred {
      assert multiset(DisplayClausesSymbols("symbols", kb))[x] > 0;
      assert x in kb;
      SymbolTokens(x);
      assert x in Tokens(x);
    }
    forall c | c in kb && HasThen(c) ensures Conclusion(c) in st.inferred {
      ConclusionIsToken(c);
    }
    QueryOnAgendaAnswered(kb, query, st);
  }

  lemma {:induction false} DigitRunStops(d: string, v: string)
    requires forall k :: 0 <= k < |d| ==> IsDigit(d[k])
    requires v == [] || !IsDigit(v[0])
    ensures DigitRun(d + v) == |d|
    decreases |d|
  {
    if d != [] {
      assert (d + v)[1..] == d[1..] + v;
      DigitRunStops(d[1..], v);
    } else {
      assert d + v == v;
    }
  }

  /** A symbol followed by a non-digit (or nothing) is one of the tokens of
      any text it ends: a token that starts earlier stops at its `p`. */
  lemma {:induction false} SymbolScannedInContext(u: string, t: string, v: string)
    requires IsSymbol(t) && (v == [] || !IsDigit(v[0]))
    ensures t in Tokens(u + t + v)
    decreases |u|
  {
    var s := u + t + v;
    if u == [] {
      assert s == t + v;
      assert s[1..] == t[1..] + v;
      DigitRunStops(t[1..], v);
      assert s[..|t|] == t;
      assert Tokens(s)[0] == t;
    } else if s[0] == 'p' && IsDigit(s[1]) {
      var n := 1 + DigitRun(s[1..]);
      assert s[|u|] == 'p';
      assert s[1..][|u| - 1] == s[|u|];
      assert n <= |u|;
      assert s[n..] == u[n..] + t + v;
      SymbolScannedInContext(u[n..], t, v);
      assert Tokens(s) == [s[..n]] + Tokens(s[n..]);
    } else {
      assert s[1..] == u[1..] + t + v;
      SymbolScannedInContext(u[1..], t, v);
    }
  }

  /** A rule's conclusion that is a symbol is also one of the rule's tokens. */
  lemma ConclusionIsToken(c: string)
    requires HasThen(c) && IsSymbol(Conclusion(c))
    ensures Conclusion(c) in Tokens(c)
  {
    var f := FirstThen(c);
    var rest := c[f + 4..];
    var g := FirstThen(rest);
    var after := rest[..g];
    assert after == AfterThen(c);
    assert after != [];
    var t := Conclusion(c);
    assert t == after[1..];
    var u := c[..f + 5];
    var v := rest[g..];
    assert c == u + t + v;
    if v != [] {
      assert ThenAt(rest, g);
      assert v[0] == rest[g..g + 4][0] == 'T';
    }
    SymbolScannedInContext(u, t, v);
  }
}
