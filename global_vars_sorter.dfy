/** Ordering of global variable definitions by their interdependencies
    (GlobalVarsSorter::sortByInterdependencies): a definition comes after
    every global its initializer refers to, and definitions that are free to
    go next are taken in the order of their variables' original names. */
module GlobalVarsSorting {
  import opened Syntax

  /** Lexicographic order on strings, by character code. */
  predicate LexLessEq(a: string, b: string)
  {
    a == [] || (b != [] && (a[0] < b[0] || (a[0] == b[0] && LexLessEq(a[1..], b[1..]))))
  }

  predicate LexLess(a: string, b: string)
  {
    LexLessEq(a, b) && a != b
  }

  lemma {:induction false} LexReflexive(a: string)
    ensures LexLessEq(a, a)
  {
    if a != [] {
      LexReflexive(a[1..]);
    }
  }

  lemma {:induction false} LexTotal(a: string, b: string)
    ensures LexLessEq(a, b) || LexLessEq(b, a)
  {
    if a != [] && b != [] && a[0] == b[0] {
      LexTotal(a[1..], b[1..]);
    }
  }

  lemma {:induction false} LexAntisymmetric(a: string, b: string)
    requires LexLessEq(a, b) && LexLessEq(b, a)
    ensures a == b
  {
    if a != [] && b != [] {
      LexAntisymmetric(a[1..], b[1..]);
      assert a == [a[0]] + a[1..] && b == [b[0]] + b[1..];
    }
  }

  lemma {:induction false} LexTransitive(a: string, b: string, c: string)
    requires LexLessEq(a, b) && LexLessEq(b, c)
    ensures LexLessEq(a, c)
  {
    if a != [] && b != [] && c != [] && a[0] == b[0] && b[0] == c[0] {
      LexTransitive(a[1..], b[1..], c[1..]);
    }
  }

  /** The expression refers to variable v somewhere, also beneath
      address-of and dereference nodes. */
  predicate Mentions(e: Expr, v: Variable)
    decreases ExprSize(e)
  {
    e == Var(v) || exists i :: 0 <= i < |Children(e)| && Mentions(Children(e)[i], v)
  }

  /** Definition b depends on definition a: b's initializer refers to a's
      variable (a reference of a variable to itself does not count). */
  predicate DependsOn(b: GlobalVarDef, a: GlobalVarDef)
  {
    a.v != b.v && b.init.Some? && Mentions(b.init.value, a.v)
  }

  function OriginalName(d: GlobalVarDef): string
  {
    d.v.initialName
  }

  /** Definition s[i] depends on no definition in s. */
  predicate IsReady(s: seq<GlobalVarDef>, i: int)
    requires 0 <= i < |s|
  {
    forall k :: 0 <= k < |s| ==> !DependsOn(s[i], s[k])
  }

  /** No definition depends on one placed after it. */
  predicate DependencyOrdered(r: seq<GlobalVarDef>)
  {
    forall i, j :: 0 <= i < j < |r| ==> !DependsOn(r[i], r[j])
  }

  predicate NameOrdered(r: seq<GlobalVarDef>)
  {
    forall i, j :: 0 <= i < j < |r| ==> LexLessEq(OriginalName(r[i]), OriginalName(r[j]))
  }

  /** Among s[..n], the ready definition with the least original name (the
      earliest one when several share it), if any is ready. */
  function BestReady(s: seq<GlobalVarDef>, n: nat): (r: Option<nat>)
    requires n <= |s|
    ensures r.Some? ==> r.value < n && IsReady(s, r.value)
    ensures r.None? ==> forall j :: 0 <= j < n ==> !IsReady(s, j)
  {
    if n == 0 then None
    else
      var prev := BestReady(s, n - 1);
      if !IsReady(s, n - 1) then prev
      else if prev.None? then Some(n - 1)
      else if LexLess(OriginalName(s[n - 1]), OriginalName(s[prev.value])) then Some(n - 1)
      else prev
  }

  /** The pick has the least original name among the ready definitions and
      comes first among those sharing that name. */
  lemma {:induction false} BestReadyIsMinimal(s: seq<GlobalVarDef>, n: nat)
    requires n <= |s| && BestReady(s, n).Some?
    ensures var b := BestReady(s, n).value;
      forall j :: 0 <= j < n && IsReady(s, j) ==>
        LexLessEq(OriginalName(s[b]), OriginalName(s[j])) &&
        (j < b ==> OriginalName(s[j]) != OriginalName(s[b]))
  {
    var b := BestReady(s, n).value;
    var prev := BestReady(s, n - 1);
    if prev.Some? {
      BestReadyIsMinimal(s, n - 1);
    }
    forall j | 0 <= j < n && IsReady(s, j)
      ensures LexLessEq(OriginalName(s[b]), OriginalName(s[j]))
      ensures j < b ==> OriginalName(s[j]) != OriginalName(s[b])
    {
      var nb, nj := OriginalName(s[b]), OriginalName(s[j]);
      if j == b {
        LexReflexive(nb);
      } else if b == n - 1 {
        // j is earlier, so the earlier pick was beaten strictly.
        var p := prev.value;
        var np := OriginalName(s[p]);
        assert LexLess(nb, np) && LexLessEq(np, nj);
        LexTransitive(nb, np, nj);
        if nj == nb {
          LexAntisymmetric(nb, np);
        }
      } else if j == n - 1 {
        LexTotal(nb, nj);
      }
    }
  }

  /** sortByInterdependencies: repeatedly takes the ready definition with
      the least original name. None when at some point no remaining
      definition is ready, i.e. the dependencies form a cycle. What it
      guarantees is stated by SortIsOrderedPermutation below. */
  function SortByInterdependencies(s: seq<GlobalVarDef>): (r: Option<seq<GlobalVarDef>>)
    ensures r.Some? ==> |r.value| == |s|
    ensures r.None? ==> s != []
    decreases |s|
  {
    if s == [] then Some([])
    else
      match BestReady(s, |s|)
      case None => None
      case Some(i) =>
        match SortByInterdependencies(s[..i] + s[i + 1..])
        case None => None
        case Some(rest) => Some([s[i]] + rest)
  }

  lemma InMultisetIn(x: GlobalVarDef, s: seq<GlobalVarDef>)
    requires x in multiset(s)
    ensures exists k :: 0 <= k < |s| && s[k] == x
  {
  }

  /** Putting a ready definition in front of a dependency-ordered
      arrangement of the others gives one of all. */
  lemma PrependReady(s: seq<GlobalVarDef>, i: nat, rest: seq<GlobalVarDef>)
    requires i < |s| && IsReady(s, i)
    requires multiset(rest) == multiset(s[..i] + s[i + 1..]) && DependencyOrdered(rest)
    ensures multiset([s[i]] + rest) == multiset(s) && DependencyOrdered([s[i]] + rest)
  {
    assert s == s[..i] + [s[i]] + s[i + 1..];
    var r := [s[i]] + rest;
    forall a, b | 0 <= a < b < |r|
      ensures !DependsOn(r[a], r[b])
    {
      if a == 0 {
        assert r[b] in multiset(rest);
        InMultisetIn(r[b], s);
      } else {
        assert r[a] == rest[a - 1] && r[b] == rest[b - 1];
      }
    }
  }

  /** A successful sort returns a rearrangement of its input in which no
      definition depends on one placed after it. */
  lemma {:induction false} SortIsOrderedPermutation(s: seq<GlobalVarDef>)
    ensures var r := SortByInterdependencies(s);
      r.Some? ==> multiset(r.value) == multiset(s) && DependencyOrdered(r.value)
    decreases |s|
  {
    if s != [] && SortByInterdependencies(s).Some? {
      var i := BestReady(s, |s|).value;
      var s' := s[..i] + s[i + 1..];
      SortIsOrderedPermutation(s');
      PrependReady(s, i, SortByInterdependencies(s').value);
    }
  }

  /** Removing one element from a dependency-ordered sequence keeps it so. */
  lemma RemoveKeepsOrder(p: seq<GlobalVarDef>, m: nat)
    requires m < |p| && DependencyOrdered(p)
    ensures DependencyOrdered(p[..m] + p[m + 1..])
  {
    var q := p[..m] + p[m + 1..];
    forall a, b | 0 <= a < b < |q|
      ensures !DependsOn(q[a], q[b])
    {
      var a', b' := if a < m then a else a + 1, if b < m then b else b + 1;
      assert q[a] == p[a'] && q[b] == p[b'];
    }
  }

  /** When a dependency order of s exists, some definition of s is ready. */
  lemma OrderGivesReady(s: seq<GlobalVarDef>, p: seq<GlobalVarDef>)
    requires s != [] && multiset(p) == multiset(s) && DependencyOrdered(p)
    ensures BestReady(s, |s|).Some?
  {
    assert p[0] in multiset(s) by { assert p[0] in multiset(p); }
    InMultisetIn(p[0], s);
    var j :| 0 <= j < |s| && s[j] == p[0];
    forall k | 0 <= k < |s|
      ensures !DependsOn(s[j], s[k])
    {
      assert s[k] in multiset(p);
      InMultisetIn(s[k], p);
    }
    assert IsReady(s, j);
  }

  lemma MultisetWithout(s: seq<GlobalVarDef>, i: nat)
    requires i < |s|
    ensures multiset(s[..i] + s[i + 1..]) == multiset(s) - multiset{s[i]}
  {
    assert s == s[..i] + [s[i]] + s[i + 1..];
  }

  /** Taking one definition out of s and out of a dependency order of s
      leaves a dependency order of the rest. */
  lemma OrderWithout(s: seq<GlobalVarDef>, p: seq<GlobalVarDef>, i: nat) returns (p': seq<GlobalVarDef>)
    requires i < |s| && multiset(p) == multiset(s) && DependencyOrdered(p)
    ensures multiset(p') == multiset(s[..i] + s[i + 1..]) && DependencyOrdered(p')
  {
    assert s[i] in multiset(p) by { assert s[i] in multiset(s); }
    InMultisetIn(s[i], p);
    var m :| 0 <= m < |p| && p[m] == s[i];
    p' := p[..m] + p[m + 1..];
    MultisetWithout(s, i);
    MultisetWithout(p, m);
    RemoveKeepsOrder(p, m);
  }

  /** The sort fails only when no dependency order of the definitions
      exists: any such order makes it succeed. */
  lemma {:induction false} SortSucceedsWhenOrderExists(s: seq<GlobalVarDef>, p: seq<GlobalVarDef>)
    requires multiset(p) == multiset(s) && DependencyOrdered(p)
    ensures SortByInterdependencies(s).Some?
    decreases |s|
  {
    if s != [] {
      OrderGivesReady(s, p);
      var i := BestReady(s, |s|).value;
      var p' := OrderWithout(s, p, i);
      SortSucceedsWhenOrderExists(s[..i] + s[i + 1..], p');
    }
  }

  /** The sort succeeds exactly when a dependency order exists. */
  lemma SortSomeIff(s: seq<GlobalVarDef>)
    ensures SortByInterdependencies(s).Some? <==>
      exists p :: multiset(p) == multiset(s) && DependencyOrdered(p)
  {
    if exists p :: multiset(p) == multiset(s) && DependencyOrdered(p) {
      var p :| multiset(p) == multiset(s) && DependencyOrdered(p);
      SortSucceedsWhenOrderExists(s, p);
    }
    SortIsOrderedPermutation(s);
  }

  /** The first definition of the result is ready in the input and has the
      least original name among the ready ones. */
  lemma SortPicksLeastReady(s: seq<GlobalVarDef>)
    requires s != [] && SortByInterdependencies(s).Some?
    ensures var d := SortByInterdependencies(s).value[0];
      exists i :: 0 <= i < |s| && s[i] == d && IsReady(s, i) &&
        forall j :: 0 <= j < |s| && IsReady(s, j) ==> LexLessEq(OriginalName(d), OriginalName(s[j]))
  {
    var i := BestReady(s, |s|).value;
    BestReadyIsMinimal(s, |s|);
    assert SortByInterdependencies(s).value[0] == s[i];
  }

  /** The definitions left after taking one out have no interdependencies
      either. */
  lemma NoDependenciesWithout(s: seq<GlobalVarDef>, i: nat)
    requires i < |s|
    requires forall a, b :: 0 <= a < |s| && 0 <= b < |s| ==> !DependsOn(s[a], s[b])
    ensures var s' := s[..i] + s[i + 1..];
      forall a, b :: 0 <= a < |s'| && 0 <= b < |s'| ==> !DependsOn(s'[a], s'[b])
  {
    var s' := s[..i] + s[i + 1..];
    forall a, b | 0 <= a < |s'| && 0 <= b < |s'|
      ensures !DependsOn(s'[a], s'[b])
    {
      var a', b' := if a < i then a else a + 1, if b < i then b else b + 1;
      assert s'[a] == s[a'] && s'[b] == s[b'];
    }
  }

  /** Putting the least-named definition in front of a name-ordered
      arrangement of the others gives a name-ordered arrangement. */
  lemma PrependLeast(s: seq<GlobalVarDef>, i: nat, rest: seq<GlobalVarDef>)
    requires i < |s| && multiset(rest) == multiset(s[..i] + s[i + 1..]) && NameOrdered(rest)
    requires forall j :: 0 <= j < |s| ==> LexLessEq(OriginalName(s[i]), OriginalName(s[j]))
    ensures NameOrdered([s[i]] + rest)
  {
    assert s == s[..i] + [s[i]] + s[i + 1..];
    var r := [s[i]] + rest;
    forall a, b | 0 <= a < b < |r|
      ensures LexLessEq(OriginalName(r[a]), OriginalName(r[b]))
    {
      if a == 0 {
        assert r[b] in multiset(rest);
        InMultisetIn(r[b], s);
      } else {
        assert r[a] == rest[a - 1] && r[b] == rest[b - 1];
      }
    }
  }

  /** Without interdependencies the result is ordered by original name. */
  lemma {:induction false} NoDependenciesSortedByName(s: seq<GlobalVarDef>)
    requires forall i, j :: 0 <= i < |s| && 0 <= j < |s| ==> !DependsOn(s[i], s[j])
    ensures SortByInterdependencies(s).Some? && NameOrdered(SortByInterdependencies(s).value)
    decreases |s|
  {
    if s != [] {
      assert IsReady(s, 0);
      var i := BestReady(s, |s|).value;
      BestReadyIsMinimal(s, |s|);
      assert forall j :: 0 <= j < |s| ==> IsReady(s, j);
      NoDependenciesWithout(s, i);
      NoDependenciesSortedByName(s[..i] + s[i + 1..]);
      SortIsOrderedPermutation(s[..i] + s[i + 1..]);
      PrependLeast(s, i, SortByInterdependencies(s[..i] + s[i + 1..]).value);
    }
  }

  /** Readiness depends only on which definitions there are: a definition
      ready in s is ready wherever it sits in a rearrangement of s. */
  lemma ReadyInRearrangement(s: seq<GlobalVarDef>, r: seq<GlobalVarDef>, i: nat, k: nat)
    requires multiset(r) == multiset(s) && i < |s| && k < |r| && r[k] == s[i] && IsReady(s, i)
    ensures IsReady(r, k)
  {
    forall m | 0 <= m < |r|
      ensures !DependsOn(r[k], r[m])
    {
      assert r[m] in multiset(s) by { assert r[m] in multiset(r); }
      InMultisetIn(r[m], s);
    }
  }

  /** A ready definition in front whose original name is least among the
      ready ones is the pick. */
  lemma {:induction false} BestReadyFront(r: seq<GlobalVarDef>, n: nat)
    requires 0 < n <= |r| && IsReady(r, 0)
    requires forall j :: 0 <= j < n && IsReady(r, j) ==> LexLessEq(OriginalName(r[0]), OriginalName(r[j]))
    ensures BestReady(r, n) == Some(0)
  {
    if n > 1 {
      BestReadyFront(r, n - 1);
      if IsReady(r, n - 1) && LexLess(OriginalName(r[n - 1]), OriginalName(r[0])) {
        LexAntisymmetric(OriginalName(r[n - 1]), OriginalName(r[0]));
      }
    }
  }

  /** The definition the sort takes first from s is also the one it takes
      first from any rearrangement that puts it in front. */
  lemma FrontStaysBest(s: seq<GlobalVarDef>, i: nat, r: seq<GlobalVarDef>)
    requires s != [] && BestReady(s, |s|) == Some(i)
    requires multiset(r) == multiset(s) && r != [] && r[0] == s[i]
    ensures BestReady(r, |r|) == Some(0)
  {
    ReadyInRearrangement(s, r, i, 0);
    BestReadyIsMinimal(s, |s|);
    forall j | 0 <= j < |r| && IsReady(r, j)
      ensures LexLessEq(OriginalName(r[0]), OriginalName(r[j]))
    {
      assert r[j] in multiset(s) by { assert r[j] in multiset(r); }
      InMultisetIn(r[j], s);
      var m :| 0 <= m < |s| && s[m] == r[j];
      ReadyInRearrangement(r, s, j, m);
    }
    BestReadyFront(r, |r|);
  }

  /** Sorting is idempotent: the sort leaves its own result as it is. */
  lemma {:induction false} SortIdempotent(s: seq<GlobalVarDef>)
    ensures SortByInterdependencies(s).Some? ==>
      SortByInterdependencies(SortByInterdependencies(s).value) == SortByInterdependencies(s)
    decreases |s|
  {
    if s != [] && SortByInterdependencies(s).Some? {
      var i := BestReady(s, |s|).value;
      var s' := s[..i] + s[i + 1..];
      var rest := SortByInterdependencies(s').value;
      var r := [s[i]] + rest;
      assert r[..0] + r[1..] == rest;
      assert SortByInterdependencies(s) == Some(r);
      SortIdempotent(s');
      SortIsOrderedPermutation(s);
      FrontStaysBest(s, i, r);
      SortStep(r, 0, rest, r);
    }
  }

  // The scenarios of the sorter's unit tests.

  const VarA := Variable("a", "a", IntType(32))
  const VarB := Variable("b", "b", IntType(32))
  const VarC := Variable("c", "c", IntType(32))

  lemma EmptyInputGivesEmptyOutput()
    ensures SortByInterdependencies([]) == Some([])
  {
  }

  /** One step of the sort: the pick goes first, then the sorted rest. */
  lemma SortStep(s: seq<GlobalVarDef>, i: nat, rest: seq<GlobalVarDef>, r: seq<GlobalVarDef>)
    requires s != [] && BestReady(s, |s|) == Some(i)
    requires SortByInterdependencies(s[..i] + s[i + 1..]) == Some(rest)
    requires r == [s[i]] + rest
    ensures SortByInterdependencies(s) == Some(r)
  {
  }

  lemma BestReadySkips(s: seq<GlobalVarDef>, n: nat)
    requires 0 < n <= |s| && !IsReady(s, n - 1)
    ensures BestReady(s, n) == BestReady(s, n - 1)
  {
  }

  lemma BestReadyTakesFirst(s: seq<GlobalVarDef>, n: nat)
    requires 0 < n <= |s| && IsReady(s, n - 1) && BestReady(s, n - 1).None?
    ensures BestReady(s, n) == Some(n - 1)
  {
  }

  lemma BestReadyKeeps(s: seq<GlobalVarDef>, n: nat, p: nat)
    requires 0 < n <= |s| && IsReady(s, n - 1) && BestReady(s, n - 1) == Some(p)
    requires !LexLess(OriginalName(s[n - 1]), OriginalName(s[p]))
    ensures BestReady(s, n) == Some(p)
  {
  }

  /** A definition without an initializer is always ready. */
  lemma NoInitIsReady(s: seq<GlobalVarDef>, i: nat)
    requires i < |s| && s[i].init.None?
    ensures IsReady(s, i)
  {
  }

  /** A definition that depends on another one of s is not ready. */
  lemma DependentIsNotReady(s: seq<GlobalVarDef>, i: nat, k: nat)
    requires i < |s| && k < |s| && DependsOn(s[i], s[k])
    ensures !IsReady(s, i)
  {
  }

  /** A definition initialized with a plain variable depends exactly on the
      definition of that variable. */
  lemma DependsOnVarInit(b: GlobalVarDef, a: GlobalVarDef, w: Variable)
    requires b.init == Some(Var(w))
    ensures DependsOn(b, a) <==> a.v != b.v && a.v == w
  {
    assert Children(Var(w)) == [];
  }

  /** A lone definition comes out alone. */
  lemma SortSingleton(d: GlobalVarDef)
    ensures SortByInterdependencies([d]) == Some([d])
  {
    assert IsReady([d], 0);
    assert BestReady([d], 1) == Some(0);
    assert [d][..0] + [d][1..] == [];
    assert SortByInterdependencies([]) == Some([]);
    assert [[d][0]] + [] == [d];
    SortStep([d], 0, [], [d]);
  }

  lemma SingleDefinitionIsReturned()
    ensures var a := GlobalVarDef(VarA, None);
      SortByInterdependencies([a]) == Some([a])
  {
    SortSingleton(GlobalVarDef(VarA, None));
  }

  /** Of two definitions, the first goes first when it is ready and the
      second is either not ready or has no smaller original name. */
  lemma SortPairFirstWins(a: GlobalVarDef, b: GlobalVarDef)
    requires IsReady([a, b], 0)
    requires !IsReady([a, b], 1) || !LexLess(OriginalName(b), OriginalName(a))
    ensures SortByInterdependencies([a, b]) == Some([a, b])
  {
    var s := [a, b];
    assert BestReady(s, 0) == None;
    BestReadyTakesFirst(s, 1);
    if IsReady(s, 1) {
      BestReadyKeeps(s, 2, 0);
    } else {
      BestReadySkips(s, 2);
    }
    assert s[..0] + s[1..] == [b];
    SortSingleton(b);
    assert [s[0]] + [b] == s;
    SortStep(s, 0, [b], s);
  }

  /** Of three definitions without initializers, the first is picked when
      neither other one has a smaller original name. */
  lemma BestOfThreeUnrelated(a: GlobalVarDef, b: GlobalVarDef, c: GlobalVarDef)
    requires a.init.None? && b.init.None? && c.init.None?
    requires !LexLess(OriginalName(b), OriginalName(a))
    requires !LexLess(OriginalName(c), OriginalName(a))
    ensures BestReady([a, b, c], 3) == Some(0)
  {
    var s := [a, b, c];
    NoInitIsReady(s, 0);
    NoInitIsReady(s, 1);
    NoInitIsReady(s, 2);
    assert BestReady(s, 0) == None;
    BestReadyTakesFirst(s, 1);
    BestReadyKeeps(s, 2, 0);
    BestReadyKeeps(s, 3, 0);
  }

  /** Three definitions without initializers, already in the order of their
      original names, stay in that order. */
  lemma SortThreeUnrelated(a: GlobalVarDef, b: GlobalVarDef, c: GlobalVarDef)
    requires a.init.None? && b.init.None? && c.init.None?
    requires !LexLess(OriginalName(b), OriginalName(a))
    requires !LexLess(OriginalName(c), OriginalName(a))
    requires !LexLess(OriginalName(c), OriginalName(b))
    ensures SortByInterdependencies([a, b, c]) == Some([a, b, c])
  {
    var s := [a, b, c];
    BestOfThreeUnrelated(a, b, c);
    NoInitIsReady([b, c], 0);
    SortPairFirstWins(b, c);
    assert s[..0] + s[1..] == [b, c];
    assert [s[0]] + [b, c] == s;
    SortStep(s, 0, [b, c], s);
  }

  /** a, b and c renamed to z, y and x still come out as a, b, c. */
  lemma UnrelatedDefinitionsOrderedByOriginalName()
    ensures var a := GlobalVarDef(VarA.(name := "z"), None);
      var b := GlobalVarDef(VarB.(name := "y"), None);
      var c := GlobalVarDef(VarC.(name := "x"), None);
      SortByInterdependencies([a, b, c]) == Some([a, b, c])
  {
    assert !LexLess("b", "a") && !LexLess("c", "a") && !LexLess("c", "b");
    SortThreeUnrelated(GlobalVarDef(VarA.(name := "z"), None), GlobalVarDef(VarB.(name := "y"), None),
      GlobalVarDef(VarC.(name := "x"), None));
  }

  /** A definition without an initializer followed by one that depends on
      it stays in that order. */
  lemma SortOrderedPair(a: GlobalVarDef, b: GlobalVarDef)
    requires a.init.None? && DependsOn(b, a)
    ensures SortByInterdependencies([a, b]) == Some([a, b])
  {
    var s := [a, b];
    NoInitIsReady(s, 0);
    DependentIsNotReady(s, 1, 0);
    assert BestReady(s, 0) == None;
    BestReadyTakesFirst(s, 1);
    BestReadySkips(s, 2);
    assert s[..0] + s[1..] == [b];
    SortSingleton(b);
    assert [s[0]] + [b] == [a, b];
    SortStep(s, 0, [b], [a, b]);
  }

  /** A definition that depends on a following definition without an
      initializer is moved after it. */
  lemma SortReversedPair(b: GlobalVarDef, a: GlobalVarDef)
    requires a.init.None? && DependsOn(b, a)
    ensures SortByInterdependencies([b, a]) == Some([a, b])
  {
    var s := [b, a];
    DependentIsNotReady(s, 0, 1);
    NoInitIsReady(s, 1);
    assert BestReady(s, 0) == None;
    BestReadySkips(s, 1);
    BestReadyTakesFirst(s, 2);
    assert s[..1] + s[2..] == [b];
    SortSingleton(b);
    assert [s[1]] + [b] == [a, b];
    SortStep(s, 1, [b], [a, b]);
  }

  /** int a; int b = a; stays as it is. */
  lemma OrderedPairUntouched()
    ensures var a := GlobalVarDef(VarA, None);
      var b := GlobalVarDef(VarB, Some(Var(VarA)));
      SortByInterdependencies([a, b]) == Some([a, b])
  {
    var a := GlobalVarDef(VarA, None);
    var b := GlobalVarDef(VarB, Some(Var(VarA)));
    DependsOnVarInit(b, a, VarA);
    SortOrderedPair(a, b);
  }

  /** int b = a; int a; becomes int a; int b = a; */
  lemma ReversedPairReordered()
    ensures var a := GlobalVarDef(VarA, None);
      var b := GlobalVarDef(VarB, Some(Var(VarA)));
      SortByInterdependencies([b, a]) == Some([a, b])
  {
    var a := GlobalVarDef(VarA, None);
    var b := GlobalVarDef(VarB, Some(Var(VarA)));
    DependsOnVarInit(b, a, VarA);
    SortReversedPair(b, a);
  }

  /** Of b = a, a and c = b, only a is ready. */
  lemma BestOfChain(b: GlobalVarDef, a: GlobalVarDef, c: GlobalVarDef)
    requires a.init.None? && DependsOn(b, a) && DependsOn(c, b)
    ensures BestReady([b, a, c], 3) == Some(1)
  {
    var s := [b, a, c];
    DependentIsNotReady(s, 0, 1);
    NoInitIsReady(s, 1);
    DependentIsNotReady(s, 2, 0);
    assert BestReady(s, 0) == None;
    BestReadySkips(s, 1);
    BestReadyTakesFirst(s, 2);
    BestReadySkips(s, 3);
  }

  /** b = a, then a, then c = b: a is the only ready one, then b, then c. */
  lemma SortChain(b: GlobalVarDef, a: GlobalVarDef, c: GlobalVarDef)
    requires a.init.None? && DependsOn(b, a) && DependsOn(c, b)
    requires !DependsOn(b, c)
    ensures SortByInterdependencies([b, a, c]) == Some([a, b, c])
  {
    var s := [b, a, c];
    BestOfChain(b, a, c);
    var t := [b, c];
    assert IsReady(t, 0);
    DependentIsNotReady(t, 1, 0);
    SortPairFirstWins(b, c);
    assert s[..1] + s[2..] == t;
    assert [s[1]] + t == [a, b, c];
    SortStep(s, 1, t, [a, b, c]);
  }

  /** int b = a; int a; int c = b; becomes a, b, c. */
  lemma ChainReordered()
    ensures var a := GlobalVarDef(VarA, None);
      var b := GlobalVarDef(VarB, Some(Var(VarA)));
      var c := GlobalVarDef(VarC, Some(Var(VarB)));
      SortByInterdependencies([b, a, c]) == Some([a, b, c])
  {
    var a := GlobalVarDef(VarA, None);
    var b := GlobalVarDef(VarB, Some(Var(VarA)));
    var c := GlobalVarDef(VarC, Some(Var(VarB)));
    DependsOnVarInit(b, a, VarA);
    DependsOnVarInit(b, c, VarA);
    DependsOnVarInit(c, b, VarB);
    SortChain(b, a, c);
  }

  /** int *b = &a; int a; becomes int a; int *b = &a; */
  lemma NestedReferenceReordered()
    ensures var a := GlobalVarDef(VarA, None);
      var b := GlobalVarDef(Variable("b", "b", PointerType(IntType(32))), Some(AddressOf(Var(VarA))));
      SortByInterdependencies([b, a]) == Some([a, b])
  {
    var a := GlobalVarDef(VarA, None);
    var b := GlobalVarDef(Variable("b", "b", PointerType(IntType(32))), Some(AddressOf(Var(VarA))));
    assert Children(AddressOf(Var(VarA)))[0] == Var(VarA);
    assert Mentions(AddressOf(Var(VarA)), VarA);
    SortReversedPair(b, a);
  }
}
