/**
 The dependency check of common/kconfig/symbol.c: a depth-first walk over the formulas of all symbols
 that marks symbols with two flags and prints a warning when it runs into a symbol it is still busy
 with. After a warning the walk unwinds to that symbol and leaves formulas on the way unread.
 */
module KconfigDeps {
  import opened KconfigExpr
  import KconfigMenu

  datatype PropertyType = Prompt | Comment | Menu | Default | Choice | Select | Range | UnknownProperty

  datatype Property = Property(typ: PropertyType, visible: MaybeExpr, value: MaybeExpr)

  /** What the walk reads of a symbol. */
  datatype Definition = Definition(revDep: MaybeExpr, props: seq<Property>, isChoice: bool)

  type Graph = map<Symbol, Definition>

  datatype Found = Nothing | At(sym: Symbol)

  // ---- the dependency graph ----

  function Mentioned(e: Expr): set<Symbol> {
    match e
    case Sym(s) => {s}
    case Not(a) => Mentioned(a)
    case And(l, r) => Mentioned(l) + Mentioned(r)
    case Or(l, r) => Mentioned(l) + Mentioned(r)
    case Equal(a, b) => {a, b}
    case Unequal(a, b) => {a, b}
  }

  function MentionedIn(m: MaybeExpr): set<Symbol> {
    if m.Null? then {} else Mentioned(m.e)
  }

  /** What a property makes its symbol depend on. */
  function PropertyDeps(p: Property, isChoice: bool): set<Symbol> {
    if p.typ == Choice || p.typ == Select then {}
    else if p.typ != Default || isChoice then MentionedIn(p.visible)
    else MentionedIn(p.visible) + MentionedIn(p.value)
  }

  function PropertiesDeps(props: seq<Property>, isChoice: bool): set<Symbol> {
    if props == [] then {}
    else PropertiesDeps(props[..|props| - 1], isChoice) + PropertyDeps(props[|props| - 1], isChoice)
  }

  function Deps(g: Graph, s: Symbol): set<Symbol>
    requires s in g
  {
    MentionedIn(g[s].revDep) + PropertiesDeps(g[s].props, g[s].isChoice)
  }

  /** s depends on t directly. */
  predicate Edge(g: Graph, s: Symbol, t: Symbol) {
    s in g && t in Deps(g, s)
  }

  /** Every symbol that is mentioned exists. */
  ghost predicate Closed(g: Graph) {
    forall s, t :: Edge(g, s, t) ==> t in g
  }

  ghost predicate Walk(g: Graph, w: seq<Symbol>) {
    forall i :: 0 <= i < |w| - 1 ==> Edge(g, w[i], w[i + 1])
  }

  /** A walk from a root that comes back to where it has been. */
  ghost predicate Lasso(g: Graph, roots: set<Symbol>, w: seq<Symbol>) {
    |w| > 1 && w[0] in roots && Walk(g, w) && w[|w| - 1] in w[..|w| - 1]
  }

  ghost predicate CycleReachable(g: Graph, roots: set<Symbol>) {
    exists w :: Lasso(g, roots, w)
  }

  /** A line of output lists a cycle, each symbol followed by one that depends on it. */
  ghost predicate Backwards(g: Graph, line: seq<Symbol>) {
    forall i :: 0 <= i < |line| - 1 ==> Edge(g, line[i + 1], line[i])
  }

  ghost predicate Cycle(g: Graph, line: seq<Symbol>) {
    |line| > 1 && line[0] == line[|line| - 1] && Backwards(g, line)
  }

  // ---- what holds during the walk ----

  ghost predicate Seen(ts: set<Symbol>, done: seq<Symbol>) {
    (forall t :: t in ts ==> t in done) <==> true
  }

  lemma SeenStill(ts: set<Symbol>, done: seq<Symbol>, more: seq<Symbol>)
    requires Seen(ts, done) && done <= more
    ensures Seen(ts, more)
  {
    forall t | t in ts ensures t in more { var i :| 0 <= i < |done| && done[i] == t; assert more[i] == t; }
  }

  lemma SeenBoth(a: set<Symbol>, b: set<Symbol>, done: seq<Symbol>)
    requires Seen(a, done) && Seen(b, done)
    ensures Seen(a + b, done)
  {
  }

  /** Every symbol comes after all it depends on. */
  ghost predicate Sorted(g: Graph, done: seq<Symbol>) {
    forall i :: 0 <= i < |done| ==> done[i] in g && forall t :: t in Deps(g, done[i]) ==> t in done[..i]
  }

  /** path is where the walk is. */
  ghost predicate OnPath(g: Graph, roots: set<Symbol>, path: seq<Symbol>) {
    && Walk(g, path) && (path != [] ==> path[0] in roots)
    && forall s :: s in path ==> s in g
  }

  ghost predicate Flagged(check: set<Symbol>, checked: set<Symbol>, path: seq<Symbol>) {
    && (forall s :: s in check <==> s in path) && check <= checked
    && forall i, j :: 0 <= i < j < |path| ==> path[i] != path[j]
  }

  ghost predicate Honest(g: Graph, roots: set<Symbol>, lines: seq<seq<Symbol>>) {
    (forall k :: 0 <= k < |lines| ==> Cycle(g, lines[k])) && (lines != [] ==> CycleReachable(g, roots))
  }

  /** As long as nothing was reported, symbols that are done have been read in full. */
  ghost predicate Thorough(g: Graph, checked: set<Symbol>, lines: seq<seq<Symbol>>, done: seq<Symbol>,
                           path: seq<Symbol>) {
    lines == [] ==> Sorted(g, done) && forall s :: s in checked <==> s in path || s in done
  }

  /** An unfinished line: the symbol that was run into, then the path back from its last dependent up to `last`. */
  ghost predicate Unwinding(g: Graph, line: seq<Symbol>, found: Symbol, last: Symbol) {
    line != [] && line[0] == found && line[|line| - 1] == last && Backwards(g, line)
  }

  /** In a sorted graph no walk comes back. */
  lemma {:induction false} SortedWalk(g: Graph, done: seq<Symbol>, w: seq<Symbol>, k: nat)
    requires Sorted(g, done) && Walk(g, w) && |w| > 0 && k < |done| && w[0] == done[k]
    ensures forall i :: 0 < i < |w| ==> w[i] in done[..k]
  {
    if |w| > 1 {
      assert Edge(g, w[0], w[1]);
      var j :| 0 <= j < k && done[j] == w[1];
      assert Walk(g, w[1..]) by {
        forall i | 0 <= i < |w[1..]| - 1 ensures Edge(g, w[1..][i], w[1..][i + 1]) {
          assert Edge(g, w[i + 1], w[i + 2]);
        }
      }
      SortedWalk(g, done, w[1..], j);
      forall i | 0 < i < |w| ensures w[i] in done[..k] {
        assert w[i] == w[1..][i - 1];
        if i > 1 { assert w[1..][i - 1] in done[..j]; }
      }
    }
  }

  lemma FirstPlace(done: seq<Symbol>, s: Symbol) returns (k: nat)
    requires s in done
    ensures k < |done| && done[k] == s && s !in done[..k]
  {
    k := 0;
    while done[k] != s
      invariant k < |done| && s !in done[..k]
      decreases |done| - k
    {
      k := k + 1;
    }
  }

  lemma NoLasso(g: Graph, roots: set<Symbol>, done: seq<Symbol>)
    requires Sorted(g, done) && forall r :: r in roots ==> r in done
    ensures !CycleReachable(g, roots)
  {
    forall w ensures !Lasso(g, roots, w) {
      if Lasso(g, roots, w) {
        var n := |w| - 1;
        var i :| 0 <= i < n && w[i] == w[n];
        var r := FirstPlace(done, w[0]);
        SortedWalk(g, done, w, r);
        var k := FirstPlace(done, w[i]);
        SuffixWalk(g, w, i);
        assert w[i..][n - i] == w[n];
        SortedWalk(g, done, w[i..], k);
        assert false;
      }
    }
  }

  lemma SuffixWalk(g: Graph, w: seq<Symbol>, i: nat)
    requires Walk(g, w) && i <= |w|
    ensures Walk(g, w[i..])
  {
    forall j | 0 <= j < |w[i..]| - 1 ensures Edge(g, w[i..][j], w[i..][j + 1]) {
      assert Edge(g, w[i + j], w[i + j + 1]);
    }
  }

  lemma Longer(g: Graph, w: seq<Symbol>, s: Symbol)
    requires Walk(g, w) && (w != [] ==> Edge(g, w[|w| - 1], s))
    ensures Walk(g, w + [s])
  {
    forall i | 0 <= i < |w + [s]| - 1 ensures Edge(g, (w + [s])[i], (w + [s])[i + 1]) {
      if i < |w| - 1 { assert Edge(g, w[i], w[i + 1]); }
    }
  }

  lemma ShorterPath(g: Graph, roots: set<Symbol>, check: set<Symbol>, checked: set<Symbol>, path: seq<Symbol>,
                    s: Symbol)
    requires OnPath(g, roots, path + [s]) && Flagged(check, checked, path + [s])
    ensures OnPath(g, roots, path) && Flagged(check - {s}, checked, path) && s in g && s !in path
  {
    var w := path + [s];
    assert forall i :: 0 <= i < |path| ==> path[i] == w[i];
    assert w[|path|] == s;
    forall i | 0 <= i < |path| - 1 ensures Edge(g, path[i], path[i + 1]) { assert Edge(g, w[i], w[i + 1]); }
    forall x | x in path ensures x in w && x != s {
      var i :| 0 <= i < |path| && path[i] == x;
      assert w[i] != w[|path|];
    }
    forall i, j | 0 <= i < j < |path| ensures path[i] != path[j] { assert w[i] != w[j]; }
  }

  lemma SortedPush(g: Graph, done: seq<Symbol>, s: Symbol)
    requires Sorted(g, done) && s in g && forall t :: t in Deps(g, s) ==> t in done
    ensures Sorted(g, done + [s])
  {
    var more := done + [s];
    assert more[..|done|] == done;
    forall i | 0 <= i < |more| ensures more[i] in g && forall t :: t in Deps(g, more[i]) ==> t in more[..i] {
      if i < |done| { assert more[..i] == done[..i]; }
    }
  }

  lemma Back(g: Graph, line: seq<Symbol>, s: Symbol)
    requires Backwards(g, line) && line != [] && Edge(g, s, line[|line| - 1])
    ensures Backwards(g, line + [s])
  {
    var more := line + [s];
    forall i | 0 <= i < |more| - 1 ensures Edge(g, more[i + 1], more[i]) {
      if i < |line| - 1 { assert Edge(g, line[i + 1], line[i]); }
    }
  }

  lemma {:induction false} PropertyDepsIn(props: seq<Property>, i: nat, isChoice: bool)
    requires i < |props|
    ensures PropertyDeps(props[i], isChoice) <= PropertiesDeps(props, isChoice)
    ensures PropertiesDeps(props[..i + 1], isChoice)
            == PropertiesDeps(props[..i], isChoice) + PropertyDeps(props[i], isChoice)
  {
    assert props[..i + 1][..i] == props[..i];
    if i < |props| - 1 {
      PropertyDepsIn(props[..|props| - 1], i, isChoice);
    }
  }

  predicate Contains(m: MaybeExpr, t: Symbol) {
    m.Tree? && KconfigMenu.ContainsSymbol(m.e, t)
  }

  lemma {:induction false} MentionedContains(e: Expr, t: Symbol)
    ensures t in Mentioned(e) <==> KconfigMenu.ContainsSymbol(e, t)
  {
    match e
    case Not(a) => MentionedContains(a, t);
    case And(l, r) => MentionedContains(l, t); MentionedContains(r, t);
    case Or(l, r) => MentionedContains(l, t); MentionedContains(r, t);
    case _ =>
  }

  /** The property makes its symbol depend on t: by its condition or, for the default of no choice, by its value. */
  predicate Involves(p: Property, isChoice: bool, t: Symbol) {
    p.typ !in {Choice, Select} && (Contains(p.visible, t) || (p.typ == Default && !isChoice && Contains(p.value, t)))
  }

  lemma {:induction false} PropertiesDepsExact(props: seq<Property>, isChoice: bool, t: Symbol)
    ensures t in PropertiesDeps(props, isChoice)
       <==> exists i :: 0 <= i < |props| && Involves(props[i], isChoice, t)
  {
    if props != [] {
      var n := |props| - 1;
      var p := props[n];
      PropertiesDepsExact(props[..n], isChoice, t);
      if p.visible.Tree? { MentionedContains(p.visible.e, t); }
      if p.value.Tree? { MentionedContains(p.value.e, t); }
      assert t in PropertyDeps(p, isChoice) <==> Involves(p, isChoice, t);
      assert forall i :: 0 <= i < n ==> props[..n][i] == props[i];
    }
  }

  /** s depends on t exactly when its reverse dependency contains t or one of its properties involves t. */
  lemma EdgeExact(g: Graph, s: Symbol, t: Symbol)
    ensures Edge(g, s, t) <==>
              s in g && (Contains(g[s].revDep, t)
                         || exists i :: 0 <= i < |g[s].props| && Involves(g[s].props[i], g[s].isChoice, t))
  {
    if s in g {
      PropertiesDepsExact(g[s].props, g[s].isChoice, t);
      if g[s].revDep.Tree? { MentionedContains(g[s].revDep.e, t); }
    }
  }

  // ---- the code ----

  /** The symbol table: the two flags as sets, and what has been printed. */
  class Symbols {
    const defs: Graph
    var check: set<Symbol>
    var checked: set<Symbol>
    var lines: seq<seq<Symbol>>
    var line: seq<Symbol>
    ghost const roots: set<Symbol>
    ghost var done: seq<Symbol>

    /** As the parser leaves it: no flag is set. `symbols` is what the hash table holds. */
    constructor (defs: Graph, symbols: seq<Symbol>)
      ensures this.defs == defs && roots == (set s | s in symbols && s.Type() != Other)
      ensures check == {} && checked == {} && lines == [] && line == [] && done == []
    {
      this.defs, roots := defs, set s | s in symbols && s.Type() != Other;
      check, checked, lines, line, done := {}, {}, [], [], [];
    }

    /** Between two reports, with the walk at `path`. */
    ghost predicate Walking(path: seq<Symbol>)
      reads this
    {
      (&& Closed(defs) && OnPath(defs, roots, path) && Flagged(check, checked, path) && checked <= defs.Keys
       && Honest(defs, roots, lines) && Thorough(defs, checked, lines, done, path) && line == []) <==> true
    }

    /** On the way back from a symbol on the path that was run into. */
    ghost predicate Reporting(path: seq<Symbol>, found: Symbol, last: Symbol)
      reads this
    {
      (&& Closed(defs) && OnPath(defs, roots, path) && Flagged(check, checked, path) && checked <= defs.Keys
       && Honest(defs, roots, lines) && CycleReachable(defs, roots)
       && found in path && Unwinding(defs, line, found, last)) <==> true
    }

    /** `s` is the symbol the walk may go to next. */
    ghost predicate Next(path: seq<Symbol>, s: Symbol) {
      s in defs && if path == [] then s in roots else Edge(defs, path[|path| - 1], s)
    }

    ghost predicate Outcome(r: Found, path: seq<Symbol>, last: Symbol)
      reads this
    {
      match r
      case Nothing => Walking(path)
      case At(t) => Reporting(path, t, last)
    }

    /** The symbol is on the path already. */
    method Report(s: Symbol, ghost path: seq<Symbol>)
      requires Walking(path) && Next(path, s) && s in check
      modifies this
      ensures Reporting(path, s, s) && checked == old(checked) && done == old(done) && lines == old(lines)
    {
      Longer(defs, path, s);
      assert Lasso(defs, roots, path + [s]) by { assert (path + [s])[..|path|] == path; }
      line := [s];
    }

    /** The symbol gets both flags. */
    method Begin(s: Symbol, ghost path: seq<Symbol>)
      requires Walking(path) && Next(path, s) && s !in check && s !in checked
      modifies this
      ensures Walking(path + [s]) && checked == old(checked) + {s} && done == old(done) && lines == old(lines)
    {
      Longer(defs, path, s);
      check, checked := check + {s}, checked + {s};
    }

    /** A report passes s: its name is printed, and the line ends when s is the symbol that was run into. */
    method Unwind(s: Symbol, found: Symbol, ghost path: seq<Symbol>, ghost last: Symbol) returns (r: Found)
      requires Reporting(path + [s], found, last) && Edge(defs, s, last)
      modifies this
      ensures Outcome(r, path, s) && checked == old(checked) && done == old(done) && old(lines) <= lines
      ensures r == if found == s then Nothing else At(found)
      ensures lines == old(lines) + if found == s then [old(line) + [s]] else []
    {
      ShorterPath(defs, roots, check, checked, path, s);
      Back(defs, line, s);
      line := line + [s];
      r := At(found);
      if found == s {
        lines := lines + [line];
        line := [];
        r := Nothing;
      }
      check := check - {s};
    }

    /** All it depends on has been seen. */
    method Leave(s: Symbol, ghost path: seq<Symbol>)
      requires Walking(path + [s]) && (lines == [] ==> Seen(Deps(defs, s), done))
      modifies this
      ensures Walking(path) && checked == old(checked) && old(done) <= done && lines == old(lines) && s in done
    {
      ShorterPath(defs, roots, check, checked, path, s);
      if lines == [] { SortedPush(defs, done, s); }
      check := check - {s};
      done := done + [s];
    }

    /** `sym_check_expr_deps`: the symbols of a formula of s, the last symbol of the path. */
    method CheckExpr(e: Expr, s: Symbol, ghost path: seq<Symbol>) returns (r: Found, ghost last: Symbol)
      requires Walking(path + [s]) && forall t :: t in Mentioned(e) ==> Edge(defs, s, t)
      modifies this
      ensures Outcome(r, path + [s], last) && (r.At? ==> Edge(defs, s, last))
      ensures old(checked) <= checked && old(done) <= done && old(lines) <= lines
      ensures r.Nothing? && lines == [] ==> Seen(Mentioned(e), done)
      decreases defs.Keys - checked, 1, Size(e)
    {
      last := s;
      match e
      case Sym(t) =>
        assert Edge(defs, s, t);
        r := CheckDeps(t, path + [s]);
        last := t;
      case Not(a) =>
        r, last := CheckExpr(a, s, path);
      case And(a, b) =>
        r, last := CheckBoth(a, b, s, path);
      case Or(a, b) =>
        r, last := CheckBoth(a, b, s, path);
      case Equal(a, b) =>
        r, last := CheckPair(a, b, s, path);
      case Unequal(a, b) =>
        r, last := CheckPair(a, b, s, path);
    }

    method CheckBoth(a: Expr, b: Expr, s: Symbol, ghost path: seq<Symbol>) returns (r: Found, ghost last: Symbol)
      requires Walking(path + [s]) && forall t :: t in Mentioned(a) + Mentioned(b) ==> Edge(defs, s, t)
      modifies this
      ensures Outcome(r, path + [s], last) && (r.At? ==> Edge(defs, s, last))
      ensures old(checked) <= checked && old(done) <= done && old(lines) <= lines
      ensures r.Nothing? && lines == [] ==> Seen(Mentioned(a) + Mentioned(b), done)
      decreases defs.Keys - checked, 1, Size(a) + Size(b)
    {
      r, last := CheckExpr(a, s, path);
      if r.Nothing? {
        ghost var was := done;
        r, last := CheckExpr(b, s, path);
        if r.Nothing? && lines == [] {
          SeenStill(Mentioned(a), was, done);
          SeenBoth(Mentioned(a), Mentioned(b), done);
        }
      }
    }

    method CheckPair(a: Symbol, b: Symbol, s: Symbol, ghost path: seq<Symbol>) returns (r: Found, ghost last: Symbol)
      requires Walking(path + [s]) && Edge(defs, s, a) && Edge(defs, s, b)
      modifies this
      ensures Outcome(r, path + [s], last) && (r.At? ==> Edge(defs, s, last))
      ensures old(checked) <= checked && old(done) <= done && old(lines) <= lines
      ensures r.Nothing? && lines == [] ==> a in done && b in done
      decreases defs.Keys - checked, 1, 0
    {
      last := a;
      r := CheckDeps(a, path + [s]);
      if r.Nothing? {
        last := b;
        r := CheckDeps(b, path + [s]);
      }
    }

    /** A formula that may be missing. */
    method CheckMaybe(m: MaybeExpr, s: Symbol, ghost path: seq<Symbol>) returns (r: Found, ghost last: Symbol)
      requires Walking(path + [s]) && forall t :: t in MentionedIn(m) ==> Edge(defs, s, t)
      modifies this
      ensures Outcome(r, path + [s], last) && (r.At? ==> Edge(defs, s, last))
      ensures old(checked) <= checked && old(done) <= done && old(lines) <= lines
      ensures r.Nothing? && lines == [] ==> Seen(MentionedIn(m), done)
      decreases defs.Keys - checked, 1, if m.Null? then 0 else Size(m.e) + 1
    {
      r, last := Nothing, s;
      if m.Tree? {
        r, last := CheckExpr(m.e, s, path);
      }
    }

    /** `sym_check_deps` */
    method CheckDeps(s: Symbol, ghost path: seq<Symbol>) returns (r: Found)
      requires Walking(path) && Next(path, s)
      modifies this
      ensures Outcome(r, path, s)
      ensures old(checked) <= checked && old(done) <= done && old(lines) <= lines
      ensures r.Nothing? && lines == [] ==> s in done
      ensures path == [] ==> r.Nothing?
      decreases defs.Keys - checked, 0, 0
    {
      if s in check {
        Report(s, path);
        return At(s);
      }
      if s in checked {
        return Nothing;
      }
      Begin(s, path);
      ghost var last;
      r, last := CheckFormulas(s, path);
      match r
      case At(t) => r := Unwind(s, t, path, last);
      case Nothing => Leave(s, path);
    }

    method CheckProperty(p: Property, isChoice: bool, s: Symbol, ghost path: seq<Symbol>) returns (r: Found,
                         ghost last: Symbol)
      requires Walking(path + [s]) && forall t :: t in PropertyDeps(p, isChoice) ==> Edge(defs, s, t)
      modifies this
      ensures Outcome(r, path + [s], last) && (r.At? ==> Edge(defs, s, last))
      ensures old(checked) <= checked && old(done) <= done && old(lines) <= lines
      ensures r.Nothing? && lines == [] ==> Seen(PropertyDeps(p, isChoice), done)
      decreases defs.Keys - checked, 2, 0
    {
      r, last := Nothing, s;
      if p.typ == Choice || p.typ == Select {
        return;
      }
      r, last := CheckMaybe(p.visible, s, path);
      if r.At? || p.typ != Default || isChoice {
        return;
      }
      ghost var was := done;
      r, last := CheckMaybe(p.value, s, path);
      if r.Nothing? && lines == [] {
        SeenStill(MentionedIn(p.visible), was, done);
        SeenBoth(MentionedIn(p.visible), MentionedIn(p.value), done);
      }
    }

    /** The formulas of s, up to the first one that leads to a report. */
    method CheckFormulas(s: Symbol, ghost path: seq<Symbol>) returns (r: Found, ghost last: Symbol)
      requires Walking(path + [s]) && s in defs
      modifies this
      ensures Outcome(r, path + [s], last) && (r.At? ==> Edge(defs, s, last))
      ensures old(checked) <= checked && old(done) <= done && old(lines) <= lines
      ensures r.Nothing? && lines == [] ==> Seen(Deps(defs, s), done)
      decreases defs.Keys - checked, 4, 0
    {
      var def := defs[s];
      r, last := CheckMaybe(def.revDep, s, path);
      if r.Nothing? {
        ghost var was := done;
        r, last := CheckProperties(def.props, def.isChoice, s, path);
        if r.Nothing? && lines == [] {
          SeenStill(MentionedIn(def.revDep), was, done);
          SeenBoth(MentionedIn(def.revDep), PropertiesDeps(def.props, def.isChoice), done);
        }
      }
    }

    method CheckProperties(props: seq<Property>, isChoice: bool, s: Symbol,
                           ghost path: seq<Symbol>) returns (r: Found, ghost last: Symbol)
      requires Walking(path + [s]) && forall t :: t in PropertiesDeps(props, isChoice) ==> Edge(defs, s, t)
      modifies this
      ensures Outcome(r, path + [s], last) && (r.At? ==> Edge(defs, s, last))
      ensures old(checked) <= checked && old(done) <= done && old(lines) <= lines
      ensures r.Nothing? && lines == [] ==> Seen(PropertiesDeps(props, isChoice), done)
      decreases defs.Keys - checked, 3, 0
    {
      r, last := Nothing, s;
      var i := 0;
      while r.Nothing? && i < |props|
        invariant 0 <= i <= |props| && Outcome(r, path + [s], last) && (r.At? ==> Edge(defs, s, last))
        invariant old(checked) <= checked && old(done) <= done && old(lines) <= lines
        invariant r.Nothing? && lines == [] ==> Seen(PropertiesDeps(props[..i], isChoice), done)
        decreases |props| - i
      {
        PropertyDepsIn(props, i, isChoice);
        ghost var was := done;
        r, last := CheckProperty(props[i], isChoice, s, path);
        if r.Nothing? && lines == [] {
          SeenStill(PropertiesDeps(props[..i], isChoice), was, done);
          SeenBoth(PropertiesDeps(props[..i], isChoice), PropertyDeps(props[i], isChoice), done);
        }
        i := i + 1;
      }
      assert props[..|props|] == props;
    }

    /**
     `for_all_symbols(i, sym) sym_check_deps(sym)`, with no flag set: a warning is printed exactly when
     there is a cycle.
     */
    method CheckAll(symbols: seq<Symbol>)
      requires Closed(defs) && check == {} && checked == {} && lines == [] && line == [] && done == []
      requires forall s :: s in symbols ==> s in defs
      requires roots == set s | s in symbols && s.Type() != Other
      modifies this
      ensures lines != [] <==> CycleReachable(defs, roots)
      ensures RestBare(defs, roots) ==> (lines != [] <==> exists line :: Cycle(defs, line))
      ensures forall k :: 0 <= k < |lines| ==> Cycle(defs, lines[k])
      ensures check == {} && line == []
    {
      var i := 0;
      while i < |symbols|
        invariant 0 <= i <= |symbols| && Walking([])
        invariant lines == [] ==> forall s :: s in symbols[..i] && s in roots ==> s in done
      {
        if symbols[i].Type() != Other {
          var r := CheckDeps(symbols[i], []);
        }
        i := i + 1;
      }
      if lines == [] {
        NoLasso(defs, roots, done);
      }
      if RestBare(defs, roots) {
        AnyCycle(defs, roots);
      }
    }
  }

  lemma {:induction false} ReversedWalk(g: Graph, w: seq<Symbol>, line: seq<Symbol>)
    requires |line| == |w| && forall i :: 0 <= i < |w| ==> line[i] == w[|w| - 1 - i]
    ensures Walk(g, w) <==> Backwards(g, line)
  {
    if Walk(g, w) {
      forall i | 0 <= i < |line| - 1 ensures Edge(g, line[i + 1], line[i]) {
        var j := |w| - 2 - i;
        assert Edge(g, w[j], w[j + 1]);
      }
    }
    if Backwards(g, line) {
      forall i | 0 <= i < |w| - 1 ensures Edge(g, w[i], w[i + 1]) {
        var j := |w| - 2 - i;
        assert Edge(g, line[j + 1], line[j]);
      }
    }
  }

  /** Symbols the check does not start from have no formulas: y, m, n and symbols of type S_OTHER. */
  ghost predicate RestBare(g: Graph, roots: set<Symbol>) {
    forall s :: s in g && s !in roots ==> Deps(g, s) == {}
  }

  /** Read forwards, a cycle is a walk from a symbol that depends on something back to itself. */
  lemma CycleIsLasso(g: Graph, roots: set<Symbol>, line: seq<Symbol>) returns (w: seq<Symbol>)
    requires RestBare(g, roots) && Cycle(g, line)
    ensures Lasso(g, roots, w)
  {
    var n := |line| - 1;
    w := seq(|line|, i requires 0 <= i <= n => line[n - i]);
    ReversedWalk(g, w, line);
    assert w[..n][0] == w[n] && Edge(g, w[0], w[1]);
  }

  /** From where it comes back to, a lasso is a cycle. */
  lemma LassoHoldsCycle(g: Graph, roots: set<Symbol>, w: seq<Symbol>) returns (line: seq<Symbol>)
    requires Lasso(g, roots, w)
    ensures Cycle(g, line)
  {
    var n := |w| - 1;
    var i :| 0 <= i < n && w[..n][i] == w[n];
    line := seq(n + 1 - i, k requires 0 <= k <= n - i => w[n - k]);
    SuffixWalk(g, w, i);
    ReversedWalk(g, w[i..], line);
  }

  /** When the symbols that are not roots are bare, a warning means a cycle and every cycle means a warning. */
  lemma AnyCycle(g: Graph, roots: set<Symbol>)
    requires RestBare(g, roots)
    ensures CycleReachable(g, roots) <==> exists line :: Cycle(g, line)
  {
    if line :| Cycle(g, line) {
      var w := CycleIsLasso(g, roots, line);
    }
    if w :| Lasso(g, roots, w) {
      var line := LassoHoldsCycle(g, roots, w);
    }
  }
}
