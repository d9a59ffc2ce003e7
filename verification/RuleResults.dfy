/** What matched rules ask for, and how their results are merged into one decision for a file
    (`rules/evaluator.py`, `rules/schema.py`, `RulesService.evaluate_file`). */
module RuleResults {
  import opened Options
  import opened RuleMatch

  datatype Severity = Ok | Info | Warn | High | Error | Crit

  function Rank(s: Severity): int {
    match s
    case Ok => 10
    case Info => 20
    case Warn => 40
    case High => 60
    case Error => 80
    case Crit => 100
  }

  datatype Throttle = Throttle(windowSeconds: int, maxPerWindow: int)
  datatype Notice = Notice(channel: string, message: Option<string>, throttle: Option<Throttle>)
  datatype Request = Request(target: string, integration: string)

  datatype Action =
    | SetSeverity(severity: Severity)
    | AddTag(tag: string)
    | QueueOptimization(profile: string)
    | Notify(notice: Notice)
    | Delete(reason: Option<string>)
    | VtLookup
    | SearchUpstream(request: Request)

  datatype Rule = Rule(match_: Match, actions: seq<Action>, acknowledged: bool)

  /** `_validate_destructive_ack`: the flag is set exactly on rules that delete. */
  predicate ValidRule(r: Rule) {
    r.actions != [] && (r.acknowledged <==> exists i :: 0 <= i < |r.actions| && r.actions[i].Delete?)
  }

  /** The value of an `EvaluationResult`. */
  datatype Decision = Decision(severity: Option<Severity>, rank: int, tags: seq<string>, optimizations: seq<string>,
                               notices: seq<Notice>, deletePaths: seq<string>, deleteReasons: seq<string>,
                               vtLookup: bool, requests: seq<Request>)

  const NOTHING_YET := Decision(None, 0, [], [], [], [], [], false, [])

  /** Where `evaluate_file` starts its aggregate. */
  const ALL_FINE := NOTHING_YET.(severity := Some(Ok), rank := 10)

  function WithTag(tags: seq<string>, tag: string): seq<string> {
    if tag in tags then tags else tags + [tag]
  }

  function WithTags(tags: seq<string>, more: seq<string>): seq<string> {
    if more == [] then tags else WithTag(WithTags(tags, more[..|more| - 1]), more[|more| - 1])
  }

  function ReasonOf(reason: Option<string>): string {
    if reason.Some? && reason.value != [] then reason.value else "Deleted by rule"
  }

  /** One action's effect. */
  function Acted(d: Decision, a: Action, path: string): Decision {
    match a
    case SetSeverity(s) => if Rank(s) > d.rank then d.(severity := Some(s), rank := Rank(s)) else d
    case AddTag(t) => d.(tags := WithTag(d.tags, t))
    case QueueOptimization(p) => d.(optimizations := d.optimizations + [p])
    case Notify(n) => d.(notices := d.notices + [n])
    case Delete(r) => d.(deletePaths := d.deletePaths + [path], deleteReasons := d.deleteReasons + [ReasonOf(r)])
    case VtLookup => d.(vtLookup := true)
    case SearchUpstream(r) => d.(requests := d.requests + [r])
  }

  function ActedAll(actions: seq<Action>, path: string): Decision {
    if actions == [] then NOTHING_YET
    else Acted(ActedAll(actions[..|actions| - 1], path), actions[|actions| - 1], path)
  }

  /** `merge_into`: what `into` becomes when `d` is merged into it. */
  function Merged(into: Decision, d: Decision): Decision {
    var loud := d.severity.Some? && d.rank > into.rank;
    Decision(if loud then d.severity else into.severity, if loud then d.rank else into.rank,
             WithTags(into.tags, d.tags), into.optimizations + d.optimizations, into.notices + d.notices,
             into.deletePaths + d.deletePaths, into.deleteReasons + d.deleteReasons,
             into.vtLookup || d.vtLookup, into.requests + d.requests)
  }

  function MergedAll(ds: seq<Decision>): Decision {
    if ds == [] then ALL_FINE else Merged(MergedAll(ds[..|ds| - 1]), ds[|ds| - 1])
  }

  /** The results of the rules that match a file; nothing if evaluating one raises. */
  function Matched(lib: Library, rules: seq<Rule>, file: FileInfo, path: string): Option<seq<Decision>> {
    if rules == [] then Some([])
    else
      var before := Matched(lib, rules[..|rules| - 1], file, path);
      var rule := rules[|rules| - 1];
      match Eval(lib, rule.match_, file)
      case Raises => None
      case Is(b) => if before.None? || !b then before else Some(before.value + [ActedAll(rule.actions, path)])
  }

  // ---- As the code keeps it -----------------------------------------------------------

  class EvaluationResult {
    var severity: Option<Severity>
    var rank: int
    var tags: seq<string>
    var optimizations: seq<string>
    var notices: seq<Notice>
    var deletePaths: seq<string>
    var deleteReasons: seq<string>
    var vtLookup: bool
    var requests: seq<Request>

    function Value(): Decision
      reads this
    {
      Decision(severity, rank, tags, optimizations, notices, deletePaths, deleteReasons, vtLookup, requests)
    }

    constructor (severity: Option<Severity>, rank: int)
      ensures Value() == NOTHING_YET.(severity := severity, rank := rank)
    {
      this.severity, this.rank := severity, rank;
      tags, optimizations, notices, deletePaths, deleteReasons, vtLookup, requests := [], [], [], [], [], false, [];
    }

    /** `_apply_action`. */
    method ApplyAction(a: Action, path: string)
      modifies this
      ensures Value() == Acted(old(Value()), a, path)
      ensures rank >= old(rank)
    {
      match a
      case SetSeverity(s) =>
        if Rank(s) > rank { severity, rank := Some(s), Rank(s); }
      case AddTag(t) =>
        if t !in tags { tags := tags + [t]; }
      case QueueOptimization(p) => optimizations := optimizations + [p];
      case Notify(n) => notices := notices + [n];
      case Delete(r) =>
        deletePaths := deletePaths + [path];
        deleteReasons := deleteReasons + [ReasonOf(r)];
      case VtLookup => vtLookup := true;
      case SearchUpstream(r) => requests := requests + [r];
    }

    /** `merge_into`. */
    method MergeInto(other: EvaluationResult)
      requires other != this
      modifies other
      ensures other.Value() == Merged(old(other.Value()), Value())
      ensures other.rank >= old(other.rank)
    {
      if severity.Some? && rank > other.rank {
        other.severity, other.rank := severity, rank;
      }
      var i := 0;
      ghost var before := other.tags;
      var merged := other.tags;
      while i < |tags|
        modifies {}
        invariant 0 <= i <= |tags|
        invariant merged == WithTags(before, tags[..i])
      {
        assert tags[..i + 1][..i] == tags[..i];
        if tags[i] !in merged { merged := merged + [tags[i]]; }
        i := i + 1;
      }
      assert tags[..i] == tags;
      other.tags := merged;
      other.optimizations := other.optimizations + optimizations;
      other.notices := other.notices + notices;
      other.deletePaths := other.deletePaths + deletePaths;
      other.deleteReasons := other.deleteReasons + deleteReasons;
      if vtLookup { other.vtLookup := true; }
      other.requests := other.requests + requests;
    }
  }

  /** `evaluate`: whether the rule matches, or that its tree raises, and what it asks for. */
  method Evaluate(lib: Library, rule: Rule, file: FileInfo, path: string)
    returns (matched: Outcome, result: EvaluationResult)
    ensures matched == Eval(lib, rule.match_, file)
    ensures fresh(result)
    ensures result.Value() == if matched == Is(true) then ActedAll(rule.actions, path) else NOTHING_YET
  {
    result := new EvaluationResult(None, 0);
    matched := Eval(lib, rule.match_, file);
    if matched != Is(true) { return; }
    var i := 0;
    while i < |rule.actions|
      invariant 0 <= i <= |rule.actions|
      invariant fresh(result)
      invariant result.Value() == ActedAll(rule.actions[..i], path)
    {
      assert rule.actions[..i + 1][..i] == rule.actions[..i];
      result.ApplyAction(rule.actions[i], path);
      i := i + 1;
    }
    assert rule.actions[..i] == rule.actions;
  }

  /** The aggregation of `evaluate_file`: nothing if evaluating a rule raises. */
  method EvaluateFile(lib: Library, rules: seq<Rule>, file: FileInfo, path: string) returns (out: Option<Decision>)
    ensures out.None? <==> Matched(lib, rules, file, path).None?
    ensures out.Some? ==> out.value == MergedAll(Matched(lib, rules, file, path).value)
  {
    hide Eval, ActedAll, Merged;
    var aggregate := new EvaluationResult(Some(Ok), 10);
    var i := 0;
    while i < |rules|
      invariant 0 <= i <= |rules|
      invariant Matched(lib, rules[..i], file, path).Some?
      invariant aggregate.Value() == MergedAll(Matched(lib, rules[..i], file, path).value)
    {
      assert rules[..i + 1][..i] == rules[..i];
      var matched, result := Evaluate(lib, rules[i], file, path);
      if matched.Raises? {
        MatchedRaisesExactly(lib, rules, file, path);
        return None;
      }
      if matched.holds {
        ghost var before := Matched(lib, rules[..i], file, path).value;
        assert (before + [result.Value()])[..|before|] == before;
        result.MergeInto(aggregate);
      }
      i := i + 1;
    }
    assert rules[..i] == rules;
    return Some(aggregate.Value());
  }

  // ---- What every decision satisfies --------------------------------------------------

  ghost predicate NoRepeats(tags: seq<string>) {
    forall i, j :: 0 <= i < j < |tags| ==> tags[i] != tags[j]
  }

  /** The label agrees with the rank, tags are unique, and every path has its reason. */
  ghost predicate WellFormed(d: Decision) {
    && (if d.severity.Some? then d.rank == Rank(d.severity.value) else d.rank == 0)
    && NoRepeats(d.tags)
    && |d.deletePaths| == |d.deleteReasons|
  }

  lemma {:induction false} WithTagsUnion(tags: seq<string>, more: seq<string>)
    requires NoRepeats(tags)
    ensures NoRepeats(WithTags(tags, more))
    ensures forall t :: t in WithTags(tags, more) <==> t in tags || t in more
  {
    if more != [] {
      WithTagsUnion(tags, more[..|more| - 1]);
      assert forall t :: t in more <==> t in more[..|more| - 1] || t == more[|more| - 1];
    }
  }

  lemma {:induction false} ActedAllWellFormed(actions: seq<Action>, path: string)
    ensures WellFormed(ActedAll(actions, path))
  {
    if actions != [] { ActedAllWellFormed(actions[..|actions| - 1], path); }
  }

  // ---- What a rule asks for -----------------------------------------------------------

  /** What `f` finds in the elements, in order. */
  function Collected<S, T>(xs: seq<S>, f: S -> seq<T>): seq<T> {
    if xs == [] then [] else Collected(xs[..|xs| - 1], f) + f(xs[|xs| - 1])
  }

  function ProfilesOf(a: Action): seq<string> {
    if a.QueueOptimization? then [a.profile] else []
  }

  function NoticesOf(a: Action): seq<Notice> {
    if a.Notify? then [a.notice] else []
  }

  function RequestsOf(a: Action): seq<Request> {
    if a.SearchUpstream? then [a.request] else []
  }

  function ReasonsOf(a: Action): seq<string> {
    if a.Delete? then [ReasonOf(a.reason)] else []
  }

  /** The severities are told apart by rank, in this order, all above no severity. */
  lemma RanksAscend()
    ensures 0 < Rank(Ok) < Rank(Info) < Rank(Warn) < Rank(High) < Rank(Error) < Rank(Crit)
  {
  }

  /** The tags a rule gives are those of its tag actions, and its severity is the highest of its
      severity actions. */
  lemma {:induction false} RuleTagsAndSeverity(actions: seq<Action>, path: string)
    ensures var d := ActedAll(actions, path);
            && (forall t :: t in d.tags <==> AddTag(t) in actions)
            && (d.vtLookup <==> VtLookup in actions)
            && (forall s :: SetSeverity(s) in actions ==> Rank(s) <= d.rank)
            && (d.rank == 0 || exists s :: SetSeverity(s) in actions && Rank(s) == d.rank)
  {
    if actions != [] {
      var init, last := actions[..|actions| - 1], actions[|actions| - 1];
      RuleTagsAndSeverity(init, path);
      assert actions == init + [last];
      assert forall a :: a in actions <==> a in init || a == last;
    }
  }

  /** Everything else it asks for is asked for once per action, in order. */
  lemma {:induction false} RuleRequests(actions: seq<Action>, path: string)
    ensures var d := ActedAll(actions, path);
            && d.optimizations == Collected(actions, ProfilesOf)
            && d.notices == Collected(actions, NoticesOf)
            && d.requests == Collected(actions, RequestsOf)
  {
    hide WithTag, ReasonOf, Rank;
    if actions != [] { RuleRequests(actions[..|actions| - 1], path); }
  }

  /** Each delete action asks once for the file's own path, with its reason. */
  lemma {:induction false} RuleDeletes(actions: seq<Action>, path: string)
    ensures var d := ActedAll(actions, path);
            && d.deleteReasons == Collected(actions, ReasonsOf)
            && |d.deletePaths| == |d.deleteReasons|
            && forall i :: 0 <= i < |d.deletePaths| ==> d.deletePaths[i] == path
  {
    hide WithTag, ReasonOf, Rank;
    if actions != [] { RuleDeletes(actions[..|actions| - 1], path); }
  }

  /** A reason that is missing or empty is replaced by the standard one. */
  lemma ReasonMeans(text: string)
    ensures ReasonOf(None) == "Deleted by rule" && ReasonOf(Some("")) == "Deleted by rule"
    ensures text != [] ==> ReasonOf(Some(text)) == text
  {
  }

  lemma MergedWellFormed(into: Decision, d: Decision)
    requires WellFormed(into) && WellFormed(d)
    ensures WellFormed(Merged(into, d))
  {
    WithTagsUnion(into.tags, d.tags);
  }

  /** Deletes come only from rules whose operator acknowledged them. */
  lemma {:induction false} DeletesAreAcknowledged(rule: Rule, path: string)
    requires ValidRule(rule)
    ensures ActedAll(rule.actions, path).deletePaths != [] <==> rule.acknowledged
    ensures forall p :: p in ActedAll(rule.actions, path).deletePaths ==> p == path
  {
    DeletePathsExactly(rule.actions, path);
  }

  lemma {:induction false} DeletePathsExactly(actions: seq<Action>, path: string)
    ensures ActedAll(actions, path).deletePaths != [] <==> exists i :: 0 <= i < |actions| && actions[i].Delete?
    ensures forall p :: p in ActedAll(actions, path).deletePaths ==> p == path
  {
    if actions != [] {
      var init := actions[..|actions| - 1];
      DeletePathsExactly(init, path);
      if i :| 0 <= i < |init| && init[i].Delete? { assert actions[i].Delete?; }
      if i :| 0 <= i < |actions| && actions[i].Delete? && i < |init| { assert init[i].Delete?; }
    }
  }

  // ---- Order does not matter ----------------------------------------------------------

  ghost predicate AllWellFormed(ds: seq<Decision>) {
    forall i :: 0 <= i < |ds| ==> WellFormed(ds[i])
  }

  /** The aggregate's rank is the maximum of the starting rank and the matched ones, its tags
      the union, its flag the disjunction. */
  lemma {:induction false} MergedAllExactly(ds: seq<Decision>)
    requires AllWellFormed(ds)
    ensures var out := MergedAll(ds);
            && WellFormed(out) && out.severity.Some?
            && out.rank >= 10 && (forall d :: d in ds ==> d.rank <= out.rank)
            && (out.rank == 10 || exists d :: d in ds && d.rank == out.rank)
            && (out.vtLookup <==> exists d :: d in ds && d.vtLookup)
            && (forall t :: t in out.tags <==> exists d :: d in ds && t in d.tags)
  {
    if ds != [] {
      var init, last := ds[..|ds| - 1], ds[|ds| - 1];
      assert ds == init + [last];
      MergedAllExactly(init);
      var before := MergedAll(init);
      MergedWellFormed(before, last);
      WithTagsUnion(before.tags, last.tags);
      assert forall d :: d in ds <==> d in init || d == last;
    }
  }

  /** Everything that `f` finds in the elements, counted. */
  ghost function Gathered<S, T>(xs: seq<S>, f: S -> seq<T>): multiset<T> {
    if xs == [] then multiset{} else Gathered(xs[..|xs| - 1], f) + multiset(f(xs[|xs| - 1]))
  }

  lemma {:induction false} GatheredJoin<S, T>(xs: seq<S>, ys: seq<S>, f: S -> seq<T>)
    ensures Gathered(xs + ys, f) == Gathered(xs, f) + Gathered(ys, f)
  {
    if ys == [] {
      assert xs + ys == xs;
    } else {
      assert (xs + ys)[..|xs + ys| - 1] == xs + ys[..|ys| - 1];
      GatheredJoin(xs, ys[..|ys| - 1], f);
    }
  }

  /** Permuting the elements gathers the same. */
  lemma {:induction false} GatheredPermutes<S, T>(xs: seq<S>, ys: seq<S>, f: S -> seq<T>)
    requires multiset(xs) == multiset(ys)
    ensures Gathered(xs, f) == Gathered(ys, f)
    decreases |xs|
  {
    assert |multiset(xs)| == |xs| && |multiset(ys)| == |ys|;
    if xs != [] {
      var init, last := xs[..|xs| - 1], xs[|xs| - 1];
      assert xs == init + [last];
      var a, b := TakeOut(init, last, ys);
      GatheredPermutes(init, a + b, f);
      GatheredJoin(a, b, f);
      GatheredJoin(a + [last], b, f);
      assert (a + [last])[..|a|] == a;
    }
  }

  /** Where the last element of one sequence stands in a permutation of it. */
  lemma TakeOut<S>(init: seq<S>, last: S, ys: seq<S>) returns (a: seq<S>, b: seq<S>)
    requires |ys| > 0 && multiset(ys) == multiset(init + [last])
    ensures ys == a + [last] + b && multiset(a + b) == multiset(init)
  {
    assert last in multiset(ys);
    var k :| 0 <= k < |ys| && ys[k] == last;
    a, b := ys[..k], ys[k + 1..];
    assert ys == a + [last] + b;
    assert multiset(a + b) == multiset(ys) - multiset{last};
  }

  /** The paths to delete, each with its reason. */
  function Deletes(d: Decision): seq<(string, string)> {
    if |d.deletePaths| != |d.deleteReasons| then []
    else seq(|d.deletePaths|, i requires 0 <= i < |d.deletePaths| && |d.deletePaths| == |d.deleteReasons| =>
               (d.deletePaths[i], d.deleteReasons[i]))
  }

  function Optimizations(d: Decision): seq<string> { d.optimizations }
  function Notices(d: Decision): seq<Notice> { d.notices }
  function Requests(d: Decision): seq<Request> { d.requests }

  lemma {:induction false} MergedAllGathers(ds: seq<Decision>)
    requires AllWellFormed(ds)
    ensures var out := MergedAll(ds);
            && |out.deletePaths| == |out.deleteReasons|
            && multiset(out.optimizations) == Gathered(ds, Optimizations)
            && multiset(out.notices) == Gathered(ds, Notices)
            && multiset(out.requests) == Gathered(ds, Requests)
            && multiset(Deletes(out)) == Gathered(ds, Deletes)
  {
    if ds != [] {
      var init, last := ds[..|ds| - 1], ds[|ds| - 1];
      assert WellFormed(last);
      MergedAllGathers(init);
      assert Deletes(MergedAll(ds)) == Deletes(MergedAll(init)) + Deletes(last);
    }
  }

  /** Decisions that ask for the same things, in whatever order. */
  ghost predicate SameDecision(a: Decision, b: Decision) {
    && a.severity == b.severity && a.rank == b.rank && a.vtLookup == b.vtLookup
    && NoRepeats(a.tags) && NoRepeats(b.tags) && (forall t :: t in a.tags <==> t in b.tags)
    && multiset(a.optimizations) == multiset(b.optimizations)
    && multiset(a.notices) == multiset(b.notices)
    && multiset(a.requests) == multiset(b.requests)
    && multiset(Deletes(a)) == multiset(Deletes(b))
  }

  lemma SameRankSameLabel(a: Severity, b: Severity)
    requires Rank(a) == Rank(b)
    ensures a == b
  {
  }

  /** Merging results in any order gives the same decision. */
  lemma MergeOrderDoesNotMatter(ds: seq<Decision>, es: seq<Decision>)
    requires AllWellFormed(ds) && multiset(ds) == multiset(es)
    ensures SameDecision(MergedAll(ds), MergedAll(es))
  {
    assert forall d :: d in ds <==> d in multiset(ds);
    assert forall d :: d in es <==> d in multiset(es);
    assert AllWellFormed(es) by {
      forall i | 0 <= i < |es| ensures WellFormed(es[i]) { assert es[i] in ds; }
    }
    MergedAllExactly(ds);
    MergedAllExactly(es);
    MergedAllGathers(ds);
    MergedAllGathers(es);
    GatheredPermutes(ds, es, Optimizations);
    GatheredPermutes(ds, es, Notices);
    GatheredPermutes(ds, es, Requests);
    GatheredPermutes(ds, es, Deletes);
    SameRankSameLabel(MergedAll(ds).severity.value, MergedAll(es).severity.value);
  }

  /** What one rule adds to the results for a file. */
  function Contribution(lib: Library, rule: Rule, file: FileInfo, path: string): seq<Decision> {
    if Eval(lib, rule.match_, file) == Is(true) then [ActedAll(rule.actions, path)] else []
  }

  ghost predicate SomeRaises(lib: Library, rules: seq<Rule>, file: FileInfo) {
    exists i :: 0 <= i < |rules| && Eval(lib, rules[i].match_, file).Raises?
  }

  lemma {:induction false} MatchedRaisesExactly(lib: Library, rules: seq<Rule>, file: FileInfo, path: string)
    ensures Matched(lib, rules, file, path).None? <==> SomeRaises(lib, rules, file)
  {
    hide Eval, ActedAll;
    if rules != [] {
      var init := rules[..|rules| - 1];
      MatchedRaisesExactly(lib, init, file, path);
      assert forall i :: 0 <= i < |init| ==> init[i] == rules[i];
    }
  }

  lemma {:induction false} MatchedWellFormed(lib: Library, rules: seq<Rule>, file: FileInfo, path: string)
    requires Matched(lib, rules, file, path).Some?
    ensures AllWellFormed(Matched(lib, rules, file, path).value)
  {
    if rules != [] {
      ActedAllWellFormed(rules[|rules| - 1].actions, path);
      hide Eval, ActedAll, WellFormed;
      MatchedWellFormed(lib, rules[..|rules| - 1], file, path);
    }
  }

  /** Matching adds each rule's contribution at the end. */
  lemma MatchedStep(lib: Library, rules: seq<Rule>, file: FileInfo, path: string)
    requires rules != [] && Matched(lib, rules, file, path).Some?
    ensures var init, last := rules[..|rules| - 1], rules[|rules| - 1];
            && Matched(lib, init, file, path).Some?
            && Matched(lib, rules, file, path).value ==
               Matched(lib, init, file, path).value + Contribution(lib, last, file, path)
  {
    hide Eval, ActedAll;
  }

  lemma {:induction false} MatchedGathers(lib: Library, rules: seq<Rule>, file: FileInfo, path: string,
                                          f: Rule -> seq<Decision>)
    requires Matched(lib, rules, file, path).Some?
    requires forall r :: f(r) == Contribution(lib, r, file, path)
    ensures multiset(Matched(lib, rules, file, path).value) == Gathered(rules, f)
  {
    if rules != [] {
      MatchedStep(lib, rules, file, path);
      hide Matched, Contribution;
      MatchedGathers(lib, rules[..|rules| - 1], file, path, f);
      assert f(rules[|rules| - 1]) == Contribution(lib, rules[|rules| - 1], file, path);
    }
  }

  lemma RaisingPermutes(lib: Library, rules: seq<Rule>, others: seq<Rule>, file: FileInfo)
    requires multiset(rules) == multiset(others) && SomeRaises(lib, rules, file)
    ensures SomeRaises(lib, others, file)
  {
    hide Eval;
    var i :| 0 <= i < |rules| && Eval(lib, rules[i].match_, file).Raises?;
    assert rules[i] in multiset(others);
    var j :| 0 <= j < |others| && others[j] == rules[i];
  }

  /** The order in which rules are evaluated changes neither whether evaluation raises nor
      the decision for the file. */
  lemma RuleOrderDoesNotMatter(lib: Library, rules: seq<Rule>, others: seq<Rule>, file: FileInfo, path: string)
    requires multiset(rules) == multiset(others)
    ensures var a, b := Matched(lib, rules, file, path), Matched(lib, others, file, path);
            (a.None? <==> b.None?) && (a.Some? ==> SameDecision(MergedAll(a.value), MergedAll(b.value)))
  {
    var f: Rule -> seq<Decision> := r => Contribution(lib, r, file, path);
    MatchedRaisesExactly(lib, rules, file, path);
    MatchedRaisesExactly(lib, others, file, path);
    var a, b := Matched(lib, rules, file, path), Matched(lib, others, file, path);
    hide Matched, MergedAll, SameDecision, SomeRaises;
    if a.None? { RaisingPermutes(lib, rules, others, file); }
    if b.None? { RaisingPermutes(lib, others, rules, file); }
    if a.Some? {
      MatchedGathers(lib, rules, file, path, f);
      MatchedGathers(lib, others, file, path, f);
      MatchedWellFormed(lib, rules, file, path);
      GatheredPermutes(rules, others, f);
      MergeOrderDoesNotMatter(a.value, b.value);
    }
  }

  ghost predicate SomeAcknowledgedMatches(lib: Library, rules: seq<Rule>, file: FileInfo) {
    exists i :: 0 <= i < |rules| && rules[i].acknowledged && Eval(lib, rules[i].match_, file) == Is(true)
  }

  /** A file is deleted exactly if some matched rule carried the acknowledgement. */
  lemma {:induction false} OnlyAcknowledgedDeletes(lib: Library, rules: seq<Rule>, file: FileInfo, path: string)
    requires forall i :: 0 <= i < |rules| ==> ValidRule(rules[i])
    requires Matched(lib, rules, file, path).Some?
    ensures var paths := MergedAll(Matched(lib, rules, file, path).value).deletePaths;
            && (paths != [] <==> SomeAcknowledgedMatches(lib, rules, file))
            && forall p :: p in paths ==> p == path
  {
    if rules == [] {
      assert Matched(lib, rules, file, path).value == [];
    } else {
      var init, last := rules[..|rules| - 1], rules[|rules| - 1];
      assert ValidRule(last);
      MatchedStep(lib, rules, file, path);
      hide Matched, Eval, ActedAll, ValidRule, MergedAll, SomeAcknowledgedMatches;
      OnlyAcknowledgedDeletes(lib, init, file, path);
      DeletesAreAcknowledged(last, path);
      SomeAcknowledgedAppend(lib, init, last, file);
      assert rules == init + [last];
      DeletesAppend(Matched(lib, init, file, path).value, ActedAll(last.actions, path));
    }
  }

  lemma DeletesAppend(ds: seq<Decision>, d: Decision)
    ensures MergedAll(ds + [d]).deletePaths == MergedAll(ds).deletePaths + d.deletePaths
    ensures ds + [] == ds
  {
    assert (ds + [d])[..|ds|] == ds;
  }

  lemma SomeAcknowledgedAppend(lib: Library, rules: seq<Rule>, r: Rule, file: FileInfo)
    ensures SomeAcknowledgedMatches(lib, rules + [r], file) <==>
            SomeAcknowledgedMatches(lib, rules, file) || (r.acknowledged && Eval(lib, r.match_, file) == Is(true))
  {
    hide Eval;
    var longer := rules + [r];
    assert longer[|rules|] == r;
    assert forall i :: 0 <= i < |rules| ==> longer[i] == rules[i];
  }

  // ---- What a file gets ---------------------------------------------------------------

  /** Rule `i` matches the file. */
  ghost predicate MatchesAt(lib: Library, rules: seq<Rule>, file: FileInfo, i: int) {
    0 <= i < |rules| && Eval(lib, rules[i].match_, file) == Is(true)
  }

  /** Some matching rule has the action. */
  ghost predicate SomeAsks(lib: Library, rules: seq<Rule>, file: FileInfo, a: Action) {
    exists i :: MatchesAt(lib, rules, file, i) && a in rules[i].actions
  }

  lemma {:induction false} MatchedExactly(lib: Library, rules: seq<Rule>, file: FileInfo, path: string, d: Decision)
    requires Matched(lib, rules, file, path).Some?
    ensures d in Matched(lib, rules, file, path).value <==>
            exists i :: MatchesAt(lib, rules, file, i) && d == ActedAll(rules[i].actions, path)
  {
    if rules != [] {
      var init, last := rules[..|rules| - 1], rules[|rules| - 1];
      MatchedStep(lib, rules, file, path);
      hide Matched, ActedAll, Eval;
      MatchedExactly(lib, init, file, path, d);
      if i :| MatchesAt(lib, init, file, i) && d == ActedAll(init[i].actions, path) {
        assert MatchesAt(lib, rules, file, i) && rules[i] == init[i];
      }
      if i :| MatchesAt(lib, rules, file, i) && d == ActedAll(rules[i].actions, path) {
        if i < |init| { assert MatchesAt(lib, init, file, i) && rules[i] == init[i]; }
      }
      if d in Contribution(lib, last, file, path) { assert MatchesAt(lib, rules, file, |init|); }
    }
  }

  /** The decision for a file in terms of its rules: it has exactly the tags of the matching
      rules' tag actions, looks up if one of them says so, and its severity is the highest
      that one of them sets, or `ok`. */
  lemma FileGetsWhatRulesAsk(lib: Library, rules: seq<Rule>, file: FileInfo, path: string)
    requires Matched(lib, rules, file, path).Some?
    ensures var out := MergedAll(Matched(lib, rules, file, path).value);
            && (forall t :: t in out.tags <==> SomeAsks(lib, rules, file, AddTag(t)))
            && (out.vtLookup <==> SomeAsks(lib, rules, file, VtLookup))
            && (forall s :: SomeAsks(lib, rules, file, SetSeverity(s)) ==> Rank(s) <= out.rank)
            && (out.rank == Rank(Ok) || exists s :: SomeAsks(lib, rules, file, SetSeverity(s)) && Rank(s) == out.rank)
            && out.severity.Some? && Rank(out.severity.value) == out.rank
  {
    hide Matched, ActedAll, Eval, MergedAll, SomeAsks;
    var ds := Matched(lib, rules, file, path).value;
    MatchedWellFormed(lib, rules, file, path);
    MergedAllExactly(ds);
    var out := MergedAll(ds);
    forall t ensures t in out.tags <==> SomeAsks(lib, rules, file, AddTag(t)) {
      TagsFromRules(lib, rules, file, path, t);
    }
    LookupFromRules(lib, rules, file, path);
    forall s | SomeAsks(lib, rules, file, SetSeverity(s)) ensures Rank(s) <= out.rank {
      var d := SeverityCounts(lib, rules, file, path, s);
    }
    if d :| d in ds && d.rank == out.rank {
      var s := SeverityComesFrom(lib, rules, file, path, d);
    }
  }

  lemma TagsFromRules(lib: Library, rules: seq<Rule>, file: FileInfo, path: string, t: string)
    requires Matched(lib, rules, file, path).Some?
    ensures (exists d :: d in Matched(lib, rules, file, path).value && t in d.tags) <==>
            SomeAsks(lib, rules, file, AddTag(t))
  {
    hide Matched, ActedAll, Eval;
    var ds := Matched(lib, rules, file, path).value;
    if d :| d in ds && t in d.tags {
      MatchedExactly(lib, rules, file, path, d);
      var i :| MatchesAt(lib, rules, file, i) && d == ActedAll(rules[i].actions, path);
      RuleTagsAndSeverity(rules[i].actions, path);
    }
    if i :| MatchesAt(lib, rules, file, i) && AddTag(t) in rules[i].actions {
      MatchedExactly(lib, rules, file, path, ActedAll(rules[i].actions, path));
      RuleTagsAndSeverity(rules[i].actions, path);
    }
  }

  lemma LookupFromRules(lib: Library, rules: seq<Rule>, file: FileInfo, path: string)
    requires Matched(lib, rules, file, path).Some?
    ensures (exists d :: d in Matched(lib, rules, file, path).value && d.vtLookup) <==>
            SomeAsks(lib, rules, file, VtLookup)
  {
    hide Matched, ActedAll, Eval;
    var ds := Matched(lib, rules, file, path).value;
    if d :| d in ds && d.vtLookup {
      MatchedExactly(lib, rules, file, path, d);
      var i :| MatchesAt(lib, rules, file, i) && d == ActedAll(rules[i].actions, path);
      RuleTagsAndSeverity(rules[i].actions, path);
    }
    if i :| MatchesAt(lib, rules, file, i) && VtLookup in rules[i].actions {
      MatchedExactly(lib, rules, file, path, ActedAll(rules[i].actions, path));
      RuleTagsAndSeverity(rules[i].actions, path);
    }
  }

  lemma SeverityCounts(lib: Library, rules: seq<Rule>, file: FileInfo, path: string, s: Severity) returns (d: Decision)
    requires Matched(lib, rules, file, path).Some? && SomeAsks(lib, rules, file, SetSeverity(s))
    ensures d in Matched(lib, rules, file, path).value && Rank(s) <= d.rank
  {
    hide Matched, ActedAll, Eval;
    var i :| MatchesAt(lib, rules, file, i) && SetSeverity(s) in rules[i].actions;
    d := ActedAll(rules[i].actions, path);
    MatchedExactly(lib, rules, file, path, d);
    RuleTagsAndSeverity(rules[i].actions, path);
  }

  lemma SeverityComesFrom(lib: Library, rules: seq<Rule>, file: FileInfo, path: string, d: Decision)
    returns (s: Severity)
    requires Matched(lib, rules, file, path).Some?
    requires d in Matched(lib, rules, file, path).value && d.rank > 0
    ensures SomeAsks(lib, rules, file, SetSeverity(s)) && Rank(s) == d.rank
  {
    hide Matched, ActedAll, Eval;
    MatchedExactly(lib, rules, file, path, d);
    var i :| MatchesAt(lib, rules, file, i) && d == ActedAll(rules[i].actions, path);
    RuleTagsAndSeverity(rules[i].actions, path);
    s :| SetSeverity(s) in rules[i].actions && Rank(s) == d.rank;
  }
}
