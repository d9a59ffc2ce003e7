/** Match trees of the rule engine (`rules/evaluator.py`), with the exceptions its operators
    can raise. Regular expressions and `float(str)` are parameters. */
module RuleMatch {
  import opened Options
  import opened Languages

  /** A JSON operand or a field of a file. */
  datatype Value = Nothing | Str(s: string) | Num(n: real) | Bool(b: bool) | List(items: seq<Value>)

  datatype Match = AllOf(all: seq<Match>) | AnyOf(any: seq<Match>) | Condition(field: string, op: string, value: Value)

  /** The fields of a file; a missing one reads as nothing. */
  type FileInfo = map<string, Value>

  datatype Library = Library(index: Index, search: (string, string) -> bool, number: string -> Option<real>)

  datatype Outcome = Is(holds: bool) | Raises

  // ---- Values -------------------------------------------------------------------------

  function Number(v: Value): Option<real> {
    match v
    case Num(n) => Some(n)
    case Bool(b) => Some(if b then 1.0 else 0.0)
    case _ => None
  }

  /** Python's `==`, for which truth values are numbers. */
  predicate Equal(a: Value, b: Value) {
    if Number(a).Some? || Number(b).Some? then Number(a) == Number(b)
    else if a.List? && b.List? then
      |a.items| == |b.items| && forall i :: 0 <= i < |a.items| ==> Equal(a.items[i], b.items[i])
    else a == b
  }

  predicate Falsy(v: Value) {
    v.Nothing? || v == Str("") || v == List([]) || (Number(v).Some? && Number(v).value == 0.0)
  }

  predicate Contains(text: string, part: string) {
    exists i :: 0 <= i <= |text| - |part| && text[i..][..|part|] == part
  }

  /** `x in (c or [])`. */
  function In(x: Value, c: Value): Outcome {
    if Falsy(c) then Is(false)
    else match c
         case List(items) => Is(exists i :: 0 <= i < |items| && Equal(x, items[i]))
         case Str(text) => if x.Str? then Is(Contains(text, x.s)) else Raises
         case _ => Raises
  }

  function Negated(o: Outcome): Outcome {
    if o.Is? then Is(!o.holds) else Raises
  }

  /** `any(item in (c or []) for item in items)`: the first hit or exception decides. */
  function AnyIn(items: seq<Value>, c: Value): Outcome {
    if items == [] then Is(false)
    else
      var first := In(items[0], c);
      if first == Is(false) then AnyIn(items[1..], c) else first
  }

  /** `_as_number`. */
  function AsNumber(lib: Library, v: Value): Option<real> {
    match v
    case Str(s) => lib.number(s)
    case _ => Number(v)
  }

  function Compared(lib: Library, op: string, a: Value, b: Value): Outcome {
    var x, y := AsNumber(lib, a), AsNumber(lib, b);
    if x.None? || y.None? then Raises
    else Is(if op == "lt" then x.value < y.value else if op == "lte" then x.value <= y.value
            else if op == "gt" then x.value > y.value else x.value >= y.value)
  }

  /** `_apply_op`. */
  function ApplyOp(lib: Library, op: string, actual: Value, expected: Value): Outcome {
    if op == "eq" then Is(Equal(actual, expected))
    else if op == "ne" then Is(!Equal(actual, expected))
    else if actual.Nothing? then Is(false)
    else if op == "lt" || op == "lte" || op == "gt" || op == "gte" then Compared(lib, op, actual, expected)
    else if op == "in" then In(actual, expected)
    else if op == "regex" then Is(actual.Str? && expected.Str? && lib.search(expected.s, actual.s))
    else if op == "contains" then In(expected, actual)
    else if op == "not_contains" then Negated(In(expected, actual))
    else if op == "any_of" then AnyIn(if expected.List? then expected.items else [expected], actual)
    else if op == "none_of" then Negated(AnyIn(if expected.List? then expected.items else [expected], actual))
    else Raises
  }

  // ---- Conditions and trees -----------------------------------------------------------

  predicate IsLanguageField(field: string) {
    field == "audio_languages" || field == "subtitle_languages"
  }

  /** The strings of a list of values, in order. */
  function Strings(vs: seq<Value>): seq<string> {
    if vs == [] then []
    else Strings(vs[..|vs| - 1]) + if vs[|vs| - 1].Str? then [vs[|vs| - 1].s] else []
  }

  function AsValues(ss: seq<string>): seq<Value> {
    seq(|ss|, i requires 0 <= i < |ss| => Str(ss[i]))
  }

  /** A file's languages in normal form. */
  function ActualLanguages(index: Index, v: Value): Value {
    List(AsValues(NormalForms(index, if v.List? then Strings(v.items) else [])))
  }

  /** The normal forms of an operand's tags, repeats kept. */
  function TagForms(index: Index, tags: seq<string>): seq<string> {
    if tags == [] then []
    else
      var n := Normalize(index, tags[|tags| - 1]);
      TagForms(index, tags[..|tags| - 1]) + if n.Some? then [n.value] else []
  }

  /** A rule's operand in normal form. */
  function ExpectedLanguages(index: Index, v: Value): Value {
    match v
    case List(items) => List(AsValues(TagForms(index, Strings(items))))
    case Str(s) => (var n := Normalize(index, s); if n.Some? then Str(n.value) else Nothing)
    case _ => v
  }

  /** `_eval_condition`. */
  function EvalCondition(lib: Library, field: string, op: string, value: Value, file: FileInfo): Outcome {
    var actual := if field in file then file[field] else Nothing;
    if IsLanguageField(field)
    then ApplyOp(lib, op, ActualLanguages(lib.index, actual), ExpectedLanguages(lib.index, value))
    else ApplyOp(lib, op, actual, value)
  }

  /** `_match`: `all` stops at the first failure, `any` at the first success, and both at an
      exception. */
  function Eval(lib: Library, m: Match, file: FileInfo): Outcome
    decreases m, 1
  {
    match m
    case AllOf(all) => EvalAll(lib, all, file)
    case AnyOf(any) => EvalAny(lib, any, file)
    case Condition(field, op, value) => EvalCondition(lib, field, op, value, file)
  }

  function EvalAll(lib: Library, ms: seq<Match>, file: FileInfo): Outcome
    decreases ms, 0
  {
    if ms == [] then Is(true)
    else
      var first := Eval(lib, ms[0], file);
      if first == Is(true) then EvalAll(lib, ms[1..], file) else first
  }

  function EvalAny(lib: Library, ms: seq<Match>, file: FileInfo): Outcome
    decreases ms, 0
  {
    if ms == [] then Is(false)
    else
      var first := Eval(lib, ms[0], file);
      if first == Is(false) then EvalAny(lib, ms[1..], file) else first
  }

  // ---- What trees mean ----------------------------------------------------------------

  /** Child `i` gives `o`, and every child before it gives `skip`. */
  ghost predicate FirstOther(lib: Library, ms: seq<Match>, file: FileInfo, skip: Outcome, i: nat, o: Outcome) {
    && i < |ms| && Eval(lib, ms[i], file) == o
    && forall j :: 0 <= j < i ==> Eval(lib, ms[j], file) == skip
  }

  /** The first child that does not give `skip` gives `o`. */
  ghost predicate Decides(lib: Library, ms: seq<Match>, file: FileInfo, skip: Outcome, o: Outcome) {
    exists i :: FirstOther(lib, ms, file, skip, i, o)
  }

  ghost predicate AllGive(lib: Library, ms: seq<Match>, file: FileInfo, o: Outcome) {
    forall i :: 0 <= i < |ms| ==> Eval(lib, ms[i], file) == o
  }

  /** `all` holds if every child does; otherwise the first child that does not decides, be it
      false or an exception. */
  lemma {:induction false} AllMeans(lib: Library, ms: seq<Match>, file: FileInfo)
    ensures Eval(lib, AllOf(ms), file) == Is(true) <==> AllGive(lib, ms, file, Is(true))
    ensures forall o {:trigger Decides(lib, ms, file, Is(true), o)} ::
              o != Is(true) ==> (Eval(lib, AllOf(ms), file) == o <==> Decides(lib, ms, file, Is(true), o))
    decreases |ms|
  {
    hide EvalCondition;
    if ms != [] && Eval(lib, ms[0], file) == Is(true) {
      AllMeans(lib, ms[1..], file);
      ShiftFirst(lib, ms, file, Is(true));
    } else if ms != [] {
      assert FirstOther(lib, ms, file, Is(true), 0, Eval(lib, ms[0], file));
    }
  }

  /** `any` fails if every child does; otherwise the first child that does not decides, be it
      true or an exception. */
  lemma {:induction false} AnyMeans(lib: Library, ms: seq<Match>, file: FileInfo)
    ensures Eval(lib, AnyOf(ms), file) == Is(false) <==> AllGive(lib, ms, file, Is(false))
    ensures forall o {:trigger Decides(lib, ms, file, Is(false), o)} ::
              o != Is(false) ==> (Eval(lib, AnyOf(ms), file) == o <==> Decides(lib, ms, file, Is(false), o))
    decreases |ms|
  {
    hide EvalCondition;
    if ms != [] && Eval(lib, ms[0], file) == Is(false) {
      AnyMeans(lib, ms[1..], file);
      ShiftFirst(lib, ms, file, Is(false));
    } else if ms != [] {
      assert FirstOther(lib, ms, file, Is(false), 0, Eval(lib, ms[0], file));
    }
  }

  lemma ShiftFirst(lib: Library, ms: seq<Match>, file: FileInfo, skip: Outcome)
    requires ms != [] && Eval(lib, ms[0], file) == skip
    ensures forall o {:trigger Decides(lib, ms, file, skip, o)} ::
              o != skip ==> (Decides(lib, ms, file, skip, o) <==> Decides(lib, ms[1..], file, skip, o))
    ensures AllGive(lib, ms, file, skip) <==> AllGive(lib, ms[1..], file, skip)
  {
    hide Eval;
    var rest := ms[1..];
    assert forall i :: 0 <= i < |rest| ==> rest[i] == ms[i + 1];
    forall o, i: nat | o != skip && FirstOther(lib, ms, file, skip, i, o)
      ensures i > 0 && FirstOther(lib, rest, file, skip, i - 1, o)
    {
      if i > 0 { assert rest[i - 1] == ms[i]; }
    }
    forall o, i: nat | o != skip && FirstOther(lib, rest, file, skip, i, o)
      ensures FirstOther(lib, ms, file, skip, i + 1, o)
    {
      forall j | 0 <= j < i + 1 ensures Eval(lib, ms[j], file) == skip {
        if j > 0 { assert rest[j - 1] == ms[j]; }
      }
    }
    forall i | 0 <= i < |ms| && AllGive(lib, rest, file, skip) ensures Eval(lib, ms[i], file) == skip {
      if i > 0 { assert rest[i - 1] == ms[i]; }
    }
  }

  // ---- What operators mean ------------------------------------------------------------

  /** The value of a field that is no language field; nothing if the file lacks it. */
  ghost predicate Reads(file: FileInfo, field: string, v: Value) {
    && field != "audio_languages" && field != "subtitle_languages"
    && v == if field in file then file[field] else Nothing
  }

  /** Which values are equal: texts letter by letter, numbers and truth values as numbers,
      lists element by element, and nothing only to nothing. */
  lemma EqualMeans(s: string, t: string, x: real, y: real, b: bool, c: bool, v: Value)
    ensures Equal(Str(s), Str(t)) <==> s == t
    ensures Equal(Num(x), Num(y)) <==> x == y
    ensures Equal(Bool(b), Bool(c)) <==> b == c
    ensures Equal(Num(x), Bool(b)) <==> Equal(Bool(b), Num(x))
    ensures Equal(Bool(true), Num(x)) <==> x == 1.0
    ensures Equal(Bool(false), Num(x)) <==> x == 0.0
    ensures Equal(Nothing, v) <==> v == Nothing
    ensures Equal(v, Nothing) <==> v == Nothing
    ensures !Equal(Str(s), Num(x)) && !Equal(Str(s), Bool(b)) && !Equal(Num(x), Str(s)) && !Equal(Bool(b), Str(s))
  {
  }

  lemma ListsEqualExactly(vs: seq<Value>, ws: seq<Value>)
    ensures Equal(List(vs), List(ws)) <==> |vs| == |ws| && forall i :: 0 <= i < |vs| ==> Equal(vs[i], ws[i])
  {
  }

  lemma EqMeans(lib: Library, field: string, w: Value, file: FileInfo, v: Value)
    requires Reads(file, field, v)
    ensures EvalCondition(lib, field, "eq", w, file) == Is(Equal(v, w))
    ensures EvalCondition(lib, field, "ne", w, file) == Is(!Equal(v, w))
  {
  }

  /** A number, a text that reads as one, or a truth value as one or zero. */
  ghost predicate StandsFor(lib: Library, v: Value, x: real) {
    || v == Num(x) || (v.Str? && lib.number(v.s) == Some(x))
    || (v == Bool(true) && x == 1.0) || (v == Bool(false) && x == 0.0)
  }

  /** Order conditions compare the field, on the left, with the operand, on the right. */
  lemma ComparisonsMean(lib: Library, field: string, w: Value, file: FileInfo, v: Value, x: real, y: real)
    requires Reads(file, field, v) && StandsFor(lib, v, x) && StandsFor(lib, w, y)
    ensures EvalCondition(lib, field, "lt", w, file) == Is(x < y)
    ensures EvalCondition(lib, field, "lte", w, file) == Is(x <= y)
    ensures EvalCondition(lib, field, "gt", w, file) == Is(x > y)
    ensures EvalCondition(lib, field, "gte", w, file) == Is(x >= y)
  {
    hide Equal, In, AnyIn;
  }

  predicate IsComparison(op: string) {
    op == "lt" || op == "lte" || op == "gt" || op == "gte"
  }

  /** They raise exactly on a field or an operand that is no number and no text of one. */
  lemma ComparisonRaisesExactly(lib: Library, field: string, op: string, w: Value, file: FileInfo, v: Value)
    requires Reads(file, field, v) && !v.Nothing? && IsComparison(op)
    ensures EvalCondition(lib, field, op, w, file) == Raises <==>
            exists u :: (u == v || u == w) && (u.Nothing? || u.List? || (u.Str? && lib.number(u.s).None?))
  {
    var us := [v, w];
    assert us[0] == v && us[1] == w;
    hide Equal, In, AnyIn;
    if AsNumber(lib, v).None? { assert v.Nothing? || v.List? || (v.Str? && lib.number(v.s).None?); }
    if AsNumber(lib, w).None? { assert w.Nothing? || w.List? || (w.Str? && lib.number(w.s).None?); }
  }

  /** A file without the field meets no condition but `eq` and `ne`. */
  lemma MissingFieldFails(lib: Library, field: string, op: string, w: Value, file: FileInfo)
    requires Reads(file, field, Nothing) && op != "eq" && op != "ne"
    ensures EvalCondition(lib, field, op, w, file) == Is(false)
  {
  }

  lemma InMeans(lib: Library, field: string, ws: seq<Value>, file: FileInfo, v: Value)
    requires Reads(file, field, v) && !v.Nothing?
    ensures EvalCondition(lib, field, "in", List(ws), file) == Is(exists i :: 0 <= i < |ws| && Equal(v, ws[i]))
  {
    hide Equal, AnyIn, Compared;
  }

  /** `w` is among the values. */
  ghost predicate Among(w: Value, vs: seq<Value>) {
    exists i :: 0 <= i < |vs| && Equal(w, vs[i])
  }

  /** One of `ws` is among the values. */
  ghost predicate AnyAmong(ws: seq<Value>, vs: seq<Value>) {
    exists i :: 0 <= i < |ws| && Among(ws[i], vs)
  }

  lemma InListMeans(w: Value, vs: seq<Value>)
    ensures In(w, List(vs)) == Is(Among(w, vs))
  {
    hide Equal;
  }

  /** On a list, `contains` looks for an equal element. */
  lemma ContainsMeans(lib: Library, field: string, w: Value, file: FileInfo, vs: seq<Value>)
    requires Reads(file, field, List(vs))
    ensures EvalCondition(lib, field, "contains", w, file) == Is(Among(w, vs))
    ensures EvalCondition(lib, field, "not_contains", w, file) == Is(!Among(w, vs))
  {
    hide Equal, AnyIn, Compared, In, Among;
    InListMeans(w, vs);
  }

  /** In a text it looks for a piece; an empty text contains nothing. */
  lemma ContainsTextMeans(lib: Library, field: string, part: string, file: FileInfo, text: string)
    requires Reads(file, field, Str(text))
    ensures var found := text != [] && exists left, right :: text == left + part + right;
            && EvalCondition(lib, field, "contains", Str(part), file) == Is(found)
            && EvalCondition(lib, field, "not_contains", Str(part), file) == Is(!found)
  {
    hide AnyIn, Compared;
    PieceExactly(text, part);
  }

  lemma PieceExactly(text: string, part: string)
    ensures Contains(text, part) <==> exists left, right :: text == left + part + right
  {
    if i :| 0 <= i <= |text| - |part| && text[i..][..|part|] == part {
      assert text == text[..i] + part + text[i + |part|..];
    }
    if left, right :| text == left + part + right {
      assert text[|left|..][..|part|] == part;
    }
  }

  lemma {:induction false} AnyInMeans(ws: seq<Value>, vs: seq<Value>)
    ensures AnyIn(ws, List(vs)) == Is(AnyAmong(ws, vs))
  {
    hide Equal, In, Among;
    if ws != [] {
      InListMeans(ws[0], vs);
      AnyInMeans(ws[1..], vs);
      assert forall i :: 0 <= i < |ws[1..]| ==> ws[1..][i] == ws[i + 1];
      if i :| 0 <= i < |ws| && Among(ws[i], vs) {
        if i > 0 { assert Among(ws[1..][i - 1], vs); }
      }
    }
  }

  /** On a list, `any_of` looks for an element equal to one of the operand's. */
  lemma AnyOfMeans(lib: Library, field: string, ws: seq<Value>, file: FileInfo, vs: seq<Value>)
    requires Reads(file, field, List(vs))
    ensures EvalCondition(lib, field, "any_of", List(ws), file) == Is(AnyAmong(ws, vs))
    ensures EvalCondition(lib, field, "none_of", List(ws), file) == Is(!AnyAmong(ws, vs))
  {
    hide ApplyOp, AnyAmong;
    AnyOfInList(lib, ws, vs);
  }

  lemma AnyOfInList(lib: Library, ws: seq<Value>, vs: seq<Value>)
    ensures ApplyOp(lib, "any_of", List(vs), List(ws)) == Is(AnyAmong(ws, vs))
    ensures ApplyOp(lib, "none_of", List(vs), List(ws)) == Is(!AnyAmong(ws, vs))
  {
    hide Equal, AnyIn, Compared, In, AnyAmong;
    AnyInMeans(ws, vs);
  }

  /** An operand that is no list counts as a list of itself. */
  lemma AnyOfOneMeans(lib: Library, field: string, w: Value, file: FileInfo, vs: seq<Value>)
    requires Reads(file, field, List(vs)) && !w.List?
    ensures EvalCondition(lib, field, "any_of", w, file) == Is(Among(w, vs))
    ensures EvalCondition(lib, field, "none_of", w, file) == Is(!Among(w, vs))
  {
    hide Equal, AnyIn, Compared, In, Among;
    AnyInMeans([w], vs);
    if Among(w, vs) { assert Among([w][0], vs); }
  }

  lemma RegexMeans(lib: Library, field: string, w: Value, file: FileInfo, v: Value)
    requires Reads(file, field, v)
    ensures EvalCondition(lib, field, "regex", w, file) == Is(v.Str? && w.Str? && lib.search(w.s, v.s))
  {
  }

  // ---- Aliases do not matter ----------------------------------------------------------

  /** Equal values, or strings that are aliases of each other. */
  ghost predicate SameItem(index: Index, a: Value, b: Value) {
    a == b || (a.Str? && b.Str? && SameTag(index, a.s, b.s))
  }

  /** The same item, or lists of the same items. */
  ghost predicate SameLanguages(index: Index, a: Value, b: Value) {
    || SameItem(index, a, b)
    || (a.List? && b.List? && |a.items| == |b.items| &&
        forall i :: 0 <= i < |a.items| ==> SameItem(index, a.items[i], b.items[i]))
  }

  /** Files that differ at most in how their languages are spelled. */
  ghost predicate SameFile(index: Index, f: FileInfo, g: FileInfo) {
    && f.Keys == g.Keys
    && forall k :: k in f ==> if IsLanguageField(k) then SameLanguages(index, f[k], g[k]) else f[k] == g[k]
  }

  /** Trees that differ at most in how the languages they look for are spelled. */
  ghost predicate SameTree(index: Index, m: Match, n: Match)
    decreases m
  {
    match m
    case AllOf(all) =>
      n.AllOf? && |all| == |n.all| && forall i :: 0 <= i < |all| ==> SameTree(index, all[i], n.all[i])
    case AnyOf(any) =>
      n.AnyOf? && |any| == |n.any| && forall i :: 0 <= i < |any| ==> SameTree(index, any[i], n.any[i])
    case Condition(field, op, value) =>
      && n.Condition? && n.field == field && n.op == op
      && if IsLanguageField(field) then SameLanguages(index, value, n.value) else value == n.value
  }

  ghost predicate SameItems(index: Index, a: seq<Value>, b: seq<Value>) {
    |a| == |b| && forall i :: 0 <= i < |a| ==> SameItem(index, a[i], b[i])
  }

  lemma {:induction false} SameItemsSameTags(index: Index, a: seq<Value>, b: seq<Value>)
    requires SameItems(index, a, b)
    ensures SameTags(index, Strings(a), Strings(b))
  {
    if a != [] {
      SameItemsSameTags(index, a[..|a| - 1], b[..|b| - 1]);
      assert SameItem(index, a[|a| - 1], b[|b| - 1]);
    }
  }

  lemma {:induction false} SameTagsSameForms(index: Index, a: seq<string>, b: seq<string>)
    requires SameTags(index, a, b)
    ensures TagForms(index, a) == TagForms(index, b)
  {
    if a != [] {
      SameTagsSameForms(index, a[..|a| - 1], b[..|b| - 1]);
      assert SameTag(index, a[|a| - 1], b[|b| - 1]);
    }
  }

  lemma SameLanguagesNormalizeAlike(index: Index, a: Value, b: Value)
    requires SameLanguages(index, a, b)
    ensures ActualLanguages(index, a) == ActualLanguages(index, b)
    ensures ExpectedLanguages(index, a) == ExpectedLanguages(index, b)
  {
    if a.List? && b.List? {
      SameItemsSameTags(index, a.items, b.items);
      SameTagsNormalizeAlike(index, Strings(a.items), Strings(b.items));
      SameTagsSameForms(index, Strings(a.items), Strings(b.items));
    }
  }

  lemma ConditionIgnoresAliases(lib: Library, field: string, op: string, v: Value, w: Value, f: FileInfo, g: FileInfo)
    requires SameFile(lib.index, f, g)
    requires if IsLanguageField(field) then SameLanguages(lib.index, v, w) else v == w
    ensures EvalCondition(lib, field, op, v, f) == EvalCondition(lib, field, op, w, g)
  {
    hide ApplyOp, ActualLanguages, ExpectedLanguages;
    if IsLanguageField(field) {
      SameLanguagesNormalizeAlike(lib.index, v, w);
      if field in f { SameLanguagesNormalizeAlike(lib.index, f[field], g[field]); }
    }
  }

  /** Respelling languages in a file or a rule never changes what a whole tree gives, be it
      true, false or an exception. */
  lemma {:induction false} AliasesDoNotMatter(lib: Library, m: Match, n: Match, f: FileInfo, g: FileInfo)
    requires SameTree(lib.index, m, n) && SameFile(lib.index, f, g)
    ensures Eval(lib, m, f) == Eval(lib, n, g)
    decreases m, 1
  {
    match m
    case AllOf(all) => AllIgnoresAliases(lib, all, n.all, f, g);
    case AnyOf(any) => AnyIgnoresAliases(lib, any, n.any, f, g);
    case Condition(field, op, value) => ConditionIgnoresAliases(lib, field, op, value, n.value, f, g);
  }

  lemma {:induction false} AllIgnoresAliases(lib: Library, ms: seq<Match>, ns: seq<Match>, f: FileInfo, g: FileInfo)
    requires |ms| == |ns| && forall i :: 0 <= i < |ms| ==> SameTree(lib.index, ms[i], ns[i])
    requires SameFile(lib.index, f, g)
    ensures EvalAll(lib, ms, f) == EvalAll(lib, ns, g)
    decreases ms, 0
  {
    if ms != [] {
      AliasesDoNotMatter(lib, ms[0], ns[0], f, g);
      AllIgnoresAliases(lib, ms[1..], ns[1..], f, g);
    }
  }

  lemma {:induction false} AnyIgnoresAliases(lib: Library, ms: seq<Match>, ns: seq<Match>, f: FileInfo, g: FileInfo)
    requires |ms| == |ns| && forall i :: 0 <= i < |ms| ==> SameTree(lib.index, ms[i], ns[i])
    requires SameFile(lib.index, f, g)
    ensures EvalAny(lib, ms, f) == EvalAny(lib, ns, g)
    decreases ms, 0
  {
    if ms != [] {
      AliasesDoNotMatter(lib, ms[0], ns[0], f, g);
      AnyIgnoresAliases(lib, ms[1..], ns[1..], f, g);
    }
  }

  // ---- What a language condition means ------------------------------------------------

  /** `contains` on a language field holds exactly when some tag of the file has the same
      normal form as the tag looked for. */
  lemma ContainsLanguageExactly(lib: Library, field: string, tag: string, tags: seq<string>, file: FileInfo)
    requires field in ["audio_languages", "subtitle_languages"]
    requires field in file && file[field] == List(AsValues(tags))
    requires Normalize(lib.index, tag).Some?
    ensures EvalCondition(lib, field, "contains", Str(tag), file) ==
            Is(exists i :: 0 <= i < |tags| && Normalize(lib.index, tags[i]) == Normalize(lib.index, tag))
  {
    hide Normalize, NormalForms, In, Strings, AsValues, ApplyOp;
    StringsOfValues(tags);
    var n := Normalize(lib.index, tag).value;
    NormalFormsExactly(lib.index, tags);
    var forms := NormalForms(lib.index, tags);
    ContainsIsIn(lib, n, forms);
    assert n in forms <==> IsFormOf(lib.index, tags, n);
  }

  lemma {:induction false} TagFormsExactly(index: Index, tags: seq<string>, n: string)
    ensures n in TagForms(index, tags) <==> IsFormOf(index, tags, n)
  {
    hide Normalize;
    if tags != [] {
      var init, last := tags[..|tags| - 1], tags[|tags| - 1];
      TagFormsExactly(index, init, n);
      FormOfAppend(index, init, last, n);
      assert tags == init + [last];
    }
  }

  lemma AmongStrings(n: string, forms: seq<string>)
    ensures Among(Str(n), AsValues(forms)) <==> n in forms
  {
    InStrings(n, forms);
    InListMeans(Str(n), AsValues(forms));
  }

  /** `any_of` on a language field holds exactly when some tag of the file and some tag looked
      for have one normal form. */
  lemma AnyOfLanguageExactly(lib: Library, field: string, wanted: seq<string>, tags: seq<string>, file: FileInfo)
    requires field in ["audio_languages", "subtitle_languages"]
    requires field in file && file[field] == List(AsValues(tags))
    ensures var found := exists n :: IsFormOf(lib.index, wanted, n) && IsFormOf(lib.index, tags, n);
            && EvalCondition(lib, field, "any_of", List(AsValues(wanted)), file) == Is(found)
            && EvalCondition(lib, field, "none_of", List(AsValues(wanted)), file) == Is(!found)
  {
    hide Normalize, NormalForms, Strings, AsValues, TagForms, IsFormOf, AnyAmong, ApplyOp;
    StringsOfValues(tags);
    StringsOfValues(wanted);
    AnyOfInList(lib, AsValues(TagForms(lib.index, wanted)), AsValues(NormalForms(lib.index, tags)));
    CommonForm(lib.index, wanted, tags);
  }

  lemma CommonForm(index: Index, wanted: seq<string>, tags: seq<string>)
    ensures var forms, looked := NormalForms(index, tags), TagForms(index, wanted);
            AnyAmong(AsValues(looked), AsValues(forms)) <==>
            (exists n :: IsFormOf(index, wanted, n) && IsFormOf(index, tags, n))
  {
    hide Normalize, NormalForms, TagForms, IsFormOf, Among;
    var forms, looked := NormalForms(index, tags), TagForms(index, wanted);
    NormalFormsExactly(index, tags);
    if i :| 0 <= i < |AsValues(looked)| && Among(AsValues(looked)[i], AsValues(forms)) {
      AmongStrings(looked[i], forms);
      TagFormsExactly(index, wanted, looked[i]);
    }
    if n :| IsFormOf(index, wanted, n) && IsFormOf(index, tags, n) {
      TagFormsExactly(index, wanted, n);
      var i :| 0 <= i < |looked| && looked[i] == n;
      AmongStrings(n, forms);
      assert AsValues(looked)[i] == Str(n);
    }
  }

  lemma ContainsIsIn(lib: Library, n: string, forms: seq<string>)
    ensures ApplyOp(lib, "contains", List(AsValues(forms)), Str(n)) == Is(n in forms)
  {
    hide In, AsValues, AnyIn, Compared, Equal;
    InStrings(n, forms);
  }

  lemma InStrings(n: string, forms: seq<string>)
    ensures In(Str(n), List(AsValues(forms))) == Is(n in forms)
  {
    var items := AsValues(forms);
    assert forall i :: 0 <= i < |items| ==> (Equal(Str(n), items[i]) <==> n == forms[i]);
    if items == [] { assert forms == []; }
  }

  lemma {:induction false} StringsOfValues(tags: seq<string>)
    ensures Strings(AsValues(tags)) == tags
  {
    if tags != [] {
      StringsOfValues(tags[..|tags| - 1]);
      assert AsValues(tags)[..|tags| - 1] == AsValues(tags[..|tags| - 1]);
    }
  }

  /** A file without a list of languages contains none. */
  lemma NoListNoLanguage(lib: Library, field: string, w: string, file: FileInfo)
    requires field in ["audio_languages", "subtitle_languages"]
    requires field in file ==> !file[field].List?
    ensures EvalCondition(lib, field, "contains", Str(w), file) == Is(false)
  {
    var actual := if field in file then file[field] else Nothing;
    assert ActualLanguages(lib.index, actual) == List([]);
    assert IsLanguageField(field);
    hide ActualLanguages, ExpectedLanguages, IsLanguageField, ApplyOp;
    ContainsInList(lib, ExpectedLanguages(lib.index, Str(w)), []);
  }

  /** A blank tag is never contained. */
  lemma BlankIsNotContained(lib: Library, field: string, w: string, tags: seq<string>, file: FileInfo)
    requires field in ["audio_languages", "subtitle_languages"]
    requires field in file && file[field] == List(AsValues(tags)) && Normalize(lib.index, w).None?
    ensures EvalCondition(lib, field, "contains", Str(w), file) == Is(false)
  {
    hide Normalize, NormalForms, Strings, ApplyOp, Among;
    var forms := NormalForms(lib.index, Strings(AsValues(tags)));
    ContainsInList(lib, Nothing, AsValues(forms));
    NothingIsNoText(forms);
  }

  lemma ContainsInList(lib: Library, w: Value, vs: seq<Value>)
    ensures ApplyOp(lib, "contains", List(vs), w) == Is(Among(w, vs))
  {
    hide Equal, AnyIn, Compared, In, Among;
    InListMeans(w, vs);
  }

  lemma NothingIsNoText(forms: seq<string>)
    ensures !Among(Nothing, AsValues(forms))
  {
  }

  /** With the shipped table, `contains` finds a language by any of its names: whatever name,
      case and padding the rule uses and whatever the file does. */
  lemma ContainsFindsAlias(lib: Library, field: string, wanted: string, tags: seq<string>, file: FileInfo, l: Language,
                           i: nat, a: string, b: string)
    requires lib.index == IndexOf(TABLE)
    requires field in ["audio_languages", "subtitle_languages"]
    requires field in file && file[field] == List(AsValues(tags))
    requires l in TABLE && a in Names(l) && b in Names(l) && Strip(a) != [] && Strip(b) != []
    requires SameText(wanted, Strip(a)) && i < |tags| && SameText(tags[i], Strip(b))
    ensures EvalCondition(lib, field, "contains", Str(wanted), file) == Is(true)
  {
    hide EvalCondition, Normalize, IndexOf, Strip, SameText, Names;
    ShippedAliasIsFound(l, a, [], wanted, []);
    ShippedAliasIsFound(l, b, [], tags[i], []);
    assert [] + wanted + [] == wanted && [] + tags[i] + [] == tags[i];
    ContainsLanguageExactly(lib, field, wanted, tags, file);
  }
}
