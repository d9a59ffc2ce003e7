/** Folding language tags to one form (`rules/language_normalize.py`), on ASCII case and
    white space. */
module Languages {
  import opened Options

  datatype Language = Language(code: string, aliases: seq<string>)

  type Index = map<string, string>

  // ---- `strip().lower()` --------------------------------------------------------------

  predicate IsSpace(c: char) {
    c == ' ' || '\t' <= c <= '\r' || '\U{1C}' <= c <= '\U{1F}'
  }

  predicate IsUpper(c: char) {
    'A' <= c <= 'Z'
  }

  function LowerChar(c: char): (d: char)
    ensures !IsUpper(d) && (IsSpace(d) <==> IsSpace(c))
  {
    if IsUpper(c) then (c as int + 32) as char else c
  }

  function Lower(s: string): (r: string)
    ensures |r| == |s| && forall i :: 0 <= i < |s| ==> r[i] == LowerChar(s[i])
  {
    if s == [] then [] else [LowerChar(s[0])] + Lower(s[1..])
  }

  function Strip(s: string): (r: string)
    ensures r != [] ==> !IsSpace(r[0]) && !IsSpace(r[|r| - 1])
    ensures forall i :: 0 <= i < |r| ==> r[i] in s
    decreases |s|
  {
    if s != [] && IsSpace(s[0]) then Strip(s[1..])
    else if s != [] && IsSpace(s[|s| - 1]) then Strip(s[..|s| - 1])
    else s
  }

  function Fold(s: string): string {
    Lower(Strip(s))
  }

  /** Text that folding leaves alone. */
  predicate Folded(s: string) {
    && (s != [] ==> !IsSpace(s[0]) && !IsSpace(s[|s| - 1]))
    && forall i :: 0 <= i < |s| ==> !IsUpper(s[i])
  }

  lemma FoldFixes(s: string)
    requires Folded(s)
    ensures Fold(s) == s
  {
  }

  lemma FoldIsFolded(s: string)
    ensures Folded(Fold(s)) && Fold(Fold(s)) == Fold(s)
  {
    FoldFixes(Fold(s));
  }

  predicate IsBlank(s: string) {
    forall i :: 0 <= i < |s| ==> IsSpace(s[i])
  }

  lemma StripFixes(s: string)
    requires s != [] ==> !IsSpace(s[0]) && !IsSpace(s[|s| - 1])
    ensures Strip(s) == s
  {
  }

  lemma StripLeft(c: char, s: string)
    requires IsSpace(c)
    ensures Strip([c] + s) == Strip(s)
  {
    assert ([c] + s)[1..] == s;
  }

  lemma {:induction false} StripRight(s: string, c: char)
    requires IsSpace(c)
    ensures Strip(s + [c]) == Strip(s)
  {
    hide IsSpace;
    var t := s + [c];
    if s == [] {
      assert t[0] == c && t[1..] == [];
    } else if IsSpace(s[0]) {
      StripRight(s[1..], c);
      assert t[0] == s[0] && t[1..] == s[1..] + [c];
    } else {
      assert t[0] == s[0] && t[|t| - 1] == c && t[..|t| - 1] == s;
    }
  }

  /** Stripping takes off exactly the blanks around a text. */
  lemma {:induction false} StripTakesBlanks(left: string, s: string, right: string)
    requires IsBlank(left) && IsBlank(right)
    requires s != [] ==> !IsSpace(s[0]) && !IsSpace(s[|s| - 1])
    ensures Strip(left + s + right) == s
    decreases |left| + |right|
  {
    hide IsSpace, Strip;
    if left != [] {
      StripTakesBlanks(left[1..], s, right);
      StripLeft(left[0], left[1..] + s + right);
      assert [left[0]] + (left[1..] + s + right) == left + s + right;
    } else if right != [] {
      var rest, last := right[..|right| - 1], right[|right| - 1];
      StripTakesBlanks(left, s, rest);
      StripRight(left + s + rest, last);
      assert left + s + rest + [last] == left + s + right;
    } else {
      assert left + s + right == s;
      StripFixes(s);
    }
  }

  /** Letters that differ at most in case. */
  predicate SameLetter(c: char, d: char) {
    c == d || (IsUpper(c) && c as int + 32 == d as int) || (IsUpper(d) && d as int + 32 == c as int)
  }

  /** Texts that differ at most in case. */
  predicate SameText(s: string, t: string) {
    |s| == |t| && forall i :: 0 <= i < |s| ==> SameLetter(s[i], t[i])
  }

  /** Lower-casing identifies exactly the texts that differ at most in case, and only changes
      case. */
  lemma LowerExactly(s: string, t: string)
    ensures Lower(s) == Lower(t) <==> SameText(s, t)
    ensures SameText(s, Lower(s))
  {
    if Lower(s) == Lower(t) {
      forall i | 0 <= i < |s| ensures SameLetter(s[i], t[i]) {
        assert LowerChar(s[i]) == Lower(s)[i] == LowerChar(t[i]);
      }
    }
  }

  /** Case and padding are folded away. */
  lemma FoldIgnoresCaseAndPadding(left: string, s: string, right: string, t: string)
    requires IsBlank(left) && IsBlank(right) && SameText(s, Strip(t))
    ensures Fold(left + s + right) == Fold(t)
  {
    LowerExactly(s, Strip(t));
    StripTakesBlanks(left, s, right);
  }

  // ---- The alias index ----------------------------------------------------------------

  function WithAliases(index: Index, aliases: seq<string>, code: string): Index {
    if aliases == [] then index
    else WithAliases(index, aliases[..|aliases| - 1], code)[Fold(aliases[|aliases| - 1]) := code]
  }

  function WithLanguage(index: Index, l: Language): Index {
    WithAliases(index, l.aliases, l.code)[Fold(l.code) := l.code]
  }

  function IndexOf(table: seq<Language>): Index {
    if table == [] then map[] else WithLanguage(IndexOf(table[..|table| - 1]), table[|table| - 1])
  }

  /** `_build_alias_index`. */
  method BuildAliasIndex(table: seq<Language>) returns (out: Index)
    ensures out == IndexOf(table)
  {
    out := map[];
    var i := 0;
    while i < |table|
      invariant 0 <= i <= |table|
      invariant out == IndexOf(table[..i])
    {
      var l := table[i];
      ghost var before := out;
      var j := 0;
      while j < |l.aliases|
        invariant 0 <= j <= |l.aliases|
        invariant out == WithAliases(before, l.aliases[..j], l.code)
      {
        assert l.aliases[..j + 1][..j] == l.aliases[..j];
        out := out[Fold(l.aliases[j]) := l.code];
        j := j + 1;
      }
      assert l.aliases[..j] == l.aliases;
      out := out[Fold(l.code) := l.code];
      assert table[..i + 1][..i] == table[..i];
      i := i + 1;
    }
    assert table[..i] == table;
  }

  /** Every code the index gives is folded, non-empty and its own entry. */
  ghost predicate Settled(index: Index) {
    forall a :: a in index ==>
      && index[a] != [] && Folded(index[a])
      && index[a] in index && index[index[a]] == index[a]
  }

  /** An alias that folds to some language's code folds to its own language's code. */
  ghost predicate Unambiguous(table: seq<Language>) {
    && (forall l :: l in table ==> l.code != [] && Folded(l.code))
    && forall l, k, a :: l in table && k in table && a in l.aliases && Fold(a) == k.code ==> k.code == l.code
  }

  /** What is known of an index while a table is read: its values are codes in `values`, and
      the codes in `codes` stand for themselves. */
  ghost predicate Standing(index: Index, codes: set<string>, values: set<string>) {
    && (forall a :: a in index ==> index[a] in values)
    && (forall c :: c in codes ==> c in index && index[c] == c)
  }

  lemma {:induction false} AliasesKeepStanding(index: Index, aliases: seq<string>, code: string,
                                               codes: set<string>, values: set<string>)
    requires Standing(index, codes, values) && code in values
    requires forall a :: a in aliases && Fold(a) in codes ==> Fold(a) == code
    ensures Standing(WithAliases(index, aliases, code), codes, values)
  {
    if aliases != [] {
      AliasesKeepStanding(index, aliases[..|aliases| - 1], code, codes, values);
      assert aliases[|aliases| - 1] in aliases;
    }
  }

  function Codes(table: seq<Language>): set<string> {
    set l | l in table :: l.code
  }

  lemma LanguageKeepsStanding(index: Index, l: Language, codes: set<string>)
    requires Standing(index, codes, codes) && Folded(l.code)
    requires forall a :: a in l.aliases && Fold(a) in codes ==> Fold(a) == l.code
    ensures Standing(WithLanguage(index, l), codes + {l.code}, codes + {l.code})
  {
    AliasesKeepStanding(index, l.aliases, l.code, codes, codes + {l.code});
    FoldFixes(l.code);
  }

  lemma {:induction false} TableStands(table: seq<Language>)
    requires Unambiguous(table)
    ensures Standing(IndexOf(table), Codes(table), Codes(table))
  {
    if table != [] {
      var init, l := table[..|table| - 1], table[|table| - 1];
      assert table == init + [l];
      assert Unambiguous(init) by { hide Fold, Folded; }
      TableStands(init);
      assert Codes(table) == Codes(init) + {l.code};
      hide Fold, Folded, Standing, WithLanguage;
      assert l in table;
      forall a | a in l.aliases && Fold(a) in Codes(init) ensures Fold(a) == l.code {
        var k :| k in init && k.code == Fold(a);
        assert k in table;
      }
      LanguageKeepsStanding(IndexOf(init), l, Codes(init));
    }
  }

  /** The index of an unambiguous table is settled. */
  lemma IndexIsSettled(table: seq<Language>)
    requires Unambiguous(table)
    ensures Settled(IndexOf(table))
  {
    TableStands(table);
    var index := IndexOf(table);
    forall a | a in index
      ensures index[a] != [] && Folded(index[a]) && index[a] in index && index[index[a]] == index[a]
    {
      var l :| l in table && l.code == index[a];
    }
  }

  /** The texts that name a language: its aliases and its code. */
  function Names(l: Language): seq<string> {
    l.aliases + [l.code]
  }

  ghost predicate NamedBy(l: Language, s: string) {
    exists a :: a in Names(l) && Fold(a) == s
  }

  /** No text names two languages. */
  ghost predicate NoSharedName(table: seq<Language>) {
    forall l, k, s :: l in table && k in table && NamedBy(l, s) && NamedBy(k, s) ==> l.code == k.code
  }

  lemma {:induction false} AliasesIndexed(index: Index, aliases: seq<string>, code: string, s: string)
    ensures s in WithAliases(index, aliases, code) <==> s in index || exists a :: a in aliases && Fold(a) == s
    ensures (exists a :: a in aliases && Fold(a) == s) ==> WithAliases(index, aliases, code)[s] == code
    ensures !(exists a :: a in aliases && Fold(a) == s) && s in index ==>
              WithAliases(index, aliases, code)[s] == index[s]
  {
    hide Fold;
    if aliases != [] {
      var init, last := aliases[..|aliases| - 1], aliases[|aliases| - 1];
      AliasesIndexed(index, init, code, s);
      assert aliases == init + [last];
    }
  }

  lemma LanguageIndexed(index: Index, l: Language, s: string)
    ensures s in WithLanguage(index, l) <==> s in index || NamedBy(l, s)
    ensures NamedBy(l, s) ==> WithLanguage(index, l)[s] == l.code
    ensures !NamedBy(l, s) && s in index ==> WithLanguage(index, l)[s] == index[s]
  {
    hide Fold, WithAliases;
    AliasesIndexed(index, l.aliases, l.code, s);
    assert l.code in Names(l);
    assert forall a :: a in Names(l) <==> a in l.aliases || a == l.code;
  }

  /** Whatever a table says already, a language added to it takes all its names. */
  lemma LaterLanguageWins(table: seq<Language>, l: Language, s: string)
    ensures NamedBy(l, s) ==> s in IndexOf(table + [l]) && IndexOf(table + [l])[s] == l.code
    ensures !NamedBy(l, s) ==> (s in IndexOf(table + [l]) <==> s in IndexOf(table)) &&
                               (s in IndexOf(table) ==> IndexOf(table + [l])[s] == IndexOf(table)[s])
  {
    hide NamedBy, WithLanguage;
    assert (table + [l])[..|table|] == table;
    LanguageIndexed(IndexOf(table), l, s);
  }

  /** The index holds exactly the names of the table's languages, each with the code of its
      language. */
  lemma {:induction false} IndexHoldsNames(table: seq<Language>, s: string)
    requires NoSharedName(table)
    ensures s in IndexOf(table) <==> exists l :: l in table && NamedBy(l, s)
    ensures forall l :: l in table && NamedBy(l, s) ==> s in IndexOf(table) && IndexOf(table)[s] == l.code
  {
    hide NamedBy, WithLanguage;
    if table != [] {
      var init, last := table[..|table| - 1], table[|table| - 1];
      assert table == init + [last];
      IndexHoldsNames(init, s);
      LanguageIndexed(IndexOf(init), last, s);
      forall l | l in table && NamedBy(l, s) ensures s in IndexOf(table) && IndexOf(table)[s] == l.code {
        if NamedBy(last, s) { assert last in table; }
      }
    }
  }

  // ---- Normalising --------------------------------------------------------------------

  /** Up to the first hyphen. */
  function Primary(s: string): string {
    if s == [] || s[0] == '-' then [] else [s[0]] + Primary(s[1..])
  }

  /** `normalize_language`; nothing for blank input. */
  function Normalize(index: Index, raw: string): Option<string> {
    var s := Fold(raw);
    if s == [] then None
    else if s in index then Some(index[s])
    else if Primary(s) in index then Some(index[Primary(s)])
    else Some(s)
  }

  /** What is before the first hyphen, if there is one. */
  lemma {:induction false} PrimaryExactly(s: string)
    ensures '-' !in Primary(s) && Primary(s) <= s
    ensures Primary(s) != s ==> s[|Primary(s)|] == '-'
  {
    if s != [] && s[0] != '-' { PrimaryExactly(s[1..]); }
  }

  /** What a tag is folded to: the language it names, else the language that the part before
      its first hyphen names, else its own text in lower case without padding. */
  lemma NormalizeExactly(table: seq<Language>, raw: string)
    requires NoSharedName(table)
    ensures var s, n := Fold(raw), Normalize(IndexOf(table), raw);
            && (s == [] <==> n == None)
            && (forall l :: s != [] && l in table && NamedBy(l, s) ==> n == Some(l.code))
            && (s != [] && (forall l :: l in table ==> !NamedBy(l, s)) ==>
                  && (forall l :: l in table && NamedBy(l, Primary(s)) ==> n == Some(l.code))
                  && ((forall l :: l in table ==> !NamedBy(l, Primary(s))) ==> n == Some(s)))
  {
    hide NamedBy, Fold, Primary;
    IndexHoldsNames(table, Fold(raw));
    IndexHoldsNames(table, Primary(Fold(raw)));
  }

  /** A name of a language, in any case and with any padding, is folded to its code. */
  lemma AliasIsFound(table: seq<Language>, l: Language, a: string, left: string, raw: string, right: string)
    requires NoSharedName(table) && l in table && a in Names(l) && Strip(a) != []
    requires IsBlank(left) && IsBlank(right) && SameText(raw, Strip(a))
    ensures Normalize(IndexOf(table), left + raw + right) == Some(l.code)
  {
    FoldIgnoresCaseAndPadding(left, raw, right, a);
    hide Normalize, IsBlank, SameText;
    assert NamedBy(l, Fold(a));
    NormalizeExactly(table, left + raw + right);
  }

  /** A normal form is its own normal form. */
  lemma NormalizeIsIdempotent(index: Index, raw: string)
    requires Settled(index) && Normalize(index, raw).Some?
    ensures var n := Normalize(index, raw).value; n != [] && Normalize(index, n) == Some(n)
  {
    FoldIsFolded(raw);
    FoldFixes(Normalize(index, raw).value);
  }

  /** The normal forms of a list of tags, first occurrences only. */
  function NormalForms(index: Index, tags: seq<string>): seq<string> {
    if tags == [] then []
    else
      var before := NormalForms(index, tags[..|tags| - 1]);
      var n := Normalize(index, tags[|tags| - 1]);
      if n.Some? && n.value !in before then before + [n.value] else before
  }

  /** `normalize_languages`. */
  method NormalizeAll(index: Index, tags: seq<string>) returns (out: seq<string>)
    ensures out == NormalForms(index, tags)
  {
    hide Normalize;
    out := [];
    var seen: set<string> := {};
    var i := 0;
    while i < |tags|
      invariant 0 <= i <= |tags|
      invariant out == NormalForms(index, tags[..i])
      invariant forall n :: n in seen <==> n in out
    {
      assert tags[..i + 1][..i] == tags[..i];
      var n := Normalize(index, tags[i]);
      if n.Some? && n.value !in seen {
        seen := seen + {n.value};
        out := out + [n.value];
      }
      i := i + 1;
    }
    assert tags[..i] == tags;
  }

  ghost predicate NoDuplicates(s: seq<string>) {
    forall i, j :: 0 <= i < j < |s| ==> s[i] != s[j]
  }

  /** `n` is the normal form of one of the tags. */
  ghost predicate IsFormOf(index: Index, tags: seq<string>, n: string) {
    exists i :: 0 <= i < |tags| && Normalize(index, tags[i]) == Some(n)
  }

  lemma FormOfAppend(index: Index, tags: seq<string>, t: string, n: string)
    ensures IsFormOf(index, tags + [t], n) <==> IsFormOf(index, tags, n) || Normalize(index, t) == Some(n)
  {
    hide Normalize;
    var longer := tags + [t];
    if IsFormOf(index, tags, n) {
      var i :| 0 <= i < |tags| && Normalize(index, tags[i]) == Some(n);
      assert longer[i] == tags[i];
    } else if Normalize(index, t) == Some(n) {
      assert longer[|tags|] == t;
    }
  }

  /** The list has no duplicates and holds exactly the normal forms of the tags. */
  lemma {:induction false} NormalFormsExactly(index: Index, tags: seq<string>)
    ensures NoDuplicates(NormalForms(index, tags))
    ensures forall n :: n in NormalForms(index, tags) <==> IsFormOf(index, tags, n)
  {
    if tags != [] {
      var init, last := tags[..|tags| - 1], tags[|tags| - 1];
      NormalFormsExactly(index, init);
      assert tags == init + [last];
      hide Normalize, IsFormOf;
      forall n ensures n in NormalForms(index, tags) <==> IsFormOf(index, tags, n) {
        FormOfAppend(index, init, last, n);
      }
    }
  }

  /** The order of first occurrences is kept: more tags only add forms at the end. */
  lemma {:induction false} NormalFormsGrow(index: Index, tags: seq<string>, k: nat)
    requires k <= |tags|
    ensures NormalForms(index, tags[..k]) <= NormalForms(index, tags)
  {
    hide Normalize;
    if k < |tags| {
      NormalFormsGrow(index, tags[..|tags| - 1], k);
      assert tags[..|tags| - 1][..k] == tags[..k];
    } else {
      assert tags[..k] == tags;
    }
  }

  /** Tags that are aliases of each other. */
  ghost predicate SameTag(index: Index, a: string, b: string) {
    Normalize(index, a) == Normalize(index, b)
  }

  ghost predicate SameTags(index: Index, a: seq<string>, b: seq<string>) {
    |a| == |b| && forall i :: 0 <= i < |a| ==> SameTag(index, a[i], b[i])
  }

  lemma {:induction false} SameTagsNormalizeAlike(index: Index, a: seq<string>, b: seq<string>)
    requires SameTags(index, a, b)
    ensures NormalForms(index, a) == NormalForms(index, b)
  {
    if a != [] {
      SameTagsNormalizeAlike(index, a[..|a| - 1], b[..|b| - 1]);
      assert SameTag(index, a[|a| - 1], b[|b| - 1]);
    }
  }

  // ---- The table ----------------------------------------------------------------------

  const EN := Language("en", ["en", "eng", "english", "en-us", "en-gb", "en_us", "en_gb", "en-au"])
  const ES := Language("es", ["es", "spa", "spanish", "espa\U{00F1}ol", "espanol", "es-es", "es-mx", "es-419"])
  const FR := Language("fr", ["fr", "fre", "fra", "french", "fran\U{00E7}ais", "francais", "fr-fr", "fr-ca"])
  const DE := Language("de", ["de", "ger", "deu", "german", "deutsch", "de-de", "de-at"])
  const IT := Language("it", ["it", "ita", "italian", "italiano"])
  const PT := Language("pt", ["pt", "por", "portuguese", "portugu\U{00EA}s", "portugues", "pt-br", "pt-pt"])
  const JA := Language("ja", ["ja", "jpn", "japanese", "\U{65E5}\U{672C}\U{8A9E}", "ja-jp"])
  const ZH_TAGS: seq<string> := ["zh", "chi", "zho", "zh-cn", "zh-tw", "zh-hk", "zh-hans", "zh-hant"]
  const ZH_NAMES: seq<string> := ["chinese", "\U{4E2D}\U{6587}", "cmn", "yue", "mandarin", "cantonese"]
  const ZH := Language("zh", ZH_TAGS + ZH_NAMES)
  const KO := Language("ko", ["ko", "kor", "korean", "\U{D55C}\U{AD6D}\U{C5B4}"])
  const RU := Language("ru", ["ru", "rus", "russian", "\U{0440}\U{0443}\U{0441}\U{0441}\U{043A}\U{0438}\U{0439}"])
  const AR := Language("ar", ["ar", "ara", "arabic"])
  const HI := Language("hi", ["hi", "hin", "hindi"])
  const NL := Language("nl", ["nl", "nld", "dut", "dutch", "nederlands"])
  const SV := Language("sv", ["sv", "swe", "swedish", "svenska"])
  const NO := Language("no", ["no", "nor", "norwegian", "nob", "nno", "norsk"])
  const DA := Language("da", ["da", "dan", "danish", "dansk"])
  const FI := Language("fi", ["fi", "fin", "finnish", "suomi"])
  const PL := Language("pl", ["pl", "pol", "polish", "polski"])
  const TR := Language("tr", ["tr", "tur", "turkish", "t\U{00FC}rk\U{00E7}e"])
  const HE := Language("he", ["he", "heb", "hebrew", "iw"])
  const EL := Language("el", ["el", "gre", "ell", "greek"])
  const TH := Language("th", ["th", "tha", "thai"])
  const VI := Language("vi", ["vi", "vie", "vietnamese"])
  const UK := Language("uk", ["uk", "ukr", "ukrainian"])
  const CS := Language("cs", ["cs", "cze", "ces", "czech"])
  const HU := Language("hu", ["hu", "hun", "hungarian", "magyar"])
  const RO := Language("ro", ["ro", "rum", "ron", "romanian", "rom\U{00E2}n\U{0103}"])
  const ID := Language("id", ["id", "ind", "indonesian"])
  const MS := Language("ms", ["ms", "may", "msa", "malay"])
  const FA := Language("fa", ["fa", "per", "fas", "persian", "farsi"])

  const TABLE: seq<Language> := [
    EN, ES, FR, DE, IT, PT, JA, ZH, KO, RU,
    AR, HI, NL, SV, NO, DA, FI, PL, TR, HE,
    EL, TH, VI, UK, CS, HU, RO, ID, MS, FA
  ]

  datatype Letters = Letters(first: char, second: char)

  /** The code of the language whose names begin with these letters, in the shipped table. */
  function Beginning(x: char, y: char, z: char): Letters {
    if x == 'a' then Letters('a', 'r')
    else if x == 'c' then (if y == 'h' || y == 'm' || y == 'a' then Letters('z', 'h') else Letters('c', 's'))
    else if x == 'd' then (if y == 'e' then Letters('d', 'e')
                           else if y == 'u' then Letters('n', 'l') else Letters('d', 'a'))
    else if x == 'e' then (if y == 'n' then Letters('e', 'n')
                           else if y == 's' then Letters('e', 's') else Letters('e', 'l'))
    else if x == 'f' then (if y == 'r' then Letters('f', 'r')
                           else if y == 'i' then Letters('f', 'i') else Letters('f', 'a'))
    else if x == 'g' then (if y == 'e' then Letters('d', 'e') else Letters('e', 'l'))
    else if x == 'h' then (if y == 'i' then Letters('h', 'i')
                           else if y == 'e' then Letters('h', 'e') else Letters('h', 'u'))
    else if x == 'i' then (if y == 't' then Letters('i', 't')
                           else if y == 'w' then Letters('h', 'e') else Letters('i', 'd'))
    else if x == 'j' then Letters('j', 'a')
    else if x == 'k' then Letters('k', 'o')
    else if x == 'm' then (if z == 'n' then Letters('z', 'h')
                           else if z == 'g' then Letters('h', 'u') else Letters('m', 's'))
    else if x == 'n' then (if y == 'l' || y == 'e' then Letters('n', 'l') else Letters('n', 'o'))
    else if x == 'p' then (if y == 'e' then Letters('f', 'a')
                           else if y == 'l' || z == 'l' then Letters('p', 'l') else Letters('p', 't'))
    else if x == 'r' then (if y == 'o' || z == 'm' then Letters('r', 'o') else Letters('r', 'u'))
    else if x == 's' then (if y == 'p' then Letters('e', 's')
                           else if y == 'u' then Letters('f', 'i') else Letters('s', 'v'))
    else if x == 't' then (if y == 'h' then Letters('t', 'h') else Letters('t', 'r'))
    else if x == 'u' then Letters('u', 'k')
    else if x == 'v' then Letters('v', 'i')
    else if x == 'y' || x == 'z' || x == '\U{4E2D}' then Letters('z', 'h')
    else if x == '\U{65E5}' then Letters('j', 'a')
    else if x == '\U{D55C}' then Letters('k', 'o')
    else Letters('r', 'u')
  }

  /** Letters a name may begin and end with, for the language of code `c`. */
  predicate LettersOk(x: char, y: char, z: char, last: char, c: Letters) {
    ' ' < x && ' ' < last && !IsUpper(x) && !IsUpper(y) && !IsUpper(z) && Beginning(x, y, z) == c
  }

  function Third(s: string): char {
    if |s| > 2 then s[2] else ' '
  }

  predicate AliasOk(a: string, c: Letters) {
    |a| >= 2 && LettersOk(a[0], a[1], Third(a), a[|a| - 1], c)
  }

  predicate LanguageOk(l: Language) {
    && |l.code| == 2
    && (var c := Letters(l.code[0], l.code[1]);
        AliasOk(l.code, c) && forall i :: 0 <= i < |l.aliases| ==> AliasOk(l.aliases[i], c))
  }

  lemma EnglishOk()
    ensures LanguageOk(EN)
  {
  }

  lemma SpanishOk()
    ensures LanguageOk(ES)
  {
  }

  lemma FrenchOk()
    ensures LanguageOk(FR)
  {
  }

  lemma GermanAndItalianOk()
    ensures LanguageOk(DE) && LanguageOk(IT)
  {
    assert LanguageOk(DE);
    assert LanguageOk(IT);
  }

  lemma PortugueseAndJapaneseOk()
    ensures LanguageOk(PT) && LanguageOk(JA)
  {
    assert LanguageOk(PT);
    assert LanguageOk(JA);
  }

  lemma KoreanRussianAndArabicOk()
    ensures LanguageOk(KO) && LanguageOk(RU) && LanguageOk(AR)
  {
    assert LanguageOk(KO);
    assert LanguageOk(RU);
    assert LanguageOk(AR);
  }

  lemma HindiDutchAndSwedishOk()
    ensures LanguageOk(HI) && LanguageOk(NL) && LanguageOk(SV)
  {
    assert LanguageOk(HI);
    assert LanguageOk(NL);
    assert LanguageOk(SV);
  }

  lemma NorwegianDanishAndFinnishOk()
    ensures LanguageOk(NO) && LanguageOk(DA) && LanguageOk(FI)
  {
    assert LanguageOk(NO);
    assert LanguageOk(DA);
    assert LanguageOk(FI);
  }

  lemma PolishTurkishAndHebrewOk()
    ensures LanguageOk(PL) && LanguageOk(TR) && LanguageOk(HE)
  {
    assert LanguageOk(PL);
    assert LanguageOk(TR);
    assert LanguageOk(HE);
  }

  lemma GreekThaiAndVietnameseOk()
    ensures LanguageOk(EL) && LanguageOk(TH) && LanguageOk(VI)
  {
    assert LanguageOk(EL);
    assert LanguageOk(TH);
    assert LanguageOk(VI);
  }

  lemma UkrainianCzechAndHungarianOk()
    ensures LanguageOk(UK) && LanguageOk(CS) && LanguageOk(HU)
  {
    assert LanguageOk(UK);
    assert LanguageOk(CS);
    assert LanguageOk(HU);
  }

  lemma RomanianAndIndonesianOk()
    ensures LanguageOk(RO) && LanguageOk(ID)
  {
    assert LanguageOk(RO);
    assert LanguageOk(ID);
  }

  lemma MalayAndPersianOk()
    ensures LanguageOk(MS) && LanguageOk(FA)
  {
    assert LanguageOk(MS);
    assert LanguageOk(FA);
  }

  lemma ChineseOk()
    ensures LanguageOk(ZH)
  {
    var c := Letters('z', 'h');
    assert forall i :: 0 <= i < |ZH_TAGS| ==> AliasOk(ZH_TAGS[i], c);
    assert forall i :: 0 <= i < |ZH_NAMES| ==> AliasOk(ZH_NAMES[i], c);
    hide AliasOk;
  }

  lemma OkAliasFolds(a: string, c: Letters)
    requires AliasOk(a, c)
    ensures |Fold(a)| == |a| >= 2
    ensures Beginning(Fold(a)[0], Fold(a)[1], Third(Fold(a))) == c
  {
    hide Beginning;
    assert Strip(a) == a;
    assert Lower(a)[0] == a[0] && Lower(a)[1] == a[1] && Third(Lower(a)) == Third(a);
  }

  lemma OkNameBegins(l: Language, s: string)
    requires LanguageOk(l) && NamedBy(l, s)
    ensures |s| >= 2 && Beginning(s[0], s[1], Third(s)) == Letters(l.code[0], l.code[1])
  {
    hide Beginning, Fold, AliasOk;
    var a :| a in Names(l) && Fold(a) == s;
    var i :| 0 <= i < |Names(l)| && Names(l)[i] == a;
    OkAliasFolds(a, Letters(l.code[0], l.code[1]));
  }

  lemma OkCodeIsFolded(l: Language)
    requires LanguageOk(l)
    ensures l.code != [] && Folded(l.code)
  {
    hide Beginning;
  }

  lemma SameLettersSameCode(l: Language, k: Language)
    requires LanguageOk(l) && LanguageOk(k)
    requires Letters(l.code[0], l.code[1]) == Letters(k.code[0], k.code[1])
    ensures l.code == k.code
  {
    hide AliasOk;
  }

  /** Languages whose names can be told apart by how they begin share no name. */
  lemma OkTableIsUnambiguous(table: seq<Language>)
    requires forall l :: l in table ==> LanguageOk(l)
    ensures NoSharedName(table) && Unambiguous(table)
  {
    hide Beginning, LanguageOk;
    forall l, k, s | l in table && k in table && NamedBy(l, s) && NamedBy(k, s) ensures l.code == k.code {
      hide NamedBy;
      OkNameBegins(l, s);
      OkNameBegins(k, s);
      SameLettersSameCode(l, k);
    }
    forall l | l in table ensures l.code != [] && Folded(l.code) {
      OkCodeIsFolded(l);
    }
    hide Folded;
    DistinctNamesAreUnambiguous(table);
  }

  lemma DistinctNamesAreUnambiguous(table: seq<Language>)
    requires NoSharedName(table)
    requires forall l :: l in table ==> l.code != [] && Folded(l.code)
    ensures Unambiguous(table)
  {
    forall l, k, a | l in table && k in table && a in l.aliases && Fold(a) == k.code ensures k.code == l.code {
      FoldFixes(k.code);
      hide Fold, Folded;
      assert a in Names(l) && k.code in Names(k);
      assert NamedBy(l, k.code) && NamedBy(k, k.code);
    }
  }

  /** The shipped table is unambiguous, so its index is settled. */
  lemma ShippedIndexIsSettled()
    ensures NoSharedName(TABLE) && Unambiguous(TABLE) && Settled(IndexOf(TABLE))
  {
    EnglishOk();
    SpanishOk();
    FrenchOk();
    GermanAndItalianOk();
    PortugueseAndJapaneseOk();
    KoreanRussianAndArabicOk();
    HindiDutchAndSwedishOk();
    NorwegianDanishAndFinnishOk();
    PolishTurkishAndHebrewOk();
    GreekThaiAndVietnameseOk();
    UkrainianCzechAndHungarianOk();
    RomanianAndIndonesianOk();
    MalayAndPersianOk();
    ChineseOk();
    hide LanguageOk;
    assert forall l :: l in TABLE ==> LanguageOk(l);
    OkTableIsUnambiguous(TABLE);
    IndexIsSettled(TABLE);
  }

  /** Every name of every shipped language, in any case and with any padding, is folded to the
      code of that language. */
  lemma ShippedAliasIsFound(l: Language, a: string, left: string, raw: string, right: string)
    requires l in TABLE && a in Names(l) && Strip(a) != []
    requires IsBlank(left) && IsBlank(right) && SameText(raw, Strip(a))
    ensures Normalize(IndexOf(TABLE), left + raw + right) == Some(l.code)
  {
    hide Normalize, Strip, SameText, IsBlank, Names, IndexOf;
    ShippedIndexIsSettled();
    AliasIsFound(TABLE, l, a, left, raw, right);
  }

  /** The tags of the module's own example. */
  lemma EnglishTags()
    ensures Normalize(IndexOf(TABLE), "en") == Some("en") && Normalize(IndexOf(TABLE), "eng") == Some("en")
    ensures Normalize(IndexOf(TABLE), "English") == Some("en") && Normalize(IndexOf(TABLE), "en-US") == Some("en")
  {
    hide Normalize, IndexOf;
    assert EN.code == "en" && EN.aliases[0] == "en" && EN.aliases[1] == "eng";
    assert EN.aliases[2] == "english" && EN.aliases[3] == "en-us";
    ShippedEnglish("en", 0);
    ShippedEnglish("eng", 1);
    ShippedEnglish("English", 2);
    ShippedEnglish("en-US", 3);
  }

  lemma ShippedEnglish(raw: string, i: nat)
    requires i < |EN.aliases| && SameText(raw, Strip(EN.aliases[i])) && Strip(EN.aliases[i]) != []
    ensures Normalize(IndexOf(TABLE), raw) == Some("en")
  {
    hide Normalize, IndexOf, Strip, SameText;
    assert EN in TABLE && Names(EN)[i] == EN.aliases[i];
    ShippedAliasIsFound(EN, EN.aliases[i], [], raw, []);
    assert [] + raw + [] == raw;
  }
}
