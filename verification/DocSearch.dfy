/** The documentation search index (`documentation/search.py`). Tokenising is done before the
    model starts: a page carries the tokens of its title, summary and body. */
module DocSearch {
  import opened Sorting
  import Languages

  datatype Page = Page(id: string, title: string, category: string, tags: seq<string>,
                       titleTokens: seq<string>, summaryTokens: seq<string>, bodyTokens: seq<string>)

  datatype Fields = Fields(title: seq<string>, tags: seq<string>, summary: seq<string>, body: seq<string>)

  datatype Hit = Hit(pageId: string, title: string, category: string, score: real)

  function FieldsOf(p: Page): Fields {
    Fields(p.titleTokens, seq(|p.tags|, i requires 0 <= i < |p.tags| => Languages.Lower(p.tags[i])),
           p.summaryTokens, p.bodyTokens)
  }

  /** A page is searched by the tokens of its title, summary and text, and by its tags in lower
      case. */
  lemma FieldsMean(p: Page)
    ensures var f := FieldsOf(p);
            && f.title == p.titleTokens && f.summary == p.summaryTokens && f.body == p.bodyTokens
            && |f.tags| == |p.tags| && forall i :: 0 <= i < |p.tags| ==> f.tags[i] == Languages.Lower(p.tags[i])
  {
  }

  function Tokens(f: Fields): set<string> {
    (set t | t in f.title) + (set t | t in f.tags) + (set t | t in f.summary) + (set t | t in f.body)
  }

  // ---- Scores -------------------------------------------------------------------------

  /** How much `term` weighs on a page. */
  function Weight(f: Fields, term: string): real {
    6.0 * multiset(f.title)[term] as real + 4.0 * multiset(f.tags)[term] as real
    + 3.0 * multiset(f.summary)[term] as real + multiset(f.body)[term] as real
  }

  function Total(f: Fields, terms: seq<string>): real {
    if terms == [] then 0.0 else Total(f, terms[..|terms| - 1]) + Weight(f, terms[|terms| - 1])
  }

  /** The number of query terms found on a page, repeats counted. */
  function Matched(f: Fields, terms: seq<string>): nat {
    if terms == [] then 0
    else Matched(f, terms[..|terms| - 1]) + if terms[|terms| - 1] in Tokens(f) then 1 else 0
  }

  function Score(f: Fields, terms: seq<string>): real {
    if Matched(f, terms) == 0 then 0.0
    else Total(f, terms) * (1.0 + 0.4 * (Matched(f, terms) - 1) as real)
  }

  lemma WeightIsPositiveExactly(f: Fields, term: string)
    ensures Weight(f, term) >= 1.0 || Weight(f, term) == 0.0
    ensures Weight(f, term) > 0.0 <==> term in Tokens(f)
  {
    assert term in f.title <==> multiset(f.title)[term] > 0;
    assert term in f.tags <==> multiset(f.tags)[term] > 0;
    assert term in f.summary <==> multiset(f.summary)[term] > 0;
    assert term in f.body <==> multiset(f.body)[term] > 0;
  }

  /** What one more occurrence adds: six in the title, four as a tag, three in the summary, one
      in the text; and nothing for another term. */
  lemma OccurrencesWeigh(f: Fields, t: string, u: string)
    ensures Weight(Fields([], [], [], []), t) == 0.0
    ensures Weight(f.(title := f.title + [t]), u) == Weight(f, u) + if t == u then 6.0 else 0.0
    ensures Weight(f.(tags := f.tags + [t]), u) == Weight(f, u) + if t == u then 4.0 else 0.0
    ensures Weight(f.(summary := f.summary + [t]), u) == Weight(f, u) + if t == u then 3.0 else 0.0
    ensures Weight(f.(body := f.body + [t]), u) == Weight(f, u) + if t == u then 1.0 else 0.0
  {
  }

  /** Every matched term after the first raises the score by two fifths of the total. */
  lemma ScoreMeans(f: Fields, terms: seq<string>)
    requires Matched(f, terms) > 0
    ensures Score(f, terms) == Total(f, terms) + 0.4 * Total(f, terms) * (Matched(f, terms) - 1) as real
  {
    hide Total, Matched;
    Spread(Total(f, terms), (Matched(f, terms) - 1) as real);
  }

  lemma Spread(x: real, k: real)
    ensures x * (1.0 + 0.4 * k) == x + 0.4 * x * k
  {
  }

  /** A page scores exactly when it holds some query term. */
  lemma {:induction false} ScoresExactly(f: Fields, terms: seq<string>)
    ensures Total(f, terms) >= Matched(f, terms) as real
    ensures Matched(f, terms) > 0 <==> exists t :: t in terms && t in Tokens(f)
    ensures Score(f, terms) > 0.0 <==> exists t :: t in terms && t in Tokens(f)
  {
    hide Weight, Tokens;
    MatchedExactly(f, terms);
    if Matched(f, terms) > 0 {
      PositiveProduct(Total(f, terms), 1.0 + 0.4 * (Matched(f, terms) - 1) as real);
    }
  }

  lemma PositiveProduct(x: real, y: real)
    requires x > 0.0 && y > 0.0
    ensures x * y > 0.0
  {
  }

  lemma {:induction false} MatchedExactly(f: Fields, terms: seq<string>)
    ensures Total(f, terms) >= Matched(f, terms) as real
    ensures Matched(f, terms) > 0 <==> exists t :: t in terms && t in Tokens(f)
  {
    hide Weight, Tokens;
    if terms != [] {
      var init, last := terms[..|terms| - 1], terms[|terms| - 1];
      assert terms == init + [last];
      MatchedExactly(f, init);
      WeightIsPositiveExactly(f, last);
    }
  }

  /** A page with all of three terms beats one with a single term exactly when the single
      term weighs less than 1.8 times what the three do together. */
  lemma ThreeTermsBeatOneExactly(f: Fields, g: Fields, terms: seq<string>)
    requires Matched(f, terms) == 3 && Matched(g, terms) == 1
    ensures Score(f, terms) > Score(g, terms) <==> Total(g, terms) < 1.8 * Total(f, terms)
  {
    hide Total, Matched;
    assert Score(f, terms) == Total(f, terms) * 1.8;
    assert Score(g, terms) == Total(g, terms) * 1.0;
  }

  lemma OneMoreTerm(f: Fields, terms: seq<string>, t: string)
    ensures Total(f, terms + [t]) == Total(f, terms) + Weight(f, t)
    ensures Matched(f, terms + [t]) == Matched(f, terms) + if t in Tokens(f) then 1 else 0
  {
    assert (terms + [t])[..|terms|] == terms;
  }

  lemma ThreeTerms(f: Fields, a: string, b: string, c: string, terms: seq<string>)
    requires terms == [a, b, c]
    ensures Total(f, terms) == Weight(f, a) + Weight(f, b) + Weight(f, c)
    ensures Matched(f, terms) == (if a in Tokens(f) then 1 else 0) + (if b in Tokens(f) then 1 else 0)
                                 + if c in Tokens(f) then 1 else 0
  {
    hide Weight, Tokens;
    OneMoreTerm(f, [], a);
    OneMoreTerm(f, [a], b);
    OneMoreTerm(f, [a, b], c);
    assert [] + [a] == [a] && [a] + [b] == [a, b] && [a, b] + [c] == terms;
  }

  /** One title word can beat three words in the text. */
  lemma OneTermCanBeatThree(f: Fields, g: Fields, a: string, b: string, c: string, terms: seq<string>)
    requires a != b && b != c && a != c && terms == [a, b, c]
    requires f == Fields([], [], [], terms) && g == Fields([a], [], [], [])
    ensures Matched(f, terms) == 3 && Matched(g, terms) == 1
    ensures Score(f, terms) < Score(g, terms)
  {
    ThreeTerms(f, a, b, c, terms);
    ThreeTerms(g, a, b, c, terms);
    hide Total, Matched;
    assert multiset(terms) == multiset{a, b, c};
  }

  // ---- The linear scan ----------------------------------------------------------------

  /** What one page adds to the answer: a hit or nothing. */
  function HitOf(pages: map<string, Fields>, byId: map<string, Page>, terms: seq<string>, id: string): seq<Hit> {
    if id in pages && id in byId && Score(pages[id], terms) > 0.0
    then [Hit(byId[id].id, byId[id].title, byId[id].category, Score(pages[id], terms))]
    else []
  }

  /** Scoring the pages `ids` one by one. */
  function Scan(pages: map<string, Fields>, byId: map<string, Page>, terms: seq<string>, ids: seq<string>): seq<Hit> {
    if ids == [] then []
    else Scan(pages, byId, terms, ids[..|ids| - 1]) + HitOf(pages, byId, terms, ids[|ids| - 1])
  }

  ghost predicate NoRepeats(ids: seq<string>) {
    forall i, j :: 0 <= i < j < |ids| ==> ids[i] != ids[j]
  }

  /** The hits of a scan: a page that is known, scores and is shown gives its own id, title and
      category with its score, and nothing else is a hit. */
  lemma {:induction false} ScanExactly(pages: map<string, Fields>, byId: map<string, Page>, terms: seq<string>,
                                       ids: seq<string>, h: Hit)
    ensures h in Scan(pages, byId, terms, ids) <==>
            exists id :: id in ids && id in pages && id in byId && Score(pages[id], terms) > 0.0 &&
              h.pageId == byId[id].id && h.title == byId[id].title && h.category == byId[id].category &&
              h.score == Score(pages[id], terms)
  {
    hide Score;
    if ids != [] {
      var init, last := ids[..|ids| - 1], ids[|ids| - 1];
      ScanExactly(pages, byId, terms, init, h);
      assert ids == init + [last];
      assert forall id :: id in ids <==> id in init || id == last;
    }
  }

  /** `ids` lists a set, each element once. */
  ghost predicate Enumerates(ids: seq<string>, s: set<string>) {
    NoRepeats(ids) && forall id :: id in ids <==> id in s
  }

  lemma EnumeratesNone(s: set<string>)
    requires s == {}
    ensures Enumerates([], s)
  {
  }

  lemma EnumeratesOneMore(ids: seq<string>, s: set<string>, id: string)
    requires Enumerates(ids, s) && id !in s
    ensures Enumerates(ids + [id], s + {id})
  {
  }

  lemma {:induction false} ScanAppends(pages: map<string, Fields>, byId: map<string, Page>, terms: seq<string>,
                                       ids: seq<string>, more: seq<string>)
    ensures Scan(pages, byId, terms, ids + more) == Scan(pages, byId, terms, ids) + Scan(pages, byId, terms, more)
  {
    hide HitOf;
    if more == [] {
      assert ids + more == ids;
    } else {
      var init := more[..|more| - 1];
      assert (ids + more)[..|ids + more| - 1] == ids + init;
      ScanAppends(pages, byId, terms, ids, init);
    }
  }

  lemma ScanWithout(pages: map<string, Fields>, byId: map<string, Page>, terms: seq<string>, ids: seq<string>, k: nat)
    requires k < |ids|
    ensures multiset(Scan(pages, byId, terms, ids)) ==
            multiset(Scan(pages, byId, terms, ids[..k] + ids[k + 1..])) + multiset(HitOf(pages, byId, terms, ids[k]))
  {
    hide HitOf;
    assert ids == ids[..k] + ([ids[k]] + ids[k + 1..]);
    ScanAppends(pages, byId, terms, ids[..k], [ids[k]] + ids[k + 1..]);
    ScanAppends(pages, byId, terms, [ids[k]], ids[k + 1..]);
    ScanAppends(pages, byId, terms, ids[..k], ids[k + 1..]);
    assert Scan(pages, byId, terms, [ids[k]]) == HitOf(pages, byId, terms, ids[k]) by {
      assert Scan(pages, byId, terms, [ids[k]][..0]) == [];
    }
  }

  /** Scans that visit the same scoring pages find the same hits. */
  lemma {:induction false} ScansAgree(pages: map<string, Fields>, byId: map<string, Page>, terms: seq<string>,
                                      ids: seq<string>, js: seq<string>)
    requires NoRepeats(ids) && NoRepeats(js)
    requires forall id :: HitOf(pages, byId, terms, id) != [] ==> (id in ids <==> id in js)
    ensures multiset(Scan(pages, byId, terms, ids)) == multiset(Scan(pages, byId, terms, js))
    decreases |ids| + |js|
  {
    hide HitOf;
    if ids == [] && js == [] {
    } else if ids == [] {
      assert js[|js| - 1] in js;
      ScansAgree(pages, byId, terms, ids, js[..|js| - 1]);
    } else {
      var init, last := ids[..|ids| - 1], ids[|ids| - 1];
      assert ids == init + [last];
      if HitOf(pages, byId, terms, last) == [] {
        ScansAgree(pages, byId, terms, init, js);
      } else {
        var k :| 0 <= k < |js| && js[k] == last;
        var rest := js[..k] + js[k + 1..];
        ScanWithout(pages, byId, terms, js, k);
        Removed(js, k);
        ScansAgree(pages, byId, terms, init, rest);
      }
    }
  }

  lemma Removed(js: seq<string>, k: nat)
    requires k < |js| && NoRepeats(js)
    ensures var rest := js[..k] + js[k + 1..];
            NoRepeats(rest) && forall id :: id in rest <==> id in js && id != js[k]
  {
    var rest := js[..k] + js[k + 1..];
    assert js == js[..k] + [js[k]] + js[k + 1..];
    assert forall i :: 0 <= i < |rest| ==> rest[i] == js[if i < k then i else i + 1];
  }

  // ---- Ranking ------------------------------------------------------------------------

  predicate LexLe(a: string, b: string) {
    a == [] || (b != [] && (a[0] < b[0] || (a[0] == b[0] && LexLe(a[1..], b[1..]))))
  }

  lemma {:induction false} LexTotal(a: string, b: string)
    ensures LexLe(a, b) || LexLe(b, a)
  {
    if a != [] && b != [] { LexTotal(a[1..], b[1..]); }
  }

  lemma {:induction false} LexTransitive(a: string, b: string, c: string)
    requires LexLe(a, b) && LexLe(b, c)
    ensures LexLe(a, c)
  {
    if a != [] && a[0] == b[0] == c[0] { LexTransitive(a[1..], b[1..], c[1..]); }
  }

  lemma {:induction false} LexAntisymmetric(a: string, b: string)
    requires LexLe(a, b) && LexLe(b, a)
    ensures a == b
  {
    if a != [] {
      LexAntisymmetric(a[1..], b[1..]);
      assert a == [a[0]] + a[1..] && b == [b[0]] + b[1..];
    }
  }

  /** The dictionary order: a text comes before those it begins, and else the first letter that
      differs decides. */
  lemma {:induction false} LexExactly(a: string, b: string)
    ensures LexLe(a, b) <==>
            a <= b || exists k :: 0 <= k < |a| && k < |b| && a[..k] == b[..k] && a[k] < b[k]
  {
    if a != [] && b != [] {
      LexExactly(a[1..], b[1..]);
      if a[0] == b[0] { SameHead(a, b); }
      else if a[0] < b[0] { assert a[..0] == b[..0]; }
      else { assert forall k :: 0 < k < |a| && k < |b| ==> a[..k][0] == a[0] && b[..k][0] == b[0]; }
    }
  }

  lemma SameHead(a: string, b: string)
    requires a != [] && b != [] && a[0] == b[0]
    ensures a <= b <==> a[1..] <= b[1..]
    ensures (exists k :: 0 <= k < |a| && k < |b| && a[..k] == b[..k] && a[k] < b[k]) <==>
            (exists k :: 0 <= k < |a[1..]| && k < |b[1..]| && a[1..][..k] == b[1..][..k] && a[1..][k] < b[1..][k])
  {
    var c, d := a[1..], b[1..];
    assert a == [a[0]] + c && b == [b[0]] + d;
    if k :| 0 <= k < |a| && k < |b| && a[..k] == b[..k] && a[k] < b[k] {
      assert k > 0;
      assert c[..k - 1] == a[..k][1..] && d[..k - 1] == b[..k][1..];
      assert c[k - 1] < d[k - 1];
    }
    if k :| 0 <= k < |c| && k < |d| && c[..k] == d[..k] && c[k] < d[k] {
      assert a[..k + 1] == [a[0]] + c[..k] && b[..k + 1] == [b[0]] + d[..k];
      assert a[k + 1] < b[k + 1];
    }
  }

  /** The better score first, then the title. */
  predicate RanksBefore(h: Hit, k: Hit) {
    h.score > k.score || (h.score == k.score && LexLe(Languages.Lower(h.title), Languages.Lower(k.title)))
  }

  lemma RankingIsTotal()
    ensures TotalPreorder(RanksBefore)
  {
    hide LexLe;
    forall h, k ensures RanksBefore(h, k) || RanksBefore(k, h) {
      LexTotal(Languages.Lower(h.title), Languages.Lower(k.title));
    }
    forall h, k, l | RanksBefore(h, k) && RanksBefore(k, l) ensures RanksBefore(h, l) {
      if h.score == k.score == l.score {
        LexTransitive(Languages.Lower(h.title), Languages.Lower(k.title), Languages.Lower(l.title));
      }
    }
  }

  /** Hits tie exactly when score and title agree. */
  lemma TiesExactly(h: Hit, k: Hit)
    ensures Tied(h, k, RanksBefore) <==> h.score == k.score && Languages.Lower(h.title) == Languages.Lower(k.title)
  {
    hide LexLe;
    var a, b := Languages.Lower(h.title), Languages.Lower(k.title);
    if LexLe(a, b) && LexLe(b, a) { LexAntisymmetric(a, b); }
    LexTotal(a, a);
  }

  /** Python's `xs[:limit]`, where a negative limit counts from the end. */
  function Slice<T>(xs: seq<T>, limit: int): seq<T> {
    if limit > |xs| then xs
    else if limit >= 0 then xs[..limit]
    else if |xs| + limit >= 0 then xs[..|xs| + limit]
    else []
  }

  /** `hits` is the front of some ranking of exactly the hits `scan`. */
  ghost predicate IsFrontOf(hits: seq<Hit>, scan: seq<Hit>, limit: int) {
    exists full: seq<Hit> ::
      Ordered(full, RanksBefore) && multiset(full) == multiset(scan) && hits == Slice(full, limit)
  }

  lemma SortedFront(scored: seq<Hit>, scan: seq<Hit>, limit: int)
    requires multiset(scored) == multiset(scan)
    ensures IsFrontOf(Slice(Sorted(scored, RanksBefore), limit), scan, limit)
  {
    hide Slice, Sorted, RanksBefore;
    RankingIsTotal();
    SortedSorts(scored, RanksBefore);
  }

  lemma SliceIsFront<T>(xs: seq<T>, ys: seq<T>, limit: int)
    requires |xs| == |ys|
    ensures |Slice(xs, limit)| == |Slice(ys, limit)| <= |xs|
    ensures forall i :: 0 <= i < |Slice(xs, limit)| ==>
                        Slice(xs, limit)[i] == xs[i] && Slice(ys, limit)[i] == ys[i]
  {
  }

  /** How much of the ranking is shown. */
  lemma SliceMeans<T>(xs: seq<T>, limit: int)
    ensures Slice(xs, limit) <= xs
    ensures 0 <= limit ==> |Slice(xs, limit)| == if limit < |xs| then limit else |xs|
    ensures limit < 0 ==> |Slice(xs, limit)| == if -limit < |xs| then |xs| + limit else 0
  {
  }

  /** The answer shows the best hits, best first: scores never rise, titles of equal scores are
      in dictionary order, and no hit left out beats one that is shown. */
  lemma BestFirst(hits: seq<Hit>, scan: seq<Hit>, limit: int)
    requires IsFrontOf(hits, scan, limit)
    ensures forall i, j :: 0 <= i < j < |hits| ==>
              && hits[i].score >= hits[j].score
              && (hits[i].score == hits[j].score ==>
                    LexLe(Languages.Lower(hits[i].title), Languages.Lower(hits[j].title)))
    ensures multiset(hits) <= multiset(scan)
    ensures forall h, i :: h in multiset(scan) - multiset(hits) && 0 <= i < |hits| ==> hits[i].score >= h.score
  {
    hide LexLe, Slice, RanksBefore;
    var full :| Ordered(full, RanksBefore) && multiset(full) == multiset(scan) && hits == Slice(full, limit);
    SliceMeans(full, limit);
    var rest := full[|hits|..];
    assert full == hits + rest;
    forall h, i | h in multiset(scan) - multiset(hits) && 0 <= i < |hits| ensures hits[i].score >= h.score {
      assert h in multiset(rest);
      var j :| 0 <= j < |rest| && rest[j] == h;
      assert RanksBefore(full[i], full[|hits| + j]);
      RankMeans(full[i], full[|hits| + j]);
    }
    forall i, j | 0 <= i < j < |hits|
      ensures hits[i].score >= hits[j].score
      ensures hits[i].score == hits[j].score ==>
                LexLe(Languages.Lower(hits[i].title), Languages.Lower(hits[j].title))
    {
      assert RanksBefore(full[i], full[j]) && hits[i] == full[i] && hits[j] == full[j];
      RankMeans(hits[i], hits[j]);
    }
  }

  lemma RankMeans(h: Hit, k: Hit)
    requires RanksBefore(h, k)
    ensures h.score >= k.score
    ensures h.score == k.score ==> LexLe(Languages.Lower(h.title), Languages.Lower(k.title))
  {
  }

  /** Every such front shows the same scores and titles, place by place, as the front of the
      sorted scan. */
  lemma FrontsAgree(hits: seq<Hit>, scan: seq<Hit>, limit: int)
    requires IsFrontOf(hits, scan, limit)
    ensures var best := Slice(Sorted(scan, RanksBefore), limit);
            && |hits| == |best|
            && forall i :: 0 <= i < |hits| ==> Tied(hits[i], best[i], RanksBefore)
  {
    hide RanksBefore, Sorted, Slice, Ordered, TotalPreorder, Tied;
    var full :| Ordered(full, RanksBefore) && multiset(full) == multiset(scan) && hits == Slice(full, limit);
    RankingIsTotal();
    SortedSorts(scan, RanksBefore);
    var sorted := Sorted(scan, RanksBefore);
    OrderedPermutationsAgree(full, sorted, RanksBefore);
    SliceIsFront(full, sorted, limit);
  }

  /** Without ties there is only one front. */
  lemma FrontIsUnique(hits: seq<Hit>, scan: seq<Hit>, limit: int)
    requires IsFrontOf(hits, scan, limit)
    requires forall h, k :: h in scan && k in scan && Tied(h, k, RanksBefore) ==> h == k
    ensures hits == Slice(Sorted(scan, RanksBefore), limit)
  {
    hide RanksBefore, Sorted, Slice, Ordered, TotalPreorder, Tied;
    var full :| Ordered(full, RanksBefore) && multiset(full) == multiset(scan) && hits == Slice(full, limit);
    RankingIsTotal();
    SortedSorts(scan, RanksBefore);
    var sorted := Sorted(scan, RanksBefore);
    OrderedPermutationsAgree(full, sorted, RanksBefore);
    PermutationKeepsMembers(full, scan);
    PermutationKeepsMembers(sorted, scan);
    assert full == sorted;
  }

  // ---- The index ----------------------------------------------------------------------

  type Postings = map<string, set<string>>

  function Posting(postings: Postings, term: string): set<string> {
    if term in postings then postings[term] else {}
  }

  /** The fields each id is known by: those of the last page that has it. */
  function PagesOf(ps: seq<Page>): map<string, Fields> {
    if ps == [] then map[] else PagesOf(ps[..|ps| - 1])[ps[|ps| - 1].id := FieldsOf(ps[|ps| - 1])]
  }

  /** A later page replaces an earlier one of the same id. */
  lemma {:induction false} LastPageWins(ps: seq<Page>, i: nat)
    requires i < |ps| && forall j :: i < j < |ps| ==> ps[j].id != ps[i].id
    ensures ps[i].id in PagesOf(ps) && PagesOf(ps)[ps[i].id] == FieldsOf(ps[i])
  {
    hide FieldsOf;
    if i < |ps| - 1 { LastPageWins(ps[..|ps| - 1], i); }
  }

  /** Some page indexed under `id` held `term`, be it replaced since or not. */
  ghost predicate Posted(ps: seq<Page>, term: string, id: string) {
    exists i :: 0 <= i < |ps| && ps[i].id == id && term in Tokens(FieldsOf(ps[i]))
  }

  /** Every token of a page leads to it. Tokens of replaced pages may still do so too. */
  ghost predicate Covers(pages: map<string, Fields>, postings: Postings) {
    forall id, t :: id in pages && t in Tokens(pages[id]) ==> id in Posting(postings, t)
  }

  /** `after` is `before` with `id` added under each of `toks`. */
  ghost predicate Extends(before: Postings, after: Postings, toks: set<string>, id: string) {
    forall t :: Posting(after, t) == Posting(before, t) + if t in toks then {id} else {}
  }

  lemma ExtendsByNone(before: Postings, id: string)
    ensures Extends(before, before, {}, id)
  {
  }

  lemma ExtendsOneMore(before: Postings, after: Postings, toks: set<string>, id: string, tok: string)
    requires Extends(before, after, toks, id)
    ensures Extends(before, after[tok := Posting(after, tok) + {id}], toks + {tok}, id)
  {
    var more := after[tok := Posting(after, tok) + {id}];
    forall t ensures Posting(more, t) == Posting(before, t) + if t in toks + {tok} then {id} else {} {
      assert Posting(after, t) == Posting(before, t) + if t in toks then {id} else {};
    }
  }

  lemma CoversOneMore(pages: map<string, Fields>, before: Postings, after: Postings, id: string, f: Fields)
    requires Covers(pages, before) && Extends(before, after, Tokens(f), id)
    ensures Covers(pages[id := f], after)
  {
    hide Tokens, Posting;
    forall j, t | j in pages[id := f] && t in Tokens(pages[id := f][j]) ensures j in Posting(after, t) {
      assert Posting(after, t) == Posting(before, t) + if t in Tokens(f) then {id} else {};
    }
  }

  class SearchIndex {
    var pages: map<string, Fields>
    var postings: Postings

    ghost predicate Valid()
      reads this
    {
      Covers(pages, postings)
    }

    constructor ()
      ensures Valid() && pages == map[] && postings == map[]
    {
      pages, postings := map[], map[];
    }

    method Rebuild(ps: seq<Page>)
      modifies this
      ensures Valid() && pages == PagesOf(ps)
      ensures forall t, id :: id in Posting(postings, t) <==> Posted(ps, t, id)
    {
      pages, postings := map[], map[];
      for i := 0 to |ps|
        invariant Valid() && pages == PagesOf(ps[..i])
        invariant forall t, id :: id in Posting(postings, t) <==> Posted(ps[..i], t, id)
      {
        assert ps[..i + 1][..i] == ps[..i];
        IndexPage(ps[i]);
        PostedOneMore(ps[..i], ps[i]);
        assert ps[..i + 1] == ps[..i] + [ps[i]];
      }
      assert ps[..|ps|] == ps;
    }

    method IndexPage(p: Page)
      requires Valid()
      modifies this
      ensures Valid() && pages == old(pages)[p.id := FieldsOf(p)]
      ensures Extends(old(postings), postings, Tokens(FieldsOf(p)), p.id)
    {
      hide Tokens, FieldsOf, Extends, Covers;
      var fields := FieldsOf(p);
      pages := pages[p.id := fields];
      var todo := Tokens(fields);
      assert Extends(old(postings), postings, {}, p.id) by { ExtendsByNone(postings, p.id); }
      assert Tokens(fields) - todo == {};
      while todo != {}
        invariant todo <= Tokens(fields) && pages == old(pages)[p.id := fields]
        invariant Extends(old(postings), postings, Tokens(fields) - todo, p.id)
        decreases |todo|
      {
        var tok :| tok in todo;
        ExtendsOneMore(old(postings), postings, Tokens(fields) - todo, p.id, tok);
        assert Tokens(fields) - todo + {tok} == Tokens(fields) - (todo - {tok});
        postings := postings[tok := Posting(postings, tok) + {p.id}];
        todo := todo - {tok};
      }
      assert Tokens(fields) - todo == Tokens(fields);
      CoversOneMore(old(pages), old(postings), postings, p.id, fields);
    }

    method Search(terms: seq<string>, byId: map<string, Page>, limit: int) returns (hits: seq<Hit>)
      requires Valid()
      ensures forall ids :: Enumerates(ids, pages.Keys) ==> IsFrontOf(hits, Scan(pages, byId, terms, ids), limit)
    {
      hide Covers, HitOf, Sorted, Slice, Posting, Enumerates, IsFrontOf;
      var candidates := Candidates(terms);
      ghost var all := candidates;
      var scored: seq<Hit> := [];
      ghost var done: seq<string> := [];
      assert Enumerates(done, all - candidates) by { EnumeratesNone(all - candidates); }
      while candidates != {}
        invariant Enumerates(done, all - candidates) && candidates <= all
        invariant scored == Scan(pages, byId, terms, done)
        decreases |candidates|
      {
        var id :| id in candidates;
        var found := HitFor(terms, byId, id);
        EnumeratesOneMore(done, all - candidates, id);
        assert all - candidates + {id} == all - (candidates - {id});
        candidates := candidates - {id};
        assert (done + [id])[..|done|] == done;
        done := done + [id];
        scored := scored + found;
      }
      assert all - candidates == all;
      hits := Slice(Sorted(scored, RanksBefore), limit);
      forall ids | Enumerates(ids, pages.Keys) ensures IsFrontOf(hits, Scan(pages, byId, terms, ids), limit) {
        CandidatesSuffice(terms, byId, all, done, ids);
        SortedFront(scored, Scan(pages, byId, terms, ids), limit);
      }
    }

    /** One round of the scoring loop. */
    method HitFor(terms: seq<string>, byId: map<string, Page>, id: string) returns (found: seq<Hit>)
      ensures found == HitOf(pages, byId, terms, id)
    {
      found := [];
      if id in pages && id in byId {
        var score := ScoreOf(pages[id], terms);
        if score > 0.0 { found := [Hit(byId[id].id, byId[id].title, byId[id].category, score)]; }
      }
    }

    /** The pages some term leads to. */
    method Candidates(terms: seq<string>) returns (found: set<string>)
      ensures forall id :: id in found <==> exists t :: t in terms && id in Posting(postings, t)
    {
      found := {};
      for i := 0 to |terms|
        invariant forall id :: id in found <==> exists t :: t in terms[..i] && id in Posting(postings, t)
      {
        assert terms[..i + 1] == terms[..i] + [terms[i]];
        found := found + Posting(postings, terms[i]);
      }
      assert terms[..|terms|] == terms;
    }

    lemma CandidatesSuffice(terms: seq<string>, byId: map<string, Page>, all: set<string>,
                            done: seq<string>, ids: seq<string>)
      requires Valid() && Enumerates(done, all) && Enumerates(ids, pages.Keys)
      requires forall id :: id in all <==> exists t :: t in terms && id in Posting(postings, t)
      ensures multiset(Scan(pages, byId, terms, done)) == multiset(Scan(pages, byId, terms, ids))
    {
      forall id | HitOf(pages, byId, terms, id) != [] ensures id in done <==> id in ids {
        ScoresExactly(pages[id], terms);
        var t :| t in terms && t in Tokens(pages[id]);
        assert id in Posting(postings, t);
      }
      ScansAgree(pages, byId, terms, done, ids);
    }

    static method ScoreOf(f: Fields, terms: seq<string>) returns (score: real)
      ensures score == Score(f, terms)
    {
      var total, matched := 0.0, 0;
      for i := 0 to |terms|
        invariant total == Total(f, terms[..i]) && matched == Matched(f, terms[..i])
      {
        assert terms[..i + 1] == terms[..i] + [terms[i]];
        OneMoreTerm(f, terms[..i], terms[i]);
        WeightIsPositiveExactly(f, terms[i]);
        var tf := Weight(f, terms[i]);
        if tf > 0.0 {
          matched := matched + 1;
          total := total + tf;
        }
      }
      assert terms[..|terms|] == terms;
      score := if matched == 0 then 0.0 else total * (1.0 + 0.4 * (matched - 1) as real);
    }
  }

  lemma PostedOneMore(ps: seq<Page>, p: Page)
    ensures forall t, id :: Posted(ps + [p], t, id) <==>
                            Posted(ps, t, id) || (p.id == id && t in Tokens(FieldsOf(p)))
  {
    hide Tokens, FieldsOf;
    var qs := ps + [p];
    assert qs[|ps|] == p;
    forall t, id | Posted(ps, t, id) ensures Posted(qs, t, id) {
      var i :| 0 <= i < |ps| && ps[i].id == id && t in Tokens(FieldsOf(ps[i]));
      assert qs[i] == ps[i];
    }
  }
}
