/** Rewriting paths between an integration's view of the file system and ours
    (`integrations/path_mapping.py`). */
module PathMapping {
  import opened Sorting

  datatype Mapping = Mapping(src: string, dst: string)

  /** A value of the configuration's JSON: a string, or something else that counts as true
      or as false. A missing key is `Falsy`. */
  datatype Json = Text(text: string) | Truthy | Falsy

  datatype Entry = NotAnObject | Object(from: Json, srcPrefix: Json, to: Json, dstPrefix: Json)

  datatype Raw = NotAList | Entries(entries: seq<Entry>)

  // ---- Parsing ------------------------------------------------------------------------

  /** Python's `a or b`. */
  function Or(a: Json, b: Json): Json {
    if a.Falsy? || a == Text("") then b else a
  }

  /** `rstrip("/")`. */
  function Stripped(s: string): (r: string)
    ensures r == [] || r[|r| - 1] != '/'
    ensures |r| <= |s| && s[..|r|] == r && forall i :: |r| <= i < |s| ==> s[i] == '/'
  {
    if s != [] && s[|s| - 1] == '/' then Stripped(s[..|s| - 1]) else s
  }

  /** Non-empty on both sides and without a trailing slash. */
  predicate Proper(m: Mapping) {
    m.src != [] && m.dst != [] && m.src[|m.src| - 1] != '/' && m.dst[|m.dst| - 1] != '/'
  }

  /** The mapping of an entry, or nothing for a malformed one. */
  function Parsed(e: Entry): seq<Mapping> {
    if e.NotAnObject? then []
    else
      var src, dst := Or(e.from, e.srcPrefix), Or(e.to, e.dstPrefix);
      if !src.Text? || !dst.Text? then []
      else if Stripped(src.text) == [] || Stripped(dst.text) == [] then []
      else [Mapping(Stripped(src.text), Stripped(dst.text))]
  }

  lemma ParsedIsProper(e: Entry)
    ensures forall m :: m in Parsed(e) ==> Proper(m)
  {
  }

  /** What an entry gives: the pair named `from` and `to`, or by the other names where one of
      these is missing or empty, without trailing slashes; nothing unless both are texts with
      something left. */
  lemma ParsedExactly(e: Entry)
    ensures e.NotAnObject? ==> Parsed(e) == []
    ensures e.Object? ==>
              var src := if e.from == Text([]) || e.from.Falsy? then e.srcPrefix else e.from;
              var dst := if e.to == Text([]) || e.to.Falsy? then e.dstPrefix else e.to;
              Parsed(e) == if src.Text? && dst.Text? && Stripped(src.text) != [] && Stripped(dst.text) != []
                           then [Mapping(Stripped(src.text), Stripped(dst.text))] else []
  {
  }

  /** Trailing slashes do not matter. */
  lemma {:induction false} StrippedExactly(s: string, slashes: string)
    requires s == [] || s[|s| - 1] != '/'
    requires forall i :: 0 <= i < |slashes| ==> slashes[i] == '/'
    ensures Stripped(s + slashes) == s
  {
    if slashes != [] {
      StrippedExactly(s, slashes[..|slashes| - 1]);
      assert (s + slashes)[..|s + slashes| - 1] == s + slashes[..|slashes| - 1];
    } else {
      assert s + slashes == s;
    }
  }

  function ParsedAll(es: seq<Entry>): seq<Mapping> {
    if es == [] then [] else ParsedAll(es[..|es| - 1]) + Parsed(es[|es| - 1])
  }

  /** The entries are taken one by one, in their order. */
  lemma {:induction false} ParsedAllJoin(es: seq<Entry>, fs: seq<Entry>)
    ensures ParsedAll(es + fs) == ParsedAll(es) + ParsedAll(fs)
    ensures forall e :: ParsedAll([e]) == Parsed(e)
  {
    hide Parsed;
    forall e ensures ParsedAll([e]) == Parsed(e) {
      assert [e][..0] == [];
    }
    if fs == [] {
      assert es + fs == es;
    } else {
      ParsedAllJoin(es, fs[..|fs| - 1]);
      assert (es + fs)[..|es + fs| - 1] == es + fs[..|fs| - 1];
    }
  }

  /** Longer sources first, and longer targets first. */
  predicate LongerSrc(a: Mapping, b: Mapping) {
    |a.src| >= |b.src|
  }

  predicate LongerDst(a: Mapping, b: Mapping) {
    |a.dst| >= |b.dst|
  }

  /** `parse_mappings`: the well-formed entries, stripped, longest source first. */
  method ParseMappings(raw: Raw) returns (ms: seq<Mapping>)
    ensures raw.NotAList? ==> ms == []
    ensures raw.Entries? ==> ms == Sorted(ParsedAll(raw.entries), LongerSrc)
    ensures Ordered(ms, LongerSrc)
    ensures forall m :: m in ms ==> Proper(m)
  {
    if raw.NotAList? { return []; }
    hide Sorted, Ordered, Proper;
    var out: seq<Mapping> := [];
    var i := 0;
    while i < |raw.entries|
      invariant 0 <= i <= |raw.entries|
      invariant out == ParsedAll(raw.entries[..i])
      invariant forall m :: m in out ==> Proper(m)
    {
      assert raw.entries[..i + 1][..i] == raw.entries[..i];
      ParsedIsProper(raw.entries[i]);
      out := out + Parsed(raw.entries[i]);
      i := i + 1;
    }
    assert raw.entries[..i] == raw.entries;
    SortedSorts(out, LongerSrc);
    ms := Sorted(out, LongerSrc);
    PermutationKeepsMembers(ms, out);
  }

  // ---- Remapping ----------------------------------------------------------------------

  /** The path is the directory itself or lies below it. */
  predicate Covers(prefix: string, path: string) {
    path == prefix || prefix + "/" <= path
  }

  // ---- What covering means ------------------------------------------------------------

  /** The pieces of a path between its slashes. */
  function Components(path: string): (cs: seq<string>)
    ensures cs != []
  {
    if path == [] then [[]]
    else
      var rest := Components(path[1..]);
      if path[0] == '/' then [[]] + rest else [[path[0]] + rest[0]] + rest[1..]
  }

  function Slashed(cs: seq<string>): string
    requires cs != []
  {
    if |cs| == 1 then cs[0] else cs[0] + "/" + Slashed(cs[1..])
  }

  /** A path is its components, joined by slashes. */
  lemma {:induction false} SlashedComponents(path: string)
    ensures Slashed(Components(path)) == path
  {
    if path != [] {
      var rest := Components(path[1..]);
      SlashedComponents(path[1..]);
      if path[0] == '/' {
        assert ([[]] + rest)[1..] == rest;
      } else {
        var cs := [[path[0]] + rest[0]] + rest[1..];
        assert cs[1..] == rest[1..];
      }
    }
  }

  lemma {:induction false} ComponentsJoin(a: string, b: string)
    ensures Components(a + "/" + b) == Components(a) + Components(b)
  {
    var whole := a + "/" + b;
    if a == [] {
      assert whole[0] == '/' && whole[1..] == b;
    } else {
      ComponentsJoin(a[1..], b);
      assert whole[0] == a[0] && whole[1..] == a[1..] + "/" + b;
    }
  }

  lemma {:induction false} SlashedJoin(cs: seq<string>, ds: seq<string>)
    requires cs != [] && ds != []
    ensures Slashed(cs + ds) == Slashed(cs) + "/" + Slashed(ds)
  {
    if |cs| > 1 {
      SlashedJoin(cs[1..], ds);
      assert (cs + ds)[1..] == cs[1..] + ds;
    } else {
      assert (cs + ds)[1..] == ds;
    }
  }

  /** A directory covers a path exactly if its components are the first ones of the path:
      matching stops at directory boundaries. */
  lemma CoversExactly(prefix: string, path: string)
    ensures Covers(prefix, path) <==> Components(prefix) <= Components(path)
  {
    hide Components, Slashed;
    var cs, ds := Components(prefix), Components(path);
    if Covers(prefix, path) && path != prefix {
      var rest := path[|prefix| + 1..];
      assert path == prefix + "/" + rest;
      ComponentsJoin(prefix, rest);
    }
    if cs <= ds {
      SlashedComponents(prefix);
      SlashedComponents(path);
      if cs != ds {
        var rest := ds[|cs|..];
        assert ds == cs + rest;
        SlashedJoin(cs, rest);
        assert prefix + "/" <= path;
      }
    }
  }

  /** A mapping rewrites what lies at or below its source, and not a longer name. */
  lemma StopsAtDirectory(m: Mapping, rest: string)
    ensures Remap(m.src + rest, [m]) == (if rest == [] || rest[0] == '/' then m.dst else m.src) + rest
  {
    CoversOwn(m.src, rest);
    hide Covers;
    assert [m][1..] == [];
  }

  lemma InverseStopsAtDirectory(m: Mapping, rest: string)
    ensures RemapInverse(m.dst + rest, [m]) == (if rest == [] || rest[0] == '/' then m.src else m.dst) + rest
  {
    CoversOwn(m.dst, rest);
    SortedOne(m, LongerDst);
    hide Covers, Sorted;
    assert [m][1..] == [];
    assert FirstByDst(m.dst + rest, [m]) == (if rest == [] || rest[0] == '/' then m.src else m.dst) + rest;
  }

  lemma CoversOwn(prefix: string, rest: string)
    ensures Covers(prefix, prefix + rest) <==> rest == [] || rest[0] == '/'
    ensures (prefix + rest)[|prefix|..] == rest
  {
    var path := prefix + rest;
    if rest != [] { assert path[..|prefix| + 1] == prefix + [rest[0]]; }
    if prefix + "/" <= path { assert path[|prefix|] == '/'; }
  }

  /** The documentation's example. */
  lemma LongerNameIsNotCovered(m: Mapping)
    requires m.src == "/data/tv"
    ensures Remap("/data/tvshows/x", [m]) == "/data/tvshows/x"
  {
    assert "/data/tv" + "shows/x" == "/data/tvshows/x";
    StopsAtDirectory(m, "shows/x");
  }

  // ---- The rewriting ------------------------------------------------------------------

  /** `remap_path`: the first mapping whose source covers the path. */
  function Remap(path: string, ms: seq<Mapping>): string {
    if ms == [] then path
    else if Covers(ms[0].src, path) then ms[0].dst + path[|ms[0].src|..]
    else Remap(path, ms[1..])
  }

  function FirstByDst(path: string, ms: seq<Mapping>): string {
    if ms == [] then path
    else if Covers(ms[0].dst, path) then ms[0].src + path[|ms[0].dst|..]
    else FirstByDst(path, ms[1..])
  }

  /** `remap_path_inverse`. */
  function RemapInverse(path: string, ms: seq<Mapping>): string {
    FirstByDst(path, Sorted(ms, LongerDst))
  }

  /** `m` is the mapping with the longest source that covers the path. */
  ghost predicate Longest(path: string, ms: seq<Mapping>, m: Mapping) {
    m in ms && Covers(m.src, path) && forall k :: k in ms && Covers(k.src, path) ==> |k.src| <= |m.src|
  }

  /** Two directories that cover one path are equal or nested. */
  lemma CoversCompare(a: string, b: string, path: string)
    requires Covers(a, path) && Covers(b, path) && |a| <= |b|
    ensures Covers(a, b)
    ensures |a| == |b| ==> a == b
  {
    assert a == path[..|a|] && b == path[..|b|];
    assert b[..|a|] == a;
    if |a| < |b| { assert b[|a|] == path[|a|] == '/'; }
  }

  function HasSrc(src: string): Mapping -> bool {
    (m: Mapping) => m.src == src
  }

  function HasDst(dst: string): Mapping -> bool {
    (m: Mapping) => m.dst == dst
  }

  /** `m` is the first entry that `p` picks. */
  ghost predicate IsFirst(ms: seq<Mapping>, p: Mapping -> bool, m: Mapping) {
    Filtered(ms, p) != [] && Filtered(ms, p)[0] == m
  }

  /** `m` is the first entry with the longest source that covers the path. */
  ghost predicate Applied(path: string, ms: seq<Mapping>, m: Mapping) {
    Longest(path, ms, m) && IsFirst(ms, HasSrc(m.src), m)
  }

  /** After parsing, the first entry with the longest covering source is the one applied. */
  lemma {:induction false} LongestWins(path: string, ms: seq<Mapping>, m: Mapping)
    requires Ordered(ms, LongerSrc) && Applied(path, ms, m)
    ensures Remap(path, ms) == m.dst + path[|m.src|..]
    decreases |ms|
  {
    FilteredHead(ms, HasSrc(m.src));
    if Covers(ms[0].src, path) {
      var i :| 0 <= i < |ms| && ms[i] == m;
      assert i > 0 ==> LongerSrc(ms[0], ms[i]);
      assert ms[0] in ms;
      CoversCompare(ms[0].src, m.src, path);
    } else {
      assert ms == [ms[0]] + ms[1..];
      LongestWins(path, ms[1..], m);
    }
  }

  /** With distinct sources that is the only such entry. */
  lemma LongestIsApplied(path: string, ms: seq<Mapping>, m: Mapping)
    requires DistinctSources(ms) && Longest(path, ms, m)
    ensures Applied(path, ms, m)
  {
    FilteredKeeps(ms, HasSrc(m.src));
    assert m in Filtered(ms, HasSrc(m.src));
    assert Filtered(ms, HasSrc(m.src))[0] in Filtered(ms, HasSrc(m.src));
  }

  /** Some entry is applied to every covered path. */
  lemma AppliedExists(path: string, ms: seq<Mapping>, k: Mapping) returns (m: Mapping)
    requires k in ms && Covers(k.src, path)
    ensures Applied(path, ms, m)
  {
    var l := LongestExists(path, ms, k);
    FilteredKeeps(ms, HasSrc(l.src));
    assert l in Filtered(ms, HasSrc(l.src));
    m := Filtered(ms, HasSrc(l.src))[0];
    assert m in Filtered(ms, HasSrc(l.src));
  }

  /** A path that no source covers is left alone. */
  lemma {:induction false} UncoveredUnchanged(path: string, ms: seq<Mapping>)
    requires forall k :: k in ms ==> !Covers(k.src, path)
    ensures Remap(path, ms) == path
    decreases |ms|
  {
    if ms != [] {
      assert ms[0] in ms;
      UncoveredUnchanged(path, ms[1..]);
    }
  }

  lemma {:induction false} LongestExists(path: string, ms: seq<Mapping>, k: Mapping) returns (m: Mapping)
    requires k in ms && Covers(k.src, path)
    ensures Longest(path, ms, m)
    decreases |path| - |k.src|
  {
    if j :| j in ms && Covers(j.src, path) && |j.src| > |k.src| {
      m := LongestExists(path, ms, j);
    } else {
      m := k;
    }
  }

  ghost predicate DistinctSources(ms: seq<Mapping>) {
    forall j, k :: j in ms && k in ms && j.src == k.src ==> j == k
  }

  /** The order in which an operator lists distinct sources does not matter. */
  lemma OrderDoesNotMatter(path: string, ms: seq<Mapping>, ns: seq<Mapping>)
    requires multiset(ms) == multiset(ns) && DistinctSources(ms)
    requires Ordered(ms, LongerSrc) && Ordered(ns, LongerSrc)
    ensures Remap(path, ms) == Remap(path, ns)
  {
    PermutationKeepsMembers(ms, ns);
    if k :| k in ms && Covers(k.src, path) {
      var m := LongestExists(path, ms, k);
      LongestIsApplied(path, ms, m);
      LongestIsApplied(path, ns, m);
      LongestWins(path, ms, m);
      LongestWins(path, ns, m);
    } else {
      UncoveredUnchanged(path, ms);
      UncoveredUnchanged(path, ns);
    }
  }

  // ---- Going back ---------------------------------------------------------------------

  ghost predicate LongestTarget(path: string, ms: seq<Mapping>, m: Mapping) {
    m in ms && Covers(m.dst, path) && forall k :: k in ms && Covers(k.dst, path) ==> |k.dst| <= |m.dst|
  }

  lemma {:induction false} LongestTargetWins(path: string, ms: seq<Mapping>, m: Mapping)
    requires Ordered(ms, LongerDst) && LongestTarget(path, ms, m)
    requires IsFirst(ms, HasDst(m.dst), m)
    ensures FirstByDst(path, ms) == m.src + path[|m.dst|..]
    decreases |ms|
  {
    FilteredHead(ms, HasDst(m.dst));
    if Covers(ms[0].dst, path) {
      var i :| 0 <= i < |ms| && ms[i] == m;
      assert i > 0 ==> LongerDst(ms[0], ms[i]);
      assert ms[0] in ms;
      CoversCompare(ms[0].dst, m.dst, path);
    } else {
      assert ms == [ms[0]] + ms[1..];
      LongestTargetWins(path, ms[1..], m);
    }
  }

  /** The inverse goes through the first entry with the longest covering target, in the order
      of the mappings: re-sorting them is stable. */
  lemma InverseGoesThrough(path: string, ms: seq<Mapping>, k: Mapping) returns (t: Mapping)
    requires k in ms && Covers(k.dst, path)
    ensures LongestTarget(path, ms, t) && IsFirst(ms, HasDst(t.dst), t)
    ensures RemapInverse(path, ms) == t.src + path[|t.dst|..]
  {
    hide Sorted, FirstByDst, Ordered, Covers;
    var ds := Sorted(ms, LongerDst);
    SortedSorts(ms, LongerDst);
    PermutationKeepsMembers(ds, ms);
    var l := LongestTargetExists(path, ds, k);
    var p := HasDst(l.dst);
    SortedIsStable(ms, LongerDst, p);
    FilteredKeeps(ds, p);
    assert l in Filtered(ds, p);
    t := Filtered(ds, p)[0];
    assert t in Filtered(ds, p);
    LongestTargetWins(path, ds, t);
  }

  lemma {:induction false} LongestTargetExists(path: string, ms: seq<Mapping>, k: Mapping) returns (m: Mapping)
    requires k in ms && Covers(k.dst, path)
    ensures LongestTarget(path, ms, m)
    decreases |path| - |k.dst|
  {
    if j :| j in ms && Covers(j.dst, path) && |j.dst| > |k.dst| {
      m := LongestTargetExists(path, ms, j);
    } else {
      m := k;
    }
  }

  lemma TargetCovers(path: string, m: Mapping)
    requires Covers(m.src, path)
    ensures Covers(m.dst, m.dst + path[|m.src|..])
    ensures (m.dst + path[|m.src|..])[|m.dst|..] == path[|m.src|..]
    ensures m.src + path[|m.src|..] == path
  {
    if path != m.src {
      assert path[..|m.src| + 1] == m.src + "/";
      assert path[|m.src|..][0] == '/';
      assert m.dst + "/" == (m.dst + path[|m.src|..])[..|m.dst| + 1];
    }
  }

  /** Mapping a covered path there and back gives the path exactly when no longer target lies
      on the way back and no earlier entry sends another source to the same target. */
  lemma InverseExactly(path: string, ms: seq<Mapping>, m: Mapping)
    requires Ordered(ms, LongerSrc) && Applied(path, ms, m)
    ensures Filtered(ms, HasDst(m.dst)) != []
    ensures RemapInverse(Remap(path, ms), ms) == path <==>
            && (forall k :: k in ms && Covers(k.dst, Remap(path, ms)) ==> |k.dst| <= |m.dst|)
            && Filtered(ms, HasDst(m.dst))[0].src == m.src
  {
    LongestWins(path, ms, m);
    TargetCovers(path, m);
    FilteredKeeps(ms, HasDst(m.dst));
    assert m in Filtered(ms, HasDst(m.dst));
    var there, rest := Remap(path, ms), path[|m.src|..];
    var t := InverseGoesThrough(there, ms, m);
    if |t.dst| > |m.dst| {
      LongerTargetMisses(path, ms, m, t);
    } else {
      CoversCompare(t.dst, m.dst, there);
      assert RemapInverse(there, ms) == t.src + rest;
      if t.src + rest == m.src + rest { assert t.src == (t.src + rest)[..|path| - |rest|]; }
    }
  }

  /** A path that no source covers comes back exactly when no target covers it either. */
  lemma UncoveredInverseExactly(path: string, ms: seq<Mapping>)
    requires forall k :: k in ms ==> !Covers(k.src, path)
    ensures RemapInverse(Remap(path, ms), ms) == path <==> forall k :: k in ms ==> !Covers(k.dst, path)
  {
    UncoveredUnchanged(path, ms);
    if k :| k in ms && Covers(k.dst, path) {
      var t := InverseGoesThrough(path, ms, k);
      TargetCovers(path, Mapping(t.dst, t.src));
    } else {
      var ds := Sorted(ms, LongerDst);
      SortedSorts(ms, LongerDst);
      PermutationKeepsMembers(ds, ms);
      NoTargetUnchanged(path, ds);
    }
  }

  lemma {:induction false} NoTargetUnchanged(path: string, ms: seq<Mapping>)
    requires forall k :: k in ms ==> !Covers(k.dst, path)
    ensures FirstByDst(path, ms) == path
    decreases |ms|
  {
    if ms != [] { NoTargetUnchanged(path, ms[1..]); }
  }

  /** Coming back through a longer target ends somewhere else: its source would have been a
      longer match on the way out. */
  lemma LongerTargetMisses(path: string, ms: seq<Mapping>, m: Mapping, t: Mapping)
    requires Longest(path, ms, m) && t in ms
    requires var there := m.dst + path[|m.src|..]; Covers(t.dst, there) && |t.dst| > |m.dst|
    ensures t.src + (m.dst + path[|m.src|..])[|t.dst|..] != path
  {
    TargetCovers(m.dst + path[|m.src|..], Mapping(t.dst, t.src));
  }

  /** If no target covers another, going there and back is the identity on covered paths. */
  lemma InverseOfUnnested(path: string, ms: seq<Mapping>, m: Mapping)
    requires Ordered(ms, LongerSrc) && Applied(path, ms, m)
    requires forall j, k :: j in ms && k in ms && j != k ==> !Covers(j.dst, k.dst)
    ensures RemapInverse(Remap(path, ms), ms) == path
  {
    LongestWins(path, ms, m);
    TargetCovers(path, m);
    var there := Remap(path, ms);
    forall k | k in ms && Covers(k.dst, there) ensures |k.dst| <= |m.dst| {
      if |k.dst| > |m.dst| { CoversCompare(m.dst, k.dst, there); }
    }
    InverseExactly(path, ms, m);
    FilteredKeeps(ms, HasDst(m.dst));
    assert Filtered(ms, HasDst(m.dst))[0] in Filtered(ms, HasDst(m.dst));
  }

  /** Nested targets can break the round trip. */
  lemma NestedTargetsCanFail(ms: seq<Mapping>)
    requires ms == [Mapping("/a", "/x"), Mapping("/b", "/x/y")]
    ensures Remap("/a/y", ms) == "/x/y"
    ensures RemapInverse("/x/y", ms) == "/b"
  {
    hide Sorted, FirstByDst;
    assert "/a" + "/" == "/a/y"[..3];
    var t := InverseGoesThrough("/x/y", ms, ms[1]);
    assert ms[1] in ms;
  }

  /** So can a shared one: both sources lead to it, and back goes only to the first. */
  lemma SharedTargetCanFail(ms: seq<Mapping>)
    requires ms == [Mapping("/data/movies", "/m"), Mapping("/data/tv", "/m")]
    ensures Ordered(ms, LongerSrc)
    ensures Remap("/data/tv/x", ms) == "/m/x"
    ensures RemapInverse("/m/x", ms) == "/data/movies/x"
  {
    hide Sorted, FirstByDst;
    assert "/data/tv" + "/" == "/data/tv/x"[..9] && "/data/movies"[7] != "/data/tv/x"[7];
    assert "/m" + "/" == "/m/x"[..3];
    var t := InverseGoesThrough("/m/x", ms, ms[0]);
    FilteredHead(ms, HasDst("/m"));
  }
}
