/**
 Fail-closed path anchoring: recognized roots become symbolic anchors, longest
 root first, and every remaining absolute path is dropped to `<path>`.
 */
module Paths {
  import opened Text
  import opened Marking
  import opened Replacing
  import opened Utf8
  import opened Bytes

  const HOME_ANCHOR := "<home>"
  const TMP_ANCHOR := "<tmp>"
  const CACHE_ANCHOR := "<cache>"
  const PATH_DROP := "<path>"

  // ----- dropping absolute paths

  /** What may stand right before an absolute path. */
  predicate OpensPath(prev: Option<char>) {
    match prev
    case None => true
    case Some(c) =>
      || c == ' ' || c == '\t' || c == '\"' || c == '\''
      || c == '(' || c == '=' || c == ':' || c == ','
  }

  /** The length of the marker that starts an absolute path at the head of `s`, or 0. */
  function StartLength(prev: Option<char>, s: string): (n: nat)
    ensures n <= |s|
  {
    if s == "" then 0
    else if s[0] == '/' then
      if OpensPath(prev) && |s| > 1 && PathBody.Has(s[1]) then 1 else 0
    else if |s| > 1 && s[0] == '\\' && s[1] == '\\' then 2
    else if |s| > 2 && IsAlpha(s[0]) && s[1] == ':' && IsSeparator(s[2]) then
      if OpensPath(prev) then 3 else 0
    else 0
  }

  /** The length of the absolute-path run at the head of `s`, or 0 if there is none. */
  function RunLength(prev: Option<char>, s: string): (n: nat)
    ensures n <= |s|
    ensures n > 0 <==> StartLength(prev, s) > 0
    ensures 0 < n < |s| ==> !PathBody.Has(s[n])
  {
    var start := StartLength(prev, s);
    if start == 0 then 0
    else
      var j := LeadFrom(s, PathBody, start);
      if j > start || start > 1 then j else 0
  }

  function Drop(prev: Option<char>, s: string): string
    decreases |s|
  {
    if s == "" then ""
    else
      var n := RunLength(prev, s);
      if n > 0 then PATH_DROP + Drop(Some(s[n - 1]), s[n..])
      else [s[0]] + Drop(Some(s[0]), s[1..])
  }

  function DropPaths(s: string): string {
    Drop(None, s)
  }

  /** Dropping replaces runs by the marker and keeps everything else in order. */
  lemma {:induction false} DropRewrites(prev: Option<char>, s: string)
    ensures Rewrites(s, Drop(prev, s))
    decreases |s|
  {
    hide RunLength, StartLength;
    if s == "" {
      RewriteNothing();
    } else {
      var n := RunLength(prev, s);
      if n > 0 {
        var run, rest := s[..n], s[n..];
        DropRewrites(Some(s[n - 1]), rest);
        RewriteMark(run, PATH_DROP, rest, Drop(Some(s[n - 1]), rest));
        assert s == run + rest;
      } else {
        DropRewrites(Some(s[0]), s[1..]);
        RewriteKeep(s[0], s[1..], Drop(Some(s[0]), s[1..]));
        assert s == [s[0]] + s[1..];
      }
    }
  }

  // ----- one pass reaches a fixpoint

  function PrevAt(prev: Option<char>, s: string, k: nat): Option<char>
    requires k <= |s|
  {
    if k == 0 then prev else Some(s[k - 1])
  }

  /** No absolute path starts at any position of `s`. */
  ghost predicate NoRuns(prev: Option<char>, s: string) {
    forall k :: 0 <= k < |s| ==> RunLength(PrevAt(prev, s, k), s[k..]) == 0
  }

  /** The head of the output is the head of the input, or the marker of a run that started there. */
  lemma {:induction false} DropHead(prev: Option<char>, s: string)
    requires s != ""
    ensures Drop(prev, s) != ""
    ensures Drop(prev, s)[0] == s[0] || (Drop(prev, s)[0] == '<' && PathBody.Has(s[0]))
  {
    hide RunLength;
  }

  /** Inside the marker no path starts. */
  lemma {:induction false} MarkerHasNoRun(shown: Option<char>, rest: string, k: nat)
    requires k < |PATH_DROP|
    ensures var t := PATH_DROP + rest; RunLength(PrevAt(shown, t, k), t[k..]) == 0
  {
    var t := PATH_DROP + rest;
    assert t[k] == PATH_DROP[k];
    assert k + 1 < |PATH_DROP| ==> t[k + 1] == PATH_DROP[k + 1];
  }

  /** A character kept by the pass starts no path in the output either. */
  lemma {:induction false} KeptHasNoRun(prev: Option<char>, shown: Option<char>, s: string)
    requires s != "" && RunLength(prev, s) == 0
    requires shown == prev || !PathBody.Has(s[0])
    ensures RunLength(shown, Drop(prev, s)) == 0
  {
    hide RunLength;
    var t := Drop(prev, s);
    assert t == [s[0]] + Drop(Some(s[0]), s[1..]);
    if |s| > 1 {
      DropHead(Some(s[0]), s[1..]);
      assert t[1] == s[1] || (t[1] == '<' && PathBody.Has(s[1]));
      if |s| > 2 && t[1] == ':' {
        assert t[1..] == [s[1]] + Drop(Some(s[1]), s[1..][1..]);
        DropHead(Some(s[1]), s[1..][1..]);
        assert t[2] == s[2] || t[2] == '<';
      }
    }
  }

  lemma {:induction false} DropCleanAt(prev: Option<char>, shown: Option<char>, s: string, k: nat)
    requires shown == prev || s == "" || !PathBody.Has(s[0])
    requires k < |Drop(prev, s)|
    ensures var t := Drop(prev, s); RunLength(PrevAt(shown, t, k), t[k..]) == 0
    decreases |s|
  {
    hide RunLength, StartLength;
    var t, n := Drop(prev, s), RunLength(prev, s);
    if n > 0 {
      var rest := Drop(Some(s[n - 1]), s[n..]);
      if k < |PATH_DROP| {
        MarkerHasNoRun(shown, rest, k);
      } else {
        var j := k - |PATH_DROP|;
        assert t[k..] == rest[j..];
        assert PrevAt(shown, t, k) == PrevAt(Some('>'), rest, j);
        DropCleanAt(Some(s[n - 1]), Some('>'), s[n..], j);
      }
    } else if k == 0 {
      KeptHasNoRun(prev, shown, s);
      assert t[0..] == t;
    } else {
      var rest := Drop(Some(s[0]), s[1..]);
      assert t[k..] == rest[k - 1..];
      assert PrevAt(shown, t, k) == PrevAt(Some(s[0]), rest, k - 1);
      DropCleanAt(Some(s[0]), Some(s[0]), s[1..], k - 1);
    }
  }

  /** After one pass no absolute path starts anywhere in the output. */
  lemma {:induction false} DropPathsClean(s: string)
    ensures NoRuns(None, DropPaths(s))
  {
    forall k | 0 <= k < |DropPaths(s)|
      ensures RunLength(PrevAt(None, DropPaths(s), k), DropPaths(s)[k..]) == 0
    {
      DropCleanAt(None, None, s, k);
    }
  }

  lemma {:induction false} DropIdle(prev: Option<char>, s: string)
    requires NoRuns(prev, s)
    ensures Drop(prev, s) == s
    decreases |s|
  {
    if s != "" {
      assert RunLength(PrevAt(prev, s, 0), s[0..]) == 0 && s[0..] == s;
      var t := s[1..];
      forall k | 0 <= k < |t| ensures RunLength(PrevAt(Some(s[0]), t, k), t[k..]) == 0 {
        assert t[k..] == s[k + 1..];
        assert PrevAt(Some(s[0]), t, k) == PrevAt(prev, s, k + 1);
      }
      DropIdle(Some(s[0]), t);
    }
  }

  /** One pass is enough, and exactly the texts without absolute paths are left alone. */
  lemma {:induction false} DropPathsIdempotent(s: string)
    ensures DropPaths(DropPaths(s)) == DropPaths(s)
    ensures DropPaths(s) == s <==> NoRuns(None, s)
  {
    DropPathsClean(s);
    DropIdle(None, DropPaths(s));
    if NoRuns(None, s) {
      DropIdle(None, s);
    }
  }

  // ----- the same in characters

  /** What may stand right before a path, and what ends one. */
  const OPENERS: set<char> := {' ', '\t', '"', '\'', '(', '=', ':', ','}
  const ENDERS: set<char> := {' ', '\t', '\n', '\r', '"', '\'', '(', ')', '[', ']', '{', '}', ',', ';'}

  /** Position `k` is the first, or stands behind an opener. */
  predicate Opened(s: string, k: nat)
    requires k <= |s|
  {
    k == 0 || s[k - 1] in OPENERS
  }

  /** An absolute path starts at `k`: an opened slash with more of the path behind it, a double backslash, or an opened drive. */
  predicate PathAt(s: string, k: nat) {
    && k + 1 < |s|
    && (|| (s[k] == '/' && Opened(s, k) && s[k + 1] !in ENDERS)
        || (s[k] == '\\' && s[k + 1] == '\\')
        || (('a' <= s[k] <= 'z' || 'A' <= s[k] <= 'Z') && Opened(s, k)
            && k + 2 < |s| && s[k + 1] == ':' && (s[k + 2] == '/' || s[k + 2] == '\\')))
  }

  lemma {:induction false} OpenersAre(c: char)
    ensures OpensPath(Some(c)) <==> c in OPENERS
  {
  }

  lemma {:induction false} EndersAre(c: char)
    ensures PathBody.Has(c) <==> c !in ENDERS
  {
  }

  lemma {:induction false} FirstOpens()
    ensures OpensPath(None)
  {
  }

  lemma {:induction false} RunStarts(prev: Option<char>, s: string)
    ensures RunLength(prev, s) > 0 <==> StartLength(prev, s) > 0
  {
  }

  lemma {:induction false} PathAtIs(s: string, k: nat)
    requires k < |s|
    ensures PathAt(s, k) <==> RunLength(PrevAt(None, s, k), s[k..]) > 0
  {
    hide RunLength, EndsPath, OpensPath;
    var t := s[k..];
    RunStarts(PrevAt(None, s, k), t);
    assert t[0] == s[k] && (|t| > 1 ==> t[1] == s[k + 1]) && (|t| > 2 ==> t[2] == s[k + 2]);
    if k > 0 {
      OpenersAre(s[k - 1]);
    } else {
      FirstOpens();
    }
    if |t| > 1 {
      EndersAre(s[k + 1]);
    }
  }

  /** No absolute path is left: no opened slash in front of a path character, no double backslash, no opened drive. */
  lemma {:induction false} NoPathLeft(s: string)
    ensures forall k :: !PathAt(DropPaths(s), k)
  {
    var t := DropPaths(s);
    DropPathsClean(s);
    hide DropPaths, RunLength;
    forall k: nat ensures !PathAt(t, k) {
      if k < |t| {
        PathAtIs(t, k);
      }
    }
  }

  /** Text is left alone exactly when no absolute path starts in it. */
  lemma {:induction false} UntouchedIffNoPath(s: string)
    ensures DropPaths(s) == s <==> forall k: nat :: !PathAt(s, k)
  {
    DropPathsIdempotent(s);
    hide DropPaths, RunLength, PathAt;
    if DropPaths(s) == s {
      forall k: nat ensures !PathAt(s, k) {
        if k < |s| {
          PathAtIs(s, k);
        } else {
          PastEnd(s, k);
        }
      }
    }
    if forall k: nat :: !PathAt(s, k) {
      forall k | 0 <= k < |s| ensures RunLength(PrevAt(None, s, k), s[k..]) == 0 {
        PathAtIs(s, k);
      }
    }
  }

  lemma {:induction false} PastEnd(s: string, k: nat)
    requires k >= |s|
    ensures !PathAt(s, k)
  {
  }

  /** What stands before the first path is kept. */
  lemma {:induction false} DropKeeps(prev: Option<char>, a: string, b: string)
    requires forall k: nat :: k < |a| ==> RunLength(PrevAt(prev, a + b, k), (a + b)[k..]) == 0
    ensures Drop(prev, a + b) == a + Drop(PrevAt(prev, a, |a|), b)
    decreases |a|
  {
    hide RunLength, Drop;
    if a == "" {
      assert a + b == b && "" + Drop(prev, b) == Drop(prev, b);
    } else {
      assert RunLength(PrevAt(prev, a + b, 0), (a + b)[0..]) == 0;
      KeptHead(prev, a, b);
      forall k: nat | k < |a[1..]| ensures RunLength(PrevAt(Some(a[0]), a[1..] + b, k), (a[1..] + b)[k..]) == 0 {
        TailAlike(prev, a, b, k);
      }
      DropKeeps(Some(a[0]), a[1..], b);
      BehindHead(a, Drop(PrevAt(prev, a, |a|), b));
    }
  }

  lemma {:induction false} KeptHead(prev: Option<char>, a: string, b: string)
    requires a != "" && RunLength(PrevAt(prev, a + b, 0), (a + b)[0..]) == 0
    ensures Drop(prev, a + b) == [a[0]] + Drop(Some(a[0]), a[1..] + b)
  {
    hide RunLength;
    var s := a + b;
    assert s[0..] == s && s[1..] == a[1..] + b;
  }

  lemma {:induction false} TailAlike(prev: Option<char>, a: string, b: string, k: nat)
    requires a != "" && k < |a[1..]|
    ensures (a[1..] + b)[k..] == (a + b)[k + 1..]
    ensures PrevAt(Some(a[0]), a[1..] + b, k) == PrevAt(prev, a + b, k + 1)
  {
  }

  lemma {:induction false} BehindHead(a: string, x: string)
    requires a != ""
    ensures [a[0]] + (a[1..] + x) == a + x
  {
  }

  /** A path goes whole: from where it starts up to the first character that ends it. */
  lemma {:induction false} PathGoesWhole(a: string, path: string, b: string)
    requires path != "" && PathAt(a + path + b, |a|)
    requires forall k: nat :: k < |a| ==> !PathAt(a + path + b, k)
    requires forall i :: 0 <= i < |path| ==> path[i] !in ENDERS
    requires b != "" ==> b[0] in ENDERS
    ensures DropPaths(a + path + b) == a + "<path>" + DropPaths(b)
  {
    hide RunLength, PathAt, EndsPath, Drop;
    var s := a + (path + b);
    assert a + path + b == s;
    forall k: nat | k < |a| ensures RunLength(PrevAt(None, s, k), s[k..]) == 0 {
      PathAtIs(s, k);
    }
    DropKeeps(None, a, path + b);
    PathAtIs(s, |a|);
    AtTheSeam(a, path + b);
    DropRun(PrevAt(None, a, |a|), path, b);
    AfreshBehind(Some(path[|path| - 1]), b);
    assert a + (PATH_DROP + DropPaths(b)) == a + "<path>" + DropPaths(b);
  }

  /** No path starts with an ender, so behind a path the pass starts afresh. */
  lemma {:induction false} AfreshBehind(prev: Option<char>, b: string)
    requires b != "" ==> b[0] in ENDERS
    ensures Drop(prev, b) == DropPaths(b)
  {
    if b != "" {
      DropTurn(prev, b);
      DropTurn(None, b);
      NoStartAtEnder(prev, b);
      NoStartAtEnder(None, b);
    }
  }

  lemma {:induction false} NoStartAtEnder(prev: Option<char>, b: string)
    requires b != "" && b[0] in ENDERS
    ensures RunLength(prev, b) == 0
  {
  }

  lemma {:induction false} AtTheSeam(a: string, x: string)
    ensures (a + x)[|a|..] == x && PrevAt(None, a + x, |a|) == PrevAt(None, a, |a|)
  {
  }

  lemma {:induction false} DropRun(prev: Option<char>, path: string, b: string)
    requires path != "" && RunLength(prev, path + b) > 0
    requires forall i :: 0 <= i < |path| ==> path[i] !in ENDERS
    requires b != "" ==> b[0] in ENDERS
    ensures Drop(prev, path + b) == PATH_DROP + Drop(Some(path[|path| - 1]), b)
  {
    hide RunLength, Drop;
    RunIs(prev, path, b);
    DropTurn(prev, path + b);
    assert (path + b)[|path|..] == b && (path + b)[|path| - 1] == path[|path| - 1];
  }

  /** A run reaches up to the first character that ends it. */
  lemma {:induction false} RunIs(prev: Option<char>, path: string, b: string)
    requires path != "" && RunLength(prev, path + b) > 0
    requires forall i :: 0 <= i < |path| ==> path[i] !in ENDERS
    requires b != "" ==> b[0] in ENDERS
    ensures RunLength(prev, path + b) == |path|
  {
    var s, start := path + b, StartLength(prev, path + b);
    forall i | 0 <= i < |path| ensures PathBody.Has(s[i]) {
      EndersAre(path[i]);
    }
    if b != "" {
      EndersAre(b[0]);
    }
    hide EndsPath;
    if start > |path| {
      StartWithin(prev, path, b);
    }
    LeadIs(s, PathBody, start, |path|);
  }

  /** A start has no ender in it. */
  lemma {:induction false} StartWithin(prev: Option<char>, path: string, b: string)
    requires path != "" && b != "" ==> !PathBody.Has(b[0])
    requires path != ""
    ensures StartLength(prev, path + b) <= |path|
  {
    var s := path + b;
    if b != "" {
      assert s[|path|] == b[0];
    }
  }

  // ----- recognized roots

  datatype Root = Root(prefix: string, anchor: string)

  predicate IsAnchor(a: string) { a == HOME_ANCHOR || a == TMP_ANCHOR || a == CACHE_ANCHOR }

  /** Every `\\` becomes `/`. */
  function ForwardSlashes(s: string): (r: string)
    ensures |r| == |s|
    ensures forall i :: 0 <= i < |s| ==> r[i] == if s[i] == '\\' then '/' else s[i]
  {
    seq(|s|, i requires 0 <= i < |s| => if s[i] == '\\' then '/' else s[i])
  }

  predicate IsRoot(r: Root) { r.prefix != "" && IsAnchor(r.anchor) }

  predicate Anchoring(rs: seq<Root>) {
    forall i :: 0 <= i < |rs| ==> IsRoot(rs[i])
  }

  lemma {:induction false} FirstRoot(rs: seq<Root>)
    requires Anchoring(rs) && rs != []
    ensures rs[0].prefix != "" && IsMarker(rs[0].anchor) && Anchoring(rs[1..])
  {
    assert IsRoot(rs[0]);
  }

  /** What one directory registers: itself trimmed, and its forward-slash form when that differs. */
  function Register(dir: Option<string>, anchor: string): (rs: seq<Root>)
    requires IsAnchor(anchor)
    ensures Anchoring(rs)
  {
    if dir.None? || Trim(dir.value) == "" then []
    else
      var p := Trim(dir.value);
      var alt := ForwardSlashes(p);
      if alt != p then [Root(p, anchor), Root(alt, anchor)] else [Root(p, anchor)]
  }

  predicate LongestFirst(rs: seq<Root>) {
    forall i, j :: 0 <= i < j < |rs| ==> ByteLen(rs[i].prefix) >= ByteLen(rs[j].prefix)
  }

  /** Where a new root goes: behind every root that is at least as long. */
  function Place(rs: seq<Root>, r: Root): (n: nat)
    requires LongestFirst(rs)
    ensures n <= |rs|
    ensures forall i :: 0 <= i < n ==> ByteLen(rs[i].prefix) >= ByteLen(r.prefix)
    ensures forall i :: n <= i < |rs| ==> ByteLen(rs[i].prefix) < ByteLen(r.prefix)
  {
    if rs == [] || ByteLen(rs[|rs| - 1].prefix) >= ByteLen(r.prefix) then |rs|
    else Place(rs[..|rs| - 1], r)
  }

  function Insert(rs: seq<Root>, r: Root): (out: seq<Root>)
    requires LongestFirst(rs)
    ensures LongestFirst(out)
    ensures Anchoring(rs) && IsRoot(r) ==> Anchoring(out)
  {
    var n := Place(rs, r);
    rs[..n] + [r] + rs[n..]
  }

  /** `sort_by_key(|r| Reverse(r.0.len()))`, which is stable. */
  function SortLongestFirst(rs: seq<Root>): (out: seq<Root>)
    ensures LongestFirst(out)
    ensures Anchoring(rs) ==> Anchoring(out)
  {
    if rs == [] then []
    else Insert(SortLongestFirst(rs[..|rs| - 1]), rs[|rs| - 1])
  }

  lemma {:induction false} InsertKeeps(rs: seq<Root>, r: Root)
    requires LongestFirst(rs)
    ensures multiset(Insert(rs, r)) == multiset(rs) + multiset{r}
  {
    hide LongestFirst, Anchoring;
    var n := Place(rs, r);
    assert rs == rs[..n] + rs[n..];
  }

  lemma {:induction false} SortNone()
    ensures SortLongestFirst([]) == []
  {
  }

  lemma {:induction false} SortTurn(rs: seq<Root>)
    requires rs != []
    ensures SortLongestFirst(rs) == Insert(SortLongestFirst(rs[..|rs| - 1]), rs[|rs| - 1])
  {
    hide LongestFirst, Anchoring, Insert;
  }

  /** Sorting loses no root and invents none. */
  lemma {:induction false} SortKeeps(rs: seq<Root>)
    ensures multiset(SortLongestFirst(rs)) == multiset(rs)
  {
    hide *;
    if rs == [] {
      SortNone();
    } else {
      var front, last := rs[..|rs| - 1], rs[|rs| - 1];
      SortKeeps(front);
      SortTurn(rs);
      InsertKeeps(SortLongestFirst(front), last);
      assert rs == front + [last];
    }
  }

  /** `PathRoots::new`. */
  function PathRoots(home: Option<string>, tmp: Option<string>, cache: Option<string>, config: Option<string>): (rs: seq<Root>)
    ensures LongestFirst(rs) && Anchoring(rs)
  {
    SortLongestFirst(Register(cache, CACHE_ANCHOR) + Register(config, CACHE_ANCHOR)
                     + Register(tmp, TMP_ANCHOR) + Register(home, HOME_ANCHOR))
  }

  /** The root comes from the directory: the directory trimmed, or its forward-slash form. */
  predicate ComesFrom(r: Root, dir: Option<string>, anchor: string) {
    && dir.Some? && Trim(dir.value) != "" && r.anchor == anchor
    && (r.prefix == Trim(dir.value) || r.prefix == ForwardSlashes(Trim(dir.value)))
  }

  lemma {:induction false} RegisterIs(dir: Option<string>, anchor: string, r: Root)
    requires IsAnchor(anchor)
    ensures r in Register(dir, anchor) <==> ComesFrom(r, dir, anchor)
  {
    hide Trim, ForwardSlashes;
  }

  /** Which roots are recognized, and by what they are replaced. */
  lemma {:induction false} RootsAre(home: Option<string>, tmp: Option<string>, cache: Option<string>, config: Option<string>, r: Root)
    ensures r in PathRoots(home, tmp, cache, config)
            <==> || ComesFrom(r, home, "<home>") || ComesFrom(r, tmp, "<tmp>")
                 || ComesFrom(r, cache, "<cache>") || ComesFrom(r, config, "<cache>")
  {
    hide Register, ComesFrom, SortLongestFirst, LongestFirst, Anchoring;
    RegisterIs(home, HOME_ANCHOR, r);
    RegisterIs(tmp, TMP_ANCHOR, r);
    RegisterIs(cache, CACHE_ANCHOR, r);
    RegisterIs(config, CACHE_ANCHOR, r);
    var all := Register(cache, CACHE_ANCHOR) + Register(config, CACHE_ANCHOR)
               + Register(tmp, TMP_ANCHOR) + Register(home, HOME_ANCHOR);
    SortKeeps(all);
    assert r in PathRoots(home, tmp, cache, config) <==> r in multiset(all);
  }

  /** A root nested under another one is tried before it. */
  lemma {:induction false} NestedRootFirst(rs: seq<Root>, i: nat, j: nat)
    requires LongestFirst(rs) && i < |rs| && j < |rs|
    requires rs[j].prefix < rs[i].prefix
    ensures i < j
  {
    var outer, inner := rs[j].prefix, rs[i].prefix;
    EncodeSplit(inner, |outer|);
    assert inner[..|outer|] == outer;
    assert |EncodeChar(inner[|outer|..][0])| > 0;
  }

  // ----- anchoring

  /** Pass 1: each root in turn, wherever it occurs. */
  function AnchorRoots(s: string, rs: seq<Root>): string
    requires forall i :: 0 <= i < |rs| ==> rs[i].prefix != ""
    decreases |rs|
  {
    if rs == [] then s
    else AnchorRoots(Replace(s, rs[0].prefix, rs[0].anchor), rs[1..])
  }

  function AnchorPaths(s: string, rs: seq<Root>): string
    requires forall i :: 0 <= i < |rs| ==> rs[i].prefix != ""
  {
    DropPaths(AnchorRoots(s, rs))
  }

  method AnchorPathsLoop(input: string, rs: seq<Root>) returns (out: string)
    requires forall i :: 0 <= i < |rs| ==> rs[i].prefix != ""
    ensures out == AnchorPaths(input, rs)
  {
    var s := input;
    for i := 0 to |rs|
      invariant AnchorRoots(s, rs[i..]) == AnchorRoots(input, rs)
    {
      assert rs[i..][0] == rs[i] && rs[i..][1..] == rs[i + 1..];
      if Contains(s, rs[i].prefix) {
        s := Replace(s, rs[i].prefix, rs[i].anchor);
      } else {
        ReplaceIdle(s, rs[i].prefix, rs[i].anchor);
      }
    }
    out := DropPaths(s);
  }

  /** Anchoring creates no occurrence of foreign text. */
  lemma {:induction false} AnchorRootsOccurs(s: string, rs: seq<Root>, p: string)
    requires Anchoring(rs)
    requires IsForeign(p) && Occurs(p, AnchorRoots(s, rs))
    ensures Occurs(p, s)
    decreases |rs|
  {
    hide Replace, Rewrites, IsForeign, Occurs;
    if rs != [] {
      FirstRoot(rs);
      var t := Replace(s, rs[0].prefix, rs[0].anchor);
      AnchorRootsOccurs(t, rs[1..], p);
      ReplaceRewrites(s, rs[0].prefix, rs[0].anchor);
      RewriteOccurs(s, t, p);
    }
  }

  lemma {:induction false} AnchorPathsOccurs(s: string, rs: seq<Root>, p: string)
    requires Anchoring(rs)
    requires IsForeign(p) && Occurs(p, AnchorPaths(s, rs))
    ensures Occurs(p, s)
  {
    DropRewrites(None, AnchorRoots(s, rs));
    RewriteOccurs(AnchorRoots(s, rs), AnchorPaths(s, rs), p);
    AnchorRootsOccurs(s, rs, p);
  }

  lemma {:induction false} AnchorPathsNewline(s: string, rs: seq<Root>)
    requires Anchoring(rs)
    requires '\n' in AnchorRoots(s, rs)
    ensures '\n' in s
    decreases |rs|
  {
    if rs != [] {
      var t := Replace(s, rs[0].prefix, rs[0].anchor);
      AnchorPathsNewline(t, rs[1..]);
      ReplaceRewrites(s, rs[0].prefix, rs[0].anchor);
      RewriteNewline(s, t);
    }
  }

  /** No recognized root that is foreign text is left after anchoring, whatever their order and the other roots. */
  lemma {:induction false} AnchorRootsRemoves(s: string, rs: seq<Root>, i: nat)
    requires Anchoring(rs) && i < |rs| && IsForeign(rs[i].prefix)
    ensures !Occurs(rs[i].prefix, AnchorRoots(s, rs))
    decreases |rs|
  {
    FirstRoot(rs);
    var t := Replace(s, rs[0].prefix, rs[0].anchor);
    if i == 0 {
      ReplaceRemoves(s, rs[0].prefix, rs[0].anchor);
      if Occurs(rs[0].prefix, AnchorRoots(s, rs)) {
        AnchorRootsOccurs(t, rs[1..], rs[0].prefix);
      }
    } else {
      AnchorRootsRemoves(t, rs[1..], i - 1);
    }
  }

  // ----- the byte cursor

  predicate IsPathByte(b: Byte) {
    b >= 0x80 || PathBody.Has(b as char)
  }

  predicate OpensPathByte(b: Byte) {
    b < 0x80 && OpensPath(Some(b as char))
  }

  /** The start marker as the bytes show it. */
  function StartLengthBytes(bs: seq<Byte>, i: nat): (n: nat)
    requires i < |bs|
    ensures i + n <= |bs|
  {
    var prevOk := i == 0 || OpensPathByte(bs[i - 1]);
    if bs[i] == '/' as int then
      if prevOk && i + 1 < |bs| && IsPathByte(bs[i + 1]) then 1 else 0
    else if i + 1 < |bs| && bs[i] == '\\' as int && bs[i + 1] == '\\' as int then 2
    else if i + 2 < |bs| && bs[i] < 0x80 && IsAlpha(bs[i] as char) && bs[i + 1] == ':' as int
         && (bs[i + 2] == '\\' as int || bs[i + 2] == '/' as int) then
      if prevOk then 3 else 0
    else 0
  }

  /** What the byte at a boundary tells about the character there. */
  ghost predicate Shows(bs: seq<Byte>, i: nat, s: string, k: nat) {
    && (i < |bs| <==> k < |s|)
    && (k < |s| ==> if IsAscii(s[k]) then bs[i] == s[k] as int else bs[i] >= 0x80)
  }

  lemma {:induction false} BoundaryShows(bs: seq<Byte>, s: string, i: nat, k: nat)
    requires Cursor(bs, s, i, k)
    ensures Shows(bs, i, s, k)
  {
    CursorTail(bs, s, i, k);
    if k < |s| {
      ByteAt(bs, s, i, k);
    }
  }

  lemma {:induction false} PrevShows(bs: seq<Byte>, s: string, i: nat, k: nat)
    requires Cursor(bs, s, i, k)
    ensures i <= |bs| && (i == 0 || OpensPathByte(bs[i - 1]) <==> OpensPath(PrevAt(None, s, k)))
  {
    CursorTail(bs, s, i, k);
    if k > 0 {
      ByteBefore(bs, s, i, k);
    }
  }

  /** Three boundaries are enough to read the start marker. */
  lemma {:induction false} StartShown(bs: seq<Byte>, s: string, i: nat, k: nat)
    requires k < |s| && i < |bs| && Shows(bs, i, s, k)
    requires i == 0 || OpensPathByte(bs[i - 1]) <==> OpensPath(PrevAt(None, s, k))
    requires IsAscii(s[k]) ==> Shows(bs, i + 1, s, k + 1)
    requires IsAscii(s[k]) && k + 1 < |s| && IsAscii(s[k + 1]) ==> Shows(bs, i + 2, s, k + 2)
    ensures StartLengthBytes(bs, i) == StartLength(PrevAt(None, s, k), s[k..])
    ensures var n := StartLengthBytes(bs, i); k + n <= |s| && forall j :: k <= j < k + n ==> IsAscii(s[j])
  {
    var t := s[k..];
    assert t[0] == s[k];
    assert k + 1 < |s| ==> t[1] == s[k + 1];
    assert k + 2 < |s| ==> t[2] == s[k + 2];
  }

  /** Both views of the start marker agree, and the marker itself is ASCII. */
  lemma {:induction false} StartBoth(bs: seq<Byte>, s: string, i: nat, k: nat)
    requires Cursor(bs, s, i, k) && k < |s|
    ensures i < |bs|
    ensures StartLengthBytes(bs, i) == StartLength(PrevAt(None, s, k), s[k..])
    ensures Cursor(bs, s, i + StartLengthBytes(bs, i), k + StartLengthBytes(bs, i))
  {
    hide StartLength, StartLengthBytes, OpensPath, OpensPathByte, Encode;
    BoundaryShows(bs, s, i, k);
    PrevShows(bs, s, i, k);
    if IsAscii(s[k]) {
      AsciiStep(bs, s, i, k);
      BoundaryShows(bs, s, i + 1, k + 1);
      if k + 1 < |s| && IsAscii(s[k + 1]) {
        AsciiStep(bs, s, i + 1, k + 1);
        BoundaryShows(bs, s, i + 2, k + 2);
      }
    }
    StartShown(bs, s, i, k);
    AsciiRun(bs, s, i, k, StartLengthBytes(bs, i));
  }

  lemma {:induction false} AsciiRun(bs: seq<Byte>, s: string, i: nat, k: nat, n: nat)
    requires Cursor(bs, s, i, k) && k + n <= |s| && forall j :: k <= j < k + n ==> IsAscii(s[j])
    ensures Cursor(bs, s, i + n, k + n)
    decreases n
  {
    if n > 0 {
      AsciiStep(bs, s, i, k);
      AsciiRun(bs, s, i + 1, k + 1, n - 1);
    }
  }

  lemma {:induction false} AsciiStep(bs: seq<Byte>, s: string, i: nat, k: nat)
    requires Cursor(bs, s, i, k) && k < |s| && IsAscii(s[k])
    ensures Cursor(bs, s, i + 1, k + 1) && i < |bs| && bs[i] == s[k] as int
    ensures i + 1 < |bs| <==> k + 1 < |s|
  {
    ByteAt(bs, s, i, k);
    CursorStep(bs, s, i, k);
    CursorTail(bs, s, i + 1, k + 1);
  }

  /** Characters of a path body are path bytes throughout. */
  lemma {:induction false} PathBodyBytes(p: string)
    requires All(p, PathBody)
    ensures forall j :: 0 <= j < |Encode(p)| ==> IsPathByte(Encode(p)[j])
  {
    if p != "" {
      var c, rest := EncodeChar(p[0]), Encode(p[1..]);
      assert All(p[1..], PathBody);
      PathBodyBytes(p[1..]);
      assert forall j :: 0 <= j < |c| ==> IsPathByte(c[j]);
      assert forall j :: |c| <= j < |c + rest| ==> (c + rest)[j] == rest[j - |c|];
    }
  }

  /** The byte where a path body ends is the boundary where the characters' run ends. */
  lemma {:induction false} RunEnd(bs: seq<Byte>, s: string, i: nat, k: nat) returns (e: nat)
    requires Cursor(bs, s, i, k)
    ensures Cursor(bs, s, e, LeadFrom(s, PathBody, k)) && i <= e <= |bs|
    ensures forall j :: i <= j < e ==> IsPathByte(bs[j])
    ensures e < |bs| ==> !IsPathByte(bs[e])
    ensures e == i <==> LeadFrom(s, PathBody, k) == k
  {
    hide Encode, IsPathByte;
    var m := LeadFrom(s, PathBody, k);
    var p := s[k..m];
    assert p <= s[k..];
    CursorTail(bs, s, i, k);
    CursorJump(bs, s, i, k, p);
    e := i + |Encode(p)|;
    PathBodyBytes(p);
    EncodePrefix(p, s[k..]);
    assert forall j :: i <= j < e ==> bs[j] == bs[i..][j - i] == Encode(p)[j - i];
    RunStops(bs, s, e, m);
    EmptyEncoding(p);
  }

  lemma {:induction false} EmptyEncoding(p: string)
    ensures |Encode(p)| == 0 <==> p == ""
  {
  }

  lemma {:induction false} RunStops(bs: seq<Byte>, s: string, e: nat, m: nat)
    requires Cursor(bs, s, e, m) && (m < |s| ==> !PathBody.Has(s[m]))
    ensures e <= |bs| && (e < |bs| ==> !IsPathByte(bs[e]))
  {
    BoundaryShows(bs, s, e, m);
    CursorTail(bs, s, e, m);
  }

  /** `while j < s.len() && is_path_char(bytes[j]) { j += 1 }`. */
  method ExtendRun(bs: seq<Byte>, start: nat) returns (j: nat)
    requires start <= |bs|
    ensures start <= j <= |bs|
    ensures forall x :: start <= x < j ==> IsPathByte(bs[x])
    ensures j < |bs| ==> !IsPathByte(bs[j])
  {
    j := start;
    while j < |bs| && IsPathByte(bs[j])
      invariant start <= j <= |bs|
      invariant forall x :: start <= x < j ==> IsPathByte(bs[x])
    {
      j := j + 1;
    }
  }

  /**
   The length in bytes of the absolute-path run that starts at byte `i`, or 0:
   the start marker, then every further path byte.
   */
  method RunLengthBytes(bs: seq<Byte>, i: nat, ghost s: string, ghost k: nat) returns (n: nat)
    requires Cursor(bs, s, i, k) && k < |s|
    ensures var m := RunLength(PrevAt(None, s, k), s[k..]);
            (n == 0 <==> m == 0) && k + m <= |s| && Cursor(bs, s, i + n, k + m)
  {
    hide IsPathByte, StartLengthBytes, StartLength, RunLength, Encode, OpensPath, LeadFrom;
    StartBoth(bs, s, i, k);
    var start := StartLengthBytes(bs, i);
    if start == 0 {
      return 0;
    }
    RunFromStart(s, k, start);
    ghost var e := RunEnd(bs, s, i + start, k + start);
    var j := ExtendRun(bs, i + start);
    assert j == e;
    assert j > i + start || start > 1;  // a lone '/' never gets this far
    n := j - i;
  }

  lemma {:induction false} RunFromStart(s: string, k: nat, start: nat)
    requires k < |s| && start == StartLength(PrevAt(None, s, k), s[k..]) && 0 < start
    ensures k + start <= |s| && k + RunLength(PrevAt(None, s, k), s[k..]) == LeadFrom(s, PathBody, k + start)
    ensures start == 1 ==> LeadFrom(s, PathBody, k + start) > k + start
  {
    var t := s[k..];
    var m := LeadFrom(t, PathBody, start);
    assert forall j :: start <= j < m ==> t[j] == s[k + j];
    assert m < |t| ==> t[m] == s[k + m];
    LeadIs(s, PathBody, k + start, k + m);
    assert start == 1 ==> t[1] == s[k + 1] && PathBody.Has(t[1]);
  }

  ghost function DropFrom(s: string, k: nat): seq<Byte>
    requires k <= |s|
  {
    Encode(Drop(PrevAt(None, s, k), s[k..]))
  }

  lemma {:induction false} DropFromEnds(s: string)
    ensures DropFrom(s, 0) == Encode(DropPaths(s)) && DropFrom(s, |s|) == []
  {
    assert s[0..] == s;
  }

  lemma {:induction false} DropFromStep(s: string, k: nat)
    requires k < |s|
    ensures var m := RunLength(PrevAt(None, s, k), s[k..]);
            if m > 0 then k + m <= |s| && DropFrom(s, k) == Encode(PATH_DROP) + DropFrom(s, k + m)
            else DropFrom(s, k) == Encode([s[k]]) + DropFrom(s, k + 1)
  {
    hide RunLength, Encode, Drop;
    var t, prev := s[k..], PrevAt(None, s, k);
    var m := RunLength(prev, t);
    DropTurn(prev, t);
    if m > 0 {
      assert t[m..] == s[k + m..] && t[m - 1] == s[k + m - 1];
      EncodeConcat(PATH_DROP, Drop(Some(t[m - 1]), t[m..]));
    } else {
      assert t[1..] == s[k + 1..];
      EncodeConcat([s[k]], Drop(Some(t[0]), t[1..]));
    }
  }

  lemma {:induction false} DropTurn(prev: Option<char>, s: string)
    requires s != ""
    ensures var n := RunLength(prev, s);
            Drop(prev, s) == if n > 0 then PATH_DROP + Drop(Some(s[n - 1]), s[n..]) else [s[0]] + Drop(Some(s[0]), s[1..])
  {
    hide RunLength;
  }

  /** One turn of the pass: the marker for a run that starts here, else the character here. */
  method NextPiece(bs: seq<Byte>, i: nat, marker: seq<Byte>, ghost s: string, ghost k: nat)
    returns (piece: seq<Byte>, next: nat, ghost k': nat)
    requires Cursor(bs, s, i, k) && k < |s| && marker == Encode(PATH_DROP)
    ensures i < next && k < k' && Cursor(bs, s, next, k')
    ensures DropFrom(s, k) == piece + DropFrom(s, k')
  {
    hide Encode, Drop, DropFrom, RunLength, PrevAt;
    DropFromStep(s, k);
    var n := RunLengthBytes(bs, i, s, k);
    ghost var m := RunLength(PrevAt(None, s, k), s[k..]);
    if n > 0 {
      return marker, i + n, k + m;
    }
    CursorStep(bs, s, i, k);
    next := i + Width(bs[i]);
    return bs[i..next], next, k + 1;
  }

  /**
   The pass as the crate runs it, over bytes. Every slice falls on a character
   boundary, and the result is the UTF-8 form of `DropPaths`.
   */
  method DropPathsBytes(bs: seq<Byte>, marker: seq<Byte>, ghost s: string) returns (out: seq<Byte>)
    requires bs == Encode(s) && marker == Encode(PATH_DROP)
    ensures out == Encode(DropPaths(s))
  {
    var i := 0;
    ghost var k: nat := 0;
    out := [];
    DropFromEnds(s);
    CursorTail(bs, s, i, k);
    hide Encode, Drop, DropFrom, DropPaths, PrevAt;
    while i < |bs|
      invariant i <= |bs| && (i < |bs| <==> k < |s|) && Cursor(bs, s, i, k)
      invariant out + DropFrom(s, k) == DropFrom(s, 0)
    {
      var piece;
      piece, i, k := NextPiece(bs, i, marker, s, k);
      Moved(out, piece, DropFrom(s, k));
      out := out + piece;
      CursorTail(bs, s, i, k);
    }
  }
}
