/**
 The shape every scrubbing stage has: the output keeps stretches of the input in
 order and puts a `<...>` marker in place of each stretch it removes. Text that
 no marker overlaps can therefore never be assembled by a stage that did not find
 it in its input.
 */
module Marking {
  import opened Text

  /** One step of a rewriting: keep a character, or put a marker in place of `src`. */
  datatype Edit = Keep(c: char) | Mark(src: string, mark: string)

  /** Everything the scrubbing stages write. */
  const MARKERS := {"<HOME>", "<USER>", "<HOST>", "<home>", "<tmp>", "<cache>", "<path>", "<redacted>"}

  predicate IsMarker(m: string) { m in MARKERS }

  /** Opens with '<', closes with '>', and holds no separator and no newline. */
  predicate IsBracketed(m: string) {
    && |m| >= 2 && m[0] == '<' && m[|m| - 1] == '>'
    && forall i :: 0 <= i < |m| ==> !IsSeparator(m[i]) && m[i] != '\n'
  }

  lemma {:induction false} MarkerShape(m: string)
    requires IsMarker(m)
    ensures IsBracketed(m)
  {
  }

  ghost function Before(es: seq<Edit>): string {
    if es == [] then "" else (if es[0].Keep? then [es[0].c] else es[0].src) + Before(es[1..])
  }

  ghost function After(es: seq<Edit>): string {
    if es == [] then "" else (if es[0].Keep? then [es[0].c] else es[0].mark) + After(es[1..])
  }

  ghost predicate Proper(es: seq<Edit>) {
    forall i :: 0 <= i < |es| && es[i].Mark? ==> IsMarker(es[i].mark)
  }

  /** `t` is `s` with some stretches replaced by markers and the rest kept in order. */
  ghost predicate Rewrites(s: string, t: string) {
    exists es :: Proper(es) && Before(es) == s && After(es) == t
  }

  // ----- how rewritings are put together

  lemma {:induction false} RewriteNothing()
    ensures Rewrites("", "")
  {
    var es: seq<Edit> := [];
    assert Proper(es) && Before(es) == "" && After(es) == "";
  }

  lemma {:induction false} RewriteKeep(c: char, s: string, t: string)
    requires Rewrites(s, t)
    ensures Rewrites([c] + s, [c] + t)
  {
    var es :| Proper(es) && Before(es) == s && After(es) == t;
    var fs := [Keep(c)] + es;
    assert fs[1..] == es;
    assert Proper(fs) && Before(fs) == [c] + s && After(fs) == [c] + t;
  }

  lemma {:induction false} RewriteMark(src: string, mark: string, s: string, t: string)
    requires IsMarker(mark) && Rewrites(s, t)
    ensures Rewrites(src + s, mark + t)
  {
    var es :| Proper(es) && Before(es) == s && After(es) == t;
    var fs := [Mark(src, mark)] + es;
    assert fs[1..] == es;
    assert Proper(fs) && Before(fs) == src + s && After(fs) == mark + t;
  }

  lemma {:induction false} RewriteKeepAll(k: string, s: string, t: string)
    requires Rewrites(s, t)
    ensures Rewrites(k + s, k + t)
  {
    hide Rewrites;
    if k == "" {
      assert k + s == s && k + t == t;
    } else {
      var c, rest := [k[0]], k[1..];
      RewriteKeepAll(rest, s, t);
      RewriteKeep(k[0], rest + s, rest + t);
      assert k == c + rest;
      assert c + rest + s == c + (rest + s);
      assert c + rest + t == c + (rest + t);
    }
  }

  lemma {:induction false} RewriteRefl(s: string)
    ensures Rewrites(s, s)
  {
    RewriteNothing();
    RewriteKeepAll(s, "", "");
    assert s + "" == s;
  }

  lemma {:induction false} RewriteConcat(s: string, t: string, s': string, t': string)
    requires Rewrites(s, t) && Rewrites(s', t')
    ensures Rewrites(s + s', t + t')
  {
    var es :| Proper(es) && Before(es) == s && After(es) == t;
    var fs :| Proper(fs) && Before(fs) == s' && After(fs) == t';
    SidesConcat(es, fs);
    assert Proper(es + fs);
  }

  lemma {:induction false} SidesConcat(es: seq<Edit>, fs: seq<Edit>)
    ensures Before(es + fs) == Before(es) + Before(fs)
    ensures After(es + fs) == After(es) + After(fs)
  {
    if es == [] {
      assert es + fs == fs;
    } else {
      assert (es + fs)[1..] == es[1..] + fs && (es + fs)[0] == es[0];
      SidesConcat(es[1..], fs);
    }
  }

  // ----- what no rewriting can assemble

  /** The two texts can stand at the same place: one is a prefix of the other. */
  predicate Meets(a: string, b: string) {
    a <= b || b <= a
  }

  /** No marker starts within `q`. */
  ghost predicate NoneStartsIn(q: string) {
    forall m, j :: IsMarker(m) && 0 <= j < |q| ==> !Meets(m, q[j..])
  }

  /** Text that no marker overlaps. */
  ghost predicate IsForeign(p: string) {
    && p != "" && NoneStartsIn(p)
    && forall m, i :: IsMarker(m) && 0 <= i < |m| ==> !Meets(m[i..], p)
  }

  /** In particular text with a separator and no angle bracket. */
  lemma {:induction false} BracketFreeIsForeign(p: string)
    requires '<' !in p && '>' !in p && exists i :: 0 <= i < |p| && IsSeparator(p[i])
    ensures IsForeign(p)
  {
    hide IsMarker;
    forall m, j | IsMarker(m) && 0 <= j < |p| ensures !Meets(m, p[j..]) {
      MarkerShape(m);
      assert p[j..][0] in p;
    }
    forall m, i | IsMarker(m) && 0 <= i < |m| ensures !Meets(m[i..], p) {
      MarkerShape(m);
      var tail := m[i..];
      assert tail[|tail| - 1] == '>';
      assert forall k :: 0 <= k < |tail| ==> !IsSeparator(tail[k]);
    }
  }

  lemma {:induction false} NoneStartsInTail(q: string)
    requires NoneStartsIn(q) && q != ""
    ensures NoneStartsIn(q[1..])
    ensures forall m :: IsMarker(m) ==> !Meets(m, q)
  {
    assert q[0..] == q;
    forall m, j | IsMarker(m) && 0 <= j < |q[1..]| ensures !Meets(m, q[1..][j..]) {
      assert q[1..][j..] == q[j + 1..];
    }
  }

  /** What stands across the end of `m` meets the rest of `m`. */
  lemma {:induction false} MeetsAt(m: string, rest: string, p: string, i: nat)
    requires At(m + rest, p, i) && i < |m|
    ensures Meets(m[i..], p)
  {
    var s := m + rest;
    if i + |p| <= |m| {
      assert s[i..i + |p|] == m[i..i + |p|] == m[i..][..|p|];
    } else {
      assert s[i..i + |p|][..|m| - i] == m[i..];
    }
  }

  /** Text at the head of the output in which no marker starts was at the head of the input. */
  lemma {:induction false} PrefixKept(es: seq<Edit>, q: string)
    requires Proper(es) && q <= After(es)
    requires NoneStartsIn(q)
    ensures q <= Before(es)
  {
    hide NoneStartsIn, IsMarker, Meets;
    if q != "" {
      assert es != [];
      NoneStartsInTail(q);
      if es[0].Mark? {
        assert IsMarker(es[0].mark);
        HeadMeets(es[0].mark, After(es[1..]), q);
      }
      assert q[0] == After(es)[0] && es[0].Keep?;
      assert After(es)[1..] == After(es[1..]) && Before(es)[1..] == Before(es[1..]);
      PrefixKept(es[1..], q[1..]);
      assert q == [q[0]] + q[1..];
    }
  }

  lemma {:induction false} HeadMeets(m: string, rest: string, q: string)
    requires q <= m + rest
    ensures Meets(m, q)
  {
    if |m| <= |q| {
      assert q[..|m|] == m;
    }
  }

  lemma {:induction false} OccurrenceKept(es: seq<Edit>, p: string, i: int)
    requires Proper(es) && IsForeign(p) && At(After(es), p, i)
    ensures Occurs(p, Before(es))
  {
    var rest := es[1..];
    if i == 0 {
      PrefixKept(es, p);
      assert At(Before(es), p, 0);
    } else {
      var src := if es[0].Keep? then [es[0].c] else es[0].src;
      var out := if es[0].Keep? then [es[0].c] else es[0].mark;
      if i < |out| {
        OutsideMarker(out, After(rest), p, i);
      }
      AtShift(out, After(rest), p, i);
      OccurrenceKept(rest, p, i - |out|);
      OccursAfter(src, Before(rest), p);
    }
  }

  /** No foreign text starts inside a marker. */
  lemma {:induction false} OutsideMarker(m: string, rest: string, p: string, i: nat)
    requires IsMarker(m) && IsForeign(p) && i < |m|
    ensures !At(m + rest, p, i)
  {
    if At(m + rest, p, i) {
      MeetsAt(m, rest, p, i);
    }
  }

  /** No stage of this shape creates an occurrence of foreign text. */
  lemma {:induction false} RewriteOccurs(s: string, t: string, p: string)
    requires Rewrites(s, t) && IsForeign(p) && Occurs(p, t)
    ensures Occurs(p, s)
  {
    var es :| Proper(es) && Before(es) == s && After(es) == t;
    var i :| At(t, p, i);
    OccurrenceKept(es, p, i);
  }

  /** Nor does it bring in a newline. */
  lemma {:induction false} NewlineKept(es: seq<Edit>)
    requires Proper(es) && '\n' in After(es)
    ensures '\n' in Before(es)
  {
    hide IsMarker;
    if es[0].Mark? {
      MarkerShape(es[0].mark);
    }
    if es[0].Keep? && es[0].c == '\n' {
      assert Before(es)[0] == '\n';
    } else {
      NewlineKept(es[1..]);
    }
  }

  lemma {:induction false} RewriteNewline(s: string, t: string)
    requires Rewrites(s, t) && '\n' in t
    ensures '\n' in s
  {
    var es :| Proper(es) && Before(es) == s && After(es) == t;
    NewlineKept(es);
  }
}
