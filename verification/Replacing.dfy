/**
 `str::replace`: every leftmost, non-overlapping literal occurrence of a pattern
 is replaced. Home paths and recognized path roots are removed this way.
 */
module Replacing {
  import opened Text
  import opened Marking

  function Replace(s: string, pat: string, mark: string): string
    requires pat != ""
  {
    if pat <= s then mark + Replace(s[|pat|..], pat, mark)
    else if s == "" then ""
    else [s[0]] + Replace(s[1..], pat, mark)
  }

  lemma {:induction false} ReplaceRewrites(s: string, pat: string, mark: string)
    requires pat != "" && IsMarker(mark)
    ensures Rewrites(s, Replace(s, pat, mark))
  {
    if pat <= s {
      ReplaceRewrites(s[|pat|..], pat, mark);
      RewriteMark(pat, mark, s[|pat|..], Replace(s[|pat|..], pat, mark));
      assert s == pat + s[|pat|..];
    } else if s == "" {
      RewriteNothing();
    } else {
      ReplaceRewrites(s[1..], pat, mark);
      RewriteKeep(s[0], s[1..], Replace(s[1..], pat, mark));
      assert s == [s[0]] + s[1..];
    }
  }

  /** Text at the head of the result in which no marker starts was at the head of the input. */
  lemma {:induction false} ReplacePrefix(s: string, pat: string, mark: string, q: string)
    requires pat != "" && IsMarker(mark) && NoneStartsIn(q)
    requires q <= Replace(s, pat, mark)
    ensures q <= s
  {
    hide IsMarker, NoneStartsIn, Meets;
    if q != "" {
      var r := Replace(s, pat, mark);
      NoneStartsInTail(q);
      if pat <= s {
        HeadMeets(mark, Replace(s[|pat|..], pat, mark), q);
      }
      assert q[0] == r[0];
      assert r[1..] == Replace(s[1..], pat, mark);
      ReplacePrefix(s[1..], pat, mark, q[1..]);
      assert q == [q[0]] + q[1..];
    }
  }

  /** The removed pattern is gone from the result. */
  lemma {:induction false} ReplaceRemoves(s: string, pat: string, mark: string)
    requires IsMarker(mark) && IsForeign(pat)
    ensures !Occurs(pat, Replace(s, pat, mark))
  {
    var r := Replace(s, pat, mark);
    if i :| At(r, pat, i) {
      ReplaceRemovesAt(s, pat, mark, i);
    }
  }

  lemma {:induction false} ReplaceRemovesAt(s: string, pat: string, mark: string, i: nat)
    requires IsMarker(mark) && IsForeign(pat)
    ensures !At(Replace(s, pat, mark), pat, i)
  {
    hide IsMarker, NoneStartsIn, Meets;
    if pat <= s {
      var rest := Replace(s[|pat|..], pat, mark);
      if i < |mark| {
        OutsideMarker(mark, rest, pat, i);
      } else {
        AtShift(mark, rest, pat, i);
        ReplaceRemovesAt(s[|pat|..], pat, mark, i - |mark|);
      }
    } else if s != "" {
      var rest := Replace(s[1..], pat, mark);
      if i == 0 {
        if At([s[0]] + rest, pat, 0) {
          ReplacePrefix(s, pat, mark, pat);
        }
      } else {
        AtShift([s[0]], rest, pat, i);
        ReplaceRemovesAt(s[1..], pat, mark, i - 1);
      }
    }
  }

  /** Text without the pattern is left alone. */
  lemma {:induction false} ReplaceIdle(s: string, pat: string, mark: string)
    requires pat != "" && !Occurs(pat, s)
    ensures Replace(s, pat, mark) == s
  {
    if pat <= s {
      assert At(s, pat, 0);
    } else if s != "" {
      OccursTail(s, pat);
      ReplaceIdle(s[1..], pat, mark);
    }
  }

  lemma {:induction false} AtInTail(s: string, pat: string, i: nat)
    requires s != ""
    ensures At(s[1..], pat, i) == At(s, pat, i + 1)
  {
    assert s == [s[0]] + s[1..];
    AtShift([s[0]], s[1..], pat, i + 1);
  }

  /** The leftmost occurrence is the one replaced, and scanning resumes right after it. */
  lemma {:induction false} ReplaceLeftmost(a: string, pat: string, b: string, mark: string)
    requires pat != ""
    requires forall i :: 0 <= i < |a| ==> !At(a + pat + b, pat, i)
    ensures Replace(a + pat + b, pat, mark) == a + mark + Replace(b, pat, mark)
  {
    var s := a + pat + b;
    if a == "" {
      assert s == pat + b && s[|pat|..] == b;
      assert a + mark == mark;
    } else {
      assert s[1..] == a[1..] + pat + b;
      assert !At(s, pat, 0);
      forall i | 0 <= i < |a[1..]| ensures !At(s[1..], pat, i) {
        AtInTail(s, pat, i);
        assert !At(s, pat, i + 1);
      }
      ReplaceLeftmost(a[1..], pat, b, mark);
      assert a == [a[0]] + a[1..];
    }
  }
}
