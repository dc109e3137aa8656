/** Literal, global text replacement: what `text.replace(new RegExp(token, 'g'), value)` does
    when the token holds no regular-expression metacharacters. */
module Text {

  /** `p` occurs in `s` starting at index `i`. */
  predicate OccursAt(s: string, p: string, i: int)
  {
    0 <= i && i + |p| <= |s| && s[i..i + |p|] == p
  }

  /** Scans `s` left to right and replaces every non-overlapping occurrence of `p` by `r`;
      replaced text is never scanned again. */
  function ReplaceAll(s: string, p: string, r: string): string
    requires |p| > 0
    decreases |s|
  {
    if |s| < |p| then s
    else if s[..|p|] == p then r + ReplaceAll(s[|p|..], p, r)
    else [s[0]] + ReplaceAll(s[1..], p, r)
  }

  /** The pieces joined with `sep` between consecutive ones. */
  function Join(pieces: seq<string>, sep: string): string
    requires |pieces| > 0
  {
    if |pieces| == 1 then pieces[0] else pieces[0] + sep + Join(pieces[1..], sep)
  }

  /** A text in which the pattern does not occur is returned unchanged. */
  lemma {:induction false} ReplaceAllAbsent(s: string, p: string, r: string)
    requires |p| > 0
    requires forall i :: !OccursAt(s, p, i)
    ensures ReplaceAll(s, p, r) == s
    decreases |s|
  {
    if |s| >= |p| {
      assert !OccursAt(s, p, 0);
      forall i ensures !OccursAt(s[1..], p, i) {
        if OccursAt(s[1..], p, i) {
          assert s[1..][i..i + |p|] == s[i + 1..i + 1 + |p|];
          assert OccursAt(s, p, i + 1);
        }
      }
      ReplaceAllAbsent(s[1..], p, r);
      assert s == [s[0]] + s[1..];
    }
  }

  /** A prefix inside which no occurrence of the pattern starts is copied as it is. */
  lemma {:induction false} ReplaceAllCopiesPlain(a: string, rest: string, p: string, r: string)
    requires |p| > 0
    requires forall i :: 0 <= i < |a| ==> !OccursAt(a + rest, p, i)
    ensures ReplaceAll(a + rest, p, r) == a + ReplaceAll(rest, p, r)
    decreases |a|
  {
    if a != [] {
      var s := a + rest;
      if |s| < |p| {
        assert ReplaceAll(s, p, r) == s;
        assert ReplaceAll(rest, p, r) == rest;
      } else {
        assert !OccursAt(s, p, 0);
        assert ReplaceAll(s, p, r) == [s[0]] + ReplaceAll(s[1..], p, r);
        assert s[0] == a[0] && s[1..] == a[1..] + rest;
        forall i | 0 <= i < |a[1..]| ensures !OccursAt(a[1..] + rest, p, i) {
          if OccursAt(a[1..] + rest, p, i) {
            assert (a[1..] + rest)[i..i + |p|] == s[i + 1..i + 1 + |p|];
            assert OccursAt(s, p, i + 1);
          }
        }
        ReplaceAllCopiesPlain(a[1..], rest, p, r);
        assert a == [a[0]] + a[1..];
      }
    } else {
      assert a + rest == rest;
    }
  }

  /** Whether an occurrence starts at `i` is decided by the first `i + |p|` characters. */
  lemma OccursAtPrefix(s: string, t: string, p: string, i: int)
    requires 0 <= i && i + |p| <= |s|
    ensures OccursAt(s + t, p, i) <==> OccursAt(s, p, i)
  {
    assert (s + t)[i..i + |p|] == s[i..i + |p|];
  }

  /** An occurrence at the front is replaced and the scan resumes after it. */
  lemma ReplaceAllLeading(rest: string, p: string, r: string)
    requires |p| > 0
    ensures ReplaceAll(p + rest, p, r) == r + ReplaceAll(rest, p, r)
  {
    var s := p + rest;
    assert s[..|p|] == p;
    assert s[|p|..] == rest;
  }

  /** No occurrence of `p` starts inside `piece` when `p` is put after it. */
  predicate Separated(piece: string, p: string)
  {
    forall i :: 0 <= i < |piece| ==> !OccursAt(piece + p, p, i)
  }

  /** Every occurrence of the pattern is replaced: a text made of pieces separated by the
      pattern, such that no occurrence starts inside a piece, becomes the same pieces
      separated by the replacement. */
  lemma {:induction false} ReplaceAllJoin(pieces: seq<string>, p: string, r: string)
    requires |pieces| > 0 && |p| > 0
    requires forall k :: 0 <= k < |pieces| ==> Separated(pieces[k], p)
    ensures ReplaceAll(Join(pieces, p), p, r) == Join(pieces, r)
    decreases |pieces|
  {
    var a := pieces[0];
    if |pieces| == 1 {
      forall i | 0 <= i < |a| ensures !OccursAt(a + [], p, i) {
        assert a + [] == a;
        if OccursAt(a, p, i) {
          OccursAtPrefix(a, p, p, i);
        }
      }
      ReplaceAllCopiesPlain(a, [], p, r);
      assert a + [] == a;
      assert ReplaceAll([], p, r) == [];
    } else {
      var tail := Join(pieces[1..], p);
      assert Join(pieces, p) == a + (p + tail);
      forall i | 0 <= i < |a| ensures !OccursAt(a + (p + tail), p, i) {
        assert a + (p + tail) == (a + p) + tail;
        OccursAtPrefix(a + p, tail, p, i);
      }
      ReplaceAllCopiesPlain(a, p + tail, p, r);
      ReplaceAllLeading(tail, p, r);
      ReplaceAllJoin(pieces[1..], p, r);
      assert Join(pieces, r) == a + (r + Join(pieces[1..], r));
    }
  }

  /** Lexicographic order on strings by character code; a proper prefix comes first. */
  predicate LexLess(a: string, b: string)
    decreases |a|
  {
    if a == [] then b != []
    else if b == [] then false
    else if a[0] != b[0] then a[0] < b[0]
    else LexLess(a[1..], b[1..])
  }

  lemma {:induction false} LexIrreflexive(a: string)
    ensures !LexLess(a, a)
    decreases |a|
  {
    if a != [] {
      LexIrreflexive(a[1..]);
    }
  }

  lemma {:induction false} LexTransitive(a: string, b: string, c: string)
    requires LexLess(a, b) && LexLess(b, c)
    ensures LexLess(a, c)
    decreases |a|
  {
    if a != [] && b != [] && c != [] && a[0] == b[0] && b[0] == c[0] {
      LexTransitive(a[1..], b[1..], c[1..]);
    }
  }

  /** Two different strings are ordered one way or the other. */
  lemma {:induction false} LexTotal(a: string, b: string)
    requires a != b
    ensures LexLess(a, b) || LexLess(b, a)
    decreases |a|
  {
    if a != [] && b != [] && a[0] == b[0] {
      assert a == [a[0]] + a[1..] && b == [b[0]] + b[1..];
      LexTotal(a[1..], b[1..]);
    }
  }
}
