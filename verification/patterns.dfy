/**
 * Short character patterns and the texts that avoid them. The URL and e-mail
 * substitutions of the enhancer's normaliser guarantee that certain patterns
 * no longer occur; this module shows that such a guarantee survives the
 * whitespace collapse that follows them.
 */
module Patterns {
  import opened TextBasics

  /** One position of a pattern: a given character, or any non-whitespace
      character (the regex class `\S`). */
  datatype Glyph = Exactly(c: char) | NonBlank

  predicate Fits(g: Glyph, c: char) {
    match g
    case Exactly(d) => c == d
    case NonBlank => !IsSpace(c)
  }

  /** `pat` occurs in `s` starting at index `i`. */
  predicate OccursAt(s: string, i: int, pat: seq<Glyph>) {
    0 <= i && i + |pat| <= |s| && forall k :: 0 <= k < |pat| ==> Fits(pat[k], s[i + k])
  }

  /** `pat` occurs nowhere in `s`. */
  predicate Avoids(s: string, pat: seq<Glyph>) {
    forall i :: 0 <= i < |s| ==> !OccursAt(s, i, pat)
  }

  /** No position of `pat` accepts a space, so no occurrence can straddle
      the space that joins two words. */
  predicate Solid(pat: seq<Glyph>) {
    |pat| > 0 && forall k :: 0 <= k < |pat| ==> !Fits(pat[k], ' ')
  }

  lemma OccursInSlice(s: string, a: nat, b: nat, i: int, pat: seq<Glyph>)
    requires a <= b <= |s|
    ensures OccursAt(s[a..b], i, pat) ==> OccursAt(s, a + i, pat)
  {
    if OccursAt(s[a..b], i, pat) {
      forall k | 0 <= k < |pat|
        ensures Fits(pat[k], s[a + i + k])
      {
        assert s[a..b][i + k] == s[a + i + k];
      }
    }
  }

  /** A pattern absent from a text is absent from every slice of it. */
  lemma AvoidsSlice(s: string, a: nat, b: nat, pat: seq<Glyph>)
    requires a <= b <= |s|
    requires Avoids(s, pat)
    ensures Avoids(s[a..b], pat)
  {
    forall i | 0 <= i < b - a
      ensures !OccursAt(s[a..b], i, pat)
    {
      OccursInSlice(s, a, b, i, pat);
    }
  }

  lemma SpaceInside(a: string, b: string, i: int, pat: seq<Glyph>)
    ensures OccursAt(a + " " + b, i, pat) && i <= |a| < i + |pat| ==> Fits(pat[|a| - i], ' ')
  {
    var r := a + " " + b;
    if OccursAt(r, i, pat) && i <= |a| < i + |pat| {
      assert r[i + (|a| - i)] == ' ';
    }
  }

  /** Where an occurrence in `a + " " + b` must lie when the pattern is solid. */
  lemma OccursAroundSpace(a: string, b: string, i: int, pat: seq<Glyph>)
    requires Solid(pat)
    ensures OccursAt(a + " " + b, i, pat) ==>
      OccursAt(a, i, pat) || OccursAt(b, i - |a| - 1, pat)
  {
    var r := a + " " + b;
    if OccursAt(r, i, pat) {
      if i + |pat| <= |a| {
        forall k | 0 <= k < |pat|
          ensures Fits(pat[k], a[i + k])
        {
          assert r[i + k] == a[i + k];
        }
      } else if i > |a| {
        forall k | 0 <= k < |pat|
          ensures Fits(pat[k], b[i - |a| - 1 + k])
        {
          assert r[i + k] == b[i - |a| - 1 + k];
        }
      } else {
        SpaceInside(a, b, i, pat);
        assert false;
      }
    }
  }

  lemma AvoidsAroundSpace(a: string, b: string, pat: seq<Glyph>)
    requires Solid(pat)
    requires Avoids(a, pat) && Avoids(b, pat)
    ensures Avoids(a + " " + b, pat)
  {
    forall i | 0 <= i < |a + " " + b|
      ensures !OccursAt(a + " " + b, i, pat)
    {
      OccursAroundSpace(a, b, i, pat);
    }
  }

  /** A solid pattern absent from every word is absent from their join. */
  lemma {:induction false} JoinAvoids(ws: seq<string>, pat: seq<Glyph>)
    requires Solid(pat)
    requires forall i :: 0 <= i < |ws| ==> Avoids(ws[i], pat)
    ensures Avoids(Join(ws), pat)
    decreases |ws|
  {
    if |ws| > 1 {
      JoinAvoids(ws[1..], pat);
      AvoidsAroundSpace(ws[0], Join(ws[1..]), pat);
    }
  }

  /** A pattern absent from a text is absent from each of its words. */
  lemma {:induction false} SplitAvoids(s: string, pat: seq<Glyph>)
    requires Avoids(s, pat)
    ensures forall i :: 0 <= i < |Split(s)| ==> Avoids(Split(s)[i], pat)
    decreases |s|
  {
    if s != [] && IsSpace(s[0]) {
      AvoidsSlice(s, 1, |s|, pat);
      assert s[1..|s|] == s[1..];
      SplitAvoids(s[1..], pat);
    } else if s != [] {
      var n := RunLength(s);
      AvoidsSlice(s, 0, n, pat);
      AvoidsSlice(s, n, |s|, pat);
      assert s[n..|s|] == s[n..];
      SplitAvoids(s[n..], pat);
    }
  }
}
