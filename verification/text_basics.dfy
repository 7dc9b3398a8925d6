/**
 * The string operations both normalisers are built from, on ASCII text:
 * character classes, lower-casing, splitting on whitespace runs (Python's
 * `str.split()` with no argument) and joining with single spaces
 * (`' '.join(...)`).
 */
module TextBasics {

  /** ASCII whitespace as Python's `str.split()` and the regex class `\s`
      see it: tab, line feed, vertical tab, form feed, carriage return, the
      four information separators 0x1C-0x1F, and space. */
  predicate IsSpace(c: char) {
    9 <= c as int <= 13 || 28 <= c as int <= 32
  }

  predicate IsUpper(c: char) { 'A' <= c <= 'Z' }

  predicate IsLower(c: char) { 'a' <= c <= 'z' }

  predicate IsLetter(c: char) { IsUpper(c) || IsLower(c) }

  /** `c.lower()` for an ASCII character. */
  function LowerChar(c: char): (d: char)
    ensures !IsUpper(d)
    ensures IsLetter(d) <==> IsLetter(c)
    ensures IsSpace(d) <==> IsSpace(c)
    ensures !IsUpper(c) ==> d == c
  {
    if IsUpper(c) then (c as int + 32) as char else c
  }

  /** `s.lower()`: every character lowered, in place. */
  function Lower(s: string): (r: string)
    ensures |r| == |s|
    ensures forall i :: 0 <= i < |s| ==> r[i] == LowerChar(s[i])
  {
    if s == [] then [] else [LowerChar(s[0])] + Lower(s[1..])
  }

  predicate NoUpper(s: string) {
    forall i :: 0 <= i < |s| ==> !IsUpper(s[i])
  }

  /** Lower-casing leaves text without upper-case letters, and text that has
      none is left unchanged. */
  lemma LowerSpec(s: string)
    ensures NoUpper(Lower(s))
    ensures NoUpper(s) ==> Lower(s) == s
  {
  }

  /** The characters of `s` that are not whitespace, in order. */
  function NonSpace(s: string): (r: string)
    ensures |r| <= |s|
    ensures forall i :: 0 <= i < |r| ==> !IsSpace(r[i])
  {
    if s == [] then []
    else if IsSpace(s[0]) then NonSpace(s[1..])
    else [s[0]] + NonSpace(s[1..])
  }

  /** The ASCII letters of `s`, in order. */
  function Letters(s: string): (r: string)
    ensures forall i :: 0 <= i < |r| ==> IsLetter(r[i])
  {
    if s == [] then []
    else if IsLetter(s[0]) then [s[0]] + Letters(s[1..])
    else Letters(s[1..])
  }

  lemma {:induction false} NonSpaceAppend(a: string, b: string)
    ensures NonSpace(a + b) == NonSpace(a) + NonSpace(b)
    decreases |a|
  {
    if a == [] {
      assert a + b == b;
    } else {
      assert (a + b)[0] == a[0];
      assert (a + b)[1..] == a[1..] + b;
      NonSpaceAppend(a[1..], b);
    }
  }

  lemma {:induction false} InNonSpace(s: string, c: char)
    ensures c in NonSpace(s) <==> c in s && !IsSpace(c)
    decreases |s|
  {
    if s != [] {
      InNonSpace(s[1..], c);
      assert s == [s[0]] + s[1..];
    }
  }

  /** A word: a non-empty run of non-whitespace characters. */
  predicate IsWord(w: string) {
    |w| > 0 && forall k :: 0 <= k < |w| ==> !IsSpace(w[k])
  }

  predicate AllWords(ws: seq<string>) {
    forall i :: 0 <= i < |ws| ==> IsWord(ws[i])
  }

  /** Length of the leading run of non-whitespace characters of `s`. */
  function RunLength(s: string): (n: nat)
    ensures n <= |s|
    ensures forall k :: 0 <= k < n ==> !IsSpace(s[k])
    ensures n < |s| ==> IsSpace(s[n])
  {
    if s == [] || IsSpace(s[0]) then 0 else 1 + RunLength(s[1..])
  }

  /** `s.split()`: the maximal runs of non-whitespace characters, in order. */
  function Split(s: string): (ws: seq<string>)
    ensures AllWords(ws)
    decreases |s|
  {
    if s == [] then []
    else if IsSpace(s[0]) then Split(s[1..])
    else
      var n := RunLength(s);
      [s[..n]] + Split(s[n..])
  }

  /** `' '.join(ws)`: the first word, then a space before each further
      word. */
  function Join(ws: seq<string>): (r: string)
    ensures ws == [] ==> r == []
    ensures ws != [] ==> |r| >= |ws[0]| && r[..|ws[0]|] == ws[0]
    ensures |ws| > 1 ==> |r| > |ws[0]| && r[|ws[0]|] == ' '
  {
    if ws == [] then ""
    else if |ws| == 1 then ws[0]
    else ws[0] + " " + Join(ws[1..])
  }

  /** `' '.join(s.split())`: whitespace runs become one space, ends trimmed.
      Only whitespace changes: every other character stays, in order. */
  function Collapse(s: string): (r: string)
    ensures Canonical(r)
    ensures NonSpace(r) == NonSpace(s)
    ensures Split(r) == Split(s)
  {
    JoinCanonical(Split(s));
    SplitJoin(Split(s));
    NonSpaceSplit(s);
    NonSpaceJoin(Split(s));
    Join(Split(s))
  }

  /** A subsequence: `a` is `b` with some elements left out, order kept. */
  predicate IsSubsequence<T(==)>(a: seq<T>, b: seq<T>)
    decreases |b|
  {
    a == [] || (b != [] && ((a[0] == b[0] && IsSubsequence(a[1..], b[1..])) || IsSubsequence(a, b[1..])))
  }

  /** Concatenation of a sequence of strings. */
  function Concat(ws: seq<string>): string {
    if ws == [] then [] else ws[0] + Concat(ws[1..])
  }

  /** Text in the shape `Collapse` produces: no whitespace at either end,
      every whitespace character a plain space, never two in a row. */
  ghost predicate Canonical(s: string) {
    && (s != [] ==> !IsSpace(s[0]) && !IsSpace(s[|s| - 1]))
    && (forall i :: 0 <= i < |s| && IsSpace(s[i]) ==> s[i] == ' ')
    && (forall i, j :: 0 <= i < j < |s| && j == i + 1 ==> !(IsSpace(s[i]) && IsSpace(s[j])))
  }

  lemma SplitSpaceCons(c: char, s: string)
    requires IsSpace(c)
    ensures Split([c] + s) == Split(s)
  {
    assert ([c] + s)[1..] == s;
  }

  lemma {:induction false} RunLengthOfWord(w: string, s: string)
    requires IsWord(w)
    requires s == [] || IsSpace(s[0])
    ensures RunLength(w + s) == |w|
    decreases |w|
  {
    assert (w + s)[1..] == w[1..] + s;
    if |w| > 1 {
      RunLengthOfWord(w[1..], s);
    }
  }

  /** A word followed by whitespace (or nothing) splits off as one word. */
  lemma SplitWordCons(w: string, s: string)
    requires IsWord(w)
    requires s == [] || IsSpace(s[0])
    ensures Split(w + s) == [w] + Split(s)
  {
    var t := w + s;
    assert t[0] == w[0];
    RunLengthOfWord(w, s);
    assert t[..|w|] == w;
    assert t[|w|..] == s;
  }

  /** Splitting a join of words gives the words back. */
  lemma {:induction false} SplitJoin(ws: seq<string>)
    requires AllWords(ws)
    ensures Split(Join(ws)) == ws
    decreases |ws|
  {
    if |ws| == 1 {
      SplitWordCons(ws[0], []);
      assert ws[0] + [] == ws[0];
    } else if |ws| > 1 {
      var rest := Join(ws[1..]);
      calc {
        Split(Join(ws));
        { assert Join(ws) == ws[0] + ([' '] + rest); }
        Split(ws[0] + ([' '] + rest));
        { SplitWordCons(ws[0], [' '] + rest); }
        [ws[0]] + Split([' '] + rest);
        { SplitSpaceCons(' ', rest); }
        [ws[0]] + Split(rest);
        { SplitJoin(ws[1..]); }
        [ws[0]] + ws[1..];
      }
      assert [ws[0]] + ws[1..] == ws;
    }
  }

  /** Collapsing whitespace twice is the same as once. */
  lemma CollapseIdempotent(s: string)
    ensures Collapse(Collapse(s)) == Collapse(s)
  {
    SplitJoin(Split(s));
  }

  /** Joining words with single spaces yields canonical text, empty exactly
      when there are no words. */
  lemma {:induction false} JoinCanonical(ws: seq<string>)
    requires AllWords(ws)
    ensures Canonical(Join(ws))
    ensures Join(ws) == [] <==> ws == []
    decreases |ws|
  {
    if |ws| == 1 {
    } else if |ws| > 1 {
      var w, rest := ws[0], Join(ws[1..]);
      JoinCanonical(ws[1..]);
      var r := w + " " + rest;
      assert Join(ws) == r;
      assert rest != [] && !IsSpace(rest[0]);
      forall i | 0 <= i < |r|
        ensures IsSpace(r[i]) ==> r[i] == ' '
        ensures i < |r| - 1 ==> !(IsSpace(r[i]) && IsSpace(r[i + 1]))
      {
        if i < |w| {
          assert r[i] == w[i];
        } else if i == |w| {
          assert r[i + 1] == rest[0];
        } else {
          assert r[i] == rest[i - |w| - 1];
          if i < |r| - 1 {
            assert r[i + 1] == rest[i - |w|];
          }
        }
      }
      assert r[|r| - 1] == rest[|rest| - 1];
    }
  }

  lemma {:induction false} NonSpaceOfWord(w: string)
    requires forall k :: 0 <= k < |w| ==> !IsSpace(w[k])
    ensures NonSpace(w) == w
    decreases |w|
  {
    if w != [] {
      NonSpaceOfWord(w[1..]);
    }
  }

  lemma {:induction false} NonSpaceJoin(ws: seq<string>)
    requires AllWords(ws)
    ensures NonSpace(Join(ws)) == Concat(ws)
    decreases |ws|
  {
    if |ws| == 1 {
      NonSpaceOfWord(ws[0]);
      assert Concat(ws) == ws[0] + Concat([]);
    } else if |ws| > 1 {
      var rest := Join(ws[1..]);
      assert Join(ws) == ws[0] + (" " + rest);
      NonSpaceAppend(ws[0], " " + rest);
      NonSpaceAppend(" ", rest);
      assert NonSpace(" ") == [];
      NonSpaceOfWord(ws[0]);
      NonSpaceJoin(ws[1..]);
    }
  }

  lemma NonSpaceWordThen(w: string, rest: string)
    requires IsWord(w)
    ensures NonSpace(w + rest) == w + NonSpace(rest)
  {
    NonSpaceAppend(w, rest);
    NonSpaceOfWord(w);
  }

  lemma SliceJoin(t: string, n: nat)
    requires n <= |t|
    ensures t == t[..n] + t[n..]
  {
  }

  lemma ConcatCons(w: string, ws: seq<string>)
    ensures Concat([w] + ws) == w + Concat(ws)
  {
    assert ([w] + ws)[1..] == ws;
  }

  lemma {:induction false} NonSpaceSplit(s: string)
    ensures NonSpace(s) == Concat(Split(s))
    decreases |s|
  {
    if s != [] && IsSpace(s[0]) {
      NonSpaceSplit(s[1..]);
    } else if s != [] {
      var n := RunLength(s);
      var w, rest := s[..n], s[n..];
      calc {
        NonSpace(s);
        { SliceJoin(s, n); }
        NonSpace(w + rest);
        { NonSpaceWordThen(w, rest); }
        w + NonSpace(rest);
        { NonSpaceSplit(rest); }
        w + Concat(Split(rest));
        { ConcatCons(w, Split(rest)); }
        Concat([w] + Split(rest));
        Concat(Split(s));
      }
    }
  }

  /** Every character of collapsed text is a space or a non-whitespace
      character of the input. */
  lemma CollapseChars(s: string)
    ensures forall i :: 0 <= i < |Collapse(s)| ==> Collapse(s)[i] == ' ' || (Collapse(s)[i] in s && !IsSpace(Collapse(s)[i]))
  {
    var r := Collapse(s);
    forall i | 0 <= i < |r| && r[i] != ' '
      ensures r[i] in s && !IsSpace(r[i])
    {
      InNonSpace(r, r[i]);
      InNonSpace(s, r[i]);
    }
  }

  /** Canonical text with no non-whitespace character is empty. */
  lemma CanonicalBlank(s: string)
    requires Canonical(s)
    requires NonSpace(s) == []
    ensures s == []
  {
  }

  /** Canonical text after its first space is canonical again. */
  lemma CanonicalAfterSpace(s: string, n: nat)
    requires Canonical(s)
    requires n < |s| && IsSpace(s[n])
    ensures Canonical(s[n + 1..])
  {
    var t := s[n + 1..];
    forall i | 0 <= i < |t|
      ensures t[i] == s[n + 1 + i]
    {
    }
  }

  lemma SliceAt(s: string, n: nat)
    requires n < |s|
    ensures s[n..] == [s[n]] + s[n + 1..]
    ensures s == s[..n] + [s[n]] + s[n + 1..]
  {
  }

  lemma JoinCons(w: string, ws: seq<string>)
    requires ws != []
    ensures Join([w] + ws) == w + " " + Join(ws)
  {
    assert ([w] + ws)[1..] == ws;
  }

  /** Canonical text that is more than one word: its first word, one space,
      and canonical text again. */
  lemma CanonicalStep(s: string, n: nat)
    requires Canonical(s) && s != []
    requires n == RunLength(s) && n < |s|
    ensures s == s[..n] + " " + s[n + 1..]
    ensures Split(s) == [s[..n]] + Split(s[n + 1..])
    ensures Canonical(s[n + 1..])
    ensures Split(s[n + 1..]) != []
  {
    var rest := s[n + 1..];
    CanonicalAfterSpace(s, n);
    SliceAt(s, n);
    SplitSpaceCons(s[n], rest);
  }

  lemma {:induction false} CanonicalIsCollapsed(s: string)
    requires Canonical(s)
    ensures Collapse(s) == s
    decreases |s|
  {
    if s != [] {
      var n := RunLength(s);
      if n == |s| {
        SplitWordCons(s, []);
        assert s + [] == s;
      } else {
        var w, rest := s[..n], s[n + 1..];
        CanonicalStep(s, n);
        CanonicalIsCollapsed(rest);
        JoinCons(w, Split(rest));
      }
    }
  }

  /** Collapsing whitespace leaves text unchanged exactly when it is already
      canonical. */
  lemma CollapseFixesCanonical(s: string)
    ensures Collapse(s) == s <==> Canonical(s)
  {
    if Canonical(s) {
      CanonicalIsCollapsed(s);
    }
  }
}
