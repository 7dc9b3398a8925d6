/**
 * `TextEnhancer` (text_enhancer.py): a normaliser that strips URLs and e-mail
 * addresses, the reshaping of the named-entity and sentiment model outputs,
 * and the assembly of the enhanced-text record.
 */
module TextEnhancer {
  import opened Wrappers
  import opened TextBasics
  import opened Patterns
  import opened TextBlob

  // ---------------------------------------------------------------------
  // `re.sub(r'http\S+|www.\S+', '', s)`
  // ---------------------------------------------------------------------

  /** The literal `http` of the first alternative. */
  predicate StartsHttp(s: string) {
    |s| >= 4 && s[0] == 'h' && s[1] == 't' && s[2] == 't' && s[3] == 'p'
  }

  /** `www.` of the second alternative: the unescaped dot matches any
      character but a line feed, a space included. */
  predicate StartsWww(s: string) {
    |s| >= 4 && s[0] == 'w' && s[1] == 'w' && s[2] == 'w' && s[3] != '\n'
  }

  /** Length of the URL match anchored at the start of `s`, 0 when there is
      none. Both alternatives end in a greedy `\S+`, so a match runs from the
      four-character head to the end of the whitespace-free run after it. */
  function UrlMatchLength(s: string): (n: nat)
    ensures n == 0 || (5 <= n <= |s| && (StartsHttp(s) || StartsWww(s)))
    ensures n > 0 ==> forall k :: 4 <= k < n ==> !IsSpace(s[k])
    ensures 0 < n < |s| ==> IsSpace(s[n])
    ensures n == 0 <==> !(|s| >= 5 && (StartsHttp(s) || StartsWww(s)) && !IsSpace(s[4]))
  {
    if |s| >= 5 && (StartsHttp(s) || StartsWww(s)) && !IsSpace(s[4]) then 4 + RunLength(s[4..]) else 0
  }

  /** The substitution: scanning left to right, a match is deleted and the
      scan resumes after it; otherwise one character is kept. */
  function StripUrls(s: string): (r: string)
    ensures |r| <= |s|
    ensures NoUpper(s) ==> NoUpper(r)
    ensures s != [] && IsSpace(s[0]) ==> r != [] && r[0] == s[0]
    decreases |s|
  {
    if s == [] then []
    else
      var n := UrlMatchLength(s);
      if n > 0 then StripUrls(s[n..]) else [s[0]] + StripUrls(s[1..])
  }

  /** `http` followed by a non-whitespace character. */
  const HttpPattern: seq<Glyph> := [Exactly('h'), Exactly('t'), Exactly('t'), Exactly('p'), NonBlank]

  /** A whitespace-free prefix of the output is a prefix of the input: a
      deletion always stops at whitespace or at the end. */
  lemma {:induction false} StripUrlsPrefix(s: string, k: nat)
    requires k <= |StripUrls(s)|
    requires forall j :: 0 <= j < k ==> !IsSpace(StripUrls(s)[j])
    ensures k <= |s| && forall j :: 0 <= j < k ==> StripUrls(s)[j] == s[j]
    decreases |s|
  {
    // A deletion leaves the output empty or starting with whitespace, so
    // for k > 0 the first character was kept.
    if s != [] && k > 0 && UrlMatchLength(s) == 0 {
      var rest := StripUrls(s[1..]);
      assert StripUrls(s) == [s[0]] + rest;
      forall j | 0 <= j < k - 1
        ensures !IsSpace(rest[j])
      {
        assert rest[j] == StripUrls(s)[j + 1];
      }
      StripUrlsPrefix(s[1..], k - 1);
    }
  }

  /** No `http` followed by a non-whitespace character survives the URL
      substitution. */
  lemma {:induction false} StripUrlsAvoidsHttp(s: string)
    ensures Avoids(StripUrls(s), HttpPattern)
    decreases |s|
  {
    if s != [] {
      var n := UrlMatchLength(s);
      if n > 0 {
        StripUrlsAvoidsHttp(s[n..]);
      } else {
        StripUrlsAvoidsHttp(s[1..]);
        NoHttpAtStart(s);
        var r := StripUrls(s);
        var rest := StripUrls(s[1..]);
        assert r == [s[0]] + rest;
        forall i | 1 <= i < |r|
          ensures !OccursAt(r, i, HttpPattern)
        {
          ShiftOccurrence(r, rest, s[0], i, HttpPattern);
        }
      }
    }
  }

  lemma ShiftOccurrence(r: string, rest: string, c: char, i: int, pat: seq<Glyph>)
    requires r == [c] + rest
    requires 1 <= i
    ensures OccursAt(r, i, pat) ==> OccursAt(rest, i - 1, pat)
  {
    if OccursAt(r, i, pat) {
      forall k | 0 <= k < |pat|
        ensures Fits(pat[k], rest[i - 1 + k])
      {
        assert r[i + k] == rest[i - 1 + k];
      }
    }
  }

  /** Where the scan keeps the first character, the output does not start
      with `http` and a non-whitespace character. */
  lemma NoHttpAtStart(s: string)
    requires s != [] && UrlMatchLength(s) == 0
    ensures !OccursAt(StripUrls(s), 0, HttpPattern)
  {
    var r := StripUrls(s);
    if OccursAt(r, 0, HttpPattern) {
      assert forall j :: 0 <= j < 5 ==> Fits(HttpPattern[j], r[j]);
      StripUrlsPrefix(s, 5);
      assert false;
    }
  }

  /** No URL match starts at any position of `s`. */
  predicate UrlFree(s: string) {
    forall i :: 0 <= i < |s| ==> UrlMatchLength(s[i..]) == 0
  }

  /** Text before the first match passes the substitution whole: when no
      match starts at any of the first `|a|` positions of `a + b`, the output
      is `a` followed by the output for `b`. */
  lemma {:induction false} StripUrlsKeepsPrefix(a: string, b: string)
    requires forall i :: 0 <= i < |a| ==> UrlMatchLength((a + b)[i..]) == 0
    ensures StripUrls(a + b) == a + StripUrls(b)
    decreases |a|
  {
    if a == [] {
      assert a + b == b;
    } else {
      var t := a + b;
      assert t[1..] == a[1..] + b;
      forall i | 0 <= i < |a[1..]|
        ensures UrlMatchLength((a[1..] + b)[i..]) == 0
      {
        assert (a[1..] + b)[i..] == t[i + 1..];
      }
      assert t[0..] == t;
      calc {
        StripUrls(t);
        [a[0]] + StripUrls(a[1..] + b);
        { StripUrlsKeepsPrefix(a[1..], b); }
        [a[0]] + (a[1..] + StripUrls(b));
        { assert a == [a[0]] + a[1..]; }
        a + StripUrls(b);
      }
    }
  }

  /** Text in which no match starts is left unchanged. */
  lemma StripUrlsKeeps(s: string)
    requires UrlFree(s)
    ensures StripUrls(s) == s
  {
    assert s + [] == s;
    StripUrlsKeepsPrefix(s, []);
  }

  /** A URL match is deleted whole and the scan resumes right after it. The
      match `u` is `http` or `www` with one more character that is not a line
      feed, then a whitespace-free run, ended by whitespace or the end. */
  lemma StripUrlsDropsMatch(u: string, b: string)
    requires |u| >= 5 && (StartsHttp(u) || StartsWww(u))
    requires forall k :: 4 <= k < |u| ==> !IsSpace(u[k])
    requires b == [] || IsSpace(b[0])
    ensures StripUrls(u + b) == StripUrls(b)
  {
    var t := u + b;
    assert t[..4] == u[..4];
    assert t[4] == u[4];
    assert forall k :: 4 <= k < |u| ==> t[k] == u[k];
    assert b != [] ==> t[|u|] == b[0];
    var n := UrlMatchLength(t);
    assert n == |u|;
    assert t[n..] == b;
  }

  /** The substitution around one URL match: the text `a` before it, in
      which no match starts, is kept whole; the match `u` is deleted; the
      scan goes on with the text `b` after it. */
  lemma StripUrlsAtMatch(a: string, u: string, b: string)
    requires forall i :: 0 <= i < |a| ==> UrlMatchLength((a + u + b)[i..]) == 0
    requires |u| >= 5 && (StartsHttp(u) || StartsWww(u))
    requires forall k :: 4 <= k < |u| ==> !IsSpace(u[k])
    requires b == [] || IsSpace(b[0])
    ensures StripUrls(a + u + b) == a + StripUrls(b)
  {
    assert a + u + b == a + (u + b);
    StripUrlsKeepsPrefix(a, u + b);
    StripUrlsDropsMatch(u, b);
  }

  /** A match starts with `h` or `w`. */
  lemma NoUrlHead(s: string)
    requires s != [] && s[0] != 'h' && s[0] != 'w'
    ensures UrlMatchLength(s) == 0
  {
  }

  /** `a http:x b` loses only its URL and keeps both spaces. */
  lemma StripUrlsOneMatch()
    ensures StripUrls("a http:x b") == "a  b"
  {
    var a, u, b := "a ", "http:x", " b";
    var t := a + u + b;
    assert t == "a http:x b";
    forall i | 0 <= i < |a|
      ensures UrlMatchLength(t[i..]) == 0
    {
      assert t[i..][0] == a[i];
      NoUrlHead(t[i..]);
    }
    StripUrlsAtMatch(a, u, b);
    StripUrlsShort(b);
    assert a + b == "a  b";
  }

  // ---------------------------------------------------------------------
  // `re.sub(r'\S+@\S+', '', s)`
  // ---------------------------------------------------------------------

  /** `w` has an `@` with at least one character before it and one after. */
  predicate HasInnerAt(w: string) {
    exists p :: 0 < p < |w| - 1 && w[p] == '@'
  }

  /** The first `m` characters of `s` are non-whitespace. */
  predicate SpaceFreePrefix(s: string, m: nat) {
    m <= |s| && forall k :: 0 <= k < m ==> !IsSpace(s[k])
  }

  /** Length of the e-mail match anchored at the start of `s`, 0 when there
      is none. In the regex's terms: a match is a whitespace-free stretch with
      an `@` that has at least one character before it (the leading `\S+`)
      and one after it (the trailing `\S+`); the trailing `\S+` is greedy,
      so the match runs to whitespace or to the end. Where no `@` of the
      leading whitespace-free stretch has a character on both sides, nothing
      matches. */
  function EmailMatchLength(s: string): (n: nat)
    ensures n > 0 ==> SpaceFreePrefix(s, n) && (n == |s| || IsSpace(s[n]))
    ensures n > 0 ==> exists p :: 0 < p < n - 1 && s[p] == '@'
    ensures n == 0 ==> forall p :: 0 < p && SpaceFreePrefix(s, p + 2) ==> s[p] != '@'
  {
    var e := RunLength(s);
    EmailRunShape(s);
    if HasInnerAt(s[..e]) then e else 0
  }

  /** An `@` inside the leading whitespace-free run is one the regex can use,
      and every `@` the regex can use lies inside that run. */
  lemma EmailRunShape(s: string)
    ensures var e := RunLength(s);
      HasInnerAt(s[..e]) ==> exists p :: 0 < p < e - 1 && s[p] == '@'
    ensures var e := RunLength(s);
      !HasInnerAt(s[..e]) ==> forall p :: 0 < p && SpaceFreePrefix(s, p + 2) ==> s[p] != '@'
  {
    var e := RunLength(s);
    var w := s[..e];
    if HasInnerAt(w) {
      var p :| 0 < p < |w| - 1 && w[p] == '@';
      assert s[p] == '@';
    } else {
      forall p | 0 < p && SpaceFreePrefix(s, p + 2)
        ensures s[p] != '@'
      {
        assert w[p] == s[p];
      }
    }
  }

  /** The substitution, scanning left to right as `StripUrls` does. */
  function StripEmails(s: string): (r: string)
    ensures |r| <= |s|
    ensures NoUpper(s) ==> NoUpper(r)
    ensures s != [] && IsSpace(s[0]) ==> r != [] && r[0] == s[0]
    decreases |s|
  {
    if s == [] then []
    else
      var n := EmailMatchLength(s);
      if n > 0 then StripEmails(s[n..]) else [s[0]] + StripEmails(s[1..])
  }

  /** The words without an inner `@`, in order. */
  function WordsWithoutAt(ws: seq<string>): (kept: seq<string>)
    ensures forall i :: 0 <= i < |kept| ==> kept[i] in ws && !HasInnerAt(kept[i])
    ensures forall w :: w in ws && !HasInnerAt(w) ==> w in kept
    ensures IsSubsequence(kept, ws)
    ensures forall w :: multiset(kept)[w] == if HasInnerAt(w) then 0 else multiset(ws)[w]
  {
    if ws == [] then []
    else
      var rest := WordsWithoutAt(ws[1..]);
      assert ws == [ws[0]] + ws[1..];
      if HasInnerAt(ws[0]) then rest else [ws[0]] + rest
  }

  /** A word without an inner `@`, followed by whitespace or nothing, passes
      the e-mail substitution untouched; no match can start inside it. */
  lemma {:induction false} StripEmailsKeepsWord(w: string, rest: string)
    requires IsWord(w) && !HasInnerAt(w)
    requires rest == [] || IsSpace(rest[0])
    ensures StripEmails(w + rest) == w + StripEmails(rest)
    decreases |w|
  {
    var t := w + rest;
    NoEmailAtWord(w, rest);
    assert t[1..] == w[1..] + rest;
    if |w| > 1 {
      InnerAtOfTail(w);
      calc {
        StripEmails(t);
        [w[0]] + StripEmails(w[1..] + rest);
        { StripEmailsKeepsWord(w[1..], rest); }
        [w[0]] + (w[1..] + StripEmails(rest));
        { assert w == [w[0]] + w[1..]; }
        w + StripEmails(rest);
      }
    } else {
      assert w[1..] + rest == rest;
      assert w == [w[0]];
    }
  }

  lemma NoEmailAtWord(w: string, rest: string)
    requires IsWord(w) && !HasInnerAt(w)
    requires rest == [] || IsSpace(rest[0])
    ensures (w + rest)[0] == w[0]
    ensures EmailMatchLength(w + rest) == 0
  {
    var t := w + rest;
    RunLengthOfWord(w, rest);
    assert t[..|w|] == w;
  }

  lemma InnerAtOfTail(w: string)
    requires |w| > 1
    ensures HasInnerAt(w[1..]) ==> HasInnerAt(w)
  {
    if HasInnerAt(w[1..]) {
      var p :| 0 < p < |w[1..]| - 1 && w[1..][p] == '@';
      assert w[p + 1] == '@';
    }
  }

  /** The e-mail substitution deletes exactly the whitespace-delimited words
      that have an inner `@`, and keeps every other word whole. */
  lemma {:induction false} StripEmailsWords(s: string)
    ensures Split(StripEmails(s)) == WordsWithoutAt(Split(s))
    decreases |s|
  {
    if s != [] && IsSpace(s[0]) {
      StripEmailsWords(s[1..]);
      SplitSpaceCons(s[0], StripEmails(s[1..]));
    } else if s != [] {
      var n := RunLength(s);
      var w, rest := s[..n], s[n..];
      assert Split(s) == [w] + Split(rest);
      StripEmailsWords(rest);
      if HasInnerAt(w) {
        assert StripEmails(s) == StripEmails(rest);
      } else {
        SliceJoin(s, n);
        StripEmailsKeepsWord(w, rest);
        SplitWordCons(w, StripEmails(rest));
      }
    }
  }

  // ---------------------------------------------------------------------
  // `normalize_text`
  // ---------------------------------------------------------------------

  /** `normalize_text`: lower-case, delete URL matches, then e-mail matches,
      then collapse whitespace runs to single spaces and trim. The result is
      the words left after URL removal, less those with an inner `@`, joined
      by single spaces: no whitespace at either end, one space between
      words, and no upper-case letter. */
  function NormalizeText(text: string): (r: string)
    ensures r == Join(WordsWithoutAt(Split(StripUrls(Lower(text)))))
    ensures Canonical(r)
    ensures NoUpper(r)
  {
    var u := StripUrls(Lower(text));
    StripEmailsWords(u);
    LowerSpec(text);
    CollapseChars(StripEmails(u));
    Collapse(StripEmails(u))
  }

  /** Lower-cased text in which no URL match starts loses only its words
      with an inner `@`; every other word comes through whole, in order. */
  lemma NormalizeTextUrlFree(text: string)
    requires UrlFree(Lower(text))
    ensures NormalizeText(text) == Join(WordsWithoutAt(Split(Lower(text))))
  {
    StripUrlsKeeps(Lower(text));
  }

  /** An `@` with a non-whitespace character on either side. */
  const EmailPattern: seq<Glyph> := [NonBlank, Exactly('@'), NonBlank]

  lemma HttpPatternSolid()
    ensures Solid(HttpPattern)
  {
    assert forall k :: 0 <= k < 5 ==> !Fits(HttpPattern[k], ' ');
  }

  lemma EmailPatternSolid()
    ensures Solid(EmailPattern)
  {
    assert forall k :: 0 <= k < 3 ==> !Fits(EmailPattern[k], ' ');
  }

  /** A solid pattern absent before the e-mail substitution is absent after
      it and the collapse. */
  lemma KeptWordsAvoid(x: string, pat: seq<Glyph>)
    requires Solid(pat) && Avoids(x, pat)
    ensures Avoids(Join(WordsWithoutAt(Split(x))), pat)
  {
    SplitAvoids(x, pat);
    JoinAvoids(WordsWithoutAt(Split(x)), pat);
  }

  /** No `http` immediately followed by a non-whitespace character. */
  lemma NormalizeTextNoHttp(text: string)
    ensures Avoids(NormalizeText(text), HttpPattern)
  {
    StripUrlsAvoidsHttp(Lower(text));
    HttpPatternSolid();
    KeptWordsAvoid(StripUrls(Lower(text)), HttpPattern);
  }

  lemma EmailOccurrenceHasAt(w: string, i: int)
    ensures OccursAt(w, i, EmailPattern) ==> 0 < i + 1 < |w| - 1 && w[i + 1] == '@'
  {
    if OccursAt(w, i, EmailPattern) {
      assert Fits(EmailPattern[1], w[i + 1]);
    }
  }

  lemma WordWithoutAtAvoidsEmail(w: string)
    requires !HasInnerAt(w)
    ensures Avoids(w, EmailPattern)
  {
    forall i | 0 <= i < |w|
      ensures !OccursAt(w, i, EmailPattern)
    {
      EmailOccurrenceHasAt(w, i);
    }
  }

  /** No `@` has a non-whitespace character on both sides. */
  lemma NormalizeTextNoEmail(text: string)
    ensures Avoids(NormalizeText(text), EmailPattern)
  {
    var kept := WordsWithoutAt(Split(StripUrls(Lower(text))));
    forall i | 0 <= i < |kept|
      ensures Avoids(kept[i], EmailPattern)
    {
      WordWithoutAtAvoidsEmail(kept[i]);
    }
    EmailPatternSolid();
    JoinAvoids(kept, EmailPattern);
  }

  /** Text shorter than five characters holds no URL match. */
  lemma {:induction false} StripUrlsShort(s: string)
    requires |s| < 5
    ensures StripUrls(s) == s
    decreases |s|
  {
    if s != [] {
      StripUrlsShort(s[1..]);
      assert s == [s[0]] + s[1..];
    }
  }

  lemma NoAtInRun(s: string)
    requires forall k :: 0 <= k < |s| ==> s[k] != '@'
    ensures EmailMatchLength(s) == 0
  {
    var w := s[..RunLength(s)];
    assert forall k :: 0 <= k < |w| ==> w[k] != '@';
  }

  /** Text without `@` holds no e-mail match. */
  lemma {:induction false} StripEmailsNoAt(s: string)
    requires forall k :: 0 <= k < |s| ==> s[k] != '@'
    ensures StripEmails(s) == s
    decreases |s|
  {
    if s != [] {
      NoAtInRun(s);
      calc {
        StripEmails(s);
        [s[0]] + StripEmails(s[1..]);
        { StripEmailsNoAt(s[1..]); }
        [s[0]] + s[1..];
        s;
      }
    }
  }

  /** Plain words come through the normaliser whole. */
  lemma NormalizePlainWords()
    ensures NormalizeText("hello world") == "hello world"
  {
    var a, ws := "hello world", ["hello", "world"];
    calc {
      NormalizeText(a);
      { PlainLower(a); PlainUrlFree(a); NormalizeTextUrlFree(a); }
      Join(WordsWithoutAt(Split(a)));
      { PlainWords(a, ws); }
      Join(WordsWithoutAt(ws));
      { PlainWords(a, ws); }
      Join(ws);
      { PlainWords(a, ws); }
      a;
    }
  }

  lemma PlainLower(a: string)
    requires a == "hello world"
    ensures Lower(a) == a
  {
    assert NoUpper(a);
    LowerSpec(a);
  }

  lemma PlainUrlFree(a: string)
    requires a == "hello world"
    ensures UrlFree(a)
  {
    forall i | 0 <= i < |a|
      ensures UrlMatchLength(a[i..]) == 0
    {
      var t := a[i..];
      if |t| >= 5 {
        assert t[0] == a[i] && t[1] == a[i + 1] && t[2] == a[i + 2];
      }
    }
  }

  lemma PlainWords(a: string, ws: seq<string>)
    requires a == "hello world" && ws == ["hello", "world"]
    ensures Join(ws) == a
    ensures Split(a) == ws
    ensures WordsWithoutAt(ws) == ws
  {
    PlainJoin(a, ws);
    PlainAllWords(ws);
    SplitJoin(ws);
    PlainNoAt(ws);
  }

  lemma PlainJoin(a: string, ws: seq<string>)
    requires a == "hello world" && ws == ["hello", "world"]
    ensures Join(ws) == a
  {
    assert ws[1..] == ["world"];
    assert Join(ws) == ws[0] + " " + Join(ws[1..]);
  }

  lemma PlainAllWords(ws: seq<string>)
    requires ws == ["hello", "world"]
    ensures AllWords(ws)
  {
    assert IsWord(ws[0]) && IsWord(ws[1]);
  }

  lemma PlainNoAt(ws: seq<string>)
    requires ws == ["hello", "world"]
    ensures WordsWithoutAt(ws) == ws
  {
    assert !HasInnerAt(ws[0]) && !HasInnerAt(ws[1]);
    var tail := ws[1..];
    assert tail[1..] == [];
    calc {
      WordsWithoutAt(ws);
      [ws[0]] + WordsWithoutAt(tail);
      [ws[0]] + ([tail[0]] + WordsWithoutAt([]));
      ws;
    }
  }

  /** The line feed stops `www.`, and nothing else can match. */
  lemma NormalizeLineFeed()
    ensures NormalizeText("www\nx") == "www x"
  {
    var a := "www\nx";
    calc {
      NormalizeText(a);
      Collapse(StripEmails(StripUrls(Lower(a))));
      { assert NoUpper(a); LowerSpec(a); }
      Collapse(StripEmails(StripUrls(a)));
      { StripNothing(a); }
      Join(Split(a));
      { SplitLineFeed(a); }
      Join(["www", "x"]);
      "www x";
    }
  }

  lemma StripNothing(a: string)
    requires a == "www\nx"
    ensures StripEmails(StripUrls(a)) == a
  {
    assert UrlMatchLength(a) == 0;
    assert a[1..] == "ww\nx";
    StripUrlsShort(a[1..]);
    assert StripUrls(a) == a;
    StripEmailsNoAt(a);
  }

  lemma SplitLineFeed(a: string)
    requires a == "www\nx"
    ensures Split(a) == ["www", "x"]
  {
    assert a == "www" + "\nx";
    SplitWordCons("www", "\nx");
    SplitSpaceCons('\n', "x");
    SplitWordCons("x", []);
    assert "x" + [] == "x";
  }

  /** The unescaped dot of `www.` matches a space: `www x` is one URL. */
  lemma NormalizeSpacedWww()
    ensures NormalizeText("www x") == ""
  {
    var b := "www x";
    LowerSpec(b);
    assert UrlMatchLength(b) == 5;
    assert StripUrls(b) == StripUrls(b[5..]);
    assert b[5..] == [];
  }

  /** The normaliser is not idempotent: collapsing turns the line feed of
      "www\nx" into a space, which the unescaped dot of `www.` then
      matches. */
  lemma NormalizeTextNotIdempotent()
    ensures NormalizeText(NormalizeText("www\nx")) != NormalizeText("www\nx")
  {
    NormalizeLineFeed();
    NormalizeSpacedWww();
  }

  // ---------------------------------------------------------------------
  // Model outputs and the enhanced-text record
  // ---------------------------------------------------------------------

  /** One item of the NER pipeline's output, by the keys it is read with. */
  datatype NerToken = NerToken(word: string, entity: string, start: int, end: int)

  /** One record of `extract_entities`. */
  datatype Entity = Entity(text: string, entityLabel: string, start: int, end: int)

  /** One `{'label', 'score'}` item of the sentiment classifier's output. */
  datatype LabelScore = LabelScore(sentimentLabel: string, score: real)

  /** The mapping `analyze_sentiment` returns when it succeeds. */
  datatype Sentiment = Sentiment(textblob: Scores, transformer: LabelScore)

  /** A (token, tag) pair of the part-of-speech tagger. */
  datatype PosTag = PosTag(token: string, tag: string)

  /** The models a `TextEnhancer` calls. Each is a foreign model whose
      behaviour is not modelled; `None` stands for a call that raised. */
  datatype Models = Models(
    ner: string -> Option<seq<NerToken>>,
    blob: string -> Option<Scores>,
    classifier: string -> Option<seq<LabelScore>>,
    tagger: string -> Option<seq<PosTag>>)

  /** The result mapping of `enhance_text`; `sentiment` is `None` where the
      source stores the empty mapping `{}`. */
  datatype Enhanced = Enhanced(
    originalText: string,
    normalizedText: string,
    entities: seq<Entity>,
    sentiment: Option<Sentiment>,
    tokens: seq<string>,
    posTags: seq<PosTag>)

  /** The neutral sentiment `enhance_text` starts from. */
  const NeutralSentiment := Sentiment(Scores(0.0, 0.0), LabelScore("NEUTRAL", 0.0))

  /** The comprehension of `extract_entities`: one record per pipeline item,
      in order, with its keys renamed. */
  function FormatEntities(items: seq<NerToken>): (ents: seq<Entity>)
    ensures |ents| == |items|
    ensures forall i :: 0 <= i < |items| ==>
      && ents[i].text == items[i].word
      && ents[i].entityLabel == items[i].entity
      && ents[i].start == items[i].start
      && ents[i].end == items[i].end
  {
    if items == [] then []
    else
      var t := items[0];
      [Entity(t.word, t.entity, t.start, t.end)] + FormatEntities(items[1..])
  }

  /** `extract_entities`: the reshaped pipeline output, `[]` if it raised. */
  function ExtractEntities(m: Models, text: string): (ents: seq<Entity>)
    ensures m.ner(text).None? ==> ents == []
    ensures m.ner(text).Some? ==> ents == FormatEntities(m.ner(text).value)
  {
    match m.ner(text)
    case None => []
    case Some(items) => FormatEntities(items)
  }

  /** `analyze_sentiment`: `None` when TextBlob or the classifier raises, or
      when the classifier's list is empty (the `[0]` raises). */
  function AnalyzeSentiment(m: Models, text: string): (r: Option<Sentiment>)
    ensures r.Some? <==>
      m.blob(text).Some? && m.classifier(text).Some? && m.classifier(text).value != []
    ensures r.Some? ==>
      r.value.textblob == m.blob(text).value && r.value.transformer == m.classifier(text).value[0]
  {
    match m.blob(text)
    case None => None
    case Some(b) =>
      match m.classifier(text)
      case None => None
      case Some(labels) => if labels == [] then None else Some(Sentiment(b, labels[0]))
  }

  /** `get_pos_tags`: the tagger's pairs, `[]` if it raised. */
  function GetPosTags(m: Models, text: string): (tags: seq<PosTag>)
    ensures m.tagger(text).None? ==> tags == []
    ensures m.tagger(text).Some? ==> tags == m.tagger(text).value
  {
    match m.tagger(text)
    case None => []
    case Some(tags) => tags
  }

  /** `[token for token, _ in pos_tags]`. */
  function Tokens(tags: seq<PosTag>): (tokens: seq<string>)
    ensures |tokens| == |tags|
    ensures forall i :: 0 <= i < |tags| ==> tokens[i] == tags[i].token
  {
    if tags == [] then [] else [tags[0].token] + Tokens(tags[1..])
  }

  /** What `enhance_text` returns for `text`. Every analysis reads the
      original text; a failing analysis leaves its own fallback and every
      other field filled. */
  function Enhancement(m: Models, text: string): (e: Enhanced)
    ensures e.originalText == text
    ensures e.normalizedText == NormalizeText(text)
    ensures e.entities == ExtractEntities(m, text)
    ensures e.sentiment == AnalyzeSentiment(m, text)
    ensures e.posTags == GetPosTags(m, text)
    ensures |e.tokens| == |e.posTags| && forall i :: 0 <= i < |e.tokens| ==> e.tokens[i] == e.posTags[i].token
    ensures m.ner(text).None? ==> e.entities == []
    ensures m.tagger(text).None? ==> e.posTags == [] && e.tokens == []
    ensures m.blob(text).None? || m.classifier(text).None? ==> e.sentiment.None?
  {
    var tags := GetPosTags(m, text);
    Enhanced(text, NormalizeText(text), ExtractEntities(m, text), AnalyzeSentiment(m, text), Tokens(tags), tags)
  }

  /** `enhance_text`: start from the default record, then overwrite its
      fields one analysis at a time. */
  method EnhanceText(m: Models, text: string) returns (result: Enhanced)
    ensures result == Enhancement(m, text)
  {
    result := Enhanced(text, text, [], Some(NeutralSentiment), [], []);
    result := result.(normalizedText := NormalizeText(text));
    result := result.(entities := ExtractEntities(m, text));
    result := result.(sentiment := AnalyzeSentiment(m, text));
    result := result.(posTags := GetPosTags(m, text));
    result := result.(tokens := Tokens(result.posTags));
  }
}
