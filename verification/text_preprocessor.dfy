/**
 * `TextPreprocessor` (text_preprocessor.py): a letter-only normaliser and the
 * ordered optional preprocessing passes built around it.
 */
module TextPreprocessor {
  import opened TextBasics

  /** What a `TextPreprocessor` loads once and never changes: the English
      stop-word set, the word tokenizer, the lemmatizer and the spelling
      corrector. The three functions are foreign models whose behaviour is
      not modelled. */
  datatype Preprocessor = Preprocessor(
    stopWords: set<string>,
    tokenize: string -> seq<string>,
    lemmatize: string -> string,
    correct: string -> string)

  /** The keyword flags of `process_text`, in the order of its signature. */
  datatype Flags = Flags(normalize: bool, removeStops: bool, lemmatize: bool, spellCheck: bool)

  /** `process_text`'s defaults: every pass on. */
  const DefaultFlags := Flags(true, true, true, true)

  const NoPasses := Flags(false, false, false, false)

  const NormalizeOnly := Flags(true, false, false, false)

  /** `re.sub(r'[^a-zA-Z\s]', '', s)`: every character that is neither an
      ASCII letter nor whitespace is deleted, and the letters and whitespace
      all stay, in order. */
  function KeepLettersAndSpace(s: string): (r: string)
    ensures forall i :: 0 <= i < |r| ==> IsLetter(r[i]) || IsSpace(r[i])
    ensures IsSubsequence(r, s)
    ensures forall c :: multiset(r)[c] == if IsLetter(c) || IsSpace(c) then multiset(s)[c] else 0
    ensures NonSpace(r) == Letters(s)
    ensures NoUpper(s) ==> NoUpper(r)
  {
    if s == [] then []
    else
      var rest := KeepLettersAndSpace(s[1..]);
      assert s == [s[0]] + s[1..];
      if IsLetter(s[0]) || IsSpace(s[0]) then [s[0]] + rest else rest
  }

  lemma {:induction false} KeepLettersAndSpaceFixes(s: string)
    requires forall i :: 0 <= i < |s| ==> IsLetter(s[i]) || IsSpace(s[i])
    ensures KeepLettersAndSpace(s) == s
    decreases |s|
  {
    if s != [] {
      KeepLettersAndSpaceFixes(s[1..]);
    }
  }

  lemma {:induction false} KeepLettersAndSpaceAppend(a: string, b: string)
    ensures KeepLettersAndSpace(a + b) == KeepLettersAndSpace(a) + KeepLettersAndSpace(b)
    decreases |a|
  {
    if a == [] {
      assert a + b == b;
    } else {
      assert (a + b)[0] == a[0];
      assert (a + b)[1..] == a[1..] + b;
      KeepLettersAndSpaceAppend(a[1..], b);
    }
  }

  /** On a whitespace-free word the filter keeps just its letters. */
  lemma {:induction false} KeepLettersOfWord(w: string)
    requires forall k :: 0 <= k < |w| ==> !IsSpace(w[k])
    ensures KeepLettersAndSpace(w) == Letters(w)
    decreases |w|
  {
    if w != [] {
      KeepLettersOfWord(w[1..]);
    }
  }

  /** The letters of each word, leaving out the words that have none. */
  function LetterWords(ws: seq<string>): (lws: seq<string>)
    ensures |lws| <= |ws|
    ensures forall i :: 0 <= i < |lws| ==> lws[i] != [] && forall k :: 0 <= k < |lws[i]| ==> IsLetter(lws[i][k])
  {
    if ws == [] then []
    else if Letters(ws[0]) == [] then LetterWords(ws[1..])
    else [Letters(ws[0])] + LetterWords(ws[1..])
  }

  /** A whitespace-free word followed by whitespace or nothing: the filter
      turns it into its letters, one word or none. */
  lemma KeepLettersWordThen(w: string, rest: string)
    requires IsWord(w)
    requires rest == [] || IsSpace(rest[0])
    ensures Split(KeepLettersAndSpace(w + rest))
      == (if Letters(w) == [] then [] else [Letters(w)]) + Split(KeepLettersAndSpace(rest))
  {
    var kr := KeepLettersAndSpace(rest);
    KeepLettersWordRest(w, rest);
    KeptSpaceFirst(rest);
    SplitLettersThen(Letters(w), kr);
  }

  lemma KeepLettersWordRest(w: string, rest: string)
    requires IsWord(w)
    ensures KeepLettersAndSpace(w + rest) == Letters(w) + KeepLettersAndSpace(rest)
  {
    KeepLettersAndSpaceAppend(w, rest);
    KeepLettersOfWord(w);
  }

  lemma SplitLettersThen(lw: string, kr: string)
    requires forall k :: 0 <= k < |lw| ==> IsLetter(lw[k])
    requires kr == [] || IsSpace(kr[0])
    ensures Split(lw + kr) == (if lw == [] then [] else [lw]) + Split(kr)
  {
    if lw != [] {
      SplitWordCons(lw, kr);
    } else {
      assert lw + kr == kr;
    }
  }

  lemma KeptSpaceFirst(rest: string)
    requires rest == [] || IsSpace(rest[0])
    ensures KeepLettersAndSpace(rest) == [] || IsSpace(KeepLettersAndSpace(rest)[0])
  {
  }

  /** Deleting the characters that are neither letters nor whitespace keeps
      the word structure: each word becomes its letters, words without
      letters disappear, and no two words run together. */
  lemma {:induction false} KeepLettersAndSpaceWords(s: string)
    ensures Split(KeepLettersAndSpace(s)) == LetterWords(Split(s))
    decreases |s|
  {
    if s != [] && IsSpace(s[0]) {
      KeepLettersAndSpaceWords(s[1..]);
      SplitSpaceCons(s[0], KeepLettersAndSpace(s[1..]));
    } else if s != [] {
      var n := RunLength(s);
      var w, rest := s[..n], s[n..];
      var lw := if Letters(w) == [] then [] else [Letters(w)];
      calc {
        Split(KeepLettersAndSpace(s));
        { SliceJoin(s, n); }
        Split(KeepLettersAndSpace(w + rest));
        { KeepLettersWordThen(w, rest); }
        lw + Split(KeepLettersAndSpace(rest));
        { KeepLettersAndSpaceWords(rest); }
        lw + LetterWords(Split(rest));
        { assert ([w] + Split(rest))[1..] == Split(rest); }
        LetterWords([w] + Split(rest));
        LetterWords(Split(s));
      }
    }
  }

  /** `normalize_text`: lower-case, drop everything but letters and
      whitespace, collapse whitespace runs to one space and trim. The result
      is made of lower-case letters and single inner spaces, and its words
      are the letters of the input's words, in order. */
  function NormalizeText(text: string): (r: string)
    ensures Canonical(r)
    ensures forall i :: 0 <= i < |r| ==> IsLower(r[i]) || r[i] == ' '
    ensures Split(r) == LetterWords(Split(Lower(text)))
  {
    var k := KeepLettersAndSpace(Lower(text));
    LowerSpec(text);
    CollapseChars(k);
    KeepLettersAndSpaceWords(Lower(text));
    SplitJoin(Split(k));
    Collapse(k)
  }

  /** The non-space characters of the normalised text are exactly the letters
      of the lower-cased input, in order; without letters it is empty. */
  lemma NormalizeTextLetters(text: string)
    ensures NonSpace(NormalizeText(text)) == Letters(Lower(text))
    ensures Letters(Lower(text)) == [] ==> NormalizeText(text) == []
  {
    if Letters(Lower(text)) == [] {
      CanonicalBlank(NormalizeText(text));
    }
  }

  /** Normalising twice is normalising once. */
  lemma NormalizeTextIdempotent(text: string)
    ensures NormalizeText(NormalizeText(text)) == NormalizeText(text)
  {
    var r := NormalizeText(text);
    assert NoUpper(r);
    calc {
      NormalizeText(r);
      Collapse(KeepLettersAndSpace(Lower(r)));
      { LowerSpec(r); }
      Collapse(KeepLettersAndSpace(r));
      { KeepLettersAndSpaceFixes(r); }
      Collapse(r);
      { CollapseFixesCanonical(r); }
      r;
    }
  }

  /** The comprehension of `remove_stopwords`: the tokens that are not stop
      words, every one of them, in order. */
  function DropStopWords(tokens: seq<string>, stopWords: set<string>): (kept: seq<string>)
    ensures forall i :: 0 <= i < |kept| ==> kept[i] !in stopWords
    ensures IsSubsequence(kept, tokens)
    ensures forall w :: w in kept ==> w in tokens
    ensures forall w :: multiset(kept)[w] == if w in stopWords then 0 else multiset(tokens)[w]
  {
    if tokens == [] then []
    else
      var rest := DropStopWords(tokens[1..], stopWords);
      assert tokens == [tokens[0]] + tokens[1..];
      if tokens[0] in stopWords then rest else [tokens[0]] + rest
  }

  /** `remove_stopwords`: tokenize, keep the non-stop tokens, join with
      spaces. With whitespace-free, non-empty tokens the output splits back
      into exactly the kept tokens. */
  function RemoveStopwords(p: Preprocessor, text: string): (r: string)
    ensures AllWords(p.tokenize(text)) ==> Split(r) == DropStopWords(p.tokenize(text), p.stopWords)
  {
    var tokens := p.tokenize(text);
    var kept := DropStopWords(tokens, p.stopWords);
    assert AllWords(tokens) ==> Split(Join(kept)) == kept by {
      if AllWords(tokens) {
        forall i | 0 <= i < |kept|
          ensures IsWord(kept[i])
        {
          assert kept[i] in tokens;
        }
        SplitJoin(kept);
      }
    }
    Join(kept)
  }

  /** The comprehension of `lemmatize_text`: one lemma per token, in token
      order. */
  function LemmatizeAll(tokens: seq<string>, lemmatize: string -> string): (lemmas: seq<string>)
    ensures |lemmas| == |tokens|
    ensures forall i :: 0 <= i < |tokens| ==> lemmas[i] == lemmatize(tokens[i])
  {
    if tokens == [] then [] else [lemmatize(tokens[0])] + LemmatizeAll(tokens[1..], lemmatize)
  }

  /** `lemmatize_text`: tokenize, lemmatize each token, join with spaces.
      With whitespace-free, non-empty lemmas the output splits back into
      exactly one lemma per token. */
  function LemmatizeText(p: Preprocessor, text: string): (r: string)
    ensures AllWords(LemmatizeAll(p.tokenize(text), p.lemmatize)) ==>
      Split(r) == LemmatizeAll(p.tokenize(text), p.lemmatize)
  {
    var lemmas := LemmatizeAll(p.tokenize(text), p.lemmatize);
    assert AllWords(lemmas) ==> Split(Join(lemmas)) == lemmas by {
      if AllWords(lemmas) {
        SplitJoin(lemmas);
      }
    }
    Join(lemmas)
  }

  /** The four passes, and the one order in which `process_text` runs them. */
  datatype Pass = Normalize | SpellCheck | RemoveStops | Lemmatize

  const PassOrder: seq<Pass> := [Normalize, SpellCheck, RemoveStops, Lemmatize]

  predicate Enabled(f: Flags, pass: Pass) {
    match pass
    case Normalize => f.normalize
    case SpellCheck => f.spellCheck
    case RemoveStops => f.removeStops
    case Lemmatize => f.lemmatize
  }

  /** The passes of `ps` that `f` enables, in the order of `ps`. */
  function EnabledAmong(f: Flags, ps: seq<Pass>): (on: seq<Pass>)
    ensures IsSubsequence(on, ps)
    ensures forall pass :: pass in on <==> pass in ps && Enabled(f, pass)
  {
    if ps == [] then []
    else
      var rest := EnabledAmong(f, ps[1..]);
      assert ps == [ps[0]] + ps[1..];
      if Enabled(f, ps[0]) then [ps[0]] + rest else rest
  }

  function ApplyPass(p: Preprocessor, pass: Pass, text: string): string {
    match pass
    case Normalize => NormalizeText(text)
    case SpellCheck => p.correct(text)
    case RemoveStops => RemoveStopwords(p, text)
    case Lemmatize => LemmatizeText(p, text)
  }

  /** Each pass of `ps` consumes the output of the one before it. */
  function RunPasses(p: Preprocessor, text: string, ps: seq<Pass>): string
    decreases |ps|
  {
    if ps == [] then text else RunPasses(p, ApplyPass(p, ps[0], text), ps[1..])
  }

  /** `process_text`: the enabled passes, always in the order normalize,
      spell-check, stop-word removal, lemmatize, each on the output of the
      previous enabled one. With every flag off the input comes back
      unchanged; with only normalisation on the result is the normalised
      text. */
  function ProcessText(p: Preprocessor, text: string, f: Flags): (r: string)
    ensures r == RunPasses(p, text, EnabledAmong(f, PassOrder))
    ensures f == NoPasses ==> r == text
    ensures f == NormalizeOnly ==> r == NormalizeText(text)
  {
    var normalized := if f.normalize then NormalizeText(text) else text;
    var corrected := if f.spellCheck then p.correct(normalized) else normalized;
    var filtered := if f.removeStops then RemoveStopwords(p, corrected) else corrected;
    var lemmatized := if f.lemmatize then LemmatizeText(p, filtered) else filtered;
    assert PassOrder[1..] == [SpellCheck, RemoveStops, Lemmatize];
    assert PassOrder[1..][1..] == [RemoveStops, Lemmatize];
    assert PassOrder[1..][1..][1..] == [Lemmatize];
    assert PassOrder[1..][1..][1..][1..] == [];
    calc {
      RunPasses(p, text, EnabledAmong(f, PassOrder));
      { RunEnabledStep(p, f, PassOrder, text); }
      RunPasses(p, normalized, EnabledAmong(f, PassOrder[1..]));
      { RunEnabledStep(p, f, PassOrder[1..], normalized); }
      RunPasses(p, corrected, EnabledAmong(f, PassOrder[1..][1..]));
      { RunEnabledStep(p, f, PassOrder[1..][1..], corrected); }
      RunPasses(p, filtered, EnabledAmong(f, PassOrder[1..][1..][1..]));
      { RunEnabledStep(p, f, PassOrder[1..][1..][1..], filtered); }
      RunPasses(p, lemmatized, EnabledAmong(f, []));
      lemmatized;
    }
    lemmatized
  }

  /** Running the enabled passes of `ps` is running its first pass (when
      enabled) and then the enabled passes of the rest. */
  lemma RunEnabledStep(p: Preprocessor, f: Flags, ps: seq<Pass>, text: string)
    requires ps != []
    ensures RunPasses(p, text, EnabledAmong(f, ps))
      == RunPasses(p, if Enabled(f, ps[0]) then ApplyPass(p, ps[0], text) else text, EnabledAmong(f, ps[1..]))
  {
    if Enabled(f, ps[0]) {
      assert ([ps[0]] + EnabledAmong(f, ps[1..]))[1..] == EnabledAmong(f, ps[1..]);
    }
  }
}
