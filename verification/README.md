# Text analytics core, modelled in Dafny

This project models the core of a small text-analytics tool:

- **`TextPreprocessor`** has a letter-only normaliser. Around it sit four optional preprocessing passes: normalise, spell-check, stop-word removal and lemmatisation. They always run in that order.
- **`TextEnhancer`** has a second normaliser, which strips URLs and e-mail addresses. It also reshapes the named-entity and sentiment model outputs, and assembles the enhanced-text record.
- **`TextAnalyzer`** groups recognised entities by label and turns a polarity into a sentiment label.
- **`process_dataset`** builds one detailed record per input row, then one summary row per record.

The NLP models are not modelled. These are the tokenizer, lemmatizer, stop-word list, spelling corrector, entity recognisers, sentiment scorers and part-of-speech tagger. Each one is a function-valued field of a handle datatype: `Preprocessor`, `Models` or `Analyzer`. The models of `Models` are the ones whose exceptions `text_enhancer.py` catches; each returns an `Option`, and `None` stands for the exception. The models of `Preprocessor` and `Analyzer` are total functions: their exceptions are not modelled (see "Left out").

Modules:

- `Wrappers`: `Option`.
- `TextBasics`: ASCII character classes, lower-casing, and `str.split()` / `' '.join(...)` as `Split` / `Join`. It also proves their laws: split-of-join, canonical form, and that collapsing whitespace is idempotent.
- `Patterns`: short glyph patterns, with the proofs that a pattern that cannot span a space stays absent when text is split into words and when words are joined.
- `TextBlob`: TextBlob's (polarity, subjectivity) scores, shared by the enhancer and the analyzer.
- `TextPreprocessor`, `TextEnhancer`, `TextAnalyzer`, `ProcessDataset`: one per source file.

Text is ASCII:

- Lower-casing maps `A`–`Z` to `a`–`z`.
- Whitespace is Python's ASCII whitespace for `str.split()` and the regex class `\s`. That is tab, line feed, vertical tab, form feed, carriage return, the separators 0x1C–0x1F, and space.

The two regex substitutions of the enhancer's normaliser are modelled as `re.sub` performs them. The scan goes left to right. Where a match is anchored at the current position, the match is deleted and the scan resumes after it. Otherwise one character is kept. Consequences of the regexes, as written:

- `\S+@\S+` deletes exactly the whitespace-delimited words that have an `@` with a character on both sides (`StripEmailsWords`).
- The unescaped dot of `www.\S+` also matches a space. So `www x` is one URL match (`NormalizeSpacedWww`).
- The enhancer's normaliser is therefore not idempotent. `www\nx` normalises to `www x`, which normalises to the empty string (`NormalizeTextNotIdempotent`).

## Model

| member | source | states |
|---|---|---|
| TextBasics.Lower | text_preprocessor.py:24 | `str.lower()` on ASCII keeps the length and lowers each character in place |
| TextBasics.LowerSpec | text_enhancer.py:43 | lower-cased text has no upper-case letter, and text without one is unchanged |
| TextBasics.RunLength | text_preprocessor.py:28 | the leading whitespace-free run ends at whitespace or at the end of the text |
| TextBasics.Split | text_preprocessor.py:28 | every piece `str.split()` yields is a non-empty run without whitespace |
| TextBasics.Join | text_preprocessor.py:28 | `' '.join(ws)` starts with the first word, followed by a space when there are more; `SplitJoin` and `JoinCanonical` give its meaning |
| TextBasics.SplitJoin | text_preprocessor.py:28 | splitting the space-join of words gives back exactly those words |
| TextBasics.Collapse | text_preprocessor.py:28 | `' '.join(s.split())` has the same words as `s` (`Split` of the result is `Split(s)`), has no whitespace at either end and exactly one space between words, and keeps every non-whitespace character in order |
| TextBasics.CollapseIdempotent | text_preprocessor.py:28 | `' '.join(s.split())` applied twice equals applying it once |
| TextBasics.JoinCanonical | text_preprocessor.py:28 | joining words gives text with no whitespace at the ends, single spaces only, and it is empty iff there are no words |
| TextBasics.CollapseFixesCanonical | text_enhancer.py:49 | collapsing leaves a text unchanged iff it is already in that canonical form |
| TextBasics.CollapseChars | text_enhancer.py:49 | each character of collapsed text is a space or a non-whitespace character of the input |
| Patterns.SplitAvoids | text_enhancer.py:49 | a pattern absent from a text is absent from each of its words |
| Patterns.JoinAvoids | text_enhancer.py:49 | such a pattern absent from every word is absent from their space-join |
| TextPreprocessor.KeepLettersAndSpace | text_preprocessor.py:26 | `re.sub(r'[^a-zA-Z\s]', '', s)` is the subsequence of `s` holding every letter and every whitespace character, each as often as in `s`, and nothing else; its non-whitespace characters are exactly the letters of `s` in order |
| TextPreprocessor.LetterWords | text_preprocessor.py:26-28 | each word's letters, leaving out words without letters; every result is a non-empty run of letters |
| TextPreprocessor.KeepLettersAndSpaceWords | text_preprocessor.py:26 | the words after the deletion are the letters of each word before it, in order, with letter-less words gone and no two words joined |
| TextPreprocessor.NormalizeText | text_preprocessor.py:19-29 | the normalised text holds only `a`–`z` and single inner spaces, with none at the ends, and its words are the letters of the lower-cased input's words, in order |
| TextPreprocessor.NormalizeTextLetters | text_preprocessor.py:24-28 | the non-space characters of the normalised text are exactly the letters of the lower-cased input, in order; with no letters the result is empty |
| TextPreprocessor.NormalizeTextIdempotent | text_preprocessor.py:19-29 | normalising twice equals normalising once |
| TextPreprocessor.DropStopWords | text_preprocessor.py:36 | no kept token is a stop word; the kept tokens are an order-preserving subsequence of the tokens; each non-stop token is kept as often as it occurs |
| TextPreprocessor.RemoveStopwords | text_preprocessor.py:31-37 | with whitespace-free tokens, the output splits back into exactly the kept tokens |
| TextPreprocessor.LemmatizeAll | text_preprocessor.py:44 | one lemma per token, in token order |
| TextPreprocessor.LemmatizeText | text_preprocessor.py:39-45 | with whitespace-free lemmas, the output splits back into exactly one lemma per token |
| TextPreprocessor.EnabledAmong | text_preprocessor.py:58-65 | the enabled passes are a subsequence of the fixed order and contain exactly the passes whose flag is on |
| TextPreprocessor.ProcessText | text_preprocessor.py:53-66 | `process_text` equals running the enabled passes in the fixed order normalise, spell-check, stop-words, lemmatise, each on the previous output; with all flags off the input comes back unchanged; with only normalisation on the result is the normalised text |
| TextEnhancer.UrlMatchLength | text_enhancer.py:45 | a URL match starts with `http` or `www` plus a non-line-feed character, is followed by non-whitespace, and runs to whitespace or the end |
| TextEnhancer.StripUrls | text_enhancer.py:45 | the URL substitution never lengthens the text, keeps a leading whitespace character, and leaves text without upper case without it; `StripUrlsKeepsPrefix` and `StripUrlsAtMatch` give its meaning |
| TextEnhancer.StripUrlsKeepsPrefix | text_enhancer.py:45 | text before the first match is kept whole: when no match starts in `a`, the output for `a + b` is `a` followed by the output for `b` |
| TextEnhancer.StripUrlsKeeps | text_enhancer.py:45 | text in which no match starts is left unchanged |
| TextEnhancer.StripUrlsDropsMatch | text_enhancer.py:45 | a match (`http` or `www` and one non-line-feed character, then non-whitespace up to whitespace or the end) is deleted whole and the scan resumes right after it |
| TextEnhancer.StripUrlsAtMatch | text_enhancer.py:45 | around one match: the text before it, in which no match starts, is kept whole, the match is deleted, and the text after it goes on through the substitution |
| TextEnhancer.StripUrlsOneMatch | text_enhancer.py:45 | `a http:x b` becomes `a  b`: only the URL goes, both spaces stay |
| TextEnhancer.StripUrlsPrefix | text_enhancer.py:45 | a whitespace-free prefix of the output is the same prefix of the input |
| TextEnhancer.StripUrlsAvoidsHttp | text_enhancer.py:45 | after the URL substitution no `http` is followed by a non-whitespace character |
| TextEnhancer.EmailMatchLength | text_enhancer.py:47 | a match of `\S+@\S+` at the start is whitespace-free, has an `@` with a character on each side, and runs to whitespace or the end; there is none when no `@` preceded by non-whitespace has a non-whitespace character after it |
| TextEnhancer.StripEmails | text_enhancer.py:47 | the e-mail substitution never lengthens the text, keeps a leading whitespace character, and leaves text without upper case without it |
| TextEnhancer.WordsWithoutAt | text_enhancer.py:47 | the words without an inner `@`: an order-preserving subsequence of the words, holding each such word as often as it occurs and no word with an inner `@` |
| TextEnhancer.StripEmailsKeepsWord | text_enhancer.py:47 | a word without an inner `@` passes the e-mail substitution whole |
| TextEnhancer.StripEmailsWords | text_enhancer.py:47 | the words after the e-mail substitution are the words before it, less those with an inner `@` |
| TextEnhancer.NormalizeText | text_enhancer.py:31-53 | the normalised text is the words left after URL removal, less those with an inner `@`, joined by single spaces; no whitespace at either end, one space between words, no upper-case letter |
| TextEnhancer.NormalizeTextUrlFree | text_enhancer.py:43-49 | when no URL match starts in the lower-cased text, only the words with an inner `@` are lost; every other word comes through whole, in order |
| TextEnhancer.NormalizePlainWords | text_enhancer.py:43-49 | `hello world` normalises to itself |
| TextEnhancer.NormalizeTextNoHttp | text_enhancer.py:45-49 | the normalised text has no `http` followed by a non-whitespace character |
| TextEnhancer.NormalizeTextNoEmail | text_enhancer.py:47-49 | in the normalised text no `@` has a non-whitespace character on both sides |
| TextEnhancer.NormalizeLineFeed | text_enhancer.py:43-49 | a line feed stops `www.`: `www\nx` normalises to `www x` |
| TextEnhancer.NormalizeSpacedWww | text_enhancer.py:45 | the dot of `www.` matches a space: `www x` normalises to the empty text |
| TextEnhancer.NormalizeTextNotIdempotent | text_enhancer.py:43-49 | normalising `www\nx` twice differs from normalising it once |
| TextEnhancer.FormatEntities | text_enhancer.py:70-78 | one record per pipeline entity, in order, with `text`/`label`/`start`/`end` taken from `word`/`entity`/`start`/`end` |
| TextEnhancer.ExtractEntities | text_enhancer.py:55-82 | the reshaped pipeline output, or `[]` when the pipeline raises |
| TextEnhancer.AnalyzeSentiment | text_enhancer.py:84-111 | a sentiment is present iff TextBlob and the classifier both succeed and the classifier's list is non-empty; it then holds TextBlob's scores and the classifier's first item |
| TextEnhancer.GetPosTags | text_enhancer.py:113-129 | the tagger's pairs, or `[]` when the tagger raises |
| TextEnhancer.Tokens | text_enhancer.py:164 | the tokens are as many as the tags and each is the first component of its tag |
| TextEnhancer.Enhancement | text_enhancer.py:131-169 | `original_text` is the input and `normalized_text` its normalisation. Entities, sentiment and tags come from the original text. Tokens project the tags. Each failing analysis leaves its own fallback and the other fields are still filled |
| TextEnhancer.EnhanceText | text_enhancer.py:143-164 | starting from the neutral default record and overwriting field by field yields exactly `Enhancement` |
| TextAnalyzer.AnalyzerInput | text_analyzer.py:17-19 | entity and sentiment inputs are the spell-corrected normalised text, with stop-word removal and lemmatisation off |
| TextAnalyzer.TextsLabelled | text_analyzer.py:28 | the texts with a label are empty iff no entity carries that label |
| TextAnalyzer.Labels | text_analyzer.py:26-27 | the labels that occur, each exactly once |
| TextAnalyzer.Grouped | text_analyzer.py:24-28 | one entry per occurring label, in order of first occurrence, holding the texts with that label in document order |
| TextAnalyzer.FindLabel | text_analyzer.py:26 | finds the entry with the label, or reports that none has it |
| TextAnalyzer.GroupedStep | text_analyzer.py:25-28 | one more entity appends its text to its label's entry, or adds a new entry at the end when the label is new |
| TextAnalyzer.LoopStep | text_analyzer.py:26-28 | the loop body, which creates the entry if it is missing and then appends, performs exactly that step |
| TextAnalyzer.GroupedTotal | text_analyzer.py:25-28 | the number of grouped texts over all labels equals the number of entities |
| TextAnalyzer.GroupedKeys | text_analyzer.py:26-28 | a label is a key iff some entity carries it; keys are distinct; no list is empty |
| TextAnalyzer.GroupByLabel | text_analyzer.py:24-28 | the dictionary the loop builds is `Grouped` of the entities |
| TextAnalyzer.ExtractEntities | text_analyzer.py:12-30 | the dictionary is `Grouped` of the entities found in the preprocessed text |
| TextAnalyzer.LabelFor | text_analyzer.py:46-51 | POSITIVE iff polarity > 0, NEGATIVE iff polarity < 0, NEUTRAL iff polarity = 0 |
| TextAnalyzer.AnalyzeSentiment | text_analyzer.py:32-62 | the scores come from the preprocessed text; the label follows the polarity's sign; the score is the polarity's magnitude, so it is at least 0 and is 0 iff the label is NEUTRAL |
| TextAnalyzer.AnalyzeText | text_analyzer.py:64-79 | `original_text` is the input and `cleaned_text` is `process_text` with default flags; entities and sentiment are computed from the original input |
| ProcessDataset.DetailOf | process_dataset.py:38-50 | the record copies `text_id`, `category` and the content from the row, the normalised text, entities, tokens and tags from the analysis, and the four sentiment columns from TextBlob's scores and the classifier's label and score |
| ProcessDataset.DetailsPerRow | process_dataset.py:31-51 | building records row by row succeeds iff every row's analysis has a sentiment, and then gives one `DetailOf` record per row, in order |
| ProcessDataset.BuildDetails | process_dataset.py:27-51 | one record per row in row order, built from that row's content; the run fails iff some row's analysis has no sentiment |
| ProcessDataset.BuildSummaries | process_dataset.py:62-75 | one summary per record in order, columns copied, `entity_count` and `token_count` the lengths of the lists |
| ProcessDataset.ProcessDataset | process_dataset.py:7-75 | both tables have one row per input row, in order; each record is `DetailOf` its row and that row's analysis, and each summary row summarises its record, so its columns are the row's id and category, the normalised content, TextBlob's polarity and subjectivity, the classifier's first label and score, and the numbers of entities and tags |

## Left out

- NLP inference is not modelled. This covers the transformers sentiment and NER pipelines, TextBlob sentiment, tags and spelling correction, the spaCy model, the NLTK tokenizer and lemmatizer, and the stop-word list. Each is an uninterpreted function-valued field, because these are foreign models with no logic of their own. `correct_spelling` (text_preprocessor.py:47-51) is just the `correct` field.
- The constructors (`__init__` of the three classes) only load those models. They are represented by the handle values `Preprocessor`, `Models` and `Analyzer`.
- Import-time side effects are left out: `nltk.download` and the logging setup (text_enhancer.py:9-16, text_preprocessor.py:9-12). So are the logging calls in the `except` branches.
- File and console I/O of process_dataset.py is left out: `os.makedirs`, `pd.read_csv`, progress `print`s, the timestamped file names, `json.dump`, `to_csv`, and the statistics of `__main__` (lines 16-20, 30-32, 53-104). The rows arrive as a sequence and the two tables are returned as values.
- app.py, example.py and demo.py are not part of this model. They are web plumbing and driver scripts.
- Polarity, subjectivity and confidence are `real`, not floating point. Only comparisons with zero and the absolute value are used.
- Only ASCII text is modelled. Python's Unicode `str.lower()`, Unicode whitespace in `\s` and `str.split()`, and non-ASCII letters are not.
- The exceptions `text_enhancer.py` catches are `Option` values. `enhance_text` stores `{}` for a failed sentiment analysis; that becomes `None`. The `KeyError` that `process_dataset` then raises at line 44 makes the whole run `None`.
- The `except` branches of the enhancer's `normalize_text` (text_enhancer.py:51-53) and of `enhance_text` (166-169) are not modelled. Every call they guard is total on a `str` input, or catches its own exceptions.
- The spaCy model and TextBlob in text_analyzer.py are treated as never raising. The source does not catch their exceptions, and an exception there ends the whole call.
- The NLTK tokenizer, the WordNet lemmatizer and TextBlob's spelling correction in text_preprocessor.py (lines 35, 43-44 and 51) are treated as never raising: `Preprocessor.tokenize`, `lemmatize` and `correct` are total functions. `process_text` catches nothing, so an exception there would end the whole call; such a failed call is not modelled.
- `text_id` is taken to be an integer column.
- `get_pos_tags` converts each word with `str(word)`. TextBlob's words are already strings, so this is modelled as the identity.
