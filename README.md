# Resume analyzer: text cleaning and category lookup

The resume analyzer is a small Streamlit application. It reads an uploaded
resume, cleans the text, hands the result to a pre-trained TF-IDF vectorizer
and classifier, and shows the name of the predicted job category. This
project models, and proves properties of, the two pieces of that program
with logic of their own:

- `clean_resume` (`Resume_Analyzer.py:16-26`) runs eight `re.sub` passes in
  a fixed order and then `str.strip`. The passes are:
  1. URLs: `http`, a run of non-whitespace, and one whitespace character.
  2. The literals `RT` and `cc`.
  3. `@` mentions.
  4. CR-LF replaced by a space.
  5. Characters that are neither `\w` nor `\s`.
  6. Runs of non-ASCII characters.
  7. `#` hashtags.
  8. Whitespace runs collapsed to one space.
- `get_category_name` (`Resume_Analyzer.py:29-43`) is a 25-entry dictionary
  from class id to label, with the fallback `"Unknown"`.

Both are pure, so the model is made of functions and lemmas:

- `char_classes.dfy` (module `CharClasses`) holds Python's Unicode-aware `\w`
  and `\s`. They are a parameter `cl`. The predicate `Agrees(cl)` pins them
  to Python's definition on ASCII:
  - `\w` is `[A-Za-z0-9_]`;
  - `\s` is code points 9-13 and 28-32.

  Every theorem is proved for every choice of classes that agrees with
  Python on ASCII. The exact output can still depend on the Unicode
  whitespace table: passes 1 and 3 use `\S` and `\s` to decide where a URL
  or a mention ends, and they run before pass 6 removes non-ASCII
  characters. For example, pass 1 turns `"httpx\u00a0y"` into `"y"` when
  U+00A0 counts as whitespace, as it does in Python, and leaves it unchanged
  when it does not (`UrlEndDependsOnSpaceTable`).
- `regex.dfy` (module `Regex`) models the `re.sub` fragment used here. It
  contains:
  - the eight patterns;
  - `MatchLen`, the match the engine finds at a position;
  - `Matches`, the declarative language of each pattern;
  - `Sub`, the leftmost, non-overlapping left-to-right scan of `re.sub`.
- `resume_cleaner.dfy` (module `ResumeCleaner`) composes the passes in source
  order as `CleanResume`, with `Strip` as the model of `str.strip`. Three
  passes are proved equal to independent reference definitions:
  - passes 5 and 6 to `Filter`, which keeps characters one at a time;
  - pass 8 to `Squeeze`, which collapses whitespace one character at a time.

  Pass 7 is proved to change nothing, and pass 4 is proved not to affect the
  final result. Passes 1-3 are described by lemmas about their matches. The
  module then proves what every cleaned text looks like.
- `cleaner_examples.dfy` (module `CleanerExamples`) works out concrete runs,
  including one that shows `clean_resume` is not idempotent.
- `categories.dfy` (module `Categories`) holds the lookup table. It checks
  the table against an independent list of labels in id order, and proves
  the table's domain, fallback and injectivity.

Some behaviour of the code differs from what its own comments and names
suggest. The model follows the code:

- Nothing in the source says the cleaner is idempotent, and it is not.
  `CleanResumeNotIdempotent` proves that `"RRTT"` cleans to `"RT"`, and that
  `"RT"` cleans to `""`.
- The comment on pass 7 (`Resume_Analyzer.py:24`) says it removes hashtags.
  It never does: pass 5 (`Resume_Analyzer.py:22`) has already deleted the
  `#`, so pass 7 never matches (`DropSymbolsIsFilter`), and the tag's word
  stays in the text.
  - `"Hello @john123, #hiring RT"` therefore cleans to `"Hello hiring"`.
  - `"RT @alice: Love #DataScience! Visit http://x.co"` cleans to
    `"Love DataScience Visit httpxco"`. The URL survives pass 1 because
    nothing follows it (`UrlPassKeepsSpacelessTail`), and pass 5 then removes
    only its punctuation.
- The dictionary in `get_category_name` has 25 entries, for exactly the ids
  0 through 24, with no gap (`CategoryMappingIsLabels`).

## Model

| member | source | states |
|---|---|---|
| Regex.MatchLen | Resume_Analyzer.py:18-25 | the match the engine takes for each of the eight patterns fits in the text and begins with a character the pattern admits; `MatchLenIsLongestMatch` shows it is in the pattern's language and the longest match there |
| Regex.MatchLenIsLongestMatch | Resume_Analyzer.py:18-25 | the match the scan takes at a position is in the pattern's language and is the longest one there; for the URL pattern it is the only one, so backtracking cannot pick another |
| Regex.Sub | Resume_Analyzer.py:18-25 | `re.sub` with a replacement of at most one character never lengthens the text, and the result contains only characters of the input or of the replacement |
| Regex.SubWithoutMatchIsIdentity | Resume_Analyzer.py:18-25 | a pass whose pattern matches at no position returns its input unchanged |
| Regex.SubInertPrefix | Resume_Analyzer.py:18-25 | a prefix none of whose characters can begin a match is copied through unchanged |
| Regex.SubInert | Resume_Analyzer.py:18-25 | a pass over text in which no character can begin a match is a no-op |
| Regex.UrlMatch | Resume_Analyzer.py:18 | `http`, a non-empty run without whitespace and one whitespace character are matched as a whole, whatever follows |
| Regex.UrlPassRemovesUrl | Resume_Analyzer.py:18 | the URL pass deletes such a URL together with the one whitespace character after it |
| Regex.UrlMatchEndsOnSpace | Resume_Analyzer.py:18 | every URL match ends on a whitespace character |
| Regex.UrlMatchIgnoresSpacelessTail | Resume_Analyzer.py:18 | appending text without whitespace never changes the URL match at a position |
| Regex.UrlPassKeepsSpacelessTail | Resume_Analyzer.py:18 | text after the last whitespace character, including an `http...` token at the very end, survives the URL pass unchanged |
| Regex.TaggedMatch | Resume_Analyzer.py:20 | a mention or hashtag match is the tag and the whole following run of non-whitespace |
| ResumeCleaner.StripMarkup | Resume_Analyzer.py:18-20 | passes 1-3 never lengthen the text |
| ResumeCleaner.JoinLines | Resume_Analyzer.py:21 | pass 4 never lengthens the text |
| ResumeCleaner.DropSymbols | Resume_Analyzer.py:22-24 | passes 5-7 never lengthen the text |
| ResumeCleaner.Normalize | Resume_Analyzer.py:25 | pass 8 and the strip never lengthen the text, and leave no whitespace at either end |
| ResumeCleaner.CleanResume | Resume_Analyzer.py:16-26 | the cleaned text is no longer than the input and has no whitespace at either end |
| ResumeCleaner.Strip | Resume_Analyzer.py:25 | `str.strip` returns a contiguous slice of the text with only whitespace before and after it, and with no whitespace at either end of the slice; it is empty exactly when the text is all whitespace, and it keeps the absence of doubled whitespace |
| ResumeCleaner.StripKeepsTrimmed | Resume_Analyzer.py:25 | text that neither starts nor ends with whitespace is returned whole, so stripping twice is stripping once |
| ResumeCleaner.SymbolPassIsFilter | Resume_Analyzer.py:22 | pass 5 keeps exactly the `\w` and `\s` characters, in order |
| ResumeCleaner.FilterSkipsDropped | Resume_Analyzer.py:23 | a run of dropped characters contributes nothing to the filtered text |
| ResumeCleaner.NonAsciiPassIsFilter | Resume_Analyzer.py:23 | pass 6 keeps exactly the ASCII characters, in order, and puts nothing in place of a removed run |
| ResumeCleaner.HashtagPassWithoutHash | Resume_Analyzer.py:24 | on text without `#`, pass 7 returns its input unchanged |
| ResumeCleaner.DropSymbolsIsFilter | Resume_Analyzer.py:22-24 | pass 7 is dead after passes 5 and 6, and passes 5-7 together keep exactly the ASCII word and whitespace characters |
| ResumeCleaner.CollapseIsSqueeze | Resume_Analyzer.py:25 | the `\s+` to `' '` pass equals the character-by-character squeeze of whitespace |
| ResumeCleaner.CopyKeepsSqueeze | Resume_Analyzer.py:21-25 | a common first character keeps two texts that clean alike cleaning alike |
| ResumeCleaner.CleanCharsLineBreak | Resume_Analyzer.py:22-24 | passes 5-7 keep a CR-LF pair |
| ResumeCleaner.SqueezeLineBreak | Resume_Analyzer.py:21-25 | a CR-LF pair collapses to the same single space as one space does |
| ResumeCleaner.LineBreakKeepsSqueeze | Resume_Analyzer.py:21-25 | a space and a CR-LF pair in front of texts that clean alike lead to the same result |
| ResumeCleaner.JoinLinesIsInvisible | Resume_Analyzer.py:21-25 | after passes 5-8, the text looks the same whether or not pass 4 ran |
| ResumeCleaner.CrlfPassIsRedundant | Resume_Analyzer.py:21 | `clean_resume` gives the same result with pass 4 left out |
| ResumeCleaner.CleanResumeIsStripSqueeze | Resume_Analyzer.py:21-25 | after passes 1-4, the cleaner is strip of squeeze of the ASCII word and whitespace characters |
| ResumeCleaner.CleanResumeAlphabet | Resume_Analyzer.py:22-25 | every character of the output is an ASCII letter, digit, `_` or space |
| ResumeCleaner.StripSqueezeSpacing | Resume_Analyzer.py:25 | after the whitespace collapse and the strip, no space is at either end and no two spaces are adjacent |
| ResumeCleaner.CleanResumeSpacing | Resume_Analyzer.py:25 | the output has no space at either end and never two spaces in a row |
| ResumeCleaner.CleanResumeOfBlank | Resume_Analyzer.py:18-25 | empty or all-whitespace input, Unicode whitespace included, cleans to `""` |
| ResumeCleaner.LaterPassesKeepWord | Resume_Analyzer.py:20-25 | passes 3-8 leave a single ASCII word unchanged |
| ResumeCleaner.CleanResumeOfWord | Resume_Analyzer.py:18-25 | on a single ASCII word, `clean_resume` is the `RT\|cc` pass alone |
| CleanerExamples.RtCcInsideWords | Resume_Analyzer.py:19 | the `RT\|cc` pass has no word boundaries: `"Accounting"` becomes `"Aounting"` |
| CleanerExamples.CleanResumeOfAccounting | Resume_Analyzer.py:16-26 | `clean_resume("Accounting")` is `"Aounting"` |
| CleanerExamples.RtCcCreatesMatch | Resume_Analyzer.py:19 | deleting `RT` can join an `R` and a `T`: the pass turns `"RRTT"` into `"RT"` |
| CleanerExamples.RtCcDeletesRt | Resume_Analyzer.py:19 | the pass turns `"RT"` into `""` |
| CleanerExamples.CleanResumeNotIdempotent | Resume_Analyzer.py:16-26 | `clean_resume` is not idempotent: `"RRTT"` cleans to `"RT"` and `"RT"` to `""` |
| CleanerExamples.NonAsciiJoinsWords | Resume_Analyzer.py:22-23 | a non-ASCII character, whitespace or not, is deleted rather than turned into a space: `"a\u00a0b"` (with a no-break space) cleans to `"ab"` |
| CleanerExamples.UrlEndDependsOnSpaceTable | Resume_Analyzer.py:18 | where a URL ends depends on the Unicode whitespace table: `"httpx\u00a0y"` becomes `"y"` if U+00A0 is `\s` and stays as it is otherwise |
| Categories.CategoryName | Resume_Analyzer.py:29-43 | the result is `"Unknown"` or one of the table's labels |
| Categories.CategoryMappingIsLabels | Resume_Analyzer.py:31-42 | the table's keys are exactly 0..24, and id i maps to the i-th label of the code-point-ordered list |
| Categories.CategoryNameIsLabel | Resume_Analyzer.py:43 | `get_category_name` returns the i-th label for 0 <= i <= 24 and `"Unknown"` for every other integer |
| Categories.CategoryNameKnown | Resume_Analyzer.py:31-43 | the result differs from `"Unknown"` if and only if 0 <= id <= 24, because no label is `"Unknown"` |
| Categories.CategoryNameInjective | Resume_Analyzer.py:31-42 | the 25 labels are pairwise distinct |
| Categories.CategoryNameExamples | Resume_Analyzer.py:29-43 | 6 gives `"Data Science"`, 24 gives `"Web Designing"`, and 99 and -1 give `"Unknown"` |

## Left out

- The Streamlit page, with its file uploader, styling and messages (`Resume_Analyzer.py:55-104`). It is presentation and I/O.
- Loading `clf` and `tfidf` with `pickle` (`Resume_Analyzer.py:12-13`), and `tfidf.transform` and `clf.predict`. They are trained models read from disk; only the integer id they produce enters the model, as the argument of `CategoryName`.
- The NLTK `punkt` and `stopwords` downloads (`Resume_Analyzer.py:8-9`). They are network I/O, and `clean_resume` never uses them.
- `extract_text_from_pdf` (`Resume_Analyzer.py:46-52`). It is a loop over a foreign PDF library's page extraction.
- UTF-8 decoding of plain-text uploads with `errors='ignore'`. It is a library codec; the cleaner's input is any string.
- Python's Unicode tables for `\w` and `\s` outside ASCII. They are the abstract parameter `cl`, fixed only on ASCII. Every theorem holds whatever the tables say, but the exact output of passes 1 and 3 depends on which non-ASCII characters count as whitespace.
- Surrogate code points U+D800-U+DFFF. A Python `str` can hold them but a Dafny `char` cannot; decoded uploads never contain them.
- Regex: this module is not a general regular-expression engine. It covers the eight fixed patterns of `clean_resume`, each with its own match function.
- Categories.CategoryName: takes an `int`. Python's `dict.get` would also find an entry for any key equal to an id, such as `6.0` or `True`; the classifier only produces integers.
