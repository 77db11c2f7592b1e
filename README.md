# Amharic news cleaner, modelled in Dafny

The cleaner reads scraped Amharic news rows from a database. It passes every
text column through `clean_amharic_text` and stores the cleaned rows. This
project models that function and the row loop in `main`, and proves what they
guarantee about the text that reaches the store step.

`clean_amharic_text` first extracts the text from the markup. It then applies
four substitutions in order:

1. delete every character that is neither a word character (`\w`) nor whitespace (`\s`);
2. delete a fixed list of ASCII, typographic and Ethiopic punctuation marks;
3. replace each whitespace run by one space, then strip both ends;
4. delete every ASCII letter and digit.

Modules:

- `CharClasses` (`char_classes.dfy`): Python's Unicode tables for `\w` and
  `\s`. A `Classes` value stands for them. `Valid()` lists the facts the proofs
  may use:
  - ASCII letters, digits and `_` are word characters;
  - space, tab, newline and carriage return are whitespace;
  - no character is both.
  
  `Sample()` is one concrete classification. It shows that these facts are
  consistent, but it is not Python's table.
- `TextCleaning` (`text_cleaning.dfy`):
  - the four steps, as `Filter`s and a whitespace collapser;
  - `Normalise`, which chains them;
  - `CleanAmharicText`, in which the markup parser is a parameter `getText`;
  - the lemmas about them.
- `CleaningExamples` (`cleaning_examples.dfy`): worked families of inputs,
  for every classification that satisfies `Valid()`. Ethiopic syllables
  count only where the table calls them word characters. The families show
  three things:
  - mixed whitespace runs clean like single spaces;
  - the last step can leave double or edge spaces;
  - cleaning twice can change the text again.
- `RowCleaning` (`row_cleaning.dfy`): the two nested loops of `main` as
  methods over rows (maps from column name to value).

Most lemmas take any classification. Those that need one of the Unicode
facts say which one in their `requires`.

## Model

All source paths are under `data_collection/scraping/scraping/scraping/spiders/`;
the table writes them out in full.

| member | source | states |
|---|---|---|
| TextCleaning.CleanAmharicText | data_collection/scraping/scraping/scraping/spiders/retrive_news_spider.py:30-41 | No contract of its own: `clean_amharic_text`, the markup parser's text (the parameter `getText`) run through `Normalise`. Its properties are in CleanAmharicTextBounds |
| TextCleaning.Normalise | data_collection/scraping/scraping/scraping/spiders/retrive_news_spider.py:35-40 | No contract of its own: the four text steps in source order. Its properties are in NormaliseLength, NormaliseAlphabet, NormaliseOnlyPlainSpace, NormaliseKeepsOrder, NormaliseRunInvariant, NormaliseBlank and NormaliseEmpty |
| TextCleaning.RemoveSpecial | data_collection/scraping/scraping/scraping/spiders/retrive_news_spider.py:35 | No contract of its own: `re.sub(r'[^\w\s]', '', text)` as a Filter that keeps word and whitespace characters. Its properties come from Filter, FilterKeeps and FilterAppend |
| TextCleaning.RemovePunctuation | data_collection/scraping/scraping/scraping/spiders/retrive_news_spider.py:37 | No contract of its own: the line-37 substitution as a Filter that drops the 50 marks of the constant `Punctuation` (AsciiMarks, TypographicMarks and EthiopicMarks). NotPunctuation says which characters are not marks |
| TextCleaning.Strip | data_collection/scraping/scraping/scraping/spiders/retrive_news_spider.py:38 | No contract of its own: `.strip()`, which is TrimEnd after SkipSpaces. Its properties are in SkipSpaces, TrimEnd, StripKeeps and StripNormal |
| TextCleaning.SquashWhitespace | data_collection/scraping/scraping/scraping/spiders/retrive_news_spider.py:38 | No contract of its own: the whole of line 38, which is Strip after CollapseWhitespace. Its properties are in SquashNormal, SquashNonSpace, SquashOfNormal and SquashIdempotent |
| TextCleaning.RemoveAsciiAlnum | data_collection/scraping/scraping/scraping/spiders/retrive_news_spider.py:40 | No contract of its own: `re.sub('[A-Za-z0-9]', '', text)` as a Filter. Its properties come from Filter and RemoveAsciiAlnumAppend |
| TextCleaning.StripNormal | data_collection/scraping/scraping/scraping/spiders/retrive_news_spider.py:38 | Stripping text whose whitespace is already single plain spaces leaves it whitespace-normal |
| TextCleaning.Filter | data_collection/scraping/scraping/scraping/spiders/retrive_news_spider.py:35 | Deleting a character class with `re.sub`: the result is no longer than the input, and every character in it comes from the input and is accepted by the class test |
| TextCleaning.FilterAppend | data_collection/scraping/scraping/scraping/spiders/retrive_news_spider.py:35 | Deleting a class works per character, so it splits over concatenation |
| TextCleaning.FilterFusion | data_collection/scraping/scraping/scraping/spiders/retrive_news_spider.py:35-40 | Two deletions in a row are one deletion of the union of the two classes |
| TextCleaning.FilterKeeps | data_collection/scraping/scraping/scraping/spiders/retrive_news_spider.py:35 | Every input character the class accepts survives the deletion |
| TextCleaning.NotPunctuation | data_collection/scraping/scraping/scraping/spiders/retrive_news_spider.py:37 | No ASCII letter, digit, space, `_` or Ethiopic syllable is in the line-37 mark list |
| TextCleaning.SkipSpaces | data_collection/scraping/scraping/scraping/spiders/retrive_news_spider.py:38 | The left half of `str.strip`: the result is a suffix of the input, everything dropped is whitespace, and the result does not start with whitespace |
| TextCleaning.TrimEnd | data_collection/scraping/scraping/scraping/spiders/retrive_news_spider.py:38 | The right half of `str.strip`: the result is a prefix of the input, everything dropped is whitespace, and the result does not end with whitespace |
| TextCleaning.StripKeeps | data_collection/scraping/scraping/scraping/spiders/retrive_news_spider.py:38 | `strip` never lengthens the text, adds no character, and keeps the non-whitespace characters in order |
| TextCleaning.CollapseWhitespace | data_collection/scraping/scraping/scraping/spiders/retrive_news_spider.py:38 | `re.sub(r'\s+', ' ', …)` never lengthens the text; CollapseKeeps, CollapseNonSpace, CollapseRun and CollapseAppend below pin down its content |
| TextCleaning.CollapseKeeps | data_collection/scraping/scraping/scraping/spiders/retrive_news_spider.py:38 | Every character of the collapsed text is either the plain space or a non-whitespace character of the input |
| TextCleaning.CollapseRun | data_collection/scraping/scraping/scraping/spiders/retrive_news_spider.py:38 | A whitespace run followed by a non-whitespace character (or by the end) becomes exactly one plain space |
| TextCleaning.CollapseAppend | data_collection/scraping/scraping/scraping/spiders/retrive_news_spider.py:38 | Collapsing works run by run: text that ends with a non-whitespace character collapses independently of what follows it |
| TextCleaning.CollapseAround | data_collection/scraping/scraping/scraping/spiders/retrive_news_spider.py:38 | A whitespace run between two texts becomes one plain space between their collapsed forms, with the texts' own edge whitespace merged into it |
| TextCleaning.CollapseNonSpace | data_collection/scraping/scraping/scraping/spiders/retrive_news_spider.py:38 | Collapsing keeps the non-whitespace characters exactly, in order |
| TextCleaning.CollapseSeparated | data_collection/scraping/scraping/scraping/spiders/retrive_news_spider.py:38 | After collapsing, every whitespace character is a plain space and no two are adjacent |
| TextCleaning.CollapseOfSeparated | data_collection/scraping/scraping/scraping/spiders/retrive_news_spider.py:38 | Collapsing leaves already-separated text unchanged |
| TextCleaning.SquashNormal | data_collection/scraping/scraping/scraping/spiders/retrive_news_spider.py:38 | After line 38 the text is whitespace-normal: only single plain spaces, none at either end |
| TextCleaning.SquashNonSpace | data_collection/scraping/scraping/scraping/spiders/retrive_news_spider.py:38 | Line 38 changes only whitespace; the other characters keep their order |
| TextCleaning.SquashOfNormal | data_collection/scraping/scraping/scraping/spiders/retrive_news_spider.py:38 | Whitespace-normal text goes through line 38 unchanged |
| TextCleaning.SquashIdempotent | data_collection/scraping/scraping/scraping/spiders/retrive_news_spider.py:38 | Running line 38 twice gives the same text as running it once |
| TextCleaning.RemoveAsciiAlnumAppend | data_collection/scraping/scraping/scraping/spiders/retrive_news_spider.py:40 | Deleting `[A-Za-z0-9]` splits over concatenation |
| TextCleaning.NormaliseLength | data_collection/scraping/scraping/scraping/spiders/retrive_news_spider.py:35-40 | The output is never longer than the markup-stripped text |
| TextCleaning.NormaliseAlphabet | data_collection/scraping/scraping/scraping/spiders/retrive_news_spider.py:35-40 | The output has no ASCII letter or digit and no listed mark; every character is a plain space or a non-whitespace word character |
| TextCleaning.NormaliseOnlyPlainSpace | data_collection/scraping/scraping/scraping/spiders/retrive_news_spider.py:35-40 | The only whitespace in the output is the plain space; tab, newline and carriage return never survive |
| TextCleaning.NormaliseKeepsOrder | data_collection/scraping/scraping/scraping/spiders/retrive_news_spider.py:35-40 | The non-whitespace characters of the output are exactly the input characters that pass all four steps, in input order |
| TextCleaning.NormaliseRunInvariant | data_collection/scraping/scraping/scraping/spiders/retrive_news_spider.py:35-40 | Replacing one run of unlisted whitespace with any other such run (of any length or characters) does not change the result |
| TextCleaning.NormaliseBlank | data_collection/scraping/scraping/scraping/spiders/retrive_news_spider.py:35-40 | Input made only of whitespace and non-word characters cleans to the empty string |
| TextCleaning.NormaliseEmpty | data_collection/scraping/scraping/scraping/spiders/retrive_news_spider.py:35-40 | A partial converse: an empty result means no input character passes all four steps (inputs such as "Hi" also clean to "", so the full converse of NormaliseBlank does not hold) |
| TextCleaning.CleanAmharicTextBounds | data_collection/scraping/scraping/scraping/spiders/retrive_news_spider.py:30-41 | For any markup parser, the result is no longer than the parser's text and uses only the alphabet given by NormaliseAlphabet |
| CleaningExamples.RunFolds | data_collection/scraping/scraping/scraping/spiders/retrive_news_spider.py:38 | For every valid table, a run of spaces, tabs, newlines and carriage returns cleans like one space |
| CleaningExamples.TwoRunsFold | data_collection/scraping/scraping/scraping/spiders/retrive_news_spider.py:38 | The same for two such runs in one text |
| CleaningExamples.WhitespaceRunsFold | data_collection/scraping/scraping/scraping/spiders/retrive_news_spider.py:35-40 | "a   b\n\tc"-shaped input cleans to the same result as "a b c"-shaped input |
| CleaningExamples.UnderscoreSurvives | data_collection/scraping/scraping/scraping/spiders/retrive_news_spider.py:35-40 | For every valid table, `_` passes all four steps, and an input containing `_` gives an output containing `_` |
| CleaningExamples.LatinWordCleansToEmpty | data_collection/scraping/scraping/scraping/spiders/retrive_news_spider.py:35-40 | For every valid table, a lone Latin word such as "Hi" cleans to the empty string |
| CleaningExamples.FirstStepsKeep | data_collection/scraping/scraping/scraping/spiders/retrive_news_spider.py:35-38 | For every valid table: words of ASCII letters, digits and Ethiopic word characters, joined by single spaces, pass the first three steps unchanged |
| CleaningExamples.LastStepDropsMiddle | data_collection/scraping/scraping/scraping/spiders/retrive_news_spider.py:40 | Deleting a Latin word between two Ethiopic words keeps both spaces around it |
| CleaningExamples.LatinWordLeavesDoubleSpace | data_collection/scraping/scraping/scraping/spiders/retrive_news_spider.py:35-40 | For every valid table: "ሀ a ለ"-shaped input (Ethiopic words that the table counts as word characters) cleans to the two Ethiopic words with two spaces between them, so the final text need not be whitespace-normal |
| CleaningExamples.LastStepKeepsSpace | data_collection/scraping/scraping/scraping/spiders/retrive_news_spider.py:40 | Two Latin words separated by a space leave only that space |
| CleaningExamples.LatinTextLeavesOneSpace | data_collection/scraping/scraping/scraping/spiders/retrive_news_spider.py:35-40 | For every valid table: "Hi there"-shaped input cleans to a single space, not to the empty string |
| CleaningExamples.CleaningTwiceDiffers | data_collection/scraping/scraping/scraping/spiders/retrive_news_spider.py:35-40 | The four text steps are not idempotent: a second pass turns that single space into "" |
| RowCleaning.Cleaner | data_collection/scraping/scraping/scraping/spiders/retrive_news_spider.py:71 | No contract of its own: `clean_amharic_text` as the function value that `main` applies to each text. CleanedTextsAreClean states what it guarantees |
| RowCleaning.CleanValue | data_collection/scraping/scraping/scraping/spiders/retrive_news_spider.py:70-75 | No contract of its own: the body of the inner loop, where a text value is cleaned and any other value passes through. CleanRow's loop invariant is stated with it |
| RowCleaning.CleanRow | data_collection/scraping/scraping/scraping/spiders/retrive_news_spider.py:68-75 | The cleaned row has exactly the same columns; each text value is the cleaned text and every other value is copied |
| RowCleaning.CleanRows | data_collection/scraping/scraping/scraping/spiders/retrive_news_spider.py:66-76 | One cleaned row per input row, in the same order, each related to its input row as CleanRow states |
| RowCleaning.CleanedTextsAreClean | data_collection/scraping/scraping/scraping/spiders/retrive_news_spider.py:69-72 | In a row cleaned with `clean_amharic_text`, every text value has no ASCII letter or digit and no listed mark, and holds only word characters and plain spaces |

## Left out

- Markup extraction: BeautifulSoup's `get_text(strip=True)` (lines 32-33) is
  the opaque parameter `getText`. Nothing is assumed about it.
- Unicode tables: Python's exact `\w`/`\s` membership is not modelled. A
  `Classes` value stands for it, with only the facts in `Valid()`.
- `str.strip` is modelled with the same whitespace test as `\s`: in Python
  both use `str.isspace`'s test.
- Database and console I/O are not modelled: `connect_to_db`, `get_raw_data`,
  `store_cleaned_data` and the `print` loops (lines 11-28, 43-54, 58-63,
  78-83). The rows are an input sequence and the cleaned rows an output.
- `news_spider.py` (the Scrapy crawler that fills the raw table) is not part of
  this model.
- Column order inside a row: a Python dict keeps insertion order, but a Dafny
  `map` is unordered. `CleanRow` takes the keys in any order and proves the
  same map.
- RowCleaning.CleanRow, RowCleaning.CleanRows: both take the per-value
  cleaning function as a parameter. `main` passes `clean_amharic_text`, which
  is `Cleaner(cls, getText)` here. The facts about that instance are proved
  once, in `CleanedTextsAreClean`.
- Row values are text, integer or NULL. Those are the types the five
  selected columns can hold. Other non-string types would also be copied
  unchanged.
- Idempotence of the whole function does not hold. Cleaning is sometimes
  described as idempotent, but the last step runs after the whitespace step.
  `CleaningTwiceDiffers` proves that "Hi there"-shaped input cleans to " " and
  then to "". Only the whitespace step is proved idempotent, in
  `SquashIdempotent`.
