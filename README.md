# Telugu POS tagger training data: a Dafny model

This project models the data-preparation core of a CRF part-of-speech
tagger trainer, and proves properties of it. The core has two scripts.

`create_features_for_pos_crf_training.py` (module `Features`):

- cuts CoNLL text into sentences at blank lines;
- reads the token and the tag of every annotated line (CoNLL: first and
  last tab field; SSF: fields 1 and 2);
- turns each token into a 14-column feature line: the token, its prefixes
  of length 1–4, its suffixes of length 1–7 ("NULL" where the token is too
  short), LESS or MORE by length, and the tag with `__` and `-` normalised
  to `_`;
- emits one block per sentence that has a non-empty line, each block
  followed by an empty line.

`convert_data_into_conll_format.py` (module `Convert`):

- reads a file of one sentence per line in `token\pos` form;
- converts every line whose units all split into exactly two parts into
  `token<TAB>pos` lines;
- reports the first malformed unit of every other line, and drops that
  line;
- writes the sentences separated by empty lines.

Module `PyStrings` defines the pieces of Python's `str` the scripts rely
on, with their own lemmas:

- `str.isspace` (the Python 3 whitespace set), used by `strip()` and by
  `split()` with no argument;
- `split(sep)` and `sep.join`;
- `replace`.

Loops with accumulators are `method`s with loop invariants. Each method is
proved equal to a specification function over its inputs; the properties
are lemmas about those functions. Printed diagnostics become returned
values (`Convert.Diagnostic`). File contents are parameters: a list of
lines in, text out.

## Model

| member | source | states |
|---|---|---|
| `Features.AffixFeats` | create_features_for_pos_crf_training.py:127-144 | a token shorter than the length gives "NULL"; otherwise the affix has exactly that length; type 0 gives a prefix (affix followed by the rest is the token); any other type gives a suffix (the rest followed by the affix is the token) |
| `Features.AffixNullCollides` | create_features_for_pos_crf_training.py:138-142 | the four-character prefix of the token "NULL" is "NULL", the same as the too-short sentinel |
| `Features.AffixNullExactly` | create_features_for_pos_crf_training.py:138-139 | for every length other than 4, "NULL" comes back exactly when the token is shorter than the length |
| `Features.AffixWholeToken` | create_features_for_pos_crf_training.py:138-144 | an affix as long as the token is the token itself, on either side |
| `Features.AffixKeepsOut` | create_features_for_pos_crf_training.py:138-144 | an affix contains no character found in neither the token nor "NULL" |
| `Features.Affixes` | create_features_for_pos_crf_training.py:116-119 | the first n affix columns of one side: n of them, column i being the affix of length i+1 |
| `Features.LengthClass` | create_features_for_pos_crf_training.py:120 | "LESS" exactly when the token has at most four characters, "MORE" exactly when it has more |
| `Features.NormaliseTag` | create_features_for_pos_crf_training.py:121 | the normalised tag is never longer than the tag |
| `Features.NormaliseTagNoHyphen` | create_features_for_pos_crf_training.py:121 | a normalised tag contains no '-' |
| `Features.NormaliseTagHyphens` | create_features_for_pos_crf_training.py:121 | the tag after the first replace, split at its hyphens and joined with underscores: each hyphen becomes an underscore in its own place |
| `Features.NormaliseTagUnchanged` | create_features_for_pos_crf_training.py:121 | a tag with no '-' and no "__" is left unchanged |
| `Features.NormaliseTagKeepsOut` | create_features_for_pos_crf_training.py:121 | normalisation adds no character other than '_' |
| `Features.NormaliseTagNotIdempotent` | create_features_for_pos_crf_training.py:121 | "___" normalises to "__", which normalises again to "_"; "-_" normalises to "__"; so normalising twice can change a tag |
| `Features.FeatureFields` | create_features_for_pos_crf_training.py:115-121 | 14 columns in fixed order: the token, prefixes of length 1-4, suffixes of length 1-7, the length class, the normalised tag |
| `Features.FeatureLine` | create_features_for_pos_crf_training.py:115-121 | the 14 columns joined by tabs plus a newline; its properties are `FeatureLineBuilt`, `FeatureLineFields`, `FeatureLineNewlines` and `FeatureLineVisible` |
| `Features.FeatureLineBuilt` | create_features_for_pos_crf_training.py:115-121 | the columns joined by tabs plus a newline are exactly what the `+=` steps build: every column up to the length class followed by a tab, then the tag, then a newline |
| `Features.FeatureLineFields` | create_features_for_pos_crf_training.py:115-121 | when neither token nor tag holds a tab, the line ends in a newline, and splitting the rest on tabs gives back the 14 columns |
| `Features.FeatureLineNewlines` | create_features_for_pos_crf_training.py:115-121 | when neither token nor tag holds a newline, a feature line holds exactly one newline, its last character |
| `Features.FeatureLineVisible` | create_features_for_pos_crf_training.py:120-122 | a feature line is never all whitespace |
| `Features.ReadAnnotation` | create_features_for_pos_crf_training.py:108-114 | the token and tag read from a line hold no tab, and no newline when the line holds none |
| `Features.ReadAnnotationFields` | create_features_for_pos_crf_training.py:108-114 | CoNLL takes the first and the last tab field; SSF takes fields 1 and 2; a CoNLL line without a tab is both the token and the tag |
| `Features.SentenceFeatures` | create_features_for_pos_crf_training.py:105-121 | the feature lines of a sentence's non-empty lines; its properties are `LinesFeaturesBlank`, `LinesFeaturesNewlines`, `LinesVisible` and `FindSentenceFeatures` |
| `Features.LinesFeaturesBlank` | create_features_for_pos_crf_training.py:106-122 | a sentence's feature text is all whitespace exactly when every one of its lines is empty |
| `Features.LinesFeaturesNewlines` | create_features_for_pos_crf_training.py:106-121 | when no line holds a newline, the feature text holds one newline per non-empty line (one feature line each) |
| `Features.Block` | create_features_for_pos_crf_training.py:122-123 | a non-empty block ends in a newline |
| `Features.LinesVisible` | create_features_for_pos_crf_training.py:106-122 | the feature text of some lines is non-blank after `strip()` exactly when one of the lines is non-empty |
| `Features.BlockExists` | create_features_for_pos_crf_training.py:105-123 | a sentence contributes a block exactly when one of its lines is non-empty |
| `Features.BlockContents` | create_features_for_pos_crf_training.py:105-123 | a block is the sentence's feature text plus one newline, and that text holds one newline per non-empty line |
| `Features.FeaturesText` | create_features_for_pos_crf_training.py:103-124 | the blocks of all sentences, in order; its properties are `FeaturesTextAppend`, `BlockExists`, `BlockContents` and `FindFeaturesFromSentences` |
| `Features.FeaturesTextAppend` | create_features_for_pos_crf_training.py:103-124 | the feature text of a concatenation of sentence lists is the concatenation of their texts, so blocks keep the order of their sentences |
| `Features.TokenFeatures` | create_features_for_pos_crf_training.py:115-121 | the prefix and suffix loops and the LESS/MORE and tag steps build exactly the token's feature line |
| `Features.FindSentenceFeatures` | create_features_for_pos_crf_training.py:105-121 | the inner loop over a sentence's lines builds the feature line of every non-empty line, in order |
| `Features.AnnotatedLineFeatures` | create_features_for_pos_crf_training.py:107-121 | the body of the `if line:` branch: the tab split, the CoNLL or SSF field choice, the `__` then `-` tag normalisation and the token's features give exactly `LineFeatures` of the line |
| `Features.FindFeaturesFromSentences` | create_features_for_pos_crf_training.py:93-124 | the result is the concatenation, in order, of each sentence's block; a sentence whose feature text is blank adds nothing |
| `Features.WriteTextToFile` | create_features_for_pos_crf_training.py:147-156 | the text written is the text followed by exactly one newline |
| `Features.Scan` | create_features_for_pos_crf_training.py:54-64 | the finished sentences plus an open buffer are never more than the lines read |
| `Features.Segments` | create_features_for_pos_crf_training.py:54-69 | there are never more sentences than lines |
| `Features.ScanRuns` | create_features_for_pos_crf_training.py:54-64 | while scanning, the buffer is non-empty exactly when the last line read is not blank; finished sentences plus an open buffer equal the runs of non-blank lines seen so far |
| `Features.SegmentsCount` | create_features_for_pos_crf_training.py:54-69 | there are as many sentences as maximal runs of non-blank lines, a trailing run included |
| `Features.SegmentsFlatten` | create_features_for_pos_crf_training.py:54-69 | the sentences' lines, in order, are exactly the stripped non-blank input lines |
| `Features.SegmentsWellFormed` | create_features_for_pos_crf_training.py:54-69 | no sentence is empty, and every line in a sentence is non-empty and stripped |
| `Features.ScanFresh` | create_features_for_pos_crf_training.py:55-63 | once the sentence buffer is empty the rest of the lines is segmented as if it stood alone, its sentences appended after those already finished |
| `Features.ScanBlank` | create_features_for_pos_crf_training.py:59-63 | a blank line flushes the buffer: after it the scan holds exactly the sentences of the lines before it and an empty buffer |
| `Features.ScanRun` | create_features_for_pos_crf_training.py:55-58 | over lines none of which is blank the scan finishes no sentence and buffers every line, stripped |
| `Features.SegmentsAtBlank` | create_features_for_pos_crf_training.py:57-63 | a blank line always ends a sentence: the sentences of the lines around it are those of each side, in order |
| `Features.SegmentsRun` | create_features_for_pos_crf_training.py:55-58 | a non-empty run of non-blank lines is exactly one sentence, its stripped lines; with `SegmentsAtBlank` this fixes every boundary |
| `Features.SegmentsSeparated` | create_features_for_pos_crf_training.py:54-69 | segmenting is idempotent: well-formed sentences laid out with an empty line after each segment back into the same sentences |
| `Features.SegmentsSplitBack` | create_features_for_pos_crf_training.py:61-67 | when no stripped line holds a newline, splitting an emitted sentence on newlines gives back its lines |
| `Features.FindSentencesFromConllText` | create_features_for_pos_crf_training.py:46-71 | the loop emits the newline-joined sentences of the segmentation, and their number is the number of runs of non-blank lines |
| `PyStrings.Strip` | create_features_for_pos_crf_training.py:56 | the result has no leading or trailing whitespace, is empty exactly when the input is all whitespace, and is no longer than the input |
| `PyStrings.StripSlice` | create_features_for_pos_crf_training.py:56 | the result is a contiguous slice of the input, and everything before and after it is whitespace |
| `PyStrings.StripIdempotent` | convert_data_into_conll_format.py:9 | stripping twice is stripping once, so the filter's second `strip()` sees what it keeps |
| `PyStrings.StripStripped` | create_features_for_pos_crf_training.py:56 | stripping an already stripped string changes nothing |
| `PyStrings.NonBlankStripped` | convert_data_into_conll_format.py:9 | no more lines than the input, each non-empty and stripped |
| `PyStrings.NonBlankStrippedAppend` | convert_data_into_conll_format.py:9 | the filter distributes over concatenation, so the order of lines is kept |
| `PyStrings.NonBlankStrippedSingle` | convert_data_into_conll_format.py:9 | one line is kept, stripped, exactly when it is not all whitespace |
| `PyStrings.NonBlankStrippedKeeps` | convert_data_into_conll_format.py:9 | lines that are already non-empty and stripped pass through unchanged |
| `PyStrings.NonBlankStrippedIndices` | convert_data_into_conll_format.py:9 | the result is the stripped input lines at strictly increasing positions, and every input line that is not blank is kept |
| `PyStrings.SplitOn` | create_features_for_pos_crf_training.py:106-108 | `split(sep)` gives at least one piece, and no piece contains the separator |
| `PyStrings.SplitOnLength` | convert_data_into_conll_format.py:31-32 | the number of pieces is one more than the number of separators |
| `PyStrings.JoinWith` | create_features_for_pos_crf_training.py:61 | `sep.join(parts)`; its properties are `JoinCount`, `JoinKeepsOut`, `JoinSplit`, `SplitJoin` and `JoinVisible` |
| `PyStrings.JoinKeepsOut` | convert_data_into_conll_format.py:41 | joining adds no character other than the separator |
| `PyStrings.JoinVisible` | create_features_for_pos_crf_training.py:120-122 | a join with some non-blank part is not blank |
| `PyStrings.JoinCount` | create_features_for_pos_crf_training.py:61 | a join of a non-empty list of separator-free parts holds exactly one separator fewer than it has parts |
| `PyStrings.JoinSplit` | convert_data_into_conll_format.py:31 | joining the pieces with the separator gives back the string |
| `PyStrings.SplitJoin` | convert_data_into_conll_format.py:41 | splitting a join of a non-empty list of separator-free parts gives back the parts |
| `PyStrings.SplitWs` | convert_data_into_conll_format.py:29 | `split()` gives only non-empty units without whitespace |
| `PyStrings.SplitWsKeepsText` | convert_data_into_conll_format.py:29 | the units, concatenated, are the line minus its whitespace |
| `PyStrings.SplitWsEmpty` | convert_data_into_conll_format.py:29 | there are no units exactly when the line is all whitespace |
| `PyStrings.SplitWsLeadingSpace` | convert_data_into_conll_format.py:29 | leading whitespace gives no unit |
| `PyStrings.SplitWsWord` | convert_data_into_conll_format.py:29 | a non-empty whitespace-free word followed by whitespace is exactly the first unit, and splitting goes on after the whitespace, so units are maximal |
| `PyStrings.SplitWsSingle` | convert_data_into_conll_format.py:29 | a non-empty whitespace-free string is its own single unit |
| `PyStrings.ReplaceAll` | create_features_for_pos_crf_training.py:121 | a replacement no longer than the pattern never lengthens the string; one of the same length keeps the length |
| `PyStrings.ReplaceCharIsJoinSplit` | create_features_for_pos_crf_training.py:121 | replacing a character by another is splitting on the first and joining with the second, `s.replace(c, d) == d.join(s.split(c))` |
| `PyStrings.ReplaceAbsent` | create_features_for_pos_crf_training.py:121 | replace leaves a string without the pattern unchanged |
| `PyStrings.ReplaceCharRemoves` | create_features_for_pos_crf_training.py:121 | replacing a one-character pattern with another character removes every occurrence |
| `PyStrings.ReplaceKeepsOut` | create_features_for_pos_crf_training.py:121 | a character in neither the string nor the replacement never appears in the result of `replace` |
| `Convert.ReadLinesFromAFile` | convert_data_into_conll_format.py:6-9 | no more lines than the file, each non-empty, stripped and the stripped form of some line of the file |
| `Convert.Pairs` | convert_data_into_conll_format.py:37-39 | one `token<TAB>pos` line per unit, in unit order |
| `Convert.FirstMalformed` | convert_data_into_conll_format.py:30-36 | the position of the first unit without exactly two backslash parts; every earlier unit has them |
| `Convert.LineToConll` | convert_data_into_conll_format.py:28-43 | a line converts exactly when each unit has two parts; otherwise the report names the first bad unit and its position; a converted sentence ends in a newline |
| `Convert.Pair` | convert_data_into_conll_format.py:38-39 | `token + '\t' + pos` for the two parts of a unit; its properties are `PairParts` and `PairRoundTrip` |
| `Convert.PairParts` | convert_data_into_conll_format.py:31-39 | both parts of a well-formed unit contain neither a backslash nor whitespace |
| `Convert.PairRoundTrip` | convert_data_into_conll_format.py:31-39 | a CoNLL line splits on its tab into its unit's two parts; those joined with a backslash give the unit; the line holds no newline |
| `Convert.ConvertedRoundTrip` | convert_data_into_conll_format.py:40-42 | for a line with at least one unit (every read line has one), dropping the sentence's final newline and splitting on newlines gives back the `token<TAB>pos` lines |
| `Convert.ConvertLine` | convert_data_into_conll_format.py:28-43 | the loop with its early break gives exactly the conversion or the first bad unit |
| `Convert.ConvertedSentences` | convert_data_into_conll_format.py:27-43 | there are never more sentences than lines |
| `Convert.Diagnostics` | convert_data_into_conll_format.py:27-36 | there are never more reports than lines |
| `Convert.ConvertCounts` | convert_data_into_conll_format.py:27-43 | each line gives a sentence or a report, never both; so there are never more sentences than lines |
| `Convert.ConvertedSentencesAppend` | convert_data_into_conll_format.py:27-43 | conversion distributes over concatenation, so sentences keep the order of their lines |
| `Convert.ConvertedSentencesEnd` | convert_data_into_conll_format.py:41-42 | every converted sentence is non-empty and ends in a newline |
| `Convert.DiagnosticsValid` | convert_data_into_conll_format.py:32-35 | every report carries the 1-based number of a malformed line, that line and its first bad unit |
| `Convert.DiagnosticsComplete` | convert_data_into_conll_format.py:27-35 | every malformed line is reported under its 1-based number |
| `Convert.DiagnosticOfLine` | convert_data_into_conll_format.py:32-35 | the report of a malformed line is exactly its number, the line and its first bad unit |
| `Convert.DiagnosticsOrdered` | convert_data_into_conll_format.py:27-35 | the reported line numbers strictly increase |
| `Convert.WriteListToFile` | convert_data_into_conll_format.py:47-50 | the written text is never empty and always ends in a newline |
| `Convert.WriteListTerminated` | convert_data_into_conll_format.py:50 | a non-empty list is written as each sentence followed by a newline; an empty list is written as a single newline |
| `Convert.WriteListSeparated` | convert_data_into_conll_format.py:42-50 | when every sentence ends in its own newline (as `ConvertedSentencesEnd` gives), the text written through each sentence ends in two newlines, so sentences are separated by empty lines |
| `Convert.ReadFileConvertDataIntoConllAndWrite` | convert_data_into_conll_format.py:22-44 | the loop over the read lines gives the converted sentences and the reports of the malformed lines, both in input order, and the text those sentences write |

## Left out

- File access is left out: opening, reading and writing files, `read_text_from_file` and `read_lines_from_file`. The model takes a file's lines as a sequence and returns the text that would be written.
- Python's universal-newline translation and the line terminators that `readlines` keeps are not modelled. Every line is stripped before use, so terminators never reach the output.
- `find_sentences_from_ssf_text` is a regular-expression search, and regular expressions are outside the model. `FindFeaturesFromSentences` accepts any list of sentences, SSF ones included.
- `read_file_and_find_features_from_sentences` is not modelled. It only chooses between the SSF segmenter, which is left out, and `FindSentencesFromConllText`, and then calls `FindFeaturesFromSentences`.
- `main` is left out, along with argument parsing and directory traversal.
- `read_files_from_folder_convert_into_conll_and_write` is left out. Its call at convert_data_into_conll_format.py:19 passes the undefined name `out_path`, so a NameError is raised while the arguments of the very first call are evaluated, and no file is converted.
- The `print` calls are not modelled as output. The sentence count printed at line 70 is stated by the `|sentences| == Runs(lines)` postcondition instead. The malformed-unit messages are returned as `Convert.Diagnostic` values.
- `Features.FindFeaturesFromSentences` requires SSF lines to have at least three tab fields. The source raises IndexError on such a line. The specification functions behind the method are total and read a missing field as the empty string.
- `Features.AffixFeats` takes the affix length as a natural number. The source is only ever called with lengths 1 to 7.
- `PyStrings.ReplaceAll` requires a non-empty pattern. The source only replaces "__" and "-".
- `Features.TokenFeatures`, `Features.AnnotatedLineFeatures` and `Features.FindSentenceFeatures` are the bodies of the nested loops of `find_features_from_sentences`, written as methods of their own. The source has them inline.
- Strings are sequences of Unicode scalar values. Python strings can also hold lone surrogates, which are not modelled.
- Tag normalisation is not idempotent: `.replace('__', '_')` runs once, so "___" becomes "__" (`NormaliseTagNotIdempotent`).
- No non-empty feature-input line is ever skipped (`if line:` skips only empty ones):
  - a CoNLL line always yields a token and a tag;
  - a CoNLL line without a tab is both its own token and its own tag;
  - an SSF line with fewer than three fields raises IndexError (hence the precondition above).
  Malformed lines are dropped only during conversion, and that is proved there.
