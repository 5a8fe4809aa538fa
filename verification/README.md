# Spam-classifier text preprocessor, modelled in Dafny

The spam-detection service classifies a free-text message after passing it through
`preprocessor` (`fastapi-mlserving-build/app/main.py`, lines 29-33). This project models
that function and proves properties of it. The function is a chain of four steps:

1. **Tag strip** — `re.sub('<[^>]*>', '', text)`. Tags are found leftmost first and never
   overlap. A tag runs from a `<` to the first `>` after it, and is deleted. A `<` with no
   `>` anywhere after it stays in the text.
2. **Emoticon extraction** — `re.findall('(?::|;|=)(?:-)?(?:\)|\(|D|P)', text)` on the
   stripped text. It finds an eye (`:` `;` `=`), then an optional nose `-`, then a mouth
   (`)` `(` `D` `P`). Matches are non-overlapping and taken left to right, duplicates are
   kept, and the mouths are case-sensitive.
3. **Word normalisation** — `re.sub('[\W]+', ' ', text.lower())` on the stripped text.
   Each maximal run of non-word characters becomes one space.
4. **Concatenation** — `' '.join(emoticons).replace('-', '')` is appended to the
   normalised words with no separator.

The model is pure, like the source: recursive functions over `string` (`seq<char>`),
plus lemmas. The files are:

- `text.dfy` (module `Text`): the ASCII word-character class and `lower()`, plus `join`
  and `replace(c, '')`.
- `tag_strip.dfy` (module `TagStrip`): step 1.
- `emoticons.dfy` (module `Emoticons`): step 2 and the emoticon half of step 4.
  - The scan records where each match starts, so its result can be compared with a
    reference definition: every position where the pattern matches.
  - The two agree because a nose or a mouth is never an eye, so matches cannot overlap.
- `word_norm.dfy` (module `WordNorm`): step 3.
- `preprocessor.dfy` (module `Preprocessor`): the composition and end-to-end properties.
- `examples.dfy` (module `Examples`): short concrete messages worked through each step.

For example, `"<b>Hello</b> World"` gives `"hello world"`, with no space at the end: the
stripped text `"Hello World"` does not end in a non-word run, so `re.sub` adds no space
there (`Examples.Hello`). The empty message gives the empty string (`PreprocessEmpty`).

## Model

| member | source | states |
|---|---|---|
| Text.IsWordChar | fastapi-mlserving-build/app/main.py:32 | `\w` read on ASCII: the space, `<`, `>`, `-`, the eyes and the `(` `)` mouths are not word characters, and every capital letter is (so `D` and `P` are) |
| Text.LowerChar | fastapi-mlserving-build/app/main.py:32 | `lower()` on one character: the result is never an upper-case letter and is a word character exactly when the input is; other characters stay as they are; `A`-`Z` map to the same letter in `a`-`z` |
| Text.Lower | fastapi-mlserving-build/app/main.py:32 | `text.lower()` keeps the length and lowers each character in place |
| Text.LowerOfLower | fastapi-mlserving-build/app/main.py:32 | lowering twice is lowering once |
| Text.Join | fastapi-mlserving-build/app/main.py:32 | `' '.join(parts)`: the length is the parts' total length plus one separator between each two consecutive parts, and the first part comes first |
| Text.JoinSnoc | fastapi-mlserving-build/app/main.py:32 | joining one more part appends the separator and that part: the parts follow each other in order, one separator between each two |
| Text.Remove | fastapi-mlserving-build/app/main.py:32 | `replace('-', '')`: the deleted character no longer occurs |
| Text.RemoveKeepsOthers | fastapi-mlserving-build/app/main.py:32 | `replace(c, '')` keeps the count of every other character, and the result is a subsequence of the input |
| Text.RemoveConcat | fastapi-mlserving-build/app/main.py:32 | deleting a character distributes over concatenation |
| Text.RemoveAbsent | fastapi-mlserving-build/app/main.py:32 | a string without the character is unchanged |
| TagStrip.IndexOf | fastapi-mlserving-build/app/main.py:30 | the position found holds the character, and the character does not occur before it (the first `>` that ends `[^>]*`) |
| TagStrip.IsTag | fastapi-mlserving-build/app/main.py:30 | a text matched by `<[^>]*>` begins with `<` and has a `>` after it, which is where the scan starts a match |
| TagStrip.TagLength | fastapi-mlserving-build/app/main.py:30 | the tag at the head of the text is `<`, no `>`, then `>` |
| TagStrip.TagLengthUnique | fastapi-mlserving-build/app/main.py:30 | no other prefix is a tag: the match cannot run past the first `>` |
| TagStrip.StripTags | fastapi-mlserving-build/app/main.py:30 | the result is never longer than the input |
| TagStrip.StripKeepsCharacters | fastapi-mlserving-build/app/main.py:30 | no character occurs more often after the step: the step only deletes |
| TagStrip.StripWithoutOpen | fastapi-mlserving-build/app/main.py:30 | text without `<` is unchanged |
| TagStrip.StripWithoutClose | fastapi-mlserving-build/app/main.py:30 | text without `>` is unchanged, so a lone `<` stays |
| TagStrip.StripLeavesNoTag | fastapi-mlserving-build/app/main.py:30 | in the result no `<` is followed anywhere later by a `>` |
| TagStrip.StripTagFree | fastapi-mlserving-build/app/main.py:30 | text in which no `<` is followed later by a `>` is unchanged |
| TagStrip.StripFixedPoint | fastapi-mlserving-build/app/main.py:30 | the step leaves a text unchanged if and only if no `<` in it is followed later by a `>` |
| TagStrip.StripIdempotent | fastapi-mlserving-build/app/main.py:30 | stripping twice is stripping once |
| TagStrip.StripIsSubsequence | fastapi-mlserving-build/app/main.py:30 | the result is a subsequence of the input and never longer: characters are deleted, never changed or reordered |
| TagStrip.StripHeadTag | fastapi-mlserving-build/app/main.py:30 | a tag at the head is deleted whole and the scan resumes after it |
| TagStrip.StripPlainHead | fastapi-mlserving-build/app/main.py:30 | a head character other than `<` is kept |
| TagStrip.StripPlainPrefix | fastapi-mlserving-build/app/main.py:30 | a prefix without `<` is kept as it is in front of the stripped rest |
| TagStrip.StripAroundTag | fastapi-mlserving-build/app/main.py:30 | leftmost first: with no `<` before a tag, the text before it is kept, the tag goes, and the rest is stripped |
| Emoticons.IsGlyph | fastapi-mlserving-build/app/main.py:31 | a text matched by the emoticon pattern is two or three characters long, an eye first and a mouth last, and no character after the first is an eye |
| Emoticons.MatchLength | fastapi-mlserving-build/app/main.py:31 | a positive length is an emoticon occurring at that position; zero means that neither the two- nor the three-character form matches there |
| Emoticons.Scan | fastapi-mlserving-build/app/main.py:31 | every result is an emoticon (eye, optional `-`, mouth) lying inside the text at or after the starting position |
| Emoticons.ScanMatchesText | fastapi-mlserving-build/app/main.py:31 | every result is what the text holds at its recorded position |
| Emoticons.ScanOrdered | fastapi-mlserving-build/app/main.py:31 | the results come left to right and do not overlap |
| Emoticons.NoMatchInsideMatch | fastapi-mlserving-build/app/main.py:31 | no match starts inside another, because a nose or mouth is never an eye |
| Emoticons.PositionsSkipMatch | fastapi-mlserving-build/app/main.py:31 | skipping over a match loses no match position |
| Emoticons.ScanFindsEveryMatch | fastapi-mlserving-build/app/main.py:31 | the scan's start positions are exactly the positions where the pattern matches, in increasing order, so every occurrence is found and duplicates are kept |
| Emoticons.ScanSkipsNoEye | fastapi-mlserving-build/app/main.py:31 | a stretch without an eye contributes no match |
| Emoticons.NoEyeNoEmoticon | fastapi-mlserving-build/app/main.py:31 | text without an eye yields no emoticon |
| Emoticons.FindEmoticons | fastapi-mlserving-build/app/main.py:31 | `findall` returns only emoticons |
| Emoticons.Reduce | fastapi-mlserving-build/app/main.py:32 | an emoticon without its nose is its eye followed by its mouth |
| Emoticons.ReduceAll | fastapi-mlserving-build/app/main.py:32 | reduces every emoticon in place, keeping the count |
| Emoticons.RemoveNose | fastapi-mlserving-build/app/main.py:32 | deleting `-` from one emoticon leaves its eye and mouth |
| Emoticons.RemoveNosesFromJoin | fastapi-mlserving-build/app/main.py:32 | `' '.join(es).replace('-', '')` is the space-joined list of the reduced emoticons |
| Emoticons.JoinPairsLayout | fastapi-mlserving-build/app/main.py:32 | joined two-character items sit at positions 3k and 3k+1, each followed by a space except the last |
| Emoticons.JoinPairsChars | fastapi-mlserving-build/app/main.py:32 | joined eye-mouth pairs contain only eyes, mouths and spaces |
| Emoticons.EmoticonSegment | fastapi-mlserving-build/app/main.py:32 | the emoticon segment contains no `-`, only eyes, mouths and spaces; its length is 3n-1 for n emoticons, or 0 |
| Emoticons.EmoticonSegmentLayout | fastapi-mlserving-build/app/main.py:32 | emoticon k appears as its eye and mouth at positions 3k and 3k+1, and single spaces separate consecutive emoticons |
| Emoticons.SegmentEmoticonAt | fastapi-mlserving-build/app/main.py:32 | emoticon k has its eye at position 3k and its mouth at 3k+1 of the segment |
| WordNorm.Collapse | fastapi-mlserving-build/app/main.py:32 | `re.sub('[\W]+', ' ', s)` is never longer than `s` and is empty exactly when `s` is |
| WordNorm.CollapseEnds | fastapi-mlserving-build/app/main.py:32 | a word character at either end is kept there; a non-word run at either end becomes a space there |
| WordNorm.CollapseShape | fastapi-mlserving-build/app/main.py:32 | the result holds only spaces and word characters of the input, and never two spaces in a row |
| WordNorm.CollapseKeepsWords | fastapi-mlserving-build/app/main.py:32 | the word characters survive in order, and no other word character appears |
| WordNorm.CollapseSpacesFrom | fastapi-mlserving-build/app/main.py:32 | the number of spaces produced from a suffix equals the number of non-word runs starting in it, plus one if the suffix begins inside a run |
| WordNorm.CollapseSpaceCount | fastapi-mlserving-build/app/main.py:32 | one space for each maximal non-word run |
| WordNorm.CollapseSplit | fastapi-mlserving-build/app/main.py:32 | the collapse of a concatenation is the concatenation of the collapses when the seam does not cut a non-word run |
| WordNorm.CollapseCollapsed | fastapi-mlserving-build/app/main.py:32 | text made of word characters and separated single spaces is unchanged |
| WordNorm.NormaliseWords | fastapi-mlserving-build/app/main.py:32 | the word segment has only word characters and single, separated spaces, and no upper-case letter |
| WordNorm.LowerKeepsRuns | fastapi-mlserving-build/app/main.py:32 | lower-casing does not change where the non-word runs are |
| WordNorm.WordSegmentShape | fastapi-mlserving-build/app/main.py:32 | the word segment has exactly one space per maximal non-word run of its input and holds the input's word characters, lower-cased, in order |
| WordNorm.NormaliseIdempotent | fastapi-mlserving-build/app/main.py:32 | normalising twice is normalising once |
| Preprocessor.Preprocess | fastapi-mlserving-build/app/main.py:29-33 | the output contains only lower-case word characters, spaces, eyes and mouths; no `<`, `>` or `-` survives |
| Preprocessor.PreprocessEmpty | fastapi-mlserving-build/app/main.py:29-33 | the empty message maps to the empty string |
| Preprocessor.PreprocessNoEmoticonFound | fastapi-mlserving-build/app/main.py:31-32 | when `findall` finds nothing in the stripped text, the output is just the normalised words, with no separator appended |
| Preprocessor.PreprocessWithoutEmoticons | fastapi-mlserving-build/app/main.py:31-32 | a message without an eye anywhere yields no emoticon, so its output is just the normalised words |
| Preprocessor.PreprocessTagFree | fastapi-mlserving-build/app/main.py:30-32 | on tag-free text the output is the normalised words followed directly by the emoticon segment of the same text |
| Preprocessor.PreprocessDropsTag | fastapi-mlserving-build/app/main.py:30-32 | a tag with no `<` before it contributes nothing to the output, not even an emoticon written inside it |
| Preprocessor.PreprocessSplit | fastapi-mlserving-build/app/main.py:29-33 | the output is exactly the normalised stripped text followed directly by the emoticon segment of the stripped text |
| Preprocessor.PreprocessWordsFirst | fastapi-mlserving-build/app/main.py:32 | the output begins with the normalised stripped text; its length adds 3n-1 for n emoticons, or 0 when none is found |
| Preprocessor.AppendedEmoticonAt | fastapi-mlserving-build/app/main.py:32 | with an emoticon segment appended to some words, emoticon k's eye and mouth sit at offsets 3k and 3k+1 after the words |
| Preprocessor.PreprocessEmoticonAt | fastapi-mlserving-build/app/main.py:31-32 | the k-th emoticon found in the stripped text appears, nose dropped, as its eye and mouth at offsets 3k and 3k+1 after the word segment |
| Preprocessor.ScanWithoutCapitals | fastapi-mlserving-build/app/main.py:31 | in text without capital letters every match ends in `)` or `(` |
| Preprocessor.LowerCaseHidesLetterMouths | fastapi-mlserving-build/app/main.py:31-32 | a scan of lower-cased text could only find `)` and `(` mouths, which is why extraction must come before lower-casing |
| Preprocessor.LaughIsFoundBeforeLowering | fastapi-mlserving-build/app/main.py:31-32 | `:D` is extracted from the text as written, but not from its lower-cased form |
| Examples.TagHiStrip | fastapi-mlserving-build/app/main.py:30 | `"<b>Hi"` strips to `"Hi"` |
| Examples.TagHiWords | fastapi-mlserving-build/app/main.py:32 | `"Hi"` normalises to `"hi"` |
| Examples.TagHiSegment | fastapi-mlserving-build/app/main.py:31-32 | `"Hi"` gives an empty emoticon segment |
| Examples.TagHi | fastapi-mlserving-build/app/main.py:29-33 | `"<b>Hi"` preprocesses to `"hi"` |
| Examples.WinkStrip | fastapi-mlserving-build/app/main.py:30 | `"A!;)"` has no tag |
| Examples.WinkScan | fastapi-mlserving-build/app/main.py:31 | `"A!;)"` yields the single emoticon `";)"` |
| Examples.WinkWords | fastapi-mlserving-build/app/main.py:32 | `"A!;)"` normalises to `"a "`: the run `!;)` becomes one space |
| Examples.WinkSegment | fastapi-mlserving-build/app/main.py:32 | the emoticon segment of `"A!;)"` is `";)"` |
| Examples.Wink | fastapi-mlserving-build/app/main.py:29-33 | `"A!;)"` preprocesses to `"a ;)"` |
| Examples.NoseStrip | fastapi-mlserving-build/app/main.py:30 | `"a:-)"` has no tag |
| Examples.NoseScan | fastapi-mlserving-build/app/main.py:31 | `"a:-)"` yields the emoticon `":-)"`, found with its nose |
| Examples.NoseWords | fastapi-mlserving-build/app/main.py:32 | `"a:-)"` normalises to `"a "` |
| Examples.NoseSegment | fastapi-mlserving-build/app/main.py:32 | the nose is deleted: the segment is `":)"` |
| Examples.Nose | fastapi-mlserving-build/app/main.py:29-33 | `"a:-)"` preprocesses to `"a :)"` |
| Examples.SmileyInsideTag | fastapi-mlserving-build/app/main.py:29-33 | `"<:)>"` preprocesses to the empty string: the smiley goes with its tag |
| Examples.HelloStrip | fastapi-mlserving-build/app/main.py:30 | `"<b>Hello</b> World"` strips to `"Hello World"`: both tags go |
| Examples.HelloWords | fastapi-mlserving-build/app/main.py:32 | `"Hello World"` normalises to `"hello world"`, with no space added at the end |
| Examples.HelloSegment | fastapi-mlserving-build/app/main.py:31-32 | `"Hello World"` gives an empty emoticon segment |
| Examples.Hello | fastapi-mlserving-build/app/main.py:29-33 | `"<b>Hello</b> World"` preprocesses to `"hello world"` |

## Left out

- `classify_message` (`fastapi-mlserving-build/app/main.py:36-42`): it forwards the preprocessed text to the scikit-learn model's `predict` and `predict_proba`. Those are foreign calls into a trained model, and the probability is a float.
- Loading the model with `joblib.load` (`fastapi-mlserving-build/app/main.py:26`): file I/O in an external library's format.
- The FastAPI application and its routes (`fastapi-mlserving-build/app/main.py:23`, `45-59`): HTTP plumbing and async handlers that only forward the message.
- The Elastic APM configuration and middleware (`fastapi-mlserving-build/app/main.py:10-24`): reading environment variables and telemetry.
- Text.IsWordChar: `\w` is read as ASCII letters, digits and `_`. Python's Unicode `\w` also covers other alphabets and digits, which the model treats as non-word characters.
- Text.LowerChar: `lower()` is modelled on ASCII `A`-`Z` only. Unicode case mappings, including those that change a string's length, are not modelled.
