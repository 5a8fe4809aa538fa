/** `preprocessor(text)`: strip tags, extract emoticons from the stripped text, normalise
    the words of the stripped text, and append the emoticons with their noses dropped. */
module Preprocessor {
  import opened Text
  import opened TagStrip
  import opened Emoticons
  import opened WordNorm

  /** The output alphabet: lower-case word characters, spaces, eyes and mouths. */
  predicate OutputChar(c: char) {
    (IsWordChar(c) && !IsUpper(c)) || c == ' ' || IsEye(c) || IsMouth(c)
  }

  /** A word segment followed by an emoticon segment is made of output characters only. */
  lemma OutputOfParts(words: string, segment: string)
    requires Collapsed(words) && forall k :: 0 <= k < |words| ==> !IsUpper(words[k])
    requires forall k :: 0 <= k < |segment| ==> SegmentChar(segment[k])
    ensures forall k :: 0 <= k < |words + segment| ==> OutputChar((words + segment)[k])
  {
    var r := words + segment;
    forall k | 0 <= k < |r| ensures OutputChar(r[k]) {
      if k < |words| {
        assert r[k] == words[k];
      } else {
        assert r[k] == segment[k - |words|];
      }
    }
  }

  /** The preprocessor. Its output is made only of lower-case word characters, spaces,
      emoticon eyes and mouths: no markup bracket and no `-` survives. */
  function Preprocess(text: string): (r: string)
    ensures forall k :: 0 <= k < |r| ==> OutputChar(r[k])
    ensures '<' !in r && '>' !in r && '-' !in r
  {
    var stripped := StripTags(text);
    var emoticons := FindEmoticons(stripped);
    var words := NormaliseWords(stripped);
    var segment := EmoticonSegment(emoticons);
    OutputOfParts(words, segment);
    assert !OutputChar('<') && !OutputChar('>') && !OutputChar('-');
    words + segment
  }

  /** The empty message maps to the empty string. */
  lemma PreprocessEmpty()
    ensures Preprocess("") == ""
  {
    assert StripTags("") == "";
    assert Scan("", 0) == [];
    assert Collapse(Lower("")) == "";
  }

  /** When the scan of the stripped text finds no emoticon, the output is just the
      word-normalised segment: nothing, not even a separator, is appended. */
  lemma PreprocessNoEmoticonFound(text: string)
    requires Scan(StripTags(text), 0) == []
    ensures FindEmoticons(StripTags(text)) == []
    ensures Preprocess(text) == NormaliseWords(StripTags(text))
  {
    PreprocessWordsFirst(text);
  }

  /** A message with no eye anywhere has no emoticon once stripped, so its output is
      just the word-normalised segment. */
  lemma PreprocessWithoutEmoticons(text: string)
    requires forall k :: 0 <= k < |text| ==> !IsEye(text[k])
    ensures FindEmoticons(StripTags(text)) == []
    ensures Preprocess(text) == NormaliseWords(StripTags(text))
  {
    var t := StripTags(text);
    StripKeepsCharacters(text);
    forall k | 0 <= k < |t| ensures !IsEye(t[k]) {
      assert t[k] in multiset(t);
      assert t[k] in multiset(text);
    }
    NoEyeNoEmoticon(t);
    PreprocessNoEmoticonFound(text);
  }

  /** On tag-free text the output is the word-normalised text followed directly by the
      emoticon segment of that same text. */
  lemma PreprocessTagFree(text: string)
    requires TagFree(text)
    ensures Preprocess(text) == NormaliseWords(text) + EmoticonSegment(FindEmoticons(text))
  {
    StripTagFree(text);
  }

  /** A tag with no `<` before it contributes nothing to the output, not even an emoticon
      written inside it: tags are deleted before emoticons are extracted. (An earlier `<`
      can start a longer match that swallows the tag, as in `"<a<b>"`.) */
  lemma PreprocessDropsTag(p: string, t: string, q: string)
    requires '<' !in p
    requires IsTag(t)
    ensures Preprocess(p + t + q) == Preprocess(p + q)
  {
    StripAroundTag(p, t, q);
    StripPlainPrefix(p, q);
  }

  /** The output is the word-normalised stripped text followed directly by the emoticon
      segment of the stripped text. */
  lemma PreprocessSplit(text: string)
    ensures Preprocess(text) ==
      NormaliseWords(StripTags(text)) + EmoticonSegment(FindEmoticons(StripTags(text)))
  {
  }

  /** The output starts with the word-normalised stripped text, and the emoticon segment
      adds three characters per emoticon found in the stripped text, less one. */
  lemma PreprocessWordsFirst(text: string)
    ensures Preprocess(text)[..|NormaliseWords(StripTags(text))|] == NormaliseWords(StripTags(text))
    ensures |Preprocess(text)| == |NormaliseWords(StripTags(text))| +
      (if Scan(StripTags(text), 0) == [] then 0 else 3 * |Scan(StripTags(text), 0)| - 1)
  {
    PreprocessSplit(text);
  }

  /** Emoticon `k` of a segment appended to some words: its eye and mouth sit at offsets
      `3k` and `3k + 1` after the words. */
  lemma AppendedEmoticonAt(words: string, es: seq<string>, k: nat)
    requires AllGlyphs(es) && k < |es|
    ensures |words| + 3 * k + 1 < |words + EmoticonSegment(es)|
    ensures (words + EmoticonSegment(es))[|words| + 3 * k] == es[k][0]
    ensures (words + EmoticonSegment(es))[|words| + 3 * k + 1] == Reduce(es[k])[1]
  {
    var segment := EmoticonSegment(es);
    SegmentEmoticonAt(es, k);
    ConcatAt(words, segment, 3 * k);
    ConcatAt(words, segment, 3 * k + 1);
  }

  /** The eye half of `PreprocessEmoticonAt`, proved on its own to keep each proof small. */
  lemma PreprocessEyeAt(text: string, k: nat)
    requires k < |FindEmoticons(StripTags(text))|
    ensures |NormaliseWords(StripTags(text))| + 3 * k + 1 < |Preprocess(text)|
    ensures Preprocess(text)[|NormaliseWords(StripTags(text))| + 3 * k] ==
      FindEmoticons(StripTags(text))[k][0]
  {
    var t := StripTags(text);
    var words := NormaliseWords(t);
    var es := FindEmoticons(t);
    assert Preprocess(text) == words + EmoticonSegment(es) by { PreprocessSplit(text); }
    AppendedEmoticonAt(words, es, k);
  }

  /** The mouth half of `PreprocessEmoticonAt`, proved on its own to keep each proof small. */
  lemma PreprocessMouthAt(text: string, k: nat)
    requires k < |FindEmoticons(StripTags(text))|
    ensures Preprocess(text)[|NormaliseWords(StripTags(text))| + 3 * k + 1] ==
      Reduce(FindEmoticons(StripTags(text))[k])[1]
  {
    var t := StripTags(text);
    var words := NormaliseWords(t);
    var es := FindEmoticons(t);
    assert Preprocess(text) == words + EmoticonSegment(es) by { PreprocessSplit(text); }
    AppendedEmoticonAt(words, es, k);
  }

  /** Where emoticon `k` lands: the `k`-th emoticon found in the stripped text, its nose
      dropped, sits at offsets `3k` and `3k + 1` after the word segment. */
  lemma PreprocessEmoticonAt(text: string, k: nat)
    requires k < |FindEmoticons(StripTags(text))|
    ensures |NormaliseWords(StripTags(text))| + 3 * k + 1 < |Preprocess(text)|
    ensures Preprocess(text)[|NormaliseWords(StripTags(text))| + 3 * k] ==
      FindEmoticons(StripTags(text))[k][0]
    ensures Preprocess(text)[|NormaliseWords(StripTags(text))| + 3 * k + 1] ==
      Reduce(FindEmoticons(StripTags(text))[k])[1]
  {
    PreprocessEyeAt(text, k);
    PreprocessMouthAt(text, k);
  }

  /** In text without upper-case letters every match the scan finds ends in `)` or `(`. */
  lemma ScanWithoutCapitals(low: string)
    requires forall i :: 0 <= i < |low| ==> !IsUpper(low[i])
    ensures forall k :: 0 <= k < |Scan(low, 0)| ==>
      var g := Scan(low, 0)[k].glyph;
      g[|g| - 1] == ')' || g[|g| - 1] == '('
  {
    var ms := Scan(low, 0);
    ScanMatchesText(low, 0);
    forall k | 0 <= k < |ms|
      ensures ms[k].glyph[|ms[k].glyph| - 1] == ')' || ms[k].glyph[|ms[k].glyph| - 1] == '('
    {
      var g := ms[k].glyph;
      var j := ms[k].start + |g| - 1;
      assert OccursAt(low, ms[k]);
      assert g[|g| - 1] == low[j];
    }
  }

  /** Emoticons are found before lower-casing. Run on lower-cased text the scan could
      only ever find `)` and `(` mouths: `:d` and `:p` are not emoticons. */
  lemma LowerCaseHidesLetterMouths(s: string)
    ensures forall k :: 0 <= k < |FindEmoticons(Lower(s))| ==>
      var e := FindEmoticons(Lower(s))[k];
      e[|e| - 1] == ')' || e[|e| - 1] == '('
  {
    ScanWithoutCapitals(Lower(s));
  }

  /** `:D` is an emoticon in the text as written, but not once lower-cased. */
  lemma LaughIsFoundBeforeLowering()
    ensures FindEmoticons(":D") == [":D"]
    ensures FindEmoticons(Lower(":D")) == []
  {
    assert MatchLength(":D", 0) == 2;
    assert Scan(":D", 2) == [];
    assert ":D"[0..2] == ":D";
    assert Scan(":D", 0) == [Match(0, ":D")];
    assert Glyphs([Match(0, ":D")]) == [":D"];
    assert Lower(":D") == ":d";
    assert MatchLength(":d", 0) == 0 && MatchLength(":d", 1) == 0;
    assert Scan(":d", 2) == [];
    assert Scan(":d", 1) == [];
  }
}
