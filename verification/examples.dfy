/** Worked examples of the preprocessor on short concrete messages. Each is proved step by
    step (the tag strip, the word segment, the emoticon segment), then as a whole. */
module Examples {
  import opened Text
  import opened TagStrip
  import opened Emoticons
  import opened WordNorm
  import opened Preprocessor

  // "<b>Hi": the tag goes and the word is lower-cased; with no emoticon nothing is appended.

  lemma TagHiStrip()
    ensures StripTags("<b>Hi") == "Hi"
  {
    var s := "<b>Hi";
    assert s[1..][1] == '>';
    assert TagLength(s) == 3;
    assert s[3..] == "Hi";
    StripWithoutOpen("Hi");
  }

  lemma TagHiWords()
    ensures NormaliseWords("Hi") == "hi"
  {
    assert Lower("Hi") == "hi";
    CollapseCollapsed("hi");
  }

  lemma TagHiSegment()
    ensures EmoticonSegment(FindEmoticons("Hi")) == ""
  {
    NoEyeNoEmoticon("Hi");
  }

  lemma TagHi()
    ensures Preprocess("<b>Hi") == "hi"
  {
    TagHiStrip();
    TagHiWords();
    TagHiSegment();
  }

  // "A!;)": upper case is lowered, the run "!;)" becomes one space, and the wink is
  // appended right after that space.

  lemma WinkStrip()
    ensures StripTags("A!;)") == "A!;)"
  {
    StripWithoutOpen("A!;)");
  }

  lemma WinkScan()
    ensures FindEmoticons("A!;)") == [";)"]
  {
    var t := "A!;)";
    ScanSkipsNoEye(t, 0, 2);
    assert MatchLength(t, 2) == 2;
    assert t[2..4] == ";)";
    assert Scan(t, 4) == [];
    assert Scan(t, 2) == [Match(2, ";)")];
  }

  lemma WinkWords()
    ensures NormaliseWords("A!;)") == "a "
  {
    var low := "a!;)";
    assert Lower("A!;)") == low;
    assert low[1..] == "!;)";
    assert "!;)"[1..] == ";)";
    assert ";)"[1..] == ")";
    assert Collapse(")") == " ";
  }

  lemma WinkSegment()
    ensures EmoticonSegment(FindEmoticons("A!;)")) == ";)"
  {
    WinkScan();
    RemoveNose(";)");
  }

  lemma Wink()
    ensures Preprocess("A!;)") == "a ;)"
  {
    WinkStrip();
    WinkWords();
    WinkSegment();
  }

  // "a:-)": the nose is deleted from the appended emoticon.

  lemma NoseStrip()
    ensures StripTags("a:-)") == "a:-)"
  {
    StripWithoutOpen("a:-)");
  }

  lemma NoseScan()
    ensures FindEmoticons("a:-)") == [":-)"]
  {
    var t := "a:-)";
    assert MatchLength(t, 0) == 0;
    assert MatchLength(t, 1) == 3;
    assert t[1..4] == ":-)";
    assert Scan(t, 4) == [];
    assert Scan(t, 0) == [Match(1, ":-)")];
  }

  lemma NoseWords()
    ensures NormaliseWords("a:-)") == "a "
  {
    var t := "a:-)";
    assert Lower(t) == t;
    assert t[1..] == ":-)";
    assert ":-)"[1..] == "-)";
    assert "-)"[1..] == ")";
    assert Collapse(")") == " ";
  }

  lemma NoseSegment()
    ensures EmoticonSegment(FindEmoticons("a:-)")) == ":)"
  {
    NoseScan();
    RemoveNose(":-)");
  }

  lemma Nose()
    ensures Preprocess("a:-)") == "a :)"
  {
    NoseStrip();
    NoseWords();
    NoseSegment();
  }

  /** A smiley written inside a tag is deleted with the tag before the scan for emoticons. */
  lemma SmileyInsideTag()
    ensures Preprocess("<:)>") == ""
  {
    assert "<:)>" == [] + "<:)>" + [];
    PreprocessDropsTag([], "<:)>", []);
    assert [] + [] == "";
    PreprocessEmpty();
  }

  // "<b>Hello</b> World": both tags go; the space between the words is the only non-word
  // run, so no space is added at the end. The message is written as its four pieces.

  lemma HelloStripClose()
    ensures StripTags("Hello" + "</b>" + " World") == "Hello World"
  {
    assert IsTag("</b>");
    StripAroundTag("Hello", "</b>", " World");
    StripWithoutOpen(" World");
  }

  lemma HelloStrip()
    ensures StripTags("<b>" + "Hello" + "</b>" + " World") == "Hello World"
  {
    var rest := "Hello" + "</b>" + " World";
    assert IsTag("<b>");
    StripHeadTag("<b>", rest);
    HelloStripClose();
    assert "<b>" + "Hello" + "</b>" + " World" == "<b>" + rest;
  }

  lemma HelloLower()
    ensures Lower("Hello World") == "hello world"
  {
  }

  lemma HelloCollapsed()
    ensures Collapsed("hello world")
  {
  }

  lemma HelloWords()
    ensures NormaliseWords("Hello World") == "hello world"
  {
    HelloLower();
    HelloCollapsed();
    CollapseCollapsed("hello world");
  }

  lemma HelloSegment()
    ensures EmoticonSegment(FindEmoticons("Hello World")) == ""
  {
    NoEyeNoEmoticon("Hello World");
  }

  lemma Hello()
    ensures Preprocess("<b>" + "Hello" + "</b>" + " World") == "hello world"
  {
    var text := "<b>" + "Hello" + "</b>" + " World";
    HelloStrip();
    HelloWords();
    HelloSegment();
    PreprocessSplit(text);
  }
}
