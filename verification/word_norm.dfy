/** The third step of the preprocessor: `re.sub('[\W]+', ' ', text.lower())`.
    Every maximal run of non-word characters becomes one space. */
module WordNorm {
  import opened Text

  /** `re.sub('[\W]+', ' ', s)`: a word character is kept; a non-word character followed
      by another one is dropped; the last character of a non-word run becomes a space. */
  function Collapse(s: string): (r: string)
    ensures |r| <= |s|
    ensures r == [] <==> s == []
  {
    if s == [] then []
    else if IsWordChar(s[0]) then [s[0]] + Collapse(s[1..])
    else if |s| > 1 && !IsWordChar(s[1]) then Collapse(s[1..])
    else [' '] + Collapse(s[1..])
  }

  /** A word character at either end of the input is kept there; a non-word run at either
      end becomes a space there. */
  lemma {:induction false} CollapseEnds(s: string)
    requires s != []
    ensures Collapse(s)[0] == (if IsWordChar(s[0]) then s[0] else ' ')
    ensures Collapse(s)[|Collapse(s)| - 1] == (if IsWordChar(s[|s| - 1]) then s[|s| - 1] else ' ')
  {
    if |s| > 1 {
      CollapseEnds(s[1..]);
      assert s[1..][0] == s[1];
      assert s[1..][|s[1..]| - 1] == s[|s| - 1];
    }
  }

  /** The result holds only spaces and word characters of the input, and never two spaces
      in a row. */
  lemma {:induction false} CollapseShape(s: string)
    ensures forall k :: 0 <= k < |Collapse(s)| ==>
      Collapse(s)[k] == ' ' || (IsWordChar(Collapse(s)[k]) && Collapse(s)[k] in s)
    ensures forall k :: 0 < k < |Collapse(s)| ==> !(Collapse(s)[k - 1] == ' ' && Collapse(s)[k] == ' ')
  {
    if s != [] {
      CollapseShape(s[1..]);
      var rest := Collapse(s[1..]);
      var r := Collapse(s);
      assert forall c :: c in s[1..] ==> c in s;
      if IsWordChar(s[0]) || !(|s| > 1 && !IsWordChar(s[1])) {
        var c := if IsWordChar(s[0]) then s[0] else ' ';
        assert r == [c] + rest;
        forall k | 0 < k < |r| ensures r[k] == rest[k - 1] { }
        if c == ' ' && rest != [] {
          CollapseEnds(s[1..]);
          assert IsWordChar(s[1]);
        }
      }
    }
  }

  /** The word characters of `s`, in order. */
  function WordChars(s: string): (r: string)
    ensures forall k :: 0 <= k < |r| ==> IsWordChar(r[k])
  {
    if s == [] then []
    else (if IsWordChar(s[0]) then [s[0]] else []) + WordChars(s[1..])
  }

  /** A maximal non-word run begins at `i`. */
  predicate RunStartsAt(s: string, i: nat)
    requires i < |s|
  {
    !IsWordChar(s[i]) && (i == 0 || IsWordChar(s[i - 1]))
  }

  /** The number of maximal non-word runs that begin at or after position `i`. */
  function RunsFrom(s: string, i: nat): nat
    requires i <= |s|
    decreases |s| - i
  {
    if i == |s| then 0
    else (if RunStartsAt(s, i) then 1 else 0) + RunsFrom(s, i + 1)
  }

  /** The number of maximal non-word runs in `s`. */
  function RunCount(s: string): nat {
    RunsFrom(s, 0)
  }

  /** The word characters of the input all survive, in order, and no other word
      character appears. */
  lemma {:induction false} CollapseKeepsWords(s: string)
    ensures WordChars(Collapse(s)) == WordChars(s)
  {
    if s != [] {
      CollapseKeepsWords(s[1..]);
      var rest := Collapse(s[1..]);
      if IsWordChar(s[0]) || !(|s| > 1 && !IsWordChar(s[1])) {
        var c := if IsWordChar(s[0]) then s[0] else ' ';
        assert ([c] + rest)[1..] == rest;
      }
    }
  }

  /** Counting the spaces of the collapse of a suffix: one per run starting in the suffix,
      plus one when the suffix begins in the middle of a run. */
  lemma {:induction false} CollapseSpacesFrom(s: string, i: nat)
    requires i <= |s|
    ensures multiset(Collapse(s[i..]))[' '] ==
      RunsFrom(s, i) + (if 0 < i < |s| && !IsWordChar(s[i - 1]) && !IsWordChar(s[i]) then 1 else 0)
    decreases |s| - i
  {
    if i < |s| {
      CollapseSpacesFrom(s, i + 1);
      var t := s[i..];
      assert t[1..] == s[i + 1..];
      assert t[0] == s[i];
      if |t| > 1 {
        assert t[1] == s[i + 1];
      }
    }
  }

  /** One space for each maximal non-word run. */
  lemma CollapseSpaceCount(s: string)
    ensures multiset(Collapse(s))[' '] == RunCount(s)
  {
    CollapseSpacesFrom(s, 0);
    assert s[0..] == s;
  }

  /** What `Collapse` emits for the first character of `s`. */
  function HeadOut(s: string): string
    requires s != []
  {
    if IsWordChar(s[0]) then [s[0]]
    else if |s| > 1 && !IsWordChar(s[1]) then []
    else [' ']
  }

  /** `Collapse` emits the output for the first character, then collapses the rest. */
  lemma CollapseStep(s: string)
    requires s != []
    ensures Collapse(s) == HeadOut(s) + Collapse(s[1..])
  {
  }

  /** `CollapseSplit` when `a` is one character. */
  lemma CollapseSplitSingle(a: string, b: string)
    requires |a| == 1 && b != [] && (IsWordChar(a[0]) || IsWordChar(b[0]))
    ensures Collapse(a + b) == Collapse(a) + Collapse(b)
  {
    var s := a + b;
    CollapseStep(s);
    CollapseStep(a);
    assert s[1..] == b && a[1..] == [];
    assert HeadOut(s) == HeadOut(a);
  }

  /** `CollapseSplit` for a longer `a`, from the split of its tail. */
  lemma CollapseSplitCons(a: string, b: string)
    requires |a| > 1
    requires Collapse(a[1..] + b) == Collapse(a[1..]) + Collapse(b)
    ensures Collapse(a + b) == Collapse(a) + Collapse(b)
  {
    var s := a + b;
    var head := HeadOut(a);
    assert Collapse(s) == head + Collapse(a[1..] + b) by {
      CollapseStep(s);
      assert s[1..] == a[1..] + b;
      assert HeadOut(s) == head;
    }
    assert Collapse(a) == head + Collapse(a[1..]) by { CollapseStep(a); }
    assert head + (Collapse(a[1..]) + Collapse(b)) == (head + Collapse(a[1..])) + Collapse(b);
  }

  /** The collapse of a concatenation is the concatenation of the collapses, as long as
      the seam does not cut a non-word run in two (two halves of one run would give two
      spaces where the whole gives one). */
  lemma {:induction false} CollapseSplit(a: string, b: string)
    requires a == [] || b == [] || IsWordChar(a[|a| - 1]) || IsWordChar(b[0])
    ensures Collapse(a + b) == Collapse(a) + Collapse(b)
  {
    if a == [] {
      assert a + b == b;
    } else if b == [] {
      assert a + b == a;
    } else if |a| == 1 {
      CollapseSplitSingle(a, b);
    } else {
      assert a[1..][|a[1..]| - 1] == a[|a| - 1];
      CollapseSplit(a[1..], b);
      CollapseSplitCons(a, b);
    }
  }

  /** Only word characters and single, separated spaces: the shape `Collapse` produces. */
  predicate Collapsed(s: string) {
    && (forall k :: 0 <= k < |s| ==> IsWordChar(s[k]) || s[k] == ' ')
    && (forall k :: 0 < k < |s| ==> !(s[k - 1] == ' ' && s[k] == ' '))
  }

  /** A string already of that shape is left unchanged. */
  lemma {:induction false} CollapseCollapsed(s: string)
    requires Collapsed(s)
    ensures Collapse(s) == s
  {
    if s != [] {
      assert Collapsed(s[1..]) by {
        forall k | 0 < k < |s[1..]| ensures !(s[1..][k - 1] == ' ' && s[1..][k] == ' ') {
          assert s[k] == s[1..][k - 1];
        }
      }
      CollapseCollapsed(s[1..]);
      assert s == [s[0]] + s[1..];
    }
  }

  /** `re.sub('[\W]+', ' ', s.lower())`, the word-normalised segment of the output:
      lower-case word characters and single spaces, never two spaces in a row. */
  function NormaliseWords(s: string): (r: string)
    ensures Collapsed(r)
    ensures forall k :: 0 <= k < |r| ==> !IsUpper(r[k])
  {
    var low := Lower(s);
    var r := Collapse(low);
    CollapseShape(low);
    assert forall k :: 0 <= k < |r| && r[k] != ' ' ==> !IsUpper(r[k]) by {
      forall k | 0 <= k < |r| && r[k] != ' ' ensures !IsUpper(r[k]) {
        var j :| 0 <= j < |low| && low[j] == r[k];
      }
    }
    r
  }

  /** Lower-casing keeps the word characters word characters, so the runs are the same. */
  lemma {:induction false} LowerKeepsRuns(s: string, i: nat)
    requires i <= |s|
    ensures RunsFrom(Lower(s), i) == RunsFrom(s, i)
    decreases |s| - i
  {
    if i < |s| {
      LowerKeepsRuns(s, i + 1);
    }
  }

  /** The word-normalised segment has exactly one space per maximal non-word run of its
      input, and holds the input's word characters, lower-cased, in their order. */
  lemma WordSegmentShape(s: string)
    ensures multiset(NormaliseWords(s))[' '] == RunCount(s)
    ensures WordChars(NormaliseWords(s)) == WordChars(Lower(s))
  {
    CollapseSpaceCount(Lower(s));
    LowerKeepsRuns(s, 0);
    CollapseKeepsWords(Lower(s));
  }

  /** Normalising twice is the same as normalising once. */
  lemma NormaliseIdempotent(s: string)
    ensures NormaliseWords(NormaliseWords(s)) == NormaliseWords(s)
  {
    var r := NormaliseWords(s);
    assert Lower(r) == r;
    CollapseCollapsed(r);
  }
}
