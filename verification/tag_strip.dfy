/** The first step of the preprocessor: `re.sub('<[^>]*>', '', text)`.
    A tag is a `<`, any run of characters other than `>` (a `<` among them), and the
    first `>` after it; tags are found left to right and never overlap. A `<` with
    no `>` anywhere after it is not the start of a tag and stays in the text. */
module TagStrip {
  import opened Text

  /** The first position of `c` in `s`. */
  function IndexOf(s: string, c: char): (k: nat)
    requires c in s
    ensures k < |s| && s[k] == c
    ensures c !in s[..k]
  {
    if s[0] == c then 0
    else
      var k := 1 + IndexOf(s[1..], c);
      assert s[..k] == [s[0]] + s[1..][..k - 1];
      k
  }

  /** Text matched by the pattern `<[^>]*>`. A tag is a `<` with a `>` after it, so it
      is where the scan starts a match. */
  predicate IsTag(t: string): (b: bool)
    ensures b ==> StartsWithTag(t)
  {
    |t| >= 2 && t[0] == '<' && t[|t| - 1] == '>' && '>' !in t[1..|t| - 1]
  }

  /** A tag begins at the head of `s`: a `<` with some `>` after it. */
  predicate StartsWithTag(s: string) {
    |s| > 0 && s[0] == '<' && '>' in s[1..]
  }

  /** Length of the tag at the head of `s`: the pattern ends at the first `>`. */
  function TagLength(s: string): (n: nat)
    requires StartsWithTag(s)
    ensures 2 <= n <= |s|
    ensures IsTag(s[..n])
  {
    var n := IndexOf(s[1..], '>') + 2;
    assert s[..n][1..n - 1] == s[1..][..n - 2];
    n
  }

  /** Only one prefix of the text is a tag: `[^>]*` cannot run past the first `>`. */
  lemma TagLengthUnique(s: string, m: nat)
    requires StartsWithTag(s)
    requires 2 <= m <= |s| && IsTag(s[..m])
    ensures m == TagLength(s)
  {
    var n := TagLength(s);
    assert s[..m][1..m - 1] == s[1..][..m - 2];
    assert s[..n][1..n - 1] == s[1..][..n - 2];
  }

  /** `re.sub('<[^>]*>', '', s)`: delete every tag, scanning left to right. */
  function StripTags(s: string): (r: string)
    ensures |r| <= |s|
    decreases |s|
  {
    if s == [] then []
    else if StartsWithTag(s) then StripTags(s[TagLength(s)..])
    else [s[0]] + StripTags(s[1..])
  }

  /** The step only deletes characters: no character occurs more often afterwards. */
  lemma {:induction false} StripKeepsCharacters(s: string)
    ensures multiset(StripTags(s)) <= multiset(s)
    decreases |s|
  {
    if s != [] {
      if StartsWithTag(s) {
        var n := TagLength(s);
        StripKeepsCharacters(s[n..]);
        assert s == s[..n] + s[n..];
      } else {
        StripKeepsCharacters(s[1..]);
        assert s == [s[0]] + s[1..];
      }
    }
  }

  /** No `<` is followed, anywhere later, by a `>`: there is no tag left to delete. */
  predicate TagFree(s: string) {
    forall i, j :: 0 <= i < j < |s| && s[i] == '<' ==> s[j] != '>'
  }

  /** Text without a `<` comes through unchanged. */
  lemma {:induction false} StripWithoutOpen(s: string)
    requires '<' !in s
    ensures StripTags(s) == s
  {
    if s != [] {
      StripWithoutOpen(s[1..]);
      assert s == [s[0]] + s[1..];
    }
  }

  /** Text without a `>` comes through unchanged: a lone `<` is kept. */
  lemma {:induction false} StripWithoutClose(s: string)
    requires '>' !in s
    ensures StripTags(s) == s
  {
    if s != [] {
      assert '>' !in s[1..] by { assert forall c :: c in s[1..] ==> c in s; }
      StripWithoutClose(s[1..]);
      assert s == [s[0]] + s[1..];
    }
  }

  /** After the step no `<` is followed later by a `>`: every such pair was a tag and went. */
  lemma {:induction false} StripLeavesNoTag(s: string)
    ensures TagFree(StripTags(s))
    decreases |s|
  {
    if s == [] {
    } else if StartsWithTag(s) {
      StripLeavesNoTag(s[TagLength(s)..]);
    } else {
      var rest := StripTags(s[1..]);
      StripLeavesNoTag(s[1..]);
      if s[0] == '<' {
        assert '>' !in rest by {
          assert '>' !in s[1..];
          StripKeepsCharacters(s[1..]);
          assert multiset(rest)['>'] <= multiset(s[1..])['>'] == 0;
        }
      }
      var r := [s[0]] + rest;
      forall i, j | 0 <= i < j < |r| && r[i] == '<' ensures r[j] != '>' {
        assert r[j] == rest[j - 1];
        if i > 0 {
          assert rest[i - 1] == '<';
        }
      }
    }
  }

  /** Text that is already tag-free is a fixed point of the step. */
  lemma {:induction false} StripTagFree(s: string)
    requires TagFree(s)
    ensures StripTags(s) == s
  {
    if s != [] {
      if s[0] == '<' {
        assert !StartsWithTag(s) by {
          forall j | 0 <= j < |s[1..]| ensures s[1..][j] != '>' {
            assert s[j + 1] != '>';
          }
        }
      }
      assert TagFree(s[1..]) by {
        forall i, j | 0 <= i < j < |s[1..]| && s[1..][i] == '<' ensures s[1..][j] != '>' {
          assert s[i + 1] == '<';
        }
      }
      StripTagFree(s[1..]);
      assert s == [s[0]] + s[1..];
    }
  }

  /** The step leaves a string unchanged exactly when that string is tag-free. */
  lemma StripFixedPoint(s: string)
    ensures StripTags(s) == s <==> TagFree(s)
  {
    StripLeavesNoTag(s);
    if TagFree(s) {
      StripTagFree(s);
    }
  }

  /** Stripping twice is the same as stripping once. */
  lemma StripIdempotent(s: string)
    ensures StripTags(StripTags(s)) == StripTags(s)
  {
    StripLeavesNoTag(s);
    StripTagFree(StripTags(s));
  }

  /** Characters are only deleted: the result is a subsequence of the input, never longer. */
  lemma {:induction false} StripIsSubsequence(s: string)
    ensures IsSubsequence(StripTags(s), s)
    ensures |StripTags(s)| <= |s|
    decreases |s|
  {
    if s == [] {
    } else if StartsWithTag(s) {
      var n := TagLength(s);
      assert IsSubsequence(StripTags(s), s) by {
        StripIsSubsequence(s[n..]);
        SubsequencePrepend(StripTags(s[n..]), s[..n], s[n..]);
        assert s[..n] + s[n..] == s;
      }
    } else {
      assert IsSubsequence(StripTags(s), s) by {
        StripIsSubsequence(s[1..]);
        var r := [s[0]] + StripTags(s[1..]);
        assert r[1..] == StripTags(s[1..]);
      }
    }
    SubsequenceLength(StripTags(s), s);
  }

  /** A tag at the head of the text is deleted whole and the scan resumes after it. */
  lemma StripHeadTag(t: string, q: string)
    requires IsTag(t)
    ensures StripTags(t + q) == StripTags(q)
  {
    var s := t + q;
    assert s[..|t|] == t;
    assert StartsWithTag(s) by { assert s[1..][|t| - 2] == '>'; }
    TagLengthUnique(s, |t|);
    assert s[|t|..] == q;
  }

  /** A character other than `<` at the head of the text is kept. */
  lemma StripPlainHead(c: char, q: string)
    requires c != '<'
    ensures StripTags([c] + q) == [c] + StripTags(q)
  {
    assert ([c] + q)[1..] == q;
  }

  /** Text without `<` is kept as it is, in front of whatever the rest strips to. */
  lemma {:induction false} StripPlainPrefix(p: string, q: string)
    requires '<' !in p
    ensures StripTags(p + q) == p + StripTags(q)
  {
    if p == [] {
      assert p + q == q;
    } else {
      var rest := p[1..] + q;
      assert p + q == [p[0]] + rest;
      StripPlainHead(p[0], rest);
      assert '<' !in p[1..];
      StripPlainPrefix(p[1..], q);
      assert [p[0]] + (p[1..] + StripTags(q)) == p + StripTags(q);
    }
  }

  /** The scan is leftmost-first: text before the first `<` is kept as it is, the tag
      opening at that `<` (closed by the first `>`) is deleted whole, and the scan
      resumes right after it. */
  lemma StripAroundTag(p: string, t: string, q: string)
    requires '<' !in p
    requires IsTag(t)
    ensures StripTags(p + t + q) == p + StripTags(q)
  {
    assert p + t + q == p + (t + q);
    StripPlainPrefix(p, t + q);
    StripHeadTag(t, q);
  }
}
