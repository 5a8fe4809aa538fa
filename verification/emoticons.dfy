/** The second step of the preprocessor and the emoticon half of the fourth:
    `re.findall('(?::|;|=)(?:-)?(?:\)|\(|D|P)', text)` on the tag-stripped text, then
    `' '.join(emoticons).replace('-', '')`. */
module Emoticons {
  import opened Text

  /** The eyes of an emoticon: `:`, `;` or `=`. */
  predicate IsEye(c: char) {
    c == ':' || c == ';' || c == '='
  }

  /** The mouths of an emoticon: `)`, `(`, `D` or `P`, upper case only. */
  predicate IsMouth(c: char) {
    c == ')' || c == '(' || c == 'D' || c == 'P'
  }

  /** Text matched by the emoticon pattern: an eye, an optional nose `-`, a mouth. Only
      its first character is an eye, so no match can begin inside another. */
  predicate IsGlyph(g: string): (b: bool)
    ensures b ==> 2 <= |g| <= 3 && IsEye(g[0]) && IsMouth(g[|g| - 1])
    ensures b ==> forall k :: 0 < k < |g| ==> !IsEye(g[k])
  {
    || (|g| == 2 && IsEye(g[0]) && IsMouth(g[1]))
    || (|g| == 3 && IsEye(g[0]) && g[1] == '-' && IsMouth(g[2]))
  }

  predicate AllGlyphs(gs: seq<string>) {
    forall k :: 0 <= k < |gs| ==> IsGlyph(gs[k])
  }

  /** Length of the pattern's match at position `i`, or 0 where it does not match.
      The optional `-` is tried first; with no mouth after it the pattern fails there. */
  function MatchLength(s: string, i: nat): (n: nat)
    requires i <= |s|
    ensures i + n <= |s|
    ensures n > 0 ==> IsGlyph(s[i..i + n])
    ensures n == 0 ==> i + 2 <= |s| ==> !IsGlyph(s[i..i + 2])
    ensures n == 0 ==> i + 3 <= |s| ==> !IsGlyph(s[i..i + 3])
  {
    if i + 3 <= |s| && IsEye(s[i]) && s[i + 1] == '-' && IsMouth(s[i + 2]) then 3
    else if i + 2 <= |s| && IsEye(s[i]) && IsMouth(s[i + 1]) then 2
    else 0
  }

  /** One result of the scan: where the match starts and the text it matched. */
  datatype Match = Match(start: nat, glyph: string)

  /** The `findall` scan from position `i`: at each position try the pattern; on a match
      record it and resume after it, otherwise move one character on. Every result is an
      emoticon lying within the text at or after `i`. */
  function Scan(s: string, i: nat): (ms: seq<Match>)
    requires i <= |s|
    ensures forall k :: 0 <= k < |ms| ==>
      i <= ms[k].start && ms[k].start + |ms[k].glyph| <= |s| && IsGlyph(ms[k].glyph)
    decreases |s| - i
  {
    if i == |s| then []
    else
      var n := MatchLength(s, i);
      if n > 0 then [Match(i, s[i..i + n])] + Scan(s, i + n)
      else Scan(s, i + 1)
  }

  /** The text holds the match's glyph at the match's position. */
  predicate OccursAt(s: string, m: Match) {
    m.start + |m.glyph| <= |s| && s[m.start..m.start + |m.glyph|] == m.glyph
  }

  /** Each result is what the text holds at the recorded position. */
  lemma {:induction false} ScanMatchesText(s: string, i: nat)
    requires i <= |s|
    ensures forall k :: 0 <= k < |Scan(s, i)| ==> OccursAt(s, Scan(s, i)[k])
    decreases |s| - i
  {
    if i < |s| {
      var n := MatchLength(s, i);
      if n > 0 {
        ScanMatchesText(s, i + n);
        var tail := Scan(s, i + n);
        var ms := [Match(i, s[i..i + n])] + tail;
        forall k | 0 < k < |ms| ensures ms[k] == tail[k - 1] { }
      } else {
        ScanMatchesText(s, i + 1);
      }
    }
  }

  /** The results come left to right and never overlap: each ends before the next starts. */
  lemma {:induction false} ScanOrdered(s: string, i: nat)
    requires i <= |s|
    ensures forall j, k :: 0 <= j < k < |Scan(s, i)| ==>
      Scan(s, i)[j].start + |Scan(s, i)[j].glyph| <= Scan(s, i)[k].start
    decreases |s| - i
  {
    if i < |s| {
      var n := MatchLength(s, i);
      if n > 0 {
        ScanOrdered(s, i + n);
        var tail := Scan(s, i + n);
        var ms := [Match(i, s[i..i + n])] + tail;
        forall k | 0 < k < |ms| ensures ms[k] == tail[k - 1] { }
      } else {
        ScanOrdered(s, i + 1);
      }
    }
  }

  /** The start positions of a list of matches. */
  function Starts(ms: seq<Match>): (ps: seq<nat>)
    ensures |ps| == |ms|
    ensures forall k :: 0 <= k < |ms| ==> ps[k] == ms[k].start
  {
    if ms == [] then [] else [ms[0].start] + Starts(ms[1..])
  }

  /** The matched texts of a list of matches, in order. */
  function Glyphs(ms: seq<Match>): (gs: seq<string>)
    ensures |gs| == |ms|
    ensures forall k :: 0 <= k < |ms| ==> gs[k] == ms[k].glyph
  {
    if ms == [] then [] else [ms[0].glyph] + Glyphs(ms[1..])
  }

  /** Reference definition: every position from `i` on where the pattern matches. */
  function MatchPositions(s: string, i: nat): seq<nat>
    requires i <= |s|
    decreases |s| - i
  {
    if i == |s| then []
    else (if MatchLength(s, i) > 0 then [i] else []) + MatchPositions(s, i + 1)
  }

  /** Inside a match no other match can start: the nose and the mouths are not eyes. */
  lemma NoMatchInsideMatch(s: string, i: nat)
    requires i <= |s| && MatchLength(s, i) > 0
    ensures forall j :: i < j < i + MatchLength(s, i) ==> MatchLength(s, j) == 0
  {
  }

  /** Skipping the inside of a match loses no match position. */
  lemma {:induction false} PositionsSkipMatch(s: string, i: nat)
    requires i < |s| && MatchLength(s, i) > 0
    ensures MatchPositions(s, i) == [i] + MatchPositions(s, i + MatchLength(s, i))
  {
    NoMatchInsideMatch(s, i);
    if MatchLength(s, i) == 3 {
      assert MatchPositions(s, i + 1) == MatchPositions(s, i + 2);
    }
  }

  /** The scan finds exactly the positions where the pattern matches, in increasing
      order: since matches cannot overlap, non-overlapping left-to-right scanning
      skips none of them. */
  lemma {:induction false} ScanFindsEveryMatch(s: string, i: nat)
    requires i <= |s|
    ensures Starts(Scan(s, i)) == MatchPositions(s, i)
    decreases |s| - i
  {
    if i < |s| {
      var n := MatchLength(s, i);
      if n > 0 {
        ScanFindsEveryMatch(s, i + n);
        PositionsSkipMatch(s, i);
        var ms := [Match(i, s[i..i + n])] + Scan(s, i + n);
        assert ms[1..] == Scan(s, i + n);
      } else {
        ScanFindsEveryMatch(s, i + 1);
      }
    }
  }

  /** The scan passes over a stretch without an eye and finds nothing in it. */
  lemma {:induction false} ScanSkipsNoEye(t: string, i: nat, j: nat)
    requires i <= j <= |t|
    requires forall k :: i <= k < j ==> !IsEye(t[k])
    ensures Scan(t, i) == Scan(t, j)
    decreases j - i
  {
    if i < j {
      ScanSkipsNoEye(t, i + 1, j);
    }
  }

  /** Text without an eye holds no emoticon. */
  lemma NoEyeNoEmoticon(t: string)
    requires forall k :: 0 <= k < |t| ==> !IsEye(t[k])
    ensures FindEmoticons(t) == []
  {
    ScanSkipsNoEye(t, 0, |t|);
  }

  /** `re.findall` of the emoticon pattern: the matched texts, left to right, duplicates kept. */
  function FindEmoticons(s: string): (es: seq<string>)
    ensures AllGlyphs(es)
  {
    Glyphs(Scan(s, 0))
  }

  /** An emoticon reduced to its eye and mouth, the nose dropped. */
  function Reduce(g: string): (r: string)
    requires IsGlyph(g)
    ensures |r| == 2 && r[0] == g[0] && r[1] == g[|g| - 1]
    ensures IsGlyph(r)
  {
    [g[0], g[|g| - 1]]
  }

  function ReduceAll(gs: seq<string>): (rs: seq<string>)
    requires AllGlyphs(gs)
    ensures |rs| == |gs|
    ensures forall k :: 0 <= k < |gs| ==> rs[k] == Reduce(gs[k])
  {
    if gs == [] then [] else [Reduce(gs[0])] + ReduceAll(gs[1..])
  }

  /** Deleting `-` from one emoticon leaves its eye and mouth. */
  lemma RemoveNose(g: string)
    requires IsGlyph(g)
    ensures Remove(g, '-') == Reduce(g)
  {
    var tail := g[|g| - 1..];
    assert Remove(tail, '-') == tail by {
      assert tail[1..] == [];
    }
    if |g| == 3 {
      assert g[1..][1..] == tail;
      assert Remove(g[1..], '-') == tail;
    } else {
      assert g[1..] == tail;
    }
    assert Remove(g, '-') == [g[0]] + Remove(g[1..], '-');
  }

  /** `' '.join(es).replace('-', '')` is the join of the reduced emoticons: the joined
      string has no `-` but the noses. */
  lemma {:induction false} RemoveNosesFromJoin(gs: seq<string>)
    requires AllGlyphs(gs)
    ensures Remove(Join(gs, " "), '-') == Join(ReduceAll(gs), " ")
  {
    if |gs| == 1 {
      RemoveNose(gs[0]);
    } else if |gs| > 1 {
      RemoveNosesFromJoin(gs[1..]);
      RemoveNose(gs[0]);
      RemoveConcat(gs[0] + " ", Join(gs[1..], " "), '-');
      RemoveConcat(gs[0], " ", '-');
      assert Remove(" ", '-') == " ";
      assert ReduceAll(gs)[1..] == ReduceAll(gs[1..]);
    }
  }

  /** Layout of a space-joined list of two-character strings: item `k` sits at positions
      `3k` and `3k + 1`, followed by a space unless it is the last. */
  lemma {:induction false} JoinPairsLayout(rs: seq<string>)
    requires forall k :: 0 <= k < |rs| ==> |rs[k]| == 2
    ensures |Join(rs, " ")| == if rs == [] then 0 else 3 * |rs| - 1
    ensures forall k {:trigger rs[k]} :: 0 <= k < |rs| ==>
      && Join(rs, " ")[3 * k] == rs[k][0]
      && Join(rs, " ")[3 * k + 1] == rs[k][1]
      && (k < |rs| - 1 ==> Join(rs, " ")[3 * k + 2] == ' ')
  {
    if |rs| > 1 {
      JoinPairsLayout(rs[1..]);
      var j := Join(rs, " ");
      var tail := Join(rs[1..], " ");
      assert j == rs[0] + " " + tail;
      forall k {:trigger rs[k]} | 0 < k < |rs|
        ensures j[3 * k] == rs[k][0] && j[3 * k + 1] == rs[k][1]
        ensures k < |rs| - 1 ==> j[3 * k + 2] == ' '
      {
        assert rs[1..][k - 1] == rs[k];
        assert j[3 * k] == tail[3 * (k - 1)];
        assert j[3 * k + 1] == tail[3 * (k - 1) + 1];
        if k < |rs| - 1 {
          assert j[3 * k + 2] == tail[3 * (k - 1) + 2];
        }
      }
    }
  }

  /** The characters an emoticon segment is made of. */
  predicate SegmentChar(c: char) {
    c == ' ' || IsEye(c) || IsMouth(c)
  }

  /** Joining eye-and-mouth pairs with spaces gives only eyes, mouths and spaces. */
  lemma {:induction false} JoinPairsChars(rs: seq<string>)
    requires forall k :: 0 <= k < |rs| ==> |rs[k]| == 2 && IsEye(rs[k][0]) && IsMouth(rs[k][1])
    ensures forall i :: 0 <= i < |Join(rs, " ")| ==> SegmentChar(Join(rs, " ")[i])
  {
    if |rs| > 1 {
      JoinPairsChars(rs[1..]);
      assert Join(rs, " ") == rs[0] + " " + Join(rs[1..], " ");
    }
  }

  /** The emoticon segment appended to the text: `' '.join(es).replace('-', '')`.
      It holds no `-`, only eyes, mouths and spaces, and three characters per emoticon
      but for the last, which has no space after it. */
  function EmoticonSegment(es: seq<string>): (r: string)
    requires AllGlyphs(es)
    ensures '-' !in r
    ensures forall i :: 0 <= i < |r| ==> SegmentChar(r[i])
    ensures |r| == if es == [] then 0 else 3 * |es| - 1
  {
    RemoveNosesFromJoin(es);
    JoinPairsLayout(ReduceAll(es));
    JoinPairsChars(ReduceAll(es));
    Remove(Join(es, " "), '-')
  }

  /** Emoticon `k` appears in the segment as its eye and mouth at positions `3k` and
      `3k + 1`, and single spaces separate consecutive emoticons. */
  lemma EmoticonSegmentLayout(es: seq<string>)
    requires AllGlyphs(es)
    ensures forall k {:trigger es[k]} :: 0 <= k < |es| ==>
      && EmoticonSegment(es)[3 * k] == es[k][0]
      && EmoticonSegment(es)[3 * k + 1] == es[k][|es[k]| - 1]
      && (k < |es| - 1 ==> EmoticonSegment(es)[3 * k + 2] == ' ')
  {
    RemoveNosesFromJoin(es);
    var rs := ReduceAll(es);
    JoinPairsLayout(rs);
    forall k | 0 <= k < |es| ensures rs[k] == Reduce(es[k]) { }
  }

  /** Emoticon `k` in the segment: its eye at position `3k`, its mouth at `3k + 1`. */
  lemma SegmentEmoticonAt(es: seq<string>, k: nat)
    requires AllGlyphs(es) && k < |es|
    ensures 3 * k + 1 < |EmoticonSegment(es)|
    ensures EmoticonSegment(es)[3 * k] == es[k][0]
    ensures EmoticonSegment(es)[3 * k + 1] == es[k][|es[k]| - 1]
  {
    EmoticonSegmentLayout(es);
    assert es[k] == es[k];
  }
}
