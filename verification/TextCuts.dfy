/** Where chunk_text (analytics/pae/pke/ingest.py) cuts: what its two regular expressions find. */
module TextCuts {
  import opened ChunkText
  import opened PythonText

  /** The parts with what was cut out between them put back. */
  function Joined(parts: seq<string>, gaps: seq<string>): string
    requires |parts| == |gaps| + 1
  {
    if gaps == [] then parts[0] else parts[0] + gaps[0] + Joined(parts[1..], gaps[1..])
  }

  // ---------------------------------------------------------------- sentences

  /** A full stop, exclamation or question mark followed by a blank at position k. */
  predicate MarkBefore(s: string, k: nat)
    requires 0 < k < |s|
  {
    (s[k - 1] == '.' || s[k - 1] == '!' || s[k - 1] == '?') && IsSpace(s[k])
  }

  /** What is cut out after a sentence: the whole run of blanks after a mark. */
  predicate CutAfterMark(before: string, gap: string, after: string) {
    && before != [] && before[|before| - 1] in ".!?"
    && gap != [] && IsBlank(gap)
    && (after != [] ==> !IsSpace(after[0]))
  }

  predicate NoMarkInside(part: string) {
    forall k :: 0 < k < |part| ==> !MarkBefore(part, k)
  }

  /** Every cut is after a mark, and no mark before a blank is left inside a part. */
  predicate SentenceCuts(parts: seq<string>, gaps: seq<string>)
    requires |parts| == |gaps| + 1
  {
    && (forall i :: 0 <= i < |gaps| ==> CutAfterMark(parts[i], gaps[i], parts[i + 1]))
    && (forall i :: 0 <= i < |parts| ==> NoMarkInside(parts[i]))
  }

  lemma {:induction false} FirstSentenceGap(s: string, from: nat)
    requires from > 0
    ensures var g := SentenceGap(s, from);
            forall k :: from <= k < (if g.Gap? then g.start else |s|) ==> !MarkBefore(s, k)
    decreases |s| - from
  {
    if from >= |s| {
    } else {
      FirstSentenceGap(s, from + 1);
    }
  }

  /** The sentences are what lies between the runs of blanks after a mark. */
  lemma {:induction false} SentencesAreCut(s: string) returns (gaps: seq<string>)
    ensures |Sentences(s)| == |gaps| + 1 && Joined(Sentences(s), gaps) == s
    ensures SentenceCuts(Sentences(s), gaps)
  {
    hide SentenceGap, CutAfterMark, NoMarkInside, SentenceCuts;
    FirstSentence(s);
    match SentenceGap(s, 1)
    case NoGap =>
      gaps := [];
      OnePart(s);
    case Gap(start, end) =>
      var rest := SentencesAreCut(s[end..]);
      gaps := [s[start..end]] + rest;
      var parts := Sentences(s);
      assert parts[1..] == Sentences(s[end..]) && gaps[1..] == rest;
      ConsCuts(parts, gaps);
      assert s == s[..start] + s[start..end] + s[end..];
  }

  lemma OnePart(s: string)
    requires NoMarkInside(s)
    ensures SentenceCuts([s], [])
  {
  }

  lemma FirstSentence(s: string)
    ensures var g := SentenceGap(s, 1);
            if g.NoGap? then NoMarkInside(s)
            else NoMarkInside(s[..g.start]) && CutAfterMark(s[..g.start], s[g.start..g.end], Sentences(s[g.end..])[0])
  {
    FirstSentenceGap(s, 1);
    var g := SentenceGap(s, 1);
    if g.Gap? {
      GapsAreBlank(s, 1);
      SentencesStart(s[g.end..]);
      var part := s[..g.start];
      assert forall k :: 0 < k < g.start ==> (MarkBefore(part, k) <==> MarkBefore(s, k));
    }
  }

  lemma ConsCuts(parts: seq<string>, gaps: seq<string>)
    requires |parts| == |gaps| + 1 && gaps != []
    requires CutAfterMark(parts[0], gaps[0], parts[1]) && NoMarkInside(parts[0])
    requires SentenceCuts(parts[1..], gaps[1..])
    ensures SentenceCuts(parts, gaps)
  {
    hide CutAfterMark, NoMarkInside;
    var ps, gs := parts[1..], gaps[1..];
    forall i | 1 <= i < |gaps| ensures CutAfterMark(parts[i], gaps[i], parts[i + 1]) {
      assert CutAfterMark(ps[i - 1], gs[i - 1], ps[i - 1 + 1]);
    }
    forall i | 1 <= i < |parts| ensures NoMarkInside(parts[i]) {
      assert NoMarkInside(ps[i - 1]);
    }
  }

  /** The first sentence starts as the text does. */
  lemma SentencesStart(s: string)
    ensures Sentences(s)[0] <= s && (s != [] ==> Sentences(s)[0] != [])
  {
  }

  // --------------------------------------------------------------- paragraphs

  /** What is cut out between paragraphs: blanks from one line feed to another. */
  predicate FeedToFeed(gap: string) {
    |gap| >= 2 && gap[0] == '\n' && gap[|gap| - 1] == '\n' && IsBlank(gap)
  }

  /** Between two line feeds of a part something is not blank. */
  predicate FeedsApart(part: string) {
    forall i, k :: 0 <= i < k < |part| && part[i] == '\n' && part[k] == '\n' ==> !IsBlank(part[i..k])
  }

  /** Before a line feed of a part something is not blank. */
  predicate FeedsAfterText(part: string) {
    forall k :: 0 <= k < |part| && part[k] == '\n' ==> !IsBlank(part[..k])
  }

  /** After a line feed of a part something is not blank. */
  predicate FeedsBeforeText(part: string) {
    forall k :: 0 <= k < |part| && part[k] == '\n' ==> !IsBlank(part[k..])
  }

  /** Every cut runs from the first to the last line feed of a run of blanks that has two, and no such run
      is left in a part. */
  predicate ParagraphCuts(parts: seq<string>, gaps: seq<string>)
    requires |parts| == |gaps| + 1
  {
    && (forall i :: 0 <= i < |gaps| ==> FeedToFeed(gaps[i]) && FeedsBeforeText(parts[i]))
    && (forall i :: 0 < i < |parts| ==> FeedsAfterText(parts[i]))
    && (forall i :: 0 <= i < |parts| ==> FeedsApart(parts[i]))
  }

  lemma {:induction false} LastFeedIsLast(s: string, from: nat)
    requires from <= |s|
    ensures var start := if LastFeed(s, from) > 0 then LastFeed(s, from) else from;
            forall k :: start <= k < |s| && s[k] == '\n' ==> !IsBlank(s[start..k])
    decreases |s| - from
  {
    if from == |s| {
    } else if !IsSpace(s[from]) {
      assert forall k :: from < k < |s| ==> s[from..k][0] == s[from];
    } else {
      LastFeedIsLast(s, from + 1);
      if LastFeed(s, from) == 0 {
        forall k | from <= k < |s| && s[k] == '\n' ensures !IsBlank(s[from..k]) {
          var m :| 0 <= m < k - (from + 1) && !IsSpace(s[from + 1..k][m]);
          assert s[from..k][m + 1] == s[from + 1..k][m];
        }
      }
    }
  }

  lemma {:induction false} FirstParagraphGap(s: string, from: nat)
    ensures var g := ParagraphGap(s, from);
            && (g.Gap? ==> FeedToFeed(s[g.start..g.end]) && g.end == LastFeed(s, g.start + 1))
            && forall i :: from <= i < (if g.Gap? then g.start else |s|) && s[i] == '\n' ==> LastFeed(s, i + 1) == 0
    decreases |s| - from
  {
    hide LastFeed, FeedToFeed;
    if from >= |s| {
    } else if s[from] == '\n' && LastFeed(s, from + 1) > 0 {
      RunOfFeeds(s, from);
    } else {
      FirstParagraphGap(s, from + 1);
    }
  }

  lemma RunOfFeeds(s: string, k: nat)
    requires k < |s| && s[k] == '\n' && LastFeed(s, k + 1) > 0
    ensures FeedToFeed(s[k..LastFeed(s, k + 1)])
  {
    hide LastFeed, IsSpace;
    var end := LastFeed(s, k + 1);
    FeedsAreBlank(s, k + 1);
    NewLineIsBlank();
    ConsBlank(s, k, end);
  }

  lemma ConsBlank(s: string, k: nat, end: nat)
    requires k < end <= |s| && IsSpace(s[k]) && IsBlank(s[k + 1..end])
    ensures IsBlank(s[k..end])
  {
    hide IsSpace;
    forall m | 0 <= m < end - k ensures IsSpace(s[k..end][m]) {
      assert m > 0 ==> s[k..end][m] == s[k + 1..end][m - 1];
    }
  }

  lemma NewLineIsBlank()
    ensures IsSpace('\n')
  {
  }

  /** The paragraphs are what lies between runs of blanks with two line feeds. */
  lemma {:induction false} ParagraphsAreCut(s: string) returns (gaps: seq<string>)
    ensures |Paragraphs(s)| == |gaps| + 1 && Joined(Paragraphs(s), gaps) == s
    ensures ParagraphCuts(Paragraphs(s), gaps)
    ensures FeedsAfterText(s) ==> FeedsAfterText(Paragraphs(s)[0])
  {
    hide ParagraphGap, FeedToFeed, FeedsApart, FeedsAfterText, FeedsBeforeText, ParagraphCuts;
    FirstParagraph(s);
    match ParagraphGap(s, 0)
    case NoGap =>
      gaps := [];
      OneParagraph(s);
    case Gap(start, end) =>
      var rest := ParagraphsAreCut(s[end..]);
      gaps := [s[start..end]] + rest;
      var parts := Paragraphs(s);
      assert parts[1..] == Paragraphs(s[end..]) && gaps[1..] == rest;
      ConsParagraphs(parts, gaps);
      assert s == s[..start] + s[start..end] + s[end..];
  }

  lemma OneParagraph(s: string)
    requires FeedsApart(s)
    ensures ParagraphCuts([s], [])
  {
  }

  lemma ConsParagraphs(parts: seq<string>, gaps: seq<string>)
    requires |parts| == |gaps| + 1 && gaps != []
    requires FeedToFeed(gaps[0]) && FeedsBeforeText(parts[0]) && FeedsApart(parts[0]) && FeedsAfterText(parts[1])
    requires ParagraphCuts(parts[1..], gaps[1..])
    ensures ParagraphCuts(parts, gaps)
  {
    hide FeedToFeed, FeedsApart, FeedsAfterText, FeedsBeforeText;
    var ps, gs := parts[1..], gaps[1..];
    forall i | 1 <= i < |gaps| ensures FeedToFeed(gaps[i]) && FeedsBeforeText(parts[i]) {
      assert FeedToFeed(gs[i - 1]) && FeedsBeforeText(ps[i - 1]);
    }
    forall i | 1 <= i < |parts| ensures FeedsAfterText(parts[i]) && FeedsApart(parts[i]) {
      assert FeedsApart(ps[i - 1]) && (i > 1 ==> FeedsAfterText(ps[i - 1]));
    }
  }

  lemma FirstParagraph(s: string)
    ensures var g := ParagraphGap(s, 0);
            if g.NoGap? then FeedsApart(s)
            else
              && FeedToFeed(s[g.start..g.end]) && FeedsApart(s[..g.start]) && FeedsBeforeText(s[..g.start])
              && FeedsAfterText(s[g.end..])
              && (FeedsAfterText(s) ==> FeedsAfterText(s[..g.start]))
  {
    hide ParagraphGap;
    FirstParagraphGap(s, 0);
    var g := ParagraphGap(s, 0);
    if g.NoGap? {
      FeedsStayApart(s, |s|);
      assert s[..|s|] == s;
    } else {
      assert s[g.start] == '\n' by { assert s[g.start..g.end][0] == '\n'; }
      hide FeedToFeed, FeedsApart, FeedsBeforeText, LastFeed;
      FeedsStayApart(s, g.start);
      LastFeedIsLast(s, g.start + 1);
      var rest, part := s[g.end..], s[..g.start];
      assert forall k :: 0 <= k < |rest| ==> rest[k] == s[g.end + k] && rest[..k] == s[g.end..g.end + k];
      assert forall k :: 0 <= k < g.start ==> part[k] == s[k] && part[..k] == s[..k];
    }
  }

  lemma FeedsStayApart(s: string, end: nat)
    requires end <= |s| && forall i :: 0 <= i < end && s[i] == '\n' ==> LastFeed(s, i + 1) == 0
    ensures FeedsApart(s[..end])
    ensures end < |s| && s[end] == '\n' ==> FeedsBeforeText(s[..end])
  {
    hide LastFeed, IsSpace;
    var part := s[..end];
    forall i, k | 0 <= i < k <= end && k < |s| && s[i] == '\n' && s[k] == '\n' ensures !IsBlank(part[i..k]) {
      LastFeedIsLast(s, i + 1);
      TextAfterFeed(s, i, k);
      assert part[i..k] == s[i..k];
    }
    assert part[..] == part && forall i :: 0 <= i < end ==> part[i..end] == part[i..];
  }

  lemma TextAfterFeed(s: string, i: nat, k: nat)
    requires i < k <= |s| && !IsBlank(s[i + 1..k])
    ensures !IsBlank(s[i..k])
  {
    var m :| 0 <= m < k - (i + 1) && !IsSpace(s[i + 1..k][m]);
    assert s[i..k][m + 1] == s[i + 1..k][m];
  }
}
