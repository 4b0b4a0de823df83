/** Splitting text into chunks for the knowledge base (chunk_text in analytics/pae/pke/ingest.py). */
module ChunkText {
  import opened PythonText
  import opened Results

  // -------------------------------------------------------- the two splits

  /** One past the last line feed of the run of blanks that starts at k; 0 if it has none. */
  function LastFeed(s: string, k: nat): (end: nat)
    ensures end == 0 || k < end <= |s|
    ensures end > 0 ==> s[end - 1] == '\n'
    decreases |s| - k
  {
    if k >= |s| || !IsSpace(s[k]) then 0
    else if LastFeed(s, k + 1) > 0 then LastFeed(s, k + 1)
    else if s[k] == '\n' then k + 1
    else 0
  }

  /** The end of the run of blanks that starts at k. */
  function BlankEnd(s: string, k: nat): (end: nat)
    requires k <= |s|
    ensures k <= end <= |s| && (end < |s| ==> !IsSpace(s[end]))
    decreases |s| - k
  {
    if k == |s| || !IsSpace(s[k]) then k else BlankEnd(s, k + 1)
  }

  datatype Gap = NoGap | Gap(start: nat, end: nat)

  /** The first match of \n\s*\n from k on; the blanks in between are taken greedily. */
  function ParagraphGap(s: string, k: nat): (g: Gap)
    ensures g.Gap? ==> k <= g.start < g.end <= |s|
    decreases |s| - k
  {
    if k >= |s| then NoGap
    else if s[k] == '\n' && LastFeed(s, k + 1) > 0 then Gap(k, LastFeed(s, k + 1))
    else ParagraphGap(s, k + 1)
  }

  predicate EndsSentence(c: char) {
    c == '.' || c == '!' || c == '?'
  }

  /** The first match of (?<=[.!?])\s+ from k on. */
  function SentenceGap(s: string, k: nat): (g: Gap)
    requires k > 0
    ensures g.Gap? ==> k <= g.start < g.end <= |s| && EndsSentence(s[g.start - 1])
    ensures g.Gap? && g.end < |s| ==> !IsSpace(s[g.end])
    decreases |s| - k
  {
    if k >= |s| then NoGap
    else if EndsSentence(s[k - 1]) && IsSpace(s[k]) then Gap(k, BlankEnd(s, k))
    else SentenceGap(s, k + 1)
  }

  lemma {:induction false} FeedsAreBlank(s: string, k: nat)
    ensures var end := LastFeed(s, k); end > 0 ==> IsBlank(s[k..end])
    decreases |s| - k
  {
    var end := LastFeed(s, k);
    if end == 0 {
    } else {
      FeedsAreBlank(s, k + 1);
      assert s[k..end] == [s[k]] + s[k + 1..end];
    }
  }

  lemma {:induction false} RunIsBlank(s: string, k: nat)
    requires k <= |s|
    ensures IsBlank(s[k..BlankEnd(s, k)])
    decreases |s| - k
  {
    var end := BlankEnd(s, k);
    if end <= k {
    } else {
      RunIsBlank(s, k + 1);
      assert s[k..end] == [s[k]] + s[k + 1..end];
    }
  }

  /** Only blanks are cut out. */
  lemma {:induction false} GapsAreBlank(s: string, k: nat)
    ensures var g := ParagraphGap(s, k); g.Gap? ==> IsBlank(s[g.start..g.end])
    ensures k > 0 ==> var g := SentenceGap(s, k); g.Gap? ==> IsBlank(s[g.start..g.end])
    decreases |s| - k
  {
    if k >= |s| {
    } else {
      FeedsAreBlank(s, k + 1);
      RunIsBlank(s, k);
      GapsAreBlank(s, k + 1);
      var end := LastFeed(s, k + 1);
      assert end > 0 ==> s[k..end] == [s[k]] + s[k + 1..end];
    }
  }

  function Paragraphs(s: string): (parts: seq<string>)
    ensures parts != []
  {
    match ParagraphGap(s, 0)
    case NoGap => [s]
    case Gap(start, end) => [s[..start]] + Paragraphs(s[end..])
  }

  function Sentences(s: string): (parts: seq<string>)
    ensures parts != []
  {
    match SentenceGap(s, 1)
    case NoGap => [s]
    case Gap(start, end) => [s[..start]] + Sentences(s[end..])
  }

  function AllWords(parts: seq<string>): seq<string> {
    if parts == [] then [] else AllWords(parts[..|parts| - 1]) + Words(parts[|parts| - 1])
  }

  lemma {:induction false} AllWordsCons(first: string, rest: seq<string>)
    ensures AllWords([first] + rest) == Words(first) + AllWords(rest)
  {
    if rest == [] {
      assert [first] + rest == [first];
      assert AllWords([first]) == [] + Words(first);
    } else {
      var k := |rest| - 1;
      AllWordsCons(first, rest[..k]);
      assert ([first] + rest)[..k + 1] == [first] + rest[..k];
      var a, b, c := Words(first), AllWords(rest[..k]), Words(rest[k]);
      assert (a + b) + c == a + (b + c);
    }
  }

  lemma {:induction false} WordsAroundGap(s: string, start: nat, end: nat)
    requires start < end <= |s| && IsBlank(s[start..end])
    ensures Words(s) == Words(s[..start]) + Words(s[end..])
  {
    assert s == s[..start] + s[start..end] + s[end..];
    WordsAround(s[..start], s[start..end], s[end..]);
  }

  lemma {:induction false} ParagraphsKeepWords(s: string)
    ensures AllWords(Paragraphs(s)) == Words(s)
  {
    hide Words;
    match ParagraphGap(s, 0)
    case NoGap => AllWordsCons(s, []);
                  assert [s] + [] == [s];
    case Gap(start, end) =>
      GapsAreBlank(s, 0);
      ParagraphsKeepWords(s[end..]);
      WordsAroundGap(s, start, end);
      AllWordsCons(s[..start], Paragraphs(s[end..]));
  }

  lemma {:induction false} SentencesKeepWords(s: string)
    ensures AllWords(Sentences(s)) == Words(s)
  {
    hide Words;
    match SentenceGap(s, 1)
    case NoGap => AllWordsCons(s, []);
                  assert [s] + [] == [s];
    case Gap(start, end) =>
      GapsAreBlank(s, 1);
      SentencesKeepWords(s[end..]);
      WordsAroundGap(s, start, end);
      AllWordsCons(s[..start], Sentences(s[end..]));
  }

  /** The sentences of stripped text are stripped and not empty. */
  lemma {:induction false} SentencesStripped(s: string)
    requires Stripped(s)
    ensures forall i :: 0 <= i < |Sentences(s)| ==> Stripped(Sentences(s)[i])
  {
    match SentenceGap(s, 1)
    case NoGap =>
    case Gap(start, end) =>
      GapsAreBlank(s, 1);
      assert s[end - 1] == s[start..end][end - start - 1];
      SentencesStripped(s[end..]);
  }

  // ----------------------------------------------------------- the chunks

  datatype ChunkError = BadLimit(maxTokens: int)

  /** p stands somewhere in c. */
  ghost predicate Within(p: string, c: string) {
    exists before: string, after: string :: c == before + p + after
  }

  /** What must stay together: a paragraph that fits, or each sentence of one that does not. */
  function Pieces(para: string, max: int): seq<string> {
    var q := Strip(para);
    if q == [] then [] else if |Words(q)| <= max then [q] else Sentences(q)
  }

  function AllPieces(paras: seq<string>, max: int): seq<string> {
    if paras == [] then [] else AllPieces(paras[..|paras| - 1], max) + Pieces(paras[|paras| - 1], max)
  }

  /** Within the limit, or a single sentence of a paragraph over the limit. */
  ghost predicate Fits(c: string, paras: seq<string>, max: int) {
    || |Words(c)| <= max
    || exists k :: 0 <= k < |paras| && |Words(Strip(paras[k]))| > max && c in Sentences(Strip(paras[k]))
  }

  /** A paragraph, or a sentence of one. */
  ghost predicate IsUnit(u: string, paras: seq<string>) {
    exists k :: 0 <= k < |paras| && (u == Strip(paras[k]) || u in Sentences(Strip(paras[k])))
  }

  /** What u is put after sep: a paragraph after an empty line, a sentence after a space. */
  ghost predicate Joins(sep: string, u: string, paras: seq<string>) {
    exists k :: 0 <= k < |paras| &&
      if sep == "\n\n" then u == Strip(paras[k]) else sep == " " && u in Sentences(Strip(paras[k]))
  }

  /** Paragraphs and sentences, joined as they should be. */
  ghost predicate Composed(c: string, paras: seq<string>)
    decreases |c|
  {
    IsUnit(c, paras) || exists front: string, sep: string, u: string ::
      |front| < |c| && c == front + sep + u && Composed(front, paras) && Joins(sep, u, paras)
  }

  ghost predicate InSome(piece: string, chunks: seq<string>) {
    exists i :: 0 <= i < |chunks| && Within(piece, chunks[i])
  }

  ghost predicate GoodChunks(chunks: seq<string>, current: string, paras: seq<string>, max: int) {
    && (forall i :: 0 <= i < |chunks| ==>
          Stripped(chunks[i]) && Fits(chunks[i], paras, max) && Composed(chunks[i], paras))
    && (current == [] || (Stripped(current) && Fits(current, paras, max) && Composed(current, paras)))
  }

  ghost predicate Holds(held: seq<string>, chunks: seq<string>, current: string) {
    forall i :: 0 <= i < |held| ==> held[i] != [] && (Within(held[i], current) || InSome(held[i], chunks))
  }

  /** What the loops keep: the chunks so far and the open one hold exactly the words seen, each chunk is
      as it must be, and every piece seen stands whole in one of them. */
  ghost predicate Building(chunks: seq<string>, current: string, paras: seq<string>, max: int, words: seq<string>,
      held: seq<string>) {
    AllWords(chunks) + Words(current) == words && GoodChunks(chunks, current, paras, max)
        && Holds(held, chunks, current)
  }

  // ------------------------------------------------------------ greediness

  /** Chunk i was closed because u, the next unit of the text, does not fit in any more. */
  ghost predicate ClosedBy(chunks: seq<string>, i: nat, u: string, paras: seq<string>, max: int, text: seq<string>)
    requires i < |chunks|
  {
    IsUnit(u, paras) && AllWords(chunks[..i + 1]) + Words(u) <= text && |Words(chunks[i])| + |Words(u)| > max
  }

  ghost predicate Full(chunks: seq<string>, i: nat, paras: seq<string>, max: int, text: seq<string>)
    requires i < |chunks|
  {
    exists u: string :: ClosedBy(chunks, i, u, paras, max, text)
  }

  ghost predicate Greedy(chunks: seq<string>, upTo: nat, paras: seq<string>, max: int, text: seq<string>)
    requires upTo <= |chunks|
  {
    forall i :: 0 <= i < upTo ==> Full(chunks, i, paras, max, text)
  }

  lemma StaysGreedy(chunks: seq<string>, c: string, paras: seq<string>, max: int, text: seq<string>)
    requires Greedy(chunks, |chunks|, paras, max, text)
    ensures Greedy(chunks + [c], |chunks|, paras, max, text)
  {
    hide IsUnit, AllWords, Words;
    var longer := chunks + [c];
    forall i | 0 <= i < |chunks| ensures Full(longer, i, paras, max, text) {
      assert Full(chunks, i, paras, max, text);
      var u: string :| ClosedBy(chunks, i, u, paras, max, text);
      assert longer[..i + 1] == chunks[..i + 1];
      assert ClosedBy(longer, i, u, paras, max, text);
    }
  }

  /** Closing the open chunk because of u. */
  lemma {:induction false} GreedilyClosed(chunks: seq<string>, current: string, paras: seq<string>, max: int,
      words: seq<string>, held: seq<string>, u: string, text: seq<string>)
    requires Building(chunks, current, paras, max, words, held) && Greedy(chunks, |chunks|, paras, max, text)
    requires IsUnit(u, paras) && words + Words(u) <= text && |Words(current)| + |Words(u)| > max
    ensures var closed := if current == [] then chunks else chunks + [Strip(current)];
            Greedy(closed, |closed|, paras, max, text)
  {
    if current != [] {
      var c, closed := Strip(current), chunks + [Strip(current)];
      hide IsUnit, Words, GoodChunks, Holds, Stripped, Greedy;
      StaysGreedy(chunks, c, paras, max, text);
      WordsStrip(current);
      assert AllWords(closed) == words by { assert closed[..|chunks|] == chunks; }
      assert closed[..|chunks| + 1] == closed;
      hide AllWords, Building;
      assert ClosedBy(closed, |chunks|, u, paras, max, text);
      OneMoreFull(closed, |chunks|, u, paras, max, text);
    }
  }

  lemma OneMoreFull(chunks: seq<string>, k: nat, u: string, paras: seq<string>, max: int, text: seq<string>)
    requires |chunks| == k + 1 && Greedy(chunks, k, paras, max, text) && ClosedBy(chunks, k, u, paras, max, text)
    ensures Greedy(chunks, k + 1, paras, max, text)
  {
    hide ClosedBy;
    assert Full(chunks, k, paras, max, text);
  }

  lemma {:induction false} AllWordsPrefix(parts: seq<string>, k: nat)
    requires k <= |parts|
    ensures AllWords(parts[..k]) <= AllWords(parts)
  {
    hide Words;
    if k == |parts| {
      assert parts[..k] == parts;
    } else {
      AllWordsPrefix(parts[..|parts| - 1], k);
      assert parts[..|parts| - 1][..k] == parts[..k];
    }
  }

  lemma WithinExtends(p: string, a: string, b: string)
    ensures Within(p, a) ==> Within(p, a + b)
    ensures Within(b, a + b)
  {
    if before: string, after: string :| a == before + p + after {
      assert a + b == before + p + (after + b);
    }
    assert a + b == a + b + [];
  }

  lemma NothingWithinEmpty(p: string)
    ensures Within(p, []) <==> p == []
  {
    if p == [] { assert [] == [] + p + []; }
  }

  lemma HeldExtended(held: seq<string>, chunks: seq<string>, current: string, sep: string, piece: string)
    requires Holds(held, chunks, current) && piece != []
    ensures Holds(held + [piece], chunks, current + sep + piece)
  {
    hide Within, InSome;
    var all, next := held + [piece], current + sep + piece;
    forall i | 0 <= i < |all| ensures all[i] != [] && (Within(all[i], next) || InSome(all[i], chunks)) {
      WithinExtends(all[i], current, sep + piece);
      assert current + (sep + piece) == next;
      WithinExtends(piece, current + sep, piece);
    }
  }

  lemma HeldClosed(held: seq<string>, chunks: seq<string>, current: string)
    requires Holds(held, chunks, current)
    ensures Holds(held, if current == [] then chunks else chunks + [current], [])
  {
    hide Within;
    if current != [] {
      var closed := chunks + [current];
      forall i | 0 <= i < |held| ensures InSome(held[i], closed) {
        if Within(held[i], current) {
          assert Within(held[i], closed[|chunks|]);
        } else {
          var k :| 0 <= k < |chunks| && Within(held[i], chunks[k]);
          assert Within(held[i], closed[k]);
        }
      }
    }
  }

  lemma HeldOpened(held: seq<string>, chunks: seq<string>, piece: string)
    requires Holds(held, chunks, []) && piece != []
    ensures Holds(held + [piece], chunks, piece)
  {
    hide Within, InSome;
    var all := held + [piece];
    assert Within(piece, piece) by {
      WithinExtends(piece, [], piece);
      assert [] + piece == piece;
    }
    forall i | 0 <= i < |held| ensures all[i] != [] && InSome(all[i], chunks) {
      NothingWithinEmpty(held[i]);
    }
  }

  /** Append a piece to the open chunk. */
  lemma {:induction false} Extended(chunks: seq<string>, current: string, paras: seq<string>, max: int,
      words: seq<string>, held: seq<string>, sep: string, piece: string)
    requires Building(chunks, current, paras, max, words, held)
    requires Stripped(piece) && Joins(sep, piece, paras) && |Words(current)| + |Words(piece)| <= max
    ensures var next := if current == [] then piece else current + sep + piece;
            Building(chunks, next, paras, max, words + Words(piece), held + [piece])
  {
    hide Holds, Words, IsBlank, AllWords, Joins, IsUnit, Composed;
    JoinsUnit(sep, piece, paras);
    if current == [] {
      SmallFits(piece, paras, max);
      Opened(chunks, paras, max, words, held, piece);
    } else {
      var next := current + sep + piece;
      WordsAround(current, sep, piece);
      assert AllWords(chunks) + (Words(current) + Words(piece)) == words + Words(piece);
      HeldExtended(held, chunks, current, sep, piece);
      SmallFits(next, paras, max);
      ComposedNext(current, sep, piece, paras);
      assert next[0] == current[0] && next[|next| - 1] == piece[|piece| - 1];
    }
  }

  lemma JoinsUnit(sep: string, u: string, paras: seq<string>)
    requires Joins(sep, u, paras)
    ensures IsUnit(u, paras) && IsBlank(sep) && sep != []
  {
    hide Sentences;
  }

  lemma ComposedNext(current: string, sep: string, u: string, paras: seq<string>)
    requires Composed(current, paras) && Joins(sep, u, paras)
    ensures Composed(current + sep + u, paras)
  {
    JoinsUnit(sep, u, paras);
    hide Joins, IsUnit, IsBlank;
    assert |current| < |current + sep + u|;
  }

  lemma UnitComposed(u: string, paras: seq<string>)
    requires IsUnit(u, paras)
    ensures Composed(u, paras)
  {
  }

  lemma SmallFits(c: string, paras: seq<string>, max: int)
    requires |Words(c)| <= max
    ensures Fits(c, paras, max)
  {
  }

  /** Open a chunk with a piece. */
  lemma {:induction false} Opened(chunks: seq<string>, paras: seq<string>, max: int, words: seq<string>,
      held: seq<string>, piece: string)
    requires Building(chunks, [], paras, max, words, held)
    requires Stripped(piece) && Fits(piece, paras, max) && IsUnit(piece, paras)
    ensures Building(chunks, piece, paras, max, words + Words(piece), held + [piece])
  {
    hide Holds, Words, Fits, AllWords, IsUnit, Composed;
    UnitComposed(piece, paras);
    assert Words([]) == [] by { WordsOfBlank([]); }
    HeldOpened(held, chunks, piece);
  }

  /** Close the open chunk, if there is one. */
  lemma Closed(chunks: seq<string>, current: string, paras: seq<string>, max: int, words: seq<string>,
      held: seq<string>)
    requires Building(chunks, current, paras, max, words, held)
    ensures var closed := if current == [] then chunks else chunks + [Strip(current)];
            Building(closed, [], paras, max, words, held)
    ensures current == [] <==> Strip(current) == []
  {
    hide Holds, Words, Fits, Composed;
    assert Words([]) == [] by { WordsOfBlank([]); }
    HeldClosed(held, chunks, current);
    if current != [] {
      assert Strip(current) == current;
      assert (chunks + [current])[..|chunks|] == chunks;
    }
  }

  /** Close the open chunk and open the next with a piece. */
  lemma {:induction false} Started(chunks: seq<string>, current: string, paras: seq<string>, max: int,
      words: seq<string>, held: seq<string>, piece: string)
    requires Building(chunks, current, paras, max, words, held)
    requires Stripped(piece) && Fits(piece, paras, max) && IsUnit(piece, paras)
    ensures var closed := if current == [] then chunks else chunks + [Strip(current)];
            Building(closed, piece, paras, max, words + Words(piece), held + [piece])
  {
    hide *;
    Closed(chunks, current, paras, max, words, held);
    Opened(if current == [] then chunks else chunks + [Strip(current)], paras, max, words, held, piece);
  }

  /** Split an oversized paragraph at sentence ends, filling chunks greedily. The open chunk of the
      paragraphs before it was closed by the caller. */
  method ChunkSentences(para: string, max: int, closed: seq<string>, ghost paras: seq<string>,
      ghost words: seq<string>, ghost held: seq<string>, ghost text: seq<string>)
    returns (chunks: seq<string>, current: string)
    requires max >= 1 && Stripped(para) && |Words(para)| > max
    requires exists k :: 0 <= k < |paras| && Strip(paras[k]) == para
    requires Building(closed, [], paras, max, words, held)
    requires Greedy(closed, |closed|, paras, max, text) && words + Words(para) <= text
    ensures Building(chunks, current, paras, max, words + Words(para), held + Sentences(para))
    ensures Greedy(chunks, |chunks|, paras, max, text)
  {
    hide Building, Greedy, Words, Sentences, Fits, AllWords, IsUnit, Stripped, Joins;
    SentencesKeepWords(para);
    var sentences := Sentences(para);
    SentencesStripped(para);
    chunks, current := closed, [];
    assert words + AllWords(sentences[..0]) == words && held + sentences[..0] == held by { NoWords(sentences[..0]); }
    for k := 0 to |sentences|
      invariant Building(chunks, current, paras, max, words + AllWords(sentences[..k]), held + sentences[..k])
      invariant Greedy(chunks, |chunks|, paras, max, text)
    {
      var sent := sentences[k];
      ghost var seen, kept := words + AllWords(sentences[..k]), held + sentences[..k];
      NextSentence(para, sentences, k, words, held);
      if |Words(current)| + |Words(sent)| <= max {
        SentenceJoins(sent, para, paras);
        Extended(chunks, current, paras, max, seen, kept, " ", sent);
        current := if current != [] then current + " " + sent else sent;
      } else {
        SentenceFits(sent, para, paras, max);
        GreedilyClosed(chunks, current, paras, max, seen, kept, sent, text);
        Started(chunks, current, paras, max, seen, kept, sent);
        if current != [] {
          chunks := chunks + [Strip(current)];
        }
        current := sent;
      }
    }
    assert sentences[..|sentences|] == sentences;
  }

  lemma NextSentence(para: string, sentences: seq<string>, k: nat, words: seq<string>, held: seq<string>)
    requires k < |sentences| && sentences == Sentences(para)
    ensures (words + AllWords(sentences[..k])) + Words(sentences[k]) == words + AllWords(sentences[..k + 1])
    ensures words + AllWords(sentences[..k + 1]) <= words + Words(para)
    ensures (held + sentences[..k]) + [sentences[k]] == held + sentences[..k + 1]
  {
    hide Words, Sentences;
    assert sentences[..k + 1] == sentences[..k] + [sentences[k]];
    assert sentences[..k + 1][..k] == sentences[..k];
    AllWordsPrefix(sentences, k + 1);
    SentencesKeepWords(para);
  }

  lemma NoWords(parts: seq<string>)
    requires parts == []
    ensures AllWords(parts) == []
  {
  }

  lemma UnitParagraph(paras: seq<string>, k: nat)
    requires k < |paras|
    ensures IsUnit(Strip(paras[k]), paras) && Joins("\n\n", Strip(paras[k]), paras)
  {
    hide Sentences;
  }

  lemma GreedyBefore(chunks: seq<string>, k: nat, paras: seq<string>, max: int, text: seq<string>)
    requires |chunks| - 1 <= k <= |chunks| && Greedy(chunks, k, paras, max, text)
    ensures chunks != [] ==> Greedy(chunks, |chunks| - 1, paras, max, text)
  {
    hide Full;
  }

  lemma SentenceFits(sent: string, para: string, paras: seq<string>, max: int)
    requires sent in Sentences(para) && |Words(para)| > max
    requires exists k :: 0 <= k < |paras| && Strip(paras[k]) == para
    ensures Fits(sent, paras, max) && IsUnit(sent, paras)
  {
    hide Sentences, Words;
  }

  lemma SentenceJoins(sent: string, para: string, paras: seq<string>)
    requires sent in Sentences(para) && exists k :: 0 <= k < |paras| && Strip(paras[k]) == para
    ensures Joins(" ", sent, paras)
  {
    hide Sentences;
  }

  lemma NextParagraph(paras: seq<string>, k: nat, max: int)
    requires k < |paras|
    ensures var q := Strip(paras[k]);
            && AllWords(paras[..k + 1]) == AllWords(paras[..k]) + Words(q)
            && AllPieces(paras[..k + 1], max) == AllPieces(paras[..k], max)
                 + (if q == [] then [] else if |Words(q)| <= max then [q] else Sentences(q))
            && (q == [] ==> Words(q) == [])
  {
    hide Words, Sentences;
    assert paras[..k + 1][..k] == paras[..k];
    WordsStrip(paras[k]);
  }

  /** Before the first paragraph, and for a text without any. */
  lemma NothingYet(paras: seq<string>, max: int)
    ensures AllWords([]) == [] && AllWords(paras[..0]) == [] && AllPieces(paras[..0], max) == []
    ensures AllPieces(Paragraphs([]), max) == []
    ensures Building([], [], paras, max, [], [])
    ensures IsBlank("\n\n")
    ensures forall text :: Greedy([], 0, paras, max, text)
  {
    assert Paragraphs([]) == [[]];
    assert Pieces([], max) == [];
    assert AllPieces([[]], max) == [] + Pieces([], max);
  }

  lemma Finished(chunks: seq<string>, paras: seq<string>, max: int)
    requires Building(chunks, [], paras, max, AllWords(paras), AllPieces(paras, max))
    ensures AllWords(chunks) == AllWords(paras)
    ensures forall i :: 0 <= i < |chunks| ==>
              Stripped(chunks[i]) && Fits(chunks[i], paras, max) && Composed(chunks[i], paras)
    ensures forall i :: 0 <= i < |AllPieces(paras, max)| ==> InSome(AllPieces(paras, max)[i], chunks)
  {
    hide Within, Words, Fits, Composed, AllPieces, InSome;
    assert Words([]) == [] by { WordsOfBlank([]); }
    var held := AllPieces(paras, max);
    forall i | 0 <= i < |held| ensures InSome(held[i], chunks) {
      NothingWithinEmpty(held[i]);
    }
  }

  /** A paragraph within the limit stands whole in one chunk, and so does each sentence of one over it. */
  ghost predicate Kept(para: string, max: int, chunks: seq<string>) {
    para == []
    || if |Words(para)| <= max then InSome(para, chunks)
       else forall sent :: sent in Sentences(para) ==> InSome(sent, chunks)
  }

  lemma PiecesKept(paras: seq<string>, max: int, chunks: seq<string>)
    requires forall i :: 0 <= i < |AllPieces(paras, max)| ==> InSome(AllPieces(paras, max)[i], chunks)
    ensures forall para :: para in paras ==> Kept(Strip(para), max, chunks)
  {
    hide InSome, Words, Sentences, AllPieces;
    forall para | para in paras ensures Kept(Strip(para), max, chunks) {
      PiecesOf(paras, max, para);
      assert forall p :: p in Pieces(para, max) ==> InSome(p, chunks);
    }
  }

  lemma {:induction false} PiecesOf(paras: seq<string>, max: int, para: string)
    requires para in paras
    ensures forall p :: p in Pieces(para, max) ==> p in AllPieces(paras, max)
  {
    hide Pieces;
    var k := |paras| - 1;
    if para != paras[k] {
      assert para in paras[..k];
      PiecesOf(paras[..k], max, para);
    }
  }

  /** Fails exactly on a limit below 1. Otherwise the words of the chunks, in order, are the words of the
      text; no chunk is blank or padded; each is made of paragraphs after empty lines and sentences after
      spaces, and is within the limit or a single sentence of a paragraph over it; every paragraph that
      fits, and every sentence of one that does not, stands whole in some chunk; and each chunk but the
      last was closed because the next paragraph or sentence did not fit. */
  method ChunkText(text: string, maxTokens: int) returns (r: Result<seq<string>, ChunkError>)
    ensures r.Err? <==> maxTokens < 1
    ensures r.Ok? ==>
      && AllWords(r.value) == Words(text)
      && (r.value == [] <==> IsBlank(text))
      && (forall i :: 0 <= i < |r.value| ==>
            && Stripped(r.value[i]) && Fits(r.value[i], Paragraphs(Strip(text)), maxTokens)
            && Composed(r.value[i], Paragraphs(Strip(text))))
      && forall i :: 0 <= i < |AllPieces(Paragraphs(Strip(text)), maxTokens)| ==>
           InSome(AllPieces(Paragraphs(Strip(text)), maxTokens)[i], r.value)
    ensures r.Ok? ==> forall para :: para in Paragraphs(Strip(text)) ==> Kept(Strip(para), maxTokens, r.value)
    ensures r.Ok? && r.value != [] ==>
      Greedy(r.value, |r.value| - 1, Paragraphs(Strip(text)), maxTokens, Words(text))
  {
    hide *;
    if maxTokens < 1 {
      return Err(BadLimit(maxTokens));
    }
    WordsStrip(text);
    BlankHasNoWords(text);
    var paras := Paragraphs(Strip(text));
    ParagraphsKeepWords(Strip(text));
    NothingYet(paras, maxTokens);
    if Strip(text) == [] {
      PiecesKept(paras, maxTokens, []);
      return Ok([]);
    }
    var chunks: seq<string>, current := [], "";
    for k := 0 to |paras|
      invariant Building(chunks, current, paras, maxTokens, AllWords(paras[..k]), AllPieces(paras[..k], maxTokens))
      invariant Greedy(chunks, |chunks|, paras, maxTokens, Words(text))
    {
      ghost var seen, kept := AllWords(paras[..k]), AllPieces(paras[..k], maxTokens);
      NextParagraph(paras, k, maxTokens);
      var para := Strip(paras[k]);
      if para != [] {
        var wordCount := |Words(para)|;
        UnitParagraph(paras, k);
        if |Words(current)| + wordCount <= maxTokens {
          Extended(chunks, current, paras, maxTokens, seen, kept, "\n\n", para);
          current := if current != [] then current + "\n\n" + para else para;
        } else {
          ghost var open := chunks;
          AllWordsPrefix(paras, k + 1);
          GreedilyClosed(open, current, paras, maxTokens, seen, kept, para, Words(text));
          if current != [] {
            chunks := chunks + [Strip(current)];
          }
          if wordCount > maxTokens {
            Closed(open, current, paras, maxTokens, seen, kept);
            chunks, current := ChunkSentences(para, maxTokens, chunks, paras, seen, kept, Words(text));
          } else {
            SmallFits(para, paras, maxTokens);
            Started(open, current, paras, maxTokens, seen, kept, para);
            current := para;
          }
        }
      } else {
        assert seen + [] == seen && kept + [] == kept;
      }
    }
    assert paras[..|paras|] == paras;
    Closed(chunks, current, paras, maxTokens, AllWords(paras), AllPieces(paras, maxTokens));
    ghost var open := chunks;
    if Strip(current) != [] {
      chunks := chunks + [Strip(current)];
      StaysGreedy(open, Strip(current), paras, maxTokens, Words(text));
    }
    GreedyBefore(chunks, |open|, paras, maxTokens, Words(text));
    Finished(chunks, paras, maxTokens);
    PiecesKept(paras, maxTokens, chunks);
    r := Ok(chunks);
  }
}
