/** The keyword search of the knowledge store (analytics/pae/pke/store.py) on the table as a session
    reads it. */
module KeywordRanking {
  import opened KnowledgeRows
  import opened Ordering
  import opened Reals
  import opened Results

  predicate HasTheme<T>(r: Row<T>, themes: seq<Text>) {
    themes == [] || exists i :: 0 <= i < |r.themes| && r.themes[i] in themes
  }

  /** The share of the query's tokens that a text holds. */
  function Score(query: set<Text>, tokens: set<Text>): (s: real)
    requires query != {}
  {
    |query * tokens| as real / |query| as real
  }

  /** The scored chunks in table order; the first unreadable row of the themes asked for fails it. */
  function Scored(readings: seq<Row<Reading>>, query: set<Text>, tokens: Text -> set<Text>, themes: seq<Text>)
    : Result<seq<(Bytes, real)>, ReadError>
    requires query != {}
  {
    if readings == [] then Ok([])
    else
      var k := |readings| - 1;
      match Scored(readings[..k], query, tokens, themes)
      case Err(e) => Err(e)
      case Ok(front) =>
        if !HasTheme(readings[k], themes) then Ok(front)
        else
          match readings[k].content
          case Err(e) => Err(e)
          case Ok(text) =>
            if query * tokens(text) == {} then Ok(front)
            else Ok(front + [(readings[k].chunkId, Score(query, tokens(text)))])
  }

  predicate Better(a: (Bytes, real), b: (Bytes, real)) { a.1 >= b.1 }

  function Take<T>(s: seq<T>, n: nat): (r: seq<T>)
    ensures r <= s && |r| == if n < |s| then n else |s|
  {
    if n < |s| then s[..n] else s
  }

  /** keyword_search on readings: best score first, ties in table order, cut to top_k. */
  function Search(readings: seq<Row<Reading>>, query: set<Text>, tokens: Text -> set<Text>, topK: int,
      themes: seq<Text>)
    : Result<seq<(Bytes, real)>, ReadError>
  {
    if query == {} || topK < 1 then Ok([])
    else
      match Scored(readings, query, tokens, themes)
      case Err(e) => Err(e)
      case Ok(scored) => Ok(Take(Sort(scored, Better), topK))
  }

  /** Every score is above 0 and at most 1. */
  lemma {:induction false} ScoresInUnit(readings: seq<Row<Reading>>, query: set<Text>, tokens: Text -> set<Text>,
      themes: seq<Text>)
    requires query != {} && Scored(readings, query, tokens, themes).Ok?
    ensures forall i :: 0 <= i < |Scored(readings, query, tokens, themes).value| ==>
      0.0 < Scored(readings, query, tokens, themes).value[i].1 <= 1.0
  {
    if readings == [] {
    } else {
      var k := |readings| - 1;
      ScoresInUnit(readings[..k], query, tokens, themes);
      if readings[k].content.Ok? {
        ScoreInUnit(query, tokens(readings[k].content.value));
      }
    }
  }

  lemma ScoreInUnit(query: set<Text>, tokens: set<Text>)
    requires query != {}
    ensures query * tokens != {} ==> 0.0 < Score(query, tokens) <= 1.0
  {
    assert query == query * tokens + (query - tokens);
  }

  /** The hits come best first, and no chunk left out scores above a chunk returned. */
  lemma SearchReturnsBest(readings: seq<Row<Reading>>, query: set<Text>, tokens: Text -> set<Text>, topK: int,
      themes: seq<Text>)
    requires query != {} && topK >= 1 && Scored(readings, query, tokens, themes).Ok?
    ensures var scored := Scored(readings, query, tokens, themes).value;
            var hits := Search(readings, query, tokens, topK, themes).value;
            && |hits| == (if topK < |scored| then topK else |scored|)
            && exists rest :: multiset(hits + rest) == multiset(scored)
                 && forall i, j :: 0 <= i < j < |hits + rest| ==> Better((hits + rest)[i], (hits + rest)[j])
  {
    hide Scored, Sort;
    var scored := Scored(readings, query, tokens, themes).value;
    var hits, sorted := Search(readings, query, tokens, topK, themes).value, Sort(scored, Better);
    SortElements(scored, Better);
    assert IsOrder(Better);
    SortSorts(scored, Better);
    var rest := sorted[|hits|..];
    assert hits + rest == sorted;
  }

  lemma {:induction false} ScoredPrefixFails(readings: seq<Row<Reading>>, k: nat, query: set<Text>,
      tokens: Text -> set<Text>, themes: seq<Text>)
    requires k < |readings| && query != {} && Scored(readings[..k], query, tokens, themes).Ok?
    requires HasTheme(readings[k], themes) && readings[k].content.Err?
    ensures Scored(readings, query, tokens, themes) == Err(readings[k].content.error)
    decreases |readings|
  {
    var l := |readings| - 1;
    if k >= l {
    } else {
      assert readings[..l][..k] == readings[..k];
      ScoredPrefixFails(readings[..l], k, query, tokens, themes);
    }
  }

  // ------------------------------------------------- what a search answers

  /** The row carries one of the themes asked for; every row does if none is. */
  predicate Carries<T>(r: Row<T>, themes: seq<Text>) {
    themes == [] || exists theme :: theme in r.themes && theme in themes
  }

  /** The tokens of the query that a row is known to hold. */
  function Shared(r: Row<Reading>, query: set<Text>, tokens: Text -> set<Text>): set<Text> {
    if r.content.Ok? then query * tokens(r.content.value) else {}
  }

  /** at lists the rows that match, by how many tokens they share with the query, ties in table order. */
  ghost predicate RanksMatches(readings: seq<Row<Reading>>, query: set<Text>, tokens: Text -> set<Text>,
      themes: seq<Text>, at: seq<nat>)
  {
    && (forall p: nat :: p in at <==>
          (p < |readings| && Carries(readings[p], themes) && Shared(readings[p], query, tokens) != {}))
    && (forall i, j :: 0 <= i < j < |at| && at[i] < |readings| && at[j] < |readings| ==>
          var a, b := |Shared(readings[at[i]], query, tokens)|, |Shared(readings[at[j]], query, tokens)|;
          a > b || (a == b && at[i] < at[j]))
  }

  /** The hits are the first top_k of the ranking, each with the share of the query's tokens it holds. */
  ghost predicate AreHits(readings: seq<Row<Reading>>, query: set<Text>, tokens: Text -> set<Text>, topK: int,
      hits: seq<(Bytes, real)>, at: seq<nat>)
  {
    && |hits| == (if topK < |at| then topK else |at|)
    && forall i :: 0 <= i < |hits| && at[i] < |readings| ==>
         && hits[i].0 == readings[at[i]].chunkId
         && hits[i].1 * |query| as real == |Shared(readings[at[i]], query, tokens)| as real
  }

  ghost predicate FirstUnreadable(readings: seq<Row<Reading>>, themes: seq<Text>, p: nat) {
    && p < |readings| && Carries(readings[p], themes) && readings[p].content.Err?
    && forall q :: 0 <= q < p && Carries(readings[q], themes) ==> readings[q].content.Ok?
  }

  /** A search for something fails at the first unreadable row among those asked for, if there is one. */
  ghost predicate IsSearchAnswer(readings: seq<Row<Reading>>, query: set<Text>, tokens: Text -> set<Text>, topK: int,
      themes: seq<Text>, r: Result<seq<(Bytes, real)>, ReadError>)
  {
    match r
    case Err(e) =>
      exists p: nat :: FirstUnreadable(readings, themes, p) && readings[p].content == Err(e)
    case Ok(hits) =>
      && (forall p :: 0 <= p < |readings| && Carries(readings[p], themes) ==> readings[p].content.Ok?)
      && exists at :: RanksMatches(readings, query, tokens, themes, at)
                      && AreHits(readings, query, tokens, topK, hits, at)
  }

  /** The matching rows in table order. */
  function Matching(readings: seq<Row<Reading>>, query: set<Text>, tokens: Text -> set<Text>, themes: seq<Text>)
    : (at: seq<nat>)
    ensures forall i :: 0 <= i < |at| ==> at[i] < |readings|
    ensures forall i, j :: 0 <= i < j < |at| ==> at[i] < at[j]
  {
    if readings == [] then []
    else
      var k := |readings| - 1;
      var front := Matching(readings[..k], query, tokens, themes);
      if Carries(readings[k], themes) && Shared(readings[k], query, tokens) != {} then front + [k] else front
  }

  function Hit(readings: seq<Row<Reading>>, query: set<Text>, tokens: Text -> set<Text>, p: nat): (Bytes, real)
    requires query != {}
  {
    if p < |readings| then (readings[p].chunkId, |Shared(readings[p], query, tokens)| as real / |query| as real)
    else ([], 0.0)
  }

  lemma CarriesIsHasTheme<T>(r: Row<T>, themes: seq<Text>)
    ensures Carries(r, themes) <==> HasTheme(r, themes)
  {
  }

  lemma {:induction false} MatchingRows(readings: seq<Row<Reading>>, query: set<Text>, tokens: Text -> set<Text>,
      themes: seq<Text>)
    ensures var at := Matching(readings, query, tokens, themes);
            forall p: nat :: p in at <==>
              (p < |readings| && Carries(readings[p], themes) && Shared(readings[p], query, tokens) != {})
  {
    hide Carries, Shared;
    if readings == [] {
    } else {
      var k := |readings| - 1;
      MatchingRows(readings[..k], query, tokens, themes);
      assert forall p :: 0 <= p < k ==> readings[..k][p] == readings[p];
    }
  }

  /** Scoring that succeeds scores the matching rows, and every row asked for is readable. */
  lemma {:induction false} ScoredMatches(readings: seq<Row<Reading>>, query: set<Text>, tokens: Text -> set<Text>,
      themes: seq<Text>)
    requires query != {} && Scored(readings, query, tokens, themes).Ok?
    ensures forall p :: 0 <= p < |readings| && Carries(readings[p], themes) ==> readings[p].content.Ok?
    ensures var at := Matching(readings, query, tokens, themes);
            var scored := Scored(readings, query, tokens, themes).value;
            |scored| == |at| && forall i :: 0 <= i < |at| ==> scored[i] == Hit(readings, query, tokens, at[i])
  {
    hide Carries, HasTheme;
    if readings == [] {
    } else {
      var k := |readings| - 1;
      var front := readings[..k];
      ScoredMatches(front, query, tokens, themes);
      CarriesIsHasTheme(readings[k], themes);
      assert forall p :: 0 <= p < k ==> front[p] == readings[p];
    }
  }

  lemma {:induction false} ScoredFails(readings: seq<Row<Reading>>, query: set<Text>, tokens: Text -> set<Text>,
      themes: seq<Text>)
    returns (p: nat)
    requires query != {} && Scored(readings, query, tokens, themes).Err?
    ensures FirstUnreadable(readings, themes, p)
    ensures readings[p].content == Err(Scored(readings, query, tokens, themes).error)
  {
    hide Carries, HasTheme;
    var k := |readings| - 1;
    var front := readings[..k];
    if Scored(front, query, tokens, themes).Err? {
      p := ScoredFails(front, query, tokens, themes);
    } else {
      ScoredMatches(front, query, tokens, themes);
      CarriesIsHasTheme(readings[k], themes);
      p := k;
    }
    assert forall q :: 0 <= q < k ==> front[q] == readings[q];
  }

  /** In order of leq, and where leq holds both ways in order of position. */
  predicate Ranked(at: seq<nat>, leq: (nat, nat) -> bool) {
    forall i, j :: 0 <= i < j < |at| ==> leq(at[i], at[j]) && (leq(at[j], at[i]) ==> at[i] < at[j])
  }

  lemma {:induction false} InsertRanked(x: nat, at: seq<nat>, leq: (nat, nat) -> bool)
    requires IsOrder(leq) && Ranked(at, leq) && forall i :: 0 <= i < |at| ==> x < at[i]
    ensures Ranked(Insert(x, at, leq), leq)
  {
    if at == [] || leq(x, at[0]) {
      FirstRanked(x, at, leq);
    } else {
      var rest := at[1..];
      InsertRanked(x, rest, leq);
      InsertElements(x, rest, leq);
      var t := Insert(x, rest, leq);
      forall j | 0 <= j < |t| ensures leq(at[0], t[j]) && (leq(t[j], at[0]) ==> at[0] < t[j]) {
        assert t[j] in multiset(t);
        assert t[j] == x || t[j] in rest;
      }
    }
  }

  lemma FirstRanked(x: nat, at: seq<nat>, leq: (nat, nat) -> bool)
    requires IsOrder(leq) && Ranked(at, leq) && (at == [] || leq(x, at[0]))
    requires forall i :: 0 <= i < |at| ==> x < at[i]
    ensures Ranked([x] + at, leq)
  {
    forall j | 0 <= j < |at| ensures leq(x, at[j]) {
      assert leq(at[0], at[j]);
    }
  }

  /** The stable sort of ascending positions. */
  lemma {:induction false} SortRanks(at: seq<nat>, leq: (nat, nat) -> bool)
    requires IsOrder(leq) && forall i, j :: 0 <= i < j < |at| ==> at[i] < at[j]
    ensures Ranked(Sort(at, leq), leq)
  {
    if at == [] {
    } else {
      SortRanks(at[1..], leq);
      var t := Sort(at[1..], leq);
      SortElements(at[1..], leq);
      forall i | 0 <= i < |t| ensures at[0] < t[i] {
        assert t[i] in at[1..];
      }
      InsertRanked(at[0], Sort(at[1..], leq), leq);
    }
  }

  /** What a search for something answers. */
  lemma SearchAnswers(readings: seq<Row<Reading>>, query: set<Text>, tokens: Text -> set<Text>, topK: int,
      themes: seq<Text>)
    requires query != {} && topK >= 1
    ensures IsSearchAnswer(readings, query, tokens, topK, themes, Search(readings, query, tokens, topK, themes))
  {
    hide Carries, Scored, Matching, Hit, Sort, Shared;
    var scored := Scored(readings, query, tokens, themes);
    if scored.Err? {
      var p := ScoredFails(readings, query, tokens, themes);
    } else {
      ScoredMatches(readings, query, tokens, themes);
      RankingOf(readings, query, tokens, topK, themes);
    }
  }

  lemma RankingOf(readings: seq<Row<Reading>>, query: set<Text>, tokens: Text -> set<Text>, topK: int,
      themes: seq<Text>)
    requires query != {} && topK >= 1 && Scored(readings, query, tokens, themes).Ok?
    ensures exists at :: RanksMatches(readings, query, tokens, themes, at)
              && AreHits(readings, query, tokens, topK, Search(readings, query, tokens, topK, themes).value, at)
  {
    hide Carries, Scored, Matching, Hit, Sort, Shared, Better;
    var at := SortedMatches(readings, query, tokens, themes);
    var hits := Search(readings, query, tokens, topK, themes).value;
    MatchingRows(readings, query, tokens, themes);
    forall i | 0 <= i < |at| ensures at[i] < |readings| {
      assert at[i] in at;
    }
    forall i, j | 0 <= i < j < |at|
      ensures var a, b := |Shared(readings[at[i]], query, tokens)|, |Shared(readings[at[j]], query, tokens)|;
              a > b || (a == b && at[i] < at[j])
    {
      BetterShares(readings, query, tokens, at[i], at[j]);
      BetterShares(readings, query, tokens, at[j], at[i]);
    }
    forall i | 0 <= i < |hits|
      ensures hits[i].0 == readings[at[i]].chunkId
      ensures hits[i].1 * |query| as real == |Shared(readings[at[i]], query, tokens)| as real
    {
      HitScore(readings, query, tokens, at[i]);
    }
    assert RanksMatches(readings, query, tokens, themes, at);
  }

  /** Sorting the scored rows sorts their positions. */
  lemma SortedMatches(readings: seq<Row<Reading>>, query: set<Text>, tokens: Text -> set<Text>, themes: seq<Text>)
    returns (at: seq<nat>)
    requires query != {} && Scored(readings, query, tokens, themes).Ok?
    ensures forall p: nat :: p in at <==> p in Matching(readings, query, tokens, themes)
    ensures var sorted := Sort(Scored(readings, query, tokens, themes).value, Better);
            |sorted| == |at| && forall i :: 0 <= i < |at| ==> sorted[i] == Hit(readings, query, tokens, at[i])
    ensures forall i, j :: 0 <= i < j < |at| ==>
              var a, b := Hit(readings, query, tokens, at[i]), Hit(readings, query, tokens, at[j]);
              Better(a, b) && (Better(b, a) ==> at[i] < at[j])
  {
    hide Scored, Matching, Hit, Sort;
    var f: nat -> (Bytes, real) := (p: nat) => Hit(readings, query, tokens, p);
    var leq: (nat, nat) -> bool := (p: nat, q: nat) => Better(f(p), f(q));
    var unsorted := Matching(readings, query, tokens, themes);
    at := Sort(unsorted, leq);
    ScoredMatches(readings, query, tokens, themes);
    SortElements(unsorted, leq);
    KeyOrder(f, leq);
    SortRanks(unsorted, leq);
    assert Map<nat, (Bytes, real)>(unsorted, f) == Scored(readings, query, tokens, themes).value;
    MapSort(unsorted, f, leq, Better);
  }

  lemma KeyOrder(f: nat -> (Bytes, real), leq: (nat, nat) -> bool)
    requires forall p: nat, q: nat :: leq(p, q) == Better(f(p), f(q))
    ensures IsOrder(leq)
  {
  }

  lemma BetterShares(readings: seq<Row<Reading>>, query: set<Text>, tokens: Text -> set<Text>, p: nat, q: nat)
    requires query != {} && p < |readings| && q < |readings|
    ensures Better(Hit(readings, query, tokens, p), Hit(readings, query, tokens, q))
            <==> |Shared(readings[p], query, tokens)| >= |Shared(readings[q], query, tokens)|
  {
    hide Hit, Shared;
    HitScore(readings, query, tokens, p);
    HitScore(readings, query, tokens, q);
    var n, a, b := |query| as real, Hit(readings, query, tokens, p).1, Hit(readings, query, tokens, q).1;
    if a >= b {
      ProductMonotone(b, a, n);
    } else {
      ProductStrict(a, b, n);
    }
  }

  lemma HitScore(readings: seq<Row<Reading>>, query: set<Text>, tokens: Text -> set<Text>, p: nat)
    requires query != {} && p < |readings|
    ensures Hit(readings, query, tokens, p).0 == readings[p].chunkId
    ensures Hit(readings, query, tokens, p).1 * |query| as real == |Shared(readings[p], query, tokens)| as real
  {
  }
}
