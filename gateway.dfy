/** The pure helpers of the relay page in `components/Gateway.tsx`: the
    query history update, the empty-query guard, the URL-or-query test,
    the filter over grounding sources, and the classification of result
    lines for rendering. */
module Gateway {
  import opened Wrappers
  import opened JsStrings
  import opened Sequences

  datatype HistoryItem = HistoryItem(query: string, timestamp: int)

  const HISTORY_LIMIT: nat := 10

  /** `history.filter(h => h.query !== query)`. */
  function WithoutQuery(history: seq<HistoryItem>, query: string): (r: seq<HistoryItem>)
    ensures |r| <= |history|
    ensures forall k :: 0 <= k < |r| ==> r[k].query != query
    ensures forall h :: h in r <==> h in history && h.query != query
  {
    if history == [] then []
    else if history[0].query != query then [history[0]] + WithoutQuery(history[1..], query)
    else WithoutQuery(history[1..], query)
  }

  /** Every entry for another query is kept as often as it occurs, and no
      entry for the query survives. */
  lemma {:induction false} WithoutQueryCounts(history: seq<HistoryItem>, query: string, h: HistoryItem)
    ensures multiset(WithoutQuery(history, query))[h] ==
            if h.query != query then multiset(history)[h] else 0
  {
    if history != [] {
      assert history == [history[0]] + history[1..];
      WithoutQueryCounts(history[1..], query, h);
    }
  }

  lemma {:induction false} WithoutQueryIsSubsequence(history: seq<HistoryItem>, query: string)
    ensures IsSubsequence(WithoutQuery(history, query), history)
  {
    if history != [] {
      WithoutQueryIsSubsequence(history[1..], query);
      if history[0].query != query {
        assert ([history[0]] + WithoutQuery(history[1..], query))[1..] == WithoutQuery(history[1..], query);
      }
    }
  }

  /** No query occurs twice. */
  predicate DistinctQueries(history: seq<HistoryItem>)
  {
    forall i, j :: 0 <= i < j < |history| ==> history[i].query != history[j].query
  }

  lemma {:induction false} WithoutQueryDistinct(history: seq<HistoryItem>, query: string)
    requires DistinctQueries(history)
    ensures DistinctQueries(WithoutQuery(history, query))
  {
    if history != [] {
      var tail := history[1..];
      assert DistinctQueries(tail) by {
        forall i, j | 0 <= i < j < |tail| ensures tail[i].query != tail[j].query {
          assert tail[i] == history[i + 1] && tail[j] == history[j + 1];
        }
      }
      WithoutQueryDistinct(tail, query);
      var rest := WithoutQuery(tail, query);
      if history[0].query != query {
        forall j | 0 <= j < |rest| ensures rest[j].query != history[0].query {
          assert rest[j] in tail;
          var m :| 0 <= m < |tail| && tail[m] == rest[j];
          assert tail[m] == history[m + 1];
        }
      }
    }
  }

  /** `saveToHistory(query)` at time `now`: the new entry first, then the
      older entries for other queries, cut to ten. */
  function SaveToHistory(history: seq<HistoryItem>, query: string, now: int): seq<HistoryItem>
  {
    var updated := [HistoryItem(query, now)] + WithoutQuery(history, query);
    updated[..if |updated| < HISTORY_LIMIT then |updated| else HISTORY_LIMIT]
  }

  /** The saved query comes first with the given timestamp, followed by
      the first older entries for other queries, at most ten in all. */
  lemma SaveToHistoryShape(history: seq<HistoryItem>, query: string, now: int)
    ensures var r := SaveToHistory(history, query, now);
            && 1 <= |r| <= HISTORY_LIMIT
            && r[0] == HistoryItem(query, now)
            && r[1..] == WithoutQuery(history, query)[..|r| - 1]
            && |r| == if |WithoutQuery(history, query)| < HISTORY_LIMIT
                      then |WithoutQuery(history, query)| + 1 else HISTORY_LIMIT
  {
    var rest := WithoutQuery(history, query);
    var updated := [HistoryItem(query, now)] + rest;
    var n := if |updated| < HISTORY_LIMIT then |updated| else HISTORY_LIMIT;
    assert updated[..n][1..] == rest[..n - 1];
  }

  /** The query occurs nowhere after the first entry, and those entries
      are older ones in their old order. */
  lemma SaveToHistoryRest(history: seq<HistoryItem>, query: string, now: int)
    ensures var r := SaveToHistory(history, query, now);
            && (forall k :: 1 <= k < |r| ==> r[k].query != query)
            && IsSubsequence(r[1..], history)
  {
    SaveToHistoryShape(history, query, now);
    var r := SaveToHistory(history, query, now);
    var rest := WithoutQuery(history, query);
    TakeIsSubsequence(rest, |r| - 1);
    WithoutQueryIsSubsequence(history, query);
    SubsequenceTrans(rest[..|r| - 1], rest, history);
    forall k | 1 <= k < |r| ensures r[k].query != query {
      assert r[k] == r[1..][k - 1] == rest[k - 1];
    }
  }

  /** A history without repeated queries keeps that property. */
  lemma SaveToHistoryDistinct(history: seq<HistoryItem>, query: string, now: int)
    requires DistinctQueries(history)
    ensures DistinctQueries(SaveToHistory(history, query, now))
  {
    SaveToHistoryShape(history, query, now);
    var r := SaveToHistory(history, query, now);
    var rest := WithoutQuery(history, query);
    WithoutQueryDistinct(history, query);
    forall i, j | 0 <= i < j < |r| ensures r[i].query != r[j].query {
      assert r[j] == r[1..][j - 1] == rest[j - 1];
      if i > 0 {
        assert r[i] == r[1..][i - 1] == rest[i - 1];
      }
    }
  }

  /** The query `handleGo` acts on: a non-empty manual query, else the
      address bar's text; `None` when it is only white space, in which
      case nothing happens. */
  function TargetQuery(manualQuery: Option<string>, url: string): (r: Option<string>)
    ensures var q := if manualQuery.Some? && manualQuery.value != "" then manualQuery.value else url;
            (r == None <==> forall k :: 0 <= k < |q| ==> IsWhite(q[k])) && (r.Some? ==> r.value == q)
  {
    var q := if manualQuery.Some? && manualQuery.value != "" then manualQuery.value else url;
    TrimEmptyIff(q);
    if Trim(q) == "" then None else Some(q)
  }

  /** `isUrl`: a dot and no space. */
  predicate IsUrl(query: string)
  {
    Includes(query, ".") && !Includes(query, " ")
  }

  lemma IsUrlIff(query: string)
    ensures IsUrl(query) <==> '.' in query && ' ' !in query
  {
    CharIncludes(query, '.');
    CharIncludes(query, ' ');
  }

  lemma CharIncludes(s: string, c: char)
    ensures Includes(s, [c]) <==> c in s
  {
    IncludesIff(s, [c]);
    if c in s {
      var i :| 0 <= i < |s| && s[i] == c;
      assert MatchesAt(s, [c], i);
    }
    if Includes(s, [c]) {
      var i :| 0 <= i <= |s| && MatchesAt(s, [c], i);
      assert s[i] == s[i..i + 1][0];
    }
  }

  /** The two prompt shapes sent upstream. */
  datatype Prompt = RenderPacket(target: string) | Lookup(target: string)

  function PromptFor(query: string): (p: Prompt)
    ensures p.target == query
    ensures p.RenderPacket? <==> '.' in query && ' ' !in query
  {
    IsUrlIff(query);
    if IsUrl(query) then RenderPacket(query) else Lookup(query)
  }

  /** A grounding chunk, with its optional `web` record and `uri`. */
  datatype Web = Web(title: string, uri: Option<string>)
  datatype Chunk = Chunk(web: Option<Web>)

  /** `web && web.uri`: the record exists and has a non-empty `uri`. */
  predicate HasSource(c: Chunk)
  {
    c.web.Some? && c.web.value.uri.Some? && c.web.value.uri.value != ""
  }

  /** `chunks.map(chunk => chunk.web).filter(web => web && web.uri)`. */
  function Sources(chunks: seq<Chunk>): (r: seq<Web>)
    ensures forall k :: 0 <= k < |r| ==> r[k].uri.Some? && r[k].uri.value != ""
    ensures |r| <= |chunks|
    ensures forall w :: w in r <==> Chunk(Some(w)) in chunks && HasSource(Chunk(Some(w)))
  {
    if chunks == [] then []
    else if HasSource(chunks[0]) then [chunks[0].web.value] + Sources(chunks[1..])
    else Sources(chunks[1..])
  }

  /** A record is listed once for every chunk that carries it with a
      non-empty `uri`, so repeated sources stay repeated. */
  lemma {:induction false} SourcesCounts(chunks: seq<Chunk>, w: Web)
    ensures multiset(Sources(chunks))[w] ==
            if HasSource(Chunk(Some(w))) then multiset(chunks)[Chunk(Some(w))] else 0
  {
    if chunks != [] {
      assert chunks == [chunks[0]] + chunks[1..];
      SourcesCounts(chunks[1..], w);
    }
  }

  /** Each record back in its chunk. */
  function AsChunks(ws: seq<Web>): (r: seq<Chunk>)
    ensures |r| == |ws| && forall k :: 0 <= k < |ws| ==> r[k] == Chunk(Some(ws[k]))
  {
    seq(|ws|, k requires 0 <= k < |ws| => Chunk(Some(ws[k])))
  }

  /** The sources are the qualifying chunks' records in chunk order. */
  lemma {:induction false} SourcesInOrder(chunks: seq<Chunk>)
    ensures IsSubsequence(AsChunks(Sources(chunks)), chunks)
  {
    if chunks != [] {
      SourcesInOrder(chunks[1..]);
      var lifted := AsChunks(Sources(chunks));
      var lifted1 := AsChunks(Sources(chunks[1..]));
      if HasSource(chunks[0]) {
        assert lifted[0] == chunks[0];
        assert lifted[1..] == lifted1;
      } else {
        assert lifted == lifted1;
      }
    }
  }

  /** How a result line is rendered. */
  datatype Block = Heading(text: string) | Subheading(text: string) | ListItem(text: string) | Paragraph(text: string)

  /** The line classifier, tests in source order. */
  function Classify(line: string): Block
  {
    if StartsWith(line, "# ") then Heading(ReplaceFirst(line, "# ", ""))
    else if StartsWith(line, "## ") then Subheading(ReplaceFirst(line, "## ", ""))
    else if StartsWith(line, "- ") || StartsWith(line, "* ") then ListItem(line[2..])
    else Paragraph(line)
  }

  /** Each kind of line loses exactly its marker, and anything else is
      kept whole as a paragraph. */
  lemma ClassifyMarkers(line: string)
    ensures StartsWith(line, "# ") ==> Classify(line) == Heading(line[2..])
    ensures StartsWith(line, "## ") ==> Classify(line) == Subheading(line[3..])
    ensures (StartsWith(line, "- ") || StartsWith(line, "* ")) ==> Classify(line) == ListItem(line[2..])
    ensures (!StartsWith(line, "# ") && !StartsWith(line, "## ") && !StartsWith(line, "- ") &&
             !StartsWith(line, "* ")) ==> Classify(line) == Paragraph(line)
  {
    if StartsWith(line, "# ") {
      assert line[0] == '#' && line[1] == ' ';
      ReplacePrefix(line, "# ");
    } else if StartsWith(line, "## ") {
      ReplacePrefix(line, "## ");
    }
  }

  /** The rendered result: one block per line of the text. */
  function Render(result: string): seq<Block>
  {
    var lines := SplitLines(result);
    seq(|lines|, k requires 0 <= k < |lines| => Classify(lines[k]))
  }

  /** Rendering goes line by line: a text without a line break is one
      block, and a first line followed by a break renders as that line's
      block before the rest. */
  lemma RenderLines(line: string, rest: string)
    requires '\n' !in line
    ensures Render(line) == [Classify(line)]
    ensures Render(line + "\n" + rest) == [Classify(line)] + Render(rest)
  {
    FirstBreak(line, rest);
    NoBreak(line);
    var s := line + "\n" + rest;
    assert s[|line| + 1..] == rest;
    assert s[..|line|] == line;
  }
}
