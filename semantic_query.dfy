/** The logic of the semantic-search REPL: the corpus built from the CSV rows,
    the classification of each console line, the `see` id resolution, the
    top-k ranking of the similarity scores and the read-evaluate-print loop.
    The embedding model is a parameter that maps a query text to one score
    per document. */
module SemanticQuery {
  import opened PyStr

  /** Only the first rows of the CSV file are read (`head(100000)`). */
  const MaxRows: nat := 100000

  /** Number of ranked results printed per query. */
  const TopK: nat := 5

  /** The suffix that `see` adds when the bare id is given. */
  const TxtSuffix: string := ".txt"

  // ---------------------------------------------------------------------------
  // Corpus construction

  /** One CSV row; `id` is the row's id already converted with `str`. */
  datatype Row = Row(id: string, title: string, text: string)

  /** What the corpus stores per id. */
  datatype Doc = Doc(title: string, text: string)

  function DocOf(row: Row): Doc {
    Doc(row.title, row.text)
  }

  function Min(a: nat, b: nat): nat {
    if a < b then a else b
  }

  /** The rows that `head(100000)` keeps. */
  function Head(rows: seq<Row>): (h: seq<Row>)
    ensures |h| == Min(|rows|, MaxRows)
    ensures h == rows[..|h|]
  {
    if |rows| <= MaxRows then rows else rows[..MaxRows]
  }

  /** The ids occurring in `rows`. */
  function Ids(rows: seq<Row>): set<string> {
    set i | 0 <= i < |rows| :: rows[i].id
  }

  /** No later row carries the id of row `i`. */
  predicate LastWithId(rows: seq<Row>, i: nat)
    requires i < |rows|
  {
    forall j :: i < j < |rows| ==> rows[j].id != rows[i].id
  }

  /** The dictionary that storing the rows one after the other produces: it
      has one key per distinct id of the rows, and no other. */
  function CorpusOf(rows: seq<Row>): (corpus: map<string, Doc>)
    ensures corpus.Keys == Ids(rows)
  {
    if rows == [] then map[]
    else
      var last := rows[|rows| - 1];
      IdsSnoc(rows);
      CorpusOf(rows[..|rows| - 1])[last.id := DocOf(last)]
  }

  /** The ids of a non-empty row sequence are those of all but its last row,
      plus the last row's. */
  lemma IdsSnoc(rows: seq<Row>)
    requires rows != []
    ensures Ids(rows) == Ids(rows[..|rows| - 1]) + {rows[|rows| - 1].id}
  {
    var init := rows[..|rows| - 1];
    forall k | k in Ids(rows) ensures k in Ids(init) + {rows[|rows| - 1].id} {
      var i :| 0 <= i < |rows| && rows[i].id == k;
      if i < |rows| - 1 { assert init[i] == rows[i]; }
    }
    forall k | k in Ids(init) ensures k in Ids(rows) {
      var i :| 0 <= i < |init| && init[i].id == k;
      assert rows[i] == init[i];
    }
  }

  /** A later row with the same id overwrites an earlier one: each key holds
      the title and text of the last row that carries it. */
  lemma {:induction false} CorpusOfLastWins(rows: seq<Row>, i: nat)
    requires i < |rows| && LastWithId(rows, i)
    ensures rows[i].id in CorpusOf(rows)
    ensures CorpusOf(rows)[rows[i].id] == DocOf(rows[i])
  {
    if i < |rows| - 1 {
      var init := rows[..|rows| - 1];
      assert init[i] == rows[i];
      assert LastWithId(init, i) by {
        forall j | i < j < |init| ensures init[j].id != init[i].id {
          assert init[j] == rows[j];
        }
      }
      CorpusOfLastWins(init, i);
      assert rows[|rows| - 1].id != rows[i].id;
    }
  }

  /** The loop that fills the corpus dictionary from the rows kept by
      `head(100000)`. */
  method BuildCorpus(rows: seq<Row>) returns (corpus: map<string, Doc>)
    ensures corpus == CorpusOf(Head(rows))
    ensures corpus.Keys == Ids(Head(rows))
    ensures forall i :: 0 <= i < |Head(rows)| && LastWithId(Head(rows), i) ==>
              corpus[Head(rows)[i].id] == DocOf(rows[i])
  {
    var n := Min(|rows|, MaxRows);
    corpus := map[];
    var i := 0;
    while i < n
      invariant 0 <= i <= n
      invariant corpus == CorpusOf(rows[..i])
    {
      var row := rows[i];
      corpus := corpus[row.id := DocOf(row)];
      assert rows[..i + 1][..i] == rows[..i];
      i := i + 1;
    }
    var h := Head(rows);
    assert rows[..n] == h;
    forall i | 0 <= i < |h| && LastWithId(h, i)
      ensures corpus[h[i].id] == DocOf(rows[i])
    {
      CorpusOfLastWins(h, i);
    }
  }

  // ---------------------------------------------------------------------------
  // Command classification

  /** What one console line asks for, in the order the REPL tests it. */
  datatype Command =
    | End
    | Query(text: string)
    | EmptyQuery          // the empty-query warning branch
    | See(id: string)
    | Invalid

  /** The line is stripped first; all tests look at the stripped line. A
      query text or an id is never blank, so the branch for an empty query
      text is never taken. */
  function Classify(line: string): (c: Command)
    ensures c != EmptyQuery
    ensures c.Query? ==> c.text != [] && Stripped(c.text)
    ensures c.See? ==> c.id != [] && Stripped(c.id)
  {
    ClassifyStripped(Strip(line))
  }

  /** Tests a stripped line case-insensitively against `end`, `query ` and
      `see `, in this order; the argument keeps the line's own case. */
  function ClassifyStripped(s: string): (c: Command)
    requires Stripped(s)
    ensures c != EmptyQuery
    ensures c.Query? ==> c.text != [] && Stripped(c.text)
    ensures c.See? ==> c.id != [] && Stripped(c.id)
  {
    var low := Lower(s);
    if low == "end" then End
    else if HasPrefix(low, "query ") then
      RemainderNotBlank(s, "query ");
      var text := Strip(s[6..]);
      if text == [] then EmptyQuery else Query(text)
    else if HasPrefix(low, "see ") then
      RemainderNotBlank(s, "see ");
      See(Strip(s[4..]))
    else Invalid
  }

  /** Only the space itself lower-cases to a space. */
  lemma LowerCharSpace(c: char)
    ensures LowerChar(c) == ' ' <==> c == ' '
  {
  }

  /** A stripped line whose lower-cased form starts with a keyword ending in a
      space has a non-blank remainder after the keyword. */
  lemma RemainderNotBlank(s: string, keyword: string)
    requires Stripped(s) && |keyword| > 0 && keyword[|keyword| - 1] == ' '
    requires HasPrefix(Lower(s), keyword)
    ensures Strip(s[|keyword|..]) != []
    ensures Stripped(Strip(s[|keyword|..]))
  {
    var k := |keyword|;
    assert Lower(s)[k - 1] == ' ';
    LowerCharSpace(s[k - 1]);
    assert s[k - 1] == ' ';
    assert |s| > k;
    var rest := s[k..];
    assert rest[|rest| - 1] == s[|s| - 1];
    StripEmptyIff(rest);
  }

  /** `end` ends the session whatever its case and surrounding blanks. */
  lemma ClassifyEnd(line: string)
    ensures Classify(line) == End <==> Lower(Strip(line)) == "end"
  {
  }

  /** A line is a query exactly when, stripped and lower-cased, it starts with
      `query `; the text is the stripped remainder after six characters, in
      the line's own case, and is never blank. */
  lemma ClassifyQuery(line: string)
    ensures Classify(line).Query? <==> HasPrefix(Lower(Strip(line)), "query ")
    ensures Classify(line).Query? ==>
              Classify(line).text == Strip(Strip(line)[6..]) &&
              Classify(line).text != [] && Stripped(Classify(line).text)
  {
    var s := Strip(line);
    if HasPrefix(Lower(s), "query ") {
      assert Lower(s) != "end" by { assert Lower(s)[0] == 'q'; }
      RemainderNotBlank(s, "query ");
    }
  }

  /** `query` without a text, with or without blanks after it, is an
      invalid command rather than an empty query. */
  lemma BareQueryInvalid(line: string)
    requires Lower(Strip(line)) == "query"
    ensures Classify(line) == Invalid
  {
    assert Lower(Strip(line))[0] == 'q';
  }

  /** A line is a lookup exactly when, stripped and lower-cased, it starts with
      `see `; the id is the stripped remainder after four characters, in the
      line's own case, and is never blank. */
  lemma ClassifySee(line: string)
    ensures Classify(line).See? <==> HasPrefix(Lower(Strip(line)), "see ")
    ensures Classify(line).See? ==>
              Classify(line).id == Strip(Strip(line)[4..]) &&
              Classify(line).id != [] && Stripped(Classify(line).id)
  {
    var s := Strip(line);
    if HasPrefix(Lower(s), "see ") {
      assert Lower(s) != "end" by { assert Lower(s)[0] == 's'; }
      assert !HasPrefix(Lower(s), "query ") by { assert Lower(s)[0] == 's'; }
      RemainderNotBlank(s, "see ");
    }
  }

  /** Everything that is neither `end` nor starts with `query ` or `see ` is
      an invalid command. */
  lemma ClassifyInvalid(line: string)
    ensures Classify(line) == Invalid <==>
              var low := Lower(Strip(line));
              low != "end" && !HasPrefix(low, "query ") && !HasPrefix(low, "see ")
  {
  }

  /** Blanks around a line never change how it is classified. */
  lemma ClassifyIgnoresPadding(w1: string, line: string, w2: string)
    requires AllSpace(w1) && AllSpace(w2)
    ensures Classify(w1 + line + w2) == Classify(line)
  {
    StripAbsorbs(w1, line, w2);
  }

  /** `  End ` ends the session. */
  lemma ExampleEnd()
    ensures Classify("  End ") == End
  {
    StripUnique("  ", "End", " ");
    assert "  " + "End" + " " == "  End ";
    assert Lower("End") == "end";
  }

  /** `query` with nothing after it is an invalid command. */
  lemma ExampleBareQuery()
    ensures Classify("query   ") == Invalid
  {
    StripUnique("", "query", "   ");
    assert "" + "query" + "   " == "query   ";
    assert Lower("query") == "query";
    BareQueryInvalid("query   ");
  }

  /** `banana` is an invalid command. */
  lemma ExampleBanana()
    ensures Classify("banana") == Invalid
  {
    assert Strip("banana") == "banana" by {
      StripUnique("", "banana", "");
      assert "" + "banana" + "" == "banana";
    }
    var low := Lower("banana");
    assert low[0] == 'b' && |low| == 6;
    assert low != "end" && !HasPrefix(low, "query ") && !HasPrefix(low, "see ");
    ClassifyInvalid("banana");
  }

  /** The query text keeps its case and loses its surrounding blanks. */
  lemma ExampleQuery()
    ensures Classify(" query  Pasta ") == Query("Pasta")
  {
    var line, s := " query  Pasta ", "query  Pasta";
    ExampleQueryStrip(line, s);
    ExampleQueryText(s);
    ExampleQueryKeyword(s);
    ClassifyQuery(line);
  }

  lemma ExampleQueryStrip(line: string, s: string)
    requires line == " query  Pasta " && s == "query  Pasta"
    ensures Strip(line) == s
  {
    StripUnique(" ", s, " ");
    assert " " + s + " " == line;
  }

  lemma ExampleQueryText(s: string)
    requires s == "query  Pasta"
    ensures |s| >= 6 && Strip(s[6..]) == "Pasta"
  {
    StripUnique(" ", "Pasta", "");
    assert s[6..] == " " + "Pasta" + "";
  }

  lemma ExampleQueryKeyword(s: string)
    requires s == "query  Pasta"
    ensures HasPrefix(Lower(s), "query ")
  {
    var low := Lower(s);
    assert low[0] == 'q' && low[1] == 'u' && low[2] == 'e' && low[3] == 'r' && low[4] == 'y' && low[5] == ' ';
    assert low[..6] == "query ";
  }

  /** A command with its argument lower-cased. */
  function LowerCommand(c: Command): Command {
    match c
    case Query(t) => Query(Lower(t))
    case See(id) => See(Lower(id))
    case _ => c
  }

  lemma LowerSlice(s: string, k: nat)
    requires k <= |s|
    ensures Lower(s[k..]) == Lower(s)[k..]
  {
  }

  /** Keywords are recognised case-insensitively: two lines that agree up to
      the case of ASCII letters are the same command, with arguments that
      agree up to case. */
  lemma ClassifyIgnoresCase(a: string, b: string)
    requires Lower(a) == Lower(b)
    ensures LowerCommand(Classify(a)) == LowerCommand(Classify(b))
  {
    LowerStripCommute(a);
    LowerStripCommute(b);
    ClassifyStrippedIgnoresCase(Strip(a), Strip(b));
  }

  lemma ClassifyStrippedIgnoresCase(sa: string, sb: string)
    requires Stripped(sa) && Stripped(sb) && Lower(sa) == Lower(sb)
    ensures LowerCommand(ClassifyStripped(sa)) == LowerCommand(ClassifyStripped(sb))
  {
    var low := Lower(sa);
    if low == "end" {
    } else if HasPrefix(low, "query ") {
      ArgumentIgnoresCase(sa, sb, 6);
    } else if HasPrefix(low, "see ") {
      ArgumentIgnoresCase(sa, sb, 4);
    }
  }

  /** The stripped remainders of two lines that agree up to case agree up to
      case. */
  lemma ArgumentIgnoresCase(sa: string, sb: string, k: nat)
    requires Lower(sa) == Lower(sb) && k <= |sa|
    ensures Lower(Strip(sa[k..])) == Lower(Strip(sb[k..]))
  {
    LowerSlice(sa, k);
    LowerSlice(sb, k);
    LowerStripCommute(sa[k..]);
    LowerStripCommute(sb[k..]);
  }

  // ---------------------------------------------------------------------------
  // Replies

  /** One printed result line: id, title and score. */
  datatype Hit = Hit(id: string, title: string, score: real)

  /** An exception that escapes the result printing and ends the program. */
  datatype Failure =
    | IndexError(index: nat)   // `doc_ids[idx]` past the end of `doc_ids`
    | KeyError(key: string)    // `corpus[doc_id]` for an id the corpus lacks

  /** What the REPL prints for one line. */
  datatype Reply =
    | Farewell
    | Ranked(query: string, ranking: seq<nat>, hits: seq<Hit>)
    | RankAborted(query: string, ranking: seq<nat>, hits: seq<Hit>, failure: Failure)
    | ShowDoc(id: string, doc: Doc)
    | NotFound(id: string)
    | EmptyQueryWarning
    | InvalidCommand

  /** Replies after which the loop does not read another line. */
  predicate Final(r: Reply) {
    r.Farewell? || r.RankAborted?
  }

  // ---------------------------------------------------------------------------
  // `see`: id resolution and lookup

  /** The bare id gets `.txt` appended when that form is a key, even when the
      bare id is a key too. */
  function ResolveId(corpus: map<string, Doc>, id: string): (r: string)
    ensures r == id || (r == id + TxtSuffix && r in corpus)
  {
    if !HasSuffix(id, TxtSuffix) && id + TxtSuffix in corpus then id + TxtSuffix else id
  }

  /** The reply to `see id`: the document under the resolved id, or a
      not-found report. A lookup succeeds exactly when the id, or its
      suffixed form for an id without `.txt`, is a key. */
  function SeeDocument(corpus: map<string, Doc>, id: string): (r: Reply)
    ensures r.ShowDoc? || r.NotFound?
    ensures r.ShowDoc? <==> id in corpus || (!HasSuffix(id, TxtSuffix) && id + TxtSuffix in corpus)
    ensures r.ShowDoc? ==> r.id in corpus && r.doc == corpus[r.id]
  {
    var rid := ResolveId(corpus, id);
    if rid in corpus then ShowDoc(rid, corpus[rid]) else NotFound(rid)
  }

  /** The suffixed form wins whenever it is a key and the id lacks `.txt`. */
  lemma SeePrefersSuffix(corpus: map<string, Doc>, id: string)
    requires !HasSuffix(id, TxtSuffix) && id + TxtSuffix in corpus
    ensures SeeDocument(corpus, id) == ShowDoc(id + TxtSuffix, corpus[id + TxtSuffix])
  {
  }

  /** Otherwise the id is looked up as given, and reported as given when it
      is missing. */
  lemma SeeExact(corpus: map<string, Doc>, id: string)
    requires HasSuffix(id, TxtSuffix) || id + TxtSuffix !in corpus
    ensures SeeDocument(corpus, id) == if id in corpus then ShowDoc(id, corpus[id]) else NotFound(id)
  {
  }

  /** `see x` and `see x.txt` show the same document when `x.txt` is a key. */
  lemma SeeSuffixedAgrees(corpus: map<string, Doc>, id: string)
    requires !HasSuffix(id, TxtSuffix) && id + TxtSuffix in corpus
    ensures SeeDocument(corpus, id) == SeeDocument(corpus, id + TxtSuffix)
  {
    AppendHasSuffix(id, TxtSuffix);
  }

  /** When only the bare id is a key, `see x` finds it and `see x.txt` does
      not: the two forms do not always agree. */
  lemma SeeBareOnlyDisagrees()
    ensures var corpus := map["7" := Doc("t", "x")];
            SeeDocument(corpus, "7") == ShowDoc("7", Doc("t", "x")) &&
            SeeDocument(corpus, "7.txt") == NotFound("7.txt")
  {
    var corpus := map["7" := Doc("t", "x")];
    assert "7" + TxtSuffix == "7.txt";
    assert !HasSuffix("7", TxtSuffix);
    assert HasSuffix("7.txt", TxtSuffix) by { AppendHasSuffix("7", TxtSuffix); }
  }

  /** A document whose id lacks `.txt` while its suffixed twin is also a key
      can never be shown by `see`: every lookup that could reach it resolves
      to the twin. */
  lemma ShadowedUnreachable(corpus: map<string, Doc>, id: string, x: string)
    requires !HasSuffix(id, TxtSuffix) && id + TxtSuffix in corpus
    ensures ResolveId(corpus, x) != id
  {
    if ResolveId(corpus, x) == x + TxtSuffix {
      AppendHasSuffix(x, TxtSuffix);
    }
  }

  // ---------------------------------------------------------------------------
  // Top-k ranking

  predicate InRange(s: seq<real>, xs: seq<nat>) {
    forall a :: 0 <= a < |xs| ==> xs[a] < |s|
  }

  predicate Distinct(xs: seq<nat>) {
    forall a, b :: 0 <= a < b < |xs| ==> xs[a] != xs[b]
  }

  /** Indices of `s` listed by non-increasing score. */
  predicate Descending(s: seq<real>, xs: seq<nat>) {
    InRange(s, xs) && forall a, b :: 0 <= a < b < |xs| ==> s[xs[a]] >= s[xs[b]]
  }

  /** Every index left out scores no higher than any index listed. */
  predicate Dominates(s: seq<real>, xs: seq<nat>)
    requires InRange(s, xs)
  {
    forall j, a :: 0 <= j < |s| && j !in xs && 0 <= a < |xs| ==> s[j] <= s[xs[a]]
  }

  /** What `s.argsort()[::-1][:k]` promises: `min(k, |s|)` distinct indices of
      `s` by non-increasing score, none beaten by an index left out. The
      order among equal scores is left open. */
  predicate IsTopK(s: seq<real>, k: nat, xs: seq<nat>) {
    |xs| == Min(k, |s|) && Descending(s, xs) && Distinct(xs) && Dominates(s, xs)
  }

  /** Places index `i` into a descending list of indices. */
  function Insert(s: seq<real>, i: nat, xs: seq<nat>): (r: seq<nat>)
    requires i < |s| && Descending(s, xs)
    ensures |r| == |xs| + 1
    ensures forall x :: x in r <==> x == i || x in xs
    ensures Descending(s, r)
    decreases xs
  {
    if xs == [] || s[i] > s[xs[0]] then [i] + xs
    else
      var rest := Insert(s, i, xs[1..]);
      assert forall b :: 0 <= b < |rest| ==> s[xs[0]] >= s[rest[b]] by {
        forall b | 0 <= b < |rest| ensures s[xs[0]] >= s[rest[b]] {
          assert rest[b] in rest;
        }
      }
      [xs[0]] + rest
  }

  /** Inserting a new index into a list without repeats gives a list
      without repeats. */
  lemma {:induction false} InsertDistinct(s: seq<real>, i: nat, xs: seq<nat>)
    requires i < |s| && Descending(s, xs) && Distinct(xs) && i !in xs
    ensures Distinct(Insert(s, i, xs))
    decreases xs
  {
    if !(xs == [] || s[i] > s[xs[0]]) {
      var tail := xs[1..];
      assert Distinct(tail) by {
        forall a, b | 0 <= a < b < |tail| ensures tail[a] != tail[b] {
          assert tail[a] == xs[a + 1] && tail[b] == xs[b + 1];
        }
      }
      assert xs[0] !in tail by {
        forall c | 0 <= c < |tail| ensures tail[c] != xs[0] {
          assert tail[c] == xs[c + 1];
        }
      }
      InsertDistinct(s, i, tail);
      var rest := Insert(s, i, tail);
      var r := [xs[0]] + rest;
      forall a, b | 0 <= a < b < |r| ensures r[a] != r[b] {
        assert r[b] == rest[b - 1] && rest[b - 1] in rest;
        if a > 0 { assert r[a] == rest[a - 1]; }
      }
    }
  }

  /** The indices `0 .. n-1` of `s`, ordered by non-increasing score. */
  function Argsort(s: seq<real>, n: nat): (r: seq<nat>)
    requires n <= |s|
    ensures |r| == n && Descending(s, r) && Distinct(r)
    ensures forall x: nat :: x in r <==> x < n
  {
    if n == 0 then []
    else
      var prev := Argsort(s, n - 1);
      var r := Insert(s, n - 1, prev);
      InsertDistinct(s, n - 1, prev);
      assert forall x: nat :: x in r <==> x < n by {
        forall x: nat ensures x in r <==> x < n {
          assert x in r <==> x == n - 1 || x in prev;
        }
      }
      r
  }

  /** `scores.argsort()[::-1][:5]`: one order of the indices by descending
      score, cut to the first five. Which of several equal scores comes first
      is a property of this definition only; nothing below relies on it. */
  function TopIndices(s: seq<real>): (r: seq<nat>)
    ensures IsTopK(s, TopK, r)
  {
    var all := Argsort(s, |s|);
    var r := all[..Min(TopK, |s|)];
    assert Dominates(s, r) by {
      forall j, a | 0 <= j < |s| && j !in r && 0 <= a < |r| ensures s[j] <= s[r[a]] {
        assert j in all;
        var p :| 0 <= p < |all| && all[p] == j;
        assert all[a] == r[a];
      }
    }
    r
  }

  /** With at most five scores, every document is ranked. */
  lemma TopIndicesFewer(s: seq<real>)
    requires |s| <= TopK
    ensures forall j :: 0 <= j < |s| ==> j in TopIndices(s)
  {
    var all := Argsort(s, |s|);
    assert TopIndices(s) == all;
  }

  /** The first ranked document has the highest score of all. */
  lemma TopKHeadIsMax(s: seq<real>, k: nat, xs: seq<nat>)
    requires IsTopK(s, k, xs) && k > 0 && |s| > 0
    ensures forall j :: 0 <= j < |s| ==> s[j] <= s[xs[0]]
  {
    forall j | 0 <= j < |s| ensures s[j] <= s[xs[0]] {
      if j in xs {
        var a :| 0 <= a < |xs| && xs[a] == j;
      }
    }
  }

  /** The ties are genuinely open: with two equal scores, either index is a
      valid single best result. */
  lemma TopKTiesOpen()
    ensures IsTopK([1.0, 1.0], 1, [0]) && IsTopK([1.0, 1.0], 1, [1])
  {
    assert 1 !in [0] && 0 !in [1];
  }

  /** The distinct values among the first `n` entries of `xs`. */
  function Elems(xs: seq<nat>, n: nat): set<nat>
    requires n <= |xs|
  {
    set b | 0 <= b < n :: xs[b]
  }

  lemma {:induction false} ElemsCard(xs: seq<nat>, n: nat)
    requires n <= |xs|
    ensures |Elems(xs, n)| <= n
    ensures Distinct(xs) ==> |Elems(xs, n)| == n
  {
    if n > 0 {
      ElemsCard(xs, n - 1);
      assert Elems(xs, n) == Elems(xs, n - 1) + {xs[n - 1]};
      if Distinct(xs) {
        assert xs[n - 1] !in Elems(xs, n - 1);
      }
    }
  }

  lemma {:induction false} SubsetCard(a: set<nat>, b: set<nat>)
    requires a <= b
    ensures |a| <= |b|
    decreases a
  {
    if a != {} {
      var x :| x in a;
      SubsetCard(a - {x}, b - {x});
    }
  }

  /** A top-k selection cannot score lower at some rank than another one:
      the first `a + 1` entries of `xs` all score above `ys[a]`, so they must
      all be among the first `a` entries of `ys`, which is too few. */
  lemma TopKNotBelow(s: seq<real>, k: nat, xs: seq<nat>, ys: seq<nat>, a: nat)
    requires IsTopK(s, k, xs) && IsTopK(s, k, ys) && a < |xs|
    ensures s[xs[a]] <= s[ys[a]]
  {
    if s[xs[a]] > s[ys[a]] {
      forall x | x in Elems(xs, a + 1) ensures x in Elems(ys, a) {
        var c :| 0 <= c < a + 1 && xs[c] == x;
        AboveIsEarlier(s, ys, x, a);
      }
      SubsetCard(Elems(xs, a + 1), Elems(ys, a));
      ElemsCard(xs, a + 1);
      ElemsCard(ys, a);
      assert false;
    }
  }

  /** In a top-k selection, an index scoring strictly above rank `a` is
      listed before rank `a`. */
  lemma AboveIsEarlier(s: seq<real>, ys: seq<nat>, x: nat, a: nat)
    requires Descending(s, ys) && Dominates(s, ys) && a < |ys| && x < |s| && s[x] > s[ys[a]]
    ensures x in Elems(ys, a)
  {
    assert x in ys;
    var p :| 0 <= p < |ys| && ys[p] == x;
    assert p < a;
  }

  /** Any two selections that keep the top-k promise print the same scores in
      the same order; they can differ only in which of several equally
      scored documents they show. */
  lemma TopKScoresDetermined(s: seq<real>, k: nat, xs: seq<nat>, ys: seq<nat>)
    requires IsTopK(s, k, xs) && IsTopK(s, k, ys)
    ensures forall a :: 0 <= a < |xs| ==> s[xs[a]] == s[ys[a]]
  {
    forall a | 0 <= a < |xs| ensures s[xs[a]] == s[ys[a]] {
      TopKNotBelow(s, k, xs, ys, a);
      TopKNotBelow(s, k, ys, xs, a);
    }
  }

  /** The printed result lines for the ranked indices, in rank order; the
      first index whose id is out of range or missing from the corpus raises
      and ends the listing. */
  datatype Listing =
    | Listed(hits: seq<Hit>)
    | Interrupted(hits: seq<Hit>, failure: Failure)

  /** Index `i` can be printed: it names an id and the id is a corpus key. */
  predicate Printable(corpus: map<string, Doc>, docIds: seq<string>, i: nat) {
    i < |docIds| && docIds[i] in corpus
  }

  /** The result line printed for index `i`. */
  function HitAt(corpus: map<string, Doc>, docIds: seq<string>, scores: seq<real>, i: nat): Hit
    requires Printable(corpus, docIds, i) && i < |scores|
  {
    Hit(docIds[i], corpus[docIds[i]].title, scores[i])
  }

  /** The exception that printing index `i` raises. */
  function FailureAt(docIds: seq<string>, i: nat): Failure {
    if i < |docIds| then KeyError(docIds[i]) else IndexError(i)
  }

  function ListHits(corpus: map<string, Doc>, docIds: seq<string>, scores: seq<real>, idx: seq<nat>): (r: Listing)
    requires InRange(scores, idx)
    ensures r.Listed? <==> forall a :: 0 <= a < |idx| ==> Printable(corpus, docIds, idx[a])
    ensures r.Listed? ==> |r.hits| == |idx|
    ensures r.Interrupted? ==>
              |r.hits| < |idx| && !Printable(corpus, docIds, idx[|r.hits|]) &&
              r.failure == FailureAt(docIds, idx[|r.hits|])
    ensures forall a :: 0 <= a < |r.hits| ==>
              a < |idx| && Printable(corpus, docIds, idx[a]) &&
              r.hits[a] == HitAt(corpus, docIds, scores, idx[a])
  {
    if idx == [] then Listed([])
    else
      var i := idx[0];
      if !Printable(corpus, docIds, i) then Interrupted([], FailureAt(docIds, i))
      else
        var h := HitAt(corpus, docIds, scores, i);
        match ListHits(corpus, docIds, scores, idx[1..])
        case Listed(hits) => Listed([h] + hits)
        case Interrupted(hits, f) => Interrupted([h] + hits, f)
  }

  /** A query: print the results for `ranking`, the top five documents by
      score. */
  function RunQuery(corpus: map<string, Doc>, docIds: seq<string>, scores: seq<real>, ranking: seq<nat>, text: string): (r: Reply)
    requires IsTopK(scores, TopK, ranking)
    ensures r.Ranked? || r.RankAborted?
    ensures r.query == text && r.ranking == ranking
    ensures r.Ranked? <==> forall a :: 0 <= a < |ranking| ==> Printable(corpus, docIds, ranking[a])
    ensures r.Ranked? ==> |r.hits| == |ranking|
    ensures r.RankAborted? ==>
              |r.hits| < |ranking| && !Printable(corpus, docIds, ranking[|r.hits|]) &&
              r.failure == FailureAt(docIds, ranking[|r.hits|])
    ensures forall a :: 0 <= a < |r.hits| ==>
              a < |ranking| && Printable(corpus, docIds, ranking[a]) &&
              r.hits[a] == HitAt(corpus, docIds, scores, ranking[a])
  {
    match ListHits(corpus, docIds, scores, ranking)
    case Listed(hits) => Ranked(text, ranking, hits)
    case Interrupted(hits, f) => RankAborted(text, ranking, hits, f)
  }

  /** When every score is the same, any `min(k, N)` distinct indices in
      range are a valid top-k selection. */
  lemma AllTiedTopK(s: seq<real>, k: nat, xs: seq<nat>)
    requires forall i :: 0 <= i < |s| ==> s[i] == s[0]
    requires |xs| == Min(k, |s|) && InRange(s, xs) && Distinct(xs)
    ensures IsTopK(s, k, xs)
  {
    assert forall a, b :: 0 <= a < b < |xs| ==> s[xs[a]] == s[0] == s[xs[b]];
  }

  /** With six equal scores, two valid top-five rankings lead to different
      outcomes: when the first id is missing from the corpus, one of them
      crashes and the other lists five results. Which one numpy's argsort
      yields is not specified. */
  lemma TiesDecideCrash(corpus: map<string, Doc>, docIds: seq<string>, scores: seq<real>)
    requires scores == [1.0, 1.0, 1.0, 1.0, 1.0, 1.0] && docIds == ["a", "b", "c", "d", "e", "f"]
    requires "a" !in corpus && forall id :: id in docIds[1..] ==> id in corpus
    ensures IsTopK(scores, TopK, [0, 1, 2, 3, 4]) && IsTopK(scores, TopK, [5, 4, 3, 2, 1])
    ensures RunQuery(corpus, docIds, scores, [0, 1, 2, 3, 4], "x").RankAborted?
    ensures RunQuery(corpus, docIds, scores, [5, 4, 3, 2, 1], "x").Ranked?
  {
    var low, high: seq<nat> := [0, 1, 2, 3, 4], [5, 4, 3, 2, 1];
    AllTiedTopK(scores, TopK, low);
    AllTiedTopK(scores, TopK, high);
    assert !Printable(corpus, docIds, low[0]);
    forall a | 0 <= a < |high| ensures Printable(corpus, docIds, high[a]) {
      assert docIds[high[a]] in docIds[1..];
    }
  }

  // ---------------------------------------------------------------------------
  // One line and the loop

  /** A ranking function that keeps the top-k promise for every score
      vector, as `argsort()[::-1][:5]` does. */
  ghost predicate IsRanker(rank: seq<real> -> seq<nat>) {
    forall s :: IsTopK(s, TopK, rank(s))
  }

  /** The concrete argsort is one such ranking function. */
  lemma TopIndicesIsRanker()
    ensures IsRanker(TopIndices)
  {
  }

  /** The reply to one console line. `model` stands for the embedding model
      and the cosine similarity: one score per row of the embedding table.
      `rank` stands for `argsort()[::-1][:5]`. Only `end` says goodbye, only
      a query can abort, the invalid-command warning answers exactly the
      invalid lines, and the empty-query warning is never printed. A query
      is ranked by the scores of its own text; a lookup gets the reply of
      `see` for its id. */
  function Respond(corpus: map<string, Doc>, docIds: seq<string>, model: string -> seq<real>,
                   rank: seq<real> -> seq<nat>, line: string): (r: Reply)
    requires IsRanker(rank)
    ensures r == Farewell <==> Classify(line) == End
    ensures r.RankAborted? ==> Classify(line).Query?
    ensures r == InvalidCommand <==> Classify(line) == Invalid
    ensures r != EmptyQueryWarning
    ensures Classify(line).Query? ==>
              (r.Ranked? || r.RankAborted?) && r.query == Classify(line).text &&
              r.ranking == rank(model(r.query)) && IsTopK(model(r.query), TopK, r.ranking)
    ensures Classify(line).See? ==> r == SeeDocument(corpus, Classify(line).id)
  {
    match Classify(line)
    case End => Farewell
    case Query(text) =>
      var scores := model(text);
      RunQuery(corpus, docIds, scores, rank(scores), text)
    case EmptyQuery => EmptyQueryWarning
    case See(id) => SeeDocument(corpus, id)
    case Invalid => InvalidCommand
  }

  /** The embedding model is consulted for queries only. */
  lemma ScoresOnlyForQueries(corpus: map<string, Doc>, docIds: seq<string>, m1: string -> seq<real>, m2: string -> seq<real>,
                             rank: seq<real> -> seq<nat>, line: string)
    requires IsRanker(rank) && !Classify(line).Query?
    ensures Respond(corpus, docIds, m1, rank, line) == Respond(corpus, docIds, m2, rank, line)
  {
  }

  /** How the loop stopped. */
  datatype Stop =
    | Ended            // `end` was read
    | Crashed          // the result printing raised
    | InputExhausted   // `input()` hit the end of the console input

  /** What a run of the loop over `lines` prints and how it stops, when
      `respond` is what one pass through the loop body prints for a line:
      the replies answer a prefix of the lines one by one, only the last reply
      may end the loop, and the stop reason matches that last reply. */
  predicate Session(respond: string -> Reply, lines: seq<string>, replies: seq<Reply>, stop: Stop) {
    && |replies| <= |lines|
    && (forall j :: 0 <= j < |replies| ==> replies[j] == respond(lines[j]))
    && (forall j :: 0 <= j < |replies| - 1 ==> !Final(replies[j]))
    && (stop == Ended <==> |replies| > 0 && replies[|replies| - 1] == Farewell)
    && (stop == Crashed <==> |replies| > 0 && replies[|replies| - 1].RankAborted?)
    && (stop == InputExhausted <==>
          |replies| == |lines| && (replies == [] || !Final(replies[|replies| - 1])))
  }

  /** The `while True` loop: reads one line after the other, prints the reply
      to each, and stops after `end`, after an exception, or when the input
      ends (`input()` raises at end of input). */
  method Loop(respond: string -> Reply, lines: seq<string>) returns (replies: seq<Reply>, stop: Stop)
    ensures Session(respond, lines, replies, stop)
  {
    replies := [];
    var i := 0;
    while i < |lines|
      invariant 0 <= i <= |lines| && |replies| == i
      invariant forall j :: 0 <= j < i ==> replies[j] == respond(lines[j]) && !Final(replies[j])
    {
      var reply := respond(lines[i]);
      replies := replies + [reply];
      if Final(reply) {
        stop := if reply.Farewell? then Ended else Crashed;
        return;
      }
      i := i + 1;
    }
    stop := InputExhausted;
  }

  /** The REPL of the program: the loop with the corpus, the id table, the
      embedding model and the ranking fixed. Every line is answered on its own: what one
      command prints does not depend on the commands before it. */
  method Repl(corpus: map<string, Doc>, docIds: seq<string>, model: string -> seq<real>,
              rank: seq<real> -> seq<nat>, lines: seq<string>)
    returns (replies: seq<Reply>, stop: Stop)
    requires IsRanker(rank)
    ensures Session(line => Respond(corpus, docIds, model, rank, line), lines, replies, stop)
  {
    replies, stop := Loop(line => Respond(corpus, docIds, model, rank, line), lines);
  }
}
