/** The prompt assembler of the question handler (`AskSLMButton_Click`,
    src/MainWindow.xaml.cs:232-254): the search results are ordered by page
    and grouped by page, each group is rendered as a page block between the
    system turn and the user turn, and the distinct pages used are reported
    beside the answer. */
module Prompt {
  import opened Text
  import opened Chunker

  // ---------------------------------------------------------------------
  // Stable ordering by page (`OrderBy(c => c.Page)`, line 238)
  // ---------------------------------------------------------------------

  predicate SortedByPage(xs: seq<TextChunk>) {
    forall i, j :: 0 <= i < j < |xs| ==> xs[i].page <= xs[j].page
  }

  /** The chunks of `xs` that lie on page `p`, in their order in `xs`. */
  function OnPage(xs: seq<TextChunk>, p: int32): seq<TextChunk> {
    if xs == [] then []
    else (if xs[0].page == p then [xs[0]] else []) + OnPage(xs[1..], p)
  }

  lemma {:induction false} OnPageAppend(a: seq<TextChunk>, b: seq<TextChunk>, p: int32)
    ensures OnPage(a + b, p) == OnPage(a, p) + OnPage(b, p)
    decreases |a|
  {
    if a == [] {
      assert a + b == b;
    } else {
      var head := if a[0].page == p then [a[0]] else [];
      assert (a + b)[0] == a[0] && (a + b)[1..] == a[1..] + b;
      assert OnPage(a + b, p) == head + OnPage(a[1..] + b, p);
      OnPageAppend(a[1..], b, p);
      assert OnPage(a, p) == head + OnPage(a[1..], p);
    }
  }

  /** Places `x` in front of the first chunk whose page is not lower than its
      own: `x` goes after every chunk of a lower page and before every chunk
      of its own page. */
  function InsertByPage(x: TextChunk, ys: seq<TextChunk>): (r: seq<TextChunk>)
    ensures |r| == |ys| + 1
  {
    if ys == [] || x.page <= ys[0].page then [x] + ys
    else [ys[0]] + InsertByPage(x, ys[1..])
  }

  /** `OrderBy(c => c.Page)`: a stable sort by page number, as an insertion
      sort that takes the chunks from the back. */
  function SortByPage(xs: seq<TextChunk>): (r: seq<TextChunk>)
    ensures |r| == |xs|
  {
    if xs == [] then [] else InsertByPage(xs[0], SortByPage(xs[1..]))
  }

  lemma {:induction false} InsertByPageKeepsChunks(x: TextChunk, ys: seq<TextChunk>)
    ensures multiset(InsertByPage(x, ys)) == multiset{x} + multiset(ys)
    decreases |ys|
  {
    if ys != [] && ys[0].page < x.page {
      InsertByPageKeepsChunks(x, ys[1..]);
      assert ys == [ys[0]] + ys[1..];
    }
  }

  lemma {:induction false} InsertByPageKeepsSorted(x: TextChunk, ys: seq<TextChunk>)
    requires SortedByPage(ys)
    ensures SortedByPage(InsertByPage(x, ys))
    decreases |ys|
  {
    if ys != [] && ys[0].page < x.page {
      var rest := InsertByPage(x, ys[1..]);
      InsertByPageKeepsSorted(x, ys[1..]);
      InsertByPageKeepsChunks(x, ys[1..]);
      var r := [ys[0]] + rest;
      forall i, j | 0 <= i < j < |r| ensures r[i].page <= r[j].page {
        if i == 0 {
          assert r[j] in multiset(rest);
          if r[j] != x {
            assert r[j] in ys[1..];
          }
        }
      }
    }
  }

  lemma {:induction false} InsertByPageKeepsPageOrder(x: TextChunk, ys: seq<TextChunk>, p: int32)
    ensures OnPage(InsertByPage(x, ys), p) == OnPage([x] + ys, p)
    decreases |ys|
  {
    if ys != [] && ys[0].page < x.page {
      var rest := InsertByPage(x, ys[1..]);
      InsertByPageKeepsPageOrder(x, ys[1..], p);
      assert ([x] + ys)[1..] == ys;
      assert ([x] + ys[1..])[1..] == ys[1..];
    }
  }

  /** The ordering is sorted, a permutation of the results, and stable: on
      every page the chunks keep their search order. */
  lemma {:induction false} SortByPageIsStableSort(xs: seq<TextChunk>)
    ensures SortedByPage(SortByPage(xs))
    ensures multiset(SortByPage(xs)) == multiset(xs)
    ensures forall p :: OnPage(SortByPage(xs), p) == OnPage(xs, p)
    decreases |xs|
  {
    if xs != [] {
      SortByPageIsStableSort(xs[1..]);
      InsertByPageKeepsChunks(xs[0], SortByPage(xs[1..]));
      InsertByPageKeepsSorted(xs[0], SortByPage(xs[1..]));
      assert xs == [xs[0]] + xs[1..];
      forall p ensures OnPage(SortByPage(xs), p) == OnPage(xs, p) {
        InsertByPageKeepsPageOrder(xs[0], SortByPage(xs[1..]), p);
        OnPageAppend([xs[0]], SortByPage(xs[1..]), p);
        OnPageAppend([xs[0]], xs[1..], p);
      }
    }
  }

  // ---------------------------------------------------------------------
  // Distinct (`Distinct()`, line 240) and grouping (`GroupBy`, line 244)
  // ---------------------------------------------------------------------

  /** `Distinct()`: every element at its first occurrence, in order. */
  function Distinct<T(==)>(xs: seq<T>): (r: seq<T>)
    ensures |r| <= |xs|
  {
    if xs == [] then []
    else
      var init := xs[..|xs| - 1];
      if xs[|xs| - 1] in init then Distinct(init) else Distinct(init) + [xs[|xs| - 1]]
  }

  predicate NoDuplicates<T(==)>(xs: seq<T>) {
    forall i, j :: 0 <= i < j < |xs| ==> xs[i] != xs[j]
  }

  /** `Distinct` keeps exactly the elements of its input, once each. */
  lemma {:induction false} DistinctProperties<T>(xs: seq<T>)
    ensures NoDuplicates(Distinct(xs))
    ensures forall x :: x in Distinct(xs) <==> x in xs
    decreases |xs|
  {
    if xs != [] {
      var init := xs[..|xs| - 1];
      DistinctProperties(init);
      assert xs == init + [xs[|xs| - 1]];
    }
  }

  predicate StrictlyAscending(ps: seq<int32>) {
    forall i, j :: 0 <= i < j < |ps| ==> ps[i] < ps[j]
  }

  /** Distinct values of an ascending list are strictly ascending. */
  lemma {:induction false} DistinctOfAscending(ps: seq<int32>)
    requires forall i, j :: 0 <= i < j < |ps| ==> ps[i] <= ps[j]
    ensures StrictlyAscending(Distinct(ps))
    decreases |ps|
  {
    if ps != [] {
      var init := ps[..|ps| - 1];
      var last := ps[|ps| - 1];
      DistinctOfAscending(init);
      DistinctProperties(init);
      if last !in init {
        var d := Distinct(init);
        forall i | 0 <= i < |d| ensures d[i] < last {
          assert d[i] in init;
        }
      }
    }
  }

  /** The pages of the chunks, in order. */
  function PagesOf(xs: seq<TextChunk>): (ps: seq<int32>)
    ensures |ps| == |xs|
  {
    seq(|xs|, i requires 0 <= i < |xs| => xs[i].page)
  }

  /** One group of `GroupBy(c => c.Page)`, reduced to what the prompt uses:
      the page and the texts of its chunks. */
  datatype Group = Group(key: int32, texts: seq<string>)

  /** `GroupBy(c => c.Page)`: one group per distinct page, in order of first
      appearance, each holding the texts of that page's chunks in order. */
  function GroupByPage(xs: seq<TextChunk>): seq<Group> {
    var keys := Distinct(PagesOf(xs));
    seq(|keys|, i requires 0 <= i < |keys| => Group(keys[i], Texts(OnPage(xs, keys[i]))))
  }

  lemma {:induction false} OnPageOfPresentPage(xs: seq<TextChunk>, p: int32)
    requires p in PagesOf(xs)
    ensures OnPage(xs, p) != []
    decreases |xs|
  {
    if xs[0].page != p {
      var k :| 0 <= k < |xs| && PagesOf(xs)[k] == p;
      assert PagesOf(xs[1..])[k - 1] == p;
      OnPageOfPresentPage(xs[1..], p);
    }
  }

  lemma {:induction false} TextsLength(xs: seq<TextChunk>)
    ensures |Texts(xs)| == |xs|
    decreases |xs|
  {
    if xs != [] {
      TextsLength(xs[1..]);
    }
  }

  /** Grouping makes one group per page of `xs`, each page once, holding the
      texts of that page's chunks in order, at least one of them; over
      chunks sorted by page the groups come in strictly ascending page
      order. */
  lemma GroupByPageProperties(xs: seq<TextChunk>)
    ensures var gs := GroupByPage(xs);
      && (forall i, j :: 0 <= i < j < |gs| ==> gs[i].key != gs[j].key)
      && (forall p :: (exists i :: 0 <= i < |gs| && gs[i].key == p) <==> p in PagesOf(xs))
      && (forall i :: 0 <= i < |gs| ==>
            gs[i].texts == Texts(OnPage(xs, gs[i].key)) && gs[i].texts != [])
      && (SortedByPage(xs) ==> forall i, j :: 0 <= i < j < |gs| ==> gs[i].key < gs[j].key)
  {
    var gs := GroupByPage(xs);
    var keys := Distinct(PagesOf(xs));
    DistinctProperties(PagesOf(xs));
    assert |gs| == |keys|;
    forall p ensures (exists i :: 0 <= i < |gs| && gs[i].key == p) <==> p in keys {
      if p in keys {
        var i :| 0 <= i < |keys| && keys[i] == p;
        assert gs[i].key == p;
      }
    }
    forall i | 0 <= i < |gs| ensures gs[i].texts != [] {
      OnPageOfPresentPage(xs, keys[i]);
      TextsLength(OnPage(xs, keys[i]));
    }
    if SortedByPage(xs) {
      DistinctOfAscending(PagesOf(xs));
    }
  }

  /** Ordering by page changes no page's chunks, so no page either. */
  lemma SortKeepsPages(results: seq<TextChunk>)
    ensures forall p :: p in PagesOf(SortByPage(results)) <==> p in PagesOf(results)
  {
    var sorted := SortByPage(results);
    SortByPageIsStableSort(results);
    forall p ensures p in PagesOf(sorted) <==> p in PagesOf(results) {
      if p in PagesOf(sorted) {
        var k :| 0 <= k < |sorted| && sorted[k].page == p;
        assert sorted[k] in multiset(results);
        var m :| 0 <= m < |results| && results[m] == sorted[k];
        assert PagesOf(results)[m] == p;
      }
      if p in PagesOf(results) {
        var k :| 0 <= k < |results| && results[k].page == p;
        assert results[k] in multiset(sorted);
        var m :| 0 <= m < |sorted| && sorted[m] == results[k];
        assert PagesOf(sorted)[m] == p;
      }
    }
  }

  /** The groups the prompt is built from: the results ordered by page, then
      grouped by page. */
  function PromptGroups(results: seq<TextChunk>): seq<Group> {
    GroupByPage(SortByPage(results))
  }

  /** Page blocks come in strictly ascending page order whatever the search
      rank, so every page has exactly one block; a page has a block exactly
      when some result lies on it; and a block holds the texts of that
      page's results in search order, at least one of them. */
  lemma PromptGroupsProperties(results: seq<TextChunk>)
    ensures var gs := PromptGroups(results);
      && (forall i, j :: 0 <= i < j < |gs| ==> gs[i].key < gs[j].key)
      && (forall p :: (exists i :: 0 <= i < |gs| && gs[i].key == p) <==> p in PagesOf(results))
      && (forall i :: 0 <= i < |gs| ==>
            gs[i].texts == Texts(OnPage(results, gs[i].key)) && gs[i].texts != [])
  {
    SortByPageIsStableSort(results);
    SortKeepsPages(results);
    GroupByPageProperties(SortByPage(results));
  }

  // ---------------------------------------------------------------------
  // Rendering (lines 232-235 and 244-254)
  // ---------------------------------------------------------------------

  /** The system turn the question handler opens its prompt with. It is a
      raw string literal, so its line break `eol` is the one the source file
      was saved with, fixed when the program is compiled, and not the
      platform's `Environment.NewLine`. */
  function SystemTurn(eol: string): string {
    "<|system|>" + eol
      + "You are a helpful assistant, and you should answer questions about this information, in a direct and simple way, using only this content:"
  }

  /** The system turn opens with its marker on a line of its own. */
  lemma SystemTurnOpensWithMarker(eol: string)
    ensures StartsWith(SystemTurn(eol), "<|system|>" + eol)
  {
    var head := "<|system|>" + eol;
    assert SystemTurn(eol)[..|head|] == head;
  }

  /** What follows the page blocks: the closing of the system turn, the user
      turn carrying the question and the opening of the assistant turn. An
      interpolated raw string literal: its line breaks `eol` are the source
      file's, like those of `SystemTurn`. */
  function UserTurn(eol: string, question: string): string {
    "<|end|>" + eol + "<|user|>" + eol + question + "<|end|>" + eol + "<|assistant|>"
  }

  /** One page block: a line break, "Page n: " and the page's texts joined
      by line breaks; here the line break `nl` is `Environment.NewLine`. */
  function PageBlock(nl: string, g: Group): string {
    nl + "Page " + IntToString(g.key as int) + ": " + Join(nl, g.texts)
  }

  function PageBlocks(nl: string, gs: seq<Group>): (r: seq<string>)
    ensures |r| == |gs|
  {
    seq(|gs|, i requires 0 <= i < |gs| => PageBlock(nl, gs[i]))
  }

  /** The prompt sent to the model: the `preamble` (the question handler
      passes `SystemTurn(eol)`), the page blocks of the search `results`
      joined by `Environment.NewLine` (`nl`), and the user turn with
      `question`, whose line breaks are the source file's `eol`. */
  function BuildPrompt(preamble: string, nl: string, eol: string, question: string, results: seq<TextChunk>): string {
    preamble + Join(nl, PageBlocks(nl, PromptGroups(results))) + UserTurn(eol, question)
  }

  /** Each page block appears whole in a prompt at its offset after the
      preamble. */
  lemma {:induction false} BlockInPrompt(pre: string, nl: string, blocks: seq<string>, tail: string, i: nat)
    requires i < |blocks|
    ensures OccursAt(pre + Join(nl, blocks) + tail, blocks[i], |pre| + JoinOffset(nl, blocks, i))
  {
    var joined := Join(nl, blocks);
    var k := JoinOffset(nl, blocks, i);
    JoinElementAt(nl, blocks, i);
    assert (joined + tail)[k..k + |blocks[i]|] == joined[k..k + |blocks[i]|];
    OccursAtShift(pre, joined + tail, blocks[i], k);
    assert pre + (joined + tail) == pre + joined + tail;
  }

  /** The separator stands right before every block but the first. */
  lemma SeparatorInPrompt(pre: string, nl: string, blocks: seq<string>, tail: string, i: nat)
    requires 0 < i < |blocks|
    ensures JoinOffset(nl, blocks, i) >= |nl|
    ensures OccursAt(pre + Join(nl, blocks) + tail, nl, |pre| + JoinOffset(nl, blocks, i) - |nl|)
  {
    var joined := Join(nl, blocks);
    var k := JoinOffset(nl, blocks, i);
    JoinSeparatorAt(nl, blocks, i);
    assert (joined + tail)[k - |nl|..k] == joined[k - |nl|..k];
    OccursAtShift(pre, joined + tail, nl, k - |nl|);
    assert pre + (joined + tail) == pre + joined + tail;
  }

  /** The tail starts right after the last block. */
  lemma TailInPrompt(pre: string, nl: string, blocks: seq<string>, tail: string)
    requires blocks != []
    ensures var last := |blocks| - 1;
      OccursAt(pre + Join(nl, blocks) + tail, tail, |pre| + JoinOffset(nl, blocks, last) + |blocks[last]|)
  {
    var joined := Join(nl, blocks);
    JoinLength(nl, blocks);
    assert (pre + joined + tail)[|pre| + |joined|..] == tail;
  }

  /** The prompt opens with the preamble and closes with the user turn;
      with no results there is no page block and the preamble runs straight
      into the user turn. */
  lemma BuildPromptShape(preamble: string, nl: string, eol: string, question: string, results: seq<TextChunk>)
    ensures var prompt := BuildPrompt(preamble, nl, eol, question, results);
      && StartsWith(prompt, preamble)
      && EndsWith(prompt, UserTurn(eol, question))
      && (results == [] ==> prompt == preamble + UserTurn(eol, question))
  {
    var prompt := BuildPrompt(preamble, nl, eol, question, results);
    var tail := UserTurn(eol, question);
    assert prompt[..|preamble|] == preamble;
    assert prompt[|prompt| - |tail|..] == tail;
  }

  /** Page block `i` appears whole in the prompt at its own offset after the
      preamble: the blocks follow the preamble straight away, in the
      ascending page order of the groups. */
  lemma PageBlockInPrompt(preamble: string, nl: string, eol: string, question: string,
                           results: seq<TextChunk>, i: nat)
    requires i < |PromptGroups(results)|
    ensures var blocks := PageBlocks(nl, PromptGroups(results));
      OccursAt(BuildPrompt(preamble, nl, eol, question, results), blocks[i],
               |preamble| + JoinOffset(nl, blocks, i))
  {
    BlockInPrompt(preamble, nl, PageBlocks(nl, PromptGroups(results)), UserTurn(eol, question), i);
  }

  /** `Environment.NewLine` stands right before every page block but the
      first, so between each two consecutive blocks. */
  lemma NewLineBeforeBlock(preamble: string, nl: string, eol: string, question: string,
                           results: seq<TextChunk>, i: nat)
    requires 0 < i < |PromptGroups(results)|
    ensures var blocks := PageBlocks(nl, PromptGroups(results));
      && JoinOffset(nl, blocks, i) >= |nl|
      && OccursAt(BuildPrompt(preamble, nl, eol, question, results), nl,
                  |preamble| + JoinOffset(nl, blocks, i) - |nl|)
  {
    SeparatorInPrompt(preamble, nl, PageBlocks(nl, PromptGroups(results)), UserTurn(eol, question), i);
  }

  /** The user turn starts right after the last page block: nothing else
      comes between the blocks and the question. */
  lemma UserTurnAfterBlocks(preamble: string, nl: string, eol: string, question: string,
                            results: seq<TextChunk>)
    requires results != []
    ensures var blocks := PageBlocks(nl, PromptGroups(results));
      && blocks != []
      && OccursAt(BuildPrompt(preamble, nl, eol, question, results), UserTurn(eol, question),
                  |preamble| + JoinOffset(nl, blocks, |blocks| - 1) + |blocks[|blocks| - 1]|)
  {
    PromptGroupsProperties(results);
    assert PagesOf(results)[0] in PagesOf(results);
    TailInPrompt(preamble, nl, PageBlocks(nl, PromptGroups(results)), UserTurn(eol, question));
  }

  /** The user turn closes the system turn, and carries the question
      verbatim just before the closing markers. */
  lemma UserTurnShape(eol: string, question: string)
    ensures StartsWith(UserTurn(eol, question), "<|end|>" + eol + "<|user|>" + eol)
    ensures EndsWith(UserTurn(eol, question), question + "<|end|>" + eol + "<|assistant|>")
  {
    var head := "<|end|>" + eol + "<|user|>" + eol;
    var foot := question + "<|end|>" + eol + "<|assistant|>";
    assert UserTurn(eol, question) == head + foot;
  }

  // ---------------------------------------------------------------------
  // Pages used (line 240)
  // ---------------------------------------------------------------------

  /** A 32-bit unsigned integer, the element type of the pages-used list. */
  newtype uint32 = x: int | 0 <= x < 0x1_0000_0000

  /** The unchecked cast `(uint)page`: the page modulo 2^32, so a negative
      page wraps around. */
  function ToUInt32(p: int32): (u: uint32)
    ensures (u as int - p as int) % 0x1_0000_0000 == 0
  {
    if p < 0 then (p as int + 0x1_0000_0000) as uint32 else p as int as uint32
  }

  lemma CastIsInjective(a: int32, b: int32)
    requires ToUInt32(a) == ToUInt32(b)
    ensures a == b
  {
  }

  function Casts(ps: seq<int32>): (us: seq<uint32>)
    ensures |us| == |ps|
  {
    seq(|ps|, i requires 0 <= i < |ps| => ToUInt32(ps[i]))
  }

  /** Casting first and removing duplicates after gives the cast of the
      distinct pages: the cast merges no two pages. */
  lemma {:induction false} DistinctOfCasts(ps: seq<int32>)
    ensures Distinct(Casts(ps)) == Casts(Distinct(ps))
    decreases |ps|
  {
    if ps != [] {
      var init := ps[..|ps| - 1];
      var last := ps[|ps| - 1];
      DistinctOfCasts(init);
      assert Casts(ps)[..|ps| - 1] == Casts(init);
      if last in init {
        var k :| 0 <= k < |init| && init[k] == last;
        assert Casts(init)[k] == ToUInt32(last);
      } else if ToUInt32(last) in Casts(init) {
        var k :| 0 <= k < |init| && Casts(init)[k] == ToUInt32(last);
        CastIsInjective(init[k], last);
      } else {
        assert Casts(Distinct(init) + [last]) == Casts(Distinct(init)) + [ToUInt32(last)];
      }
    }
  }

  /** `contents.Select(c => (uint)c.Page).Distinct()`, over the results
      ordered by page. */
  function PagesUsed(results: seq<TextChunk>): seq<uint32> {
    Distinct(Casts(PagesOf(SortByPage(results))))
  }

  /** A negative page sorts before the others by its signed number, and the
      cast then turns it into a number of 2^31 or more at the head of the
      list: with pages 1 and -1 the list reads 4294967295, 1. */
  lemma NegativePageHeadsList()
    ensures PagesUsed([TextChunk("a", 1), TextChunk("b", -1)]) == [0xFFFF_FFFF, 1]
  {
    var results := [TextChunk("a", 1), TextChunk("b", -1)];
    assert SortByPage(results) == [TextChunk("b", -1), TextChunk("a", 1)];
    assert PagesOf(SortByPage(results)) == [-1, 1];
    assert Casts([-1, 1]) == [0xFFFF_FFFF, 1];
  }

  /** The pages reported are exactly the pages of the prompt's blocks, in
      the same order, cast to unsigned; none is repeated, and when no page
      number is negative they are strictly ascending. */
  lemma PagesUsedProperties(results: seq<TextChunk>)
    ensures var used := PagesUsed(results);
      var gs := PromptGroups(results);
      && |used| == |gs|
      && (forall i :: 0 <= i < |used| ==> used[i] == ToUInt32(gs[i].key))
      && NoDuplicates(used)
      && ((forall i :: 0 <= i < |results| ==> results[i].page >= 0) ==>
            forall i, j :: 0 <= i < j < |used| ==> used[i] < used[j])
  {
    var sorted := SortByPage(results);
    var keys := Distinct(PagesOf(sorted));
    DistinctOfCasts(PagesOf(sorted));
    DistinctProperties(Casts(PagesOf(sorted)));
    PromptGroupsProperties(results);
    var used := PagesUsed(results);
    var gs := PromptGroups(results);
    assert used == Casts(keys);
    if forall i :: 0 <= i < |results| ==> results[i].page >= 0 {
      SortByPageIsStableSort(results);
      DistinctProperties(PagesOf(sorted));
      forall i | 0 <= i < |keys| ensures keys[i] >= 0 {
        assert keys[i] in PagesOf(sorted);
        var k :| 0 <= k < |sorted| && sorted[k].page == keys[i];
        assert sorted[k] in multiset(results);
      }
    }
  }
}
