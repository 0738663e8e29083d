/** Analytics rows folded page by page into blocks of consecutive milestones. */
module Analytics {
  import opened Types
  import opened Ranges
  import opened SyncTable

  /** A row of the analytics table. */
  datatype Record = Record(index: nat, messages: nat, transactions: nat, tokens: nat)

  /** The totals of a run of consecutive milestones. */
  datatype Block = Block(range: Range, messages: nat, transactions: nat, tokens: nat)

  /** Rows as the table returns them: strictly descending. */
  ghost predicate Falling(rows: seq<Record>) {
    forall i, j :: 0 <= i < j < |rows| ==> rows[j].index < rows[i].index
  }

  // ------------------------------------------------------------------------------------------------------------
  // The fold
  // ------------------------------------------------------------------------------------------------------------

  function Single(r: Record): Block {
    Block(Range(r.index, r.index + 1), r.messages, r.transactions, r.tokens)
  }

  function Extended(b: Block, r: Record): Block
    requires b.range.start > 0
  {
    Block(Range(b.range.start - 1, b.range.end), b.messages + r.messages, b.transactions + r.transactions, b.tokens + r.tokens)
  }

  predicate Continues(b: Block, r: Record) {
    b.range.start == r.index + 1
  }

  /** One row added: it extends the last block downwards, or opens a new one. */
  function Added(blocks: seq<Block>, r: Record): seq<Block> {
    if blocks != [] && Continues(blocks[|blocks| - 1], r)
    then blocks[..|blocks| - 1] + [Extended(blocks[|blocks| - 1], r)]
    else blocks + [Single(r)]
  }

  function Fold(blocks: seq<Block>, rows: seq<Record>): seq<Block>
    decreases |rows|
  {
    if rows == [] then blocks else Fold(Added(blocks, rows[0]), rows[1..])
  }

  /** Folding on is folding the concatenation. */
  lemma {:induction false} FoldConcat(blocks: seq<Block>, a: seq<Record>, b: seq<Record>)
    ensures Fold(blocks, a + b) == Fold(Fold(blocks, a), b)
    decreases |a|
  {
    if a == [] {
      assert a + b == b;
    } else {
      assert (a + b)[1..] == a[1..] + b;
      FoldConcat(Added(blocks, a[0]), a[1..], b);
    }
  }

  class AnalyticsData {
    var analytics: seq<Block>

    constructor ()
      ensures analytics == []
    {
      analytics := [];
    }

    /** Folds the fetched pages one by one; the last block stays open from page to page. */
    static method TryFetch(pages: seq<seq<Record>>) returns (d: AnalyticsData)
      requires Falling(Flatten(pages))
      ensures fresh(d) && d.analytics == Fold([], Flatten(pages))
    {
      d := new AnalyticsData();
      ghost var done: seq<Record> := [];
      for i := 0 to |pages|
        invariant fresh(d)
        invariant done + Flatten(pages[i..]) == Flatten(pages)
        invariant d.analytics == Fold([], done)
      {
        assert pages[i..][1..] == pages[i + 1..];
        assert done + Flatten(pages[i..]) == done + pages[i] + Flatten(pages[i + 1..]);
        FoldConcat([], done, pages[i]);
        d.TryTrigger(pages[i]);
        done := done + pages[i];
      }
      assert done + [] == done;
    }

    method TryTrigger(rows: seq<Record>)
      modifies this
      ensures analytics == Fold(old(analytics), rows)
    {
      if rows != [] {
        Process(rows[0], rows[1..]);
      }
    }

    /** Takes up the most recent block, if there is one, with the first row of a page, and goes on with the others. */
    method Process(first: Record, rest: seq<Record>)
      modifies this
      ensures analytics == Fold(old(analytics), [first] + rest)
    {
      ghost var rows := [first] + rest;
      assert rows[1..] == rest;
      var block: Block;
      if analytics != [] {
        var recent := analytics[|analytics| - 1];
        ghost var was := analytics;
        analytics := analytics[..|analytics| - 1];
        assert analytics + [recent] == was;
        block := ProcessRecord(recent, first);
      } else {
        block := Single(first);
        assert analytics + [block] == [] + [Single(first)];
      }
      ProcessAll(block, rest);
    }

    /** Extends the open block by the row, or closes it and opens a new one. */
    method ProcessRecord(open: Block, r: Record) returns (block: Block)
      modifies this
      ensures analytics + [block] == Added(old(analytics) + [open], r)
    {
      ghost var blocks := analytics + [open];
      assert blocks[..|blocks| - 1] == analytics;
      if Continues(open, r) {
        block := Extended(open, r);
      } else {
        analytics := analytics + [open];
        block := Single(r);
      }
    }

    method ProcessAll(open: Block, rows: seq<Record>)
      modifies this
      ensures analytics == Fold(old(analytics) + [open], rows)
    {
      var block := open;
      for i := 0 to |rows|
        invariant Fold(analytics + [block], rows[i..]) == Fold(old(analytics) + [open], rows)
      {
        assert rows[i..][1..] == rows[i + 1..];
        block := ProcessRecord(block, rows[i]);
      }
      analytics := analytics + [block];
    }
  }

  // ------------------------------------------------------------------------------------------------------------
  // What the blocks say
  // ------------------------------------------------------------------------------------------------------------

  /** The sum of a measure over the rows of a range. */
  ghost function SumIn(rows: seq<Record>, range: Range, measure: Record -> nat): nat {
    if rows == [] then 0
    else SumIn(rows[..|rows| - 1], range, measure)
         + if range.Has(rows[|rows| - 1].index) then measure(rows[|rows| - 1]) else 0
  }

  const COUNT := (r: Record) => 1
  const MESSAGES := (r: Record) => r.messages
  const TRANSACTIONS := (r: Record) => r.transactions
  const TOKENS := (r: Record) => r.tokens

  /** The block's length and totals are those of the rows in its range. */
  ghost predicate Totals(b: Block, rows: seq<Record>) {
    && b.range.start < b.range.end
    && b.range.end - b.range.start == SumIn(rows, b.range, COUNT)
    && b.messages == SumIn(rows, b.range, MESSAGES)
    && b.transactions == SumIn(rows, b.range, TRANSACTIONS)
    && b.tokens == SumIn(rows, b.range, TOKENS)
  }

  /** Blocks descend and never touch, so each is a maximal run. */
  ghost predicate Apart(blocks: seq<Block>) {
    forall i, j :: 0 <= i < j < |blocks| ==> blocks[j].range.end < blocks[i].range.start
  }

  ghost predicate InBlocks(blocks: seq<Block>, x: nat) {
    exists i :: 0 <= i < |blocks| && blocks[i].range.Has(x)
  }

  ghost predicate HasRow(rows: seq<Record>, x: nat) {
    exists i :: 0 <= i < |rows| && rows[i].index == x
  }

  /** The blocks are exactly the maximal runs of the rows, with their totals. */
  ghost predicate Describes(blocks: seq<Block>, rows: seq<Record>) {
    && Apart(blocks)
    && (forall i :: 0 <= i < |blocks| ==> Totals(blocks[i], rows))
    && (forall x: nat :: InBlocks(blocks, x) <==> HasRow(rows, x))
  }

  lemma SumSnoc(rows: seq<Record>, r: Record, range: Range, measure: Record -> nat)
    ensures SumIn(rows + [r], range, measure) == SumIn(rows, range, measure) + if range.Has(r.index) then measure(r) else 0
  {
    assert (rows + [r])[..|rows|] == rows;
  }

  /** Indexes without rows add nothing. */
  lemma {:induction false} SumBelow(rows: seq<Record>, x: nat, end: nat, measure: Record -> nat)
    requires forall i :: 0 <= i < |rows| ==> x < rows[i].index
    ensures SumIn(rows, Range(x, end), measure) == SumIn(rows, Range(x + 1, end), measure)
    ensures SumIn(rows, Range(x, x + 1), measure) == 0
    decreases |rows|
  {
    if rows != [] {
      SumBelow(rows[..|rows| - 1], x, end, measure);
    }
  }

  /** A row outside the block's range changes nothing for it. */
  lemma TotalsKept(b: Block, rows: seq<Record>, r: Record)
    requires Totals(b, rows) && !b.range.Has(r.index)
    ensures Totals(b, rows + [r])
  {
    SumSnoc(rows, r, b.range, COUNT);
    SumSnoc(rows, r, b.range, MESSAGES);
    SumSnoc(rows, r, b.range, TRANSACTIONS);
    SumSnoc(rows, r, b.range, TOKENS);
  }

  ghost predicate Below(rows: seq<Record>, r: Record) {
    forall i :: 0 <= i < |rows| ==> r.index < rows[i].index
  }

  lemma SumGrown(rows: seq<Record>, r: Record, end: nat, measure: Record -> nat)
    requires Below(rows, r) && r.index < end
    ensures SumIn(rows + [r], Range(r.index, end), measure) == SumIn(rows, Range(r.index + 1, end), measure) + measure(r)
    ensures SumIn(rows + [r], Range(r.index, r.index + 1), measure) == measure(r)
  {
    SumSnoc(rows, r, Range(r.index, end), measure);
    SumSnoc(rows, r, Range(r.index, r.index + 1), measure);
    SumBelow(rows, r.index, end, measure);
  }

  lemma TotalsGrown(b: Block, rows: seq<Record>, r: Record)
    requires Below(rows, r)
    ensures Totals(Single(r), rows + [r])
    ensures Totals(b, rows) && Continues(b, r) ==> Totals(Extended(b, r), rows + [r])
  {
    var end := if r.index < b.range.end then b.range.end else r.index + 1;
    SumGrown(rows, r, end, COUNT);
    SumGrown(rows, r, end, MESSAGES);
    SumGrown(rows, r, end, TRANSACTIONS);
    SumGrown(rows, r, end, TOKENS);
  }

  lemma BlocksSnoc(blocks: seq<Block>, b: Block, x: nat)
    ensures InBlocks(blocks + [b], x) <==> InBlocks(blocks, x) || b.range.Has(x)
  {
    if b.range.Has(x) {
      assert (blocks + [b])[|blocks|].range.Has(x);
    }
    if InBlocks(blocks, x) {
      var i :| 0 <= i < |blocks| && blocks[i].range.Has(x);
      assert (blocks + [b])[i] == blocks[i];
    }
  }

  lemma RowsSnoc(rows: seq<Record>, r: Record, x: nat)
    ensures HasRow(rows + [r], x) <==> HasRow(rows, x) || r.index == x
  {
    assert (rows + [r])[|rows|] == r;
    if HasRow(rows, x) {
      var i :| 0 <= i < |rows| && rows[i].index == x;
      assert (rows + [r])[i] == rows[i];
    }
  }

  /** Every block lies above a row that is below all others. */
  lemma BlocksAbove(blocks: seq<Block>, rows: seq<Record>, r: Record)
    requires Describes(blocks, rows) && Below(rows, r)
    ensures forall i :: 0 <= i < |blocks| ==> r.index < blocks[i].range.start
  {
    forall i | 0 <= i < |blocks|
      ensures r.index < blocks[i].range.start
    {
      assert blocks[i].range.Has(blocks[i].range.start);
      assert InBlocks(blocks, blocks[i].range.start);
    }
  }

  lemma AddedTotals(blocks: seq<Block>, rows: seq<Record>, r: Record, i: nat)
    requires Describes(blocks, rows) && Below(rows, r) && i < |Added(blocks, r)|
    ensures Totals(Added(blocks, r)[i], rows + [r])
  {
    BlocksAbove(blocks, rows, r);
    var out := Added(blocks, r);
    if i < |out| - 1 {
      assert out[i] == blocks[i];
      TotalsKept(blocks[i], rows, r);
    } else {
      TotalsGrown(if blocks == [] then Single(r) else blocks[|blocks| - 1], rows, r);
    }
  }

  lemma AddedCovers(blocks: seq<Block>, rows: seq<Record>, r: Record, x: nat)
    requires Describes(blocks, rows)
    ensures InBlocks(Added(blocks, r), x) <==> HasRow(rows + [r], x)
  {
    RowsSnoc(rows, r, x);
    if blocks != [] && Continues(blocks[|blocks| - 1], r) {
      var init, last := blocks[..|blocks| - 1], blocks[|blocks| - 1];
      assert blocks == init + [last];
      assert Totals(last, rows);
      BlocksSnoc(init, last, x);
      BlocksSnoc(init, Extended(last, r), x);
    } else {
      BlocksSnoc(blocks, Single(r), x);
    }
  }

  lemma AddedDescribes(blocks: seq<Block>, rows: seq<Record>, r: Record)
    requires Describes(blocks, rows) && Below(rows, r)
    ensures Describes(Added(blocks, r), rows + [r])
  {
    var out := Added(blocks, r);
    BlocksAbove(blocks, rows, r);
    forall i | 0 <= i < |out|
      ensures Totals(out[i], rows + [r])
    {
      AddedTotals(blocks, rows, r, i);
    }
    forall x: nat
      ensures InBlocks(out, x) <==> HasRow(rows + [r], x)
    {
      AddedCovers(blocks, rows, r, x);
    }
  }

  lemma {:induction false} FoldDescribes(rows: seq<Record>)
    requires Falling(rows)
    ensures Describes(Fold([], rows), rows)
    decreases |rows|
  {
    if rows != [] {
      var init, last := rows[..|rows| - 1], rows[|rows| - 1];
      assert rows == init + [last];
      FoldDescribes(init);
      FoldConcat([], init, [last]);
      assert [last][1..] == [];
      AddedDescribes(Fold([], init), init, last);
    }
  }

  /** Main result: however the rows are split into pages, the blocks are the maximal runs of all rows with their totals. */
  lemma PagesDescribeRows(pages: seq<seq<Record>>, other: seq<seq<Record>>)
    requires Falling(Flatten(pages)) && Flatten(other) == Flatten(pages)
    ensures Describes(Fold([], Flatten(pages)), Flatten(pages))
    ensures FoldPages([], pages) == FoldPages([], other) == Fold([], Flatten(pages))
  {
    FoldDescribes(Flatten(pages));
    PagesAreConcat([], pages);
    PagesAreConcat([], other);
  }

  /** Page by page. */
  ghost function FoldPages(blocks: seq<Block>, pages: seq<seq<Record>>): seq<Block>
    decreases |pages|
  {
    if pages == [] then blocks else FoldPages(Fold(blocks, pages[0]), pages[1..])
  }

  lemma {:induction false} PagesAreConcat(blocks: seq<Block>, pages: seq<seq<Record>>)
    ensures FoldPages(blocks, pages) == Fold(blocks, Flatten(pages))
    decreases |pages|
  {
    if pages != [] {
      FoldConcat(blocks, pages[0], Flatten(pages[1..]));
      PagesAreConcat(Fold(blocks, pages[0]), pages[1..]);
    }
  }

  // ------------------------------------------------------------------------------------------------------------
  // Conservation
  // ------------------------------------------------------------------------------------------------------------

  datatype Grand = Grand(count: nat, messages: nat, transactions: nat, tokens: nat)
  {
    function Plus(o: Grand): Grand {
      Grand(count + o.count, messages + o.messages, transactions + o.transactions, tokens + o.tokens)
    }
  }

  function OfRow(r: Record): Grand {
    Grand(1, r.messages, r.transactions, r.tokens)
  }

  function OfBlock(b: Block): Grand {
    Grand(if b.range.start <= b.range.end then b.range.end - b.range.start else 0, b.messages, b.transactions, b.tokens)
  }

  function OfRows(rows: seq<Record>): Grand
    decreases |rows|
  {
    if rows == [] then Grand(0, 0, 0, 0) else OfRow(rows[0]).Plus(OfRows(rows[1..]))
  }

  function OfBlocks(blocks: seq<Block>): Grand {
    if blocks == [] then Grand(0, 0, 0, 0) else OfBlocks(blocks[..|blocks| - 1]).Plus(OfBlock(blocks[|blocks| - 1]))
  }

  lemma AddedConserves(blocks: seq<Block>, r: Record)
    requires forall i :: 0 <= i < |blocks| ==> blocks[i].range.start <= blocks[i].range.end
    ensures OfBlocks(Added(blocks, r)) == OfBlocks(blocks).Plus(OfRow(r))
  {
    var out := Added(blocks, r);
    assert out[..|out| - 1] == if |out| == |blocks| then blocks[..|blocks| - 1] else blocks;
  }

  /** The grand totals of the blocks are those of the rows, whatever rows come. */
  lemma {:induction false} FoldConserves(blocks: seq<Block>, rows: seq<Record>)
    requires forall i :: 0 <= i < |blocks| ==> blocks[i].range.start <= blocks[i].range.end
    ensures OfBlocks(Fold(blocks, rows)) == OfBlocks(blocks).Plus(OfRows(rows))
    decreases |rows|
  {
    if rows != [] {
      AddedConserves(blocks, rows[0]);
      FoldConserves(Added(blocks, rows[0]), rows[1..]);
    }
  }
}
