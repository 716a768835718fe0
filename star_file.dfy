/** The parser itself: class `StarFile`, which reads its file line by line and
    keeps the blocks it read in `dataframes`. Each method is proved to compute
    the corresponding function of module StarSpec. */
module StarFile {
  import opened Wrappers
  import opened Text
  import opened PyDict
  import opened StarSpec

  /** Once a prefix of the entries fails, the whole fails with the same error. */
  lemma {:induction false} FieldsKeepsError(es: seq<Entry>, n: nat)
    requires n <= |es| && Fields(es[..n]).Err?
    ensures Fields(es) == Fields(es[..n])
    decreases |es| - n
  {
    if n < |es| {
      assert es[..n + 1][..n] == es[..n];
      FieldsKeepsError(es, n + 1);
    } else {
      assert es[..n] == es;
    }
  }

  /** Once a prefix of the results fails, the whole fails with the same error. */
  lemma {:induction false} CollectKeepsError<T>(rs: seq<Result<T, Error>>, n: nat)
    requires n <= |rs| && Collect(rs[..n]).Err?
    ensures Collect(rs) == Collect(rs[..n])
    decreases |rs| - n
  {
    if n < |rs| {
      assert rs[..n + 1][..n] == rs[..n];
      CollectKeepsError(rs, n + 1);
    } else {
      assert rs[..n] == rs;
    }
  }

  class StarFile {
    /** The file's lines; line `k` is `lines[k - 1]`. */
    const lines: seq<string>
    /** The blocks read by the last successful `ReadFile`. */
    var dataframes: seq<DataBlock>

    /** A parser for the given file, with no block read yet. */
    constructor(lines: seq<string>)
      ensures this.lines == lines && dataframes == []
    {
      this.lines := lines;
      dataframes := [];
    }

    /** `n_lines`: the number of lines in the file. */
    function NLines(): nat
      reads this
    {
      |lines|
    }

    /** `data_block_starts`: the numbers of the lines whose stripped text begins
        with `data_`, collected in one pass; it fails when there is none. */
    method DataBlockStarts() returns (r: Result<seq<int>, Error>)
      ensures r == StarSpec.DataBlockStarts(lines)
    {
      var starts: seq<int> := [];
      var i := 0;
      while i < |lines|
        invariant 0 <= i <= |lines|
        invariant starts == LinesOfKind(lines, 1, i, BlockStartLine)
      {
        if StartsWith(Strip(lines[i]), DataPrefix) {
          starts := starts + [i + 1];
        }
        i := i + 1;
      }
      if |starts| == 0 {
        return Err(NoDataBlocks);
      }
      return Ok(starts);
    }

    /** `n_data_blocks`: how many block starts there are. */
    method NDataBlocks() returns (r: Result<nat, Error>)
      ensures r == StarSpec.NDataBlocks(lines)
    {
      var starts := DataBlockStarts();
      if starts.Err? {
        return Err(starts.error);
      }
      return Ok(|starts.value|);
    }

    /** `_read_file`: reads the block of every range in turn and, when all of
        them succeed, stores them in `dataframes`; the first failure leaves
        `dataframes` as it was. */
    method ReadFile() returns (r: Result<(), Error>)
      modifies this
      ensures r.Ok? <==> ParsedBlocks(lines).Ok?
      ensures r.Ok? ==> dataframes == ParsedBlocks(lines).value
      ensures r.Err? ==> r.error == ParsedBlocks(lines).error && dataframes == old(dataframes)
    {
      var starts := DataBlockStarts();
      if starts.Err? {
        return Err(starts.error);
      }
      DataBlockStartsSpec(lines);
      assert starts.value[|starts.value| - 1] in starts.value;
      StartsEndsDisjoint(starts.value, NLines());
      var blocks := ReadBlocks(StartsEnds(starts.value, NLines()));
      if blocks.Err? {
        return Err(blocks.error);
      }
      dataframes := blocks.value;
      return Ok(());
    }

    /** The loop of `_read_file`: the block of each range, in order, stopping at
        the first one that fails. */
    method ReadBlocks(ranges: seq<(int, int)>) returns (r: Result<seq<DataBlock>, Error>)
      requires forall i :: 0 <= i < |ranges| ==> ranges[i].1 <= |lines|
      ensures r == Collect(BlockResults(lines, ranges))
    {
      ghost var rs := BlockResults(lines, ranges);
      var frames: seq<DataBlock> := [];
      for i := 0 to |ranges|
        invariant Collect(rs[..i]) == Ok(frames)
      {
        var block := ReadDataBlock(ranges[i].0, ranges[i].1);
        assert rs[..i + 1][..i] == rs[..i];
        if block.Err? {
          CollectKeepsError(rs, i + 1);
          return Err(block.error);
        }
        frames := frames + [block.value];
      }
      assert rs[..|ranges|] == rs;
      return Ok(frames);
    }

    /** `_read_data_block`: checks the block's first line, then collects the
        stripped lines after it up to, but not including, line `end`, handing
        over to the loop reader at the first `loop_` line. */
    method ReadDataBlock(start: int, end: int) returns (r: Result<DataBlock, Error>)
      requires end <= |lines|
      ensures r == DataBlockAt(lines, start, end)
    {
      var line := GetLine(lines, start);
      if !StartsWith(line, DataPrefix) {
        return Err(InvalidBlockStart(start));
      }
      var name := line[|DataPrefix|..];
      var block: seq<string> := [];
      var n := start + 1;
      while n < end
        invariant start + 1 <= n && (n <= end || n == start + 1)
        invariant block == BodyLines(lines, start + 1, n)
        invariant forall j :: start < j < n ==> !IsLoopStart(lines, j)
        decreases end - n
      {
        var current := GetLine(lines, n);
        if StartsWith(current, LoopPrefix) {
          DispatchToLoop(lines, start, end, n);
          r := ReadLoopBlock(n, end);
          return;
        }
        block := block + [current];
        n := n + 1;
      }
      DispatchToFlat(lines, start, end);
      r := DataBlockClean(block, name);
    }

    /** `_read_loop_block`: the header, then the table after it, whose width must
        match the header. */
    method ReadLoopBlock(start: int, end: int) returns (r: Result<DataBlock, Error>)
      requires end <= |lines|
      ensures r == LoopBlock(lines, start, end)
    {
      var headerAndStart := ReadLoopHeader(start);
      if headerAndStart.Err? {
        return Err(headerAndStart.error);
      }
      var (header, dataStart) := headerAndStart.value;
      var table := LoopData(lines, dataStart, end);
      if table.Err? {
        return Err(table.error);
      }
      if |table.value[0]| != |header| {
        return Err(ColumnMismatch(|header|, |table.value[0]|));
      }
      return Ok(Loop(header, table.value));
    }

    /** `_read_loop_header`: checks the `loop_` line, then walks down the `_`
        lines after it, collecting a name from each, until a line that does not
        begin with `_` (past the end of the file the line reads as empty). */
    method ReadLoopHeader(start: int) returns (r: Result<(seq<string>, int), Error>)
      ensures r == LoopHeader(lines, start)
    {
      var line := GetLine(lines, start);
      if !StartsWith(line, LoopPrefix) {
        return Err(InvalidLoopStart(start));
      }
      assert IsLoopStart(lines, start);
      var header: seq<string> := [];
      var n := start + 1;
      line := GetLine(lines, n);
      while StartsWith(line, TagPrefix)
        invariant start + 1 <= n
        invariant line == GetLine(lines, n)
        invariant header == TagNames(BodyLines(lines, start + 1, n))
        invariant HeaderEnd(lines, start + 1) == HeaderEnd(lines, n)
        decreases |lines| - n
      {
        header := header + [TagName(line)];
        n := n + 1;
        line := GetLine(lines, n);
      }
      return Ok((header, n));
    }

    /** `_data_block_clean`: fills a dictionary from the block's lines in order,
        skipping blank lines; a line without a value fails. */
    method DataBlockClean(block: seq<string>, name: string) returns (r: Result<DataBlock, Error>)
      ensures r == StarSpec.DataBlockClean(block, name)
    {
      ghost var es := ReadEntries(block);
      var fields: Dict := [];
      for i := 0 to |block|
        invariant Fields(es[..i]) == Ok(fields)
      {
        assert es[..i + 1][..i] == es[..i];
        var line := block[i];
        if line == "" {
          continue;
        }
        var words := Split(line);
        if |words| < 2 {
          FieldsKeepsError(es, i + 1);
          return Err(MissingValue(line));
        }
        fields := Put(fields, Tail(words[0]), words[1]);
      }
      assert es[..|block|] == es;
      return Ok(Flat(name, fields));
    }
  }
}
