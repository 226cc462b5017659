/** The block log query of database/database.go: `GetBlocksAfter` scans the
    log's records in file order, skips until one whose key is the given hash,
    and collects the block of every record after it. */
module BlockLog {
  import opened Common
  import opened Hashes
  import opened Blocks

  /** One line of `block.db`: a decoded record, or one `json.Unmarshal` rejects. */
  datatype Line = Record(fs: BlockFS) | Malformed

  datatype LogError = CorruptRecord

  predicate AllRecords(lines: seq<Line>) {
    forall k :: 0 <= k < |lines| ==> lines[k].Record?
  }

  /** The blocks of a run of well-formed lines, in file order. */
  function Payloads(lines: seq<Line>): (r: seq<Block>)
    requires AllRecords(lines)
    ensures |r| == |lines|
    ensures forall k :: 0 <= k < |lines| ==> r[k] == lines[k].fs.value
  {
    if lines == [] then [] else [lines[0].fs.value] + Payloads(lines[1..])
  }

  /** The position of the first record whose key is `h`, looking from `from` on. */
  function FirstMatch(h: Hash, lines: seq<Line>, from: nat): (r: Option<nat>)
    requires AllRecords(lines)
    requires from <= |lines|
    decreases |lines| - from
    ensures r.Some? ==>
              && from <= r.value < |lines|
              && lines[r.value].fs.key == h
              && forall j :: from <= j < r.value ==> lines[j].fs.key != h
    ensures r.None? ==> forall j :: from <= j < |lines| ==> lines[j].fs.key != h
  {
    if from == |lines| then None
    else if lines[from].fs.key == h then Some(from)
    else FirstMatch(h, lines, from + 1)
  }

  /** What the query answers, by slicing: an error if any line is malformed;
      otherwise the blocks strictly after the first record keyed `h`, or nothing
      when no record is. */
  function BlocksAfter(h: Hash, lines: seq<Line>): Result<seq<Block>, LogError> {
    if !AllRecords(lines) then Err(CorruptRecord)
    else
      match FirstMatch(h, lines, 0)
      case None => Ok([])
      case Some(k) => Ok(Payloads(lines[k + 1..]))
  }

  /** `GetBlocksAfter` over the log's lines (opening and reading the file are
      left out). The scan agrees with the slicing definition `BlocksAfter`. */
  method GetBlocksAfter(blockHash: Hash, lines: seq<Line>) returns (r: Result<seq<Block>, LogError>)
    ensures r == BlocksAfter(blockHash, lines)
  {
    var blocks: seq<Block> := [];
    var collecting := false;
    ghost var first: nat := 0;
    var i := 0;
    while i < |lines|
      invariant 0 <= i <= |lines|
      invariant AllRecords(lines[..i])
      invariant !collecting ==> blocks == [] && forall j :: 0 <= j < i ==> lines[j].fs.key != blockHash
      invariant collecting ==>
                  && first < i
                  && lines[first].fs.key == blockHash
                  && (forall j :: 0 <= j < first ==> lines[j].fs.key != blockHash)
                  && blocks == Payloads(lines[first + 1..i])
    {
      if lines[i].Malformed? {
        assert !AllRecords(lines);
        return Err(CorruptRecord);
      }
      var record := lines[i].fs;
      assert lines[..i + 1] == lines[..i] + [lines[i]];
      if collecting {
        assert lines[first + 1..i + 1] == lines[first + 1..i] + [lines[i]];
        blocks := blocks + [record.value];
      } else if blockHash == record.key {
        collecting := true;
        first := i;
      }
      i := i + 1;
    }
    assert lines[..i] == lines;
    if collecting {
      assert FirstMatch(blockHash, lines, 0) == Some(first) by {
        FirstMatchUnique(blockHash, lines, 0, first);
      }
    }
    return Ok(blocks);
  }

  /** The first match is the only position that has the key with no earlier one. */
  lemma {:induction false} FirstMatchUnique(h: Hash, lines: seq<Line>, from: nat, k: nat)
    requires AllRecords(lines)
    requires from <= k < |lines|
    requires lines[k].fs.key == h
    requires forall j :: from <= j < k ==> lines[j].fs.key != h
    ensures FirstMatch(h, lines, from) == Some(k)
    decreases k - from
  {
    if from < k {
      FirstMatchUnique(h, lines, from + 1, k);
    }
  }

  // ---------------------------------------------------------------------
  // Properties of the query
  // ---------------------------------------------------------------------

  /** Exactly the blocks of the records strictly after the first record keyed
      `h`, in file order: the matching record itself is never included, and every
      later record is, even one whose key repeats `h`. */
  lemma AfterFirstMatch(h: Hash, lines: seq<Line>, k: nat)
    requires AllRecords(lines)
    requires k < |lines| && lines[k].fs.key == h
    requires forall j :: 0 <= j < k ==> lines[j].fs.key != h
    ensures BlocksAfter(h, lines).Ok?
    ensures |BlocksAfter(h, lines).value| == |lines| - k - 1
    ensures forall j :: k < j < |lines| ==> BlocksAfter(h, lines).value[j - k - 1] == lines[j].fs.value
  {
    FirstMatchUnique(h, lines, 0, k);
  }

  /** No record keyed `h`: the answer is empty, indistinguishable from a match
      with nothing after it. */
  lemma NoMatchIsEmpty(h: Hash, lines: seq<Line>)
    requires AllRecords(lines)
    requires forall j :: 0 <= j < |lines| ==> lines[j].fs.key != h
    ensures BlocksAfter(h, lines) == Ok([])
  {
  }

  /** When the only record keyed `h` is the last one, the answer is empty. */
  lemma LastMatchIsEmpty(h: Hash, lines: seq<Line>)
    requires AllRecords(lines) && |lines| > 0
    requires lines[|lines| - 1].fs.key == h
    requires forall j :: 0 <= j < |lines| - 1 ==> lines[j].fs.key != h
    ensures BlocksAfter(h, lines) == Ok([])
  {
    FirstMatchUnique(h, lines, 0, |lines| - 1);
  }

  /** Any malformed line aborts the query with an error and no blocks, wherever
      it sits in the file. */
  lemma MalformedAborts(h: Hash, lines: seq<Line>, k: nat)
    requires k < |lines| && lines[k].Malformed?
    ensures BlocksAfter(h, lines) == Err(CorruptRecord)
  {
  }

  // ---------------------------------------------------------------------
  // The zero hash
  // ---------------------------------------------------------------------

  /** As written, the zero hash gets no special treatment: asked for the blocks
      after the zero hash, a log whose keys are real content hashes answers with
      nothing, although the zero hash is the sentinel for "no block yet" and a
      fresh node asks exactly this to get the whole chain. */
  lemma ZeroHashAsWritten(lines: seq<Line>)
    requires AllRecords(lines) && |lines| > 0
    requires forall j :: 0 <= j < |lines| ==> !IsEmpty(lines[j].fs.key)
    ensures BlocksAfter(ZeroHash, lines) == Ok([])
    ensures Payloads(lines) != []
  {
  }

  /** The query with the zero hash read as "from the start of the chain": the
      answer is then every block in the log. */
  function BlocksAfterFromGenesis(h: Hash, lines: seq<Line>): (r: Result<seq<Block>, LogError>)
    ensures !AllRecords(lines) ==> r == Err(CorruptRecord)
    ensures AllRecords(lines) && IsEmpty(h) ==> r == Ok(Payloads(lines))
    ensures !IsEmpty(h) ==> r == BlocksAfter(h, lines)
  {
    if IsEmpty(h) && AllRecords(lines) then Ok(Payloads(lines)) else BlocksAfter(h, lines)
  }

  /** With the zero hash read as the start of the chain, a fresh node asking for
      the blocks after the zero hash receives the whole log, in order. */
  lemma FromGenesisReturnsAll(lines: seq<Line>)
    requires AllRecords(lines)
    ensures BlocksAfterFromGenesis(ZeroHash, lines).Ok?
    ensures BlocksAfterFromGenesis(ZeroHash, lines).value == Payloads(lines)
    ensures forall j :: 0 <= j < |lines| ==>
              BlocksAfterFromGenesis(ZeroHash, lines).value[j] == lines[j].fs.value
  {
  }
}
