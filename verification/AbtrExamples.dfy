/** Small inputs at which the exact conditions of AbtrRuns and AbtrGrowth fail. */
module AbtrExamples {
  import opened Bytes
  import opened AbtrFormat
  import opened AbtrLayout
  import opened BlockWrites
  import opened AbtrPlan
  import opened AbtrTheorems
  import opened AbtrRuns
  import opened AbtrGrowth
  import opened AbtrSession

  /** The path of `n` letters "a". */
  function Letters(n: nat): Path
    requires n <= PATH_SIZE
  {
    seq(n, _ => 97) + Zeros(PATH_SIZE - n)
  }

  lemma LettersName(n: nat)
    requires 0 < n < PATH_SIZE
    ensures NameOf(Letters(n)) == seq(n, _ => 97) && HasSegment(Letters(n))
  {
    assert Letters(n)[..n] == seq(n, _ => 97) && Letters(n)[n] == 0;
    NameOfUnique(Letters(n), n);
    assert NameOf(Letters(n))[0] != SLASH;
  }

  /** A file with a name of 255 letters is created and then not found. */
  lemma LongNameIsLost(total: nat, cut: nat)
    requires total >= 3 && cut >= 3
    ensures var op := Op(Letters(255), [1], 0, cut, true, true);
      && |AbsCreate([], total, op)| == 1
      && AbsRead(AbsCreate([], total, op), op.path, 0, 0) == Err(FileNotFound)
  {
    LettersName(255);
    hide NameOf, HasSegment, StoredPath, Letters;
  }

  /** A write of data that could not read the old content, a single 1, and starts behind it. */
  lemma OneByteIsLost()
    ensures var op := Op(Letters(1), [2], 1, 2, true, false);
      Intended([1], op)[..1] == [0] && Intended([1], op.(kept := true))[..1] == [1]
  {
    hide Letters;
  }

  // ----- a disk with one file of one full block -----

  function Full(): (b: Block) ensures forall i :: 0 <= i < BLOCK ==> b[i] == 1 { seq(BLOCK, _ => 1) }

  function Creation(): Op { Op(Letters(1), Full(), 0, ALL_WRITES, true, true) }

  /** A device that has been formatted, and on which the file "a" of 4096 ones has been created. */
  function OneFile(blocks: seq<Block>): seq<Block>
    requires |blocks| >= 6
  {
    var formatted := blocks[0 := FormattedHeader(DEFAULT_TOTAL)];
    FormatIsEmpty(blocks);
    Step(Healthy(formatted), Healthy(formatted), Creation())
  }

  lemma FormattedStep(blocks: seq<Block>)
    requires |blocks| >= 6
    ensures var formatted := blocks[0 := FormattedHeader(DEFAULT_TOTAL)];
      && Formatted(formatted) && View(formatted) == [] && TotalBlocks(formatted[0]) == DEFAULT_TOTAL
      && Used(formatted[0]) == 1 && Happens(Healthy(formatted), Healthy(formatted), Creation()) && Fits([], Creation())
  {
    FormatIsEmpty(blocks);
    LettersName(1);
    var formatted := blocks[0 := FormattedHeader(DEFAULT_TOTAL)];
    var d := Healthy(formatted);
    hide FromLE, NameOf, HasSegment, StoredPath, FormattedHeader, Tiled, Files, PlanWrite, Letters, Accepted;
    TilingAccounts(formatted, 1, Used(formatted[0]));
    PlanOutcome(d, d, Creation());
    CreatedAt(d, d, Creation());
    var plan := PlanWrite(d, d, d.blocks[0], Letters(1), Full(), 0);
    if plan.Ok? {
      AllAccepted(d, plan.value);
    }
  }

  lemma OneFileIs(blocks: seq<Block>)
    requires |blocks| >= 6
    ensures var w := OneFile(blocks);
      && Formatted(w) && |w| == |blocks| && TotalBlocks(w[0]) == DEFAULT_TOTAL
      && View(w) == [File([97], Full())] && Used(w[0]) == 3 && HeaderOf(w, 0) == 1
  {
    FormattedStep(blocks);
    LettersName(1);
    StoredPathName(Letters(1));
    var w := OneFile(blocks);
    hide FromLE, HasSegment, StoredPath, FormattedHeader, Tiled, Files, PlanWrite, Letters, Accepted, Apply, Happens,
      NameOf, Step;
    var d := Healthy(blocks[0 := FormattedHeader(DEFAULT_TOTAL)]);
    StepRefines(d, d, Creation());
    assert Zeros(0) + Full() == Full();
    assert seq(1, _ => 97) == [97];
    TilingAccounts(w, 1, Used(w[0]));
  }

  lemma AppendFits(w: seq<Block>)
    requires Formatted(w) && |w| >= 6 && TotalBlocks(w[0]) == DEFAULT_TOTAL
    requires View(w) == [File([97], Full())] && Used(w[0]) == 3 && HeaderOf(w, 0) == 1
    ensures Overwrites(w, Letters(1), [2], BLOCK, 0)
    ensures BlocksFor(BLOCK + |[2]|) == 2 && BlocksFor(|View(w)[0].content|) == 1
  {
    LettersName(1);
    hide FromLE, NameOf, HasSegment, Tiled, Files, Letters, HeaderOf;
    assert seq(1, _ => 97) == [97];
  }

  /** Appending one byte to that file reports success, is lost, and breaks the chain. */
  lemma AppendBreaks(blocks: seq<Block>)
    requires |blocks| >= 6
    ensures var w := OneFile(blocks);
      && Formatted(w) && View(w) == [File([97], Full())] && Overwrites(w, Letters(1), [2], BLOCK, 0)
      && var after := Overwritten(w, Letters(1), [2], BLOCK, 0);
         && Used(after[0]) >= 0
         && ReadFile(Healthy(after), after[0], Letters(1), 0, 0) != Ok(Wanted(Full(), [2], BLOCK))
         && !(Formatted(after) && OthersKept(View(w), View(after), 0))
  {
    OneFileIs(blocks);
    var w := OneFile(blocks);
    AppendFits(w);
    hide *;
    OverwriteReadsBackIff(w, Letters(1), [2], BLOCK, 0);
    ChainKeptIff(w, Letters(1), [2], BLOCK, 0);
  }

  /** With block 1 unreadable, writing to that file adds a second one of its name. */
  lemma UnreadableDuplicates(blocks: seq<Block>, later: Disk)
    requires |blocks| >= 6
    ensures var w := OneFile(blocks);
      && Used(w[0]) == 3
      && var plan := PlanWrite(Disk(w, {1}, {}), later, w[0], Letters(1), [2], 0);
         plan.Ok? && plan.value.at == 3
  {
    OneFileIs(blocks);
    LettersName(1);
  }
}
