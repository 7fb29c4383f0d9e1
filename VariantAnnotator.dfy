/** The variant annotator of svannotate: for each structural variant, the
    spans to look up in the annotation index, and the output row that lists,
    tier by tier, whether any gene was hit and which. */
module VariantAnnotator {
  import opened Sorting
  import opened Strings
  import opened AnnotationIndex

  /** One row of the variant table: its fields by column name, with the
      integer values of the `pos1` and `pos2` columns. */
  datatype Variant = Variant(fields: map<string, string>, pos1: int, pos2: int)

  /** The row has a value for every column of the table. */
  predicate HasFields(v: Variant, fieldnames: seq<string>)
  {
    forall i :: 0 <= i < |fieldnames| ==> fieldnames[i] in v.fields
  }

  /** The row has both breakend chromosomes. */
  predicate HasBreakends(v: Variant)
  {
    "chr1" in v.fields && "chr2" in v.fields
  }

  /** The order `sorted` puts tiers in. */
  predicate IntLt(a: int, b: int)
  {
    a < b
  }

  lemma IntLtIsStrictTotalOrder()
    ensures StrictTotalOrder(IntLt)
  {
  }

  function Max(a: int, b: int): int
  {
    if a < b then b else a
  }

  /** `window // 2`: Python's floor division by 2. */
  function HalfWindow(window: int): (half: int)
    ensures 2 * half <= window < 2 * half + 2
  {
    window / 2
  }

  /** Lower end of the query window around a breakend, clamped at 0. */
  function WindowLow(pos: int, half: int): int
  {
    Max(0, pos - half)
  }

  /** Upper end (inclusive) of the query window around a breakend. */
  function WindowHigh(pos: int, half: int): int
  {
    pos + (half - 1)
  }

  /** The entries a variant hits: the span between its breakends when both
      are on one chromosome, otherwise the union of the windows around each
      breakend, each on its own chromosome. */
  function VariantHits(ann: AnnIntervals, half: int, chr1: string, pos1: int, chr2: string, pos2: int): (hits: set<Entry>)
    reads ann
    requires ann.Valid()
    ensures chr1 == chr2 ==>
              forall e :: e in hits <==> e in Stored(ann.chroms, chr1) && SharesPosition(e, pos1, pos2)
    ensures chr1 != chr2 ==>
              forall e :: e in hits <==>
                || (e in Stored(ann.chroms, chr1) && SharesPosition(e, WindowLow(pos1, half), WindowHigh(pos1, half)))
                || (e in Stored(ann.chroms, chr2) && SharesPosition(e, WindowLow(pos2, half), WindowHigh(pos2, half)))
  {
    if chr1 == chr2 then
      ann.Lookup(chr1, pos1, pos2)
    else
      ann.Lookup(chr1, WindowLow(pos1, half), WindowHigh(pos1, half))
        + ann.Lookup(chr2, WindowLow(pos2, half), WindowHigh(pos2, half))
  }

  /** The window around a breakend never starts below 0. Unless clamped, it
      holds exactly 2 * (window // 2) positions, with the breakend among them
      when window >= 2. A window below 2 holds no position at all. */
  lemma BreakendWindow(pos: int, window: int)
    ensures WindowLow(pos, HalfWindow(window)) >= 0
    ensures pos >= HalfWindow(window) ==>
              WindowHigh(pos, HalfWindow(window)) - WindowLow(pos, HalfWindow(window)) + 1 == 2 * HalfWindow(window)
    ensures window >= 2 && pos >= 0 ==>
              WindowLow(pos, HalfWindow(window)) <= pos <= WindowHigh(pos, HalfWindow(window))
    ensures window < 2 ==> WindowHigh(pos, HalfWindow(window)) < WindowLow(pos, HalfWindow(window))
  {
  }

  /** With a window below 2 a variant whose breakends are on different
      chromosomes hits nothing. */
  lemma {:induction false} NarrowWindowHitsNothing(ann: AnnIntervals, window: int, chr1: string, pos1: int, chr2: string, pos2: int)
    requires ann.Valid()
    requires window < 2 && chr1 != chr2
    ensures VariantHits(ann, HalfWindow(window), chr1, pos1, chr2, pos2) == {}
  {
    var half := HalfWindow(window);
    BreakendWindow(pos1, window);
    BreakendWindow(pos2, window);
  }

  /** A same-chromosome variant whose second breakend lies before its first
      asks for an inverted span and hits nothing. */
  lemma InvertedSpanHitsNothing(ann: AnnIntervals, half: int, chrom: string, pos1: int, pos2: int)
    requires ann.Valid()
    requires pos2 < pos1
    ensures VariantHits(ann, half, chrom, pos1, chrom, pos2) == {}
  {
  }

  /** The genes of the hits whose tier is `tier`. */
  function GenesOf(hits: set<Entry>, tier: int): set<string>
  {
    set e | e in hits && e.data.tier == tier :: e.data.gene
  }

  /** The gene names in ascending order, joined by ";". */
  ghost function GeneList(genes: set<string>): string
  {
    StrLtIsStrictTotalOrder();
    Join(SortedSet(genes, StrLt), ';')
  }

  /** The two output fields of one tier: "1" and the gene list when the tier
      was hit, "0" and "" otherwise. */
  ghost function TierCells(hits: set<Entry>, tier: int): seq<string>
  {
    var genes := GenesOf(hits, tier);
    if genes == {} then ["0", ""] else ["1", GeneList(genes)]
  }

  /** The tier fields of a row, tier by tier in the given order. */
  ghost function TierFields(hits: set<Entry>, tiers: seq<int>): seq<string>
  {
    if tiers == [] then []
    else TierFields(hits, tiers[..|tiers| - 1]) + TierCells(hits, tiers[|tiers| - 1])
  }

  /** The variant's own fields, in column order. */
  function Passthrough(fields: map<string, string>, fieldnames: seq<string>): seq<string>
    requires forall i :: 0 <= i < |fieldnames| ==> fieldnames[i] in fields
  {
    seq(|fieldnames|, i requires 0 <= i < |fieldnames| => fields[fieldnames[i]])
  }

  /** The output row `print_variant` writes. */
  ghost function OutputRow(sortedTiers: seq<int>, fieldnames: seq<string>, fields: map<string, string>, hits: set<Entry>): seq<string>
    requires forall i :: 0 <= i < |fieldnames| ==> fieldnames[i] in fields
  {
    Passthrough(fields, fieldnames) + TierFields(hits, sortedTiers)
  }

  lemma {:induction false} TierFieldsLength(hits: set<Entry>, tiers: seq<int>)
    ensures |TierFields(hits, tiers)| == 2 * |tiers|
    decreases |tiers|
  {
    if tiers != [] {
      TierFieldsLength(hits, tiers[..|tiers| - 1]);
    }
  }

  /** The two fields of the k-th tier sit at offset 2k of the tier fields. */
  lemma {:induction false} TierFieldsAt(hits: set<Entry>, tiers: seq<int>, k: int)
    requires 0 <= k < |tiers|
    ensures |TierFields(hits, tiers)| == 2 * |tiers|
    ensures TierFields(hits, tiers)[2 * k] == TierCells(hits, tiers[k])[0]
    ensures TierFields(hits, tiers)[2 * k + 1] == TierCells(hits, tiers[k])[1]
    decreases |tiers|
  {
    var n := |tiers| - 1;
    var init := TierFields(hits, tiers[..n]);
    var cells := TierCells(hits, tiers[n]);
    TierFieldsLength(hits, tiers[..n]);
    assert TierFields(hits, tiers) == init + cells;
    if k < n {
      TierFieldsAt(hits, tiers[..n], k);
      assert tiers[..n][k] == tiers[k];
    }
  }

  /** Extending the tiers by one appends that tier's two fields. */
  lemma TierFieldsSnoc(hits: set<Entry>, tiers: seq<int>, j: int)
    requires 0 <= j < |tiers|
    ensures TierFields(hits, tiers[..j + 1]) == TierFields(hits, tiers[..j]) + TierCells(hits, tiers[j])
  {
    assert tiers[..j + 1][..j] == tiers[..j];
  }

  /** An output row is the variant's fields in column order followed by two
      fields per tier in the given order: the flag, "1" exactly when some hit
      has that tier, and then the sorted, ";"-joined genes of that tier, or ""
      for a tier without hits. */
  lemma OutputRowLayout(sortedTiers: seq<int>, fieldnames: seq<string>, fields: map<string, string>, hits: set<Entry>)
    requires forall i :: 0 <= i < |fieldnames| ==> fieldnames[i] in fields
    ensures |OutputRow(sortedTiers, fieldnames, fields, hits)| == |fieldnames| + 2 * |sortedTiers|
    ensures forall i :: 0 <= i < |fieldnames| ==> OutputRow(sortedTiers, fieldnames, fields, hits)[i] == fields[fieldnames[i]]
    ensures forall k :: 0 <= k < |sortedTiers| ==>
              var row := OutputRow(sortedTiers, fieldnames, fields, hits);
              var genes := GenesOf(hits, sortedTiers[k]);
              && (row[|fieldnames| + 2 * k] == "1" <==> exists e :: e in hits && e.data.tier == sortedTiers[k])
              && (row[|fieldnames| + 2 * k] == "0" <==> genes == {})
              && (genes == {} ==> row[|fieldnames| + 2 * k + 1] == "")
              && (genes != {} ==> row[|fieldnames| + 2 * k + 1] == GeneList(genes))
  {
    var n := |fieldnames|;
    TierFieldsLength(hits, sortedTiers);
    forall k | 0 <= k < |sortedTiers|
      ensures var row := OutputRow(sortedTiers, fieldnames, fields, hits);
              var genes := GenesOf(hits, sortedTiers[k]);
              && (row[n + 2 * k] == "1" <==> exists e :: e in hits && e.data.tier == sortedTiers[k])
              && (row[n + 2 * k] == "0" <==> genes == {})
              && (genes == {} ==> row[n + 2 * k + 1] == "")
              && (genes != {} ==> row[n + 2 * k + 1] == GeneList(genes))
    {
      OutputRowTier(sortedTiers, fieldnames, fields, hits, k);
      GenesOfNonEmpty(hits, sortedTiers[k]);
    }
  }

  /** The k-th tier's two fields in an output row are its TierCells. */
  lemma OutputRowTier(sortedTiers: seq<int>, fieldnames: seq<string>, fields: map<string, string>, hits: set<Entry>, k: int)
    requires forall i :: 0 <= i < |fieldnames| ==> fieldnames[i] in fields
    requires 0 <= k < |sortedTiers|
    ensures |OutputRow(sortedTiers, fieldnames, fields, hits)| == |fieldnames| + 2 * |sortedTiers|
    ensures OutputRow(sortedTiers, fieldnames, fields, hits)[|fieldnames| + 2 * k] == TierCells(hits, sortedTiers[k])[0]
    ensures OutputRow(sortedTiers, fieldnames, fields, hits)[|fieldnames| + 2 * k + 1] == TierCells(hits, sortedTiers[k])[1]
  {
    TierFieldsAt(hits, sortedTiers, k);
    assert OutputRow(sortedTiers, fieldnames, fields, hits) == Passthrough(fields, fieldnames) + TierFields(hits, sortedTiers);
  }

  /** The gene field of a hit tier can be read back: when no gene name holds
      a ";", splitting it gives a strictly ascending list without duplicates
      of exactly the genes the tier was hit with. */
  lemma GeneFieldReadsBack(hits: set<Entry>, tier: int)
    requires forall e :: e in hits ==> ';' !in e.data.gene
    requires GenesOf(hits, tier) != {}
    ensures StrictlyAscending(Split(TierCells(hits, tier)[1], ';'), StrLt)
    ensures forall g :: g in Split(TierCells(hits, tier)[1], ';') <==>
              exists e :: e in hits && e.data.tier == tier && e.data.gene == g
  {
    StrLtIsStrictTotalOrder();
    var genes := GenesOf(hits, tier);
    var sorted := SortedSet(genes, StrLt);
    SortedSetSpec(genes, StrLt);
    forall i | 0 <= i < |sorted| ensures ';' !in sorted[i] {
      assert sorted[i] in genes;
    }
    SplitJoin(sorted, ';');
  }

  /** For the genes {"TP53", "BRCA1"} in one tier the gene field is
      "BRCA1;TP53". */
  lemma GeneFieldExample(hits: set<Entry>, tier: int)
    requires GenesOf(hits, tier) == {"TP53", "BRCA1"}
    ensures TierCells(hits, tier) == ["1", "BRCA1;TP53"]
  {
    StrLtIsStrictTotalOrder();
    assert StrLt("BRCA1", "TP53");
    AscendingIsSortedSet(["BRCA1", "TP53"], {"TP53", "BRCA1"}, StrLt);
    assert Join(["BRCA1", "TP53"], ';') == "BRCA1;TP53";
  }

  /** A tier has genes exactly when some hit has that tier. */
  lemma GenesOfNonEmpty(hits: set<Entry>, tier: int)
    ensures GenesOf(hits, tier) != {} <==> exists e :: e in hits && e.data.tier == tier
  {
    if e :| e in hits && e.data.tier == tier {
      assert e.data.gene in GenesOf(hits, tier);
    }
  }

  /** Adding one hit adds its gene to the genes of its own tier only. */
  lemma GenesOfAddHit(done: set<Entry>, hit: Entry, tier: int)
    ensures GenesOf(done + {hit}, tier) ==
              GenesOf(done, tier) + (if hit.data.tier == tier then {hit.data.gene} else {})
  {
  }

  /** The tiers the hits have. */
  function TiersHit(hits: set<Entry>): set<int>
  {
    set e | e in hits :: e.data.tier
  }

  /** The `hits` dictionary of `print_variant`: each tier some hit has, mapped
      to the genes of the hits with that tier. */
  function Grouping(hits: set<Entry>): map<int, set<string>>
  {
    map t | t in TiersHit(hits) :: GenesOf(hits, t)
  }

  /** The grouping has a tier exactly when the tier has genes. */
  lemma GroupingDomain(hits: set<Entry>, tier: int)
    ensures tier in Grouping(hits) <==> GenesOf(hits, tier) != {}
  {
    GenesOfNonEmpty(hits, tier);
  }

  /** Recording one more hit under its tier extends the grouping. */
  lemma GroupHit(done: set<Entry>, hit: Entry)
    ensures Grouping(done + {hit}) ==
              Grouping(done)[hit.data.tier := Recorded(Grouping(done), hit.data.tier) + {hit.data.gene}]
  {
    var tier := hit.data.tier;
    var lhs := Grouping(done + {hit});
    var rhs := Grouping(done)[tier := Recorded(Grouping(done), tier) + {hit.data.gene}];
    assert TiersHit(done + {hit}) == TiersHit(done) + {tier};
    forall t | t in lhs ensures t in rhs && lhs[t] == rhs[t] {
      GenesOfAddHit(done, hit, t);
    }
    forall t | t in rhs ensures t in lhs {
    }
  }

  /** What a grouping records for a tier, nothing for a tier it lacks. */
  function Recorded(hits: map<int, set<string>>, tier: int): set<string>
  {
    if tier in hits then hits[tier] else {}
  }

  /** The first half of `print_variant`: the `hits` dictionary, mapping each
      tier that some hit has to the genes of the hits with that tier. */
  method GroupByTier(intersections: set<Entry>) returns (hits: map<int, set<string>>)
    ensures hits == Grouping(intersections)
  {
    hits := map[];
    var rest := intersections;
    assert Grouping(intersections - rest) == map[];
    while rest != {}
      invariant rest <= intersections
      invariant hits == Grouping(intersections - rest)
      decreases |rest|
    {
      var i :| i in rest;
      var gene, tier := i.data.gene, i.data.tier;
      GroupStep(intersections, rest, i);
      if tier !in hits {
        hits := hits[tier := {}];
      }
      hits := hits[tier := hits[tier] + {gene}];
      rest := rest - {i};
    }
    assert intersections - rest == intersections;
  }

  /** Moving one hit from the rest to the grouped part records it. */
  lemma GroupStep(all: set<Entry>, rest: set<Entry>, i: Entry)
    requires i in rest && rest <= all
    ensures Grouping(all - (rest - {i})) ==
              Grouping(all - rest)[i.data.tier := Recorded(Grouping(all - rest), i.data.tier) + {i.data.gene}]
  {
    assert all - (rest - {i}) == (all - rest) + {i};
    GroupHit(all - rest, i);
  }

  /** `print_variant`: groups the hits' genes by tier, then lays out the row. */
  method PrintVariant(sortedTiers: seq<int>, fieldnames: seq<string>, fields: map<string, string>, intersections: set<Entry>)
    returns (row: seq<string>)
    requires forall i :: 0 <= i < |fieldnames| ==> fieldnames[i] in fields
    ensures row == OutputRow(sortedTiers, fieldnames, fields, intersections)
  {
    var hits := GroupByTier(intersections);
    var outputFields := Passthrough(fields, fieldnames);
    var outputTiers := [];
    StrLtIsStrictTotalOrder();
    var j := 0;
    while j < |sortedTiers|
      invariant 0 <= j <= |sortedTiers|
      invariant outputTiers == TierFields(intersections, sortedTiers[..j])
    {
      var t := sortedTiers[j];
      TierFieldsSnoc(intersections, sortedTiers, j);
      GroupingDomain(intersections, t);
      if t in hits {
        var genes := SortSet(hits[t], StrLt);
        assert ["1", Join(genes, ';')] == TierCells(intersections, t);
        outputTiers := outputTiers + ["1", Join(genes, ';')];
      } else {
        outputTiers := outputTiers + ["0", ""];
      }
      j := j + 1;
    }
    assert sortedTiers[..j] == sortedTiers;
    row := outputFields + outputTiers;
  }

  /** The body of the loop of `annotate_variants` for one variant with both
      breakends: one lookup over the span between the breakends when they
      share a chromosome, otherwise one lookup per breakend window and the
      union of both; then the row of `print_variant`. */
  method AnnotateVariant(annotations: AnnIntervals, halfWindow: int, sortedTiers: seq<int>, fieldnames: seq<string>,
                         row: Variant, chr1: string, chr2: string)
    returns (output: seq<string>)
    requires annotations.Valid() && HasFields(row, fieldnames)
    ensures output == OutputRow(sortedTiers, fieldnames, row.fields,
                                VariantHits(annotations, halfWindow, chr1, row.pos1, chr2, row.pos2))
  {
    var pos1, pos2 := row.pos1, row.pos2;
    if chr1 == chr2 {
      var intersections := annotations.Lookup(chr1, pos1, pos2);
      assert intersections == VariantHits(annotations, halfWindow, chr1, pos1, chr2, pos2);
      output := PrintVariant(sortedTiers, fieldnames, row.fields, intersections);
    } else {
      var pos1Low := Max(0, pos1 - halfWindow);
      var pos1High := pos1 + (halfWindow - 1);
      var intersections1 := annotations.Lookup(chr1, pos1Low, pos1High);
      var pos2Low := Max(0, pos2 - halfWindow);
      var pos2High := pos2 + (halfWindow - 1);
      var intersections2 := annotations.Lookup(chr2, pos2Low, pos2High);
      assert intersections1 + intersections2 == VariantHits(annotations, halfWindow, chr1, pos1, chr2, pos2);
      output := PrintVariant(sortedTiers, fieldnames, row.fields, intersections1 + intersections2);
    }
  }

  /** The row written for a variant. */
  ghost function AnnotatedRow(ann: AnnIntervals, window: int, tiers: set<int>, fieldnames: seq<string>, v: Variant): seq<string>
    reads ann
    requires ann.Valid() && HasBreakends(v) && HasFields(v, fieldnames)
  {
    var hits := VariantHits(ann, HalfWindow(window), v.fields["chr1"], v.pos1, v.fields["chr2"], v.pos2);
    OutputRow(SortedTiers(tiers), fieldnames, v.fields, hits)
  }

  /** The tiers in ascending order: `sorted(tiers)`. */
  ghost function SortedTiers(tiers: set<int>): seq<int>
  {
    IntLtIsStrictTotalOrder();
    SortedSet(tiers, IntLt)
  }

  /** Annotation row r hits variant v: on one chromosome, its padded interval
      meets the span between the breakends; across chromosomes, it meets the
      window around either breakend on that breakend's chromosome. */
  ghost predicate RowHitsVariant(r: AnnotationRow, pad: int, half: int, v: Variant)
    requires HasBreakends(v)
  {
    var chr1, chr2 := v.fields["chr1"], v.fields["chr2"];
    if chr1 == chr2 then RowHitsSpan(r, pad, chr1, v.pos1, v.pos2)
    else
      || RowHitsSpan(r, pad, chr1, WindowLow(v.pos1, half), WindowHigh(v.pos1, half))
      || RowHitsSpan(r, pad, chr2, WindowLow(v.pos2, half), WindowHigh(v.pos2, half))
  }

  /** The hits of a variant on a store built from annotation rows are exactly
      the padded intervals of the rows that hit it. */
  lemma VariantHitsFromRows(rows: seq<AnnotationRow>, pad: int, ann: AnnIntervals, half: int, v: Variant, e: Entry)
    requires ann.Valid() && ann.chroms == IndexOf(rows, pad)
    requires HasBreakends(v)
    ensures e in VariantHits(ann, half, v.fields["chr1"], v.pos1, v.fields["chr2"], v.pos2) <==>
              exists i :: 0 <= i < |rows| && Padded(rows[i], pad) == e && RowHitsVariant(rows[i], pad, half, v)
  {
    var chr1, chr2 := v.fields["chr1"], v.fields["chr2"];
    if chr1 == chr2 {
      StoredHitsSpan(rows, pad, ann, chr1, v.pos1, v.pos2, e);
    } else {
      StoredHitsSpan(rows, pad, ann, chr1, WindowLow(v.pos1, half), WindowHigh(v.pos1, half), e);
      StoredHitsSpan(rows, pad, ann, chr2, WindowLow(v.pos2, half), WindowHigh(v.pos2, half), e);
    }
  }

  /** End to end: once the annotation rows are read with padding pad, the
      flag of the k-th tier in a variant's output row is "1" exactly when some
      annotation row of that tier hits the variant. */
  lemma TierFlagMeansAnnotationHit(rows: seq<AnnotationRow>, pad: int, ann: AnnIntervals, window: int,
                                   tiers: set<int>, fieldnames: seq<string>, v: Variant, k: int)
    requires ann.Valid() && ann.chroms == IndexOf(rows, pad)
    requires HasBreakends(v) && HasFields(v, fieldnames)
    requires 0 <= k < |SortedTiers(tiers)|
    ensures |AnnotatedRow(ann, window, tiers, fieldnames, v)| == |fieldnames| + 2 * |SortedTiers(tiers)|
    ensures AnnotatedRow(ann, window, tiers, fieldnames, v)[|fieldnames| + 2 * k] == "1" <==>
              exists i :: 0 <= i < |rows| && rows[i].tier == SortedTiers(tiers)[k] &&
                RowHitsVariant(rows[i], pad, HalfWindow(window), v)
  {
    var half := HalfWindow(window);
    var hits := VariantHits(ann, half, v.fields["chr1"], v.pos1, v.fields["chr2"], v.pos2);
    var t := SortedTiers(tiers)[k];
    OutputRowLayout(SortedTiers(tiers), fieldnames, v.fields, hits);
    if e :| e in hits && e.data.tier == t {
      VariantHitsFromRows(rows, pad, ann, half, v, e);
    }
    if i :| 0 <= i < |rows| && rows[i].tier == t && RowHitsVariant(rows[i], pad, half, v) {
      VariantHitsFromRows(rows, pad, ann, half, v, Padded(rows[i], pad));
      assert Padded(rows[i], pad) in hits;
    }
  }

  /** A gene annotated on chr1 at [990, 1010) without padding is hit by a
      variant with breakends chr1:1000 and chr2:999999 for a window of 50
      (query [975, 1024], containing it) and for a window of 10 (query
      [995, 1004], overlapping it only in part). */
  lemma CrossChromosomeExample(ann: AnnIntervals, gene: string, tier: int)
    requires ann.Valid() && ann.chroms == IndexOf([AnnotationRow("chr1", 990, 1010, gene, tier)], 0)
    ensures Entry(990, 1010, Payload(gene, tier)) in VariantHits(ann, HalfWindow(50), "chr1", 1000, "chr2", 999999)
    ensures Entry(990, 1010, Payload(gene, tier)) in VariantHits(ann, HalfWindow(10), "chr1", 1000, "chr2", 999999)
  {
    var rows := [AnnotationRow("chr1", 990, 1010, gene, tier)];
    PaddedRowLookup(rows, 0, ann, 0, 975, 1024);
    PaddedRowLookup(rows, 0, ann, 0, 995, 1004);
  }

  /** How annotating the variants ends. */
  datatype RunStatus =
    | Completed
      /** The row lacks a breakend chromosome column. */
    | MissingColumn(row: nat, column: string)

  /** `annotate_variants`: one row per variant, in input order; stops at the
      first variant without a `chr1` or `chr2` value. */
  method AnnotateVariants(window: int, tiers: set<int>, annotations: AnnIntervals, fieldnames: seq<string>, variants: seq<Variant>)
    returns (rows: seq<seq<string>>, status: RunStatus)
    requires annotations.Valid()
    requires forall k :: 0 <= k < |variants| ==> HasFields(variants[k], fieldnames)
    ensures |rows| <= |variants|
    ensures status == Completed ==> |rows| == |variants|
    ensures status.MissingColumn? ==>
              && status.row == |rows| < |variants|
              && !HasBreakends(variants[status.row])
              && status.column == (if "chr1" in variants[status.row].fields then "chr2" else "chr1")
    ensures forall k :: 0 <= k < |rows| ==>
              HasBreakends(variants[k]) && rows[k] == AnnotatedRow(annotations, window, tiers, fieldnames, variants[k])
  {
    var halfWindow := HalfWindow(window);
    IntLtIsStrictTotalOrder();
    var sortedTiers := SortSet(tiers, IntLt);
    rows := [];
    var k := 0;
    while k < |variants|
      invariant 0 <= k <= |variants| && |rows| == k
      invariant forall j :: 0 <= j < k ==>
                  HasBreakends(variants[j]) && rows[j] == AnnotatedRow(annotations, window, tiers, fieldnames, variants[j])
    {
      var row := variants[k];
      if "chr1" !in row.fields {
        status := MissingColumn(k, "chr1");
        return;
      }
      var chr1 := row.fields["chr1"];
      if "chr2" !in row.fields {
        status := MissingColumn(k, "chr2");
        return;
      }
      var chr2 := row.fields["chr2"];
      var output := AnnotateVariant(annotations, halfWindow, sortedTiers, fieldnames, row, chr1, chr2);
      assert output == AnnotatedRow(annotations, window, tiers, fieldnames, row);
      rows := rows + [output];
      k := k + 1;
    }
    status := Completed;
  }
}
