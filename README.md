# svannotate: annotating structural variants with overlapping genes

This project models the gene-overlap annotator of `svdistil/svannotate.py` and
proves properties of the model.

The annotator reads a table of gene annotations. Each row has a chromosome, a
start, an end, a gene name and an integer tier. Each gene interval is padded by
`pad` on both sides and stored in one interval tree per chromosome. Then, for
each structural variant (two breakends `chr1:pos1` and `chr2:pos2`), the
annotator looks up the genes the variant touches:

- when both breakends are on one chromosome, the span `[pos1, pos2]`;
- otherwise, around each breakend, on that breakend's own chromosome, the
  window `[max(0, pos - window // 2), pos + window // 2 - 1]`, that is
  `window // 2` positions before the breakend, and the breakend with
  `window // 2 - 1` positions after it.

For each variant it writes one row: the variant's own fields, followed by two
fields per tier in ascending tier order. The first is `"1"` if some hit gene
has that tier and `"0"` otherwise. The second is the tier's gene names, sorted
and joined by `;`, or `""`.

Modules:

- `Sorting`: what Python's `sorted` returns for a finite set under a strict
  total order (`SortedSet`), and a method that computes it (`SortSet`).
- `Strings`: Python's string order, `str.join` and `str.split` with a
  one-character separator.
- `AnnotationIndex`:
  - the interval-tree entries and their overlap query;
  - the class `AnnIntervals`;
  - `ReadAnnotations`, which builds the index from the annotation rows.
- `VariantAnnotator`:
  - the query spans of a variant;
  - `GroupByTier` and `PrintVariant`, which build one output row;
  - `AnnotateVariant`, the lookups and the row for one variant;
  - `AnnotateVariants`, the loop over the variants.

Each state-changing piece of the source is a method proved against a
specification function:

| method | specification function |
|---|---|
| `AnnIntervals.Add` | a `map` update |
| `ReadAnnotations` | `IndexOf`, `TiersOf` |
| `GroupByTier` | `Grouping` |
| `PrintVariant` | `OutputRow` |
| `AnnotateVariants` | `AnnotatedRow` |

The lemmas state what those functions mean. The end-to-end lemma
`TierFlagMeansAnnotationHit` ties an output flag back to the annotation rows.

Three behaviours of the code that the model keeps:

- **Duplicate intervals.** An interval tree is a set of (begin, end, data)
  intervals, so two identical annotation rows are stored once. Each tree is
  therefore a `set<Entry>`, not a multiset.
- **Inverted span.** A same-chromosome variant with `pos2 < pos1` asks for an
  inverted span. The interval tree answers an inverted or empty range with the
  empty set, so such a variant hits nothing: the order of the breakends
  matters.
- **Partial output.** A variant row without a `chr1` or `chr2` column ends the
  run with a `KeyError`. The rows already printed stay printed.

## Model

| member | source | states |
|---|---|---|
| `AnnotationIndex.Overlap` | svdistil/svannotate.py:100 | an interval-tree slice returns only stored entries |
| `AnnotationIndex.OverlapClosedSpan` | svdistil/svannotate.py:100 | slicing `[s, t+1)` finds exactly the non-empty entries that share a position with the closed span `[s, t]` |
| `AnnotationIndex.AnnIntervals.constructor` | svdistil/svannotate.py:89-90 | a new index holds no chromosome |
| `AnnotationIndex.AnnIntervals.Add` | svdistil/svannotate.py:92-96 | the entry joins its own chromosome's tree, which is created on first use; every other chromosome is unchanged; the key set grows by that chromosome only; no tree is empty |
| `AnnotationIndex.AnnIntervals.Lookup` | svdistil/svannotate.py:98-102 | an unknown chromosome gives the empty set; otherwise the result is exactly the stored `[b, e)` with `b <= t`, `e > s` and `s <= t` (inclusive query end, exclusive stored end), equivalently those that share a position with `[s, t]` |
| `AnnotationIndex.IndexOfContents` | svdistil/svannotate.py:110-116 | after the rows are inserted, a chromosome has a tree exactly when some row names it, and that tree holds exactly the padded intervals of its rows |
| `AnnotationIndex.StoredHitsSpan` | svdistil/svannotate.py:113-116 | the stored entries on a chromosome that meet a span are exactly the padded intervals of the rows that meet it |
| `AnnotationIndex.PaddedRowLookup` | svdistil/svannotate.py:114-115 | a lookup finds a row's gene exactly when the query span meets `[start - pad, end + pad)` |
| `AnnotationIndex.PaddingEdges` | svdistil/svannotate.py:114-115 | point queries at `start - pad` and `end + pad - 1` hit the gene; point queries at `start - pad - 1` and `end + pad` miss it; the query `[start - pad, end + pad]` hits it |
| `AnnotationIndex.ReadAnnotations` | svdistil/svannotate.py:105-117 | on success, every row is stored unclamped as `[start - pad, end + pad)` with payload `(gene, tier)`, and the tier set is exactly the rows' tiers; at the first row whose padded interval is empty it stops, with that row's tier collected and only the earlier rows stored |
| `Sorting.SortedSetSpec` | svdistil/svannotate.py:128 | `sorted` of a set is strictly ascending, so duplicate-free, holds exactly the set's elements, and has its size |
| `Sorting.AscendingIsSortedSet` | svdistil/svannotate.py:128 | any strictly ascending list of exactly a set's elements is that set sorted, so the sorted order is unique |
| `Sorting.SortSet` | svdistil/svannotate.py:137 | the method returns the set sorted |
| `Strings.StrLtIsStrictTotalOrder` | svdistil/svannotate.py:128 | Python's string order is irreflexive, transitive and total, so the genes have one sorted order |
| `Strings.SplitJoin` | svdistil/svannotate.py:128 | splitting a `;`-joined non-empty list of `;`-free names gives the list back |
| `VariantAnnotator.IntLtIsStrictTotalOrder` | svdistil/svannotate.py:137 | `<` on tiers is a strict total order |
| `VariantAnnotator.HalfWindow` | svdistil/svannotate.py:133 | `window // 2` floors: `2*half <= window < 2*half + 2` |
| `VariantAnnotator.BreakendWindow` | svdistil/svannotate.py:150-154 | a window never starts below 0; unclamped, it has `2 * (window // 2)` positions, and covers the breakend when `window >= 2`; for `window < 2` it is inverted |
| `VariantAnnotator.VariantHits` | svdistil/svannotate.py:146-156 | on one chromosome, the hits are the entries meeting `[pos1, pos2]` with no reordering; otherwise, the union of the entries meeting either clamped window on its breakend's chromosome |
| `VariantAnnotator.NarrowWindowHitsNothing` | svdistil/svannotate.py:149-156 | with `window < 2`, a cross-chromosome variant hits nothing |
| `VariantAnnotator.InvertedSpanHitsNothing` | svdistil/svannotate.py:146-147 | a same-chromosome variant with `pos2 < pos1` hits nothing |
| `VariantAnnotator.VariantHitsFromRows` | svdistil/svannotate.py:141-156 | a variant's hits are exactly the padded intervals of the annotation rows that hit its span or windows |
| `VariantAnnotator.CrossChromosomeExample` | svdistil/svannotate.py:149-156 | a gene on chr1 at `[990, 1010)` without padding is hit by a chr1:1000 / chr2:999999 variant for windows 50 and 10 (overlap, not containment) |
| `VariantAnnotator.GenesOfNonEmpty` | svdistil/svannotate.py:121-128 | a tier has genes exactly when some hit has that tier |
| `VariantAnnotator.GenesOfAddHit` | svdistil/svannotate.py:122-126 | one more hit adds its gene to its own tier only |
| `VariantAnnotator.GroupingDomain` | svdistil/svannotate.py:124-128 | the `hits` dictionary has a tier exactly when that tier has genes |
| `VariantAnnotator.GroupHit` | svdistil/svannotate.py:122-126 | recording one more hit extends its tier's gene set, creating it on first use, and leaves other tiers alone |
| `VariantAnnotator.GroupStep` | svdistil/svannotate.py:122-126 | moving one hit from the rest of the intersections into the grouped part records it under its tier |
| `VariantAnnotator.GroupByTier` | svdistil/svannotate.py:121-126 | the loop builds exactly the grouping: each tier some hit has, mapped to that tier's genes |
| `VariantAnnotator.TierFieldsLength` | svdistil/svannotate.py:128 | two fields per tier |
| `VariantAnnotator.TierFieldsAt` | svdistil/svannotate.py:128 | the k-th tier's two fields sit at offset `2k` |
| `VariantAnnotator.TierFieldsSnoc` | svdistil/svannotate.py:128 | one more tier appends its two fields |
| `VariantAnnotator.OutputRowTier` | svdistil/svannotate.py:127-129 | the k-th tier's fields of a row are that tier's flag and gene list |
| `VariantAnnotator.OutputRowLayout` | svdistil/svannotate.py:127-129 | a row has length `len(fieldnames) + 2*len(tiers)` and starts with the variant's fields in column order; per tier, the flag is `"1"` exactly when some hit has that tier and `"0"` exactly when it has no genes; the gene field is `""` for a tier without genes and otherwise the sorted, `;`-joined genes |
| `VariantAnnotator.GeneFieldReadsBack` | svdistil/svannotate.py:128 | when no gene name holds `;`, splitting a hit tier's gene field gives a strictly ascending, duplicate-free list of exactly the genes hit in that tier |
| `VariantAnnotator.GeneFieldExample` | svdistil/svannotate.py:128 | the genes {"TP53", "BRCA1"} give the fields `"1"`, `"BRCA1;TP53"` |
| `VariantAnnotator.PrintVariant` | svdistil/svannotate.py:120-130 | the row built equals `OutputRow`, whose meaning `OutputRowLayout` states |
| `VariantAnnotator.AnnotateVariant` | svdistil/svannotate.py:146-156 | the row built for one variant with both breakends is `OutputRow` of exactly that variant's hits, the span or the union of both windows |
| `VariantAnnotator.TierFlagMeansAnnotationHit` | svdistil/svannotate.py:105-156 | after the annotations are read, a tier's flag in a variant's row is `"1"` exactly when some annotation row of that tier hits the variant |
| `VariantAnnotator.AnnotateVariants` | svdistil/svannotate.py:132-156 | each variant gets one row, in input order, which is its `AnnotatedRow` for the tiers in ascending order; at the first variant lacking `chr1` (checked first) or `chr2`, it stops, naming that row and column, with the earlier rows kept |

## Left out

- Argument parsing, logging, the version lookup, process exit and `main`
  (svdistil/svannotate.py:32-85, 159-191) are not modelled; they are glue.
- Files and printing are not modelled:
  - opening files and `csv.DictReader` are replaced by in-memory sequences of
    rows;
  - `print` is replaced by returning the row as a sequence of strings, before
    its tab-join;
  - `PrintVariant` and `AnnotateVariants` return rows rather than printing them.
- The interval-tree library itself is not modelled:
  - each tree is the set of its entries, and its slice is the overlap filter in
    `Overlap`, which is empty for an empty or inverted range;
  - balancing and the library's other operations are not modelled.
- `AnnotationIndex.AnnIntervals.Add` requires `start < end`. The library raises
  an error for an empty interval; in `ReadAnnotations` that error path is
  modelled as `BuildStatus.NullInterval`.
- `int(...)` is not modelled: integer columns arrive already parsed. A field
  that does not parse (a `ValueError`) is not modelled, so neither is the order
  between that error and a missing `chr2`.
- The header line (svdistil/svannotate.py:138) is not modelled.
  - It lists the tiers in the iteration order of the unsorted tier set.
  - The data rows use ascending order (line 137).
  - The header's tier columns can therefore be out of step with the data
    columns.
- `VariantAnnotator.AnnotateVariants` requires that every variant has a value
  for every column (`HasFields`). `csv.DictReader` fills the missing fields of
  a short row with `None`, and joining the printed row then fails with a
  `TypeError`; that path is not modelled.
- Each tree is held by value in a map. The source's sharing of the tree object
  (`tree = self.chroms[chrom]`, then mutating it) is modelled as replacing the
  map entry, which has the same effect, since nothing else holds the tree.
